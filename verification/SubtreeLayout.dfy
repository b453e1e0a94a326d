/** The subtree format byte by byte: where every field stands, lowest byte first. */
module SubtreeLayout {
  import opened Bytes
  import opened SubtreeState
  import opened SubtreeCodec

  /** Node `i` takes the 48 bytes from byte 48i on. */
  lemma {:induction false} PutNodesAt(nodes: seq<Node>, i: nat)
    requires i < |nodes|
    ensures PutNodes(nodes)[48 * i..48 * i + 48] == PutNode(nodes[i])
  {
    if i > 0 {
      PutNodesAt(nodes[1..], i - 1);
      assert PutNodes(nodes)[48..] == PutNodes(nodes[1..]);
      DropSlice(PutNodes(nodes), 48, 48 * (i - 1), 48);
    }
  }

  /** The hash, then the fee, then the size. */
  lemma {:induction false} NodeBytes(node: Node, k: nat)
    requires k < 8
    ensures PutNode(node)[..32] == node.hash
    ensures PutNode(node)[32 + k] == ByteOf(node.fee, k)
    ensures PutNode(node)[40 + k] == ByteOf(node.sizeInBytes, k)
  {
    PutLEAt(node.fee, 8, k);
    PutLEAt(node.sizeInBytes, 8, k);
  }

  /** The root, then the fees, the size and the number of nodes. */
  lemma {:induction false} HeaderLayout(c: Content, k: nat)
    requires k < 8
    ensures Encode(c)[..32] == c.root
    ensures Encode(c)[32 + k] == ByteOf(c.fees, k)
    ensures Encode(c)[40 + k] == ByteOf(c.sizeInBytes, k)
    ensures Encode(c)[48 + k] == ByteOf(|c.nodes|, k)
  {
    var b := Encode(c);
    assert b[..56] == Header(c);
    PutLEAt(c.fees, 8, k);
    PutLEAt(c.sizeInBytes, 8, k);
    PutLEAt(|c.nodes|, 8, k);
    assert b[32 + k] == Header(c)[32 + k] == PutU64(c.fees)[k];
    assert b[40 + k] == Header(c)[40 + k] == PutU64(c.sizeInBytes)[k];
    assert b[48 + k] == Header(c)[48 + k] == PutLE(|c.nodes|, 8)[k];
  }

  lemma {:induction false} NodesSlice(c: Content, i: nat)
    requires i < |c.nodes|
    ensures Encode(c)[56 + 48 * i..56 + 48 * i + 48] == PutNode(c.nodes[i])
  {
    PutNodesAt(c.nodes, i);
    Inside(Header(c), PutNodes(c.nodes), PutLE(|c.conflicting|, 8) + PutHashes(c.conflicting),
           48 * i, PutNode(c.nodes[i]));
  }

  lemma {:induction false} Inside(before: seq<byte>, b: seq<byte>, after: seq<byte>, at: nat, part: seq<byte>)
    requires at + |part| <= |b| && b[at..at + |part|] == part
    ensures (before + (b + after))[|before| + at..|before| + at + |part|] == part
  {
  }

  /** Node `i` from byte 56 + 48i on: hash, fee, size. */
  lemma {:induction false} NodeLayout(c: Content, i: nat, k: nat)
    requires i < |c.nodes| && k < 8
    ensures Encode(c)[56 + 48 * i..56 + 48 * i + 32] == c.nodes[i].hash
    ensures Encode(c)[56 + 48 * i + 32 + k] == ByteOf(c.nodes[i].fee, k)
    ensures Encode(c)[56 + 48 * i + 40 + k] == ByteOf(c.nodes[i].sizeInBytes, k)
  {
    NodesSlice(c, i);
    NodeBytes(c.nodes[i], k);
    var b, at := Encode(c), 56 + 48 * i;
    assert b[at..at + 48][..32] == b[at..at + 32];
    assert b[at..at + 48][32 + k] == b[at + 32 + k] && b[at..at + 48][40 + k] == b[at + 40 + k];
  }

  lemma {:induction false} ConflictingSlices(header: seq<byte>, nodes: seq<byte>, count: seq<byte>, hashes: seq<byte>)
    requires |count| == 8
    ensures var b, at := header + (nodes + (count + hashes)), |header| + |nodes|;
      b[at..at + 8] == count && b[at + 8..] == hashes
  {
  }

  /** Behind the nodes their number of conflicting hashes, and these. */
  lemma {:induction false} ConflictingLayout(c: Content, at: nat, k: nat)
    requires k < 8 && at == 56 + 48 * |c.nodes|
    ensures Encode(c)[at + k] == ByteOf(|c.conflicting|, k)
    ensures forall j: nat :: j < |c.conflicting| ==> HashAt(Encode(c)[at + 8..], j) == c.conflicting[j]
  {
    var b := Encode(c);
    ConflictingSlices(Header(c), PutNodes(c.nodes), PutLE(|c.conflicting|, 8), PutHashes(c.conflicting));
    PutLEAt(|c.conflicting|, 8, k);
    assert b[at + k] == b[at..at + 8][k];
    forall j: nat | j < |c.conflicting| ensures HashAt(b[at + 8..], j) == c.conflicting[j] {
      PutHashesAt(c.conflicting, j);
    }
  }

  /** SerializeNodes: hash `i` stands at byte 32i, and nothing else does. */
  lemma {:induction false} NodesOnlyLayout(nodes: seq<Node>, i: nat)
    requires i < |nodes|
    ensures |PutHashes(Hashes(nodes))| == 32 * |nodes|
    ensures HashAt(PutHashes(Hashes(nodes)), i) == nodes[i].hash
  {
    PutHashesAt(Hashes(nodes), i);
  }
}
