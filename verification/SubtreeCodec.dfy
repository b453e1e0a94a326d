/** The byte format of a subtree: one writer, three full readers and two that keep
    only part of it.
 */
module SubtreeCodec {
  import opened Hashing
  import opened PowersOfTwo
  import opened Results
  import opened Bytes
  import opened SubtreeState
  import opened Subtrees

  /** What the format stores. */
  datatype Content = Content(root: Hash, fees: u64, sizeInBytes: u64, nodes: seq<Node>, conflicting: seq<Hash>)

  // ----- the format -----

  function PutNode(node: Node): (b: seq<byte>)
    ensures |b| == 48
  {
    node.hash + PutU64(node.fee) + PutU64(node.sizeInBytes)
  }

  function PutNodes(nodes: seq<Node>): (b: seq<byte>)
    ensures |b| == 48 * |nodes|
  {
    if nodes == [] then [] else PutNode(nodes[0]) + PutNodes(nodes[1..])
  }

  /** Root, totals and leaf count. */
  function Header(c: Content): (b: seq<byte>)
    ensures |b| == 56
  {
    c.root + PutU64(c.fees) + PutU64(c.sizeInBytes) + PutLE(|c.nodes|, 8)
  }

  function Encode(c: Content): (b: seq<byte>)
    ensures |b| == 64 + 48 * |c.nodes| + 32 * |c.conflicting|
  {
    Header(c) + (PutNodes(c.nodes) + (PutLE(|c.conflicting|, 8) + PutHashes(c.conflicting)))
  }

  // ----- reading it back -----

  function GetNode(b: seq<byte>): (node: Node)
    requires |b| == 48
    ensures PutNode(node) == b
  {
    Node(b[..32], GetU64(b[32..40]), GetU64(b[40..48]))
  }

  lemma {:induction false} GetPutNode(node: Node)
    ensures GetNode(PutNode(node)) == node
  {
    var b := PutNode(node);
    assert b[..32] == node.hash && b[32..40] == PutU64(node.fee) && b[40..48] == PutU64(node.sizeInBytes);
    GetPutU64(node.fee);
    GetPutU64(node.sizeInBytes);
  }

  function SplitNodes(b: seq<byte>, n: nat): (nodes: seq<Node>)
    requires |b| >= 48 * n
    ensures |nodes| == n
    decreases n
  {
    if n == 0 then [] else [GetNode(b[..48])] + SplitNodes(b[48..], n - 1)
  }

  /** The count stored at byte `at`. */
  function CountAt(b: seq<byte>, at: nat): u64
    requires at + 8 <= |b|
  {
    GetU64(b[at..at + 8])
  }

  /** Where the conflicting count is. */
  function ConflictingAt(b: seq<byte>): nat
    requires |b| >= 56
  {
    56 + 48 * CountAt(b, 48)
  }

  /** The stream holds all the nodes and conflicting hashes it announces. */
  predicate Accepts(b: seq<byte>) {
    && |b| >= 56
    && |b| >= ConflictingAt(b) + 8
    && |b| >= ConflictingAt(b) + 8 + 32 * CountAt(b, ConflictingAt(b))
  }

  function Consumed(b: seq<byte>): nat
    requires Accepts(b)
  {
    ConflictingAt(b) + 8 + 32 * CountAt(b, ConflictingAt(b))
  }

  function Decode(b: seq<byte>): Content
    requires Accepts(b)
  {
    var at := ConflictingAt(b);
    Content(b[..32], GetU64(b[32..40]), GetU64(b[40..48]),
            SplitNodes(b[56..], CountAt(b, 48)), SplitHashes(b[at + 8..], CountAt(b, at)))
  }

  lemma {:induction false} SplitPutNodes(nodes: seq<Node>, rest: seq<byte>)
    ensures SplitNodes(PutNodes(nodes) + rest, |nodes|) == nodes
  {
    if nodes != [] {
      var b := PutNodes(nodes) + rest;
      assert b[..48] == PutNode(nodes[0]) && b[48..] == PutNodes(nodes[1..]) + rest;
      GetPutNode(nodes[0]);
      SplitPutNodes(nodes[1..], rest);
    }
  }

  lemma {:induction false} PutSplitNodes(b: seq<byte>, n: nat)
    requires |b| >= 48 * n
    ensures PutNodes(SplitNodes(b, n)) == b[..48 * n]
    decreases n
  {
    if n > 0 {
      PutSplitNodes(b[48..], n - 1);
      assert SplitNodes(b, n)[1..] == SplitNodes(b[48..], n - 1);
      assert b[..48 * n] == b[..48] + b[48..][..48 * (n - 1)];
    }
  }

  ghost predicate Fits(c: Content) {
    |c.nodes| < TWO_64 && |c.conflicting| < TWO_64
  }

  lemma {:induction false} HeaderFields(c: Content, b: seq<byte>)
    requires Fits(c) && |b| >= 56 && b[..56] == Header(c)
    ensures b[..32] == c.root && GetU64(b[32..40]) == c.fees && GetU64(b[40..48]) == c.sizeInBytes
    ensures CountAt(b, 48) == |c.nodes|
  {
    var h := Header(c);
    assert h[..32] == c.root && h[32..40] == PutU64(c.fees) && h[40..48] == PutU64(c.sizeInBytes);
    assert h[48..56] == PutU64(|c.nodes|);
    assert b[32..40] == h[32..40] && b[40..48] == h[40..48] && b[48..56] == h[48..56] && b[..32] == h[..32];
    GetPutU64(c.fees);
    GetPutU64(c.sizeInBytes);
    GetPutU64(|c.nodes|);
  }

  lemma {:induction false} EncodeThen(c: Content, rest: seq<byte>)
    ensures Encode(c) + rest ==
      Header(c) + (PutNodes(c.nodes) + (PutLE(|c.conflicting|, 8) + (PutHashes(c.conflicting) + rest)))
  {
  }

  /** The parts of a stream, read in order. */
  lemma {:induction false} DecodedParts(
      c: Content, b: seq<byte>, counted: seq<byte>, hashes: seq<byte>, rest: seq<byte>)
    requires Fits(c) && |b| >= 56 && b[..56] == Header(c) && b[56..] == PutNodes(c.nodes) + counted
    requires counted == PutLE(|c.conflicting|, 8) + hashes && hashes == PutHashes(c.conflicting) + rest
    ensures Accepts(b) && Decode(b) == c && Consumed(b) == |b| - |rest|
  {
    var at := 56 + 48 * |c.nodes|;
    HeaderFields(c, b);
    SplitPutNodes(c.nodes, counted);
    assert b[at..] == counted by {
      SplitAppend(PutNodes(c.nodes), counted);
      DropDrop(b, 56, 48 * |c.nodes|);
    }
    SplitAppend(PutLE(|c.conflicting|, 8), hashes);
    DropDrop(b, at, 8);
    GetPutU64(|c.conflicting|);
    SplitPutHashes(c.conflicting, rest);
  }

  /** Round trip: an encoding, whatever follows it, is accepted, read back as it was
      written, and consumed exactly. */
  lemma {:induction false} RoundTrip(c: Content, rest: seq<byte>)
    requires Fits(c)
    ensures Accepts(Encode(c) + rest)
    ensures Decode(Encode(c) + rest) == c && Consumed(Encode(c) + rest) == |Encode(c)|
  {
    var hashes := PutHashes(c.conflicting) + rest;
    var counted := PutLE(|c.conflicting|, 8) + hashes;
    EncodeThen(c, rest);
    SplitAppend(Header(c), PutNodes(c.nodes) + counted);
    DecodedParts(c, Encode(c) + rest, counted, hashes, rest);
  }

  lemma {:induction false} HeaderOf(b: seq<byte>, c: Content)
    requires |b| >= 56 && |c.nodes| == CountAt(b, 48)
    requires c.root == b[..32] && c.fees == GetU64(b[32..40]) && c.sizeInBytes == GetU64(b[40..48])
    ensures Header(c) == b[..56]
  {
    assert PutLE(|c.nodes|, 8) == PutU64(CountAt(b, 48)) == b[48..56];
    assert b[..56] == b[..32] + b[32..40] + b[40..48] + b[48..56];
  }

  /** The four parts of an encoding, put together again. */
  lemma {:induction false} EncodedParts(b: seq<byte>, c: Content, at: nat, end: nat)
    requires 56 <= at <= at + 8 <= end <= |b|
    requires Header(c) == b[..56] && PutNodes(c.nodes) == b[56..at]
    requires PutLE(|c.conflicting|, 8) == b[at..at + 8] && PutHashes(c.conflicting) == b[at + 8..end]
    ensures Encode(c) == b[..end]
  {
    Rejoin(b, at, at + 8, end);
  }

  /** Canonicity: what is accepted encodes to exactly the bytes consumed. */
  lemma {:induction false} EncodeDecode(b: seq<byte>)
    requires Accepts(b)
    ensures Fits(Decode(b)) && Encode(Decode(b)) == b[..Consumed(b)]
  {
    var c, at := Decode(b), ConflictingAt(b);
    var n: nat, k: nat := CountAt(b, 48), CountAt(b, at);
    HeaderOf(b, c);
    assert PutNodes(c.nodes) == b[56..at] by {
      PutSplitNodes(b[56..], n);
      DropDrop(b, 56, 48 * n);
    }
    assert PutHashes(c.conflicting) == b[at + 8..Consumed(b)] by {
      PutSplitHashes(b[at + 8..], k);
      DropDrop(b, at + 8, 32 * k);
    }
    assert PutLE(|c.conflicting|, 8) == PutU64(k) == b[at..at + 8];
    EncodedParts(b, c, at, Consumed(b));
  }

  lemma {:induction false} Rejoin(b: seq<byte>, i: nat, j: nat, k: nat)
    requires 56 <= i <= j <= k <= |b|
    ensures b[..k] == b[..56] + (b[56..i] + (b[i..j] + b[j..k]))
  {
  }

  // ----- the writer -----

  ghost function ContentOf(s: State): Content
    requires s.root.Some?
  {
    Content(s.root.value, s.fees, s.sizeInBytes, s.nodes, s.conflicting)
  }

  lemma {:induction false} PutNodesAppend(nodes: seq<Node>, node: Node)
    ensures PutNodes(nodes + [node]) == PutNodes(nodes) + PutNode(node)
  {
    if nodes == [] {
      assert nodes + [node] == [node];
      assert PutNodes([node]) == PutNode(node) + PutNodes([]);
    } else {
      assert (nodes + [node])[1..] == nodes[1..] + [node];
      PutNodesAppend(nodes[1..], node);
    }
  }

  method WriteNodes(st: Subtree) returns (b: seq<byte>)
    requires st.Valid()
    ensures b == PutNodes(st.Nodes())
  {
    b := [];
    var i := 0;
    while i < st.length
      invariant 0 <= i <= st.length
      invariant b == PutNodes(st.nodes[..i])
    {
      PutNodesAppend(st.nodes[..i], st.nodes[i]);
      assert st.nodes[..i + 1] == st.nodes[..i] + [st.nodes[i]];
      b := b + PutNode(st.nodes[i]);
      i := i + 1;
    }
  }

  /** Subtree.Serialize. A subtree without a root makes it panic. */
  method Serialize(st: Subtree, hs: Hasher<Hash>) returns (r: Result<seq<byte>>)
    requires st.Valid()
    modifies st`rootHash
    ensures st.View() == Cached(hs, old(st.View()))
    ensures r == if st.View().root.Some? then Ok(Encode(ContentOf(st.View()))) else Err(Panic)
  {
    var root := st.RootHash(hs);
    if root.None? {
      return Err(Panic);
    }
    var b := WriteContent(st, root.value);
    return Ok(b);
  }

  /** Header, nodes and conflicting hashes, one after the other. */
  method WriteContent(st: Subtree, root: Hash) returns (b: seq<byte>)
    requires st.Valid()
    ensures b == Encode(Content(root, st.fees, st.sizeInBytes, st.Nodes(), st.conflictingNodes))
  {
    var header := root + PutU64(st.fees) + PutU64(st.sizeInBytes) + PutLE(st.length, 8);
    var nodes := WriteNodes(st);
    var conflicting := WriteHashes(st.conflictingNodes);
    b := header + (nodes + (PutLE(|st.conflictingNodes|, 8) + conflicting));
  }

  /** Subtree.SerializeNodes: the hashes alone. */
  method SerializeNodes(st: Subtree) returns (b: seq<byte>)
    requires st.Valid()
    ensures b == PutHashes(Hashes(st.Nodes()))
  {
    var hashes := st.NodeHashes();
    b := WriteHashes(hashes);
  }

  // ----- the full readers -----

  lemma {:induction false} NodesStep(
      goal: seq<Node>, done: seq<Node>, b: seq<byte>, rest: seq<byte>, b': seq<byte>, m: nat)
    requires m > 0 && |b| == 48 && rest == b + b' && |rest| >= 48 * m && goal == done + SplitNodes(rest, m)
    ensures goal == (done + [GetNode(b)]) + SplitNodes(b', m - 1)
  {
    SplitAppend(b, b');
  }

  /** `m` nodes are left of the `goal`, and `tail` follows them. */
  ghost predicate NodesFollow(goal: seq<Node>, tail: seq<byte>, done: seq<Node>, rest: seq<byte>, m: nat) {
    |rest| >= 48 * m && goal == done + SplitNodes(rest, m) && tail == rest[48 * m..]
  }

  lemma {:induction false} NodesFollowStep(
      goal: seq<Node>, tail: seq<byte>, done: seq<Node>, b: seq<byte>, b': seq<byte>, m: nat)
    requires m > 0 && |b| == 48 && NodesFollow(goal, tail, done, b + b', m)
    ensures NodesFollow(goal, tail, done + [GetNode(b)], b', m - 1)
  {
    NodesStep(goal, done, b, b + b', b', m);
    SplitAppend(b, b');
    DropDrop(b + b', 48, 48 * (m - 1));
  }

  /** Reads one of the `m` nodes left into cell `i`. */
  method ReadNode(buf: ByteReader, nodes: array<Node>, i: nat, ghost goal: seq<Node>, ghost tail: seq<byte>,
                  ghost m: nat)
    returns (ok: bool)
    requires buf.Valid() && i < nodes.Length && m > 0
    modifies buf, nodes
    ensures buf.Valid() && (ok <==> |old(buf.Rest())| >= 48)
    ensures ok ==> |buf.Rest()| == |old(buf.Rest())| - 48
    ensures ok && old(NodesFollow(goal, tail, nodes[..i], buf.Rest(), m)) ==>
      NodesFollow(goal, tail, nodes[..i + 1], buf.Rest(), m - 1)
  {
    ghost var done, follow := nodes[..i], NodesFollow(goal, tail, nodes[..i], buf.Rest(), m);
    var bytes48 := buf.ReadFull(48);
    if bytes48.None? {
      return false;
    }
    if follow {
      NodesFollowStep(goal, tail, done, bytes48.value, buf.Rest(), m);
    }
    nodes[i] := GetNode(bytes48.value);
    assert nodes[..i + 1] == done + [GetNode(bytes48.value)];
    return true;
  }

  /** The loop over the nodes. */
  method FillNodes(buf: ByteReader, nodes: array<Node>, n: nat, ghost goal: seq<Node>, ghost tail: seq<byte>)
    returns (ok: bool)
    requires buf.Valid() && n <= nodes.Length
    modifies buf, nodes
    ensures buf.Valid() && (ok <==> |old(buf.Rest())| >= 48 * n)
    ensures ok && old(NodesFollow(goal, tail, [], buf.Rest(), n)) ==>
      NodesFollow(goal, tail, nodes[..n], buf.Rest(), 0)
  {
    ghost var total, follow := |buf.Rest()|, NodesFollow(goal, tail, [], buf.Rest(), n);
    var i := 0;
    while i < n
      invariant 0 <= i <= n && buf.Valid() && |buf.Rest()| == total - 48 * i
      invariant follow ==> NodesFollow(goal, tail, nodes[..i], buf.Rest(), n - i)
    {
      ok := ReadNode(buf, nodes, i, goal, tail, n - i);
      if !ok {
        return;
      }
      i := i + 1;
    }
    return true;
  }

  /** Reads `n` nodes into the first cells of `nodes`. */
  method ReadNodes(buf: ByteReader, nodes: array<Node>, n: nat) returns (ok: bool)
    requires buf.Valid() && n <= nodes.Length
    modifies buf, nodes
    ensures buf.Valid() && (ok <==> |old(buf.Rest())| >= 48 * n)
    ensures ok ==> buf.Rest() == old(buf.Rest())[48 * n..]
    ensures ok ==> nodes[..n] == SplitNodes(old(buf.Rest()), n)
  {
    ghost var goal, tail := [], [];
    if |buf.Rest()| >= 48 * n {
      goal, tail := SplitNodes(buf.Rest(), n), buf.Rest()[48 * n..];
      assert [] + goal == goal;
    }
    ok := FillNodes(buf, nodes, n, goal, tail);
    assert ok ==> nodes[..n] + SplitNodes(buf.Rest(), 0) == nodes[..n];
  }

  /** deserializeConflictingNodes */
  method ReadConflicting(buf: ByteReader) returns (r: Option<seq<Hash>>)
    requires buf.Valid()
    modifies buf
    ensures buf.Valid()
    ensures var rest := old(buf.Rest());
      if |rest| >= 8 && |rest| - 8 >= 32 * GetU64(rest[..8])
      then r == Some(SplitHashes(rest[8..], GetU64(rest[..8]))) else r == None
  {
    var n := ReadU64(buf);
    if n.None? {
      return None;
    }
    r := ReadHashes(buf, n.value);
  }

  /** The state a full reader leaves: capacity and height come from the leaf count, the
      root is the stored one, and an index that existed is not touched. */
  function Loaded(c: Content, index: Option<map<Hash, nat>>, height: int): State {
    State(c.nodes, c.fees, c.sizeInBytes, c.conflicting, Some(c.root), index, |c.nodes|, height)
  }

  /** A subtree that is written and read back keeps nodes, totals, conflicting hashes
      and root; it loses its index, and its size and height are those of its leaves. */
  lemma {:induction false} ReadBack(hs: Hasher<Hash>, s: State, rest: seq<byte>, height: int)
    requires |s.nodes| > 0 && |s.nodes| < TWO_64 && |s.conflicting| < TWO_64
    ensures var c := Cached(hs, s);
      var b := Encode(ContentOf(c)) + rest;
      && Accepts(b)
      && Loaded(Decode(b), None, height) == c.(index := None, treeSize := |s.nodes|, height := height)
    ensures RootCoherent(hs, s) ==>
      RootCoherent(hs, Loaded(Decode(Encode(ContentOf(Cached(hs, s))) + rest), None, height))
  {
    RoundTrip(ContentOf(Cached(hs, s)), rest);
  }

  /** Root and totals, the same for all full readers. */
  method ReadHeader(st: Subtree, buf: ByteReader) returns (n: Option<u64>)
    requires buf.Valid()
    modifies st`rootHash, st`fees, st`sizeInBytes, buf
    ensures buf.Valid() && (n.Some? <==> |old(buf.Rest())| >= 56)
    ensures n.Some? ==>
      var b := old(buf.Rest());
      && st.rootHash == Some(b[..32]) && st.fees == GetU64(b[32..40]) && st.sizeInBytes == GetU64(b[40..48])
      && n.value == CountAt(b, 48) && buf.Rest() == b[56..]
  {
    ghost var b := buf.Rest();
    var root := buf.ReadFull(32);
    if root.None? {
      return None;
    }
    assert root.value == b[..32] && buf.Rest() == b[32..];
    st.rootHash := Some(root.value);
    var fees := ReadU64(buf);
    if fees.None? {
      return None;
    }
    assert b[32..][..8] == b[32..40] && buf.Rest() == b[40..];
    st.fees := fees.value;
    var size := ReadU64(buf);
    if size.None? {
      return None;
    }
    assert b[40..][..8] == b[40..48] && buf.Rest() == b[48..];
    st.sizeInBytes := size.value;
    n := ReadU64(buf);
    if n.Some? {
      assert b[48..][..8] == b[48..56] && buf.Rest() == b[56..];
    }
  }

  /** The nodes, and the fields that follow from their number. */
  method LoadNodes(st: Subtree, buf: ByteReader, n: nat, backing: array<Node>) returns (ok: bool)
    requires buf.Valid() && n <= backing.Length
    modifies st`treeSize, st`height, st`nodes, st`length, backing, buf
    ensures buf.Valid() && (ok <==> |old(buf.Rest())| >= 48 * n)
    ensures ok ==> buf.Rest() == old(buf.Rest())[48 * n..]
    ensures st.nodes == backing && st.length == n == st.treeSize && (n > 0 ==> st.height == CeilLog2(n))
    ensures ok ==> st.nodes[..n] == SplitNodes(old(buf.Rest()), n)
  {
    st.treeSize := n;
    var height: int :| n > 0 ==> height == CeilLog2(n);
    st.height := height;
    st.nodes := backing;
    st.length := n;
    ok := ReadNodes(buf, backing, n);
  }

  /** The conflicting hashes, the end of every full reader. */
  method LoadConflicting(st: Subtree, bytes: seq<byte>, buf: ByteReader) returns (ok: bool)
    requires buf.Valid() && |bytes| >= 56 && |bytes| >= ConflictingAt(bytes)
    requires buf.Rest() == bytes[ConflictingAt(bytes)..]
    modifies st`conflictingNodes, buf
    ensures ok <==> Accepts(bytes)
    ensures ok ==> st.conflictingNodes == Decode(bytes).conflicting
  {
    var at := ConflictingAt(bytes);
    var conflicting := ReadConflicting(buf);
    if |bytes| >= at + 8 {
      DropDrop(bytes, at, 8);
    }
    if conflicting.None? {
      return false;
    }
    st.conflictingNodes := conflicting.value;
    return true;
  }

  /** All fields, into the given memory. */
  method Load(st: Subtree, bytes: seq<byte>, buf: ByteReader, n: nat, backing: array<Node>) returns (ok: bool)
    requires buf.Valid() && |bytes| >= 56 && buf.Rest() == bytes[56..]
    requires n == CountAt(bytes, 48) <= backing.Length
    requires st.rootHash == Some(bytes[..32]) && st.fees == GetU64(bytes[32..40])
    requires st.sizeInBytes == GetU64(bytes[40..48])
    modifies st`treeSize, st`height, st`nodes, st`length, st`conflictingNodes, backing, buf
    ensures ok <==> Accepts(bytes)
    ensures ok ==> st.Valid() && st.View() == Loaded(Decode(bytes), st.nodeIndex, st.height)
    ensures st.nodes == backing && st.length == n && (n > 0 ==> st.height == CeilLog2(n))
  {
    ok := LoadLists(st, bytes, buf, n, backing);
  }

  /** The nodes, and then the conflicting hashes. */
  method LoadLists(st: Subtree, bytes: seq<byte>, buf: ByteReader, n: nat, backing: array<Node>) returns (ok: bool)
    requires buf.Valid() && |bytes| >= 56 && buf.Rest() == bytes[56..]
    requires n == CountAt(bytes, 48) <= backing.Length
    modifies st`treeSize, st`height, st`nodes, st`length, st`conflictingNodes, backing, buf
    ensures ok <==> Accepts(bytes)
    ensures st.nodes == backing && st.length == n == st.treeSize && (n > 0 ==> st.height == CeilLog2(n))
    ensures ok ==> st.nodes[..n] == Decode(bytes).nodes && st.conflictingNodes == Decode(bytes).conflicting
  {
    ok := LoadNodes(st, buf, n, backing);
    if ok {
      DropDrop(bytes, 56, 48 * n);
      ok := LoadConflicting(st, bytes, buf);
    }
  }

  /** DeserializeFromReaderWithAllocator on the bytes a reader delivers. `alloc` is the
      caller's buffer, with any contents, or null; one that is too small is not used. */
  method DeserializeFromReaderWithAllocator(st: Subtree, bytes: seq<byte>, alloc: array?<Node>) returns (ok: bool)
    modifies st, alloc
    ensures ok <==> Accepts(bytes)
    ensures st.nodeIndex == old(st.nodeIndex) && (old(st.Valid()) ==> st.Valid())
    ensures ok ==> st.Valid() && st.View() == Loaded(Decode(bytes), old(st.nodeIndex), st.height)
    ensures ok && st.length > 0 ==> st.height == CeilLog2(st.length)
    ensures ok ==> if alloc != null && alloc.Length >= st.length then st.nodes == alloc else fresh(st.nodes)
  {
    var buf := new ByteReader(bytes);
    var numLeaves := ReadHeader(st, buf);
    if numLeaves.None? {
      return false;
    }
    if alloc != null && alloc.Length >= numLeaves.value {
      ok := Load(st, bytes, buf, numLeaves.value, alloc);
    } else {
      var made := new Node[numLeaves.value];
      ok := Load(st, bytes, buf, numLeaves.value, made);
    }
  }

  /** DeserializeFromReader */
  method DeserializeFromReader(st: Subtree, bytes: seq<byte>) returns (ok: bool)
    modifies st
    ensures ok <==> Accepts(bytes)
    ensures st.nodeIndex == old(st.nodeIndex) && (old(st.Valid()) ==> st.Valid())
    ensures ok ==> st.Valid() && fresh(st.nodes)
    ensures ok ==> st.View() == Loaded(Decode(bytes), old(st.nodeIndex), st.height)
    ensures ok && st.length > 0 ==> st.height == CeilLog2(st.length)
  {
    ok := DeserializeFromReaderWithAllocator(st, bytes, null);
  }

  /** deserializeFromReaderMmap. `backing` is the mapped memory for the announced number
      of nodes, null when it cannot be had; no memory is mapped for zero nodes. */
  method DeserializeFromReaderMmap(st: Subtree, bytes: seq<byte>, backing: array?<Node>) returns (ok: bool)
    requires backing != null && |bytes| >= 56 ==> backing.Length == CountAt(bytes, 48)
    modifies st, backing
    ensures ok <==> Accepts(bytes) && backing != null && CountAt(bytes, 48) > 0
    ensures st.nodeIndex == old(st.nodeIndex) && (old(st.Valid()) ==> st.Valid())
    ensures ok ==> st.Valid() && st.View() == Loaded(Decode(bytes), old(st.nodeIndex), st.height)
    ensures ok ==> st.length > 0 && st.height == CeilLog2(st.length) && st.nodes == backing
  {
    var buf := new ByteReader(bytes);
    var numLeaves := ReadHeader(st, buf);
    if numLeaves.None? || numLeaves.value == 0 || backing == null {
      return false;
    }
    ok := Load(st, bytes, buf, numLeaves.value, backing);
  }
}
