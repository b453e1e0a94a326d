/** The two readers that keep only part of the subtree format. */
module SubtreeProjections {
  import opened Results
  import opened Bytes
  import opened SubtreeState
  import opened SubtreeCodec

  // ----- hashes only -----

  lemma {:induction false} HashesAppend(nodes: seq<Node>, node: Node)
    ensures PutHashes(Hashes(nodes + [node])) == PutHashes(Hashes(nodes)) + node.hash
  {
    assert Hashes(nodes + [node]) == Hashes(nodes) + [node.hash];
    PutHashesAppend(Hashes(nodes), node.hash);
  }

  method CopyHash(out: array<byte>, at: nat, b: seq<byte>)
    requires at + 32 <= out.Length && |b| >= 32
    modifies out
    ensures out[..at + 32] == old(out[..at]) + b[..32]
  {
    forall j | 0 <= j < 32 {
      out[at + j] := b[j];
    }
    assert out[..at] == old(out[..at]);
    assert out[at..at + 32] == b[..32];
    assert out[..at + 32] == out[..at] + out[at..at + 32];
  }

  /** The first bytes of `out` are the hashes of `done`; if the stream is long enough, the
      nodes left of the `goal` follow in it. */
  ghost predicate Keeping(goal: seq<Node>, tail: seq<byte>, done: seq<Node>, out: seq<byte>, at: nat,
                          rest: seq<byte>, m: nat)
  {
    && at <= |out| && out[..at] == PutHashes(Hashes(done))
    && (|rest| >= 48 * m ==> NodesFollow(goal, tail, done, rest, m))
  }

  /** One round: 48 bytes are read, 32 of them kept. */
  method KeepHash(buf: ByteReader, out: array<byte>, i: nat, ghost m: nat, ghost goal: seq<Node>,
                  ghost tail: seq<byte>, ghost done: seq<Node>)
    returns (ok: bool, ghost done': seq<Node>)
    requires buf.Valid() && 32 * i + 32 <= out.Length && m > 0
    requires Keeping(goal, tail, done, out[..], 32 * i, buf.Rest(), m)
    modifies buf, out
    ensures buf.Valid() && (ok <==> |old(buf.Rest())| >= 48)
    ensures ok ==> |buf.Rest()| == |old(buf.Rest())| - 48
    ensures ok ==> Keeping(goal, tail, done', out[..], 32 * i + 32, buf.Rest(), m - 1)
  {
    ghost var rest := buf.Rest();
    assert out[..][..32 * i] == out[..32 * i];
    done' := done;
    var byteBuffer := buf.ReadFull(48);
    if byteBuffer.None? {
      return false, done';
    }
    if |rest| >= 48 * m {
      NodesFollowStep(goal, tail, done, byteBuffer.value, buf.Rest(), m);
    }
    CopyHash(out, 32 * i, byteBuffer.value);
    HashesAppend(done, GetNode(byteBuffer.value));
    assert out[..][..32 * i + 32] == out[..32 * i + 32];
    return true, done + [GetNode(byteBuffer.value)];
  }

  /** The loop over the nodes. */
  method FillHashes(buf: ByteReader, n: nat, out: array<byte>, ghost goal: seq<Node>, ghost tail: seq<byte>)
    returns (ok: bool, ghost done: seq<Node>)
    requires buf.Valid() && out.Length == 32 * n && Keeping(goal, tail, [], out[..], 0, buf.Rest(), n)
    modifies buf, out
    ensures buf.Valid() && (ok <==> |old(buf.Rest())| >= 48 * n)
    ensures ok ==> Keeping(goal, tail, done, out[..], out.Length, buf.Rest(), 0)
  {
    ghost var total := |buf.Rest()|;
    done := [];
    for i := 0 to n
      invariant buf.Valid() && |buf.Rest()| == total - 48 * i
      invariant Keeping(goal, tail, done, out[..], 32 * i, buf.Rest(), n - i)
    {
      ok, done := KeepHash(buf, out, i, n - i, goal, tail, done);
      if !ok {
        return;
      }
    }
    ok := true;
  }

  method KeepHashes(buf: ByteReader, n: nat) returns (r: Option<seq<byte>>)
    requires buf.Valid()
    modifies buf
    ensures r.Some? <==> |old(buf.Rest())| >= 48 * n
    ensures r.Some? ==> r.value == PutHashes(Hashes(SplitNodes(old(buf.Rest()), n)))
  {
    var subtreeBytes := new byte[32 * n];
    ghost var goal, tail, done: seq<Node> := [], [], [];
    if |buf.Rest()| >= 48 * n {
      goal, tail := SplitNodes(buf.Rest(), n), buf.Rest()[48 * n..];
      assert [] + goal == goal;
    }
    var ok;
    ok, done := FillHashes(buf, n, subtreeBytes, goal, tail);
    assert ok ==> done + SplitNodes(buf.Rest(), 0) == done;
    return if ok then Some(subtreeBytes[..]) else None;
  }

  /** DeserializeNodesFromReader: the hashes of the nodes, one after the other. What
      follows the nodes is not read. */
  method DeserializeNodesFromReader(bytes: seq<byte>) returns (r: Option<seq<byte>>)
    ensures r.Some? <==> |bytes| >= 56 && |bytes| >= ConflictingAt(bytes)
    ensures r.Some? ==> r.value == PutHashes(Hashes(SplitNodes(bytes[56..], CountAt(bytes, 48))))
    ensures Accepts(bytes) ==> r == Some(PutHashes(Hashes(Decode(bytes).nodes)))
  {
    var buf := new ByteReader(bytes);
    var header := buf.ReadFull(56);
    if header.None? {
      return None;
    }
    SplitAppend(header.value, buf.Rest());
    assert header.value[48..56] == bytes[48..56];
    r := KeepHashes(buf, GetU64(header.value[48..56]));
  }

  // ----- conflicting hashes only -----

  /** Where the stream stands after `Discard(48 * n)` on int64 numbers, with the error
      of a negative or too large count ignored. */
  function AfterNodes(b: seq<byte>): (at: nat)
    requires |b| >= 56
    ensures at <= |b|
  {
    var skip := ToInt64(48 * CountAt(b, 48));
    if skip < 0 then 56 else if 56 + skip <= |b| then 56 + skip else |b|
  }

  /** What DeserializeSubtreeConflictingFromReader answers. */
  function ConflictingOf(b: seq<byte>): Option<seq<Hash>> {
    if |b| < 56 || CountAt(b, 48) >= TWO_63 then None else
    var at := AfterNodes(b);
    if |b| < at + 8 || |b| - at - 8 < 32 * CountAt(b, at) then None
    else Some(SplitHashes(b[at + 8..], CountAt(b, at)))
  }

  method DeserializeSubtreeConflictingFromReader(bytes: seq<byte>) returns (r: Option<seq<Hash>>)
    ensures r == ConflictingOf(bytes)
  {
    var buf := new ByteReader(bytes);
    buf.Discard(32 + 8 + 8);
    var numLeaves := ReadU64(buf);
    if numLeaves.None? {
      return None;
    }
    DropDrop(bytes, 48, 8);
    if numLeaves.value >= TWO_63 {
      return None;
    }
    buf.Discard(ToInt64(48 * numLeaves.value));
    ghost var at := AfterNodes(bytes);
    assert buf.Rest() == bytes[at..];
    r := ReadConflicting(buf);
    if |bytes| >= at + 8 {
      DropDrop(bytes, at, 8);
    }
  }

  /** While 48 bytes per announced node do not overflow an int64, the projection
      accepts exactly what the full readers accept, and answers their conflicting hashes. */
  lemma {:induction false} ConflictingIsProjection(b: seq<byte>)
    requires |b| >= 56 && 48 * CountAt(b, 48) < TWO_63
    ensures ConflictingOf(b) == if Accepts(b) then Some(Decode(b).conflicting) else None
  {
  }

  /** No stream shorter than 2^63 bytes that a full reader accepts overflows. */
  lemma {:induction false} AcceptedIsProjected(b: seq<byte>)
    requires Accepts(b) && |b| < TWO_63
    ensures ConflictingOf(b) == Some(Decode(b).conflicting)
  {
    ConflictingIsProjection(b);
  }

  /** The announced count is an int, but 48 bytes for each node are more than an int64
      holds: the product that is skipped is not the product. */
  predicate SkipWraps(b: seq<byte>) {
    |b| >= 56 && CountAt(b, 48) < TWO_63 <= 48 * CountAt(b, 48)
  }

  /** A count and that many hashes stand at `at`. */
  predicate HashesFit(b: seq<byte>, at: nat) {
    |b| >= at + 8 && |b| - at - 8 >= 32 * CountAt(b, at)
  }

  /** Exactly when the projection agrees with the full readers, on every stream shorter
      than 2^63 bytes: unless the skip wraps and lands on what reads as a list of hashes. */
  lemma {:induction false} ProjectionIff(b: seq<byte>)
    requires |b| < TWO_63
    ensures ConflictingOf(b) == (if Accepts(b) then Some(Decode(b).conflicting) else None)
       <==> !(SkipWraps(b) && HashesFit(b, AfterNodes(b)))
  {
    if |b| >= 56 && 48 * CountAt(b, 48) < TWO_63 {
      ConflictingIsProjection(b);
    }
  }

  /** Where they disagree, the projection is the laxer one. */
  lemma {:induction false} ProjectionIsLaxer(b: seq<byte>)
    requires |b| < TWO_63
    ensures SkipWraps(b) && HashesFit(b, AfterNodes(b)) <==> ConflictingOf(b).Some? && !Accepts(b)
    ensures Accepts(b) ==> ConflictingOf(b).Some?
  {
    ProjectionIff(b);
  }

  /** Every count whose skip wraps to zero, with a zero behind it, is such a stream. */
  lemma {:induction false} NothingSkipped(b: seq<byte>, n: u64, k: u64)
    requires |b| == 64 && b[48..56] == PutU64(n) && b[56..64] == PutU64(k)
    requires n < TWO_63 <= 48 * n && ToInt64(48 * n) == 0 && k == 0
    ensures ConflictingOf(b) == Some([]) && !Accepts(b)
  {
    GetPutU64(n);
    GetPutU64(k);
    assert CountAt(b, 48) == n && CountAt(b, 56) == k;
    assert AfterNodes(b) == 56;
    ProjectionIsLaxer(b);
  }

  /** An instance: a stream of 64 bytes that announces 2^60 nodes makes the skip wrap to
      zero, and the zero that follows is read as no conflicting hashes. */
  lemma {:induction false} ProjectionAcceptsMore(b: seq<byte>, n: u64, k: u64)
    requires |b| == 64 && b[48..56] == PutU64(n) && b[56..64] == PutU64(k)
    requires n == 0x1000_0000_0000_0000 && k == 0
    ensures ConflictingOf(b) == Some([]) && !Accepts(b)
  {
    NothingSkipped(b, n, k);
  }
}
