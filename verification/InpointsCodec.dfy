/** The wire format of inpoints: parent count, parent hashes, packed words. */
module InpointsCodec {
  import opened Sequences
  import opened Results
  import opened Bytes
  import opened Inpoints
  import opened Packing
  import opened PackedInpoints

  /** The value of a TxInpoints; None is the nil slice of parents. */
  datatype Record = Record(parents: Option<seq<Hash>>, words: seq<u32>)

  function ParentsOf(r: Record): seq<Hash> {
    if r.parents.None? then [] else r.parents.value
  }

  // ----- words -----

  function PutWords(words: seq<u32>): (b: seq<byte>)
    ensures |b| == 4 * |words|
  {
    if words == [] then [] else PutU32(words[0]) + PutWords(words[1..])
  }

  function SplitWords(b: seq<byte>, n: nat): (words: seq<u32>)
    requires |b| >= 4 * n
    ensures |words| == n
    decreases n
  {
    if n == 0 then [] else [GetU32(b[..4])] + SplitWords(b[4..], n - 1)
  }

  lemma {:induction false} PutWordsAppend(a: seq<u32>, b: seq<u32>)
    ensures PutWords(a + b) == PutWords(a) + PutWords(b)
  {
    if a == [] {
      assert a + b == b;
    } else {
      assert (a + b)[1..] == a[1..] + b;
      PutWordsAppend(a[1..], b);
      Assoc(PutU32(a[0]), PutWords(a[1..]), PutWords(b));
    }
  }

  lemma {:induction false} SplitPutWords(words: seq<u32>, rest: seq<byte>)
    ensures SplitWords(PutWords(words) + rest, |words|) == words
  {
    if words != [] {
      Assoc(PutU32(words[0]), PutWords(words[1..]), rest);
      SplitAppend(PutU32(words[0]), PutWords(words[1..]) + rest);
      GetPutU32(words[0]);
      SplitPutWords(words[1..], rest);
    }
  }

  lemma {:induction false} PutSplitWords(b: seq<byte>, n: nat)
    requires |b| >= 4 * n
    ensures PutWords(SplitWords(b, n)) == b[..4 * n]
    decreases n
  {
    if n > 0 {
      PutSplitWords(b[4..], n - 1);
      assert SplitWords(b, n)[1..] == SplitWords(b[4..], n - 1);
      assert b[..4 * n] == b[..4] + b[4..][..4 * (n - 1)];
    }
  }

  // ----- runs -----

  datatype RunsRead = RunsRead(runs: seq<seq<u32>>, rest: seq<byte>)

  datatype RunRead = RunRead(run: seq<u32>, rest: seq<byte>)

  /** Reads one count-prefixed run. */
  function SplitRun(b: seq<byte>): (r: Option<RunRead>)
    ensures r.Some? ==> |r.value.run| < TWO_32
  {
    if |b| < 4 || |b| - 4 < 4 * GetU32(b[..4]) then None
    else
      var c: nat := GetU32(b[..4]);
      Some(RunRead(SplitWords(b[4..], c), b[4 + 4 * c..]))
  }

  /** Reads `n` count-prefixed runs. */
  function ReadRuns(b: seq<byte>, n: nat): Option<RunsRead>
    decreases n
  {
    if n == 0 then Some(RunsRead([], b))
    else
      match SplitRun(b)
      case None => None
      case Some(first) =>
        match ReadRuns(first.rest, n - 1)
        case None => None
        case Some(r) => Some(RunsRead([first.run] + r.runs, r.rest))
  }

  lemma {:induction false} PutWordsCons(w: u32, words: seq<u32>)
    ensures PutWords([w] + words) == PutU32(w) + PutWords(words)
  {
    assert ([w] + words)[1..] == words;
  }

  lemma {:induction false} PutPack(run: seq<u32>, runs: seq<seq<u32>>, rest: seq<byte>)
    requires |run| < TWO_32
    ensures PutWords(Pack([run] + runs)) + rest
         == PutU32(|run|) + (PutWords(run) + (PutWords(Pack(runs)) + rest))
  {
    PackCons(run, runs);
    PutWordsCons(|run|, run + Pack(runs));
    PutWordsAppend(run, Pack(runs));
    Assoc(PutU32(|run|), PutWords(run + Pack(runs)), rest);
    Assoc(PutWords(run), PutWords(Pack(runs)), rest);
  }

  lemma {:induction false} SplitPutRun(run: seq<u32>, after: seq<byte>)
    requires |run| < TWO_32
    ensures SplitRun(PutU32(|run|) + (PutWords(run) + after)) == Some(RunRead(run, after))
  {
    var b := PutU32(|run|) + (PutWords(run) + after);
    SplitAppend(PutU32(|run|), PutWords(run) + after);
    GetPutU32(|run|);
    SplitAppend(PutWords(run), after);
    DropDrop(b, 4, 4 * |run|);
    SplitPutWords(run, after);
  }

  lemma {:induction false} RunsRoundTrip(runs: seq<seq<u32>>, rest: seq<byte>)
    requires SmallRuns(runs)
    ensures ReadRuns(PutWords(Pack(runs)) + rest, |runs|) == Some(RunsRead(runs, rest))
  {
    if runs == [] {
      assert PutWords(Pack(runs)) + rest == rest;
    } else {
      var run, more := runs[0], runs[1..];
      assert [run] + more == runs;
      RunsRoundTrip(more, rest);
      PutPack(run, more, rest);
      SplitPutRun(run, PutWords(Pack(more)) + rest);
    }
  }

  lemma {:induction false} Rejoin(b: seq<byte>, i: nat, j: nat)
    requires i + j <= |b|
    ensures b == b[..i] + (b[i..][..j] + b[i + j..])
  {
  }

  /** The bytes of the first run, put together again. */
  lemma {:induction false} FirstRun(b: seq<byte>, first: RunRead)
    requires SplitRun(b) == Some(first)
    ensures b == PutU32(|first.run|) + (PutWords(first.run) + first.rest)
  {
    var c: nat := GetU32(b[..4]);
    PutSplitWords(b[4..], c);
    Rejoin(b, 4, 4 * c);
  }

  lemma {:induction false} RunsCanonical(b: seq<byte>, n: nat)
    requires ReadRuns(b, n).Some?
    ensures var r := ReadRuns(b, n).value;
      |r.runs| == n && SmallRuns(r.runs) && b == PutWords(Pack(r.runs)) + r.rest
    decreases n
  {
    if n > 0 {
      var first := SplitRun(b).value;
      RunsCanonical(first.rest, n - 1);
      var r := ReadRuns(first.rest, n - 1).value;
      assert ReadRuns(b, n).value == RunsRead([first.run] + r.runs, r.rest);
      FirstRun(b, first);
      PutPack(first.run, r.runs, r.rest);
    }
  }

  // ----- records -----

  /** len32: above 2^32 - 1 the source answers the largest int32. */
  function Len32(n: nat): u32 {
    if n > 0xFFFF_FFFF then 0x7FFF_FFFF else n
  }

  function EncodeRecord(r: Record): seq<byte> {
    PutU32(Len32(|ParentsOf(r)|)) + (PutHashes(ParentsOf(r)) + PutWords(r.words))
  }

  /** What Serialize checks before it writes. */
  predicate LayoutOk(r: Record) {
    if |ParentsOf(r)| == 0 then r.words == [] else |r.words| >= |ParentsOf(r)|
  }

  datatype RecordRead = RecordRead(parents: Option<seq<Hash>>, runs: seq<seq<u32>>, rest: seq<byte>)

  /** What follows the count of `n` parents. */
  function DecodeParents(b: seq<byte>, n: nat): Option<RecordRead> {
    if n == 0 then Some(RecordRead(None, [], b))
    else if |b| < 32 * n then None
    else
      match ReadRuns(b[32 * n..], n)
      case None => None
      case Some(r) => Some(RecordRead(Some(SplitHashes(b, n)), r.runs, r.rest))
  }

  function DecodeRecord(b: seq<byte>): Option<RecordRead> {
    if |b| < 4 then None else DecodeParents(b[4..], GetU32(b[..4]))
  }

  /** One run per parent, all counts below 2^32. */
  ghost predicate WellFormed(r: Record, runs: seq<seq<u32>>) {
    |runs| == |ParentsOf(r)| < TWO_32 && SmallRuns(runs) && r.words == Pack(runs)
  }

  /** Reading back gives the nil slice where there are no parents. */
  function Normal(r: Record): Record {
    if |ParentsOf(r)| == 0 then r.(parents := None) else r
  }

  lemma {:induction false} DecodeCounted(n: u32, body: seq<byte>)
    ensures DecodeRecord(PutU32(n) + body) == DecodeParents(body, n)
  {
    SplitAppend(PutU32(n), body);
    GetPutU32(n);
  }

  lemma {:induction false} ParentsRoundTrip(
      hashes: seq<Hash>, runs: seq<seq<u32>>, rest: seq<byte>, words: seq<byte>, body: seq<byte>)
    requires |runs| == |hashes| && SmallRuns(runs)
    requires words == PutWords(Pack(runs)) + rest && body == PutHashes(hashes) + words
    ensures DecodeParents(body, |hashes|)
         == Some(RecordRead(if |hashes| == 0 then None else Some(hashes), runs, rest))
  {
    if |hashes| == 0 {
      assert body == rest;
    } else {
      RunsRoundTrip(runs, rest);
      SplitAppend(PutHashes(hashes), words);
      SplitPutHashes(hashes, words);
    }
  }

  lemma {:induction false} EncodeRecordThen(r: Record, rest: seq<byte>, words: seq<byte>, body: seq<byte>)
    requires words == PutWords(r.words) + rest && body == PutHashes(ParentsOf(r)) + words
    ensures EncodeRecord(r) + rest == PutU32(Len32(|ParentsOf(r)|)) + body
  {
    var n := Len32(|ParentsOf(r)|);
    Assoc(PutU32(n), PutHashes(ParentsOf(r)) + PutWords(r.words), rest);
    Assoc(PutHashes(ParentsOf(r)), PutWords(r.words), rest);
  }

  lemma {:induction false} LayoutOfRuns(r: Record, runs: seq<seq<u32>>)
    requires WellFormed(r, runs)
    ensures LayoutOk(r)
  {
    PackLength(runs);
  }

  /** Round trip: a well-formed record, whatever follows it, passes the layout check,
      is read back up to nil versus empty, and leaves exactly what followed. */
  lemma {:induction false} RecordRoundTrip(r: Record, runs: seq<seq<u32>>, rest: seq<byte>)
    requires WellFormed(r, runs)
    ensures LayoutOk(r)
    ensures DecodeRecord(EncodeRecord(r) + rest) == Some(RecordRead(Normal(r).parents, runs, rest))
  {
    var words := PutWords(r.words) + rest;
    var body := PutHashes(ParentsOf(r)) + words;
    var n: u32 := |runs|;
    LayoutOfRuns(r, runs);
    assert EncodeRecord(r) + rest == PutU32(n) + body by {
      EncodeRecordThen(r, rest, words, body);
    }
    assert DecodeParents(body, n) == Some(RecordRead(Normal(r).parents, runs, rest)) by {
      ParentsRoundTrip(ParentsOf(r), runs, rest, words, body);
    }
    DecodeCounted(n, body);
  }

  /** The bytes of a record with parents, put together again. */
  lemma {:induction false} RecordParts(b: seq<byte>, n: nat, hashes: seq<Hash>, words: seq<byte>)
    requires |b| >= 4 && n == GetU32(b[..4]) && |b| - 4 >= 32 * n
    requires hashes == SplitHashes(b[4..], n) && words == b[4..][32 * n..]
    ensures b == PutU32(n) + (PutHashes(hashes) + words)
  {
    PutSplitHashes(b[4..], n);
    assert b[4..] == PutHashes(hashes) + words;
    assert b == b[..4] + b[4..];
  }

  /** Canonicity: whatever the reader accepts, writing it gives exactly the bytes read. */
  lemma {:induction false} RecordCanonical(b: seq<byte>, d: RecordRead, r: Record)
    requires DecodeRecord(b) == Some(d) && r == Record(d.parents, Pack(d.runs))
    ensures WellFormed(r, d.runs)
    ensures b == EncodeRecord(r) + d.rest
  {
    var n: nat := GetU32(b[..4]);
    var words := PutWords(r.words) + d.rest;
    if n == 0 {
      assert b == b[..4] + b[4..];
      assert PutHashes([]) + words == d.rest;
    } else {
      assert |d.runs| == n && SmallRuns(d.runs) && b[4..][32 * n..] == words by {
        RunsCanonical(b[4..][32 * n..], n);
      }
      RecordParts(b, n, d.parents.value, words);
    }
    EncodeRecordThen(r, d.rest, words, PutHashes(ParentsOf(r)) + words);
  }

  // ----- what the reader does not check -----

  /** Every count word of the `n` runs is at least 1. */
  predicate CountsPositive(b: seq<byte>, n: nat)
    decreases n
  {
    n == 0 ||
    match SplitRun(b)
    case None => false
    case Some(first) => |first.run| >= 1 && CountsPositive(first.rest, n - 1)
  }

  /** No two of the `n` hashes are the same bytes. */
  predicate HashesDiffer(b: seq<byte>, n: nat)
    requires |b| >= 32 * n
  {
    forall i: nat, j: nat :: i < j < n ==> HashAt(b, i) != HashAt(b, j)
  }

  /** What a reader would have to check to accept only groupings of inputs. */
  predicate Tidy(b: seq<byte>)
    requires DecodeRecord(b).Some?
  {
    var n: nat := GetU32(b[..4]);
    n == 0 || (HashesDiffer(b[4..], n) && CountsPositive(b[4..][32 * n..], n))
  }

  lemma {:induction false} CountsPositiveIff(b: seq<byte>, n: nat)
    requires ReadRuns(b, n).Some?
    ensures CountsPositive(b, n) <==> NonEmptyRuns(ReadRuns(b, n).value.runs)
    decreases n
  {
    if n > 0 {
      var first := SplitRun(b).value;
      CountsPositiveIff(first.rest, n - 1);
      NonEmptyCons(first.run, ReadRuns(first.rest, n - 1).value.runs);
    }
  }

  lemma {:induction false} NonEmptyCons(run: seq<u32>, runs: seq<seq<u32>>)
    ensures NonEmptyRuns([run] + runs) <==> |run| >= 1 && NonEmptyRuns(runs)
  {
    var all := [run] + runs;
    assert all[0] == run;
    assert forall i :: 0 <= i < |runs| ==> all[i + 1] == runs[i];
  }

  lemma {:induction false} HashesDifferIff(b: seq<byte>, n: nat)
    requires |b| >= 32 * n
    ensures HashesDiffer(b, n) <==> Distinct(SplitHashes(b, n))
  {
    forall i: nat | i < n ensures SplitHashes(b, n)[i] == HashAt(b, i) {
      SplitHashesAt(b, n, i);
    }
  }

  /** Exactly which accepted records are groupings of inputs: listing the inpoints and
      grouping them again gives the record back if and only if the stream repeats no
      parent and has no count of zero. */
  lemma {:induction false} TidyIff(b: seq<byte>, d: RecordRead, parents: seq<Hash>)
    requires DecodeRecord(b) == Some(d) && parents == ParentsOf(Record(d.parents, []))
    ensures |parents| == |d.runs|
    ensures Tidy(b) <==> Distinct(parents) && NonEmptyRuns(d.runs)
    ensures Tidy(b) <==> Groups(Flatten(parents, d.runs), parents, d.runs)
  {
    RecordCanonical(b, d, Record(d.parents, Pack(d.runs)));
    RegroupIff(parents, d.runs);
    var n: nat := GetU32(b[..4]);
    if n > 0 {
      HashesDifferIff(b[4..], n);
      CountsPositiveIff(b[4..][32 * n..], n);
    }
  }

  /** One parent with a count of zero: 40 bytes that are accepted. */
  lemma {:induction false} ZeroCountIsAccepted(h: Hash, b: seq<byte>)
    requires b == EncodeRecord(Record(Some([h]), Pack([[]])))
    ensures |b| == 40 && DecodeRecord(b) == Some(RecordRead(Some([h]), [[]], []))
    ensures !Tidy(b)
  {
    var run: seq<u32> := [];
    PackLength([run]);
    RecordRoundTrip(Record(Some([h]), Pack([run])), [run], []);
    assert b + [] == b;
    TidyIff(b, RecordRead(Some([h]), [run], []), [h]);
    assert |[run][0]| == 0;
  }

  /** And a parent that stands twice is accepted. */
  lemma {:induction false} RepeatedParentIsAccepted(h: Hash, v: u32, w: u32, b: seq<byte>)
    requires b == EncodeRecord(Record(Some([h, h]), Pack([[v], [w]])))
    ensures DecodeRecord(b) == Some(RecordRead(Some([h, h]), [[v], [w]], [])) && !Tidy(b)
  {
    RecordRoundTrip(Record(Some([h, h]), Pack([[v], [w]])), [[v], [w]], []);
    assert b + [] == b;
    TidyIff(b, RecordRead(Some([h, h]), [[v], [w]], []), [h, h]);
    assert [h, h][0] == [h, h][1];
  }

  // ----- writing -----

  method WriteWords(words: seq<u32>) returns (b: seq<byte>)
    ensures b == PutWords(words)
  {
    b := [];
    var i := 0;
    while i < |words|
      invariant 0 <= i <= |words|
      invariant b == PutWords(words[..i])
    {
      PutWordsAppend(words[..i], [words[i]]);
      assert PutWords([words[i]]) == PutU32(words[i]) + PutWords([words[i]][1..]);
      assert words[..i + 1] == words[..i] + [words[i]];
      b := b + PutU32(words[i]);
      i := i + 1;
    }
    assert words[..|words|] == words;
  }

  /** TxInpoints.Serialize */
  method Serialize(r: Record) returns (b: Result<seq<byte>>)
    ensures b == if LayoutOk(r) then Ok(EncodeRecord(r)) else Err(ParentTxHashesMismatch)
    ensures b.Err? <==>
      var parents := if r.parents.None? then 0 else |r.parents.value|;
      (parents == 0 && |r.words| > 0) || |r.words| < parents
  {
    var parents := ParentsOf(r);
    var parentCount := |parents|;
    if (parentCount == 0 && |r.words| != 0) || (parentCount > 0 && |r.words| < parentCount) {
      return Err(ParentTxHashesMismatch);
    }
    var hashes := WriteHashes(parents);
    var words := WriteWords(r.words);
    return Ok(PutU32(Len32(parentCount)) + (hashes + words));
  }

  // ----- reading -----

  /** The value the object holds. */
  ghost function Value(p: TxInpoints): Record
    requires p.Valid()
    reads p, p.parentTxHashes, p.voutIdxs
  {
    Record(if p.parentTxHashes == null then None else Some(p.Parents()), p.Words())
  }

  method ReadU32(buf: ByteReader) returns (r: Option<u32>)
    requires buf.Valid()
    modifies buf
    ensures buf.Valid() && (r.Some? <==> |old(buf.Rest())| >= 4)
    ensures r.Some? ==> r.value == GetU32(old(buf.Rest())[..4]) && buf.Rest() == old(buf.Rest())[4..]
  {
    var bytes4 := buf.ReadFull(4);
    if bytes4.None? {
      return None;
    }
    SplitAppend(bytes4.value, buf.Rest());
    return Some(GetU32(bytes4.value));
  }

  /** `m` words are left of the `goal`, and `tail` follows them. */
  ghost predicate WordsLeft(goal: seq<u32>, tail: seq<byte>, done: seq<u32>, rest: seq<byte>, m: nat) {
    |rest| >= 4 * m && goal == done + SplitWords(rest, m) && tail == rest[4 * m..]
  }

  lemma {:induction false} WordsStep(goal: seq<u32>, tail: seq<byte>, done: seq<u32>, rest: seq<byte>, m: nat)
    requires m > 0 && WordsLeft(goal, tail, done, rest, m)
    ensures WordsLeft(goal, tail, done + [GetU32(rest[..4])], rest[4..], m - 1)
  {
    DropDrop(rest, 4, 4 * (m - 1));
  }

  lemma {:induction false} WordsEnd(goal: seq<u32>, tail: seq<byte>, done: seq<u32>, rest: seq<byte>)
    requires WordsLeft(goal, tail, done, rest, 0)
    ensures goal == done && tail == rest
  {
  }

  /** Appends one of the `m` words left. */
  method ReadWord(p: TxInpoints, buf: ByteReader, ghost goal: seq<u32>, ghost tail: seq<byte>, ghost m: nat)
    returns (ok: bool)
    requires p.Valid() && buf.Valid() && m > 0
    modifies p`voutIdxs, p`voutCount, p.voutIdxs, buf
    ensures p.Valid() && buf.Valid() && (ok <==> |old(buf.Rest())| >= 4)
    ensures p.voutIdxs == old(p.voutIdxs) || fresh(p.voutIdxs)
    ensures ok ==> |buf.Rest()| == |old(buf.Rest())| - 4
    ensures ok && old(WordsLeft(goal, tail, p.Words(), buf.Rest(), m)) ==>
      WordsLeft(goal, tail, p.Words(), buf.Rest(), m - 1)
  {
    if WordsLeft(goal, tail, p.Words(), buf.Rest(), m) {
      WordsStep(goal, tail, p.Words(), buf.Rest(), m);
    }
    var word := ReadU32(buf);
    if word.None? {
      return false;
    }
    p.AppendWord(word.value);
    return true;
  }

  /** Appends the `n` words left. */
  method AppendWords(p: TxInpoints, buf: ByteReader, n: nat, ghost goal: seq<u32>, ghost tail: seq<byte>)
    returns (ok: bool)
    requires p.Valid() && buf.Valid()
    modifies p`voutIdxs, p`voutCount, p.voutIdxs, buf
    ensures p.Valid() && buf.Valid() && (ok <==> |old(buf.Rest())| >= 4 * n)
    ensures p.voutIdxs == old(p.voutIdxs) || fresh(p.voutIdxs)
    ensures ok && old(WordsLeft(goal, tail, p.Words(), buf.Rest(), n)) ==> goal == p.Words() && tail == buf.Rest()
  {
    ghost var total, left := |buf.Rest()|, WordsLeft(goal, tail, p.Words(), buf.Rest(), n);
    for j := 0 to n
      invariant p.Valid() && buf.Valid()
      invariant p.voutIdxs == old(p.voutIdxs) || fresh(p.voutIdxs)
      invariant |buf.Rest()| == total - 4 * j
      invariant left ==> WordsLeft(goal, tail, p.Words(), buf.Rest(), n - j)
    {
      ok := ReadWord(p, buf, goal, tail, n - j);
      if !ok {
        return;
      }
    }
    if left {
      WordsEnd(goal, tail, p.Words(), buf.Rest());
    }
    return true;
  }

  /** Appends `n` words from the stream. */
  method ReadWords(p: TxInpoints, buf: ByteReader, n: nat) returns (ok: bool)
    requires p.Valid() && buf.Valid()
    modifies p`voutIdxs, p`voutCount, p.voutIdxs, buf
    ensures p.Valid() && buf.Valid() && (ok <==> |old(buf.Rest())| >= 4 * n)
    ensures p.voutIdxs == old(p.voutIdxs) || fresh(p.voutIdxs)
    ensures ok ==> buf.Rest() == old(buf.Rest())[4 * n..]
    ensures ok ==> p.Words() == old(p.Words()) + SplitWords(old(buf.Rest()), n)
  {
    ghost var goal, tail := [], [];
    if |buf.Rest()| >= 4 * n {
      goal, tail := p.Words() + SplitWords(buf.Rest(), n), buf.Rest()[4 * n..];
    }
    ok := AppendWords(p, buf, n, goal, tail);
  }

  /** Appends one run: the count word, then the vouts. */
  method ReadRun(p: TxInpoints, buf: ByteReader) returns (ok: bool)
    requires p.Valid() && buf.Valid()
    modifies p`voutIdxs, p`voutCount, p.voutIdxs, buf
    ensures p.Valid() && buf.Valid() && (p.voutIdxs == old(p.voutIdxs) || fresh(p.voutIdxs))
    ensures ok <==> SplitRun(old(buf.Rest())).Some?
    ensures ok ==>
      var first := SplitRun(old(buf.Rest())).value;
      buf.Rest() == first.rest && p.Words() == old(p.Words()) + ([|first.run|] + first.run)
  {
    ghost var b, words := buf.Rest(), p.Words();
    var count := ReadU32(buf);
    if count.None? {
      return false;
    }
    p.AppendWord(count.value);
    ok := ReadWords(p, buf, count.value);
    if ok {
      RunInTwoSteps(b, count.value, words);
    }
  }

  /** The bytes of a run, read in two steps. */
  lemma {:induction false} RunInTwoSteps(b: seq<byte>, c: u32, words: seq<u32>)
    requires |b| >= 4 && c == GetU32(b[..4]) && |b| - 4 >= 4 * c
    ensures SplitRun(b) == Some(RunRead(SplitWords(b[4..], c), b[4..][4 * c..]))
    ensures (words + [c]) + SplitWords(b[4..], c) == words + ([c] + SplitWords(b[4..], c))
  {
    DropDrop(b, 4, 4 * c as nat);
    Assoc(words, [c], SplitWords(b[4..], c));
  }

  /** `m` runs are left of the `goal`, which is None when the stream is too short. */
  ghost predicate RunsLeft(goal: Option<RunsRead>, done: seq<seq<u32>>, rest: seq<byte>, m: nat) {
    match ReadRuns(rest, m)
    case None => goal == None
    case Some(r) => goal == Some(RunsRead(done + r.runs, r.rest))
  }

  lemma {:induction false} RunsStep(goal: Option<RunsRead>, done: seq<seq<u32>>, rest: seq<byte>, m: nat)
    requires m > 0 && RunsLeft(goal, done, rest, m)
    ensures match SplitRun(rest)
            case None => goal == None
            case Some(first) => RunsLeft(goal, done + [first.run], first.rest, m - 1)
  {
    var first := SplitRun(rest);
    if first.Some? && ReadRuns(first.value.rest, m - 1).Some? {
      Assoc(done, [first.value.run], ReadRuns(first.value.rest, m - 1).value.runs);
    }
  }

  lemma {:induction false} PackMore(runs: seq<seq<u32>>, run: seq<u32>)
    requires |run| < TWO_32
    ensures Pack(runs + [run]) == Pack(runs) + ([|run|] + run)
  {
    PackAppend(runs, [run]);
    PackOne(run);
  }

  /** Appends one of the `m` runs left. */
  method ReadNextRun(p: TxInpoints, buf: ByteReader, ghost goal: Option<RunsRead>, ghost done: seq<seq<u32>>,
                     ghost m: nat)
    returns (ok: bool, ghost done': seq<seq<u32>>)
    requires p.Valid() && buf.Valid() && p.Words() == Pack(done)
    requires m > 0 && RunsLeft(goal, done, buf.Rest(), m)
    modifies p`voutIdxs, p`voutCount, p.voutIdxs, buf
    ensures p.Valid() && buf.Valid() && (p.voutIdxs == old(p.voutIdxs) || fresh(p.voutIdxs))
    ensures !ok ==> goal == None
    ensures ok ==> p.Words() == Pack(done') && RunsLeft(goal, done', buf.Rest(), m - 1)
  {
    RunsStep(goal, done, buf.Rest(), m);
    ghost var first := SplitRun(buf.Rest());
    done' := done;
    if first.Some? {
      PackMore(done, first.value.run);
      done' := done + [first.value.run];
    }
    ok := ReadRun(p, buf);
  }

  method ReadAllRuns(p: TxInpoints, buf: ByteReader, n: nat) returns (ok: bool)
    requires p.Valid() && buf.Valid() && p.Words() == []
    modifies p`voutIdxs, p`voutCount, p.voutIdxs, buf
    ensures p.Valid() && buf.Valid() && (ok <==> ReadRuns(old(buf.Rest()), n).Some?)
    ensures ok ==>
      var r := ReadRuns(old(buf.Rest()), n).value;
      p.Words() == Pack(r.runs) && buf.Rest() == r.rest
  {
    ghost var goal, done: seq<seq<u32>> := ReadRuns(buf.Rest(), n), [];
    if goal.Some? {
      assert [] + goal.value.runs == goal.value.runs;
    }
    for i := 0 to n
      invariant p.Valid() && buf.Valid()
      invariant p.voutIdxs == old(p.voutIdxs) || fresh(p.voutIdxs)
      invariant p.Words() == Pack(done) && RunsLeft(goal, done, buf.Rest(), n - i)
    {
      ok, done := ReadNextRun(p, buf, goal, done, n - i);
      if !ok {
        return;
      }
    }
    assert done + [] == done;
    return true;
  }

  /** New buffers: the parents, and one run for each of them. */
  method LoadRuns(p: TxInpoints, buf: ByteReader, hashes: seq<Hash>) returns (ok: bool)
    requires buf.Valid() && |hashes| < TWO_32
    modifies p, buf
    ensures p.Valid() && buf.Valid() && (ok <==> ReadRuns(old(buf.Rest()), |hashes|).Some?)
    ensures ok ==>
      var r := ReadRuns(old(buf.Rest()), |hashes|).value;
      buf.Rest() == r.rest && Value(p) == Record(Some(hashes), Pack(r.runs))
  {
    var n := |hashes|;
    var parents := new Hash[n](i requires 0 <= i < |hashes| => hashes[i]);
    assert parents[..n] == hashes;
    p.parentTxHashes := parents;
    p.parentCount := n;
    p.voutIdxs := new u32[2 * n % TWO_32];
    p.voutCount := 0;
    ok := ReadAllRuns(p, buf, n);
    assert p.Parents() == hashes;
  }

  /** The hashes of `n` parents, then their runs. */
  method LoadParents(p: TxInpoints, buf: ByteReader, n: nat) returns (ok: bool)
    requires p.Valid() && buf.Valid() && 0 < n < TWO_32
    modifies p, buf
    ensures p.Valid() && buf.Valid() && (ok <==> DecodeParents(old(buf.Rest()), n).Some?)
    ensures ok ==>
      var d := DecodeParents(old(buf.Rest()), n).value;
      buf.Rest() == d.rest && d.parents.Some? && Value(p) == Record(d.parents, Pack(d.runs))
  {
    var hashes := ReadHashes(buf, n);
    if hashes.None? {
      return false;
    }
    ok := LoadRuns(p, buf, hashes.value);
  }

  /** deserializeFromReader. A count of zero leaves the object as it is. */
  method DeserializeFromReader(p: TxInpoints, buf: ByteReader) returns (ok: bool)
    requires p.Valid() && buf.Valid()
    modifies p, buf
    ensures p.Valid() && buf.Valid() && (ok <==> DecodeRecord(old(buf.Rest())).Some?)
    ensures ok ==>
      var d := DecodeRecord(old(buf.Rest())).value;
      && buf.Rest() == d.rest
      && Value(p) == if d.parents.None? then old(Value(p)) else Record(d.parents, Pack(d.runs))
  {
    var parentCount := ReadU32(buf);
    if parentCount.None? {
      return false;
    }
    if parentCount.value == 0 {
      return true;
    }
    ok := LoadParents(p, buf, parentCount.value);
  }

  /** NewTxInpointsFromReader, and on a whole byte slice NewTxInpointsFromBytes. */
  method NewTxInpointsFromReader(buf: ByteReader) returns (ok: bool, p: TxInpoints)
    requires buf.Valid()
    modifies buf
    ensures fresh(p) && p.Valid() && buf.Valid() && (ok <==> DecodeRecord(old(buf.Rest())).Some?)
    ensures ok ==>
      var d := DecodeRecord(old(buf.Rest())).value;
      buf.Rest() == d.rest && Value(p) == Record(d.parents, Pack(d.runs))
  {
    p := new TxInpoints();
    ok := DeserializeFromReader(p, buf);
  }
}
