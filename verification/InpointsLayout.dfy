/** The inpoint and meta formats byte by byte: where every field stands, lowest byte first. */
module InpointsLayout {
  import opened Sequences
  import opened Results
  import opened Bytes
  import opened InpointsCodec
  import opened SubtreeMeta

  /** Word `j` takes the four bytes from byte 4j on. */
  lemma {:induction false} PutWordsAt(words: seq<u32>, j: nat, k: nat)
    requires j < |words| && k < 4
    ensures PutWords(words)[4 * j + k] == ByteOf(words[j], k)
  {
    if j > 0 {
      PutWordsAt(words[1..], j - 1, k);
    } else {
      PutLEAt(words[0], 4, k);
    }
  }

  /** A record: the number of parents, their hashes, and the words. Beyond 2^32 - 1
      parents the number is the largest int32. */
  lemma {:induction false} RecordLayout(r: Record, n: nat, k: nat)
    requires k < 4 && n == if r.parents.None? then 0 else |r.parents.value|
    ensures |EncodeRecord(r)| == 4 + 32 * n + 4 * |r.words|
    ensures n < TWO_32 ==> EncodeRecord(r)[k] == ByteOf(n, k)
    ensures n >= TWO_32 ==> EncodeRecord(r)[k] == ByteOf(0x7FFF_FFFF, k)
    ensures forall i: nat :: i < n ==> HashAt(EncodeRecord(r)[4..], i) == r.parents.value[i]
    ensures forall j: nat :: j < |r.words| ==> EncodeRecord(r)[4 + 32 * n + 4 * j + k] == ByteOf(r.words[j], k)
  {
    var b, parents := EncodeRecord(r), ParentsOf(r);
    PutLEAt(Len32(n), 4, k);
    SplitAppend(PutU32(Len32(n)), PutHashes(parents) + PutWords(r.words));
    forall i: nat | i < n ensures HashAt(b[4..], i) == parents[i] {
      PutHashesAt(parents, i);
      assert HashAt(b[4..], i) == HashAt(PutHashes(parents), i);
    }
    forall j: nat | j < |r.words| ensures b[4 + 32 * n + 4 * j + k] == ByteOf(r.words[j], k) {
      PutWordsAt(r.words, j, k);
    }
  }

  /** Where record `i` begins among the records. */
  function RecordStart(records: seq<Record>, i: nat): nat
    requires i <= |records|
    decreases i
  {
    if i == 0 then 0
    else
      var r := records[i - 1];
      RecordStart(records, i - 1) + 4 + 32 * |ParentsOf(r)| + 4 * |r.words|
  }

  lemma {:induction false} RecordsLength(records: seq<Record>, i: nat)
    requires i <= |records|
    ensures |PutRecords(records[..i])| == RecordStart(records, i)
    decreases i
  {
    if i > 0 {
      RecordsLength(records, i - 1);
      PutRecordsAppend(records[..i - 1], records[i - 1]);
      assert records[..i - 1] + [records[i - 1]] == records[..i];
    }
  }

  lemma {:induction false} PutRecordsSplit(a: seq<Record>, b: seq<Record>)
    ensures PutRecords(a + b) == PutRecords(a) + PutRecords(b)
  {
    if a == [] {
      assert a + b == b;
    } else {
      assert (a + b)[1..] == a[1..] + b;
      PutRecordsSplit(a[1..], b);
      Assoc(EncodeRecord(a[0]), PutRecords(a[1..]), PutRecords(b));
    }
  }

  /** A meta: the root, the number of records, and the records one after the other. */
  lemma {:induction false} MetaLayout(root: Hash, records: seq<Record>, k: nat)
    requires k < 4
    ensures EncodeMeta(root, records)[..32] == root
    ensures EncodeMeta(root, records)[32 + k] == ByteOf(|records|, k)
    ensures EncodeMeta(root, records)[36..] == PutRecords(records)
  {
    var b := EncodeMeta(root, records);
    SplitAppend(root, PutLE(|records|, 4) + PutRecords(records));
    SplitAppend(PutLE(|records|, 4), PutRecords(records));
    DropDrop(b, 32, 4);
    PutLEAt(|records|, 4, k);
  }

  /** Record `i` stands where the lengths of the records before it end. */
  lemma {:induction false} RecordsLayout(records: seq<Record>, i: nat)
    requires i < |records|
    ensures var at := RecordStart(records, i);
      && at + |EncodeRecord(records[i])| <= |PutRecords(records)|
      && PutRecords(records)[at..at + |EncodeRecord(records[i])|] == EncodeRecord(records[i])
  {
    var before, r, after := records[..i], records[i], records[i + 1..];
    assert records == before + ([r] + after);
    PutRecordsSplit(before, [r] + after);
    assert ([r] + after)[1..] == after;
    RecordsLength(records, i);
    InTheMiddle(PutRecords(before), EncodeRecord(r), PutRecords(after));
  }

  lemma {:induction false} InTheMiddle(a: seq<byte>, b: seq<byte>, c: seq<byte>)
    ensures (a + (b + c))[|a|..|a| + |b|] == b
  {
  }
}
