/** Meta: one inpoint record per node of a subtree, framed by the subtree root. */
module SubtreeMeta {
  import opened Sequences
  import opened Hashing
  import opened Results
  import opened Bytes
  import opened Inpoints
  import opened InpointsCodec
  import opened SubtreeState
  import opened Subtrees

  /** TxInpoints{} */
  const NIL_RECORD: Record := Record(None, [])

  // ----- records one after the other -----

  function PutRecords(records: seq<Record>): seq<byte> {
    if records == [] then [] else EncodeRecord(records[0]) + PutRecords(records[1..])
  }

  datatype RecordsRead = RecordsRead(records: seq<Record>, rest: seq<byte>)

  function ReadRecords(b: seq<byte>, n: nat): Option<RecordsRead>
    decreases n
  {
    if n == 0 then Some(RecordsRead([], b))
    else
      match DecodeRecord(b)
      case None => None
      case Some(d) =>
        match ReadRecords(d.rest, n - 1)
        case None => None
        case Some(r) => Some(RecordsRead([Record(d.parents, Pack(d.runs))] + r.records, r.rest))
  }

  ghost predicate Good(r: Record) {
    exists runs :: WellFormed(r, runs)
  }

  ghost predicate AllGood(records: seq<Record>) {
    forall i :: 0 <= i < |records| ==> Good(records[i])
  }

  /** Up to nil versus empty. */
  function Normals(records: seq<Record>): (n: seq<Record>)
    ensures |n| == |records|
    ensures forall i :: 0 <= i < |n| ==> n[i] == Normal(records[i])
  {
    if records == [] then [] else [Normal(records[0])] + Normals(records[1..])
  }

  lemma {:induction false} RecordsRoundTrip(records: seq<Record>, rest: seq<byte>)
    requires AllGood(records)
    ensures ReadRecords(PutRecords(records) + rest, |records|) == Some(RecordsRead(Normals(records), rest))
  {
    if records == [] {
      assert PutRecords(records) + rest == rest;
    } else {
      var after := PutRecords(records[1..]) + rest;
      Assoc(EncodeRecord(records[0]), PutRecords(records[1..]), rest);
      assert Good(records[0]);
      var runs :| WellFormed(records[0], runs);
      RecordRoundTrip(records[0], runs, after);
      NormalOfRead(records[0], runs);
      RecordsRoundTrip(records[1..], rest);
    }
  }

  lemma {:induction false} NormalOfRead(r: Record, runs: seq<seq<u32>>)
    requires WellFormed(r, runs)
    ensures Record(Normal(r).parents, Pack(runs)) == Normal(r)
  {
  }

  // ----- the whole meta -----

  function EncodeMeta(root: Hash, records: seq<Record>): seq<byte> {
    root + (PutLE(|records|, 4) + PutRecords(records))
  }

  datatype MetaRead = MetaRead(root: Hash, records: seq<Record>, rest: seq<byte>)

  function NilRecords(n: nat): (r: seq<Record>)
    ensures |r| == n
    ensures forall i :: 0 <= i < n ==> r[i] == NIL_RECORD
  {
    seq(n, _ => NIL_RECORD)
  }

  /** Reading against a subtree with room for `size` nodes: a root, a count, that many
      records, and empty records for the positions that remain. */
  function DecodeMeta(b: seq<byte>, size: nat): Option<MetaRead> {
    if |b| < 36 then None
    else
      var n: nat := GetU32(b[32..36]);
      if n > size then None
      else
        match ReadRecords(b[36..], n)
        case None => None
        case Some(r) => Some(MetaRead(b[..32], r.records + NilRecords(size - n), r.rest))
  }

  lemma {:induction false} ReadRecordsCount(b: seq<byte>, n: nat)
    ensures ReadRecords(b, n).Some? ==> |ReadRecords(b, n).value.records| == n
    decreases n
  {
    if n > 0 && DecodeRecord(b).Some? {
      ReadRecordsCount(DecodeRecord(b).value.rest, n - 1);
    }
  }

  lemma {:induction false} MetaHeader(root: Hash, n: u32, body: seq<byte>)
    ensures var b := root + (PutU32(n) + body);
      |b| >= 36 && b[..32] == root && GetU32(b[32..36]) == n && b[36..] == body
  {
    var b := root + (PutU32(n) + body);
    SplitAppend(root, PutU32(n) + body);
    SplitAppend(PutU32(n), body);
    DropDrop(b, 32, 4);
    GetPutU32(n);
  }

  /** Round trip: the root and, up to nil versus empty, every record at its position;
      the positions beyond the subtree's length stay empty. */
  lemma {:induction false} MetaRoundTrip(root: Hash, records: seq<Record>, size: nat, rest: seq<byte>)
    requires AllGood(records) && |records| < TWO_32 && |records| <= size
    ensures DecodeMeta(EncodeMeta(root, records) + rest, size)
         == Some(MetaRead(root, Normals(records) + NilRecords(size - |records|), rest))
  {
    var n := |records|;
    var body := PutRecords(records) + rest;
    Assoc(root, PutU32(n) + PutRecords(records), rest);
    Assoc(PutU32(n), PutRecords(records), rest);
    MetaHeader(root, n, body);
    RecordsRoundTrip(records, rest);
  }

  /** Whatever is read as `n` records, writing these gives exactly the bytes read. */
  lemma {:induction false} RecordsCanonical(b: seq<byte>, n: nat)
    requires ReadRecords(b, n).Some?
    ensures var r := ReadRecords(b, n).value;
      |r.records| == n && AllGood(r.records) && b == PutRecords(r.records) + r.rest
    decreases n
  {
    if n > 0 {
      var d := DecodeRecord(b).value;
      var record := Record(d.parents, Pack(d.runs));
      assert WellFormed(record, d.runs) && b == EncodeRecord(record) + d.rest by {
        RecordCanonical(b, d, record);
      }
      RecordsCanonical(d.rest, n - 1);
      var more := ReadRecords(d.rest, n - 1).value;
      assert ([record] + more.records)[1..] == more.records;
      Assoc(EncodeRecord(record), PutRecords(more.records), more.rest);
    }
  }

  /** Canonicity: an accepted stream is the encoding of the first records read, as many
      as it announces, followed by what was not consumed. */
  lemma {:induction false} MetaCanonical(b: seq<byte>, size: nat)
    requires DecodeMeta(b, size).Some?
    ensures var d, n := DecodeMeta(b, size).value, GetU32(b[32..36]);
      && n <= size == |d.records| && AllGood(d.records)
      && b == EncodeMeta(d.root, d.records[..n]) + d.rest
  {
    var n: nat := GetU32(b[32..36]);
    RecordsCanonical(b[36..], n);
    var r := ReadRecords(b[36..], n).value;
    MetaParts(b, n, r);
    assert DecodeMeta(b, size).value.records[..n] == r.records;
    assert WellFormed(NIL_RECORD, []);
  }

  /** The bytes of a meta, put together again. */
  lemma {:induction false} MetaParts(b: seq<byte>, n: nat, r: RecordsRead)
    requires |b| >= 36 && n == GetU32(b[32..36]) == |r.records|
    requires b[36..] == PutRecords(r.records) + r.rest
    ensures b == EncodeMeta(b[..32], r.records) + r.rest
  {
    Assoc(PutU32(n), PutRecords(r.records), r.rest);
    Assoc(b[..32], PutU32(n) + PutRecords(r.records), r.rest);
  }

  /** What Meta.Serialize accepts: every node but the first has non-nil parents, and all
      layouts pass. */
  ghost predicate Serializable(records: seq<Record>) {
    ParentsSet(records) && Writable(records)
  }

  ghost predicate ParentsSet(records: seq<Record>) {
    forall i :: 1 <= i < |records| ==> records[i].parents.Some?
  }

  ghost predicate Writable(records: seq<Record>) {
    |records| < TWO_32 && forall i :: 0 <= i < |records| ==> LayoutOk(records[i])
  }

  /** A meta that was written and read back can be written again exactly when no node
      but the first has zero parents, for those have become nil. */
  lemma {:induction false} RewritableIff(records: seq<Record>)
    requires Serializable(records) && AllGood(records)
    ensures Serializable(Normals(records)) <==> forall i :: 1 <= i < |records| ==> |ParentsOf(records[i])| > 0
  {
    var normals := Normals(records);
    forall i | 0 <= i < |records|
      ensures LayoutOk(normals[i])
      ensures i > 0 ==> (normals[i].parents.Some? <==> |ParentsOf(records[i])| > 0)
    {
      assert LayoutOk(records[i]);
    }
    if Serializable(normals) {
      forall i | 1 <= i < |records| ensures |ParentsOf(records[i])| > 0 {
        assert normals[i].parents.Some?;
      }
    }
  }

  /** And when it can, the bytes are the same. */
  lemma {:induction false} RewriteIsIdentity(root: Hash, records: seq<Record>)
    ensures EncodeMeta(root, Normals(records)) == EncodeMeta(root, records)
  {
    PutNormals(records);
  }

  lemma {:induction false} PutNormals(records: seq<Record>)
    ensures PutRecords(Normals(records)) == PutRecords(records)
  {
    if records != [] {
      PutNormals(records[1..]);
      assert Normals(records)[1..] == Normals(records[1..]);
    }
  }

  lemma {:induction false} PutRecordsAppend(records: seq<Record>, r: Record)
    ensures PutRecords(records + [r]) == PutRecords(records) + EncodeRecord(r)
  {
    if records == [] {
      assert records + [r] == [r];
      assert PutRecords([r]) == EncodeRecord(r) + PutRecords([r][1..]);
    } else {
      assert (records + [r])[1..] == records[1..] + [r];
      PutRecordsAppend(records[1..], r);
      Assoc(EncodeRecord(records[0]), PutRecords(records[1..]), EncodeRecord(r));
    }
  }

  // ----- the object -----

  class Meta {
    const subtree: Subtree?
    var txInpoints: array<Record>
    var rootHash: Hash

    /** NewSubtreeMeta: room for as many records as the subtree has for nodes. */
    constructor (subtree: Subtree)
      requires subtree.Valid()
      ensures this.subtree == subtree && fresh(txInpoints) && txInpoints[..] == NilRecords(subtree.nodes.Length)
    {
      this.subtree := subtree;
      txInpoints := new Record[subtree.nodes.Length](_ => NIL_RECORD);
      rootHash := Repeat(0, 32);
    }

    ghost predicate Valid()
      reads this, subtree
    {
      subtree != null ==> subtree.Valid()
    }

    /** One record behind the ones already written. */
    method AppendRecord(buf: seq<byte>, i: nat) returns (r: Result<seq<byte>>)
      requires i <= txInpoints.Length && buf == PutRecords(txInpoints[..i])
      ensures r.Ok? <==> i < txInpoints.Length && LayoutOk(txInpoints[i])
      ensures r.Ok? ==> r.value == PutRecords(txInpoints[..i + 1])
    {
      if i >= txInpoints.Length {
        return Err(Panic);
      }
      var bytes := InpointsCodec.Serialize(txInpoints[i]);
      if bytes.Err? {
        return bytes;
      }
      PutRecordsAppend(txInpoints[..i], txInpoints[i]);
      assert txInpoints[..i + 1] == txInpoints[..i] + [txInpoints[i]];
      return Ok(buf + bytes.value);
    }

    /** serializeTxInpoints */
    method SerializeTxInpoints(n: nat) returns (r: Result<seq<byte>>)
      ensures r.Ok? <==>
        n < TWO_32 && n <= txInpoints.Length && forall i :: 0 <= i < n ==> LayoutOk(txInpoints[i])
      ensures r.Ok? ==> r.value == PutLE(n, 4) + PutRecords(txInpoints[..n])
    {
      if n >= TWO_32 {
        return Err(ConversionError);
      }
      var buf: seq<byte> := [];
      var i := 0;
      while i < n
        invariant 0 <= i <= n && i <= txInpoints.Length
        invariant forall k :: 0 <= k < i ==> LayoutOk(txInpoints[k])
        invariant buf == PutRecords(txInpoints[..i])
      {
        r := AppendRecord(buf, i);
        if r.Err? {
          return;
        }
        buf := r.value;
        i := i + 1;
      }
      return Ok(PutLE(n, 4) + buf);
    }

    /** The check that every node but the first has its parents set. */
    method CheckParents(n: nat) returns (e: Option<Error>)
      ensures e.None? <==>
        (n <= 1 || n <= txInpoints.Length) && forall i :: 1 <= i < n ==> txInpoints[i].parents.Some?
      ensures n <= txInpoints.Length ==> (e.None? <==> ParentsSet(txInpoints[..n]))
    {
      var i := 0;
      while i < n
        invariant 0 <= i <= n && (i <= 1 || i <= txInpoints.Length)
        invariant forall k :: 1 <= k < i ==> txInpoints[k].parents.Some?
      {
        if i != 0 && i >= txInpoints.Length {
          return Some(Panic);
        }
        if i != 0 && txInpoints[i].parents.None? {
          return Some(CannotSerializeSubtreeNotSet);
        }
        i := i + 1;
      }
      return None;
    }

    /** Meta.Serialize */
    method Serialize(hs: Hasher<Hash>) returns (r: Result<seq<byte>>)
      requires Valid()
      modifies this`rootHash, (if subtree == null then {} else {subtree})`rootHash
      ensures subtree == null ==> r == Err(CannotSerializeSubtreeNotSet)
      ensures subtree != null ==>
        Valid() && (subtree.View() == old(subtree.View()) || subtree.View() == Cached(hs, old(subtree.View())))
      ensures subtree != null ==>
        var n, root := subtree.length, Cached(hs, old(subtree.View())).root;
        && (r.Ok? <==> root.Some? && n <= txInpoints.Length && Serializable(txInpoints[..n]))
        && (r.Ok? ==> rootHash == root.value && r.value == EncodeMeta(rootHash, txInpoints[..n]))
    {
      if subtree == null {
        return Err(CannotSerializeSubtreeNotSet);
      }
      var n := subtree.length;
      var e := CheckParents(n);
      if e.Some? {
        return Err(e.value);
      }
      var root := subtree.RootHash(hs);
      if root.None? {
        return Err(Panic);
      }
      rootHash := root.value;
      r := WithRoot(n);
    }

    /** The root, and the records behind it. */
    method WithRoot(n: nat) returns (r: Result<seq<byte>>)
      ensures r.Ok? <==> n <= txInpoints.Length && Writable(txInpoints[..n])
      ensures r.Ok? ==> r.value == EncodeMeta(rootHash, txInpoints[..n])
    {
      r := SerializeTxInpoints(n);
      if r.Ok? {
        r := Ok(rootHash + r.value);
      }
    }

    /** deserializeFromReader; every slot of the new record array starts empty. */
    method DeserializeFromReader(buf: ByteReader) returns (ok: bool)
      requires subtree != null && subtree.Valid() && buf.Valid()
      modifies this, buf
      ensures buf.Valid() && (ok <==> DecodeMeta(old(buf.Rest()), subtree.nodes.Length).Some?)
      ensures ok ==>
        var d := DecodeMeta(old(buf.Rest()), subtree.nodes.Length).value;
        rootHash == d.root && txInpoints[..] == d.records && buf.Rest() == d.rest
    {
      ghost var b := buf.Rest();
      var hashBytes := buf.ReadFull(32);
      if hashBytes.None? {
        return false;
      }
      SplitAppend(hashBytes.value, buf.Rest());
      rootHash := hashBytes.value;
      var txInpointsLen := ReadU32(buf);
      if txInpointsLen.None? {
        return false;
      }
      DropDrop(b, 32, 4);
      txInpoints := new Record[subtree.nodes.Length](_ => NIL_RECORD);
      ok := ReadSlots(txInpoints, buf, txInpointsLen.value);
    }
  }

  /** `m` records are left of the `goal`. */
  ghost predicate RecordsLeft(goal: Option<RecordsRead>, done: seq<Record>, rest: seq<byte>, m: nat) {
    match ReadRecords(rest, m)
    case None => goal == None
    case Some(r) => goal == Some(RecordsRead(done + r.records, r.rest))
  }

  lemma {:induction false} RecordsStep(goal: Option<RecordsRead>, done: seq<Record>, rest: seq<byte>, m: nat)
    requires m > 0 && RecordsLeft(goal, done, rest, m)
    ensures match DecodeRecord(rest)
      case None => goal == None
      case Some(d) => RecordsLeft(goal, done + [Record(d.parents, Pack(d.runs))], d.rest, m - 1)
  {
    var d := DecodeRecord(rest);
    if d.Some? && ReadRecords(d.value.rest, m - 1).Some? {
      var r := Record(d.value.parents, Pack(d.value.runs));
      Assoc(done, [r], ReadRecords(d.value.rest, m - 1).value.records);
    }
  }

  /** The first slots hold `done`, the others are empty. */
  ghost predicate SlotsHold(slots: seq<Record>, done: seq<Record>) {
    && |done| <= |slots|
    && (forall k :: 0 <= k < |done| ==> slots[k] == done[k])
    && (forall k :: |done| <= k < |slots| ==> slots[k] == NIL_RECORD)
  }

  /** `i` of the `n` records are in the slots, and the others follow in the stream. */
  ghost predicate SlotsFilled(goal: Option<RecordsRead>, done: seq<Record>, slots: seq<Record>, rest: seq<byte>,
                              i: nat, n: nat)
  {
    |done| == i <= n && SlotsHold(slots, done) && RecordsLeft(goal, done, rest, n - i)
  }

  lemma {:induction false} SlotStep(goal: Option<RecordsRead>, done: seq<Record>, slots: seq<Record>, rest: seq<byte>,
                                    i: nat, n: nat, record: Record, rest': seq<byte>)
    requires i < n && i < |slots| && SlotsFilled(goal, done, slots, rest, i, n)
    requires DecodeRecord(rest).Some? && rest' == DecodeRecord(rest).value.rest
    requires record == Record(DecodeRecord(rest).value.parents, Pack(DecodeRecord(rest).value.runs))
    ensures SlotsFilled(goal, done + [record], slots[i := record], rest', i + 1, n)
  {
    RecordsStep(goal, done, rest, n - i);
    SlotsHoldMore(slots, done, record);
  }

  lemma {:induction false} SlotsHoldMore(slots: seq<Record>, done: seq<Record>, record: Record)
    requires SlotsHold(slots, done) && |done| < |slots|
    ensures SlotsHold(slots[|done| := record], done + [record])
  {
  }

  /** The value of the next record of the stream. */
  method ReadRecord(buf: ByteReader) returns (r: Option<Record>)
    requires buf.Valid()
    modifies buf
    ensures buf.Valid() && (r.Some? <==> DecodeRecord(old(buf.Rest())).Some?)
    ensures r.Some? ==>
      var d := DecodeRecord(old(buf.Rest())).value;
      r.value == Record(d.parents, Pack(d.runs)) && buf.Rest() == d.rest
  {
    var ok, p := NewTxInpointsFromReader(buf);
    if !ok {
      return None;
    }
    var record := Record(if p.parentTxHashes == null then None else Some(p.parentTxHashes[..p.parentCount]),
                         if p.voutIdxs == null then [] else p.voutIdxs[..p.voutCount]);
    assert record == Value(p);
    return Some(record);
  }

  /** One record of the stream into slot `i`, which may not exist. */
  method ReadSlot(slots: array<Record>, buf: ByteReader, i: nat, n: nat, ghost goal: Option<RecordsRead>,
                  ghost done: seq<Record>)
    returns (ok: bool, ghost done': seq<Record>)
    requires buf.Valid() && i < n && SlotsFilled(goal, done, slots[..], buf.Rest(), i, n)
    modifies slots, buf
    ensures buf.Valid() && (!ok ==> goal == None || i == slots.Length)
    ensures ok ==> SlotsFilled(goal, done', slots[..], buf.Rest(), i + 1, n)
  {
    ghost var before, rest := slots[..], buf.Rest();
    done' := done;
    var record := ReadRecord(buf);
    if record.None? {
      RecordsStep(goal, done, rest, n - i);
      return false, done';
    }
    if i >= slots.Length {
      return false, done';
    }
    SlotStep(goal, done, before, rest, i, n, record.value, buf.Rest());
    done' := done + [record.value];
    slots[i] := record.value;
    assert slots[..] == before[i := record.value];
    return true, done';
  }

  /** The `n` records left, into the slots from the first on. */
  method FillSlots(slots: array<Record>, buf: ByteReader, n: nat, ghost goal: Option<RecordsRead>)
    returns (ok: bool, ghost done: seq<Record>)
    requires buf.Valid() && SlotsFilled(goal, [], slots[..], buf.Rest(), 0, n)
    modifies slots, buf
    ensures buf.Valid() && (!ok ==> goal == None || n > slots.Length)
    ensures ok ==> SlotsFilled(goal, done, slots[..], buf.Rest(), n, n)
  {
    done := [];
    for i := 0 to n
      invariant buf.Valid() && SlotsFilled(goal, done, slots[..], buf.Rest(), i, n)
    {
      ok, done := ReadSlot(slots, buf, i, n, goal, done);
      if !ok {
        return;
      }
    }
    ok := true;
  }

  /** deserializeTxInpointsFromReader: a record beyond the last slot is a panic. */
  method ReadSlots(slots: array<Record>, buf: ByteReader, n: nat) returns (ok: bool)
    requires buf.Valid() && slots[..] == NilRecords(slots.Length)
    modifies slots, buf
    ensures buf.Valid() && (ok <==> n <= slots.Length && ReadRecords(old(buf.Rest()), n).Some?)
    ensures ok ==>
      var r := ReadRecords(old(buf.Rest()), n).value;
      && |r.records| == n && slots[..] == r.records + NilRecords(slots.Length - n) && buf.Rest() == r.rest
  {
    ghost var goal, done: seq<Record> := ReadRecords(buf.Rest(), n), [];
    ReadRecordsCount(buf.Rest(), n);
    if goal.Some? {
      assert [] + goal.value.records == goal.value.records;
    }
    ok, done := FillSlots(slots, buf, n, goal);
    assert done + [] == done;
    assert ok ==> slots[..] == done + NilRecords(slots.Length - n);
  }
}
