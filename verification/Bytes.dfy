/** Bytes, hashes, little-endian words, and a stream that is read once. */
module Bytes {
  import opened Results

  type byte = n: nat | n < 256

  type Hash = h: seq<byte> | |h| == 32 witness seq(32, _ => 0)

  function Repeat(b: byte, n: nat): (r: seq<byte>)
    ensures |r| == n
    ensures forall i :: 0 <= i < n ==> r[i] == b
  {
    seq(n, _ => b)
  }

  const TWO_32: nat := 0x1_0000_0000
  const TWO_63: nat := 0x8000_0000_0000_0000
  const TWO_64: nat := 0x1_0000_0000_0000_0000

  type u32 = n: nat | n < TWO_32
  type u64 = n: nat | n < TWO_64

  function Pow256(k: nat): (p: nat)
    ensures p > 0
  {
    if k == 0 then 1 else 256 * Pow256(k - 1)
  }

  lemma {:induction false} WordSizes()
    ensures Pow256(4) == TWO_32 && Pow256(8) == TWO_64
  {
    assert Pow256(2) == 0x1_0000;
    assert Pow256(4) == TWO_32;
    assert Pow256(6) == 0x1_0000_0000_0000;
  }

  /** binary.LittleEndian.Put */
  function PutLE(n: nat, width: nat): (b: seq<byte>)
    ensures |b| == width
    decreases width, n  // naming n keeps the verifier from computing all bytes of a word
  {
    if width == 0 then [] else [n % 256] + PutLE(n / 256, width - 1)
  }

  lemma {:induction false} DivideTwice(n: nat, p: nat)
    requires p > 0
    ensures (n / 256) / p == n / (256 * p)
  {
    var q, r := n / (256 * p), n % (256 * p);
    var m := n / 256;
    assert n == 256 * (p * q) + r;
    assert m == p * q + r / 256 && r / 256 < p;
    QuotientOf(m, p, q, r / 256);
  }

  lemma {:induction false} QuotientOf(m: nat, p: nat, q: nat, r: nat)
    requires m == p * q + r && r < p
    ensures m / p == q
  {
    var d := m / p;
    assert p * d <= m < p * d + p;
    assert d < q ==> p * (d + 1) <= p * q;
    assert q < d ==> p * (q + 1) <= p * d;
  }

  /** Byte `k` of a word, the lowest first. */
  function ByteOf(n: nat, k: nat): byte {
    n / Pow256(k) % 256
  }

  /** Little-endian: byte `k` has the weight 256^k. */
  lemma {:induction false} PutLEAt(n: nat, width: nat, k: nat)
    requires k < width
    ensures PutLE(n, width)[k] == ByteOf(n, k)
    decreases width
  {
    if k > 0 {
      PutLEAt(n / 256, width - 1, k - 1);
      DivideTwice(n, Pow256(k - 1));
    }
  }

  /** binary.LittleEndian.Uint */
  function GetLE(b: seq<byte>): nat {
    if b == [] then 0 else b[0] + 256 * GetLE(b[1..])
  }

  lemma {:induction false} GetPut(n: nat, width: nat)
    requires n < Pow256(width)
    ensures GetLE(PutLE(n, width)) == n
    decreases width
  {
    if width > 0 {
      GetPut(n / 256, width - 1);
    }
  }

  lemma {:induction false} PutGet(b: seq<byte>)
    ensures GetLE(b) < Pow256(|b|)
    ensures PutLE(GetLE(b), |b|) == b
  {
    if b != [] {
      PutGet(b[1..]);
      LowByte(b[0], GetLE(b[1..]));
    }
  }

  lemma {:induction false} LowByte(low: byte, high: nat)
    ensures (low + 256 * high) % 256 == low && (low + 256 * high) / 256 == high
  {
  }

  function PutU32(n: u32): (b: seq<byte>)
    ensures |b| == 4
  {
    PutLE(n, 4)
  }

  function PutU64(n: u64): (b: seq<byte>)
    ensures |b| == 8
  {
    PutLE(n, 8)
  }

  function GetU32(b: seq<byte>): (n: u32)
    requires |b| == 4
    ensures PutU32(n) == b
  {
    PutGet(b);
    WordSizes();
    GetLE(b)
  }

  function GetU64(b: seq<byte>): (n: u64)
    requires |b| == 8
    ensures PutU64(n) == b
  {
    PutGet(b);
    WordSizes();
    GetLE(b)
  }

  lemma {:induction false} GetPutU32(n: u32)
    ensures GetU32(PutU32(n)) == n
  {
    WordSizes();
    GetPut(n, 4);
  }

  lemma {:induction false} GetPutU64(n: u64)
    ensures GetU64(PutU64(n)) == n
  {
    WordSizes();
    GetPut(n, 8);
  }

  /** Conversion of an integer to int64. */
  function ToInt64(x: int): (r: int)
    ensures -(TWO_63 as int) <= r < TWO_63
    ensures 0 <= x < TWO_63 ==> r == x
  {
    (x + TWO_63) % TWO_64 - TWO_63
  }

  // ----- lists of hashes -----

  function PutHashes(hs: seq<Hash>): (b: seq<byte>)
    ensures |b| == 32 * |hs|
  {
    if hs == [] then [] else hs[0] + PutHashes(hs[1..])
  }

  lemma {:induction false} PutHashesAppend(hs: seq<Hash>, h: Hash)
    ensures PutHashes(hs + [h]) == PutHashes(hs) + h
  {
    if hs == [] {
      assert hs + [h] == [h];
      assert PutHashes([h]) == h + PutHashes([]);
    } else {
      assert (hs + [h])[1..] == hs[1..] + [h];
      PutHashesAppend(hs[1..], h);
    }
  }

  /** Hash `i` stands at byte 32i. */
  lemma {:induction false} PutHashesAt(hs: seq<Hash>, i: nat)
    requires i < |hs|
    ensures PutHashes(hs)[32 * i..32 * i + 32] == hs[i]
  {
    if i > 0 {
      PutHashesAt(hs[1..], i - 1);
      DropDrop(PutHashes(hs), 32, 32 * i - 32);
      assert PutHashes(hs)[32..] == PutHashes(hs[1..]);
      DropSlice(PutHashes(hs), 32, 32 * (i - 1), 32);
    }
  }

  function SplitHashes(b: seq<byte>, n: nat): (hashes: seq<Hash>)
    requires |b| >= 32 * n
    ensures |hashes| == n
    decreases n
  {
    if n == 0 then [] else [b[..32]] + SplitHashes(b[32..], n - 1)
  }

  /** Hash `i` of a list of hashes. */
  function HashAt(b: seq<byte>, i: nat): Hash
    requires 32 * i + 32 <= |b|
  {
    b[32 * i..32 * i + 32]
  }

  lemma {:induction false} SplitHashesAt(b: seq<byte>, n: nat, i: nat)
    requires |b| >= 32 * n && i < n
    ensures SplitHashes(b, n)[i] == HashAt(b, i)
    decreases n
  {
    if i > 0 {
      SplitHashesAt(b[32..], n - 1, i - 1);
      assert b[32..][32 * (i - 1)..32 * (i - 1) + 32] == b[32 * i..32 * i + 32];
    }
  }

  lemma {:induction false} SplitPutHashes(hashes: seq<Hash>, rest: seq<byte>)
    ensures SplitHashes(PutHashes(hashes) + rest, |hashes|) == hashes
  {
    if hashes != [] {
      var b := PutHashes(hashes) + rest;
      assert b[..32] == hashes[0] && b[32..] == PutHashes(hashes[1..]) + rest;
      SplitPutHashes(hashes[1..], rest);
    }
  }

  lemma {:induction false} PutSplitHashes(b: seq<byte>, n: nat)
    requires |b| >= 32 * n
    ensures PutHashes(SplitHashes(b, n)) == b[..32 * n]
    decreases n
  {
    if n > 0 {
      PutSplitHashes(b[32..], n - 1);
      assert SplitHashes(b, n)[1..] == SplitHashes(b[32..], n - 1);
      assert b[..32 * n] == b[..32] + b[32..][..32 * (n - 1)];
    }
  }

  // ----- cutting sequences -----

  lemma {:induction false} SplitAppend(a: seq<byte>, b: seq<byte>)
    ensures (a + b)[..|a|] == a && (a + b)[|a|..] == b
  {
  }

  lemma {:induction false} DropDrop(b: seq<byte>, i: nat, j: nat)
    requires i + j <= |b|
    ensures b[i..][j..] == b[i + j..] && b[i..][..j] == b[i..i + j]
    ensures b[..i] + b[i..i + j] == b[..i + j]
  {
  }

  lemma {:induction false} DropSlice(b: seq<byte>, i: nat, j: nat, n: nat)
    requires i + j + n <= |b|
    ensures b[i..][j..j + n] == b[i + j..i + j + n]
  {
  }

  // ----- streams -----

  class ByteReader {
    const data: seq<byte>
    var pos: nat

    ghost predicate Valid()
      reads this
    {
      pos <= |data|
    }

    /** The bytes not yet read. */
    ghost function Rest(): seq<byte>
      requires Valid()
      reads this
    {
      data[pos..]
    }

    constructor (bytes: seq<byte>)
      ensures Valid() && Rest() == bytes
    {
      data := bytes;
      pos := 0;
    }

    /** io.ReadFull: all `n` bytes, or an error with the stream exhausted. */
    method ReadFull(n: nat) returns (r: Option<seq<byte>>)
      requires Valid()
      modifies this
      ensures Valid()
      ensures n <= |old(Rest())| ==>
        r.Some? && |r.value| == n && old(Rest()) == r.value + Rest()
      ensures n > |old(Rest())| ==> r == None && Rest() == []
    {
      if pos + n <= |data| {
        r := Some(data[pos..pos + n]);
        pos := pos + n;
      } else {
        r := None;
        pos := |data|;
      }
    }

    /** bufio.Reader.Discard with its error ignored: a negative count skips nothing,
        a count past the end skips everything. */
    method Discard(n: int)
      requires Valid()
      modifies this
      ensures Valid()
      ensures Rest() == if n < 0 then old(Rest())
                        else if n <= |old(Rest())| then old(Rest())[n..] else []
    {
      if n > 0 {
        pos := if pos + n <= |data| then pos + n else |data|;
      }
    }
  }

  // ----- reading and writing lists of hashes -----

  method WriteHashes(hashes: seq<Hash>) returns (b: seq<byte>)
    ensures b == PutHashes(hashes)
  {
    b := [];
    var i := 0;
    while i < |hashes|
      invariant 0 <= i <= |hashes|
      invariant b == PutHashes(hashes[..i])
    {
      PutHashesAppend(hashes[..i], hashes[i]);
      assert hashes[..i + 1] == hashes[..i] + [hashes[i]];
      b := b + hashes[i];
      i := i + 1;
    }
    assert hashes[..|hashes|] == hashes;
  }

  /** `m` hashes are left of the `goal`, and `tail` follows them. */
  ghost predicate HashesFollow(goal: seq<Hash>, tail: seq<byte>, done: seq<Hash>, rest: seq<byte>, m: nat) {
    |rest| >= 32 * m && goal == done + SplitHashes(rest, m) && tail == rest[32 * m..]
  }

  lemma {:induction false} HashesStep(
      goal: seq<Hash>, tail: seq<byte>, done: seq<Hash>, h: Hash, rest: seq<byte>, m: nat)
    requires m > 0 && HashesFollow(goal, tail, done, h + rest, m)
    ensures HashesFollow(goal, tail, done + [h], rest, m - 1)
  {
    SplitAppend(h, rest);
    DropDrop(h + rest, 32, 32 * (m - 1));
  }

  /** The loop over the hashes. */
  method CollectHashes(buf: ByteReader, n: nat, ghost goal: seq<Hash>, ghost tail: seq<byte>)
    returns (r: Option<seq<Hash>>)
    requires buf.Valid()
    modifies buf
    ensures buf.Valid() && (r.Some? <==> |old(buf.Rest())| >= 32 * n)
    ensures r.Some? && old(HashesFollow(goal, tail, [], buf.Rest(), n)) ==>
      HashesFollow(goal, tail, r.value, buf.Rest(), 0)
  {
    ghost var total, follow := |buf.Rest()|, HashesFollow(goal, tail, [], buf.Rest(), n);
    var hashes: seq<Hash> := [];
    for i := 0 to n
      invariant buf.Valid() && |buf.Rest()| == total - 32 * i
      invariant follow ==> HashesFollow(goal, tail, hashes, buf.Rest(), n - i)
    {
      var bytes32 := buf.ReadFull(32);
      if bytes32.None? {
        return None;
      }
      if follow {
        HashesStep(goal, tail, hashes, bytes32.value, buf.Rest(), n - i);
      }
      hashes := hashes + [bytes32.value];
    }
    return Some(hashes);
  }

  /** Reads `n` hashes. */
  method ReadHashes(buf: ByteReader, n: nat) returns (r: Option<seq<Hash>>)
    requires buf.Valid()
    modifies buf
    ensures buf.Valid()
    ensures if |old(buf.Rest())| >= 32 * n then r == Some(SplitHashes(old(buf.Rest()), n)) else r == None
    ensures r.Some? ==> buf.Rest() == old(buf.Rest())[32 * n..]
  {
    ghost var goal, tail := [], [];
    if |buf.Rest()| >= 32 * n {
      goal, tail := SplitHashes(buf.Rest(), n), buf.Rest()[32 * n..];
      assert [] + goal == goal;
    }
    r := CollectHashes(buf, n, goal, tail);
    assert r.Some? ==> r.value + SplitHashes(buf.Rest(), 0) == r.value;
  }

  method ReadU64(buf: ByteReader) returns (r: Option<u64>)
    requires buf.Valid()
    modifies buf
    ensures buf.Valid() && (r.Some? <==> |old(buf.Rest())| >= 8)
    ensures r.Some? ==> r.value == GetU64(old(buf.Rest())[..8]) && buf.Rest() == old(buf.Rest())[8..]
  {
    var bytes8 := buf.ReadFull(8);
    if bytes8.None? {
      return None;
    }
    return Some(GetU64(bytes8.value));
  }
}
