/** The flat Merkle store of merkle_tree.go: one array of P - 1 hashes, P the next
    power of two, holding all levels above the leaves one after the other.
 */
module MerkleStore {
  import opened Hashing
  import opened PowersOfTwo
  import opened Canonical

  // ----- calcMerkle and the cells it reads -----

  function CalcMerkle<T(==)>(hs: Hasher<T>, left: T, right: T): T {
    if left == hs.zero then hs.zero
    else if right == hs.zero then hs.pair(left, left)
    else hs.pair(left, right)
  }

  function GetNodeHashAt<T>(hs: Hasher<T>, nodes: seq<T>, index: nat): T {
    if index >= |nodes| then hs.zero else nodes[index]
  }

  /** Cell `i` of the leaves (padded to nextPoT cells) followed by the store. */
  function Cell<T>(hs: Hasher<T>, nodes: seq<T>, merkles: seq<T>, nextPoT: nat, i: nat): T
    requires i < nextPoT + |merkles|
  {
    if i < nextPoT then GetNodeHashAt(hs, nodes, i) else merkles[i - nextPoT]
  }

  /** The pair hash of cells `i` and `i + 1`. */
  function PairHash<T(==)>(hs: Hasher<T>, nodes: seq<T>, merkles: seq<T>, nextPoT: nat, i: nat): T
    requires i + 1 < nextPoT + |merkles|
  {
    CalcMerkle(hs, Cell(hs, nodes, merkles, nextPoT, i), Cell(hs, nodes, merkles, nextPoT, i + 1))
  }

  // ----- what the store is to contain, without index arithmetic -----

  function Zeros<T>(hs: Hasher<T>, n: nat): (z: seq<T>)
    ensures |z| == n
  {
    seq(n, _ => hs.zero)
  }

  /** `s` followed by sentinels up to `width` cells. */
  function Pad<T>(hs: Hasher<T>, s: seq<T>, width: nat): (p: seq<T>)
    requires |s| <= width
    ensures |p| == width
  {
    s + Zeros(hs, width - |s|)
  }

  /** One row of cells reduced to the row above it. */
  function Reduce<T(==)>(hs: Hasher<T>, row: seq<T>): (r: seq<T>)
    ensures |r| == |row| / 2
  {
    if |row| < 2 then [] else [CalcMerkle(hs, row[0], row[1])] + Reduce(hs, row[2..])
  }

  lemma {:induction false} ReduceAt<T>(hs: Hasher<T>, row: seq<T>, c: nat)
    requires c < |row| / 2
    ensures Reduce(hs, row)[c] == CalcMerkle(hs, row[2 * c], row[2 * c + 1])
  {
    if c > 0 {
      ReduceAt(hs, row[2..], c - 1);
    }
  }

  /** All rows above `row`, lowest first. */
  function Rows<T(==)>(hs: Hasher<T>, row: seq<T>): seq<T>
    decreases |row|
  {
    if |row| <= 1 then [] else Reduce(hs, row) + Rows(hs, Reduce(hs, row))
  }

  function Store<T(==)>(hs: Hasher<T>, nodes: seq<T>): seq<T> {
    if |nodes| <= 1 then nodes
    else Rows(hs, Pad(hs, nodes, Pow2(CeilLog2(|nodes|))))
  }

  lemma {:induction false} RowsLength<T>(hs: Hasher<T>, row: seq<T>, h: nat)
    requires |row| == Pow2(h)
    ensures |Rows(hs, row)| == Pow2(h) - 1
    decreases h
  {
    if h > 0 {
      RowsLength(hs, Reduce(hs, row), h - 1);
    }
  }

  /** A non-empty store has P - 1 cells, or one when there is a single leaf. */
  lemma {:induction false} StoreLength<T>(hs: Hasher<T>, nodes: seq<T>)
    requires |nodes| > 0
    ensures |Store(hs, nodes)| == if |nodes| == 1 then 1 else Pow2(CeilLog2(|nodes|)) - 1
    ensures |Store(hs, nodes)| > 0
  {
    if |nodes| > 1 {
      var h := CeilLog2(|nodes|);
      RowsLength(hs, Pad(hs, nodes, Pow2(h)), h);
    }
  }

  /** The last cell of the store. */
  function StoreRoot<T(==)>(hs: Hasher<T>, nodes: seq<T>): T
    requires |nodes| > 0
  {
    StoreLength(hs, nodes);
    Store(hs, nodes)[|Store(hs, nodes)| - 1]
  }

  /** A single leaf is its own root. */
  lemma {:induction false} StoreRootOfOne<T>(hs: Hasher<T>, nodes: seq<T>)
    requires |nodes| == 1
    ensures StoreRoot(hs, nodes) == nodes[0]
  {
  }

  // ----- the store refines the canonical tree -----

  /** On a padded level of non-sentinel hashes, one reduction is one canonical step. */
  lemma {:induction false} ReduceIsUp<T(!new)>(hs: Hasher<T>, s: seq<T>, width: nat)
    requires Proper(hs, s)
    requires |s| <= 2 * width
    ensures Reduce(hs, Pad(hs, s, 2 * width)) == Pad(hs, Up(hs, s), width)
  {
    var l, r := Reduce(hs, Pad(hs, s, 2 * width)), Pad(hs, Up(hs, s), width);
    forall c | 0 <= c < width ensures l[c] == r[c] {
      ReduceAt(hs, Pad(hs, s, 2 * width), c);
      if 2 * c < |s| {
        UpAt(hs, s, c);
      }
    }
  }

  /** The cell where the segment of level `j` begins, in a store of height `h`. */
  function SegmentStart(h: nat, j: nat): (start: int)
    requires 1 <= j <= h
  {
    Pow2(h) - Pow2(h - j + 1)
  }

  /** The rows above a padded level are the padded levels above it. */
  lemma {:induction false} RowsOfPaddedLevel<T(!new)>(hs: Hasher<T>, s: seq<T>, h: nat)
    requires Proper(hs, s)
    requires |s| <= Pow2(h) && h > 0
    ensures Rows(hs, Pad(hs, s, Pow2(h)))
         == Pad(hs, Up(hs, s), Pow2(h - 1)) + Rows(hs, Pad(hs, Up(hs, s), Pow2(h - 1)))
  {
    ReduceIsUp(hs, s, Pow2(h - 1));
  }

  lemma {:induction false} SegmentStep(h: nat, j: nat)
    requires 1 <= j <= h
    ensures j == 1 ==> SegmentStart(h, j) == 0
    ensures j > 1 ==> SegmentStart(h, j) == Pow2(h - 1) + SegmentStart(h - 1, j - 1)
  {
  }

  /** The first segment is the next level. */
  lemma {:induction false} FirstSegment<T(!new)>(hs: Hasher<T>, s: seq<T>, h: nat, rows: seq<T>, c: nat)
    requires Proper(hs, s)
    requires |s| <= Pow2(h) && rows == Rows(hs, Pad(hs, s, Pow2(h)))
    requires h > 0 && c < Pow2(h - 1)
    ensures c < |rows| && rows[c] == GetNodeHashAt(hs, Up(hs, s), c)
  {
    RowsOfPaddedLevel(hs, s, h);
  }

  /** The other segments are those of the tree over the next level. */
  lemma {:induction false} LaterSegment<T(!new)>(
      hs: Hasher<T>, s: seq<T>, h: nat, rows: seq<T>, rest: seq<T>, x: T, j: nat, c: nat)
    requires Proper(hs, s)
    requires |s| <= Pow2(h) && rows == Rows(hs, Pad(hs, s, Pow2(h)))
    requires 1 < j <= h && rest == Rows(hs, Pad(hs, Up(hs, s), Pow2(h - 1)))
    requires 0 <= SegmentStart(h - 1, j - 1) && SegmentStart(h - 1, j - 1) + c < |rest|
    requires rest[SegmentStart(h - 1, j - 1) + c] == x
    ensures 0 <= SegmentStart(h, j) && SegmentStart(h, j) + c < |rows|
    ensures rows[SegmentStart(h, j) + c] == x
  {
    RowsOfPaddedLevel(hs, s, h);
    SegmentStep(h, j);
  }

  /** Segment j of the rows above a padded level holds level j and then only sentinels. */
  lemma {:induction false} RowsSegment<T(!new)>(
      hs: Hasher<T>, s: seq<T>, h: nat, rows: seq<T>, level: seq<T>, j: nat, c: nat)
    requires Proper(hs, s)
    requires |s| <= Pow2(h) && rows == Rows(hs, Pad(hs, s, Pow2(h)))
    requires 1 <= j <= h && c < Pow2(h - j) && level == Level(hs, s, j)
    ensures 0 <= SegmentStart(h, j) && SegmentStart(h, j) + c < |rows|
    ensures rows[SegmentStart(h, j) + c] == GetNodeHashAt(hs, level, c)
    decreases h
  {
    if j == 1 {
      SegmentStep(h, j);
      FirstSegment(hs, s, h, rows, c);
      LevelStep(hs, s, 0);
    } else {
      var up := Up(hs, s);
      var rest := Rows(hs, Pad(hs, up, Pow2(h - 1)));
      UpNonZero(hs, s);
      RowsSegment(hs, up, h - 1, rest, level, j - 1, c);
      LaterSegment(hs, s, h, rows, rest, GetNodeHashAt(hs, level, c), j, c);
    }
  }

  /** The store refines the canonical tree: the segment of level j consists of the
      ceil(n / 2^j) hashes of that level followed by sentinels. */
  lemma {:induction false} StoreSegment<T(!new)>(hs: Hasher<T>, nodes: seq<T>, j: nat, c: nat)
    requires Proper(hs, nodes) && |nodes| > 1
    requires 1 <= j <= CeilLog2(|nodes|) && c < Pow2(CeilLog2(|nodes|) - j)
    ensures 0 <= SegmentStart(CeilLog2(|nodes|), j)
    ensures SegmentStart(CeilLog2(|nodes|), j) + c < |Store(hs, nodes)|
    ensures Store(hs, nodes)[SegmentStart(CeilLog2(|nodes|), j) + c]
         == GetNodeHashAt(hs, Level(hs, nodes, j), c)
  {
    RowsSegment(hs, nodes, CeilLog2(|nodes|), Store(hs, nodes), Level(hs, nodes, j), j, c);
  }

  /** The last cell of the store is the canonical root. */
  lemma {:induction false} StoreRootIsRoot<T(!new)>(hs: Hasher<T>, nodes: seq<T>)
    requires Proper(hs, nodes) && |nodes| > 0
    ensures StoreRoot(hs, nodes) == Root(hs, nodes)
  {
    if |nodes| > 1 {
      var h := CeilLog2(|nodes|);
      StoreLength(hs, nodes);
      StoreSegment(hs, nodes, h, 0);
      RootIsTopLevel(hs, nodes);
      assert Pow2(1) == 2 * Pow2(0);
    }
  }

  // ----- leaves that are sentinels -----

  /** A cell of the next row is a sentinel exactly when the left one of its two is. */
  lemma {:induction false} ReduceSentinel<T(!new)>(hs: Hasher<T>, row: seq<T>, c: nat)
    requires NeverZero(hs) && c < |row| / 2
    ensures Reduce(hs, row)[c] == hs.zero <==> row[2 * c] == hs.zero
  {
    ReduceAt(hs, row, c);
  }

  lemma {:induction false} RowsSentinel<T(!new)>(hs: Hasher<T>, row: seq<T>, h: nat)
    requires NeverZero(hs) && |row| == Pow2(h) && h > 0
    ensures |Rows(hs, row)| > 0
    ensures Rows(hs, row)[|Rows(hs, row)| - 1] == hs.zero <==> row[0] == hs.zero
    decreases h
  {
    ReduceSentinel(hs, row, 0);
    RowsLength(hs, row, h);
    if h == 1 {
      assert Rows(hs, row) == Reduce(hs, row) + [];
    } else {
      RowsSentinel(hs, Reduce(hs, row), h - 1);
    }
  }

  /** On any leaves whatever, the last cell is a sentinel exactly when the first leaf is. */
  lemma {:induction false} SentinelRootIff<T(!new)>(hs: Hasher<T>, nodes: seq<T>)
    requires NeverZero(hs) && |nodes| > 0
    ensures StoreRoot(hs, nodes) == hs.zero <==> nodes[0] == hs.zero
  {
    if |nodes| > 1 {
      var h := CeilLog2(|nodes|);
      RowsSentinel(hs, Pad(hs, nodes, Pow2(h)), h);
    }
  }
}
