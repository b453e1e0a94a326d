/** Filling one level of the store: sequentially, and by goroutines behind a
    barrier whose single cell accesses interleave in any order.
 */
module MerkleFill {
  import opened Sequences
  import opened Hashing
  import opened PowersOfTwo
  import opened MerkleStore

  /** One level: the pairs of cells from 2 * start up to `to` are hashed into the
      cells start, start + 1, ... of the store. */
  datatype Job<!T> = Job(hs: Hasher<T>, nodes: seq<T>, nextPoT: nat, start: nat, to: nat)

  /** Reads and writes of a job are inside the store, and no cell is both read and
      written: a level reads only the segment below the one it writes. */
  ghost predicate ValidJob<T>(job: Job<T>, size: nat) {
    && job.nextPoT % 2 == 0 && 2 * job.start <= job.to <= 2 * size
    && job.to < job.nextPoT + size && job.to < job.nextPoT + job.start
  }

  /** `m` is `m0` with the cells of the job filled, and no other cell changed. */
  ghost predicate IsFilled<T>(job: Job<T>, m0: seq<T>, m: seq<T>)
    requires ValidJob(job, |m0|)
  {
    && |m| == |m0|
    && forall c {:trigger FilledCell(job, m0, c)} :: 0 <= c < |m| ==> m[c] == FilledCell(job, m0, c)
  }

  function FilledCell<T(==)>(job: Job<T>, m0: seq<T>, c: nat): T
    requires ValidJob(job, |m0|) && c < |m0|
  {
    if job.start <= c && 2 * c < job.to then PairHash(job.hs, job.nodes, m0, job.nextPoT, 2 * c) else m0[c]
  }

  // ----- goroutines -----

  datatype Chunk = Chunk(lo: nat, hi: nat)

  /** Where a goroutine is inside one round of its loop. */
  datatype Local<T> = Idle | HasLeft(left: T) | HasPair(left: T, right: T)

  datatype Worker<T> = Worker(next: nat, local: Local<T>)

  datatype Phase<T> = Phase(merkles: seq<T>, workers: seq<Worker<T>>)

  /** The chunks one `go` statement each is started for. */
  function Chunks(from: nat, to: nat, split: nat): seq<Chunk>
    requires split > 0
    decreases if from < to then to - from else 0
  {
    if from >= to then []
    else [Chunk(from, if from + split < to then from + split else to)] + Chunks(from + split, to, split)
  }

  function Spawn<T>(chunks: seq<Chunk>): (ws: seq<Worker<T>>)
    ensures |ws| == |chunks|
    ensures forall k :: 0 <= k < |ws| ==> ws[k] == Worker(chunks[k].lo, Idle)
  {
    seq(|chunks|, k requires 0 <= k < |chunks| => Worker(chunks[k].lo, Idle))
  }

  predicate Enabled<T>(chunks: seq<Chunk>, workers: seq<Worker<T>>, k: nat) {
    k < |workers| && k < |chunks| && workers[k].next < chunks[k].hi
  }

  /** The barrier is reached: every goroutine has left its loop. */
  ghost predicate AllDone<T>(chunks: seq<Chunk>, ph: Phase<T>) {
    forall k :: 0 <= k < |chunks| ==> !Enabled(chunks, ph.workers, k)
  }

  /** The effect of one memory access on a goroutine and the array: read the left
      cell, read the right cell, or write the parent. */
  ghost function AccessResult<T>(hs: Hasher<T>, nodes: seq<T>, nextPoT: nat, m: seq<T>, w: Worker<T>)
      : (Worker<T>, seq<T>)
    requires InRange(nextPoT, m, w)
  {
    match w.local
    case Idle => (w.(local := HasLeft(Cell(hs, nodes, m, nextPoT, w.next))), m)
    case HasLeft(l) => (w.(local := HasPair(l, Cell(hs, nodes, m, nextPoT, w.next + 1))), m)
    case HasPair(l, r) => (Worker(w.next + 2, Idle), m[w.next / 2 := CalcMerkle(hs, l, r)])
  }

  ghost predicate InRange<T>(nextPoT: nat, m: seq<T>, w: Worker<T>) {
    w.next + 1 < nextPoT + |m| && w.next / 2 < |m|
  }

  /** Goroutine `k` makes its next access. Scheduling a finished goroutine does
      nothing; an access out of range would stop the program. */
  ghost function Step<T>(job: Job<T>, chunks: seq<Chunk>, ph: Phase<T>, k: nat): Phase<T> {
    if !Enabled(chunks, ph.workers, k) || !InRange(job.nextPoT, ph.merkles, ph.workers[k]) then ph
    else
      var (w, m) := AccessResult(job.hs, job.nodes, job.nextPoT, ph.merkles, ph.workers[k]);
      Phase(m, ph.workers[k := w])
  }

  /** The schedule names, step by step, the goroutine that moves. */
  ghost function Run<T>(job: Job<T>, chunks: seq<Chunk>, ph: Phase<T>, schedule: seq<nat>): Phase<T>
    decreases |schedule|
  {
    if schedule == [] then ph else Run(job, chunks, Step(job, chunks, ph, schedule[0]), schedule[1..])
  }

  // ----- the chunks partition the level -----

  predicate Owns(ch: Chunk, c: nat) {
    ch.lo <= 2 * c < ch.hi
  }

  ghost predicate SomeOwner(chunks: seq<Chunk>, c: nat) {
    exists k :: 0 <= k < |chunks| && Owns(chunks[k], c)
  }

  predicate ValidChunk(ch: Chunk, from: nat, to: nat) {
    from <= ch.lo <= ch.hi <= to && ch.lo % 2 == 0
  }

  ghost predicate Partition(chunks: seq<Chunk>, from: nat, to: nat) {
    && (forall k :: 0 <= k < |chunks| ==> ValidChunk(chunks[k], from, to))
    && (forall a, b :: 0 <= a < b < |chunks| ==> chunks[a].hi <= chunks[b].lo)
    && (forall c: nat :: from <= 2 * c < to ==> SomeOwner(chunks, c))
  }

  lemma {:induction false} ChunksPartition(from: nat, to: nat, split: nat)
    requires split > 0 && split % 2 == 0 && from % 2 == 0
    ensures Partition(Chunks(from, to, split), from, to)
    decreases if from < to then to - from else 0
  {
    var chunks := Chunks(from, to, split);
    if from < to {
      var rest := Chunks(from + split, to, split);
      ChunksPartition(from + split, to, split);
      forall k | 0 <= k < |chunks| ensures ValidChunk(chunks[k], from, to) {
        assert k > 0 ==> chunks[k] == rest[k - 1] && ValidChunk(rest[k - 1], from + split, to);
      }
      forall c: nat | from <= 2 * c < to ensures SomeOwner(chunks, c) {
        if 2 * c < from + split {
          assert Owns(chunks[0], c);
        } else {
          assert SomeOwner(rest, c);
          var k :| 0 <= k < |rest| && Owns(rest[k], c);
          assert chunks[k + 1] == rest[k];
        }
      }
    }
  }

  // ----- the invariant of every interleaving -----

  /** Goroutine state: what it holds is what the level below held at the start. */
  ghost predicate WorkerOk<T>(job: Job<T>, m0: seq<T>, ch: Chunk, w: Worker<T>)
    requires ValidJob(job, |m0|)
  {
    && ch.lo <= w.next <= ch.hi + 1 && w.next % 2 == 0
    && match w.local
       case Idle => true
       case HasLeft(l) =>
         w.next < ch.hi <= job.to && l == Cell(job.hs, job.nodes, m0, job.nextPoT, w.next)
       case HasPair(l, r) =>
         && w.next < ch.hi <= job.to
         && l == Cell(job.hs, job.nodes, m0, job.nextPoT, w.next)
         && r == Cell(job.hs, job.nodes, m0, job.nextPoT, w.next + 1)
  }

  /** What the goroutine has written so far is right. */
  ghost predicate Written<T>(job: Job<T>, m0: seq<T>, m: seq<T>, ch: Chunk, w: Worker<T>)
    requires ValidJob(job, |m0|) && |m| == |m0|
  {
    forall c {:trigger FilledCell(job, m0, c)} ::
      0 <= c < |m| && ch.lo <= 2 * c < w.next ==> m[c] == FilledCell(job, m0, c)
  }

  ghost predicate Unchanged<T>(job: Job<T>, m0: seq<T>, m: seq<T>) {
    |m| == |m0| && forall c :: 0 <= c < |m| && !(job.start <= c && 2 * c < job.to) ==> m[c] == m0[c]
  }

  ghost predicate Inv<T>(job: Job<T>, chunks: seq<Chunk>, m0: seq<T>, ph: Phase<T>) {
    && ValidJob(job, |m0|)
    && Partition(chunks, 2 * job.start, job.to)
    && |ph.workers| == |chunks|
    && Unchanged(job, m0, ph.merkles)
    && (forall k :: 0 <= k < |chunks| ==> WorkerOk(job, m0, chunks[k], ph.workers[k]))
    && (forall k :: 0 <= k < |chunks| ==> Written(job, m0, ph.merkles, chunks[k], ph.workers[k]))
  }

  lemma {:induction false} SpawnInv<T>(job: Job<T>, chunks: seq<Chunk>, m0: seq<T>)
    requires ValidJob(job, |m0|) && Partition(chunks, 2 * job.start, job.to)
    ensures Inv(job, chunks, m0, Phase(m0, Spawn(chunks)))
  {
    forall k | 0 <= k < |chunks| ensures WorkerOk(job, m0, chunks[k], Spawn<T>(chunks)[k]) {
      assert ValidChunk(chunks[k], 2 * job.start, job.to);
    }
  }

  /** A cell of the level below is the same at every moment of the phase. */
  lemma {:induction false} ReadsAreStable<T>(job: Job<T>, m0: seq<T>, m: seq<T>, i: nat)
    requires ValidJob(job, |m0|) && Unchanged(job, m0, m) && i <= job.to
    ensures Cell(job.hs, job.nodes, m, job.nextPoT, i) == Cell(job.hs, job.nodes, m0, job.nextPoT, i)
  {
  }

  /** A read step: only the goroutine's own local changes. */
  lemma {:induction false} ReadKeepsInv<T>(
      job: Job<T>, chunks: seq<Chunk>, m0: seq<T>, ph: Phase<T>, k: nat, local: Local<T>)
    requires Inv(job, chunks, m0, ph) && k < |chunks|
    requires WorkerOk(job, m0, chunks[k], Worker(ph.workers[k].next, local))
    ensures Inv(job, chunks, m0, ph.(workers := ph.workers[k := ph.workers[k].(local := local)]))
  {
    var ws := ph.workers[k := ph.workers[k].(local := local)];
    forall j | 0 <= j < |chunks|
      ensures WorkerOk(job, m0, chunks[j], ws[j]) && Written(job, m0, ph.merkles, chunks[j], ws[j])
    {
      assert WorkerOk(job, m0, chunks[j], ph.workers[j]);
      assert Written(job, m0, ph.merkles, chunks[j], ph.workers[j]);
    }
  }

  /** Two goroutines never write the same cell. */
  lemma {:induction false} WritesAreDisjoint<T>(
      job: Job<T>, chunks: seq<Chunk>, m0: seq<T>, ph: Phase<T>, a: nat, b: nat, c: nat)
    requires Inv(job, chunks, m0, ph) && a < |chunks| && b < |chunks| && a != b
    requires Owns(chunks[a], c)
    ensures !(chunks[b].lo <= 2 * c < ph.workers[b].next)
  {
    assert WorkerOk(job, m0, chunks[b], ph.workers[b]);
    if b < a {
      assert chunks[b].hi <= chunks[a].lo;
    } else {
      assert chunks[a].hi <= chunks[b].lo;
    }
  }

  /** A write step fills one cell that nobody else has filled or reads. */
  lemma {:induction false} WriteKeepsInv<T>(job: Job<T>, chunks: seq<Chunk>, m0: seq<T>, ph: Phase<T>, k: nat)
    requires Inv(job, chunks, m0, ph) && Enabled(chunks, ph.workers, k)
    requires ph.workers[k].local.HasPair? && ph.workers[k].next / 2 < |m0|
    ensures
      var w := ph.workers[k];
      Inv(job, chunks, m0,
          Phase(ph.merkles[w.next / 2 := CalcMerkle(job.hs, w.local.left, w.local.right)],
                ph.workers[k := Worker(w.next + 2, Idle)]))
  {
    var w := ph.workers[k];
    var c := w.next / 2;
    var m := ph.merkles[c := CalcMerkle(job.hs, w.local.left, w.local.right)];
    var ws := ph.workers[k := Worker(w.next + 2, Idle)];
    assert ValidChunk(chunks[k], 2 * job.start, job.to);
    assert WorkerOk(job, m0, chunks[k], w);
    assert Owns(chunks[k], c);
    assert m[c] == FilledCell(job, m0, c);
    forall j | 0 <= j < |chunks|
      ensures WorkerOk(job, m0, chunks[j], ws[j]) && Written(job, m0, m, chunks[j], ws[j])
    {
      assert WorkerOk(job, m0, chunks[j], ph.workers[j]);
      assert Written(job, m0, ph.merkles, chunks[j], ph.workers[j]);
      if j != k {
        WritesAreDisjoint(job, chunks, m0, ph, k, j, c);
      }
    }
  }

  /** Every step of every goroutine keeps the invariant. */
  lemma {:induction false} StepKeepsInv<T>(job: Job<T>, chunks: seq<Chunk>, m0: seq<T>, ph: Phase<T>, k: nat)
    requires Inv(job, chunks, m0, ph)
    ensures Inv(job, chunks, m0, Step(job, chunks, ph, k))
  {
    if Enabled(chunks, ph.workers, k) {
      var w := ph.workers[k];
      assert ValidChunk(chunks[k], 2 * job.start, job.to);
      assert WorkerOk(job, m0, chunks[k], w);
      match w.local
      case Idle =>
        ReadsAreStable(job, m0, ph.merkles, w.next);
        ReadKeepsInv(job, chunks, m0, ph, k, HasLeft(Cell(job.hs, job.nodes, ph.merkles, job.nextPoT, w.next)));
      case HasLeft(l) =>
        ReadsAreStable(job, m0, ph.merkles, w.next + 1);
        ReadKeepsInv(job, chunks, m0, ph, k, HasPair(l, Cell(job.hs, job.nodes, ph.merkles, job.nextPoT, w.next + 1)));
      case HasPair(l, r) =>
        WriteKeepsInv(job, chunks, m0, ph, k);
    }
  }

  lemma {:induction false} RunKeepsInv<T>(
      job: Job<T>, chunks: seq<Chunk>, m0: seq<T>, ph: Phase<T>, schedule: seq<nat>)
    requires Inv(job, chunks, m0, ph)
    ensures Inv(job, chunks, m0, Run(job, chunks, ph, schedule))
    decreases |schedule|
  {
    if schedule != [] {
      StepKeepsInv(job, chunks, m0, ph, schedule[0]);
      RunKeepsInv(job, chunks, m0, Step(job, chunks, ph, schedule[0]), schedule[1..]);
    }
  }

  /** At the barrier the level is filled. */
  lemma {:induction false} DoneIsFilled<T>(job: Job<T>, chunks: seq<Chunk>, m0: seq<T>, ph: Phase<T>)
    requires Inv(job, chunks, m0, ph) && AllDone(chunks, ph)
    ensures IsFilled(job, m0, ph.merkles)
  {
    forall c | 0 <= c < |ph.merkles| ensures ph.merkles[c] == FilledCell(job, m0, c) {
      if job.start <= c && 2 * c < job.to {
        assert SomeOwner(chunks, c);
        var k :| 0 <= k < |chunks| && Owns(chunks[k], c);
        assert !Enabled(chunks, ph.workers, k);
        assert Written(job, m0, ph.merkles, chunks[k], ph.workers[k]);
      }
    }
  }

  /** The goroutines of a level, started on `m0` and run by a schedule. */
  ghost function Spawned<T>(job: Job<T>, m0: seq<T>, split: nat, schedule: seq<nat>): Phase<T>
    requires split > 0
  {
    var chunks := Chunks(2 * job.start, job.to, split);
    Run(job, chunks, Phase(m0, Spawn(chunks)), schedule)
  }

  /** Schedule independence: whatever the interleaving, and for any even chunk
      width, a run that reaches the barrier leaves the array of the sequential fill. */
  lemma {:induction false} ScheduleIndependence<T>(job: Job<T>, m0: seq<T>, split: nat, schedule: seq<nat>)
    requires ValidJob(job, |m0|) && split > 0 && split % 2 == 0
    requires AllDone(Chunks(2 * job.start, job.to, split), Spawned(job, m0, split, schedule))
    ensures IsFilled(job, m0, Spawned(job, m0, split, schedule).merkles)
  {
    var chunks := Chunks(2 * job.start, job.to, split);
    ChunksPartition(2 * job.start, job.to, split);
    SpawnInv(job, chunks, m0);
    RunKeepsInv(job, chunks, m0, Phase(m0, Spawn(chunks)), schedule);
    DoneIsFilled(job, chunks, m0, Spawned(job, m0, split, schedule));
  }

  /** Any two runs that reach the barrier, of any chunk widths, leave the same array. */
  lemma {:induction false} SchedulesAgree<T>(
      job: Job<T>, m0: seq<T>, split1: nat, schedule1: seq<nat>, split2: nat, schedule2: seq<nat>)
    requires ValidJob(job, |m0|) && split1 > 0 && split1 % 2 == 0 && split2 > 0 && split2 % 2 == 0
    requires AllDone(Chunks(2 * job.start, job.to, split1), Spawned(job, m0, split1, schedule1))
    requires AllDone(Chunks(2 * job.start, job.to, split2), Spawned(job, m0, split2, schedule2))
    ensures Spawned(job, m0, split1, schedule1).merkles == Spawned(job, m0, split2, schedule2).merkles
  {
    ScheduleIndependence(job, m0, split1, schedule1);
    ScheduleIndependence(job, m0, split2, schedule2);
    FilledIsUnique(job, m0, Spawned(job, m0, split1, schedule1).merkles, Spawned(job, m0, split2, schedule2).merkles);
  }

  lemma {:induction false} FilledIsUnique<T>(job: Job<T>, m0: seq<T>, a: seq<T>, b: seq<T>)
    requires ValidJob(job, |m0|) && IsFilled(job, m0, a) && IsFilled(job, m0, b)
    ensures a == b
  {
    forall c | 0 <= c < |m0| ensures a[c] == b[c] {
      assert a[c] == FilledCell(job, m0, c);
    }
  }

  /** No data race: at every moment of every run, the cell one goroutine is about to
      write is neither the cell another is about to write nor a cell it may read. */
  lemma {:induction false} RaceFree<T>(job: Job<T>, chunks: seq<Chunk>, m0: seq<T>, schedule: seq<nat>, a: nat, b: nat)
    requires ValidJob(job, |m0|) && Partition(chunks, 2 * job.start, job.to) && a != b
    requires Enabled(chunks, Run(job, chunks, Phase(m0, Spawn(chunks)), schedule).workers, a)
    requires Enabled(chunks, Run(job, chunks, Phase(m0, Spawn(chunks)), schedule).workers, b)
    ensures
      var ws := Run(job, chunks, Phase(m0, Spawn(chunks)), schedule).workers;
      && ws[a].next / 2 != ws[b].next / 2
      && ws[a].next / 2 < |m0|
      && ws[b].next + 1 - job.nextPoT < ws[a].next / 2
  {
    SpawnInv(job, chunks, m0);
    RunKeepsInv(job, chunks, m0, Phase(m0, Spawn(chunks)), schedule);
    var ws := Run(job, chunks, Phase(m0, Spawn(chunks)), schedule).workers;
    assert ValidChunk(chunks[a], 2 * job.start, job.to) && ValidChunk(chunks[b], 2 * job.start, job.to);
    assert WorkerOk(job, m0, chunks[a], ws[a]) && WorkerOk(job, m0, chunks[b], ws[b]);
  }

  // ----- termination of the scheduler -----

  /** Memory accesses a goroutine still has to make, at most. */
  function Left<T>(ch: Chunk, w: Worker<T>): nat {
    if w.next >= ch.hi then 0
    else 3 * (ch.hi - w.next) - (match w.local case Idle => 0 case HasLeft(_) => 1 case HasPair(_, _) => 2)
  }

  function Remaining<T>(chunks: seq<Chunk>, workers: seq<Worker<T>>): nat
    requires |chunks| == |workers|
  {
    if chunks == [] then 0 else Left(chunks[0], workers[0]) + Remaining(chunks[1..], workers[1..])
  }

  lemma {:induction false} RemainingUpdate<T>(chunks: seq<Chunk>, workers: seq<Worker<T>>, k: nat, w: Worker<T>)
    requires |chunks| == |workers| && k < |chunks|
    ensures Remaining(chunks, workers[k := w])
         == Remaining(chunks, workers) - Left(chunks[k], workers[k]) + Left(chunks[k], w)
  {
    if k == 0 {
      assert workers[k := w][1..] == workers[1..];
    } else {
      assert workers[k := w][1..] == workers[1..][k - 1 := w];
      RemainingUpdate(chunks[1..], workers[1..], k - 1, w);
    }
  }

  // ----- merkle_tree.go -----

  /** calcMerkles: the sequential fill. */
  method CalcMerkles<T(==)>(hs: Hasher<T>, nodes: seq<T>, merkleFrom: nat, merkleTo: nat, nextPoT: nat,
                            merkles: array<T>)
    requires merkleFrom % 2 == 0 && ValidJob(Job(hs, nodes, nextPoT, merkleFrom / 2, merkleTo), merkles.Length)
    modifies merkles
    ensures IsFilled(Job(hs, nodes, nextPoT, merkleFrom / 2, merkleTo), old(merkles[..]), merkles[..])
  {
    ghost var job := Job(hs, nodes, nextPoT, merkleFrom / 2, merkleTo);
    ghost var m0 := merkles[..];
    var i := merkleFrom;
    while i < merkleTo
      invariant merkleFrom <= i <= merkleTo + 1 && i % 2 == 0
      invariant Unchanged(job, m0, merkles[..])
      invariant forall c :: 0 <= c < merkles.Length && merkleFrom <= 2 * c < i ==>
        merkles[c] == FilledCell(job, m0, c)
    {
      ReadsAreStable(job, m0, merkles[..], i);
      ReadsAreStable(job, m0, merkles[..], i + 1);
      var offset := i / 2;
      var currentMerkle, currentMerkle1;
      if i < nextPoT {
        currentMerkle, currentMerkle1 := GetNodeHashAt(hs, nodes, i), GetNodeHashAt(hs, nodes, i + 1);
      } else {
        currentMerkle, currentMerkle1 := merkles[i - nextPoT], merkles[i - nextPoT + 1];
      }
      merkles[offset] := CalcMerkle(hs, currentMerkle, currentMerkle1);
      assert merkles[offset] == FilledCell(job, m0, offset);
      i := i + 2;
    }
  }

  /** A goroutine never runs out of the array. */
  lemma {:induction false} StepInRange<T>(job: Job<T>, chunks: seq<Chunk>, m0: seq<T>, ph: Phase<T>, k: nat)
    requires Inv(job, chunks, m0, ph) && Enabled(chunks, ph.workers, k)
    ensures InRange(job.nextPoT, ph.merkles, ph.workers[k])
  {
    assert ValidChunk(chunks[k], 2 * job.start, job.to);
    assert WorkerOk(job, m0, chunks[k], ph.workers[k]);
  }

  /** An access of a running goroutine is in range, keeps the invariant and brings the
      barrier closer. */
  lemma {:induction false} SafeStep<T>(job: Job<T>, chunks: seq<Chunk>, m0: seq<T>, ph: Phase<T>, k: nat)
    requires Inv(job, chunks, m0, ph) && Enabled(chunks, ph.workers, k)
    ensures InRange(job.nextPoT, ph.merkles, ph.workers[k])
    ensures
      var (w, m) := AccessResult(job.hs, job.nodes, job.nextPoT, ph.merkles, ph.workers[k]);
      && Inv(job, chunks, m0, Phase(m, ph.workers[k := w]))
      && Remaining(chunks, ph.workers[k := w]) < Remaining(chunks, ph.workers)
  {
    StepInRange(job, chunks, m0, ph, k);
    StepKeepsInv(job, chunks, m0, ph, k);
    var (w, m) := AccessResult(job.hs, job.nodes, job.nextPoT, ph.merkles, ph.workers[k]);
    RemainingUpdate(chunks, ph.workers, k, w);
  }

  /** One memory access of the goroutine in state `w`. */
  method Access<T(==)>(hs: Hasher<T>, nodes: seq<T>, nextPoT: nat, merkles: array<T>, w: Worker<T>)
    returns (w': Worker<T>)
    requires InRange(nextPoT, merkles[..], w)
    modifies merkles
    ensures (w', merkles[..]) == AccessResult(hs, nodes, nextPoT, old(merkles[..]), w)
  {
    match w.local {
      case Idle =>
        var x := if w.next < nextPoT then GetNodeHashAt(hs, nodes, w.next) else merkles[w.next - nextPoT];
        w' := w.(local := HasLeft(x));
      case HasLeft(l) =>
        var x := if w.next + 1 < nextPoT then GetNodeHashAt(hs, nodes, w.next + 1)
                 else merkles[w.next + 1 - nextPoT];
        w' := w.(local := HasPair(l, x));
      case HasPair(l, r) =>
        merkles[w.next / 2] := CalcMerkle(hs, l, r);
        w' := Worker(w.next + 2, Idle);
    }
  }

  /** The `go` statements and the `wg.Wait()` of one wide level. The scheduler picks
      any goroutine that has not finished, again and again. */
  method CalcMerklesConcurrently<T(==)>(hs: Hasher<T>, nodes: seq<T>, merkleFrom: nat, merkleTo: nat,
                                        nextPoT: nat, split: nat, merkles: array<T>)
    requires merkleFrom % 2 == 0 && ValidJob(Job(hs, nodes, nextPoT, merkleFrom / 2, merkleTo), merkles.Length)
    requires split > 0 && split % 2 == 0
    modifies merkles
    ensures IsFilled(Job(hs, nodes, nextPoT, merkleFrom / 2, merkleTo), old(merkles[..]), merkles[..])
  {
    ghost var job := Job(hs, nodes, nextPoT, merkleFrom / 2, merkleTo);
    ghost var m0 := merkles[..];
    var chunks := Chunks(merkleFrom, merkleTo, split);
    var workers: seq<Worker<T>> := Spawn(chunks);
    ChunksPartition(merkleFrom, merkleTo, split);
    SpawnInv(job, chunks, m0);
    while exists k :: 0 <= k < |workers| && Enabled(chunks, workers, k)
      invariant Inv(job, chunks, m0, Phase(merkles[..], workers))
      decreases Remaining(chunks, workers)
    {
      var k: nat :| k < |workers| && Enabled(chunks, workers, k);
      SafeStep(job, chunks, m0, Phase(merkles[..], workers), k);
      var w := Access(hs, nodes, nextPoT, merkles, workers[k]);
      workers := workers[k := w];
    }
    DoneIsFilled(job, chunks, m0, Phase(merkles[..], workers));
  }

  /** `row` is what the cells of a level hold. */
  ghost predicate RowOf<T>(hs: Hasher<T>, nodes: seq<T>, m: seq<T>, nextPoT: nat, from: nat, row: seq<T>) {
    && from + |row| <= nextPoT + |m|
    && forall c :: 0 <= c < |row| ==> row[c] == Cell(hs, nodes, m, nextPoT, from + c)
  }

  /** `done` is a prefix of the array. */
  ghost predicate Holds<T>(m: seq<T>, done: seq<T>) {
    |done| <= |m| && forall c :: 0 <= c < |done| ==> m[c] == done[c]
  }

  /** The job of the level whose cells hold `row`. */
  ghost predicate JobOfRow<T>(job: Job<T>, m0: seq<T>, row: seq<T>) {
    && |m0| + 1 == job.nextPoT && ValidJob(job, |m0|)
    && 0 < |row| <= job.nextPoT && job.start == job.nextPoT - |row| && job.to == 2 * job.start + |row| - 1
    && RowOf(job.hs, job.nodes, m0, job.nextPoT, 2 * job.start, row)
  }

  lemma {:induction false} FilledCellOfRow<T>(job: Job<T>, m0: seq<T>, m: seq<T>, row: seq<T>, d: nat)
    requires JobOfRow(job, m0, row) && IsFilled(job, m0, m) && d < |row| / 2
    ensures job.start + d < |m| && m[job.start + d] == Reduce(job.hs, row)[d]
  {
    ReduceAt(job.hs, row, d);
    var c := job.start + d;
    assert m[c] == FilledCell(job, m0, c);
    assert row[2 * d] == Cell(job.hs, job.nodes, m0, job.nextPoT, 2 * job.start + 2 * d);
    assert row[2 * d + 1] == Cell(job.hs, job.nodes, m0, job.nextPoT, 2 * job.start + (2 * d + 1));
  }

  /** Filling the level of a row appends the next row to what is done, and the next
      level is read where it was written. */
  lemma {:induction false} FilledIsReduced<T>(job: Job<T>, m0: seq<T>, m: seq<T>, done: seq<T>, row: seq<T>)
    requires JobOfRow(job, m0, row) && IsFilled(job, m0, m) && |row| > 1
    requires Holds(m0, done) && |done| == job.start
    ensures Holds(m, done + Reduce(job.hs, row))
    ensures RowOf(job.hs, job.nodes, m, job.nextPoT, job.to + 1, Reduce(job.hs, row))
  {
    var next := Reduce(job.hs, row);
    forall c | 0 <= c < |done| ensures m[c] == done[c] {
      assert m[c] == FilledCell(job, m0, c);
    }
    forall d | 0 <= d < |next| ensures |done| + d < |m| && m[|done| + d] == next[d] {
      FilledCellOfRow(job, m0, m, row, d);
    }
  }

  lemma {:induction false} NextRow<T>(hs: Hasher<T>, store: seq<T>, done: seq<T>, row: seq<T>)
    requires |row| >= 2 && store == done + Rows(hs, row)
    ensures store == (done + Reduce(hs, row)) + Rows(hs, Reduce(hs, row))
  {
    Assoc(done, Reduce(hs, row), Rows(hs, Reduce(hs, row)));
  }

  /** The job of level `h` in a store of the given height. */
  ghost function LevelJob<T>(hs: Hasher<T>, nodes: seq<T>, height: nat, h: nat): Job<T>
    requires h <= height
  {
    Pow2Monotone(height - h, height);
    var start := Pow2(height) - Pow2(height - h);
    Job(hs, nodes, Pow2(height), start, 2 * start + Pow2(height - h) - 1)
  }

  /** Before level `h` is filled: `done` is in the array, and `row` is still to be reduced. */
  ghost predicate Progress<T>(hs: Hasher<T>, nodes: seq<T>, m: seq<T>, height: nat, h: nat,
                              store: seq<T>, done: seq<T>, row: seq<T>)
    requires h <= height
  {
    && JobOfRow(LevelJob(hs, nodes, height, h), m, row)
    && |done| == LevelJob(hs, nodes, height, h).start && Holds(m, done)
    && store == done + Rows(hs, row)
  }

  lemma {:induction false} FirstProgress<T>(
      hs: Hasher<T>, nodes: seq<T>, m: seq<T>, height: nat, store: seq<T>, row: seq<T>)
    requires |nodes| <= Pow2(height) && height > 0 && |m| == Pow2(height) - 1
    requires row == Pad(hs, nodes, Pow2(height)) && store == Rows(hs, row)
    ensures Progress(hs, nodes, m, height, 0, store, [], row)
  {
    assert [] + Rows(hs, row) == Rows(hs, row);
  }

  /** The arithmetic of a job over a row of w cells. */
  lemma {:induction false} NextJob<T>(job: Job<T>, m: seq<T>, w: nat, row: seq<T>)
    requires |m| + 1 == job.nextPoT && job.nextPoT % 2 == 0
    requires |row| == w > 0 && 2 * w <= job.nextPoT
    requires job.start == job.nextPoT - w && job.to == 2 * job.start + w - 1
    requires RowOf(job.hs, job.nodes, m, job.nextPoT, 2 * job.start, row)
    ensures JobOfRow(job, m, row)
  {
  }

  lemma {:induction false} NextLevelJob<T>(hs: Hasher<T>, nodes: seq<T>, m: seq<T>, height: nat, h: nat, next: seq<T>)
    requires h < height && |m| == Pow2(height) - 1 && |next| == Pow2(height - h - 1)
    requires RowOf(hs, nodes, m, Pow2(height), 2 * LevelJob(hs, nodes, height, h + 1).start, next)
    ensures JobOfRow(LevelJob(hs, nodes, height, h + 1), m, next)
  {
    Pow2Monotone(height - h - 1, height);
    NextJob(LevelJob(hs, nodes, height, h + 1), m, Pow2(height - h - 1), next);
  }

  lemma {:induction false} InnerLevelStep<T>(hs: Hasher<T>, nodes: seq<T>, m0: seq<T>, m: seq<T>, height: nat, h: nat,
                                             store: seq<T>, done: seq<T>, row: seq<T>, next: seq<T>)
    requires h < height && Progress(hs, nodes, m0, height, h, store, done, row)
    requires IsFilled(LevelJob(hs, nodes, height, h), m0, m) && next == Reduce(hs, row)
    ensures Progress(hs, nodes, m, height, h + 1, store, done + next, next)
  {
    var job, job' := LevelJob(hs, nodes, height, h), LevelJob(hs, nodes, height, h + 1);
    assert job.to + 1 == 2 * job'.start && |next| == Pow2(height - h - 1);
    assert Holds(m, done + next) && RowOf(hs, nodes, m, Pow2(height), 2 * job'.start, next) by {
      FilledIsReduced(job, m0, m, done, row);
    }
    assert store == (done + next) + Rows(hs, next) by {
      NextRow(hs, store, done, row);
    }
    assert JobOfRow(job', m, next) by {
      NextLevelJob(hs, nodes, m, height, h, next);
    }
  }

  /** The level of the root has no pairs: nothing is left to do. */
  lemma {:induction false} LastRow<T>(job: Job<T>, m0: seq<T>, m: seq<T>, done: seq<T>, row: seq<T>)
    requires JobOfRow(job, m0, row) && IsFilled(job, m0, m) && |row| == 1
    requires Holds(m0, done) && |done| == job.start
    ensures m == done == done + Rows(job.hs, row)
  {
    forall c | 0 <= c < |m| ensures m[c] == done[c] {
      assert m[c] == FilledCell(job, m0, c);
    }
  }

  lemma {:induction false} ProgressStep<T>(hs: Hasher<T>, nodes: seq<T>, m0: seq<T>, m: seq<T>, height: nat, h: nat,
                                           store: seq<T>, done: seq<T>, row: seq<T>)
    requires h <= height && Progress(hs, nodes, m0, height, h, store, done, row)
    requires IsFilled(LevelJob(hs, nodes, height, h), m0, m)
    ensures h < height ==>
      Progress(hs, nodes, m, height, h + 1, store, done + Reduce(hs, row), Reduce(hs, row))
    ensures h == height ==> m == store
  {
    if h < height {
      InnerLevelStep(hs, nodes, m0, m, height, h, store, done, row, Reduce(hs, row));
    } else {
      LastRow(LevelJob(hs, nodes, height, h), m0, m, done, row);
    }
  }

  /** One round of the level loop: narrow levels are filled by the caller itself. */
  method FillLevel<T(==)>(hs: Hasher<T>, nodes: seq<T>, height: nat, ghost h: nat, merkleFrom: nat, merkleTo: nat,
                          merkles: array<T>)
    requires h <= height && ValidJob(LevelJob(hs, nodes, height, h), merkles.Length)
    requires merkleFrom == 2 * LevelJob(hs, nodes, height, h).start
    requires merkleTo == LevelJob(hs, nodes, height, h).to
    modifies merkles
    ensures IsFilled(LevelJob(hs, nodes, height, h), old(merkles[..]), merkles[..])
  {
    var routineSplitSize := 1024;
    var nextPoT := Pow2(height);
    assert Job(hs, nodes, nextPoT, merkleFrom / 2, merkleTo) == LevelJob(hs, nodes, height, h);
    if merkleTo - merkleFrom > routineSplitSize {
      CalcMerklesConcurrently(hs, nodes, merkleFrom, merkleTo, nextPoT, routineSplitSize, merkles);
    } else {
      CalcMerkles(hs, nodes, merkleFrom, merkleTo, nextPoT, merkles);
    }
  }

  /** BuildMerkleTreeStoreFromBytes, on the hashes of the nodes. */
  method BuildMerkleTreeStoreFromBytes<T(==)>(hs: Hasher<T>, nodes: seq<T>) returns (merkles: array<T>)
    ensures fresh(merkles)
    ensures merkles[..] == Store(hs, nodes)
  {
    if |nodes| == 0 {
      merkles := new T[0];
      return;
    }
    var nextPoT := NextPowerOfTwo(|nodes|);
    NextPowerIsCeil(|nodes|);
    if nextPoT * 2 - 1 == 1 {
      merkles := new T[1](_ => nodes[0]);
      return;
    }
    var height := CeilLog2(|nodes|);
    merkles := new T[nextPoT - 1](_ => hs.zero);
    FillAllLevels(hs, nodes, height, merkles);
  }

  method FillAllLevels<T(==)>(hs: Hasher<T>, nodes: seq<T>, height: nat, merkles: array<T>)
    requires |nodes| <= Pow2(height) && height > 0 && merkles.Length == Pow2(height) - 1
    modifies merkles
    ensures merkles[..] == Rows(hs, Pad(hs, nodes, Pow2(height)))
  {
    ghost var row, done: seq<T> := Pad(hs, nodes, Pow2(height)), [];
    ghost var store := Rows(hs, row);
    FirstProgress(hs, nodes, merkles[..], height, store, row);
    var merkleFrom: nat := 0;
    for h := 0 to height + 1
      invariant Filling(hs, nodes, merkles[..], height, h, merkleFrom, store, done, row)
    {
      merkleFrom := FillNext(hs, nodes, height, h, merkleFrom, merkles, store, done, row);
      done, row := done + Reduce(hs, row), Reduce(hs, row);
    }
  }

  /** Before level `h`, or behind the last one. */
  ghost predicate Filling<T>(hs: Hasher<T>, nodes: seq<T>, m: seq<T>, height: nat, h: nat, merkleFrom: nat,
                             store: seq<T>, done: seq<T>, row: seq<T>)
  {
    if h > height then m == store
    else
      && merkleFrom == 2 * LevelJob(hs, nodes, height, h).start
      && Progress(hs, nodes, m, height, h, store, done, row)
  }

  /** One round: the level is filled, and the next one begins behind it. */
  method FillNext<T(==)>(hs: Hasher<T>, nodes: seq<T>, height: nat, h: nat, merkleFrom: nat, merkles: array<T>,
                         ghost store: seq<T>, ghost done: seq<T>, ghost row: seq<T>)
    returns (next: nat)
    requires h <= height && Filling(hs, nodes, merkles[..], height, h, merkleFrom, store, done, row)
    modifies merkles
    ensures Filling(hs, nodes, merkles[..], height, h + 1, next, store, done + Reduce(hs, row), Reduce(hs, row))
  {
    var merkleTo := merkleFrom + Pow2(height - h) - 1;
    ghost var m0 := merkles[..];
    FillLevel(hs, nodes, height, h, merkleFrom, merkleTo, merkles);
    ProgressStep(hs, nodes, m0, merkles[..], height, h, store, done, row);
    next := merkleTo + 1;
  }
}
