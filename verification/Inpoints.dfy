/** Inpoints grouped by parent: the packed layout, the grouping it stands for and its
    wire format, on values.
 */
module Inpoints {
  import opened Sequences
  import opened Bytes

  datatype Inpoint = Inpoint(hash: Hash, index: u32)

  // ----- the packed layout -----

  /** One run per parent: a count word, then that many vouts. */
  function Pack(runs: seq<seq<u32>>): seq<u32> {
    if runs == [] then [] else [|runs[0]| % TWO_32] + runs[0] + Pack(runs[1..])
  }

  /** No count word has wrapped. */
  ghost predicate SmallRuns(runs: seq<seq<u32>>) {
    forall i :: 0 <= i < |runs| ==> |runs[i]| < TWO_32
  }

  lemma {:induction false} PackAppend(a: seq<seq<u32>>, b: seq<seq<u32>>)
    ensures Pack(a + b) == Pack(a) + Pack(b)
  {
    if a == [] {
      assert a + b == b;
    } else {
      assert (a + b)[1..] == a[1..] + b;
      PackAppend(a[1..], b);
      Assoc([|a[0]| % TWO_32] + a[0], Pack(a[1..]), Pack(b));
    }
  }

  lemma {:induction false} PackOne(run: seq<u32>)
    ensures Pack([run]) == [|run| % TWO_32] + run
  {
    assert [run][1..] == [];
    assert Pack([run]) == [|run| % TWO_32] + run + Pack([]);
  }

  lemma {:induction false} PackCons(run: seq<u32>, runs: seq<seq<u32>>)
    requires |run| < TWO_32
    ensures Pack([run] + runs) == [|run|] + (run + Pack(runs))
  {
    assert ([run] + runs)[1..] == runs;
    Assoc([|run|], run, Pack(runs));
  }

  /** Run `i` in the layout: what precedes it, its count, its vouts, what follows. */
  lemma {:induction false} PackAround(runs: seq<seq<u32>>, i: nat)
    requires i < |runs|
    ensures Pack(runs) == Pack(runs[..i]) + ([|runs[i]| % TWO_32] + runs[i] + Pack(runs[i + 1..]))
    ensures Pack(runs[..i + 1]) == Pack(runs[..i]) + ([|runs[i]| % TWO_32] + runs[i])
  {
    PackAppend(runs[..i], runs[i..]);
    assert runs[..i] + runs[i..] == runs;
    assert runs[i..][1..] == runs[i + 1..];
    PackAppend(runs[..i], [runs[i]]);
    PackOne(runs[i]);
    assert runs[..i] + [runs[i]] == runs[..i + 1];
  }

  /** The walk over the count words finds run `i`. */
  lemma {:induction false} PackAt(runs: seq<seq<u32>>, i: nat)
    requires i < |runs| && SmallRuns(runs)
    ensures var pos, words := |Pack(runs[..i])|, Pack(runs);
      && pos + 1 + |runs[i]| <= |words| && words[pos] == |runs[i]|
      && words[pos + 1..pos + 1 + |runs[i]|] == runs[i]
      && |Pack(runs[..i + 1])| == pos + 1 + |runs[i]|
  {
    PackAround(runs, i);
  }

  /** Where a run is too long, its count word is not its length. */
  lemma {:induction false} CountWordIff(runs: seq<seq<u32>>, i: nat)
    requires i < |runs|
    ensures |Pack(runs[..i])| < |Pack(runs)|
    ensures Pack(runs)[|Pack(runs[..i])|] == |runs[i]| <==> |runs[i]| < TWO_32
  {
    PackAround(runs, i);
  }

  function TotalVouts(runs: seq<seq<u32>>): nat {
    if runs == [] then 0 else |runs[0]| + TotalVouts(runs[1..])
  }

  lemma {:induction false} PackLength(runs: seq<seq<u32>>)
    ensures |Pack(runs)| == |runs| + TotalVouts(runs)
  {
    if runs != [] {
      PackLength(runs[1..]);
    }
  }

  /** Inserting a vout behind run `i` and bumping its count is the packing of the longer
      run: all other runs are where they were, or one further. */
  lemma {:induction false} PackInsert(runs: seq<seq<u32>>, i: nat, vout: u32)
    requires i < |runs| && |runs[i]| < TWO_32
    ensures var pos, words := |Pack(runs[..i])|, Pack(runs);
      var at := pos + 1 + |runs[i]|;
      && at <= |words|
      && Pack(runs[i := runs[i] + [vout]]) == (words[..at] + [vout] + words[at..])[pos := (|runs[i]| + 1) % TWO_32]
  {
    var longer := runs[i := runs[i] + [vout]];
    assert longer[..i] == runs[..i] && longer[i + 1..] == runs[i + 1..];
    PackInside(runs, i, runs[i], Pack(runs[..i]), Pack(runs[i + 1..]));
    PackInside(longer, i, runs[i] + [vout], Pack(runs[..i]), Pack(runs[i + 1..]));
    Bump(Pack(runs[..i]), |runs[i]|, (|runs[i]| + 1) % TWO_32, runs[i], Pack(runs[i + 1..]), vout);
  }

  lemma {:induction false} PackInside(runs: seq<seq<u32>>, i: nat, run: seq<u32>, before: seq<u32>, after: seq<u32>)
    requires i < |runs| && run == runs[i]
    requires before == Pack(runs[..i]) && after == Pack(runs[i + 1..])
    ensures Pack(runs) == before + ([|run| % TWO_32] + run + after)
  {
    PackAround(runs, i);
  }

  lemma {:induction false} Bump(before: seq<u32>, count: u32, more: u32, run: seq<u32>, after: seq<u32>, vout: u32)
    ensures var words := before + ([count] + run + after);
      var at := |before| + 1 + |run|;
      && at <= |words|
      && before + ([more] + (run + [vout]) + after)
         == (words[..at] + [vout] + words[at..])[|before| := more]
  {
    var words := before + ([count] + run + after);
    assert words[..|before| + 1 + |run|] == before + ([count] + run);
    assert words[|before| + 1 + |run|..] == after;
  }

  // ----- grouping -----

  /** slices.Index */
  function IndexOf(parents: seq<Hash>, h: Hash): (i: int)
    ensures -1 <= i < |parents|
    ensures i >= 0 ==> parents[i] == h && h !in parents[..i]
    ensures i < 0 <==> h !in parents
  {
    if parents == [] then -1
    else if parents[0] == h then 0
    else
      var r := IndexOf(parents[1..], h);
      assert r >= 0 ==> parents[..r + 1] == [parents[0]] + parents[1..][..r];
      if r < 0 then -1 else r + 1
  }

  /** Recording one input: a new parent with one vout, or one more vout of a known one. */
  function AddInput(parents: seq<Hash>, runs: seq<seq<u32>>, x: Inpoint): (seq<Hash>, seq<seq<u32>>)
    requires |parents| == |runs|
  {
    var i := IndexOf(parents, x.hash);
    if i < 0 then (parents + [x.hash], runs + [[x.index]])
    else (parents, runs[i := runs[i] + [x.index]])
  }

  /** The parents of the inputs in order of first appearance. */
  function FirstSeen(inputs: seq<Inpoint>): seq<Hash> {
    if inputs == [] then []
    else
      var p, h := FirstSeen(inputs[..|inputs| - 1]), inputs[|inputs| - 1].hash;
      if h in p then p else p + [h]
  }

  /** The vouts spent at one parent, in input order. */
  function VoutsOf(inputs: seq<Inpoint>, h: Hash): seq<u32> {
    if inputs == [] then []
    else
      var v, x := VoutsOf(inputs[..|inputs| - 1], h), inputs[|inputs| - 1];
      if x.hash == h then v + [x.index] else v
  }

  /** The vouts of each of the parents. */
  function RunsOf(inputs: seq<Inpoint>, parents: seq<Hash>): (r: seq<seq<u32>>)
    ensures |r| == |parents|
    ensures forall i :: 0 <= i < |r| ==> r[i] == VoutsOf(inputs, parents[i])
  {
    if parents == [] then [] else [VoutsOf(inputs, parents[0])] + RunsOf(inputs, parents[1..])
  }

  /** No parent is spent from 2^32 times. */
  ghost predicate FewVouts(inputs: seq<Inpoint>) {
    forall h :: |VoutsOf(inputs, h)| < TWO_32
  }

  /** The runs that belong to the parents. */
  ghost predicate Groups(inputs: seq<Inpoint>, parents: seq<Hash>, runs: seq<seq<u32>>) {
    && parents == FirstSeen(inputs) && |runs| == |parents|
    && forall i :: 0 <= i < |parents| ==> runs[i] == VoutsOf(inputs, parents[i])
  }

  /** FirstSeen lists every parent once, and nothing else. */
  lemma {:induction false} FirstSeenDistinct(inputs: seq<Inpoint>)
    ensures Distinct(FirstSeen(inputs))
    ensures forall h: Hash :: h in FirstSeen(inputs) <==> exists i :: 0 <= i < |inputs| && inputs[i].hash == h
  {
    if inputs != [] {
      var n := |inputs| - 1;
      FirstSeenDistinct(inputs[..n]);
      forall h: Hash
        ensures h in FirstSeen(inputs) <==> exists i :: 0 <= i < |inputs| && inputs[i].hash == h
      {
        if i :| 0 <= i < |inputs| && inputs[i].hash == h {
          assert i < n ==> inputs[..n][i].hash == h;
        }
        if h in FirstSeen(inputs[..n]) {
          var i :| 0 <= i < n && inputs[..n][i].hash == h;
          assert inputs[i].hash == h;
        }
        assert inputs[n].hash in FirstSeen(inputs);
      }
    }
  }

  lemma {:induction false} NoVoutsOfStrangers(inputs: seq<Inpoint>, h: Hash)
    requires h !in FirstSeen(inputs)
    ensures VoutsOf(inputs, h) == []
  {
    if inputs != [] {
      NoVoutsOfStrangers(inputs[..|inputs| - 1], h);
    }
  }

  function CountOf(inputs: seq<Inpoint>, h: Hash): nat {
    if inputs == [] then 0 else (if inputs[0].hash == h then 1 else 0) + CountOf(inputs[1..], h)
  }

  lemma {:induction false} CountOfLast(inputs: seq<Inpoint>, x: Inpoint, h: Hash)
    ensures CountOf(inputs + [x], h) == CountOf(inputs, h) + if x.hash == h then 1 else 0
  {
    if inputs != [] {
      assert (inputs + [x])[1..] == inputs[1..] + [x];
      CountOfLast(inputs[1..], x, h);
    }
  }

  /** The vout of an input stands behind those of the earlier inputs with its parent. */
  lemma {:induction false} VoutsInInputOrder(inputs: seq<Inpoint>, i: nat, h: Hash)
    ensures |VoutsOf(inputs, h)| == CountOf(inputs, h)
    ensures i < |inputs| && inputs[i].hash == h ==>
      && CountOf(inputs[..i], h) < |VoutsOf(inputs, h)|
      && VoutsOf(inputs, h)[CountOf(inputs[..i], h)] == inputs[i].index
    decreases |inputs|
  {
    if inputs != [] {
      var n := |inputs| - 1;
      VoutsInInputOrder(inputs[..n], i, h);
      CountOfLast(inputs[..n], inputs[n], h);
      assert inputs[..n] + [inputs[n]] == inputs;
      if i < n {
        assert inputs[..n][..i] == inputs[..i];
      }
    }
  }

  /** The position of the first input with the hash. */
  ghost predicate FirstAt(inputs: seq<Inpoint>, h: Hash, i: nat) {
    && i < |inputs| && inputs[i].hash == h
    && forall j :: 0 <= j < i ==> inputs[j].hash != h
  }

  lemma {:induction false} Seen(inputs: seq<Inpoint>, i: nat)
    requires i < |inputs|
    ensures inputs[i].hash in FirstSeen(inputs)
  {
    FirstSeenDistinct(inputs);
  }

  /** A parent seen within the first `n` inputs first appears there. */
  lemma {:induction false} AppearsBefore(inputs: seq<Inpoint>, n: nat, h: Hash, i: nat)
    requires n <= |inputs| && h in FirstSeen(inputs[..n]) && FirstAt(inputs, h, i)
    ensures i < n && FirstAt(inputs[..n], h, i)
  {
    FirstSeenDistinct(inputs[..n]);
    var j :| 0 <= j < n && inputs[..n][j].hash == h;
    assert inputs[j].hash == h;
  }

  /** Earlier parents have appeared earlier. */
  lemma {:induction false} FirstSeenOrder(inputs: seq<Inpoint>, a: nat, b: nat, i: nat, j: nat)
    requires a < b < |FirstSeen(inputs)|
    requires FirstAt(inputs, FirstSeen(inputs)[a], i) && FirstAt(inputs, FirstSeen(inputs)[b], j)
    ensures i < j
  {
    var n := |inputs| - 1;
    var p := FirstSeen(inputs[..n]);
    AppearsBefore(inputs, n, p[a], i);
    if b < |p| {
      AppearsBefore(inputs, n, p[b], j);
      FirstSeenOrder(inputs[..n], a, b, i, j);
    } else if j < n {
      Seen(inputs[..n], j);
    }
  }

  /** One more input keeps the grouping. */
  lemma {:induction false} AddKeepsGroups(inputs: seq<Inpoint>, parents: seq<Hash>, runs: seq<seq<u32>>, x: Inpoint)
    requires Groups(inputs, parents, runs)
    ensures Groups(inputs + [x], AddInput(parents, runs, x).0, AddInput(parents, runs, x).1)
  {
    var more := inputs + [x];
    assert more[..|more| - 1] == inputs && more[|more| - 1] == x;
    FirstSeenDistinct(inputs);
    var (parents', runs') := AddInput(parents, runs, x);
    if x.hash !in parents {
      NoVoutsOfStrangers(inputs, x.hash);
    }
    forall i | 0 <= i < |parents'| ensures runs'[i] == VoutsOf(more, parents'[i]) {
      assert i < |parents| ==> parents'[i] == parents[i] && runs[i] == VoutsOf(inputs, parents[i]);
    }
  }

  // ----- the flat list -----

  function WithParent(h: Hash, run: seq<u32>): (r: seq<Inpoint>)
    ensures |r| == |run|
  {
    if run == [] then [] else [Inpoint(h, run[0])] + WithParent(h, run[1..])
  }

  /** Parent by parent, vout by vout. */
  function Flatten(parents: seq<Hash>, runs: seq<seq<u32>>): seq<Inpoint>
    requires |parents| == |runs|
  {
    if parents == [] then [] else WithParent(parents[0], runs[0]) + Flatten(parents[1..], runs[1..])
  }

  /** Vout `k` of parent `i` is listed behind all vouts of the parents before. */
  lemma {:induction false} FlattenAt(parents: seq<Hash>, runs: seq<seq<u32>>, i: nat, k: nat)
    requires |parents| == |runs| && i < |runs| && k < |runs[i]|
    ensures var at := TotalVouts(runs[..i]) + k;
      at < |Flatten(parents, runs)| && Flatten(parents, runs)[at] == Inpoint(parents[i], runs[i][k])
  {
    if i == 0 {
      WithParentAt(parents[0], runs[0], k);
    } else {
      FlattenAt(parents[1..], runs[1..], i - 1, k);
      assert runs[..i][1..] == runs[1..][..i - 1];
    }
  }

  lemma {:induction false} WithParentAt(h: Hash, run: seq<u32>, k: nat)
    requires k < |run|
    ensures WithParent(h, run)[k] == Inpoint(h, run[k])
  {
    if k > 0 {
      WithParentAt(h, run[1..], k - 1);
    }
  }

  lemma {:induction false} WithParentAppend(h: Hash, run: seq<u32>, vout: u32)
    ensures WithParent(h, run + [vout]) == WithParent(h, run) + [Inpoint(h, vout)]
  {
    if run == [] {
      assert run + [vout] == [vout];
      assert WithParent(h, [vout]) == [Inpoint(h, vout)] + WithParent(h, []);
    } else {
      assert (run + [vout])[1..] == run[1..] + [vout];
      WithParentAppend(h, run[1..], vout);
    }
  }

  lemma {:induction false} FlattenAppend(parents: seq<Hash>, runs: seq<seq<u32>>, h: Hash, run: seq<u32>)
    requires |parents| == |runs|
    ensures Flatten(parents + [h], runs + [run]) == Flatten(parents, runs) + WithParent(h, run)
  {
    if parents == [] {
      assert parents + [h] == [h] && runs + [run] == [run];
      assert Flatten([h], [run]) == WithParent(h, run) + Flatten([], []);
    } else {
      assert (parents + [h])[1..] == parents[1..] + [h] && (runs + [run])[1..] == runs[1..] + [run];
      FlattenAppend(parents[1..], runs[1..], h, run);
    }
  }

  lemma {:induction false} FlattenLonger(parents: seq<Hash>, runs: seq<seq<u32>>, i: nat, vout: u32)
    requires |parents| == |runs| && i < |runs|
    ensures multiset(Flatten(parents, runs[i := runs[i] + [vout]]))
         == multiset(Flatten(parents, runs)) + multiset{Inpoint(parents[i], vout)}
  {
    var longer := runs[i := runs[i] + [vout]];
    if i == 0 {
      assert longer[1..] == runs[1..];
      WithParentAppend(parents[0], runs[0], vout);
    } else {
      assert longer[1..] == runs[1..][i - 1 := runs[i] + [vout]];
      FlattenLonger(parents[1..], runs[1..], i - 1, vout);
    }
  }

  lemma {:induction false} AddInputCounts(parents: seq<Hash>, runs: seq<seq<u32>>, x: Inpoint)
    requires |parents| == |runs|
    ensures var (p, r) := AddInput(parents, runs, x);
      multiset(Flatten(p, r)) == multiset(Flatten(parents, runs)) + multiset{x}
  {
    var i := IndexOf(parents, x.hash);
    if i < 0 {
      FlattenAppend(parents, runs, x.hash, [x.index]);
      WithParentAppend(x.hash, [], x.index);
      assert [] + [x.index] == [x.index];
    } else {
      FlattenLonger(parents, runs, i, x.index);
    }
  }

  /** Grouping neither loses nor invents an input. */
  lemma {:induction false} GroupsKeepInputs(inputs: seq<Inpoint>, parents: seq<Hash>, runs: seq<seq<u32>>)
    requires Groups(inputs, parents, runs)
    ensures multiset(Flatten(parents, runs)) == multiset(inputs)
    ensures NonEmptyRuns(runs) && TotalVouts(runs) == |inputs|
  {
    if inputs == [] {
      assert parents == [] && runs == [];
    } else {
      var n := |inputs| - 1;
      var p := FirstSeen(inputs[..n]);
      var r := RunsOf(inputs[..n], p);
      GroupsKeepInputs(inputs[..n], p, r);
      assert inputs[..n] + [inputs[n]] == inputs;
      AddKeepsGroups(inputs[..n], p, r, inputs[n]);
      AddInputCounts(p, r, inputs[n]);
      assert AddInput(p, r, inputs[n]).1 == runs;
      AddInputTotals(p, r, inputs[n]);
      AddInputNonEmpty(p, r, inputs[n]);
    }
  }

  lemma {:induction false} TotalOfLonger(runs: seq<seq<u32>>, i: nat, vout: u32)
    requires i < |runs|
    ensures TotalVouts(runs[i := runs[i] + [vout]]) == TotalVouts(runs) + 1
  {
    var longer := runs[i := runs[i] + [vout]];
    if i == 0 {
      assert longer[1..] == runs[1..];
    } else {
      assert longer[1..] == runs[1..][i - 1 := runs[i] + [vout]];
      TotalOfLonger(runs[1..], i - 1, vout);
    }
  }

  lemma {:induction false} TotalOfMore(runs: seq<seq<u32>>, run: seq<u32>)
    ensures TotalVouts(runs + [run]) == TotalVouts(runs) + |run|
  {
    if runs == [] {
      assert runs + [run] == [run];
      assert TotalVouts([run]) == |run| + TotalVouts([]);
    } else {
      assert (runs + [run])[1..] == runs[1..] + [run];
      TotalOfMore(runs[1..], run);
    }
  }

  lemma {:induction false} AddInputTotals(parents: seq<Hash>, runs: seq<seq<u32>>, x: Inpoint)
    requires |parents| == |runs|
    ensures TotalVouts(AddInput(parents, runs, x).1) == TotalVouts(runs) + 1
  {
    var i := IndexOf(parents, x.hash);
    if i < 0 {
      TotalOfMore(runs, [x.index]);
    } else {
      TotalOfLonger(runs, i, x.index);
    }
  }

  ghost predicate NonEmptyRuns(runs: seq<seq<u32>>) {
    forall i :: 0 <= i < |runs| ==> |runs[i]| >= 1
  }

  lemma {:induction false} AddInputNonEmpty(parents: seq<Hash>, runs: seq<seq<u32>>, x: Inpoint)
    requires |parents| == |runs| && NonEmptyRuns(runs)
    ensures NonEmptyRuns(AddInput(parents, runs, x).1)
  {
  }
}
