/** What the methods of TxInpoints make of any words, packed or not, and that they keep
    and use the packed layout.
 */
module Packing {
  import opened Sequences
  import opened Results
  import opened Bytes
  import opened Inpoints

  // ----- walking any words, packed or not -----

  datatype Parsed = Parsed(runs: seq<seq<u32>>, rest: seq<u32>)

  /** The first `n` runs of the words, None where a run is cut off. */
  function Parse(words: seq<u32>, n: nat): (r: Option<Parsed>)
    ensures r.Some? ==> |r.value.runs| == n && |r.value.rest| <= |words|
    decreases n
  {
    if n == 0 then Some(Parsed([], words))
    else if |words| == 0 || |words| - 1 < words[0] then None
    else
      match Parse(words[1 + words[0]..], n - 1)
      case None => None
      case Some(p) => Some(Parsed([words[1..1 + words[0]]] + p.runs, p.rest))
  }

  lemma {:induction false} ParseStep(count: u32, run: seq<u32>, tail: seq<u32>, n: nat, p: Parsed)
    requires count == |run| && Parse(tail, n) == Some(p)
    ensures Parse([count] + (run + tail), n + 1) == Some(Parsed([run] + p.runs, p.rest))
  {
    var words := [count] + (run + tail);
    assert words[1..1 + count] == run && words[1 + count..] == tail;
  }

  lemma {:induction false} PackThen(run: seq<u32>, runs: seq<seq<u32>>, rest: seq<u32>)
    requires |run| < TWO_32
    ensures Pack([run] + runs) + rest == [|run|] + (run + (Pack(runs) + rest))
  {
    PackCons(run, runs);
    Assoc(run, Pack(runs), rest);
    Assoc([|run|], run + Pack(runs), rest);
  }

  lemma {:induction false} ParsePack(runs: seq<seq<u32>>, rest: seq<u32>)
    requires SmallRuns(runs)
    ensures Parse(Pack(runs) + rest, |runs|) == Some(Parsed(runs, rest))
  {
    if runs == [] {
      assert Pack(runs) + rest == rest;
    } else {
      var run, more := runs[0], runs[1..];
      assert [run] + more == runs;
      ParsePack(more, rest);
      PackThen(run, more, rest);
      ParseStep(|run|, run, Pack(more) + rest, |more|, Parsed(more, rest));
    }
  }

  lemma {:induction false} SmallRunsCons(run: seq<u32>, runs: seq<seq<u32>>)
    requires |run| < TWO_32 && SmallRuns(runs)
    ensures SmallRuns([run] + runs)
  {
  }

  lemma {:induction false} CutRun(words: seq<u32>, run: seq<u32>, tail: seq<u32>)
    requires |words| > 0 && |words| - 1 >= words[0]
    requires run == words[1..1 + words[0]] && tail == words[1 + words[0]..]
    ensures words == [words[0]] + (run + tail)
  {
  }

  /** Words that can be walked are the packing of the runs found, and what follows. */
  lemma {:induction false} ParseCanonical(words: seq<u32>, n: nat)
    requires Parse(words, n).Some?
    ensures SmallRuns(Parse(words, n).value.runs)
    ensures words == Pack(Parse(words, n).value.runs) + Parse(words, n).value.rest
    decreases n
  {
    if n > 0 {
      var run, tail := words[1..1 + words[0]], words[1 + words[0]..];
      ParseCanonical(tail, n - 1);
      var p := Parse(tail, n - 1).value;
      assert Parse(words, n).value.runs == [run] + p.runs;
      CutRun(words, run, tail);
      PackThen(run, p.runs, p.rest);
      SmallRunsCons(run, p.runs);
    }
  }

  /** Where the walk stands after `n` more count words, None where it leaves the words. */
  function RunStart(words: seq<u32>, pos: nat, n: nat): Option<nat>
    decreases n
  {
    if pos > |words| then None
    else if n == 0 then Some(pos)
    else if pos == |words| then None
    else RunStart(words, pos + 1 + words[pos], n - 1)
  }

  lemma {:induction false} RunStartParses(words: seq<u32>, pos: nat, n: nat)
    requires pos <= |words|
    ensures RunStart(words, pos, n)
         == match Parse(words[pos..], n) case None => None case Some(p) => Some(|words| - |p.rest|)
    decreases n
  {
    if n > 0 && pos < |words| {
      var next := pos + 1 + words[pos];
      if next <= |words| {
        RunStartParses(words, next, n - 1);
        assert words[pos..][1 + words[pos]..] == words[next..];
      }
    }
  }

  /** The walk over a packing finds the start of every run. */
  lemma {:induction false} RunStartInPack(runs: seq<seq<u32>>, rest: seq<u32>, i: nat)
    requires SmallRuns(runs) && i <= |runs|
    ensures RunStart(Pack(runs) + rest, 0, i) == Some(|Pack(runs[..i])|)
  {
    var tail := Pack(runs[i..]) + rest;
    assert runs[..i] + runs[i..] == runs;
    PackAppend(runs[..i], runs[i..]);
    Assoc(Pack(runs[..i]), Pack(runs[i..]), rest);
    ParsePack(runs[..i], tail);
    RunStartParses(Pack(runs) + rest, 0, i);
    assert (Pack(runs) + rest)[0..] == Pack(runs) + rest;
  }

  /** One more run is skipped after `n` of them. */
  lemma {:induction false} RunStartSplits(words: seq<u32>, pos: nat, n: nat)
    ensures RunStart(words, pos, n + 1)
         == match RunStart(words, pos, n)
            case None => None
            case Some(at) => RunStart(words, at, 1)
    decreases n
  {
    if n > 0 && pos < |words| {
      RunStartSplits(words, pos + 1 + words[pos], n - 1);
    }
  }

  /** Run `i` is there if the count word in front of it is, and its vouts are. */
  lemma {:induction false} ParseByStart(words: seq<u32>, i: nat)
    ensures Parse(words, i + 1).Some? <==>
      match RunStart(words, 0, i)
      case None => false
      case Some(pos) => pos < |words| && pos + 1 + words[pos] <= |words|
  {
    RunStartParses(words, 0, i + 1);
    RunStartSplits(words, 0, i);
    assert words[0..] == words;
  }

  lemma {:induction false} ParseLength(words: seq<u32>, n: nat)
    ensures Parse(words, n).Some? ==>
      |words| == n + TotalVouts(Parse(words, n).value.runs) + |Parse(words, n).value.rest|
  {
    if Parse(words, n).Some? {
      ParseCanonical(words, n);
      PackLength(Parse(words, n).value.runs);
    }
  }

  /** Run `i`, by the count word in front of it. */
  lemma {:induction false} LastRun(words: seq<u32>, i: nat, pos: nat)
    requires Parse(words, i + 1).Some? && RunStart(words, 0, i) == Some(pos) && pos < |words|
    ensures var runs := Parse(words, i + 1).value.runs;
      && pos == |Pack(runs[..i])| && words[pos] == |runs[i]|
      && pos + 1 + words[pos] == |Pack(runs)| <= |words|
      && words[pos + 1..pos + 1 + words[pos]] == runs[i]
  {
    var p := Parse(words, i + 1).value;
    ParseCanonical(words, i + 1);
    RunStartInPack(p.runs, p.rest, i);
    PackAt(p.runs, i);
    assert p.runs[..i + 1] == p.runs;
    assert words[pos] == Pack(p.runs)[pos];
    assert words[pos + 1..pos + 1 + words[pos]] == Pack(p.runs)[pos + 1..pos + 1 + words[pos]];
  }

  /** Inserting behind run `i` and bumping its count makes that run longer. */
  lemma {:induction false} LongerParsed(words: seq<u32>, i: nat, vout: u32, pos: nat, at: nat)
    requires Parse(words, i + 1).Some? && RunStart(words, 0, i) == Some(pos) && pos < |words|
    requires at == pos + 1 + words[pos]
    ensures at <= |words|
    ensures var p := Parse(words, i + 1).value;
      (words[..at] + [vout] + words[at..])[pos := (words[pos] + 1) % TWO_32]
      == Pack(p.runs[i := p.runs[i] + [vout]]) + p.rest
  {
    var p := Parse(words, i + 1).value;
    ParseCanonical(words, i + 1);
    LastRun(words, i, pos);
    LongerLast(p.runs, p.rest, i, vout, pos);
  }

  lemma {:induction false} LongerLast(runs: seq<seq<u32>>, rest: seq<u32>, i: nat, vout: u32, pos: nat)
    requires |runs| == i + 1 && SmallRuns(runs) && pos == |Pack(runs[..i])| < |Pack(runs)|
    requires pos + 1 + |runs[i]| == |Pack(runs)|
    ensures var words, at := Pack(runs) + rest, |Pack(runs)|;
      (words[..at] + [vout] + words[at..])[pos := (|runs[i]| + 1) % TWO_32]
      == Pack(runs[i := runs[i] + [vout]]) + rest
  {
    PackInsert(runs, i, vout);
    InsertBefore(Pack(runs), rest, vout, pos, (|runs[i]| + 1) % TWO_32);
  }

  lemma {:induction false} InsertBefore(packed: seq<u32>, rest: seq<u32>, vout: u32, pos: nat, count: u32)
    requires pos < |packed|
    ensures var words, at := packed + rest, |packed|;
      (words[..at] + [vout] + words[at..])[pos := count]
      == (packed[..at] + [vout] + packed[at..])[pos := count] + rest
  {
  }

  // ----- appendInput and newSizedFromInputs -----

  datatype Layout = Layout(parents: seq<Hash>, words: seq<u32>)

  /** What appendInput makes of any words: the first runs, up to that of the parent, are
      one vout longer, and what follows them is kept. None is a panic. */
  function AddPacked(l: Layout, x: Inpoint): Option<Layout> {
    var i := IndexOf(l.parents, x.hash);
    if i < 0 then Some(Layout(l.parents + [x.hash], l.words + [1] + [x.index]))
    else
      match Parse(l.words, i + 1)
      case None => None
      case Some(p) => Some(Layout(l.parents, Pack(p.runs[i := p.runs[i] + [x.index]]) + p.rest))
  }

  /** By positions: a vout is inserted behind run `i`, and its count word bumped. */
  function InsertVout(words: seq<u32>, i: nat, vout: u32): Option<seq<u32>> {
    match RunStart(words, 0, i)
    case None => None
    case Some(pos) =>
      if pos >= |words| || pos + 1 + words[pos] > |words| then None
      else
        var at := pos + 1 + words[pos];
        Some((words[..at] + [vout] + words[at..])[pos := (words[pos] + 1) % TWO_32])
  }

  lemma {:induction false} AddPackedInserts(l: Layout, x: Inpoint)
    requires IndexOf(l.parents, x.hash) >= 0
    ensures AddPacked(l, x)
         == match InsertVout(l.words, IndexOf(l.parents, x.hash), x.index)
            case None => None
            case Some(words) => Some(Layout(l.parents, words))
  {
    var i := IndexOf(l.parents, x.hash);
    ParseByStart(l.words, i);
    if Parse(l.words, i + 1).Some? {
      InsertedIsLonger(l.words, i, x.index);
    }
  }

  lemma {:induction false} InsertedIsLonger(words: seq<u32>, i: nat, vout: u32)
    requires Parse(words, i + 1).Some?
    ensures var p := Parse(words, i + 1).value;
      InsertVout(words, i, vout) == Some(Pack(p.runs[i := p.runs[i] + [vout]]) + p.rest)
  {
    ParseByStart(words, i);
    var pos := RunStart(words, 0, i).value;
    LongerParsed(words, i, vout, pos, pos + 1 + words[pos]);
  }

  lemma {:induction false} AddPackedLength(l: Layout, x: Inpoint)
    requires AddPacked(l, x).Some?
    ensures var l' := AddPacked(l, x).value;
      |l'.words| - |l'.parents| == |l.words| - |l.parents| + 1
  {
    var i := IndexOf(l.parents, x.hash);
    if i >= 0 {
      var p := Parse(l.words, i + 1).value;
      ParseCanonical(l.words, i + 1);
      PackLength(p.runs);
      PackLength(p.runs[i := p.runs[i] + [x.index]]);
      TotalOfLonger(p.runs, i, x.index);
    }
  }

  /** On a packing it is the grouping with the input added; it stays well-formed unless
      the run of the parent already holds 2^32 - 1 vouts. */
  lemma {:induction false} AddPackedIsAddInput(parents: seq<Hash>, runs: seq<seq<u32>>, x: Inpoint)
    requires |parents| == |runs| && SmallRuns(runs)
    ensures var (p, r) := AddInput(parents, runs, x);
      AddPacked(Layout(parents, Pack(runs)), x) == Some(Layout(p, Pack(r)))
    ensures var i := IndexOf(parents, x.hash);
      SmallRuns(AddInput(parents, runs, x).1) <==> i < 0 || |runs[i]| + 1 < TWO_32
  {
    var i := IndexOf(parents, x.hash);
    if i < 0 {
      PackAppend(runs, [[x.index]]);
      PackOne([x.index]);
      Assoc(Pack(runs), [1], [x.index]);
    } else {
      LongerInside(runs, i, x.index);
      SmallRunsLonger(runs, i, x.index);
    }
  }

  lemma {:induction false} LongerInside(runs: seq<seq<u32>>, i: nat, vout: u32)
    requires i < |runs| && SmallRuns(runs)
    ensures Parse(Pack(runs), i + 1) == Some(Parsed(runs[..i + 1], Pack(runs[i + 1..])))
    ensures Pack(runs[i := runs[i] + [vout]])
         == Pack(runs[..i + 1][i := runs[i] + [vout]]) + Pack(runs[i + 1..])
  {
    var first, last := runs[..i + 1], runs[i + 1..];
    assert runs == first + last;
    assert runs[i := runs[i] + [vout]] == first[i := runs[i] + [vout]] + last;
    PackAppend(first, last);
    PackAppend(first[i := runs[i] + [vout]], last);
    ParsePack(first, Pack(last));
  }

  lemma {:induction false} SmallRunsLonger(runs: seq<seq<u32>>, i: nat, vout: u32)
    requires SmallRuns(runs) && i < |runs|
    ensures SmallRuns(runs[i := runs[i] + [vout]]) <==> |runs[i]| + 1 < TWO_32
  {
    var longer := runs[i := runs[i] + [vout]];
    assert |longer[i]| == |runs[i]| + 1;
  }

  /** What newSizedFromInputs makes of the inputs. */
  function PackInputs(inputs: seq<Inpoint>): Option<Layout> {
    if inputs == [] then Some(Layout([], []))
    else
      match PackInputs(inputs[..|inputs| - 1])
      case None => None
      case Some(l) => AddPacked(l, inputs[|inputs| - 1])
  }

  lemma {:induction false} PackInputsStep(inputs: seq<Inpoint>, i: nat)
    requires i < |inputs|
    ensures PackInputs(inputs[..i + 1])
         == match PackInputs(inputs[..i]) case None => None case Some(l) => AddPacked(l, inputs[i])
  {
    assert inputs[..i + 1][..i] == inputs[..i];
  }

  lemma {:induction false} PackInputsPrefix(inputs: seq<Inpoint>, i: nat)
    requires i <= |inputs| && PackInputs(inputs[..i]).None?
    ensures PackInputs(inputs).None?
    decreases |inputs| - i
  {
    if i < |inputs| {
      PackInputsStep(inputs, i);
      PackInputsPrefix(inputs, i + 1);
    } else {
      assert inputs[..i] == inputs;
    }
  }

  lemma {:induction false} VoutsOfPrefix(inputs: seq<Inpoint>, i: nat, h: Hash)
    requires i < |inputs|
    ensures |VoutsOf(inputs[..i], h)| + (if inputs[i].hash == h then 1 else 0) <= |VoutsOf(inputs, h)|
    decreases |inputs|
  {
    var n := |inputs| - 1;
    if i < n {
      VoutsOfPrefix(inputs[..n], i, h);
      assert inputs[..n][..i] == inputs[..i];
    }
  }

  lemma {:induction false} FewVoutsPrefix(inputs: seq<Inpoint>, n: nat)
    requires FewVouts(inputs) && n < |inputs|
    ensures FewVouts(inputs[..n])
  {
    forall h ensures |VoutsOf(inputs[..n], h)| < TWO_32 {
      VoutsOfPrefix(inputs, n, h);
      assert |VoutsOf(inputs, h)| < TWO_32;
    }
  }

  lemma {:induction false} GroupsAreRunsOf(inputs: seq<Inpoint>, parents: seq<Hash>, runs: seq<seq<u32>>)
    ensures Groups(inputs, parents, runs) <==> parents == FirstSeen(inputs) && runs == RunsOf(inputs, parents)
  {
  }

  /** For every input list in which no parent is spent from 2^32 times, the result is the
      packing of its grouping. */
  lemma {:induction false} PackInputsGroups(inputs: seq<Inpoint>, parents: seq<Hash>, runs: seq<seq<u32>>)
    requires FewVouts(inputs) && Groups(inputs, parents, runs)
    ensures SmallRuns(runs) && PackInputs(inputs) == Some(Layout(parents, Pack(runs)))
    decreases |inputs|
  {
    if inputs == [] {
      assert parents == [] && runs == [];
    } else {
      var n := |inputs| - 1;
      var p := FirstSeen(inputs[..n]);
      var r := RunsOf(inputs[..n], p);
      FewVoutsPrefix(inputs, n);
      PackInputsGroups(inputs[..n], p, r);
      AddPackedIsAddInput(p, r, inputs[n]);
      assert inputs[..n] + [inputs[n]] == inputs;
      AddKeepsGroups(inputs[..n], p, r, inputs[n]);
      GroupsAreRunsOf(inputs, parents, runs);
      GroupsAreRunsOf(inputs, AddInput(p, r, inputs[n]).0, AddInput(p, r, inputs[n]).1);
    }
  }

  /** And in no other: beyond that bound a count word is not the length of its run. */
  lemma {:induction false} PackedIffFewVouts(inputs: seq<Inpoint>)
    ensures SmallRuns(RunsOf(inputs, FirstSeen(inputs))) <==> FewVouts(inputs)
  {
    var parents := FirstSeen(inputs);
    var runs := RunsOf(inputs, parents);
    if SmallRuns(runs) {
      forall h ensures |VoutsOf(inputs, h)| < TWO_32 {
        if h in parents {
          var i :| 0 <= i < |parents| && parents[i] == h;
          assert |runs[i]| < TWO_32;
        } else {
          NoVoutsOfStrangers(inputs, h);
        }
      }
    }
  }

  // ----- GetTxInpoints -----

  /** The list from parent `i` and word `pos` on, behind what is listed already. */
  function ListFrom(parents: seq<Hash>, words: seq<u32>, i: nat, pos: nat, done: seq<Inpoint>): Option<seq<Inpoint>>
    requires i <= |parents|
    decreases |parents| - i
  {
    if i == |parents| then Some(done)
    else if pos >= |words| || pos + 1 + words[pos] > |words| then None
    else
      var end := pos + 1 + words[pos];
      ListFrom(parents, words, i + 1, end, done + WithParent(parents[i], words[pos + 1..end]))
  }

  lemma {:induction false} TailSlices<T>(s: seq<T>, i: nat, n: nat)
    requires 0 < n && i + n <= |s|
    ensures s[i..][0] == s[i] && s[i..][1..n] == s[i + 1..i + n] && s[i..][n..] == s[i + n..]
  {
  }

  /** The first run at `pos`, and the runs behind it. */
  lemma {:induction false} ParseAt(words: seq<u32>, pos: nat, n: nat)
    requires pos < |words| && pos + 1 + words[pos] <= |words|
    ensures var end := pos + 1 + words[pos];
      Parse(words[pos..], n + 1)
      == match Parse(words[end..], n)
         case None => None
         case Some(p) => Some(Parsed([words[pos + 1..end]] + p.runs, p.rest))
  {
    TailSlices(words, pos, 1 + words[pos] as nat);
  }

  lemma {:induction false} FlattenCons(done: seq<Inpoint>, h: Hash, parents: seq<Hash>, run: seq<u32>,
                                       runs: seq<seq<u32>>)
    requires |parents| == |runs|
    ensures done + Flatten([h] + parents, [run] + runs) == (done + WithParent(h, run)) + Flatten(parents, runs)
  {
    assert ([h] + parents)[1..] == parents && ([run] + runs)[1..] == runs;
    Assoc(done, WithParent(h, run), Flatten(parents, runs));
  }

  /** What ListFrom is to answer, by the runs in the words that are left. */
  ghost predicate Lists(answer: Option<seq<Inpoint>>, parents: seq<Hash>, words: seq<u32>, done: seq<Inpoint>) {
    answer == match Parse(words, |parents|)
              case None => None
              case Some(p) => Some(done + Flatten(parents, p.runs))
  }

  lemma {:induction false} ListStep(answer: Option<seq<Inpoint>>, h: Hash, parents: seq<Hash>, words: seq<u32>,
                                    pos: nat, done: seq<Inpoint>, run: seq<u32>)
    requires pos < |words| && pos + 1 + words[pos] <= |words| && run == words[pos + 1..pos + 1 + words[pos]]
    requires Lists(answer, parents, words[pos + 1 + words[pos]..], done + WithParent(h, run))
    ensures Lists(answer, [h] + parents, words[pos..], done)
  {
    ParseAt(words, pos, |parents|);
    match Parse(words[pos + 1 + words[pos]..], |parents|)
    case None =>
    case Some(p) => FlattenCons(done, h, parents, run, p.runs);
  }

  lemma {:induction false} ListParses(parents: seq<Hash>, words: seq<u32>, i: nat, pos: nat, done: seq<Inpoint>)
    requires i <= |parents| && pos <= |words|
    ensures Lists(ListFrom(parents, words, i, pos, done), parents[i..], words[pos..], done)
    decreases |parents| - i
  {
    if i == |parents| {
      assert done + [] == done;
    } else if pos < |words| && pos + 1 + words[pos] <= |words| {
      var end := pos + 1 + words[pos];
      var run := words[pos + 1..end];
      ListParses(parents, words, i + 1, end, done + WithParent(parents[i], run));
      assert [parents[i]] + parents[i + 1..] == parents[i..];
      ListStep(ListFrom(parents, words, i, pos, done), parents[i], parents[i + 1..], words, pos, done, run);
    }
  }

  lemma {:induction false} ListIsFlatten(parents: seq<Hash>, words: seq<u32>)
    ensures ListFrom(parents, words, 0, 0, [])
         == match Parse(words, |parents|) case None => None case Some(p) => Some(Flatten(parents, p.runs))
  {
    ListParses(parents, words, 0, 0, []);
    assert words[0..] == words && parents[0..] == parents;
    if p :| Parse(words, |parents|) == Some(p) {
      assert [] + Flatten(parents, p.runs) == Flatten(parents, p.runs);
    }
  }

  // ----- which groupings come from inputs -----

  lemma {:induction false} RegroupRun(inputs: seq<Inpoint>, parents: seq<Hash>, runs: seq<seq<u32>>, h: Hash,
                                      run: seq<u32>)
    requires Groups(inputs, parents, runs) && h !in parents && |run| > 0
    ensures Groups(inputs + WithParent(h, run), parents + [h], runs + [run])
    decreases |run|
  {
    var n := |run| - 1;
    var before, v := run[..n], run[n];
    assert before + [v] == run;
    WithParentAppend(h, before, v);
    if n == 0 {
      assert run == [v] && WithParent(h, before) == [];
      AddKeepsGroups(inputs, parents, runs, Inpoint(h, v));
    } else {
      RegroupRun(inputs, parents, runs, h, before);
      LastIndex(parents, h);
      assert (runs + [before])[|runs| := before + [v]] == runs + [run];
      Assoc(inputs, WithParent(h, before), [Inpoint(h, v)]);
      AddKeepsGroups(inputs + WithParent(h, before), parents + [h], runs + [before], Inpoint(h, v));
    }
  }

  lemma {:induction false} LastIndex(parents: seq<Hash>, h: Hash)
    requires h !in parents
    ensures IndexOf(parents + [h], h) == |parents|
  {
    assert (parents + [h])[|parents|] == h;
    forall k | 0 <= k < |parents| ensures (parents + [h])[k] != h {
      assert parents[k] in parents;
    }
  }

  lemma {:induction false} Regroup(parents: seq<Hash>, runs: seq<seq<u32>>)
    requires |parents| == |runs| && Distinct(parents) && NonEmptyRuns(runs)
    ensures Groups(Flatten(parents, runs), parents, runs)
    decreases |parents|
  {
    if parents != [] {
      var n := |parents| - 1;
      Regroup(parents[..n], runs[..n]);
      assert parents[..n] + [parents[n]] == parents && runs[..n] + [runs[n]] == runs;
      FlattenAppend(parents[..n], runs[..n], parents[n], runs[n]);
      RegroupRun(Flatten(parents[..n], runs[..n]), parents[..n], runs[..n], parents[n], runs[n]);
    }
  }

  /** Listing a grouping and grouping the list again gives it back exactly when every
      parent stands once and has a vout. */
  lemma {:induction false} RegroupIff(parents: seq<Hash>, runs: seq<seq<u32>>)
    requires |parents| == |runs|
    ensures Groups(Flatten(parents, runs), parents, runs) <==> Distinct(parents) && NonEmptyRuns(runs)
  {
    if Groups(Flatten(parents, runs), parents, runs) {
      FirstSeenDistinct(Flatten(parents, runs));
      GroupsKeepInputs(Flatten(parents, runs), parents, runs);
    }
    if Distinct(parents) && NonEmptyRuns(runs) {
      Regroup(parents, runs);
    }
  }
}
