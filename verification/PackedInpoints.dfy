/** The TxInpoints object: two growing buffers, updated in place. */
module PackedInpoints {
  import opened Results
  import opened Bytes
  import opened Inpoints
  import opened Packing

  class TxInpoints {
    var parentTxHashes: array?<Hash>  // null is the nil slice; Length is the capacity
    var parentCount: nat
    var voutIdxs: array?<u32>
    var voutCount: nat

    ghost predicate Valid()
      reads this
    {
      && (if parentTxHashes == null then parentCount == 0 else parentCount <= parentTxHashes.Length)
      && (if voutIdxs == null then voutCount == 0 else voutCount <= voutIdxs.Length)
    }

    ghost function Parents(): (p: seq<Hash>)
      requires Valid()
      reads this, parentTxHashes
      ensures |p| == parentCount
    {
      if parentTxHashes == null then [] else parentTxHashes[..parentCount]
    }

    ghost function Words(): (w: seq<u32>)
      requires Valid()
      reads this, voutIdxs
      ensures |w| == voutCount
    {
      if voutIdxs == null then [] else voutIdxs[..voutCount]
    }

    /** The words are the packing of one run per parent. */
    ghost predicate Packed(runs: seq<seq<u32>>)
      requires Valid()
      reads this, voutIdxs
    {
      |runs| == parentCount && SmallRuns(runs) && Words() == Pack(runs)
    }

    ghost function Contents(): Layout
      requires Valid()
      reads this, parentTxHashes, voutIdxs
    {
      Layout(Parents(), Words())
    }

    /** TxInpoints{} */
    constructor ()
      ensures Valid() && parentTxHashes == null && voutIdxs == null
    {
      parentTxHashes, voutIdxs := null, null;
      parentCount, voutCount := 0, 0;
    }

    /** Empty, with buffers for `n` inputs. */
    constructor Sized(n: nat)
      ensures Valid() && Parents() == [] && Words() == []
      ensures fresh(parentTxHashes) && parentTxHashes != null && parentTxHashes.Length == n
      ensures fresh(voutIdxs) && voutIdxs != null && voutIdxs.Length == 2 * n
    {
      parentTxHashes, voutIdxs := new Hash[n], new u32[2 * n];
      parentCount, voutCount := 0, 0;
    }

    method AppendParent(h: Hash)
      requires Valid()
      modifies this`parentTxHashes, this`parentCount, parentTxHashes
      ensures Valid() && parentTxHashes != null && Parents() == old(Parents()) + [h]
      ensures old(parentTxHashes != null && parentCount < parentTxHashes.Length) ==>
        parentTxHashes == old(parentTxHashes)
      ensures parentTxHashes == old(parentTxHashes) || fresh(parentTxHashes)
    {
      if parentTxHashes == null || parentCount == parentTxHashes.Length {
        var extra: nat :| extra > 0;
        var grown := new Hash[parentCount + extra];
        forall i | 0 <= i < parentCount {
          grown[i] := parentTxHashes[i];
        }
        parentTxHashes := grown;
      }
      parentTxHashes[parentCount] := h;
      parentCount := parentCount + 1;
    }

    method AppendWord(w: u32)
      requires Valid()
      modifies this`voutIdxs, this`voutCount, voutIdxs
      ensures Valid() && voutIdxs != null && Words() == old(Words()) + [w]
      ensures old(voutIdxs != null && voutCount < voutIdxs.Length) ==> voutIdxs == old(voutIdxs)
      ensures voutIdxs == old(voutIdxs) || fresh(voutIdxs)
    {
      if voutIdxs == null || voutCount == voutIdxs.Length {
        var extra: nat :| extra > 0;
        var grown := new u32[voutCount + extra];
        forall i | 0 <= i < voutCount {
          grown[i] := voutIdxs[i];
        }
        voutIdxs := grown;
      }
      voutIdxs[voutCount] := w;
      voutCount := voutCount + 1;
    }

    /** slices.Index over the parents. */
    method FindParent(hash: Hash) returns (idx: int)
      requires Valid()
      ensures idx == IndexOf(Parents(), hash)
    {
      idx := 0;
      while idx < parentCount
        invariant 0 <= idx <= parentCount
        invariant hash !in Parents()[..idx]
      {
        if parentTxHashes[idx] == hash {
          FoundAt(Parents(), hash, idx);
          return;
        }
        assert Parents()[..idx + 1] == Parents()[..idx] + [parentTxHashes[idx]];
        idx := idx + 1;
      }
      assert Parents()[..idx] == Parents();
      return -1;
    }

    /** Skips `i` runs. None is the panic of an index out of range; the count word at the
        position answered exists. */
    method CountPos(i: nat) returns (pos: Option<nat>)
      requires Valid()
      ensures pos.Some? ==> pos.value < voutCount && RunStart(Words(), 0, i) == pos
      ensures pos.None? ==> RunStart(Words(), 0, i).None? || RunStart(Words(), 0, i) == Some(voutCount)
    {
      var at: nat := 0;
      for j := 0 to i
        invariant RunStart(Words(), at, i - j) == RunStart(Words(), 0, i)
      {
        if at >= voutCount {
          return None;
        }
        at := at + 1 + voutIdxs[at];
      }
      return if at < voutCount then Some(at) else None;
    }

    /** Opens one slot at `at` by moving the tail up, and puts `w` into it. */
    method InsertWord(at: nat, w: u32)
      requires Valid() && at <= voutCount
      modifies this`voutIdxs, this`voutCount, voutIdxs
      ensures Valid() && voutIdxs != null && Words() == old(Words())[..at] + [w] + old(Words())[at..]
      ensures old(voutIdxs != null && voutCount < voutIdxs.Length) ==> voutIdxs == old(voutIdxs)
      ensures voutIdxs == old(voutIdxs) || fresh(voutIdxs)
    {
      ghost var s := Words();
      AppendWord(0);
      MoveUp(at);
      ghost var moved := Words();
      voutIdxs[at] := w;
      assert Words() == moved[at := w];
      Inserted(s, at, w, Words());
    }

    /** copy(p.voutIdxs[at+1:], p.voutIdxs[at:len-1]) */
    method MoveUp(at: nat)
      requires Valid() && at < voutCount
      modifies voutIdxs
      ensures Valid()
      ensures Words()[..at] == old(Words())[..at] && Words()[at + 1..] == old(Words())[at..voutCount - 1]
    {
      ghost var s := Words();
      forall k | at < k < voutCount {
        voutIdxs[k] := voutIdxs[k - 1];
      }
      assert forall k :: at < k < voutCount ==> voutIdxs[k] == s[k - 1];
      assert Words()[at + 1..] == s[at..voutCount - 1];
    }

    /** A known parent: its run grows by one, what follows moves up. False is a panic. */
    method AppendToParent(idx: nat, vout: u32) returns (ok: bool)
      requires Valid()
      modifies this`voutIdxs, this`voutCount, voutIdxs
      ensures Valid() && (ok <==> InsertVout(old(Words()), idx, vout).Some?)
      ensures ok ==> Words() == InsertVout(old(Words()), idx, vout).value
      ensures old(voutIdxs != null && voutCount < voutIdxs.Length) ==> voutIdxs == old(voutIdxs)
      ensures voutIdxs == old(voutIdxs) || fresh(voutIdxs)
    {
      var pos := CountPos(idx);
      if pos.None? {
        return false;
      }
      ok := InsertBehind(pos.value, vout);
    }

    /** Inserts a vout behind the run whose count word is at `pos`, and counts it. */
    method InsertBehind(pos: nat, vout: u32) returns (ok: bool)
      requires Valid() && pos < voutCount
      modifies this`voutIdxs, this`voutCount, voutIdxs
      ensures Valid() && (ok <==> pos + 1 + old(Words())[pos] <= old(voutCount))
      ensures ok ==>
        var words := old(Words());
        var at := pos + 1 + words[pos];
        Words() == (words[..at] + [vout] + words[at..])[pos := (words[pos] + 1) % TWO_32]
      ensures old(voutCount < voutIdxs.Length) ==> voutIdxs == old(voutIdxs)
      ensures voutIdxs == old(voutIdxs) || fresh(voutIdxs)
    {
      var count := voutIdxs[pos];
      if pos + 1 + count > voutCount {
        return false;
      }
      InsertWord(pos + 1 + count, vout);
      ghost var longer := Words();
      voutIdxs[pos] := (count + 1) % TWO_32;
      assert Words() == longer[pos := (count + 1) % TWO_32];
      return true;
    }

    /** appendInput, on any layout; false is a panic. */
    method AppendInput(hash: Hash, vout: u32) returns (ok: bool)
      requires Valid()
      modifies this, parentTxHashes, voutIdxs
      ensures Valid() && (ok <==> AddPacked(old(Contents()), Inpoint(hash, vout)).Some?)
      ensures ok ==> Contents() == AddPacked(old(Contents()), Inpoint(hash, vout)).value
      ensures old(parentTxHashes != null && parentCount < parentTxHashes.Length) ==>
        parentTxHashes == old(parentTxHashes)
      ensures old(voutIdxs != null && voutCount + 2 <= voutIdxs.Length) ==> voutIdxs == old(voutIdxs)
      ensures parentTxHashes == old(parentTxHashes) || fresh(parentTxHashes)
      ensures voutIdxs == old(voutIdxs) || fresh(voutIdxs)
    {
      var idx := FindParent(hash);
      if idx == -1 {
        AppendParent(hash);
        AppendWord(1);
        AppendWord(vout);
        return true;
      }
      AddPackedInserts(Contents(), Inpoint(hash, vout));
      ok := AppendToParent(idx, vout);
    }

    /** The buffers have room for `n` inputs with `n` different parents. */
    ghost predicate SizedFor(n: nat)
      reads this
    {
      && parentTxHashes != null && parentTxHashes.Length == n
      && voutIdxs != null && voutIdxs.Length == 2 * n
    }

    /** The first `i` inputs are in, in buffers for `n`. */
    ghost predicate Holds(inputs: seq<Inpoint>, i: nat, n: nat)
      reads this, parentTxHashes, voutIdxs
    {
      && i <= |inputs| && Valid() && SizedFor(n)
      && PackInputs(inputs[..i]) == Some(Contents())
      && parentCount <= i && voutCount == parentCount + i
    }

    /** One round of newSizedFromInputs; buffers for all inputs are large enough. */
    method AppendNext(inputs: seq<Inpoint>, i: nat) returns (ok: bool)
      requires i < |inputs| && Holds(inputs, i, |inputs|)
      modifies this, parentTxHashes, voutIdxs
      ensures parentTxHashes == old(parentTxHashes) && voutIdxs == old(voutIdxs)
      ensures ok <==> PackInputs(inputs[..i + 1]).Some?
      ensures ok ==> Holds(inputs, i + 1, |inputs|)
    {
      PackInputsStep(inputs, i);
      ghost var l := Contents();
      if AddPacked(l, inputs[i]).Some? {
        AddPackedLength(l, inputs[i]);
      }
      ok := AppendInput(inputs[i].hash, inputs[i].index);
    }

    /** The loop over the inputs. */
    method AppendAll(inputs: seq<Inpoint>) returns (ok: bool)
      requires Holds(inputs, 0, |inputs|)
      modifies this, parentTxHashes, voutIdxs
      ensures parentTxHashes == old(parentTxHashes) && voutIdxs == old(voutIdxs)
      ensures ok <==> PackInputs(inputs).Some?
      ensures ok ==> Holds(inputs, |inputs|, |inputs|)
    {
      for i := 0 to |inputs|
        invariant Holds(inputs, i, |inputs|)
        invariant parentTxHashes == old(parentTxHashes) && voutIdxs == old(voutIdxs)
      {
        ok := AppendNext(inputs, i);
        if !ok {
          PackInputsPrefix(inputs, i + 1);
          return;
        }
      }
      assert inputs[..|inputs|] == inputs;
      return true;
    }

    /** newSizedFromInputs: in buffers that have never been replaced. False is a panic. */
    static method NewSizedFromInputs(inputs: seq<Inpoint>) returns (ok: bool, p: TxInpoints)
      ensures fresh(p) && (ok <==> PackInputs(inputs).Some?)
      ensures ok ==> p.Valid() && p.Contents() == PackInputs(inputs).value
      ensures ok ==> p.parentCount <= |inputs| && p.voutCount == p.parentCount + |inputs|
      ensures inputs == [] ==> p.parentTxHashes == null && p.voutIdxs == null
      ensures inputs != [] ==> p.SizedFor(|inputs|)
      ensures FewVouts(inputs) ==>
        var runs := RunsOf(inputs, FirstSeen(inputs));
        ok && SmallRuns(runs) && p.Contents() == Layout(FirstSeen(inputs), Pack(runs))
    {
      if FewVouts(inputs) {
        PackInputsGroups(inputs, FirstSeen(inputs), RunsOf(inputs, FirstSeen(inputs)));
      }
      if |inputs| == 0 {
        p := new TxInpoints();
        return true, p;
      }
      p := new TxInpoints.Sized(|inputs|);
      assert inputs[..0] == [];
      ok := p.AppendAll(inputs);
      assert inputs[..|inputs|] == inputs;
    }

    /** voutSliceForParent, on any layout; None is a panic. The slice may reach behind the
        words in use, as far as the capacity goes. */
    method VoutSliceForParent(i: nat) returns (r: Option<seq<u32>>)
      requires Valid()
      ensures match Parse(Words(), i + 1)
              case Some(p) => r == Some(p.runs[i])
              case None =>
                match RunStart(Words(), 0, i)
                case None => r == None
                case Some(pos) =>
                  && (r.Some? ==> pos < voutCount && voutCount < pos + 1 + |r.value| <= voutIdxs.Length)
                  && (r.Some? <==> pos < voutCount && pos + 1 + Words()[pos] <= voutIdxs.Length)
    {
      ghost var words := Words();
      ParseByStart(words, i);
      var pos := CountPos(i);
      if pos.None? {
        return None;
      }
      if Parse(words, i + 1).Some? {
        LastRun(words, i, pos.value);
      }
      r := SliceAt(pos.value);
    }

    /** The vouts behind the count word at `pos`; the bound of the slice is the capacity. */
    method SliceAt(pos: nat) returns (r: Option<seq<u32>>)
      requires Valid() && pos < voutCount
      ensures r.Some? <==> pos + 1 + Words()[pos] <= voutIdxs.Length
      ensures r.Some? ==> |r.value| == Words()[pos]
      ensures pos + 1 + Words()[pos] <= voutCount ==> r == Some(Words()[pos + 1..pos + 1 + Words()[pos]])
    {
      var count := voutIdxs[pos];
      if pos + 1 + count > voutIdxs.Length {
        return None;
      }
      assert pos + 1 + count <= voutCount ==> voutIdxs[pos + 1..pos + 1 + count] == Words()[pos + 1..pos + 1 + count];
      return Some(voutIdxs[pos + 1..pos + 1 + count]);
    }

    /** nrInputs: what is not a count word is a vout. */
    method NrInputs() returns (n: int)
      requires Valid()
      ensures n == if parentCount > 0 then |Words()| - parentCount else 0
      ensures forall runs :: Packed(runs) ==> n == TotalVouts(runs)
    {
      forall runs | Packed(runs) ensures |Words()| == parentCount + TotalVouts(runs) {
        PackLength(runs);
      }
      if parentCount == 0 {
        return 0;
      }
      return voutCount - parentCount;
    }

    /** GetTxInpoints, on any layout; None is a panic. */
    method GetTxInpoints() returns (r: Option<seq<Inpoint>>)
      requires Valid()
      ensures r == match Parse(Words(), parentCount)
                   case None => None
                   case Some(p) => Some(Flatten(Parents(), p.runs))
    {
      ParseLength(Words(), parentCount);
      ListIsFlatten(Parents(), Words());
      var n := NrInputs();
      if n < 0 {
        return None;
      }
      r := ListInpoints();
    }

    /** The loop over the parents. */
    method ListInpoints() returns (r: Option<seq<Inpoint>>)
      requires Valid()
      ensures r == ListFrom(Parents(), Words(), 0, 0, [])
    {
      var inpoints: seq<Inpoint> := [];
      var pos: nat := 0;
      for i := 0 to parentCount
        invariant ListFrom(Parents(), Words(), i, pos, inpoints) == ListFrom(Parents(), Words(), 0, 0, [])
      {
        var ok;
        ok, inpoints, pos := ListRun(i, pos, inpoints);
        if !ok {
          return None;
        }
      }
      return Some(inpoints);
    }

    /** One round: the inpoints of parent `i`, whose count word is at `pos`. */
    method ListRun(i: nat, pos: nat, inpoints: seq<Inpoint>) returns (ok: bool, more: seq<Inpoint>, next: nat)
      requires Valid() && i < parentCount
      ensures !ok ==> ListFrom(Parents(), Words(), i, pos, inpoints) == None
      ensures ok ==>
        ListFrom(Parents(), Words(), i, pos, inpoints) == ListFrom(Parents(), Words(), i + 1, next, more)
    {
      var run := RunAt(parentTxHashes[i], pos);
      if run.None? {
        return false, [], pos;
      }
      return true, inpoints + run.value, pos + 1 + voutIdxs[pos];
    }

    /** The inner loop: the vouts behind the count word at `pos`. */
    method RunAt(hash: Hash, pos: nat) returns (r: Option<seq<Inpoint>>)
      requires Valid()
      ensures r.Some? <==> pos < voutCount && pos + 1 + Words()[pos] <= voutCount
      ensures r.Some? ==> r.value == WithParent(hash, Words()[pos + 1..pos + 1 + Words()[pos]])
    {
      if pos >= voutCount {
        return None;
      }
      ghost var words := Words();
      var count: nat := voutIdxs[pos];
      var inpoints: seq<Inpoint> := [];
      for k := 1 to count + 1
        invariant pos + k <= voutCount
        invariant inpoints == WithParent(hash, words[pos + 1..pos + k])
      {
        if pos + k >= voutCount {
          return None;
        }
        WithParentAppend(hash, words[pos + 1..pos + k], words[pos + k]);
        assert words[pos + 1..pos + k] + [words[pos + k]] == words[pos + 1..pos + k + 1];
        inpoints := inpoints + [Inpoint(hash, voutIdxs[pos + k])];
      }
      return Some(inpoints);
    }
  }

  lemma {:induction false} Inserted(s: seq<u32>, at: nat, w: u32, t: seq<u32>)
    requires |t| == |s| + 1 && at <= |s| && t[at] == w
    requires t[..at] == s[..at] && t[at + 1..] == s[at..]
    ensures t == s[..at] + [w] + s[at..]
  {
    assert t == t[..at] + [t[at]] + t[at + 1..];
  }

  lemma {:induction false} FoundAt(parents: seq<Hash>, h: Hash, i: nat)
    requires i < |parents| && parents[i] == h && h !in parents[..i]
    ensures IndexOf(parents, h) == i
  {
    if i > 0 {
      assert parents[0] == parents[..i][0];
      assert parents[..i][1..] == parents[1..][..i - 1];
      FoundAt(parents[1..], h, i - 1);
    }
  }
}
