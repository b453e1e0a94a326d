/** What several modules say about sequences. */
module Sequences {

  ghost predicate Distinct<T>(s: seq<T>) {
    forall i, j :: 0 <= i < j < |s| ==> s[i] != s[j]
  }

  /** The elements before `i` stay, those behind it move down by one. */
  ghost predicate IsWithout<T>(t: seq<T>, s: seq<T>, i: nat)
    requires i < |s|
  {
    && |t| == |s| - 1
    && (forall k :: 0 <= k < i ==> t[k] == s[k])
    && (forall k :: i <= k < |t| ==> t[k] == s[k + 1])
  }

  lemma {:induction false} CutIsWithout<T>(s: seq<T>, i: nat)
    requires i < |s|
    ensures IsWithout(s[..i] + s[i + 1..], s, i)
  {
  }

  lemma {:induction false} Assoc<T>(a: seq<T>, b: seq<T>, c: seq<T>)
    ensures (a + b) + c == a + (b + c)
  {
  }
}
