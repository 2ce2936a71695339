/** Sequence helpers shared by the modules: reversal and concatenation of a
    sequence of sequences. */
module Seqs {

  /** `s` in the opposite order. */
  function Reverse<T>(s: seq<T>): (r: seq<T>)
    ensures |r| == |s|
    ensures forall i :: 0 <= i < |s| ==> r[i] == s[|s| - 1 - i]
  {
    if s == [] then [] else Reverse(s[1..]) + [s[0]]
  }

  lemma ReverseSnoc<T>(s: seq<T>, x: T)
    ensures Reverse(s + [x]) == [x] + Reverse(s)
  {
    var a, b := Reverse(s + [x]), [x] + Reverse(s);
    assert forall i :: 0 <= i < |a| ==> a[i] == b[i];
  }

  /** The elements of `ss` joined end to end. */
  function Concat<T>(ss: seq<seq<T>>): seq<T>
  {
    if ss == [] then [] else Concat(ss[..|ss| - 1]) + ss[|ss| - 1]
  }

  lemma {:induction false} ConcatAppend<T>(a: seq<seq<T>>, b: seq<seq<T>>)
    ensures Concat(a + b) == Concat(a) + Concat(b)
    decreases |b|
  {
    if b == [] {
      assert a + b == a;
    } else {
      assert (a + b)[..|a + b| - 1] == a + b[..|b| - 1];
      ConcatAppend(a, b[..|b| - 1]);
    }
  }

  lemma ConcatSnoc<T>(ss: seq<seq<T>>, s: seq<T>)
    ensures Concat(ss + [s]) == Concat(ss) + s
  {
    assert (ss + [s])[..|ss|] == ss;
  }

  /** No element of `ss` is empty. */
  predicate AllNonEmpty<T>(ss: seq<seq<T>>)
  {
    forall j :: 0 <= j < |ss| ==> ss[j] != []
  }

  lemma AllNonEmptyReverse<T>(ss: seq<seq<T>>)
    requires AllNonEmpty(ss)
    ensures AllNonEmpty(Reverse(ss))
  {
  }

  lemma AllNonEmptySnoc<T>(ss: seq<seq<T>>, x: seq<T>)
    requires AllNonEmpty(ss) && x != []
    ensures AllNonEmpty(ss + [x])
  {
    assert forall j :: 0 <= j < |ss| ==> (ss + [x])[j] == ss[j];
  }
}
