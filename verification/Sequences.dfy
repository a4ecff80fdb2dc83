/** Orders of sequences and ranges of numbers. */
module Sequences {
  ghost predicate NoRepeats<T>(s: seq<T>) {
    forall i, j :: 0 <= i < j < |s| ==> s[i] != s[j]
  }

  ghost predicate Ascending(s: seq<int>) {
    forall i, j :: 0 <= i < j < |s| ==> s[i] < s[j]
  }

  lemma SomeElement<T>(s: seq<T>)
    ensures s == [] || exists x :: x in s
  {
    if s != [] { assert s[0] in s; }
  }

  /** An ascending sequence is determined by its elements. */
  lemma {:induction false} AscendingUnique(s: seq<int>, t: seq<int>)
    requires Ascending(s) && Ascending(t) && forall v :: v in s <==> v in t
    ensures s == t
    decreases |s|
  {
    SomeElement(s);
    SomeElement(t);
    if s != [] {
      assert s[0] in s && s[0] in t;
      assert t[0] in t && t[0] in s;
      var s', t' := s[1..], t[1..];
      assert s == [s[0]] + s' && t == [t[0]] + t';
      assert Ascending(s') && Ascending(t');
      assert s[0] !in s' && t[0] !in t';
      forall v ensures v in s' <==> v in t' {
        assert v in s <==> v == s[0] || v in s';
        assert v in t <==> v == t[0] || v in t';
      }
      AscendingUnique(s', t');
    }
  }

  predicate Between(lo: nat, j: nat, hi: nat) {
    lo <= j < hi
  }

  ghost function Interval(lo: nat, hi: nat): set<nat> {
    set j: nat | j < hi && Between(lo, j, hi)
  }

  lemma {:induction false} IntervalSize(lo: nat, hi: nat)
    requires lo <= hi
    ensures |Interval(lo, hi)| == hi - lo
    decreases hi
  {
    if lo < hi {
      IntervalSize(lo, hi - 1);
      assert Interval(lo, hi) == Interval(lo, hi - 1) + {hi - 1};
    } else {
      assert Interval(lo, hi) == {};
    }
  }

  lemma IntervalJoin(lo: nat, mid: nat, hi: nat)
    requires lo <= mid <= hi
    ensures Interval(lo, hi) == Interval(lo, mid) + Interval(mid, hi)
  {
    assert forall j :: Between(lo, j, hi) <==> Between(lo, j, mid) || Between(mid, j, hi);
  }

  lemma SmallIntervals(n: nat)
    ensures Interval(n, n) == {} && Interval(n, n + 1) == {n}
  {
    assert Between(n, n, n + 1);
  }
}
