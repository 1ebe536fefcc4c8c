/** `collections.Counter` built from a sequence, as the modelled programs use
    it: a table of (element, count) pairs whose keys are distinct and appear
    in the order of their first occurrence (a `dict` keeps insertion order). */
module Counting {

  type Tally<T> = seq<(T, nat)>

  predicate Distinct<T(==)>(s: seq<T>)
  {
    forall i, j :: 0 <= i < j < |s| ==> s[i] != s[j]
  }

  function Keys<T>(t: Tally<T>): (ks: seq<T>)
    ensures |ks| == |t|
    ensures forall i :: 0 <= i < |t| ==> ks[i] == t[i].0
  {
    if t == [] then [] else [t[0].0] + Keys(t[1..])
  }

  /** The count stored for `y`, or 0 when `y` is not a key. */
  function CountOf<T(==)>(t: Tally<T>, y: T): nat
  {
    if t == [] then 0 else if t[0].0 == y then t[0].1 else CountOf(t[1..], y)
  }

  function SumCounts<T>(t: Tally<T>): nat
  {
    if t == [] then 0 else t[0].1 + SumCounts(t[1..])
  }

  /** The distinct elements of `s` in order of first occurrence. */
  function FirstOccurrences<T(==)>(s: seq<T>): seq<T>
  {
    if s == [] then []
    else
      var p := s[..|s| - 1];
      if s[|s| - 1] in p then FirstOccurrences(p) else FirstOccurrences(p) + [s[|s| - 1]]
  }

  lemma {:induction false} CountOfKey<T>(t: Tally<T>, i: nat)
    requires Distinct(Keys(t)) && i < |t|
    ensures CountOf(t, t[i].0) == t[i].1
    decreases |t|
  {
    if i > 0 {
      assert Keys(t)[0] != Keys(t)[i];
      assert Keys(t[1..]) == Keys(t)[1..];
      CountOfKey(t[1..], i - 1);
    }
  }

  lemma {:induction false} CountOfAbsent<T>(t: Tally<T>, y: T)
    requires y !in Keys(t)
    ensures CountOf(t, y) == 0
    decreases |t|
  {
    if t != [] {
      assert Keys(t[1..]) == Keys(t)[1..];
      CountOfAbsent(t[1..], y);
    }
  }

  /** One more occurrence of `x`: its count goes up, or it is appended. */
  function Bump<T(==,!new)>(t: Tally<T>, x: T): (r: Tally<T>)
    requires Distinct(Keys(t))
    ensures Distinct(Keys(r))
    ensures Keys(r) == if x in Keys(t) then Keys(t) else Keys(t) + [x]
    ensures forall y :: CountOf(r, y) == CountOf(t, y) + (if y == x then 1 else 0)
    ensures SumCounts(r) == SumCounts(t) + 1
    decreases |t|
  {
    if t == [] then
      [(x, 1)]
    else
      assert Keys(t[1..]) == Keys(t)[1..];
      if t[0].0 == x then
        var r := [(x, t[0].1 + 1)] + t[1..];
        assert Keys(r) == [x] + Keys(t[1..]);
        assert x !in Keys(t[1..]) by {
          forall j | 0 <= j < |t[1..]| ensures Keys(t[1..])[j] != x {
            assert Keys(t)[0] != Keys(t)[j + 1];
          }
        }
        forall y ensures CountOf(r, y) == CountOf(t, y) + (if y == x then 1 else 0) {
          if y != x {
            assert CountOf(r, y) == CountOf(t[1..], y);
          }
        }
        r
      else
        var b := Bump(t[1..], x);
        var r := [t[0]] + b;
        assert r[1..] == b;
        assert Keys(r) == [t[0].0] + Keys(b);
        assert t[0].0 !in Keys(b) by {
          forall j | 0 <= j < |t[1..]| ensures Keys(t[1..])[j] != t[0].0 {
            assert Keys(t)[0] != Keys(t)[j + 1];
          }
        }
        r
  }

  /** `Counter(s)`, keys in first-occurrence order. */
  function Count<T(==,!new)>(s: seq<T>): (t: Tally<T>)
    ensures Distinct(Keys(t))
    ensures Keys(t) == FirstOccurrences(s)
    ensures forall y :: CountOf(t, y) == multiset(s)[y]
    ensures SumCounts(t) == |s|
  {
    if s == [] then []
    else
      var p := s[..|s| - 1];
      var x := s[|s| - 1];
      assert s == p + [x];
      var t := Bump(Count(p), x);
      assert x in Keys(Count(p)) <==> x in p by {
        FirstOccurrencesElements(p);
      }
      t
  }

  lemma {:induction false} FirstOccurrencesElements<T>(s: seq<T>)
    ensures forall y :: y in FirstOccurrences(s) <==> y in s
    decreases |s|
  {
    if s != [] {
      var p := s[..|s| - 1];
      assert s == p + [s[|s| - 1]];
      FirstOccurrencesElements(p);
    }
  }

  /** A sequence of one repeated element has that element as its only
      distinct element. */
  lemma {:induction false} FirstOccurrencesConstant<T>(s: seq<T>)
    requires s != [] && forall k :: 0 <= k < |s| ==> s[k] == s[0]
    ensures FirstOccurrences(s) == [s[0]]
    decreases |s|
  {
    var p := s[..|s| - 1];
    if p != [] {
      FirstOccurrencesConstant(p);
      assert s[|s| - 1] == p[0];
    }
  }

  /** Every key of `Count(s)` is an element of `s` with its number of
      occurrences, and every element of `s` is a key. */
  lemma CountEntries<T(!new)>(s: seq<T>)
    ensures forall i :: 0 <= i < |Count(s)| ==>
      Count(s)[i].1 == multiset(s)[Count(s)[i].0] && Count(s)[i].1 >= 1
    ensures forall y :: y in s <==> y in Keys(Count(s))
  {
    var t := Count(s);
    forall i | 0 <= i < |t| ensures t[i].1 == multiset(s)[t[i].0] {
      CountOfKey(t, i);
    }
    FirstOccurrencesElements(s);
    forall i | 0 <= i < |t| ensures t[i].0 in s {
      assert Keys(t)[i] == t[i].0;
    }
  }
}
