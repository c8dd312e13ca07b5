/** `Array.prototype.filter` and `map` over sequences, with the facts every caller needs about them. */
module Collections {

  /** `s.filter(keep)`: the elements that pass, in their original order. */
  function Filter<T>(s: seq<T>, keep: T -> bool): (r: seq<T>)
    ensures |r| <= |s|
  {
    if s == [] then [] else (if keep(s[0]) then [s[0]] else []) + Filter(s[1..], keep)
  }

  /** `s.map(f)`. */
  function Map<T, U>(s: seq<T>, f: T -> U): (r: seq<U>)
    ensures |r| == |s|
    ensures forall i :: 0 <= i < |s| ==> r[i] == f(s[i])
  {
    seq(|s|, i requires 0 <= i < |s| => f(s[i]))
  }

  /** `r` keeps some of the elements of `s` in the order they have in `s`. */
  predicate IsSubsequence<T(==)>(r: seq<T>, s: seq<T>) {
    r == [] || (s != [] && ((r[0] == s[0] && IsSubsequence(r[1..], s[1..])) || IsSubsequence(r, s[1..])))
  }

  /** Filtering keeps every passing element as often as it occurs, and nothing else. */
  lemma {:induction false} FilterCounts<T>(s: seq<T>, keep: T -> bool, x: T)
    ensures multiset(Filter(s, keep))[x] == if keep(x) then multiset(s)[x] else 0
  {
    if s != [] {
      FilterCounts(s[1..], keep, x);
      assert s == [s[0]] + s[1..];
      assert multiset(s) == multiset{s[0]} + multiset(s[1..]);
    }
  }

  /** One element is in the filtered sequence exactly when it is in `s` and passes. */
  lemma {:induction false} FilterMember<T>(s: seq<T>, keep: T -> bool, x: T)
    ensures x in Filter(s, keep) <==> x in s && keep(x)
  {
    FilterCounts(s, keep, x);
  }

  /** An element is in the filtered sequence exactly when it is in `s` and passes. */
  lemma {:induction false} FilterMembers<T>(s: seq<T>, keep: T -> bool)
    ensures forall x :: x in Filter(s, keep) <==> x in s && keep(x)
  {
    forall x ensures x in Filter(s, keep) <==> x in s && keep(x) {
      FilterMember(s, keep, x);
    }
  }

  /** Filtering preserves order. */
  lemma {:induction false} FilterIsSubsequence<T>(s: seq<T>, keep: T -> bool)
    ensures IsSubsequence(Filter(s, keep), s)
  {
    if s != [] {
      FilterIsSubsequence(s[1..], keep);
      if keep(s[0]) {
        assert ([s[0]] + Filter(s[1..], keep))[1..] == Filter(s[1..], keep);
      } else {
        assert [] + Filter(s[1..], keep) == Filter(s[1..], keep);
      }
    }
  }

  /** A filter every element passes changes nothing. */
  lemma {:induction false} FilterKeepsAll<T>(s: seq<T>, keep: T -> bool)
    requires forall i :: 0 <= i < |s| ==> keep(s[i])
    ensures Filter(s, keep) == s
  {
    if s != [] {
      FilterKeepsAll(s[1..], keep);
      assert s == [s[0]] + s[1..];
    }
  }

  /** A filter no element passes leaves nothing. */
  lemma {:induction false} FilterKeepsNone<T>(s: seq<T>, keep: T -> bool)
    requires forall i :: 0 <= i < |s| ==> !keep(s[i])
    ensures Filter(s, keep) == []
  {
    if s != [] {
      FilterKeepsNone(s[1..], keep);
    }
  }

  /** Two filters in a row are one filter by both tests. */
  lemma {:induction false} FilterFilter<T>(s: seq<T>, keep: T -> bool, also: T -> bool, both: T -> bool)
    requires forall x :: both(x) == (keep(x) && also(x))
    ensures Filter(Filter(s, keep), also) == Filter(s, both)
  {
    if s != [] {
      var rest := Filter(s[1..], keep);
      FilterFilter(s[1..], keep, also, both);
      assert both(s[0]) == (keep(s[0]) && also(s[0]));
      var head := if both(s[0]) then [s[0]] else [];
      if keep(s[0]) {
        var t := Filter(s, keep);
        assert t == [s[0]] + rest;
        assert t[0] == s[0] && t[1..] == rest;
        calc {
          Filter(t, also);
          head + Filter(rest, also);
          head + Filter(s[1..], both);
          Filter(s, both);
        }
      } else {
        assert Filter(s, keep) == [] + rest == rest;
        assert Filter(s, both) == [] + Filter(s[1..], both);
      }
    }
  }

  /** Filtering the images is mapping the elements whose image passes. */
  lemma {:induction false} FilterMap<T, U>(s: seq<T>, f: T -> U, keep: U -> bool, pre: T -> bool)
    requires forall x :: pre(x) == keep(f(x))
    ensures Filter(Map(s, f), keep) == Map(Filter(s, pre), f)
  {
    if s != [] {
      FilterMap(s[1..], f, keep, pre);
      var m := Map(s, f);
      assert m[0] == f(s[0]) && m[1..] == Map(s[1..], f);
      if pre(s[0]) {
        var t := Filter(s, pre);
        assert t == [s[0]] + Filter(s[1..], pre);
        assert Map(t, f) == [f(s[0])] + Map(Filter(s[1..], pre), f);
      }
    }
  }

  /** Filtering a sequence one element longer at the back. */
  lemma {:induction false} FilterSnoc<T>(s: seq<T>, x: T, keep: T -> bool)
    ensures Filter(s + [x], keep) == Filter(s, keep) + (if keep(x) then [x] else [])
  {
    var last := if keep(x) then [x] else [];
    if s == [] {
      assert s + [x] == [x];
      assert Filter([x], keep) == last + Filter([], keep);
    } else {
      var t := s + [x];
      var head := if keep(s[0]) then [s[0]] else [];
      assert t[0] == s[0] && t[1..] == s[1..] + [x];
      FilterSnoc(s[1..], x, keep);
      calc {
        Filter(t, keep);
        head + Filter(s[1..] + [x], keep);
        head + (Filter(s[1..], keep) + last);
        (head + Filter(s[1..], keep)) + last;
        Filter(s, keep) + last;
      }
    }
  }
}
