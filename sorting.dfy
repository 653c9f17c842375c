/**
  Python's `sorted` applied to a set of strings: the result lists every element
  of the set once, in ascending order of `Text.Less`. Only the result is
  modelled, not the algorithm Python uses to reach it.
*/
module Sorting {
  import opened Text

  /** Each string is smaller than every later one (so, in particular, none repeats). */
  predicate StrictlyAscending(s: seq<string>)
  {
    forall i, j :: 0 <= i < j < |s| ==> Less(s[i], s[j])
  }

  predicate Distinct(s: seq<string>)
  {
    forall i, j :: 0 <= i < j < |s| ==> s[i] != s[j]
  }

  function Elems(s: seq<string>): set<string>
  {
    set x | x in s
  }

  lemma ElemsOfPrefix(s: seq<string>, k: nat)
    requires k < |s|
    ensures Elems(s[..k + 1]) == Elems(s[..k]) + {s[k]}
  {
    assert s[..k + 1] == s[..k] + [s[k]];
  }

  lemma AscendingIsDistinct(s: seq<string>)
    requires StrictlyAscending(s)
    ensures Distinct(s)
  {
    forall i, j | 0 <= i < j < |s|
      ensures s[i] != s[j]
    {
      LessIrreflexive(s[i]);
    }
  }

  /** A list without repetitions has as many distinct elements as entries. */
  lemma {:induction false} DistinctCardinality(s: seq<string>)
    requires Distinct(s)
    ensures |Elems(s)| == |s|
    decreases |s|
  {
    if s != [] {
      var init, last := s[..|s| - 1], s[|s| - 1];
      assert s == init + [last];
      assert Distinct(init);
      DistinctCardinality(init);
      assert Elems(s) == Elems(init) + {last};
      assert last !in Elems(init);
    }
  }

  /** `m` is the smallest element of `s`. */
  ghost predicate IsLeast(m: string, s: set<string>)
  {
    m in s && forall x :: x in s && x != m ==> Less(m, x)
  }

  /** A finite non-empty set of strings has a smallest element. */
  lemma {:induction false} LeastExists(s: set<string>)
    requires s != {}
    ensures exists m :: IsLeast(m, s)
    decreases |s|
  {
    var y :| y in s;
    var rest := s - {y};
    if rest == {} {
      assert s == {y};
      assert IsLeast(y, s);
    } else {
      LeastExists(rest);
      var m :| IsLeast(m, rest);
      if Less(y, m) {
        forall x | x in s && x != y
          ensures Less(y, x)
        {
          if x != m {
            LessTransitive(y, m, x);
          }
        }
        assert IsLeast(y, s);
      } else {
        LessTotal(y, m);
        assert IsLeast(m, s);
      }
    }
  }

  /** Putting the least element of `s` in front of an ascending listing of the others lists `s`. */
  lemma ConsLeast(m: string, s: set<string>, t: seq<string>)
    requires IsLeast(m, s)
    requires StrictlyAscending(t) && Elems(t) == s - {m} && |t| == |s - {m}|
    ensures StrictlyAscending([m] + t) && Elems([m] + t) == s && |[m] + t| == |s|
  {
    assert Elems([m] + t) == {m} + Elems(t);
    assert forall i :: 0 <= i < |t| ==> t[i] in s - {m};
  }

  /** The ascending listing of a finite set of strings, as `sorted` returns it. */
  ghost function SortedListing(s: set<string>): (r: seq<string>)
    ensures StrictlyAscending(r)
    ensures Elems(r) == s
    ensures |r| == |s|
    decreases |s|
  {
    if s == {} then []
    else
      LeastExists(s);
      var m :| IsLeast(m, s);
      var t := SortedListing(s - {m});
      ConsLeast(m, s, t);
      [m] + t
  }

  /** Two ascending listings of the same elements are the same list: sorting a set has one answer. */
  lemma {:induction false} ListingUnique(a: seq<string>, b: seq<string>)
    requires StrictlyAscending(a) && StrictlyAscending(b)
    requires Elems(a) == Elems(b)
    ensures a == b
    decreases |a|
  {
    if a == [] {
      AscendingIsDistinct(b);
      DistinctCardinality(b);
    } else {
      assert a[0] in Elems(b);
      assert b != [] && b[0] in Elems(a);
      if a[0] != b[0] {
        var j :| 0 <= j < |a| && a[j] == b[0];
        var k :| 0 <= k < |b| && b[k] == a[0];
        assert Less(a[0], b[0]) && Less(b[0], a[0]);
        LessAsymmetric(a[0], b[0]);
      }
      AscendingIsDistinct(a);
      AscendingIsDistinct(b);
      assert a == [a[0]] + a[1..] && b == [b[0]] + b[1..];
      assert Elems(a[1..]) == Elems(a) - {a[0]};
      assert Elems(b[1..]) == Elems(b) - {b[0]};
      ListingUnique(a[1..], b[1..]);
    }
  }

  /** One pass over `s` keeping the smallest string seen so far. */
  method Least(s: set<string>) returns (m: string)
    requires s != {}
    ensures IsLeast(m, s)
  {
    m :| m in s;
    var rest := s - {m};
    while rest != {}
      invariant rest <= s && m in s && m !in rest
      invariant forall x :: x in s - rest && x != m ==> Less(m, x)
      decreases |rest|
    {
      var x :| x in rest;
      if Less(x, m) {
        forall y | y in s - rest && y != x
          ensures Less(x, y)
        {
          if y != m {
            LessTransitive(x, m, y);
          }
        }
        m := x;
      } else {
        LessTotal(x, m);
      }
      rest := rest - {x};
    }
  }

  /**
    Part way through sorting `s`: `r` lists the smallest elements in ascending
    order and `rest` holds the others, all of them larger.
  */
  ghost predicate SortedSoFar(r: seq<string>, rest: set<string>, s: set<string>)
  {
    && Elems(r) + rest == s
    && Elems(r) !! rest
    && StrictlyAscending(r)
    && forall i, x :: 0 <= i < |r| && x in rest ==> Less(r[i], x)
  }

  /** Moving the least remaining element to the end of the listing keeps `SortedSoFar`. */
  lemma AppendLeast(r: seq<string>, rest: set<string>, s: set<string>, m: string)
    requires SortedSoFar(r, rest, s)
    requires IsLeast(m, rest)
    ensures SortedSoFar(r + [m], rest - {m}, s)
  {
    assert Elems(r + [m]) == Elems(r) + {m};
  }

  /** `sorted(s)` for a set of strings: its unique ascending listing. */
  method Sort(s: set<string>) returns (r: seq<string>)
    ensures r == SortedListing(s)
  {
    r := [];
    var rest := s;
    while rest != {}
      invariant SortedSoFar(r, rest, s)
      decreases |rest|
    {
      var m := Least(rest);
      AppendLeast(r, rest, s, m);
      r := r + [m];
      rest := rest - {m};
    }
    ListingUnique(r, SortedListing(s));
  }
}
