/**
 * `sorted(imports)`: Python orders strings lexicographically by code point,
 * a proper prefix first. The order is strict and total, so a set of names has
 * exactly one strictly increasing listing.
 */
module Sorting {
  import opened Tables

  /** `a < b` on Python strings. */
  predicate LexLess(a: string, b: string) {
    if |a| == 0 then |b| > 0
    else if |b| == 0 then false
    else if a[0] != b[0] then a[0] < b[0]
    else LexLess(a[1..], b[1..])
  }

  lemma {:induction false} LexIrreflexive(a: string)
    ensures !LexLess(a, a)
    decreases |a|
  {
    if |a| > 0 {
      LexIrreflexive(a[1..]);
    }
  }

  lemma {:induction false} LexTransitive(a: string, b: string, c: string)
    requires LexLess(a, b) && LexLess(b, c)
    ensures LexLess(a, c)
    decreases |a|
  {
    if |a| > 0 && |b| > 0 && |c| > 0 && a[0] == b[0] && b[0] == c[0] {
      LexTransitive(a[1..], b[1..], c[1..]);
    }
  }

  lemma {:induction false} LexTotal(a: string, b: string)
    requires a != b
    ensures LexLess(a, b) || LexLess(b, a)
    decreases |a|
  {
    if |a| > 0 && |b| > 0 && a[0] == b[0] {
      assert a == [a[0]] + a[1..] && b == [b[0]] + b[1..];
      LexTotal(a[1..], b[1..]);
    }
  }

  lemma LexAsymmetric(a: string, b: string)
    requires LexLess(a, b)
    ensures !LexLess(b, a)
  {
    if LexLess(b, a) {
      LexTransitive(a, b, a);
      LexIrreflexive(a);
    }
  }

  /** Every element comes before every later one. */
  predicate StrictlySorted(xs: seq<Name>) {
    forall i, j :: 0 <= i < j < |xs| ==> LexLess(xs[i], xs[j])
  }

  /** `m` comes before every other element of `s`. */
  predicate IsLeast(m: Name, s: set<Name>) {
    m in s && forall y :: y in s && y != m ==> LexLess(m, y)
  }

  /** A non-empty set of names has a least element. */
  lemma {:induction false} MinExists(s: set<Name>)
    requires s != {}
    ensures exists m :: IsLeast(m, s)
    decreases |s|
  {
    var x :| x in s;
    var rest := s - {x};
    if rest == {} {
      assert s == {x};
      assert IsLeast(x, s);
    } else {
      MinExists(rest);
      var m :| IsLeast(m, rest);
      if LexLess(x, m) {
        forall y | y in s && y != x
          ensures LexLess(x, y)
        {
          if y != m {
            LexTransitive(x, m, y);
          }
        }
        assert IsLeast(x, s);
      } else {
        LexTotal(x, m);
        assert IsLeast(m, s);
      }
    }
  }

  /** Two strictly sorted listings of the same names are the same listing. */
  lemma {:induction false} SortedUnique(xs: seq<Name>, ys: seq<Name>)
    requires StrictlySorted(xs) && StrictlySorted(ys) && Elems(xs) == Elems(ys)
    ensures xs == ys
    decreases |xs|
  {
    ElemsEmpty(xs);
    ElemsEmpty(ys);
    if xs != [] && ys != [] {
      assert xs[0] in Elems(ys) && ys[0] in Elems(xs);
      if xs[0] != ys[0] {
        var i :| 0 <= i < |ys| && ys[i] == xs[0];
        var j :| 0 <= j < |xs| && xs[j] == ys[0];
        LexAsymmetric(xs[0], ys[0]);
      }
      assert Elems(xs[1..]) == Elems(xs) - {xs[0]} by {
        assert xs == [xs[0]] + xs[1..];
        LexIrreflexive(xs[0]);
      }
      assert Elems(ys[1..]) == Elems(ys) - {ys[0]} by {
        assert ys == [ys[0]] + ys[1..];
        LexIrreflexive(ys[0]);
      }
      SortedUnique(xs[1..], ys[1..]);
    }
  }

  /** Every set of names has a strictly sorted listing. */
  lemma {:induction false} SortedExists(s: set<Name>)
    ensures exists xs :: Elems(xs) == s && StrictlySorted(xs)
    decreases |s|
  {
    if s == {} {
      assert Elems([]) == s && StrictlySorted([]);
    } else {
      MinExists(s);
      var m :| IsLeast(m, s);
      SortedExists(s - {m});
      var xs :| Elems(xs) == s - {m} && StrictlySorted(xs);
      ConsSorted(m, xs, s);
    }
  }

  /** The least name in front of a sorted listing of the rest lists the whole set. */
  lemma ConsSorted(m: Name, xs: seq<Name>, s: set<Name>)
    requires IsLeast(m, s) && Elems(xs) == s - {m} && StrictlySorted(xs)
    ensures Elems([m] + xs) == s && StrictlySorted([m] + xs)
  {
    var ys := [m] + xs;
    ElemsCons(m, xs);
    forall i, j | 0 <= i < j < |ys|
      ensures LexLess(ys[i], ys[j])
    {
      assert ys[j] == xs[j - 1];
      if i == 0 {
        assert xs[j - 1] in Elems(xs);
      } else {
        assert ys[i] == xs[i - 1];
      }
    }
  }

  /** The strictly sorted listing of a set of names: what `sorted` returns for it. */
  ghost function SortedListing(s: set<Name>): (xs: seq<Name>)
    ensures Elems(xs) == s && StrictlySorted(xs)
  {
    SortedExists(s);
    var xs :| Elems(xs) == s && StrictlySorted(xs);
    xs
  }

  /**
   * `sorted(s)` for a set: its elements, each once, in increasing order. The
   * result is the only strictly sorted listing of `s` (`SortedUnique`).
   */
  method SortNames(s: set<Name>) returns (xs: seq<Name>)
    ensures Elems(xs) == s && StrictlySorted(xs)
    ensures xs == SortedListing(s)
  {
    xs := [];
    var rest := s;
    while rest != {}
      invariant Elems(xs) + rest == s && Elems(xs) !! rest && StrictlySorted(xs)
      invariant forall i, y :: 0 <= i < |xs| && y in rest ==> LexLess(xs[i], y)
      decreases rest
    {
      MinExists(rest);
      var m :| IsLeast(m, rest);
      ElemsSnoc(xs, m);
      xs := xs + [m];
      rest := rest - {m};
    }
    SortedUnique(xs, SortedListing(s));
  }
}
