/** Accepted flags and the order `sorted` puts them in.

    `parse_flags` keeps bare flags as strings and option/path pairs as
    2-tuples in one set. Python 2 orders a string before any tuple (values of
    different types compare by type name, and "str" < "tuple"); strings
    compare lexicographically, tuples element by element. */
module Flags {
  import opened Ordering

  datatype Flag = Bare(s: string) | Pair(opt: string, path: string)

  predicate FlagLess(a: Flag, b: Flag)
  {
    match (a, b)
    case (Bare(x), Bare(y)) => StrLess(x, y)
    case (Bare(_), Pair(_, _)) => true
    case (Pair(_, _), Bare(_)) => false
    case (Pair(o1, p1), Pair(o2, p2)) => StrLess(o1, o2) || (o1 == o2 && StrLess(p1, p2))
  }

  lemma FlagLessIrreflexive(a: Flag)
    ensures !FlagLess(a, a)
  {
    match a
    case Bare(x) => StrLessIrreflexive(x);
    case Pair(o, p) => StrLessIrreflexive(o); StrLessIrreflexive(p);
  }

  lemma FlagLessTransitive(a: Flag, b: Flag, c: Flag)
    requires FlagLess(a, b) && FlagLess(b, c)
    ensures FlagLess(a, c)
  {
    match (a, b, c)
    case (Bare(x), Bare(y), Bare(z)) => StrLessTransitive(x, y, z);
    case (Pair(o1, p1), Pair(o2, p2), Pair(o3, p3)) =>
      if StrLess(o1, o2) && StrLess(o2, o3) {
        StrLessTransitive(o1, o2, o3);
      } else if o1 == o2 && o2 == o3 {
        StrLessTransitive(p1, p2, p3);
      }
    case _ =>
  }

  lemma FlagLessTotal(a: Flag, b: Flag)
    requires a != b
    ensures FlagLess(a, b) || FlagLess(b, a)
  {
    match (a, b)
    case (Bare(x), Bare(y)) => StrLessTotal(x, y);
    case (Pair(o1, p1), Pair(o2, p2)) =>
      if o1 != o2 {
        StrLessTotal(o1, o2);
      } else {
        StrLessTotal(p1, p2);
      }
    case _ =>
  }

  lemma FlagLessAsymmetric(a: Flag, b: Flag)
    requires FlagLess(a, b)
    ensures !FlagLess(b, a)
  {
    if FlagLess(b, a) {
      FlagLessTransitive(a, b, a);
      FlagLessIrreflexive(a);
    }
  }

  /** Ordered and free of duplicates. */
  predicate StrictlyIncreasing(r: seq<Flag>)
  {
    forall i, j :: 0 <= i < j < |r| ==> FlagLess(r[i], r[j])
  }

  lemma StrictlyIncreasingNoDuplicates(r: seq<Flag>)
    requires StrictlyIncreasing(r)
    ensures forall i, j :: 0 <= i < j < |r| ==> r[i] != r[j]
  {
    forall i, j | 0 <= i < j < |r|
      ensures r[i] != r[j]
    {
      FlagLessIrreflexive(r[i]);
    }
  }

  /** In an ordered list every bare flag comes before every pair. */
  lemma BareBeforePairs(r: seq<Flag>)
    requires StrictlyIncreasing(r)
    ensures forall i, j :: 0 <= i < j < |r| && r[i].Pair? ==> r[j].Pair?
  {
  }

  /** Puts `f` into its place in an ordered list that does not hold it. */
  function InsertFlag(f: Flag, r: seq<Flag>): (r': seq<Flag>)
    requires StrictlyIncreasing(r) && f !in r
    ensures StrictlyIncreasing(r')
    ensures forall g :: g in r' <==> g == f || g in r
    ensures |r'| == |r| + 1
    decreases |r|
  {
    if r == [] then [f]
    else if FlagLess(f, r[0]) then
      forall k | 0 < k < |r|
        ensures FlagLess(f, r[k])
      {
        FlagLessTransitive(f, r[0], r[k]);
      }
      [f] + r
    else
      FlagLessTotal(f, r[0]);
      var t := InsertFlag(f, r[1..]);
      assert forall g :: g in r <==> g == r[0] || g in r[1..];
      forall k | 0 <= k < |t|
        ensures FlagLess(r[0], t[k])
      {
        assert t[k] in t;
        if t[k] != f {
          var i :| 0 <= i < |r[1..]| && r[1..][i] == t[k];
          assert r[i + 1] == t[k];
        }
      }
      [r[0]] + t
  }

  /** `sorted(flags)`: the strictly increasing list of the set's elements.
      Only its result is modelled, built here by insertion. */
  method SortFlags(s: set<Flag>) returns (r: seq<Flag>)
    ensures StrictlyIncreasing(r)
    ensures forall f :: f in r <==> f in s
    ensures |r| == |s|
  {
    r := [];
    var rest := s;
    while rest != {}
      invariant rest <= s
      invariant StrictlyIncreasing(r)
      invariant forall f :: f in s <==> f in r || f in rest
      invariant forall f :: f in r ==> f !in rest
      invariant |r| + |rest| == |s|
      decreases |rest|
    {
      var f :| f in rest;
      r := InsertFlag(f, r);
      rest := rest - {f};
    }
  }

  lemma HeadIn(b: seq<Flag>)
    requires b != []
    ensures b[0] in b
  {
  }

  /** Two ordered duplicate-free lists with the same elements are equal:
      `sorted` has only one possible result. */
  lemma {:induction false} SortedUnique(a: seq<Flag>, b: seq<Flag>)
    requires StrictlyIncreasing(a) && StrictlyIncreasing(b)
    requires forall f :: f in a <==> f in b
    ensures a == b
    decreases |a|
  {
    if a == [] {
      if b != [] {
        HeadIn(b);
        assert false;
      }
    } else {
      assert a[0] in b;
      assert b != [];
      assert b[0] in a;
      if a[0] != b[0] {
        var i :| 0 <= i < |a| && a[i] == b[0];
        var j :| 0 <= j < |b| && b[j] == a[0];
        assert FlagLess(a[0], a[i]);
        assert FlagLess(b[0], b[j]);
        FlagLessAsymmetric(a[0], b[0]);
      }
      forall f
        ensures f in a[1..] <==> f in b[1..]
      {
        if f in a[1..] {
          var i :| 1 <= i < |a| && a[i] == f;
          FlagLessIrreflexive(f);
          assert f != a[0];
        }
        if f in b[1..] {
          var j :| 1 <= j < |b| && b[j] == f;
          FlagLessIrreflexive(f);
          assert f != b[0];
        }
        assert f in a <==> f == a[0] || f in a[1..];
        assert f in b <==> f == b[0] || f in b[1..];
      }
      SortedUnique(a[1..], b[1..]);
      assert a == [a[0]] + a[1..] && b == [b[0]] + b[1..];
    }
  }
}
