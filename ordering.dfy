/** Comparison of strings as Python 2 compares byte strings (`<`), and the two
    builtins the flag scan applies to lists of strings: `max` and `list.sort`. */
module Ordering {

  /** Lexicographic order on characters; a proper prefix sorts first. */
  predicate StrLess(a: string, b: string)
    decreases |a|
  {
    if a == [] then b != []
    else if b == [] then false
    else if a[0] != b[0] then a[0] < b[0]
    else StrLess(a[1..], b[1..])
  }

  lemma {:induction false} StrLessIrreflexive(a: string)
    ensures !StrLess(a, a)
    decreases |a|
  {
    if a != [] {
      StrLessIrreflexive(a[1..]);
    }
  }

  lemma {:induction false} StrLessTransitive(a: string, b: string, c: string)
    requires StrLess(a, b) && StrLess(b, c)
    ensures StrLess(a, c)
    decreases |a|
  {
    if a != [] && a[0] == b[0] && b[0] == c[0] {
      StrLessTransitive(a[1..], b[1..], c[1..]);
    }
  }

  lemma {:induction false} StrLessTotal(a: string, b: string)
    requires a != b
    ensures StrLess(a, b) || StrLess(b, a)
    decreases |a|
  {
    if a != [] && b != [] && a[0] == b[0] {
      assert a == [a[0]] + a[1..] && b == [b[0]] + b[1..];
      StrLessTotal(a[1..], b[1..]);
    }
  }

  lemma StrLessAsymmetric(a: string, b: string)
    requires StrLess(a, b)
    ensures !StrLess(b, a)
  {
    if StrLess(b, a) {
      StrLessTransitive(a, b, a);
      StrLessIrreflexive(a);
    }
  }

  /** `a` is below-or-equal to `b`. */
  lemma NotLessIsGreaterOrEqual(a: string, b: string)
    requires !StrLess(a, b)
    ensures a == b || StrLess(b, a)
  {
    if a != b {
      StrLessTotal(a, b);
    }
  }

  predicate NoDup(s: seq<string>)
  {
    forall i, j :: 0 <= i < j < |s| ==> s[i] != s[j]
  }

  /** If `last` is above `m` and `m` is above every element of `ws`, so is `last`. */
  lemma AboveAll(m: string, last: string, ws: seq<string>)
    requires forall w :: w in ws ==> !StrLess(m, w)
    requires StrLess(m, last)
    ensures forall w :: w in ws ==> !StrLess(last, w)
  {
    forall w | w in ws
      ensures !StrLess(last, w)
    {
      NotLessIsGreaterOrEqual(m, w);
      if w != m {
        StrLessTransitive(w, m, last);
      }
      StrLessAsymmetric(w, last);
    }
  }

  /** Python's `max` over a list: the first element no other element exceeds. */
  function MaxStr(ws: seq<string>): (m: string)
    requires ws != []
    ensures m in ws
    ensures forall w :: w in ws ==> !StrLess(m, w)
    decreases |ws|
  {
    if |ws| == 1 then
      StrLessIrreflexive(ws[0]);
      ws[0]
    else
      var m := MaxStr(ws[..|ws| - 1]);
      var last := ws[|ws| - 1];
      assert ws == ws[..|ws| - 1] + [last];
      if StrLess(m, last) then
        AboveAll(m, last, ws[..|ws| - 1]);
        StrLessIrreflexive(last);
        last
      else
        m
  }

  predicate SortedStrs(s: seq<string>)
  {
    forall i, j :: 0 <= i < j < |s| ==> !StrLess(s[j], s[i])
  }

  /** `x` is below-or-equal to every element of `s`. */
  lemma BelowAll(x: string, s: seq<string>)
    requires SortedStrs(s) && s != [] && !StrLess(s[0], x)
    ensures forall k :: 0 <= k < |s| ==> !StrLess(s[k], x)
  {
    forall k | 0 <= k < |s|
      ensures !StrLess(s[k], x)
    {
      if k > 0 {
        NotLessIsGreaterOrEqual(s[k], s[0]);
        if StrLess(s[k], x) && s[k] != s[0] {
          StrLessTransitive(s[0], s[k], x);
        }
      }
    }
  }

  /** The elements of the list `InsertStr(x, s[1..])` built, like `x`, are
      not below the head of `s`. */
  lemma InsertedAbove(s: seq<string>, x: string, t: seq<string>)
    requires SortedStrs(s) && s != [] && StrLess(s[0], x)
    requires multiset(t) == multiset(s[1..]) + multiset{x}
    ensures forall k :: 0 <= k < |t| ==> !StrLess(t[k], s[0])
  {
    forall k | 0 <= k < |t|
      ensures !StrLess(t[k], s[0])
    {
      assert t[k] in multiset(t);
      if t[k] == x {
        StrLessAsymmetric(s[0], x);
      } else {
        assert t[k] in s[1..];
        var i :| 0 <= i < |s[1..]| && s[1..][i] == t[k];
        assert s[i + 1] == t[k];
      }
    }
  }

  function InsertStr(x: string, s: seq<string>): (r: seq<string>)
    requires SortedStrs(s)
    ensures SortedStrs(r)
    ensures multiset(r) == multiset(s) + multiset{x}
    decreases |s|
  {
    if s == [] then [x]
    else if !StrLess(s[0], x) then
      BelowAll(x, s);
      [x] + s
    else
      var t := InsertStr(x, s[1..]);
      assert s == [s[0]] + s[1..];
      StrLessAsymmetric(s[0], x);
      InsertedAbove(s, x, t);
      [s[0]] + t
  }

  /** Python's `list.sort` on strings: an ordered permutation of the list. */
  function SortStrings(s: seq<string>): (r: seq<string>)
    ensures SortedStrs(r)
    ensures multiset(r) == multiset(s)
    decreases |s|
  {
    if s == [] then []
    else
      assert s == [s[0]] + s[1..];
      InsertStr(s[0], SortStrings(s[1..]))
  }
}
