/** The two passes `parse_flags` makes after the scan: keeping only the
    largest word-size flag, and turning each recorded macro into a single
    `-D<name>=<value>` flag. */
module Resolve {
  import opened Ordering
  import opened Patterns
  import opened Flags

  // ---------------------------------------------------------------------------
  // Word size

  /** A bare flag the word-size pattern `^-m[0-9]+$` matches. */
  predicate IsWordFlag(f: Flag)
  {
    f.Bare? && IsWordSize(f.s)
  }

  /** The word-size flags of a set, as strings. */
  function WordSizes(flags: set<Flag>): set<string>
  {
    set f | f in flags && IsWordFlag(f) :: f.s
  }

  /** The flags of a set that are not word-size flags. */
  function OtherFlags(flags: set<Flag>): set<Flag>
  {
    set f | f in flags && !IsWordFlag(f)
  }

  /** The largest string of a finite non-empty set. Strings are totally
      ordered, so it does not depend on the order `max` visits them in. */
  ghost function Largest(w: set<string>): (m: string)
    requires w != {}
    ensures m in w && forall x :: x in w ==> !StrLess(m, x)
    decreases |w|
  {
    var x :| x in w;
    if w == {x} then
      StrLessIrreflexive(x);
      x
    else
      var m := Largest(w - {x});
      if StrLess(m, x) then
        forall y | y in w
          ensures !StrLess(x, y)
        {
          if y == x {
            StrLessIrreflexive(x);
          } else if StrLess(x, y) {
            StrLessTransitive(m, x, y);
          }
        }
        x
      else
        NotLessIsGreaterOrEqual(m, x);
        m
  }

  /** Any element no other element exceeds is the largest one. */
  lemma LargestUnique(w: set<string>, m: string)
    requires m in w && forall x :: x in w ==> !StrLess(m, x)
    ensures m == Largest(w)
  {
    var l := Largest(w);
    if m != l {
      StrLessTotal(m, l);
    }
  }

  /** The flag set after the word-size pass: when more than one word size
      was collected, all of them are replaced by the largest. */
  ghost function WordSizeReduced(flags: set<Flag>): set<Flag>
  {
    if |WordSizes(flags)| > 1 then OtherFlags(flags) + {Bare(Largest(WordSizes(flags)))}
    else flags
  }

  /** The word-size pass over the flag set. */
  method ReduceWordSize(flags: set<Flag>) returns (r: set<Flag>)
    ensures r == WordSizeReduced(flags)
  {
    // collect the word-size flags of the set, each once
    var wordFlags: seq<string> := [];
    var rest := flags;
    while rest != {}
      invariant rest <= flags
      invariant forall w :: w in wordFlags <==> w in WordSizes(flags - rest)
      invariant NoDup(wordFlags)
      invariant |wordFlags| == |WordSizes(flags - rest)|
      decreases |rest|
    {
      var f :| f in rest;
      ghost var before := WordSizes(flags - rest);
      rest := rest - {f};
      if f.Bare? && IsWordSize(f.s) {
        assert f.s !in before;
        assert WordSizes(flags - rest) == before + {f.s};
        wordFlags := wordFlags + [f.s];
      } else {
        assert WordSizes(flags - rest) == before;
      }
    }
    assert flags - rest == flags;
    r := flags;
    if |wordFlags| > 1 {
      var j := 0;
      while j < |wordFlags|
        invariant j <= |wordFlags|
        invariant forall f :: f in r <==> f in flags && !(f.Bare? && f.s in wordFlags[..j])
      {
        assert Bare(wordFlags[j]) in r by {
          assert wordFlags[j] in WordSizes(flags);
          var g :| g in flags && IsWordFlag(g) && g.s == wordFlags[j];
          assert g == Bare(wordFlags[j]);
          assert forall k :: 0 <= k < j ==> wordFlags[k] != wordFlags[j];
        }
        r := r - {Bare(wordFlags[j])};
        assert wordFlags[..j + 1] == wordFlags[..j] + [wordFlags[j]];
        j := j + 1;
      }
      assert wordFlags[..j] == wordFlags;
      assert r == OtherFlags(flags);
      var m := MaxStr(wordFlags);
      LargestUnique(WordSizes(flags), m);
      r := r + {Bare(m)};
    }
  }

  /** After the pass there is at most one word-size flag; if there was any,
      the one left is the largest of them; every other flag is untouched,
      and no flag is invented. */
  lemma WordSizeReducedSpec(flags: set<Flag>)
    ensures |WordSizes(WordSizeReduced(flags))| <= 1
    ensures WordSizes(flags) != {} ==> WordSizes(WordSizeReduced(flags)) == {Largest(WordSizes(flags))}
    ensures forall f :: !IsWordFlag(f) ==> (f in WordSizeReduced(flags) <==> f in flags)
    ensures WordSizeReduced(flags) <= flags
  {
    var w := WordSizes(flags);
    var r := WordSizeReduced(flags);
    if |w| > 1 {
      var m := Largest(w);
      assert Bare(m) in flags;
      assert IsWordFlag(Bare(m));
      assert WordSizes(r) == {m} by {
        forall x | x in WordSizes(r)
          ensures x == m
        {
          var f :| f in r && IsWordFlag(f) && f.s == x;
        }
        assert m in WordSizes(r) by {
          assert Bare(m) in r;
        }
      }
    } else if |w| == 1 {
      var m := Largest(w);
      assert |w - {m}| == 0;
      assert w == {m};
    } else {
      assert w == {};
    }
  }

  /** Between two word sizes of different lengths the longer one wins even
      when it is numerically smaller: `max` compares strings, so `-m8` beats
      `-m16`. */
  lemma WordSizeIsStringOrder()
    ensures WordSizeReduced({Bare("-m8"), Bare("-m16")}) == {Bare("-m8")}
  {
    var flags := {Bare("-m8"), Bare("-m16")};
    assert IsWordFlag(Bare("-m8")) && IsWordFlag(Bare("-m16"));
    assert WordSizes(flags) == {"-m8", "-m16"};
    assert StrLess("-m16", "-m8");
    LargestUnique(WordSizes(flags), "-m8");
    assert OtherFlags(flags) == {};
  }

  // ---------------------------------------------------------------------------
  // Macros

  /** The value kept for a macro: its only value, or the first after sorting. */
  function ChosenValue(values: seq<string>): (v: string)
    requires values != []
    ensures v in values
    ensures forall x :: x in values ==> !StrLess(x, v)
  {
    if |values| > 1 then
      var sorted := SortStrings(values);
      assert sorted[0] in multiset(values);
      forall x | x in values
        ensures !StrLess(x, sorted[0])
      {
        assert x in multiset(sorted);
        var k :| 0 <= k < |sorted| && sorted[k] == x;
        if k > 0 {
          assert !StrLess(sorted[k], sorted[0]);
        } else {
          StrLessIrreflexive(x);
        }
      }
      sorted[0]
    else
      assert values == [values[0]];
      StrLessIrreflexive(values[0]);
      values[0]
  }

  /** The least value is chosen, not the one seen last: of `foo` and then
      `bar`, `bar` is kept. */
  lemma ChosenValueIsLeast()
    ensures ChosenValue(["foo", "bar"]) == "bar"
  {
    var v := ChosenValue(["foo", "bar"]);
    assert StrLess("bar", "foo");
    if v == "foo" {
      assert "bar" in ["foo", "bar"];
    }
  }

  predicate NonEmptyValues(defines: map<string, seq<string>>)
  {
    forall n :: n in defines ==> defines[n] != []
  }

  /** The macro flags for the names of `names` that the dictionary holds. */
  function MacroFlagsOf(defines: map<string, seq<string>>, names: set<string>): set<Flag>
    requires NonEmptyValues(defines)
  {
    set n | n in names && n in defines :: Bare(FormatDefine(n, ChosenValue(defines[n])))
  }

  /** One `-D<name>=<value>` flag per recorded macro name. */
  function MacroFlags(defines: map<string, seq<string>>): set<Flag>
    requires NonEmptyValues(defines)
  {
    MacroFlagsOf(defines, defines.Keys)
  }

  /** Adding a recorded name adds its one flag. */
  lemma MacroFlagsOfAdd(flags: set<Flag>, defines: map<string, seq<string>>, names: set<string>, name: string)
    requires NonEmptyValues(defines) && name in defines
    ensures flags + MacroFlagsOf(defines, names + {name}) == flags + MacroFlagsOf(defines, names) + {Bare(FormatDefine(name, ChosenValue(defines[name])))}
  {
    assert MacroFlagsOf(defines, names + {name}) == MacroFlagsOf(defines, names) + {Bare(FormatDefine(name, ChosenValue(defines[name])))};
  }

  /** The macro pass: every recorded name adds one flag to the set. */
  method ResolveMacros(flags: set<Flag>, defines: map<string, seq<string>>) returns (r: set<Flag>)
    requires NonEmptyValues(defines)
    ensures r == flags + MacroFlags(defines)
  {
    r := flags;
    var names := defines.Keys;
    ghost var done: set<string> := {};
    while names != {}
      invariant done + names == defines.Keys && done !! names
      invariant r == flags + MacroFlagsOf(defines, done)
      decreases |names|
    {
      var name :| name in names;
      var v := ChosenValue(defines[name]);
      MacroFlagsOfAdd(flags, defines, done, name);
      names := names - {name};
      done := done + {name};
      r := r + {Bare(FormatDefine(name, v))};
    }
  }

  /** No macro flag is a word-size flag: each starts with `-D`. */
  lemma MacroFlagsNoWordSize(defines: map<string, seq<string>>)
    requires NonEmptyValues(defines)
    ensures WordSizes(MacroFlags(defines)) == {}
  {
    forall f | f in MacroFlags(defines)
      ensures !IsWordFlag(f)
    {
      var n :| n in defines && f == Bare(FormatDefine(n, ChosenValue(defines[n])));
      assert f.s[1] == 'D';
      NotWordSize(f.s);
    }
  }

  lemma WordSizesUnion(a: set<Flag>, b: set<Flag>)
    ensures WordSizes(a + b) == WordSizes(a) + WordSizes(b)
  {
  }

  /** Every recorded name with well-formed values yields exactly one macro
      flag; that flag reads back, through the define pattern, as the name
      and the least of its values; and no other flag does. */
  lemma MacroExactlyOne(defines: map<string, seq<string>>, name: string)
    requires NonEmptyValues(defines)
    requires forall n, v :: n in defines && v in defines[n] ==> ValidDefine(Define(n, v))
    ensures forall s :: Bare(s) in MacroFlags(defines) && MatchDefine(s).Some? && MatchDefine(s).value.name == name <==>
      name in defines && s == FormatDefine(name, ChosenValue(defines[name]))
    ensures forall f :: f in MacroFlags(defines) ==>
      f.Bare? && MatchDefine(f.s).Some? && MatchDefine(f.s).value.name in defines
      && MatchDefine(f.s).value.value == ChosenValue(defines[MatchDefine(f.s).value.name])
  {
    forall s | Bare(s) in MacroFlags(defines)
      ensures MatchDefine(s).Some? && MatchDefine(s).value.name in defines
        && s == FormatDefine(MatchDefine(s).value.name, ChosenValue(defines[MatchDefine(s).value.name]))
    {
      var n :| n in defines && s == FormatDefine(n, ChosenValue(defines[n]));
      DefineRoundTrip(Define(n, ChosenValue(defines[n])));
    }
    if name in defines {
      var s := FormatDefine(name, ChosenValue(defines[name]));
      DefineRoundTrip(Define(name, ChosenValue(defines[name])));
      assert Bare(s) in MacroFlags(defines);
    }
  }
}
