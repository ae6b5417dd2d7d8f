/** `parse_flags`: the compiler flags a build log yields, with the number of
    log lines used and skipped. The log is given as its sequence of lines
    (rewinding the file and reading it are not modelled), and the path prefix
    for relative includes as a string. */
module ConfigGen {
  import opened Ordering
  import opened Tokenizer
  import opened Patterns
  import opened Flags
  import opened Scan
  import opened Resolve

  /** The flags always put in front: the file is compiled as C++11. */
  const CppExtraFlags: seq<Flag> := [Bare("-x"), Bare("c++"), Bare("-std=c++11")]

  /** The flag set `parse_flags` sorts: the scanned set after the word-size
      pass, plus one flag per recorded macro. */
  ghost function FinalFlags(log: seq<string>, prefix: string): set<Flag>
  {
    var acc := ScanLog(log, prefix).acc;
    WordSizeReduced(acc.flags) + MacroFlags(acc.defines)
  }

  method ParseFlags(log: seq<string>, prefix: string) returns (lineCount: nat, skipCount: nat, flags: seq<Flag>)
    ensures lineCount + skipCount == |log|
    ensures skipCount == CountSkipped(log)
    ensures |flags| == |CppExtraFlags| + |FinalFlags(log, prefix)|
    ensures flags[..|CppExtraFlags|] == CppExtraFlags
    ensures StrictlyIncreasing(flags[|CppExtraFlags|..])
    ensures forall i, j :: |CppExtraFlags| <= i < j < |flags| && flags[i].Pair? ==> flags[j].Pair?
    ensures forall f :: f in flags[|CppExtraFlags|..] <==> f in FinalFlags(log, prefix)
    ensures forall i, j :: 0 <= i < j < |flags| ==> flags[i] != flags[j]
  {
    lineCount, skipCount := 0, 0;
    var found: set<Flag> := {};
    var defineFlags: map<string, seq<string>> := map[];
    for k := 0 to |log|
      invariant ScanLog(log[..k], prefix) == ScanState(lineCount, skipCount, Acc(found, defineFlags))
    {
      var line := log[k];
      assert log[..k + 1][..k] == log[..k];
      if TempOutput(line) {
        skipCount := skipCount + 1;
        continue;
      }
      lineCount := lineCount + 1;
      var words := SplitFlags(line);
      ghost var start := Acc(found, defineFlags);
      TokensUpToStart(start, words, prefix);
      for i := 0 to |words|
        invariant TokensUpTo(start, words, i, prefix) == Acc(found, defineFlags)
      {
        TokensUpToStep(start, words, i, prefix);
        found, defineFlags := ScanToken(found, defineFlags, words, i, prefix);
      }
    }
    assert log[..|log|] == log;
    LineAccounting(log, prefix);
    var reduced := ReduceWordSize(found);
    var all := ResolveMacros(reduced, defineFlags);
    var sorted := SortFlags(all);
    flags := CppExtraFlags + sorted;
    assert flags[..|CppExtraFlags|] == CppExtraFlags && flags[|CppExtraFlags|..] == sorted;
    ExtraFlagsNotFinal(log, prefix);
    PrefixedNoDuplicates(sorted);
    BareBeforePairs(sorted);
  }

  /** Putting the leading flags before an ordered list that holds none of
      them gives a list without duplicates. */
  lemma PrefixedNoDuplicates(sorted: seq<Flag>)
    requires StrictlyIncreasing(sorted)
    requires forall f :: f in CppExtraFlags ==> f !in sorted
    ensures forall i, j :: 0 <= i < j < |CppExtraFlags + sorted| ==> (CppExtraFlags + sorted)[i] != (CppExtraFlags + sorted)[j]
  {
    var flags := CppExtraFlags + sorted;
    StrictlyIncreasingNoDuplicates(sorted);
    forall i, j | 0 <= i < j < |flags|
      ensures flags[i] != flags[j]
    {
      if i < 3 && j >= 3 {
        assert flags[i] in CppExtraFlags && flags[j] == sorted[j - 3];
      } else if j >= 3 {
        assert flags[i] == sorted[i - 3] && flags[j] == sorted[j - 3];
      }
    }
  }

  /** The body of the loop over the tokens of a line: token `i` is dropped
      unless it starts with `-` and passes the whitelist; a macro definition
      is recorded in the dictionary; any other token is added to the set,
      paired with the next token as a joined path, rewritten when it is a
      glued `-I<path>`, or as it is. */
  method ScanToken(found: set<Flag>, defineFlags: map<string, seq<string>>, words: seq<string>, i: nat, prefix: string)
    returns (found': set<Flag>, defineFlags': map<string, seq<string>>)
    requires i < |words| && AllNonEmpty(words)
    ensures Acc(found', defineFlags') == TokenStep(Acc(found, defineFlags), words, i, prefix)
  {
    found', defineFlags' := found, defineFlags;
    var word := words[i];
    if word[0] != '-' || !Whitelisted(word) {
      return;
    }
    // macro definitions
    var m := MatchDefine(word);
    if m.Some? {
      var name, value := m.value.name, m.value.value;
      if name !in defineFlags {
        defineFlags' := defineFlags[name := [value]];
      } else if value !in defineFlags[name] {
        defineFlags' := defineFlags[name := defineFlags[name] + [value]];
      }
      return;
    }
    // an option with its path argument, as a pair
    if i != |words| - 1 && word in FilenameFlags && words[i + 1][0] != '-' {
      var p := PathJoin(prefix, words[i + 1]);
      if !InvalidInclude(p) {
        found' := found + {Pair(word, p)};
      }
    } else if StartsWith(word, "-I") {
      var opt := word[0..2];
      var p := PathJoin(prefix, word[2..]);
      if !InvalidInclude(p) {
        found' := found + {Bare(opt + p)};
      }
    } else {
      found' := found + {Bare(word)};
    }
  }

  // ---------------------------------------------------------------------------
  // Properties of the result

  /** The sorted part of the result is the only strictly increasing list of
      the final set, so the result does not depend on set iteration order. */
  lemma ResultDeterministic(log: seq<string>, prefix: string, a: seq<Flag>, b: seq<Flag>)
    requires StrictlyIncreasing(a) && forall f :: f in a <==> f in FinalFlags(log, prefix)
    requires StrictlyIncreasing(b) && forall f :: f in b <==> f in FinalFlags(log, prefix)
    ensures a == b
  {
    SortedUnique(a, b);
  }

  /** Every flag of the final set is a whitelisted option, a rewritten
      `-I<path>` whose path passed the invalid-path check, or a path-taking
      option other than `-o` paired with a path that passed it. */
  lemma FinalShape(log: seq<string>, prefix: string)
    ensures forall s :: Bare(s) in FinalFlags(log, prefix) ==>
      (StartsWith(s, "-I") && !InvalidInclude(s[2..])) || (Whitelisted(s) && !StartsWith(s, "-I"))
    ensures forall o, p :: Pair(o, p) in FinalFlags(log, prefix) ==>
      o in FilenameFlags && o != "-o" && !InvalidInclude(p)
  {
    var acc := ScanLog(log, prefix).acc;
    WordSizeReducedSpec(acc.flags);
    ScanFlagsShape(log, prefix);
    forall s | Bare(s) in MacroFlags(acc.defines)
      ensures Whitelisted(s) && !StartsWith(s, "-I")
    {
      var n :| n in acc.defines && s == FormatDefine(n, ChosenValue(acc.defines[n]));
      assert ChosenValue(acc.defines[n]) in acc.defines[n];
      MacroFlagWhitelisted(n, ChosenValue(acc.defines[n]));
    }
    forall s | Bare(s) in acc.flags
      ensures (StartsWith(s, "-I") && !InvalidInclude(s[2..])) || (Whitelisted(s) && !StartsWith(s, "-I"))
    {
      assert GoodFlag(Bare(s));
    }
  }

  /** Nothing the whitelist turns away on sight reaches the final set. */
  lemma FinalNotTurnedAway(log: seq<string>, prefix: string)
    ensures forall s :: Bare(s) in FinalFlags(log, prefix) ==> !TurnedAway(s)
  {
    FinalShape(log, prefix);
    forall s | Bare(s) in FinalFlags(log, prefix)
      ensures !TurnedAway(s)
    {
      NotTurnedAway(s);
    }
  }

  /** A macro flag with a well-formed value passes the whitelist and is no
      `-I` flag. */
  lemma MacroFlagWhitelisted(name: string, value: string)
    requires ValidDefine(Define(name, value))
    ensures Whitelisted(FormatDefine(name, value)) && !StartsWith(FormatDefine(name, value), "-I")
  {
    var s := FormatDefine(name, value);
    assert s[0] == '-' && s[1] == 'D';
    assert s[2..] == name + "=" + value;
    assert NoNewline(name);
    assert NoNewline(s[2..]);
  }

  /** None of the three leading flags can pass the whitelist, so none of
      them also appears in the sorted part. */
  lemma ExtraFlagsNotFinal(log: seq<string>, prefix: string)
    ensures forall f :: f in CppExtraFlags ==> f.Bare? && TurnedAway(f.s) && !Whitelisted(f.s)
    ensures forall f :: f in CppExtraFlags ==> f !in FinalFlags(log, prefix)
  {
    assert "-x"[1] !in "iIDFWnsm";
    assert "c++"[0] != '-';
    assert StartsWith("-std=c++11", "-std=");
    WhitelistRejects("-x");
    WhitelistRejects("c++");
    WhitelistRejects("-std=c++11");
    FinalNotTurnedAway(log, prefix);
  }

  /** The final set holds at most one word-size flag, and when the scan found
      any, it is the largest of them under string comparison. */
  lemma FinalWordSize(log: seq<string>, prefix: string)
    ensures |WordSizes(FinalFlags(log, prefix))| <= 1
    ensures var w := WordSizes(ScanLog(log, prefix).acc.flags);
      w != {} ==> WordSizes(FinalFlags(log, prefix)) == {Largest(w)}
  {
    var acc := ScanLog(log, prefix).acc;
    var reduced := WordSizeReduced(acc.flags);
    WordSizeReducedSpec(acc.flags);
    MacroFlagsNoWordSize(acc.defines);
    WordSizesUnion(reduced, MacroFlags(acc.defines));
  }

  /** Every recorded macro name gives exactly one flag of the final set that
      the define pattern reads as a definition of that name, with the least
      of its recorded values; an unrecorded name gives none. */
  lemma FinalMacros(log: seq<string>, prefix: string, name: string)
    ensures var defines := ScanLog(log, prefix).acc.defines;
      forall s :: Bare(s) in FinalFlags(log, prefix) && MatchDefine(s).Some? && MatchDefine(s).value.name == name <==>
        name in defines && s == FormatDefine(name, ChosenValue(defines[name]))
  {
    var acc := ScanLog(log, prefix).acc;
    WordSizeReducedSpec(acc.flags);
    ScanFlagsShape(log, prefix);
    MacroExactlyOne(acc.defines, name);
  }
}
