/** The scan loop of `parse_flags` as functions: what one token adds to the
    accepted set and the macro dictionary, what one log line does to the
    counters, and the fold of both over the whole log. The method that runs
    the loop (`ConfigGen.ParseFlags`) is proved against these. */
module Scan {
  import opened Ordering
  import opened Tokenizer
  import opened Patterns
  import opened Flags

  /** The two accumulators of the scan: the set `flags` and the dictionary
      `define_flags` from macro name to its distinct values. */
  datatype Acc = Acc(flags: set<Flag>, defines: map<string, seq<string>>)

  /** `line_count`, `skip_count` and the accumulators. */
  datatype ScanState = ScanState(lineCount: nat, skipCount: nat, acc: Acc)

  predicate AllNonEmpty(ws: seq<string>)
  {
    forall k :: 0 <= k < |ws| ==> ws[k] != []
  }

  /** `word[0] == '-' and flags_whitelist.match(word)`. */
  predicate Accepted(w: string)
    requires w != []
  {
    w[0] == '-' && Whitelisted(w)
  }

  /** The option takes the next token as its path argument. */
  predicate IsPairForm(ws: seq<string>, i: nat)
    requires i < |ws| && AllNonEmpty(ws)
  {
    i != |ws| - 1 && ws[i] in FilenameFlags && ws[i + 1][0] != '-'
  }

  /** The macro definition token `i` records, if any. */
  function DefineAt(ws: seq<string>, i: nat): Option<Define>
    requires i < |ws| && AllNonEmpty(ws)
  {
    if Accepted(ws[i]) then MatchDefine(ws[i]) else None
  }

  /** What token `i` of a line adds to the accepted set. */
  function Contribution(ws: seq<string>, i: nat, prefix: string): set<Flag>
    requires i < |ws| && AllNonEmpty(ws)
  {
    var w := ws[i];
    if !Accepted(w) || MatchDefine(w).Some? then {}
    else if IsPairForm(ws, i) then
      var p := PathJoin(prefix, ws[i + 1]);
      if InvalidInclude(p) then {} else {Pair(w, p)}
    else if StartsWith(w, "-I") then
      var p := PathJoin(prefix, w[2..]);
      if InvalidInclude(p) then {} else {Bare("-I" + p)}
    else {Bare(w)}
  }

  /** `define_flags` after seeing `-D<name>=<value>`: the value is appended to
      the name's list unless that list already holds it. */
  function Record(defines: map<string, seq<string>>, d: Define): map<string, seq<string>>
  {
    if d.name !in defines then defines[d.name := [d.value]]
    else if d.value !in defines[d.name] then defines[d.name := defines[d.name] + [d.value]]
    else defines
  }

  /** Recording adds the name if new; the name then holds exactly its old
      values and the new one, appended only when it was missing; every other
      name is untouched. */
  lemma RecordSpec(defines: map<string, seq<string>>, d: Define)
    ensures var r := Record(defines, d);
      && r.Keys == defines.Keys + {d.name}
      && (forall n, v :: n in r && v in r[n] <==> (n in defines && v in defines[n]) || (n == d.name && v == d.value))
      && (forall n :: n in defines ==> defines[n] <= r[n])
      && (forall n :: n in defines && n != d.name ==> r[n] == defines[n])
      && (d.name in defines && NoDup(defines[d.name]) ==> NoDup(r[d.name]))
      && r[d.name] != []
  {
  }

  /** `define_flags` after a token that may or may not define a macro. */
  function RecordOpt(defines: map<string, seq<string>>, od: Option<Define>): map<string, seq<string>>
  {
    match od
    case Some(d) => Record(defines, d)
    case None => defines
  }

  /** The accumulators after processing token `i` of a line. */
  function TokenStep(acc: Acc, ws: seq<string>, i: nat, prefix: string): Acc
    requires i < |ws| && AllNonEmpty(ws)
  {
    Acc(acc.flags + Contribution(ws, i, prefix), RecordOpt(acc.defines, DefineAt(ws, i)))
  }

  // ---------------------------------------------------------------------------
  // What the accumulators may hold

  /** A flag the scan can add: a rewritten `-I` path that survived the
      invalid-path check, a whitelisted token that is no macro definition,
      or a path-taking option with a surviving path. */
  predicate GoodFlag(f: Flag)
  {
    match f
    case Bare(s) =>
      || (StartsWith(s, "-I") && !InvalidInclude(s[2..]))
      || (!StartsWith(s, "-I") && Whitelisted(s) && MatchDefine(s).None?)
    case Pair(o, p) => o in FilenameFlags && Whitelisted(o) && !InvalidInclude(p)
  }

  /** Every recorded name holds a non-empty list of distinct values, each
      of which the define regex could have captured for it. */
  predicate GoodDefines(defines: map<string, seq<string>>)
  {
    forall n :: n in defines ==>
      && defines[n] != []
      && NoDup(defines[n])
      && forall v :: v in defines[n] ==> ValidDefine(Define(n, v))
  }

  predicate GoodAcc(acc: Acc)
  {
    (forall f :: f in acc.flags ==> GoodFlag(f)) && GoodDefines(acc.defines)
  }

  lemma ContributionGood(ws: seq<string>, i: nat, prefix: string)
    requires i < |ws| && AllNonEmpty(ws)
    ensures forall f :: f in Contribution(ws, i, prefix) ==> GoodFlag(f)
  {
    var w := ws[i];
    if Accepted(w) && MatchDefine(w).None? && !IsPairForm(ws, i) && StartsWith(w, "-I") {
      var p := PathJoin(prefix, w[2..]);
      assert ("-I" + p)[..2] == "-I" && ("-I" + p)[2..] == p;
    }
  }

  /** Recording a well-formed definition keeps the dictionary good. */
  lemma RecordGood(defines: map<string, seq<string>>, d: Define)
    requires GoodDefines(defines) && ValidDefine(d)
    ensures GoodDefines(Record(defines, d))
  {
    var r := Record(defines, d);
    forall n | n in r
      ensures r[n] != [] && NoDup(r[n]) && forall v :: v in r[n] ==> ValidDefine(Define(n, v))
    {
      if n == d.name && d.name !in defines {
        assert r[n] == [d.value];
      }
    }
  }

  // ---------------------------------------------------------------------------
  // Folding over the tokens of a line and over the lines of the log

  /** The accumulators after the first `n` tokens of a line: the starting
      set with those tokens' contributions added, and the starting dictionary
      with their definitions recorded in order. `TokensUpToStep` shows this
      is what running `TokenStep` over the tokens one by one gives. */
  function TokensUpTo(acc: Acc, ws: seq<string>, n: nat, prefix: string): Acc
    requires n <= |ws| && AllNonEmpty(ws)
  {
    Acc(acc.flags + UnionOf(ContribsUpTo(ws, n, prefix)), RecordAll(acc.defines, DefsUpTo(ws, n)))
  }

  /** Before any token nothing has changed. */
  lemma TokensUpToStart(acc: Acc, ws: seq<string>, prefix: string)
    requires AllNonEmpty(ws)
    ensures TokensUpTo(acc, ws, 0, prefix) == acc
  {
  }

  /** One more token is one more `TokenStep`. */
  lemma TokensUpToStep(acc: Acc, ws: seq<string>, i: nat, prefix: string)
    requires i < |ws| && AllNonEmpty(ws)
    ensures TokensUpTo(acc, ws, i + 1, prefix) == TokenStep(TokensUpTo(acc, ws, i, prefix), ws, i, prefix)
  {
    var cs := ContribsUpTo(ws, i + 1, prefix);
    assert cs[..i] == ContribsUpTo(ws, i, prefix) && cs[i] == Contribution(ws, i, prefix);
    assert UnionOf(cs) == UnionOf(ContribsUpTo(ws, i, prefix)) + Contribution(ws, i, prefix);
    var ds := DefsUpTo(ws, i + 1);
    assert ds[..i] == DefsUpTo(ws, i) && ds[i] == DefineAt(ws, i);
    assert RecordAll(acc.defines, ds) == RecordOpt(RecordAll(acc.defines, DefsUpTo(ws, i)), DefineAt(ws, i));
  }

  /** One iteration of the loop over the build log. */
  function LineStep(st: ScanState, line: string, prefix: string): ScanState
  {
    if TempOutput(line) then ScanState(st.lineCount, st.skipCount + 1, st.acc)
    else
      var ws := Tokens(line);
      ScanState(st.lineCount + 1, st.skipCount, TokensUpTo(st.acc, ws, |ws|, prefix))
  }

  /** The scan state after the whole log. */
  function ScanLog(log: seq<string>, prefix: string): (st: ScanState)
    ensures GoodAcc(st.acc)
    decreases |log|
  {
    if log == [] then ScanState(0, 0, Acc({}, map[]))
    else
      var st := ScanLog(log[..|log| - 1], prefix);
      var line := log[|log| - 1];
      TokensUpToGood(st.acc, Tokens(line), |Tokens(line)|, prefix);
      LineStep(st, line, prefix)
  }

  /** Number of log lines the skip rule matches. */
  function CountSkipped(log: seq<string>): nat
    decreases |log|
  {
    if log == [] then 0
    else CountSkipped(log[..|log| - 1]) + (if TempOutput(log[|log| - 1]) then 1 else 0)
  }

  // ---------------------------------------------------------------------------
  // Properties of the scan

  /** Every line lands in exactly one counter, and the skip counter counts
      exactly the lines the skip rule matches. */
  lemma {:induction false} LineAccounting(log: seq<string>, prefix: string)
    ensures ScanLog(log, prefix).lineCount + ScanLog(log, prefix).skipCount == |log|
    ensures ScanLog(log, prefix).skipCount == CountSkipped(log)
    decreases |log|
  {
    if log != [] {
      LineAccounting(log[..|log| - 1], prefix);
    }
  }

  /** What one token adds: at most one flag; a pair only in pair form, with
      the next token joined to the prefix; a glued `-I<path>` rewritten to
      `-I` and the joined path; any other accepted token unchanged; and
      nothing whose joined path the invalid-path pattern matches. */
  lemma ContributionShape(ws: seq<string>, i: nat, prefix: string)
    requires i < |ws| && AllNonEmpty(ws)
    ensures |Contribution(ws, i, prefix)| <= 1
    ensures forall o, p :: Pair(o, p) in Contribution(ws, i, prefix) <==>
      && Accepted(ws[i]) && IsPairForm(ws, i) && o == ws[i]
      && p == PathJoin(prefix, ws[i + 1]) && !InvalidInclude(p)
    ensures forall s :: Bare(s) in Contribution(ws, i, prefix) && StartsWith(ws[i], "-I") <==>
      && Accepted(ws[i]) && !IsPairForm(ws, i) && StartsWith(ws[i], "-I")
      && s == "-I" + PathJoin(prefix, ws[i][2..]) && !InvalidInclude(s[2..])
    ensures forall s :: Bare(s) in Contribution(ws, i, prefix) && !StartsWith(ws[i], "-I") <==>
      && Accepted(ws[i]) && !IsPairForm(ws, i) && !StartsWith(ws[i], "-I")
      && MatchDefine(ws[i]).None? && s == ws[i]
    ensures DefineAt(ws, i).Some? ==> Contribution(ws, i, prefix) == {}
  {
    var w := ws[i];
    if w in FilenameFlags {
      FilenameFlagsShape(w);
      assert w[1] != 'D';
    }
    if StartsWith(w, "-I") {
      forall s | s == "-I" + PathJoin(prefix, w[2..])
        ensures s[2..] == PathJoin(prefix, w[2..])
      {
      }
    }
  }

  // ---------------------------------------------------------------------------
  // The scan as folds over per-token results

  /** The contributions of the first `n` tokens of a line, in order. */
  function ContribsUpTo(ws: seq<string>, n: nat, prefix: string): (cs: seq<set<Flag>>)
    requires n <= |ws| && AllNonEmpty(ws)
    ensures |cs| == n
    decreases n
  {
    if n == 0 then [] else ContribsUpTo(ws, n - 1, prefix) + [Contribution(ws, n - 1, prefix)]
  }

  /** The macro definitions of the first `n` tokens of a line, in order. */
  function DefsUpTo(ws: seq<string>, n: nat): (ds: seq<Option<Define>>)
    requires n <= |ws| && AllNonEmpty(ws)
    ensures |ds| == n
    decreases n
  {
    if n == 0 then [] else DefsUpTo(ws, n - 1) + [DefineAt(ws, n - 1)]
  }

  lemma {:induction false} ContribsAt(ws: seq<string>, n: nat, prefix: string, i: nat)
    requires i < n <= |ws| && AllNonEmpty(ws)
    ensures ContribsUpTo(ws, n, prefix)[i] == Contribution(ws, i, prefix)
    decreases n
  {
    if i < n - 1 {
      ContribsAt(ws, n - 1, prefix, i);
    }
  }

  lemma {:induction false} DefsAt(ws: seq<string>, n: nat, i: nat)
    requires i < n <= |ws| && AllNonEmpty(ws)
    ensures DefsUpTo(ws, n)[i] == DefineAt(ws, i)
    decreases n
  {
    if i < n - 1 {
      DefsAt(ws, n - 1, i);
    }
  }

  /** The union of a sequence of sets. */
  function UnionOf(cs: seq<set<Flag>>): set<Flag>
    decreases |cs|
  {
    if cs == [] then {} else UnionOf(cs[..|cs| - 1]) + cs[|cs| - 1]
  }

  lemma {:induction false} UnionOfMembers(cs: seq<set<Flag>>)
    ensures forall f :: f in UnionOf(cs) <==> exists j :: 0 <= j < |cs| && f in cs[j]
    decreases |cs|
  {
    if cs != [] {
      var init := cs[..|cs| - 1];
      UnionOfMembers(init);
      forall f
        ensures f in UnionOf(cs) <==> exists j :: 0 <= j < |cs| && f in cs[j]
      {
        if exists j :: 0 <= j < |cs| && f in cs[j] {
          var j :| 0 <= j < |cs| && f in cs[j];
          if j < |cs| - 1 {
            assert init[j] == cs[j];
          }
        }
        if exists j :: 0 <= j < |init| && f in init[j] {
          var j :| 0 <= j < |init| && f in init[j];
          assert cs[j] == init[j];
        }
      }
    }
  }

  lemma {:induction false} UnionOfAppend(a: seq<set<Flag>>, b: seq<set<Flag>>)
    ensures UnionOf(a + b) == UnionOf(a) + UnionOf(b)
    decreases |b|
  {
    if b == [] {
      assert a + b == a;
    } else {
      assert (a + b)[..|a + b| - 1] == a + b[..|b| - 1];
      UnionOfAppend(a, b[..|b| - 1]);
    }
  }

  /** `define_flags` after recording a sequence of token definitions. */
  function RecordAll(defines: map<string, seq<string>>, ds: seq<Option<Define>>): map<string, seq<string>>
    decreases |ds|
  {
    if ds == [] then defines else RecordOpt(RecordAll(defines, ds[..|ds| - 1]), ds[|ds| - 1])
  }

  /** A name holds a value after recording exactly when it held it before or
      one of the definitions gives it that value. */
  lemma {:induction false} RecordAllMembers(defines: map<string, seq<string>>, ds: seq<Option<Define>>)
    ensures forall name, v :: (name in RecordAll(defines, ds) && v in RecordAll(defines, ds)[name]) <==>
      (name in defines && v in defines[name]) || exists j :: 0 <= j < |ds| && ds[j] == Some(Define(name, v))
    decreases |ds|
  {
    if ds != [] {
      var init := ds[..|ds| - 1];
      RecordAllMembers(defines, init);
      forall name, v
        ensures (name in RecordAll(defines, ds) && v in RecordAll(defines, ds)[name]) <==>
          (name in defines && v in defines[name]) || exists j :: 0 <= j < |ds| && ds[j] == Some(Define(name, v))
      {
        if exists j :: 0 <= j < |ds| && ds[j] == Some(Define(name, v)) {
          var j :| 0 <= j < |ds| && ds[j] == Some(Define(name, v));
          if j < |ds| - 1 {
            assert init[j] == ds[j];
          }
        }
        if exists j :: 0 <= j < |init| && init[j] == Some(Define(name, v)) {
          var j :| 0 <= j < |init| && init[j] == Some(Define(name, v));
          assert ds[j] == init[j];
        }
      }
    }
  }

  /** Recording only ever appends: every list after the first `j`
      definitions is a prefix of the list after all of them. */
  lemma {:induction false} RecordAllGrow(defines: map<string, seq<string>>, ds: seq<Option<Define>>, j: nat)
    requires j <= |ds|
    ensures forall name :: name in RecordAll(defines, ds[..j]) ==>
      name in RecordAll(defines, ds) && RecordAll(defines, ds[..j])[name] <= RecordAll(defines, ds)[name]
    decreases |ds|
  {
    if j == |ds| {
      assert ds[..j] == ds;
    } else {
      var init := ds[..|ds| - 1];
      assert init[..j] == ds[..j];
      RecordAllGrow(defines, init, j);
    }
  }

  lemma {:induction false} RecordAllAppend(defines: map<string, seq<string>>, a: seq<Option<Define>>, b: seq<Option<Define>>)
    ensures RecordAll(defines, a + b) == RecordAll(RecordAll(defines, a), b)
    decreases |b|
  {
    if b == [] {
      assert a + b == a;
    } else {
      assert (a + b)[..|a + b| - 1] == a + b[..|b| - 1];
      assert (a + b)[|a + b| - 1] == b[|b| - 1];
      RecordAllAppend(defines, a, b[..|b| - 1]);
    }
  }

  /** Recording well-formed definitions keeps the dictionary good. */
  lemma {:induction false} RecordAllGood(defines: map<string, seq<string>>, ds: seq<Option<Define>>)
    requires GoodDefines(defines)
    requires forall j :: 0 <= j < |ds| && ds[j].Some? ==> ValidDefine(ds[j].value)
    ensures GoodDefines(RecordAll(defines, ds))
    decreases |ds|
  {
    if ds != [] {
      var init := ds[..|ds| - 1];
      assert forall j :: 0 <= j < |init| ==> init[j] == ds[j];
      RecordAllGood(defines, init);
      if ds[|ds| - 1].Some? {
        RecordGood(RecordAll(defines, init), ds[|ds| - 1].value);
      }
    }
  }

  /** The scan of a line keeps the accumulators good. */
  lemma TokensUpToGood(acc: Acc, ws: seq<string>, n: nat, prefix: string)
    requires n <= |ws| && AllNonEmpty(ws) && GoodAcc(acc)
    ensures GoodAcc(TokensUpTo(acc, ws, n, prefix))
  {
    var cs := ContribsUpTo(ws, n, prefix);
    UnionOfMembers(cs);
    forall f | f in UnionOf(cs)
      ensures GoodFlag(f)
    {
      var j :| 0 <= j < |cs| && f in cs[j];
      ContribsAt(ws, n, prefix, j);
      ContributionGood(ws, j, prefix);
    }
    var ds := DefsUpTo(ws, n);
    forall j | 0 <= j < |ds| && ds[j].Some?
      ensures ValidDefine(ds[j].value)
    {
      DefsAt(ws, n, j);
      MatchDefineSpec(ws[j]);
    }
    RecordAllGood(acc.defines, ds);
  }

  /** What a line contributes, token by token: nothing when it is skipped. */
  function LineContribs(line: string, prefix: string): seq<set<Flag>>
  {
    if TempOutput(line) then [] else ContribsUpTo(Tokens(line), |Tokens(line)|, prefix)
  }

  function LineDefs(line: string): seq<Option<Define>>
  {
    if TempOutput(line) then [] else DefsUpTo(Tokens(line), |Tokens(line)|)
  }

  /** The contributions of all tokens of the log, line after line. */
  function LogContribs(log: seq<string>, prefix: string): seq<set<Flag>>
    decreases |log|
  {
    if log == [] then [] else LogContribs(log[..|log| - 1], prefix) + LineContribs(log[|log| - 1], prefix)
  }

  /** The macro definitions of all tokens of the log, line after line. */
  function LogDefs(log: seq<string>): seq<Option<Define>>
    decreases |log|
  {
    if log == [] then [] else LogDefs(log[..|log| - 1]) + LineDefs(log[|log| - 1])
  }

  lemma {:induction false} ScanLogFold(log: seq<string>, prefix: string)
    ensures ScanLog(log, prefix).acc.flags == UnionOf(LogContribs(log, prefix))
    ensures ScanLog(log, prefix).acc.defines == RecordAll(map[], LogDefs(log))
    decreases |log|
  {
    if log != [] {
      var init, line := log[..|log| - 1], log[|log| - 1];
      ScanLogFold(init, prefix);
      UnionOfAppend(LogContribs(init, prefix), LineContribs(line, prefix));
      RecordAllAppend(map[], LogDefs(init), LineDefs(line));
      if TempOutput(line) {
        assert LogContribs(log, prefix) == LogContribs(init, prefix);
        assert LogDefs(log) == LogDefs(init);
      }
    }
  }

  /** The accepted set holds exactly the contributions of the tokens of the
      lines that are not skipped. */
  lemma ScanFlagsExactly(log: seq<string>, prefix: string)
    ensures forall f :: f in ScanLog(log, prefix).acc.flags <==>
      exists j :: 0 <= j < |LogContribs(log, prefix)| && f in LogContribs(log, prefix)[j]
  {
    ScanLogFold(log, prefix);
    UnionOfMembers(LogContribs(log, prefix));
  }

  /** The dictionary records exactly the (name, value) pairs of the define
      tokens of the lines that are not skipped. */
  lemma ScanDefinesExactly(log: seq<string>, prefix: string)
    ensures forall name, v ::
      (name in ScanLog(log, prefix).acc.defines && v in ScanLog(log, prefix).acc.defines[name]) <==>
      exists j :: 0 <= j < |LogDefs(log)| && LogDefs(log)[j] == Some(Define(name, v))
  {
    ScanLogFold(log, prefix);
    RecordAllMembers(map[], LogDefs(log));
  }

  /** Token `i` of line `k`, when the line is not skipped, sits in the
      flattened sequence right after the tokens of the lines before it. */
  lemma LogContribsAt(log: seq<string>, prefix: string, k: nat, i: nat)
    requires k < |log| && !TempOutput(log[k]) && i < |Tokens(log[k])|
    ensures |LogContribs(log[..k], prefix)| + i < |LogContribs(log, prefix)|
    ensures LogContribs(log, prefix)[|LogContribs(log[..k], prefix)| + i] == Contribution(Tokens(log[k]), i, prefix)
  {
    var ws := Tokens(log[k]);
    var line := LineContribs(log[k], prefix);
    assert line == ContribsUpTo(ws, |ws|, prefix);
    ContribsAt(ws, |ws|, prefix, i);
    LogContribsLine(log, prefix, k);
  }

  lemma {:induction false} LogContribsLine(log: seq<string>, prefix: string, k: nat)
    requires k < |log|
    ensures LogContribs(log[..k], prefix) + LineContribs(log[k], prefix) <= LogContribs(log, prefix)
  {
    var pre := log[..k + 1];
    assert pre[..k] == log[..k] && pre[k] == log[k];
    assert LogContribs(pre, prefix) == LogContribs(log[..k], prefix) + LineContribs(log[k], prefix);
    LogContribsPrefix(log, k + 1, prefix);
  }

  lemma {:induction false} LogContribsPrefix(log: seq<string>, k: nat, prefix: string)
    requires k <= |log|
    ensures LogContribs(log[..k], prefix) <= LogContribs(log, prefix)
    decreases |log|
  {
    if k == |log| {
      assert log[..k] == log;
    } else {
      var init := log[..|log| - 1];
      assert init[..k] == log[..k];
      LogContribsPrefix(init, k, prefix);
    }
  }

  lemma LogDefsAt(log: seq<string>, k: nat, i: nat)
    requires k < |log| && !TempOutput(log[k]) && i < |Tokens(log[k])|
    ensures |LogDefs(log[..k])| + i < |LogDefs(log)|
    ensures LogDefs(log)[|LogDefs(log[..k])| + i] == DefineAt(Tokens(log[k]), i)
  {
    var ws := Tokens(log[k]);
    var line := LineDefs(log[k]);
    assert line == DefsUpTo(ws, |ws|);
    DefsAt(ws, |ws|, i);
    LogDefsLine(log, k);
  }

  lemma {:induction false} LogDefsLine(log: seq<string>, k: nat)
    requires k < |log|
    ensures LogDefs(log[..k]) + LineDefs(log[k]) <= LogDefs(log)
  {
    var pre := log[..k + 1];
    assert pre[..k] == log[..k] && pre[k] == log[k];
    assert LogDefs(pre) == LogDefs(log[..k]) + LineDefs(log[k]);
    LogDefsPrefix(log, k + 1);
  }

  /** First-seen order: the list a macro name holds after the first `k`
      lines is a prefix of the list it holds after the whole log. */
  lemma {:induction false} DefinesGrow(log: seq<string>, k: nat, prefix: string)
    requires k <= |log|
    ensures forall name :: name in ScanLog(log[..k], prefix).acc.defines ==>
      name in ScanLog(log, prefix).acc.defines
      && ScanLog(log[..k], prefix).acc.defines[name] <= ScanLog(log, prefix).acc.defines[name]
    decreases |log|
  {
    ScanLogFold(log, prefix);
    ScanLogFold(log[..k], prefix);
    LogDefsPrefix(log, k);
    var ds := LogDefs(log);
    assert ds[..|LogDefs(log[..k])|] == LogDefs(log[..k]);
    RecordAllGrow(map[], ds, |LogDefs(log[..k])|);
  }

  /** First-seen order, token by token: the list a macro name holds after
      recording the first `j` definitions of the log, in scan order, is a
      prefix of the list it holds after the whole log. */
  lemma DefinesGrowByToken(log: seq<string>, prefix: string)
    ensures forall j :: 0 <= j <= |LogDefs(log)| ==>
      forall name :: name in RecordAll(map[], LogDefs(log)[..j]) ==>
        name in ScanLog(log, prefix).acc.defines
        && RecordAll(map[], LogDefs(log)[..j])[name] <= ScanLog(log, prefix).acc.defines[name]
  {
    ScanLogFold(log, prefix);
    forall j | 0 <= j <= |LogDefs(log)|
      ensures forall name :: name in RecordAll(map[], LogDefs(log)[..j]) ==>
        name in RecordAll(map[], LogDefs(log))
        && RecordAll(map[], LogDefs(log)[..j])[name] <= RecordAll(map[], LogDefs(log))[name]
    {
      RecordAllGrow(map[], LogDefs(log), j);
    }
  }

  lemma {:induction false} LogDefsPrefix(log: seq<string>, k: nat)
    requires k <= |log|
    ensures LogDefs(log[..k]) <= LogDefs(log)
    decreases |log|
  {
    if k == |log| {
      assert log[..k] == log;
    } else {
      var init := log[..|log| - 1];
      assert init[..k] == log[..k];
      LogDefsPrefix(init, k);
    }
  }

  // ---------------------------------------------------------------------------
  // Single tokens

  /** `-DNDEBUG` is no name=value definition: it passes the whitelist and is
      kept as it is. */
  lemma DefineWithoutValueKept(prefix: string)
    ensures DefineAt(["-DNDEBUG"], 0) == None
    ensures Contribution(["-DNDEBUG"], 0, prefix) == {Bare("-DNDEBUG")}
  {
    var ws := ["-DNDEBUG"];
    var w := ws[0];
    assert w[0] == '-' && w[1] == 'D' && NoNewline(w[2..]);
    assert Accepted(w);
    NoValueNoDefine(w);
    assert !IsPairForm(ws, 0);
    assert !StartsWith(w, "-I");
  }

  /** `-o` fails the whitelist, so it never forms a pair with its file. */
  lemma OutputNeverPaired(prefix: string)
    ensures Contribution(["-o", "main.o"], 0, prefix) == {}
  {
    WhitelistRejects("-o");
  }

  /** An option from `filename_flags` followed by a path takes it as its
      argument, joined to the prefix. */
  lemma PairExample()
    ensures Contribution(["-isystem", "inc"], 0, "/top") == {Pair("-isystem", "/top/inc")}
  {
    var ws := ["-isystem", "inc"];
    var w := ws[0];
    assert w[0] == '-' && w[1] == 'i' && NoNewline(w[2..]);
    assert Accepted(w);
    assert !StartsWith(w, "-D");
    assert MatchDefine(w).None?;
    assert FilenameFlags[2] == w;
    assert IsPairForm(ws, 0);
    assert "inc"[0] != '/' && "/top"[3] != '/';
    var p := PathJoin("/top", ws[1]);
    assert p == "/top" + "/" + "inc" == "/top/inc";
    ShortPathValid(p);
    assert Contribution(ws, 0, "/top") == {Pair(w, p)};
  }

  /** A newline-free include directory whose joined path fails the
      invalid-path check is dropped, both as the argument of `-I` and glued
      to it. */
  lemma InvalidIncludeDropped(d: string, prefix: string)
    requires d != [] && d[0] != '-' && NoNewline(d) && InvalidInclude(PathJoin(prefix, d))
    ensures Contribution(["-I", d], 0, prefix) == {} && Contribution(["-I" + d], 0, prefix) == {}
  {
    var ws := ["-I", d];
    assert ws[0][0] == '-' && ws[0][1] == 'I' && NoNewline(ws[0][2..]);
    assert FilenameFlags[1] == ws[0];
    var g := "-I" + d;
    assert g[0] == '-' && g[1] == 'I' && g[2..] == d;
  }

  /** So an include directory inside an `_intermediates` build-output tree,
      such as `out/a/b_intermediates/x`, is dropped in both token shapes,
      whatever newline-free prefix it is joined to. */
  lemma IntermediatesIncludeDropped(b: string, c: string, prefix: string)
    requires b != [] && NoNewline(prefix) && NoNewline("out/" + b + "_intermediates" + c)
    ensures var d := "out/" + b + "_intermediates" + c;
      Contribution(["-I", d], 0, prefix) == {} && Contribution(["-I" + d], 0, prefix) == {}
  {
    var d := "out/" + b + "_intermediates" + c;
    var a := JoinDir(prefix);
    assert d[0] == 'o';
    PathJoinRelative(prefix, d);
    assert a + d == a + "out/" + b + "_intermediates" + c;
    IntermediatesRejected(a, b, c);
    InvalidIncludeDropped(d, prefix);
  }

  /** Likewise a `<dir>/proguard.flags` path, in both token shapes, whether
      `<dir>` is absolute or is joined to a newline-free prefix. */
  lemma ProguardIncludeDropped(a: string, x: char, prefix: string)
    requires a != [] && a[0] != '-' && NoNewline(prefix) && NoNewline(a + "/proguard" + [x] + "flags")
    ensures var d := a + "/proguard" + [x] + "flags";
      Contribution(["-I", d], 0, prefix) == {} && Contribution(["-I" + d], 0, prefix) == {}
  {
    var d := a + "/proguard" + [x] + "flags";
    assert d[0] == a[0];
    if a[0] == '/' {
      assert StartsWith(d, "/") && PathJoin(prefix, d) == d;
      ProguardRejected(a, x);
    } else {
      var j := JoinDir(prefix);
      PathJoinRelative(prefix, d);
      assert j + d == (j + a) + "/proguard" + [x] + "flags";
      ProguardRejected(j + a, x);
    }
    InvalidIncludeDropped(d, prefix);
  }

  /** A lone `-I` at the end of a line becomes `-I`, the prefix and a slash. */
  lemma LoneIncludeFlag()
    ensures Contribution(["-I"], 0, "src") == {Bare("-Isrc/")}
  {
    var w := "-I";
    assert w[0] == '-' && w[1] == 'I' && NoNewline(w[2..]);
    assert "src"[2] != '/';
    assert PathJoin("src", "") == "src" + "/" + "" == "src/";
    ShortPathValid("src/");
    assert "-I" + "src/" == "-Isrc/";
  }

  /** No macro definition of the form `-D<name>=<value>` ever enters the
      accepted set directly, nothing of a shape the whitelist turns away on
      sight enters it, every bare flag other than a rewritten `-I<path>`
      passes the whitelist, and every path the set holds passed the
      invalid-path check. */
  lemma ScanFlagsShape(log: seq<string>, prefix: string)
    ensures forall s :: Bare(s) in ScanLog(log, prefix).acc.flags ==> MatchDefine(s).None?
    ensures forall s :: Bare(s) in ScanLog(log, prefix).acc.flags ==> !TurnedAway(s)
    ensures forall s :: Bare(s) in ScanLog(log, prefix).acc.flags && !StartsWith(s, "-I") ==> Whitelisted(s)
    ensures forall s :: Bare(s) in ScanLog(log, prefix).acc.flags && StartsWith(s, "-I") ==> !InvalidInclude(s[2..])
    ensures forall o, p :: Pair(o, p) in ScanLog(log, prefix).acc.flags ==> !InvalidInclude(p) && o in FilenameFlags && o != "-o"
  {
    var flags := ScanLog(log, prefix).acc.flags;
    forall s | Bare(s) in flags
      ensures MatchDefine(s).None?
    {
      assert GoodFlag(Bare(s));
    }
    forall s | Bare(s) in flags
      ensures !TurnedAway(s)
    {
      assert GoodFlag(Bare(s));
      if TurnedAway(s) {
        WhitelistRejects(s);
      }
    }
    forall o, p | Pair(o, p) in flags
      ensures o != "-o"
    {
      assert GoodFlag(Pair(o, p));
      assert "-o"[1] !in "iIDFWnsm";
      if o == "-o" {
        WhitelistedShape(o);
      }
    }
  }
}
