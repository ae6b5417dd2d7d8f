/** The fixed regular expressions of `parse_flags`, each written out as a
    predicate on strings, and POSIX `os.path.join` on two components.

    Python's `re` conventions used below: `.` matches any character but a
    newline; `$` matches at the end of the string or just before a newline
    that ends it; `match` anchors at the start, `search` looks anywhere. */
module Patterns {

  datatype Option<T> = None | Some(value: T)

  predicate StartsWith(s: string, p: string)
  {
    |p| <= |s| && s[..|p|] == p
  }

  /** `t` occurs somewhere in `s`. */
  predicate Contains(s: string, t: string)
    decreases |s|
  {
    StartsWith(s, t) || (s != [] && Contains(s[1..], t))
  }

  lemma {:induction false} ContainsAt(s: string, t: string, i: nat)
    requires i + |t| <= |s| && s[i..i + |t|] == t
    ensures Contains(s, t)
    decreases i
  {
    if i > 0 {
      assert s[1..][i - 1..i - 1 + |t|] == s[i..i + |t|];
      ContainsAt(s[1..], t, i - 1);
    }
  }

  predicate NoNewline(s: string)
  {
    '\n' !in s
  }

  predicate IsDigit(c: char)
  {
    '0' <= c <= '9'
  }

  predicate IsNameChar(c: char)
  {
    'a' <= c <= 'z' || 'A' <= c <= 'Z' || '0' <= c <= '9' || c == '_'
  }

  /** `s` ends in a newline, the one character Python's `$` may stop before. */
  predicate EndsInNewline(s: string)
  {
    |s| > 0 && s[|s| - 1] == '\n'
  }

  // ---------------------------------------------------------------------------
  // The skip rule `temp_output`, searched for anywhere in a line

  predicate IsStemChar(c: char)
  {
    'a' <= c <= 'z' || 'A' <= c <= 'Z' || '0' <= c <= '9' || c == '.' || c == '_'
  }

  /** `-o `, one character of `[a-zA-Z0-9._]`, one character other than a
      newline, then `tmp`, at the head of `s`. */
  predicate TempOutputHere(s: string)
  {
    |s| >= 8 && s[..3] == "-o " && IsStemChar(s[3]) && s[4] != '\n' && s[5..8] == "tmp"
  }

  predicate HasTempOutput(s: string)
    decreases |s|
  {
    TempOutputHere(s) || (s != [] && HasTempOutput(s[1..]))
  }

  /** The skip rule: the line mentions an assembler-only compilation, a
      temporary output file, or the null device. */
  predicate TempOutput(line: string)
  {
    Contains(line, "-x assembler") || HasTempOutput(line) || Contains(line, "/dev/null")
  }

  /** The temporary-output alternative needs exactly one stem character and
      one more character before `tmp`: `-o a.tmp` is skipped, but `-o tmp.tmp`
      does not match it. */
  lemma TempOutputSkips()
    ensures TempOutput("gcc -c x.c -o a.tmp")
  {
    var s := "gcc -c x.c -o a.tmp";
    assert TempOutputHere(s[11..]);
    HasTempOutputAt(s, 11);
  }

  lemma TempOutputNeedsOneStemChar()
    ensures !HasTempOutput("-o tmp.tmp")
  {
    var t := "-o tmp.tmp";
    forall i | 0 <= i <= |t|
      ensures !TempOutputHere(t[i..])
    {
      if i == 0 {
        assert t[5..8] == "p.t";
      } else if i <= 2 {
        assert t[i..][0] == t[i] != '-';
      }
    }
    NoTempOutputAnywhere(t);
  }

  lemma {:induction false} NoTempOutputAnywhere(s: string)
    requires forall i :: 0 <= i <= |s| ==> !TempOutputHere(s[i..])
    ensures !HasTempOutput(s)
    decreases |s|
  {
    assert s[0..] == s;
    if s != [] {
      forall i | 0 <= i <= |s| - 1
        ensures !TempOutputHere(s[1..][i..])
      {
        assert s[1..][i..] == s[i + 1..];
      }
      NoTempOutputAnywhere(s[1..]);
    }
  }

  lemma {:induction false} HasTempOutputAt(s: string, i: nat)
    requires i <= |s| && TempOutputHere(s[i..])
    ensures HasTempOutput(s)
    decreases i
  {
    if i > 0 {
      assert s[1..][i - 1..] == s[i..];
      HasTempOutputAt(s[1..], i - 1);
    }
  }

  // ---------------------------------------------------------------------------
  // The whitelist `flags_whitelist`: four anchored alternatives

  const StdLibFlags: seq<string> := ["-stdlib", "-stdinc", "-nostdlib", "-nostdinc"]

  /** `-m[0-9]+`, covering all of `s`. */
  predicate WordSizeBody(s: string)
  {
    |s| >= 3 && s[..2] == "-m" && forall k :: 2 <= k < |s| ==> IsDigit(s[k])
  }

  /** `^-m[0-9]+$` matches `s`. */
  predicate IsWordSize(s: string)
  {
    WordSizeBody(s) || (EndsInNewline(s) && WordSizeBody(s[..|s| - 1]))
  }

  /** One of the four whitelist alternatives, covering all of `s`. */
  predicate WhitelistBody(s: string)
  {
    || (|s| >= 2 && s[0] == '-' && s[1] in "iIDF" && NoNewline(s[2..]))
    || (StartsWith(s, "-W") && ',' !in s[2..])
    || s in StdLibFlags
    || WordSizeBody(s)
  }

  /** The whitelist regex matches `s`. */
  predicate Whitelisted(s: string)
  {
    WhitelistBody(s) || (EndsInNewline(s) && WhitelistBody(s[..|s| - 1]))
  }

  lemma WhitelistBodyShape(t: string)
    requires WhitelistBody(t)
    ensures |t| >= 2 && t[0] == '-' && t[1] in "iIDFWnsm"
  {
    if t in StdLibFlags {
      assert t[1] in "sn";
    } else if StartsWith(t, "-W") {
      assert t[..2] == "-W";
    } else if WordSizeBody(t) {
      assert t[..2] == "-m";
    }
  }

  /** Only flags whose second character is one of `iIDFWnsm` can pass. */
  lemma WhitelistedShape(s: string)
    requires Whitelisted(s)
    ensures |s| >= 2 && s[0] == '-' && s[1] in "iIDFWnsm"
  {
    if WhitelistBody(s) {
      WhitelistBodyShape(s);
    } else {
      var t := s[..|s| - 1];
      WhitelistBodyShape(t);
      assert s[0] == t[0] && s[1] == t[1];
    }
  }

  /** What the whitelist turns away: anything not starting with `-`, any
      option whose second character is none of `iIDFWnsm` (`-o`, `-O2`,
      `-c`, `-x`), a language option `-std=...`, and a `-W` option holding a
      comma, such as the assembler pass-through `-Wa,<opt>`. */
  predicate TurnedAway(s: string)
  {
    || (s != [] && s[0] != '-')
    || (|s| >= 2 && s[0] == '-' && s[1] !in "iIDFWnsm")
    || StartsWith(s, "-std=")
    || (StartsWith(s, "-W") && ',' in s[2..])
  }

  lemma WhitelistRejects(s: string)
    requires TurnedAway(s)
    ensures !Whitelisted(s)
  {
    if StartsWith(s, "-std=") {
      BodyRejectsStd(s);
      if EndsInNewline(s) {
        assert s[..|s| - 1][..5] == "-std=";
        BodyRejectsStd(s[..|s| - 1]);
      }
    } else if StartsWith(s, "-W") && ',' in s[2..] {
      var k :| 2 <= k < |s| && s[k] == ',';
      BodyRejectsComma(s, k);
      if EndsInNewline(s) {
        BodyRejectsComma(s[..|s| - 1], k);
      }
    } else if Whitelisted(s) {
      WhitelistedShape(s);
      assert false;
    }
  }

  /** What passes the whitelist, or is a `-I` flag, is not turned away. */
  lemma NotTurnedAway(s: string)
    requires Whitelisted(s) || StartsWith(s, "-I")
    ensures !TurnedAway(s)
  {
    if StartsWith(s, "-I") {
      assert s[1] == 'I';
    } else if TurnedAway(s) {
      WhitelistRejects(s);
    }
  }

  /** Flags whose second character is `D` are no word sizes. */
  lemma NotWordSize(s: string)
    requires |s| >= 2 && s[1] == 'D'
    ensures !IsWordSize(s)
  {
    assert s[..2] != "-m";
    if |s| >= 3 {
      assert s[..|s| - 1][..2] == s[..2];
    }
  }

  lemma BodyRejectsStd(t: string)
    requires StartsWith(t, "-std=")
    ensures !WhitelistBody(t)
  {
    assert t[1] == 's' && t[4] == '=';
  }

  lemma BodyRejectsComma(t: string, k: nat)
    requires StartsWith(t, "-W") && 2 <= k < |t| && t[k] == ','
    ensures !WhitelistBody(t)
  {
    assert t[2..][k - 2] == ',';
  }

  // ---------------------------------------------------------------------------
  // The macro pattern `define_regex`, matched at the start of a token

  datatype Define = Define(name: string, value: string)

  /** Length of the longest prefix of `s` made of name characters. */
  function NameLen(s: string): (n: nat)
    ensures n <= |s|
    ensures forall k :: 0 <= k < n ==> IsNameChar(s[k])
    ensures n < |s| ==> !IsNameChar(s[n])
    decreases |s|
  {
    if s == [] || !IsNameChar(s[0]) then 0 else 1 + NameLen(s[1..])
  }

  /** What `.*` consumes: `s` up to, not including, its first newline. */
  function UpToNewline(s: string): (r: string)
    ensures r <= s && NoNewline(r)
    ensures |r| < |s| ==> s[|r|] == '\n'
    decreases |s|
  {
    if s == [] || s[0] == '\n' then []
    else
      var r := UpToNewline(s[1..]);
      assert s == [s[0]] + s[1..];
      [s[0]] + r
  }

  /** A name of `[a-zA-Z0-9_]+` and a value without newlines: what the
      two groups of the define regex can capture. */
  predicate ValidDefine(d: Define)
  {
    d.name != [] && (forall k :: 0 <= k < |d.name| ==> IsNameChar(d.name[k])) && NoNewline(d.value)
  }

  /** `"-D{}={}".format(name, value)`. */
  function FormatDefine(name: string, value: string): string
  {
    "-D" + name + "=" + value
  }

  /** The two groups of the define regex, when it matches the head of `w`. */
  function MatchDefine(w: string): Option<Define>
  {
    if StartsWith(w, "-D") then
      var n := NameLen(w[2..]);
      if 0 < n && 2 + n < |w| && w[2 + n] == '=' then
        Some(Define(w[2..2 + n], UpToNewline(w[3 + n..])))
      else None
    else None
  }

  /** A match captures a well-formed name and value; what it covers, written
      back by `FormatDefine`, is a prefix of the token, and all of it when the
      token holds no newline; only tokens starting with `-D` match. */
  lemma MatchDefineSpec(w: string)
    ensures MatchDefine(w).Some? ==> ValidDefine(MatchDefine(w).value)
    ensures MatchDefine(w).Some? ==> FormatDefine(MatchDefine(w).value.name, MatchDefine(w).value.value) <= w
    ensures MatchDefine(w).Some? && NoNewline(w) ==> FormatDefine(MatchDefine(w).value.name, MatchDefine(w).value.value) == w
    ensures !StartsWith(w, "-D") ==> MatchDefine(w).None?
  {
    if MatchDefine(w).Some? {
      var n := NameLen(w[2..]);
      var d := MatchDefine(w).value;
      assert d.name == w[2..2 + n];
      assert w == "-D" + d.name + "=" + w[3 + n..];
      assert NoNewline(w) ==> d.value == w[3 + n..];
    }
  }

  /** A token without `=` holds no definition. */
  lemma NoValueNoDefine(w: string)
    requires '=' !in w
    ensures MatchDefine(w).None?
  {
    if StartsWith(w, "-D") {
      var n := NameLen(w[2..]);
      if 2 + n < |w| {
        assert w[2 + n] in w;
      }
    }
  }

  /** The define regex reads back exactly what `FormatDefine` wrote. */
  lemma DefineRoundTrip(d: Define)
    requires ValidDefine(d)
    ensures MatchDefine(FormatDefine(d.name, d.value)) == Some(d)
  {
    var w := FormatDefine(d.name, d.value);
    var n := |d.name|;
    assert StartsWith(w, "-D");
    assert w[2..] == d.name + ("=" + d.value);
    NameLenOfName(d.name, "=" + d.value);
    assert w[2 + n] == '=';
    assert w[2..2 + n] == d.name;
    assert w[3 + n..] == d.value;
    UpToNewlineOfLine(d.value);
  }

  lemma NameLenOfName(name: string, t: string)
    requires forall k :: 0 <= k < |name| ==> IsNameChar(name[k])
    requires t != [] && !IsNameChar(t[0])
    ensures NameLen(name + t) == |name|
  {
    assert forall k :: 0 <= k < |name| ==> IsNameChar((name + t)[k]);
    assert (name + t)[|name|] == t[0];
  }

  lemma {:induction false} UpToNewlineOfLine(s: string)
    requires NoNewline(s)
    ensures UpToNewline(s) == s
    decreases |s|
  {
    if s != [] {
      UpToNewlineOfLine(s[1..]);
    }
  }

  // ---------------------------------------------------------------------------
  // The invalid-path pattern `invalid_include_regex`, matched at the start of a path

  /** `out/`, at least one character, then `_intermediates`, somewhere in `q`. */
  predicate HasOutIntermediates(q: string)
    decreases |q|
  {
    (StartsWith(q, "out/") && |q| >= 5 && Contains(q[5..], "_intermediates"))
    || (q != [] && HasOutIntermediates(q[1..]))
  }

  /** At least one character, `/proguard`, any one character, `flags`,
      at the end of `q`. */
  predicate ProguardSuffix(q: string)
  {
    |q| >= 16 && q[|q| - 15..|q| - 6] == "/proguard" && q[|q| - 5..] == "flags"
  }

  predicate InvalidBody(q: string)
  {
    NoNewline(q) && (HasOutIntermediates(q) || ProguardSuffix(q))
  }

  /** The path lies in an intermediate build-output directory or names a
      `proguard.flags` file. */
  predicate InvalidInclude(p: string)
  {
    InvalidBody(p) || (EndsInNewline(p) && InvalidBody(p[..|p| - 1]))
  }

  lemma {:induction false} ContainsLength(s: string, t: string)
    requires Contains(s, t)
    ensures |t| <= |s|
    decreases |s|
  {
    if !StartsWith(s, t) {
      ContainsLength(s[1..], t);
    }
  }

  /** `out/`, one character and `_intermediates` take 19 characters. */
  lemma {:induction false} OutIntermediatesLength(q: string)
    requires HasOutIntermediates(q)
    ensures |q| >= 19
    decreases |q|
  {
    if StartsWith(q, "out/") && |q| >= 5 && Contains(q[5..], "_intermediates") {
      ContainsLength(q[5..], "_intermediates");
    } else {
      OutIntermediatesLength(q[1..]);
    }
  }

  /** `out/` found further into the path still counts. */
  lemma {:induction false} HasOutIntermediatesAt(q: string, i: nat)
    requires i <= |q| && HasOutIntermediates(q[i..])
    ensures HasOutIntermediates(q)
    decreases i
  {
    if i > 0 {
      assert q[1..][i - 1..] == q[i..];
      HasOutIntermediatesAt(q[1..], i - 1);
    }
  }

  /** Any newline-free path holding `out/`, at least one character, then
      `_intermediates` is rejected, wherever `out/` sits in it. */
  lemma IntermediatesRejected(a: string, b: string, c: string)
    requires b != [] && NoNewline(a + "out/" + b + "_intermediates" + c)
    ensures InvalidInclude(a + "out/" + b + "_intermediates" + c)
  {
    var p := a + "out/" + b + "_intermediates" + c;
    var q := p[|a|..];
    assert q == "out/" + b + "_intermediates" + c;
    assert q[5..] == b[1..] + "_intermediates" + c;
    assert q[5..][|b| - 1..|b| - 1 + |"_intermediates"|] == "_intermediates";
    ContainsAt(q[5..], "_intermediates", |b| - 1);
    assert StartsWith(q, "out/");
    HasOutIntermediatesAt(p, |a|);
  }

  /** Any newline-free path of the form `<dir>/proguard?flags`, with a
      non-empty `<dir>`, is rejected. */
  lemma ProguardRejected(a: string, x: char)
    requires a != [] && NoNewline(a + "/proguard" + [x] + "flags")
    ensures InvalidInclude(a + "/proguard" + [x] + "flags")
  {
    var p := a + "/proguard" + [x] + "flags";
    assert p[|p| - 15..|p| - 6] == "/proguard" && p[|p| - 5..] == "flags";
  }

  /** Where `t` occurs in `s`. */
  lemma {:induction false} ContainsIndex(s: string, t: string) returns (i: nat)
    requires Contains(s, t)
    ensures i + |t| <= |s| && s[i..i + |t|] == t
    decreases |s|
  {
    if StartsWith(s, t) {
      i := 0;
    } else {
      var k := ContainsIndex(s[1..], t);
      assert s[k + 1..k + 1 + |t|] == s[1..][k..k + |t|];
      i := k + 1;
    }
  }

  /** A path holding `out/`, at least one character, then `_intermediates`. */
  ghost predicate IntermediatesShape(q: string)
  {
    exists a, b, c :: b != [] && q == a + "out/" + b + "_intermediates" + c
  }

  /** A path `<dir>/proguard?flags` with a non-empty `<dir>`. */
  ghost predicate ProguardShape(q: string)
  {
    exists a, x :: a != [] && q == a + "/proguard" + [x] + "flags"
  }

  /** Where `out/` and the `_intermediates` after it sit in a path the first
      alternative matches. */
  lemma {:induction false} OutIntermediatesIndex(q: string) returns (i: nat, j: nat)
    requires HasOutIntermediates(q)
    ensures i + 5 <= j && j + 14 <= |q|
    ensures q[i..i + 4] == "out/" && q[j..j + 14] == "_intermediates"
    decreases |q|
  {
    if StartsWith(q, "out/") && |q| >= 5 && Contains(q[5..], "_intermediates") {
      var k := ContainsIndex(q[5..], "_intermediates");
      assert q[5 + k..5 + k + 14] == q[5..][k..k + 14];
      i, j := 0, 5 + k;
    } else {
      var i', j' := OutIntermediatesIndex(q[1..]);
      assert q[i' + 1..i' + 5] == q[1..][i'..i' + 4];
      assert q[j' + 1..j' + 15] == q[1..][j'..j' + 14];
      i, j := i' + 1, j' + 1;
    }
  }

  lemma IntermediatesHaveShape(q: string)
    requires HasOutIntermediates(q)
    ensures IntermediatesShape(q)
  {
    var i, j := OutIntermediatesIndex(q);
    var a, b, c := q[..i], q[i + 4..j], q[j + 14..];
    assert q == a + q[i..i + 4] + b + q[j..j + 14] + c;
    assert b != [] && q == a + "out/" + b + "_intermediates" + c;
  }

  lemma ProguardHasShape(q: string)
    requires ProguardSuffix(q)
    ensures ProguardShape(q)
  {
    assert q == q[..|q| - 15] + "/proguard" + [q[|q| - 6]] + "flags";
  }

  /** The invalid-path pattern, covering a newline-free path, accepts exactly
      the two shapes `...out/<b>_intermediates...` and `<dir>/proguard?flags`. */
  lemma InvalidBodyShapes(q: string)
    ensures InvalidBody(q) <==> NoNewline(q) && (IntermediatesShape(q) || ProguardShape(q))
  {
    if InvalidBody(q) {
      if HasOutIntermediates(q) {
        IntermediatesHaveShape(q);
      } else {
        ProguardHasShape(q);
      }
    }
    if NoNewline(q) && IntermediatesShape(q) {
      var a, b, c :| b != [] && q == a + "out/" + b + "_intermediates" + c;
      IntermediatesRejected(a, b, c);
    }
    if NoNewline(q) && ProguardShape(q) {
      var a, x :| a != [] && q == a + "/proguard" + [x] + "flags";
      ProguardRejected(a, x);
    }
  }

  /** Both invalid-path alternatives need at least 16 characters. */
  lemma ShortPathValid(p: string)
    requires |p| < 16
    ensures !InvalidInclude(p)
  {
    if HasOutIntermediates(p) {
      OutIntermediatesLength(p);
    }
    if EndsInNewline(p) && HasOutIntermediates(p[..|p| - 1]) {
      OutIntermediatesLength(p[..|p| - 1]);
    }
  }

  // ---------------------------------------------------------------------------
  // filename_flags and os.path.join

  const FilenameFlags: seq<string> := ["-o", "-I", "-isystem", "-iquote", "-include", "-imacros", "-isysroot"]

  /** Every path-taking option is `-o` or starts with `-I` or `-i`. */
  lemma FilenameFlagsShape(w: string)
    requires w in FilenameFlags
    ensures |w| >= 2 && w[0] == '-' && (w == "-o" || w[1] in "Ii")
  {
    var k :| 0 <= k < |FilenameFlags| && FilenameFlags[k] == w;
    if k == 0 {
    } else if k == 1 {
    } else {
      assert w[1] == 'i';
    }
  }

  /** POSIX `os.path.join(a, b)`. */
  function PathJoin(a: string, b: string): string
  {
    if StartsWith(b, "/") then b
    else if a == [] || a[|a| - 1] == '/' then a + b
    else a + "/" + b
  }

  /** The joined path ends with `b`; an absolute `b` replaces `a`; otherwise
      the path starts with `a`, and a non-empty `a` is separated from `b` by
      exactly one slash of its own or of the join. */
  lemma PathJoinSpec(a: string, b: string)
    ensures var p := PathJoin(a, b);
      |b| <= |p| && p[|p| - |b|..] == b
    ensures StartsWith(b, "/") ==> PathJoin(a, b) == b
    ensures !StartsWith(b, "/") ==> StartsWith(PathJoin(a, b), a) && |PathJoin(a, b)| <= |a| + 1 + |b|
    ensures var p := PathJoin(a, b);
      !StartsWith(b, "/") && a != [] ==> |p| > |b| && p[|p| - |b| - 1] == '/'
  {
  }

  /** What `os.path.join` puts before a relative path: the prefix, with a
      slash added unless it is empty or already ends in one. */
  function JoinDir(prefix: string): (j: string)
    ensures NoNewline(prefix) ==> NoNewline(j)
  {
    if prefix == [] || prefix[|prefix| - 1] == '/' then prefix else prefix + "/"
  }

  lemma PathJoinRelative(prefix: string, d: string)
    requires d != [] && d[0] != '/'
    ensures PathJoin(prefix, d) == JoinDir(prefix) + d
  {
  }
}
