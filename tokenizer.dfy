/** The quote-aware tokenizer of config_gen.py: `split_flags` splits a line on
    whitespace and glues each piece onto the previous token, with one space,
    while that token holds an odd number of `'` or of `"` (`unbalanced_quotes`). */
module Tokenizer {

  /** The characters Python 2's `str.split()` and `str.strip()` treat as whitespace. */
  predicate IsSpace(c: char)
  {
    c == ' ' || c == '\t' || c == '\n' || c == '\r' || c == '\U{000B}' || c == '\U{000C}'
  }

  predicate NoSpace(w: string)
  {
    forall k :: 0 <= k < |w| ==> !IsSpace(w[k])
  }

  /** The characters of `s` that are not whitespace, in order. */
  function NonSpace(s: string): string
    decreases |s|
  {
    if s == [] then []
    else if IsSpace(s[0]) then NonSpace(s[1..])
    else [s[0]] + NonSpace(s[1..])
  }

  /** Every string of `ws` concatenated, with nothing between them. */
  function Concat(ws: seq<string>): string
    decreases |ws|
  {
    if ws == [] then [] else ws[0] + Concat(ws[1..])
  }

  /** `" ".join(ws)`. */
  function JoinWords(ws: seq<string>): string
    decreases |ws|
  {
    if ws == [] then []
    else if |ws| == 1 then ws[0]
    else ws[0] + " " + JoinWords(ws[1..])
  }

  // ---------------------------------------------------------------------------
  // Pass 1: `line.strip().split()`

  /** Length of the longest prefix of `s` that holds no whitespace. */
  function WordLen(s: string): (n: nat)
    ensures n <= |s|
    ensures forall k :: 0 <= k < n ==> !IsSpace(s[k])
    ensures n < |s| ==> IsSpace(s[n])
    decreases |s|
  {
    if s == [] || IsSpace(s[0]) then 0 else 1 + WordLen(s[1..])
  }

  /** The maximal runs of non-whitespace characters of `s`, left to right.
      (`strip` before `split` changes nothing, since `split` drops leading and
      trailing whitespace itself.) */
  function Words(s: string): (ws: seq<string>)
    ensures forall k :: 0 <= k < |ws| ==> ws[k] != [] && NoSpace(ws[k])
    ensures forall k, j :: 0 <= k < |ws| && 0 <= j < |ws[k]| ==> ws[k][j] in s
    decreases |s|
  {
    if s == [] then []
    else if IsSpace(s[0]) then
      var r := Words(s[1..]);
      assert forall c :: c in s[1..] ==> c in s;
      r
    else
      var n := WordLen(s);
      var r := Words(s[n..]);
      assert forall c :: c in s[n..] ==> c in s;
      assert forall j :: 0 <= j < n ==> s[..n][j] in s;
      [s[..n]] + r
  }

  lemma {:induction false} NonSpaceAppend(a: string, b: string)
    ensures NonSpace(a + b) == NonSpace(a) + NonSpace(b)
    decreases |a|
  {
    if a != [] {
      assert (a + b)[0] == a[0] && (a + b)[1..] == a[1..] + b;
      NonSpaceAppend(a[1..], b);
      if IsSpace(a[0]) {
        assert NonSpace(a + b) == NonSpace(a[1..] + b);
      } else {
        assert NonSpace(a + b) == [a[0]] + NonSpace(a[1..] + b);
      }
    } else {
      assert a + b == b;
    }
  }

  lemma {:induction false} NonSpaceOfWord(w: string)
    requires NoSpace(w)
    ensures NonSpace(w) == w
    decreases |w|
  {
    if w != [] {
      NonSpaceOfWord(w[1..]);
    }
  }

  /** The words hold every non-whitespace character of the line, in order. */
  lemma {:induction false} WordsConcat(s: string)
    ensures Concat(Words(s)) == NonSpace(s)
    decreases |s|
  {
    if s != [] {
      if IsSpace(s[0]) {
        WordsConcat(s[1..]);
      } else {
        var n := WordLen(s);
        assert s == s[..n] + s[n..];
        NonSpaceAppend(s[..n], s[n..]);
        NonSpaceOfWord(s[..n]);
        WordsConcat(s[n..]);
        var ws := Words(s);
        assert ws[0] == s[..n] && ws[1..] == Words(s[n..]);
      }
    }
  }

  lemma WordLenOfWord(w: string, t: string)
    requires NoSpace(w)
    requires t == [] || IsSpace(t[0])
    ensures WordLen(w + t) == |w|
  {
    assert forall k :: 0 <= k < |w| ==> !IsSpace((w + t)[k]);
    assert |w| < |w + t| ==> IsSpace((w + t)[|w|]);
  }

  /** A word that stops before the end of `s` stops at the same place
      whatever follows `s`. */
  lemma {:induction false} WordLenStops(s: string, t: string)
    requires WordLen(s) < |s|
    ensures WordLen(s + t) == WordLen(s)
    decreases |s|
  {
    if !IsSpace(s[0]) {
      assert (s + t)[1..] == s[1..] + t;
      WordLenStops(s[1..], t);
    }
  }

  /** Extra whitespace next to existing whitespace, or at either end of the
      line, does not change the words: `split()` collapses runs of
      whitespace. */
  lemma {:induction false} WordsExtraSpace(a: string, b: string, c: char)
    requires IsSpace(c)
    requires a == [] || b == [] || IsSpace(b[0]) || IsSpace(a[|a| - 1])
    ensures Words(a + [c] + b) == Words(a + b)
    decreases |a|, 1
  {
    var s, s' := a + [c] + b, a + b;
    if a == [] {
      assert s[1..] == b && s' == b;
    } else if IsSpace(a[0]) {
      assert s[1..] == a[1..] + [c] + b && s'[1..] == a[1..] + b;
      WordsExtraSpace(a[1..], b, c);
    } else if WordLen(a) < |a| {
      ExtraSpaceAfterWord(a, b, c);
    } else {
      ExtraSpaceEndsWord(a, b, c);
    }
  }

  /** The case where `a` starts with a word that ends inside `a`. */
  lemma {:induction false} ExtraSpaceAfterWord(a: string, b: string, c: char)
    requires IsSpace(c)
    requires a == [] || b == [] || IsSpace(b[0]) || IsSpace(a[|a| - 1])
    requires a != [] && !IsSpace(a[0]) && WordLen(a) < |a|
    ensures Words(a + [c] + b) == Words(a + b)
    decreases |a|, 0
  {
    var s, s' := a + [c] + b, a + b;
    var k := WordLen(a);
    assert s == a + ([c] + b);
    WordLenStops(a, [c] + b);
    WordLenStops(a, b);
    assert s[..k] == a[..k] == s'[..k];
    assert s[k..] == a[k..] + [c] + b && s'[k..] == a[k..] + b;
    WordsExtraSpace(a[k..], b, c);
    assert Words(s) == [a[..k]] + Words(a[k..] + [c] + b);
    assert Words(s') == [a[..k]] + Words(a[k..] + b);
  }

  /** The case where all of `a` is one word, so `b` is empty or starts
      with whitespace. */
  lemma ExtraSpaceEndsWord(a: string, b: string, c: char)
    requires IsSpace(c) && (b == [] || IsSpace(b[0]))
    requires a != [] && NoSpace(a)
    ensures Words(a + [c] + b) == Words(a + b)
  {
    var s, s' := a + [c] + b, a + b;
    assert s == a + ([c] + b);
    WordLenOfWord(a, [c] + b);
    WordLenOfWord(a, b);
    assert s[..|a|] == a == s'[..|a|];
    assert s[|a|..] == [c] + b && s'[|a|..] == b;
    assert ([c] + b)[1..] == b;
  }

  /** Splitting undoes joining with single spaces, for non-empty words
      without whitespace. */
  lemma {:induction false} WordsJoinWords(ws: seq<string>)
    requires forall k :: 0 <= k < |ws| ==> ws[k] != [] && NoSpace(ws[k])
    ensures Words(JoinWords(ws)) == ws
    decreases |ws|
  {
    if ws != [] {
      var w := ws[0];
      var t: string := if |ws| == 1 then [] else " " + JoinWords(ws[1..]);
      assert JoinWords(ws) == w + t;
      WordLenOfWord(w, t);
      assert (w + t)[..|w|] == w && (w + t)[|w|..] == t;
      if |ws| == 1 {
        assert Words(w + t) == [w] + Words([]);
      } else {
        WordsJoinWords(ws[1..]);
        assert t[1..] == JoinWords(ws[1..]);
        assert Words(t) == Words(JoinWords(ws[1..]));
        assert Words(w + t) == [w] + Words(t);
      }
    }
  }

  // ---------------------------------------------------------------------------
  // `unbalanced_quotes`

  /** Number of occurrences of `c` in `s`. */
  function Count(s: string, c: char): nat
    decreases |s|
  {
    if s == [] then 0
    else Count(s[..|s| - 1], c) + (if s[|s| - 1] == c then 1 else 0)
  }

  /** An odd number of single quotes or an odd number of double quotes. */
  predicate Unbalanced(s: string)
  {
    Count(s, '\'') % 2 == 1 || Count(s, '"') % 2 == 1
  }

  method UnbalancedQuotes(s: string) returns (unbalanced: bool)
    ensures unbalanced <==> Unbalanced(s)
  {
    var single, double := 0, 0;
    for i := 0 to |s|
      invariant single == Count(s[..i], '\'')
      invariant double == Count(s[..i], '"')
    {
      assert s[..i + 1][..i] == s[..i];
      if s[i] == '\'' {
        single := single + 1;
      } else if s[i] == '"' {
        double := double + 1;
      }
    }
    assert s[..|s|] == s;
    unbalanced := single % 2 == 1 || double % 2 == 1;
  }

  lemma {:induction false} CountAppend(a: string, b: string, c: char)
    ensures Count(a + b, c) == Count(a, c) + Count(b, c)
    decreases |b|
  {
    if b != [] {
      assert (a + b)[..|a + b| - 1] == a + b[..|b| - 1];
      assert (a + b)[|a + b| - 1] == b[|b| - 1];
      CountAppend(a, b[..|b| - 1], c);
      assert Count(a + b, c) == Count(a + b[..|b| - 1], c) + (if b[|b| - 1] == c then 1 else 0);
    } else {
      assert a + b == a;
    }
  }

  // ---------------------------------------------------------------------------
  // Pass 2: gluing words back together while a token has unbalanced quotes

  /** `Glue` keeps the list's length or shortens it, yields no tokens from
      no words, and no empty token from non-empty words. */
  lemma {:induction false} GlueShape(ws: seq<string>)
    ensures |Glue(ws)| <= |ws|
    ensures Glue(ws) == [] <==> ws == []
    ensures (forall k :: 0 <= k < |ws| ==> ws[k] != []) ==> forall k :: 0 <= k < |Glue(ws)| ==> Glue(ws)[k] != []
    decreases |ws|
  {
    if ws != [] {
      var init := ws[..|ws| - 1];
      GlueShape(init);
      if forall k :: 0 <= k < |ws| ==> ws[k] != [] {
        assert forall k :: 0 <= k < |init| ==> init[k] != [] by {
          forall k | 0 <= k < |init| ensures init[k] != [] {
            assert init[k] == ws[k];
          }
        }
      }
    }
  }

  /** The token list `split_flags` builds from the words `ws`, one word at a
      time: a word is glued onto the last token while that token is
      unbalanced, and starts a new token otherwise. */
  function Glue(ws: seq<string>): (ts: seq<string>)
    decreases |ws|
  {
    if ws == [] then []
    else
      var ts := Glue(ws[..|ws| - 1]);
      var w := ws[|ws| - 1];
      if |ts| > 0 && Unbalanced(ts[|ts| - 1]) then
        ts[..|ts| - 1] + [ts[|ts| - 1] + " " + w]
      else
        ts + [w]
  }

  /** One step of `Glue`: the next word either extends the last token or
      starts a new one. */
  lemma GlueStep(ws: seq<string>, i: nat, ts: seq<string>, glue: bool)
    requires i < |ws| && ts == Glue(ws[..i])
    requires glue <==> |ts| > 0 && Unbalanced(ts[|ts| - 1])
    ensures glue ==> |ts| > 0 && Glue(ws[..i + 1]) == ts[..|ts| - 1] + [ts[|ts| - 1] + " " + ws[i]]
    ensures !glue ==> Glue(ws[..i + 1]) == ts + [ws[i]]
  {
    var pre := ws[..i + 1];
    assert pre[..|pre| - 1] == ws[..i] && pre[|pre| - 1] == ws[i];
  }

  /** `split_flags(line)`, as a value. */
  function Tokens(line: string): (ts: seq<string>)
    ensures forall k :: 0 <= k < |ts| ==> ts[k] != []
  {
    GlueShape(Words(line));
    Glue(Words(line))
  }

  /** So the tokens do not change either when extra whitespace is inserted
      next to existing whitespace or at either end of the line. */
  lemma TokensExtraSpace(a: string, b: string, c: char)
    requires IsSpace(c)
    requires a == [] || b == [] || IsSpace(b[0]) || IsSpace(a[|a| - 1])
    ensures Tokens(a + [c] + b) == Tokens(a + b)
  {
    WordsExtraSpace(a, b, c);
  }

  method SplitFlags(line: string) returns (res: seq<string>)
    ensures res == Tokens(line)
    ensures forall k :: 0 <= k < |res| ==> res[k] != []
    ensures forall k :: 0 <= k < |res| - 1 ==> !Unbalanced(res[k])
    ensures JoinWords(res) == JoinWords(Words(line))
  {
    var words := Words(line);
    res := GlueWords(words);
    GlueBalanced(words);
    GlueJoin(words);
  }

  /** The loop of `split_flags` over the words: a word is glued to the last
      token while that token has an odd number of quotes of one kind. */
  method GlueWords(words: seq<string>) returns (res: seq<string>)
    ensures res == Glue(words)
  {
    res := [];
    for i := 0 to |words|
      invariant res == Glue(words[..i])
    {
      var w := words[i];
      var unbalanced := false;
      if |res| > 0 {
        unbalanced := UnbalancedQuotes(res[|res| - 1]);
      }
      GlueStep(words, i, res, unbalanced);
      if unbalanced {
        res := res[..|res| - 1] + [res[|res| - 1] + " " + w];
      } else {
        res := res + [w];
      }
    }
    assert words[..|words|] == words;
  }

  /** Every token but possibly the last has an even number of each quote. */
  lemma {:induction false} GlueBalanced(ws: seq<string>)
    ensures forall k :: 0 <= k < |Glue(ws)| - 1 ==> !Unbalanced(Glue(ws)[k])
    decreases |ws|
  {
    if ws != [] {
      GlueBalanced(ws[..|ws| - 1]);
    }
  }

  lemma {:induction false} JoinSnoc(ws: seq<string>, w: string)
    requires ws != []
    ensures JoinWords(ws + [w]) == JoinWords(ws) + " " + w
    decreases |ws|
  {
    if |ws| > 1 {
      assert (ws + [w])[1..] == ws[1..] + [w];
      JoinSnoc(ws[1..], w);
    }
  }

  /** Extending the last word by ` w` extends the joined string by ` w`. */
  lemma JoinExtendLast(h: seq<string>, last: string, w: string)
    ensures JoinWords(h + [last + " " + w]) == JoinWords(h + [last]) + " " + w
  {
    if h == [] {
      assert h + [last + " " + w] == [last + " " + w];
      assert h + [last] == [last];
    } else {
      JoinSnoc(h, last + " " + w);
      JoinSnoc(h, last);
      assert JoinWords(h) + " " + (last + " " + w) == (JoinWords(h) + " " + last) + " " + w;
    }
  }

  /** Gluing only puts back single spaces: joining the tokens with spaces
      gives the words joined with spaces. */
  lemma {:induction false} GlueJoin(ws: seq<string>)
    ensures JoinWords(Glue(ws)) == JoinWords(ws)
    decreases |ws|
  {
    if ws != [] {
      var init, w := ws[..|ws| - 1], ws[|ws| - 1];
      assert ws == init + [w];
      var ts := Glue(init);
      GlueJoin(init);
      if |ts| > 0 && Unbalanced(ts[|ts| - 1]) {
        var h, last := ts[..|ts| - 1], ts[|ts| - 1];
        assert Glue(ws) == h + [last + " " + w];
        assert ts == h + [last];
        assert init != [];
        JoinSnoc(init, w);
        JoinExtendLast(h, last, w);
      } else {
        assert Glue(ws) == ts + [w];
        if ts == [] {
          assert init == [];
        } else {
          JoinSnoc(ts, w);
          JoinSnoc(init, w);
        }
      }
    }
  }

  predicate QuoteFree(s: string)
  {
    forall k :: 0 <= k < |s| ==> s[k] != '\'' && s[k] != '"'
  }

  lemma {:induction false} CountQuoteFree(s: string, c: char)
    requires QuoteFree(s) && (c == '\'' || c == '"')
    ensures Count(s, c) == 0
    decreases |s|
  {
    if s != [] {
      CountQuoteFree(s[..|s| - 1], c);
    }
  }

  /** Words without quote characters are never glued. */
  lemma {:induction false} GlueQuoteFree(ws: seq<string>)
    requires forall k :: 0 <= k < |ws| ==> QuoteFree(ws[k])
    ensures Glue(ws) == ws
    decreases |ws|
  {
    if ws != [] {
      var init := ws[..|ws| - 1];
      GlueQuoteFree(init);
      if |init| > 0 {
        CountQuoteFree(init[|init| - 1], '\'');
        CountQuoteFree(init[|init| - 1], '"');
      }
      assert ws == init + [ws[|ws| - 1]];
    }
  }

  /** A line without quote characters yields exactly its whitespace-split
      words, none of them empty. */
  lemma QuoteFreeLine(line: string)
    requires QuoteFree(line)
    ensures Tokens(line) == Words(line)
    ensures forall k :: 0 <= k < |Tokens(line)| ==> Tokens(line)[k] != []
  {
    var ws := Words(line);
    forall k | 0 <= k < |ws|
      ensures QuoteFree(ws[k])
    {
      forall j | 0 <= j < |ws[k]|
        ensures ws[k][j] != '\'' && ws[k][j] != '"'
      {
        assert ws[k][j] in line;
      }
    }
    GlueQuoteFree(ws);
  }

  // ---------------------------------------------------------------------------
  // A line whose quotes are balanced yields only balanced tokens

  /** Total number of `c` over all strings of `ts`. */
  function SumCount(ts: seq<string>, c: char): nat
    decreases |ts|
  {
    if ts == [] then 0 else Count(ts[0], c) + SumCount(ts[1..], c)
  }

  lemma {:induction false} CountJoinWords(ts: seq<string>, c: char)
    requires c != ' '
    ensures Count(JoinWords(ts), c) == SumCount(ts, c)
    decreases |ts|
  {
    if |ts| == 1 {
      assert ts[1..] == [];
    } else if |ts| > 1 {
      CountJoinWords(ts[1..], c);
      CountAppend(ts[0], " ", c);
      CountAppend(ts[0] + " ", JoinWords(ts[1..]), c);
      assert Count(" ", c) == Count([], c) + 0;
    }
  }

  lemma {:induction false} CountConcat(ws: seq<string>, c: char)
    ensures Count(Concat(ws), c) == SumCount(ws, c)
    decreases |ws|
  {
    if ws != [] {
      CountConcat(ws[1..], c);
      CountAppend(ws[0], Concat(ws[1..]), c);
    }
  }

  lemma {:induction false} CountNonSpace(s: string, c: char)
    requires !IsSpace(c)
    ensures Count(NonSpace(s), c) == Count(s, c)
    decreases |s|
  {
    if s != [] {
      CountNonSpace(s[1..], c);
      assert s == [s[0]] + s[1..];
      CountAppend([s[0]], s[1..], c);
      assert Count([s[0]], c) == Count([], c) + (if s[0] == c then 1 else 0);
      if !IsSpace(s[0]) {
        CountAppend([s[0]], NonSpace(s[1..]), c);
      }
    }
  }

  lemma {:induction false} SumCountParity(ts: seq<string>, c: char)
    requires ts != []
    requires forall k :: 0 <= k < |ts| - 1 ==> Count(ts[k], c) % 2 == 0
    ensures SumCount(ts, c) % 2 == Count(ts[|ts| - 1], c) % 2
    decreases |ts|
  {
    if |ts| > 1 {
      SumCountParity(ts[1..], c);
    }
  }

  /** Quotes are only ever counted, never created or lost: a line with an
      even number of each quote character yields tokens that are all
      balanced, the last one included. */
  lemma BalancedLine(line: string)
    requires !Unbalanced(line)
    ensures forall k :: 0 <= k < |Tokens(line)| ==> !Unbalanced(Tokens(line)[k])
  {
    GlueBalanced(Words(line));
    if Tokens(line) != [] {
      LastTokenParity(line, '\'');
      LastTokenParity(line, '"');
    }
  }

  /** The last token holds as many `c`, modulo two, as the whole line, when
      every other token holds an even number of them. */
  lemma LastTokenParity(line: string, c: char)
    requires c == '\'' || c == '"'
    requires Tokens(line) != []
    requires forall k :: 0 <= k < |Tokens(line)| - 1 ==> Count(Tokens(line)[k], c) % 2 == 0
    ensures Count(Tokens(line)[|Tokens(line)| - 1], c) % 2 == Count(line, c) % 2
  {
    var ws := Words(line);
    var ts := Tokens(line);
    WordsConcat(line);
    CountNonSpace(line, c);
    CountConcat(ws, c);
    CountJoinWords(ws, c);
    GlueJoin(ws);
    CountJoinWords(ts, c);
    SumCountParity(ts, c);
  }
}
