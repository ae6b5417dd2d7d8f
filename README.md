# Flag extraction of YCM-Generator's `config_gen.py`, in Dafny

This project models the part of `config_gen.py` that turns the output of a
dry-run build (`make -n`) into the compiler flags of an editor
configuration. It also proves what that part promises.

The modelled functions:

- `unbalanced_quotes` counts quotes in a string.
- `split_flags` is a whitespace tokenizer that keeps quoted spaces inside a
  token.
- `parse_flags` scans the build log line by line. It:
  - skips lines that build throw-away output;
  - keeps only whitelisted options;
  - records `-D<name>=<value>` macros in a dictionary;
  - pairs path options with their prefixed path;
  - rewrites a glued `-I<path>`;
  - drops paths of intermediate build directories;
  - keeps only the largest word size;
  - turns each recorded macro into one flag;
  - puts `-x c++ -std=c++11` in front of the sorted flags.

Each loop of the Python code is a Dafny `method` with a `while` or `for`
loop. Each method is proved against a specification function, and the
properties are proved about those functions:

| Module | File | Contents |
|---|---|---|
| `Tokenizer` | `tokenizer.dfy` | `UnbalancedQuotes` and `SplitFlags`/`GlueWords` (the two passes of `split_flags`) against `Words`, `Glue` and `Tokens`. |
| `Patterns` | `patterns.dfy` | The five fixed regular expressions (the skip rule, the whitelist, the define pattern, the invalid-path pattern and the word-size pattern `IsWordSize`) as predicates on strings, following Python's `re` rules: `.` excludes newline, and `$` may stop before a final newline. Also POSIX `os.path.join` as `PathJoin`. |
| `Flags` | `flags.dfy` | The accepted-flag datatype `Bare(s) \| Pair(opt, path)`. Python 2 orders mixed `str`/`tuple` values by type name first, so under `FlagLess` every string precedes every tuple. `SortFlags` models `sorted`. |
| `Ordering` | `ordering.dfy` | Python 2 byte-string comparison (`StrLess`), plus `max` and `list.sort` on strings. |
| `Scan` | `scan.dfy` | The token step, the line step and the whole scan (`TokenStep`, `LineStep`, `ScanLog`). Also the folds that show what the accumulators hold after the scan. |
| `Resolve` | `resolve.dfy` | The word-size pass (`ReduceWordSize`) and the macro pass (`ResolveMacros`). |
| `ConfigGen` | `parse_flags.dfy` | `ParseFlags`, the whole function, with the loop body of the token scan as `ScanToken`, and the properties of its result. |

In these places the code does something its comments, or a reader, would not expect; the model follows the code:

- The temporary-output alternative of the skip rule needs exactly one
  character of `[a-zA-Z0-9._]` and one further character before `tmp`. So
  `-o tmp.tmp` does not match it (`Patterns.TempOutputNeedsOneStemChar`).
- The word size kept is the largest under **string** comparison, as Python's
  `max` gives it. So `-m8` beats `-m16` (`Resolve.WordSizeIsStringOrder`).
- The source comment says the last macro value is chosen. The code sorts the
  values and takes `values[0]`, which is the **smallest**
  (`Resolve.ChosenValueIsLeast`).
- `-o` is in `filename_flags` but fails the whitelist, so it never forms a
  pair (`Scan.OutputNeverPaired`).
- A `-D` token with no `=` passes the whitelist and is kept unchanged
  (`Scan.DefineWithoutValueKept`).

## Model

| member | source | states |
|---|---|---|
| Tokenizer.UnbalancedQuotes | config_gen.py:310-322 | The result is true exactly when the string holds an odd number of `'` or an odd number of `"`. |
| Tokenizer.SplitFlags | config_gen.py:290-307 | The result equals `Tokens(line)`. No token is empty. Every token but possibly the last has even counts of both quote kinds. Joining the tokens with single spaces gives the whitespace-split words joined with single spaces. |
| Tokenizer.GlueWords | config_gen.py:299-305 | The merge loop computes `Glue(words)`: each word either extends the last token, after one space, when that token has unbalanced quotes, or starts a new token. |
| Tokenizer.WordsJoinWords | config_gen.py:296 | Splitting words joined by single spaces gives back the words, provided each word is non-empty and holds no whitespace (split inverts join). |
| Tokenizer.WordsConcat | config_gen.py:296 | The whitespace-split words together hold every non-whitespace character of the line, in order. |
| Tokenizer.QuoteFreeLine | config_gen.py:296-305 | A line holding no quote character yields exactly its whitespace-split words, none of them empty. |
| Tokenizer.WordsExtraSpace | config_gen.py:296 | Inserting a whitespace character next to existing whitespace, or at either end of the line, leaves the `split()` words unchanged. |
| Tokenizer.TokensExtraSpace | config_gen.py:296-305 | So such extra whitespace leaves the tokens of `split_flags` unchanged as well. |
| Tokenizer.BalancedLine | config_gen.py:299-305 | If the whole line has balanced quotes, every token has balanced quotes. |
| Tokenizer.LastTokenParity | config_gen.py:299-305 | When all earlier tokens have an even count of a quote kind, the last token's count of it has the parity of the whole line's count. |
| Patterns.TempOutputSkips | config_gen.py:162 | A line compiling to `-o a.tmp` matches the skip rule. |
| Patterns.TempOutputNeedsOneStemChar | config_gen.py:162 | `-o tmp.tmp` does not match the temporary-output alternative. |
| Patterns.WhitelistedShape | config_gen.py:172-173 | A whitelisted token is at least two characters long, starts with `-`, and has one of `iIDFWnsm` as its second character. |
| Patterns.WhitelistRejects | config_gen.py:172-173 | The whitelist rejects all of these: a token not starting with `-`; an option whose second character is not one of `iIDFWnsm` (such as `-o`, `-O2`, `-x`); any `-std=...`; and a `-W` option holding a comma (`-Wa,...`). |
| Patterns.MatchDefineSpec | config_gen.py:179 | A match of the define pattern captures a non-empty name of `[a-zA-Z0-9_]` and a newline-free value. `-D<name>=<value>` is a prefix of the token, and the whole token when it has no newline. Only tokens starting with `-D` match. |
| Patterns.NoValueNoDefine | config_gen.py:179 | A token without `=` never matches the define pattern. |
| Patterns.DefineRoundTrip | config_gen.py:179 | Matching the define pattern against `-D<name>=<value>`, with a valid name and value, gives back exactly that name and value. |
| Patterns.ShortPathValid | config_gen.py:183 | The invalid-path pattern never matches a path shorter than 16 characters. |
| Patterns.IntermediatesRejected | config_gen.py:183 | Every newline-free path holding `out/`, at least one character, then `_intermediates` is rejected, wherever `out/` sits. |
| Patterns.ProguardRejected | config_gen.py:183 | Every newline-free path `<dir>/proguard?flags` with a non-empty `<dir>` is rejected, `?` being any character. |
| Patterns.InvalidBodyShapes | config_gen.py:183 | The converse as well: a newline-free path matches the invalid-path pattern if and only if it has one of those two shapes, so nothing else is rejected. |
| Patterns.FilenameFlagsShape | config_gen.py:182 | Every path-taking option is `-o` or has `I` or `i` as its second character. |
| Patterns.PathJoinSpec | config_gen.py:210-216 | `os.path.join(prefix, path)` ends with `path`. An absolute `path` replaces the prefix. Otherwise the result starts with the prefix, and a non-empty prefix is followed by exactly one slash before `path`. |
| Patterns.PathJoinRelative | config_gen.py:210-216 | A relative path is appended to the prefix, with a slash added unless the prefix is empty or already ends in one. |
| Scan.ContributionShape | config_gen.py:195-220 | A token adds at most one flag. A pair is added only when the token is whitelisted, is in `filename_flags`, is not last, and the next token does not start with `-`; the pair is `(word, join(prefix, next))`. A glued `-I<rest>` adds `-I` followed by `join(prefix, rest)`. Any other whitelisted non-macro token adds itself. Nothing is added whose joined path is invalid, and a macro token adds nothing. |
| Scan.LineAccounting | config_gen.py:186-191 | `line_count + skip_count` is the number of log lines, and `skip_count` is the number of lines the skip rule matches. |
| Scan.TokensUpToStep | config_gen.py:194-220 | The accumulators after `i + 1` tokens are one `TokenStep` from those after `i`, so the fold is the token loop. |
| Scan.RecordSpec | config_gen.py:201-204 | Recording `-D<name>=<value>` adds the name if it is new. The name then holds its old values plus the new one, appended only when it was missing, and stays duplicate-free. Every other name is untouched. |
| Scan.TokensUpToGood | config_gen.py:194-220 | Scanning a line keeps the accumulators well-formed. Every flag passed the whitelist or is a rewritten `-I`, and every path passed the invalid-path check. Every macro's value list is non-empty, holds no duplicates, and holds only values the define pattern captures. |
| Scan.ScanFlagsExactly | config_gen.py:186-220 | A flag is in the accepted set exactly when some token of a non-skipped line contributes it. |
| Scan.ScanDefinesExactly | config_gen.py:199-206 | A name holds a value in the dictionary exactly when some define token of a non-skipped line gives that name that value. |
| Scan.LogContribsAt | config_gen.py:186-220 | Token `i` of non-skipped line `k` has its contribution at a fixed place in the flattened per-token contributions of the log. |
| Scan.LogDefsAt | config_gen.py:199-206 | Token `i` of non-skipped line `k` has its definition at a fixed place in the flattened per-token definitions of the log. |
| Scan.DefinesGrow | config_gen.py:201-204 | Values keep first-seen order: the list a name holds after the first `k` lines is a prefix of its list after the whole log. |
| Scan.DefinesGrowByToken | config_gen.py:201-204 | Values keep first-seen order token by token: the list a name holds after recording the first `j` definitions of the log, in scan order, is a prefix of its list after the whole log. |
| Scan.ScanFlagsShape | config_gen.py:195-220 | No bare flag in the accepted set is a `-D<name>=<value>` definition. None has a shape the whitelist turns away on sight (`TurnedAway`: not starting with `-`, second character none of `iIDFWnsm`, `-std=...`, or `-W...` holding a comma). Every bare flag other than a rewritten `-I<path>` passes the whitelist. Every `-I` path and every pair path passed the invalid-path check. Every pair's option is in `filename_flags` and is not `-o`. |
| Scan.DefineWithoutValueKept | config_gen.py:195-220 | `-DNDEBUG` records no macro and is added to the set unchanged. |
| Scan.OutputNeverPaired | config_gen.py:195-196 | `-o main.o` contributes nothing: `-o` fails the whitelist. |
| Scan.PairExample | config_gen.py:209-212 | `-isystem inc` with prefix `/top` adds the pair `("-isystem", "/top/inc")`. |
| Scan.LoneIncludeFlag | config_gen.py:213-218 | A lone `-I` with prefix `src` adds `-Isrc/`. |
| Scan.InvalidIncludeDropped | config_gen.py:209-218 | For any include prefix, a newline-free directory not starting with `-` whose joined path the invalid-path pattern matches adds nothing, whether it follows `-I` as a separate token or is glued to it. |
| Scan.IntermediatesIncludeDropped | config_gen.py:209-218 | For any newline-free include prefix, `-I out/<b>_intermediates<c>` and `-Iout/<b>_intermediates<c>`, with non-empty `<b>`, add nothing. |
| Scan.ProguardIncludeDropped | config_gen.py:209-218 | For any newline-free include prefix, `-I <dir>/proguard?flags` and `-I<dir>/proguard?flags`, with a non-empty `<dir>` not starting with `-`, add nothing, whether `<dir>` is absolute or relative. |
| Flags.SortFlags | config_gen.py:245 | `sorted(flags)` returns a strictly increasing list holding exactly the set's elements, as many as the set has. |
| Flags.SortedUnique | config_gen.py:245 | Two strictly increasing lists with the same elements are equal, so the sorted order is unique. |
| Flags.InsertFlag | config_gen.py:245 | Inserting into an ordered list keeps it strictly increasing, adds exactly the new element, and grows it by one. |
| Flags.StrictlyIncreasingNoDuplicates | config_gen.py:245 | A strictly increasing list has no duplicates. |
| Flags.BareBeforePairs | config_gen.py:245 | Python 2 orders every `str` before every tuple, so in a sorted list every bare flag comes before every pair. |
| Ordering.MaxStr | config_gen.py:231 | `max` returns an element of the list that no element exceeds under string comparison. |
| Ordering.SortStrings | config_gen.py:237 | `values.sort()` gives an ordered permutation. |
| Resolve.ReduceWordSize | config_gen.py:224-231 | The word-size pass computes `WordSizeReduced(flags)`. |
| Resolve.WordSizeReducedSpec | config_gen.py:224-231 | After the pass at most one word-size flag is left. If there were any, the one left is the largest under string comparison. Every other flag is unchanged, and nothing is added. |
| Resolve.LargestUnique | config_gen.py:231 | The largest string of a set is the only element that no other element exceeds. |
| Resolve.WordSizeIsStringOrder | config_gen.py:227-231 | From `-m8` and `-m16`, `-m8` is kept. |
| Resolve.ChosenValue | config_gen.py:235-239 | The value kept for a macro is one of its values and is the least of them. |
| Resolve.ChosenValueIsLeast | config_gen.py:233-239 | Of `foo`, then `bar`, `bar` is kept. The smallest value is kept, not the last one the comment mentions. |
| Resolve.ResolveMacros | config_gen.py:234-239 | The macro pass adds exactly one `-D<name>=<value>` flag per recorded name, using the chosen value, to the set. |
| Resolve.MacroFlagsOfAdd | config_gen.py:234-239 | Handling one more recorded name adds exactly that name's flag. |
| Resolve.MacroExactlyOne | config_gen.py:234-239 | Each recorded name gives exactly one macro flag that the define pattern reads back as that name with its chosen value. Every macro flag reads back that way. An unrecorded name gives none. |
| Resolve.MacroFlagsNoWordSize | config_gen.py:224-239 | No macro flag is a word-size flag. |
| ConfigGen.ScanToken | config_gen.py:194-220 | One pass of the token loop computes `TokenStep`, covering the whitelist check, macro recording, the pair and the glued `-I` with invalid-path rejection, and the bare flag. |
| ConfigGen.ParseFlags | config_gen.py:149-246 | The line counts add up to the log length, and the skip count is the number of matching lines. The result is `-x c++ -std=c++11` followed by a strictly increasing list of exactly the final flag set, with bare flags before pairs, and it has no duplicates at all. |
| ConfigGen.ResultDeterministic | config_gen.py:245 | The sorted part of the result is determined by the final set alone. It does not depend on set or dictionary iteration order. |
| ConfigGen.FinalShape | config_gen.py:195-245 | Every bare flag of the final set either passes the whitelist and is no `-I`, or is a `-I` whose path passed the invalid-path check. Every pair's option is in `filename_flags`, is not `-o`, and its path passed the check. |
| ConfigGen.FinalNotTurnedAway | config_gen.py:195-245 | No bare flag of the final set has one of the four shapes the whitelist turns away on sight (`TurnedAway`): not starting with `-`, a second character none of `iIDFWnsm` (such as `-O2`), `-std=...`, or `-W...` holding a comma (such as `-Wa,...`). |
| ConfigGen.MacroFlagWhitelisted | config_gen.py:239 | A synthesized macro flag with a valid name and value passes the whitelist itself. |
| ConfigGen.ExtraFlagsNotFinal | config_gen.py:244-245 | None of the three prefix flags passes the whitelist, so none of them is in the final set. |
| ConfigGen.FinalWordSize | config_gen.py:224-245 | The final set holds at most one word-size flag. If the scan found any, it is the largest under string comparison. |
| ConfigGen.FinalMacros | config_gen.py:199-245 | In the final set, each recorded macro name has exactly one flag that the define pattern reads as a definition of that name, with its least value. An unrecorded name has none. |

## Left out

- `main` (config_gen.py:29-106) is left out: it is argument parsing, file-system checks, an interactive prompt and exit codes.
- `fake_build` (config_gen.py:109-146) is left out: it runs `make` through `subprocess` and measures time.
- `generate_cc_conf` and `generate_ycm_conf` (config_gen.py:249-287) are left out: they only write files.
- `build_log.seek(0)` (config_gen.py:158) is not modelled. The log is given as its sequence of lines, read from the start.
- The `WARNING` message (config_gen.py:236) is not modelled, because it is output only.
- The default `make` flags built with `multiprocessing.cpu_count()` (config_gen.py:19) are not modelled.
- Strings are sequences of `char`, and each `char` stands for one byte of a Python 2 `str`. There is no encoding or decoding.
- The regular expressions are written out as predicates, one per pattern. There is no general regex engine.
- Flags.SortFlags models only the result of `sorted`, built by insertion. Timsort itself is not modelled.
- Ordering.SortStrings and Ordering.MaxStr likewise model only what `list.sort` and `max` return, not how they compute it.
- Python's set and dictionary iteration order is not modelled. The methods pick elements in an arbitrary order, and `ResultDeterministic` shows the result does not depend on it.
- Resolve.ReduceWordSize models the word-size branch on the set's value. The Python code changes the same set object in place.
