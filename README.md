# Highcharts output of bloodytrinkets, modelled in Dafny

bloodytrinkets simulates the DPS of a class with each trinket at several
item levels. It then writes a Highcharts stacked bar chart: one bar per
trinket and one stacked segment per item level. `lib/output/highcharts.py`
turns the normalised trinket table into that chart. This project models its
deterministic core in three parts.

- **Borders** (`borders.dfy`): `__get_dps_ilevel_borders` finds the lowest
  and the highest item level at which a trinket has a sample. It is modelled
  as a method that loops over the trinket's levels in an unspecified order.
  The method is proved against ghost definitions: the minimum of
  `{1200} ∪ present levels` and the maximum of `{0} ∪ present levels`.
- **Series** (`series.dfy`): the `categories` and `series` built in
  `print_highchart`. This is a method with the source's nested loops. It is
  proved to produce:
  - the categories in the given order;
  - the raw legendary series first;
  - for every level of the ordering, a series of per-trinket *marginal*
    values.

  Each marginal value is given by `DeltaValue`, which has the source's six
  outcomes:
  - the raw base tier;
  - a missing sample between the borders, rebuilt by halving;
  - a missing sample outside the borders, which gives 0;
  - the clamp to 0;
  - the gap bridge over two levels;
  - the plain difference.

  Python's negative index at `i - 1` and the `IndexError` of the `i + 2`
  lookup are modelled explicitly. The `IndexError` is a `Result` value.
- **Text** and **Emitter** (`text.dfy`, `emitter.dfy`):
  - The writer's `str.replace`, `str.split`, `in` and line-by-line file
    reading are modelled on `seq<char>`, with Python's left-to-right,
    non-overlapping matching. Python's `sep.join` is modelled too, as a
    reference definition that the replacements are proved against.
  - The chart file is written as a call header, the JSON text and a closing
    `);`. That text is read back line by line, and each line is rewritten:
    - keys lose their quotes;
    - `'''`-marked JavaScript fragments lose their quotes and escaped
      newlines;
    - otherwise a doubly escaped `\u` is restored.

  `WriteChart` is that loop. Lemmas state what the rewrite does to each kind
  of line, and how the output is framed.

Samples and item levels are integers. A sample of 0 means "missing", as the
string `"0"` does in the source. The `settings` module becomes parameters:
- the item-level ordering;
- the legendary level;
- the legendary colour;
- the colour map.

## Model

| member | source | states |
|---|---|---|
| Borders.DpsIlevelBorders | lib/output/highcharts.py:18-29 | Whatever order the levels are visited in, the result is the least of 1200 and the present levels, and the greatest of 0 and the present levels. A level is present when its sample is non-zero. |
| Borders.BordersAreExtremes | lib/output/highcharts.py:20-27 | The lowest border is the smallest present level when one lies below 1200, else 1200. The highest border is the largest present level when one lies above 0, else 0. |
| Borders.NothingBetweenWhenAllMissing | lib/output/highcharts.py:20-29 | A trinket without any present sample gets the borders (1200, 0), so no level lies strictly between them. |
| Series.TruncHalf | lib/output/highcharts.py:87-91 | `int(d / 2.0)`: twice the result lies between 0 and d and differs from d by at most 1. It rounds toward zero for negative d too. |
| Series.Wrapped | lib/output/highcharts.py:89 | Python's `ilevels[i - 1]`: for an index from -n to n-1 it is the level at that index taken modulo n, so -1 is the last level. |
| Series.DeltaValue | lib/output/highcharts.py:78-109 | One trinket's value for level i. The only failure is an IndexError for index n, from level n-2. |
| Series.BuildSeries | lib/output/highcharts.py:47-119 | Fails with IndexError(n) exactly when some trinket's value fails. Otherwise: the categories are the names in order; there are n+1 series; the first is the legendary level in its colour with each trinket's raw legendary sample, in category order; series k+1 is level k in its colour with each trinket's value for level k, in category order. |
| Series.TerminalTierIsRaw | lib/output/highcharts.py:79-80 | For the last level of the ordering, or any level equal to it, the value is the raw sample. |
| Series.MissingSample | lib/output/highcharts.py:83-94 | A missing sample strictly between the borders becomes half of (previous minus next), truncated toward zero. The previous level of index 0 is the last level. Outside the borders the value is 0. |
| Series.PresentSample | lib/output/highcharts.py:96-109 | A present sample smaller than the next one gives 0. Otherwise, unless the gap bridge applies, it gives the plain difference to the next sample. |
| Series.GapBridge | lib/output/highcharts.py:98-105 | A present sample followed by a missing one above the lowest border gives half of (this minus the sample two levels on), truncated. From the second-to-last level it gives IndexError(n). |
| Series.NegativeOnlyFromHalving | lib/output/highcharts.py:83-109 | With non-negative samples, a negative value comes only from one of the two halving rules. |
| Series.StackSumsToSample | lib/output/highcharts.py:78-109 | Suppose every sample from level i on is present and non-increasing, and the base level occurs only at the end. Then no value fails, and the stacked values from i down to the base add up to the sample at level i. |
| Series.WorkedExample | lib/output/highcharts.py:83-109 | Levels 300, 200, 100 with samples 700, missing, 500 give 100, 100, 500. The bar still reaches 700. |
| Series.NegativeExample | lib/output/highcharts.py:83-105 | Levels 100, 200, 300 with samples 500, missing, 700 give -100, -100, 700: both halving rules can make a series value negative. The bar still ends at 500. |
| Series.IndexErrorExample | lib/output/highcharts.py:98-105 | Levels 100, 200, 300 with samples missing, 500, missing: level 200 fails with IndexError(3). |
| Text.Replace | lib/output/highcharts.py:213-220 | Python's `str.replace`, matching left to right without overlap. ReplaceFirst, ReplaceAround, ReplaceAbsent and ReplaceIsJoinSplit state what it does. |
| Text.Join | lib/output/highcharts.py:220 | Python's `sep.join`, which the writer itself does not call: the reference definition that ReplaceIsJoinSplit and UnmarkedLineEscapes tie to the replace at line 220. SplitJoin ties it to split. |
| Text.RemoveChar | lib/output/highcharts.py:213 | Removing `"`: the result keeps every other character with its multiplicity, and loses every copy of the removed one. |
| Text.Split | lib/output/highcharts.py:213-214 | `str.split` always yields at least one piece. |
| Text.Lines | lib/output/highcharts.py:210 | Python's `for line in file`: the list of lines is empty exactly when the text is. LinesSound, LinesAppend and LinesSingle state the rest. |
| Text.LinesSound | lib/output/highcharts.py:210 | Reading a file line by line: the lines concatenate back to the text. Every line is non-empty with a newline at most at its end, and all but the last end with a newline. |
| Text.SplitJoin | lib/output/highcharts.py:213-214 | Joining the pieces of a split with the separator gives back the original line. |
| Text.ReplaceIsJoinSplit | lib/output/highcharts.py:213-220 | `s.replace(p, r)` equals `r.join(s.split(p))`. |
| Text.SplitAbsent | lib/output/highcharts.py:213-214 | Splitting a line that lacks the separator gives the line itself. |
| Text.SplitOccurs | lib/output/highcharts.py:212-214 | Splitting a line that contains the separator gives at least two pieces, so the index 1 lookup is safe. |
| Text.SplitAtFirst | lib/output/highcharts.py:213-214 | For a separator that cannot overlap itself, a split cuts at the first occurrence and continues on the rest. |
| Text.ReplaceFirst | lib/output/highcharts.py:217-220 | For a pattern that cannot overlap itself, the first occurrence in `x + p + y` (x free of p) becomes r, and replacing goes on in y. |
| Text.ReplaceAround | lib/output/highcharts.py:217-220 | For a pattern that cannot overlap itself, replacing acts on each side of an occurrence independently. |
| Text.ReplaceAbsent | lib/output/highcharts.py:217-220 | Replacing a pattern that does not occur changes nothing. |
| Text.ReplaceCharIsRemove | lib/output/highcharts.py:213 | Replacing `"` by the empty string is removing every `"`. |
| Text.LinesAppend | lib/output/highcharts.py:210 | A text that ends with a newline reads as its own lines followed by those of what comes after it. |
| Text.LinesSingle | lib/output/highcharts.py:210 | A non-empty text with no newline before its end reads as one line. The empty text reads as no line at all. |
| Text.ConcatMapAppend | lib/output/highcharts.py:210-223 | Rewriting and writing lines one by one distributes over a split of the line list. |
| Emitter.Target | lib/output/highcharts.py:203 | Python's `filename[10:]`: a name longer than 10 characters is its first 10 followed by the target; a name of at most 10 characters gives the empty target. |
| Emitter.Header | lib/output/highcharts.py:203 | The header line `Highcharts.chart('<target>', ` with its newline. HeaderLine states how it is read back and written. |
| Emitter.RawText | lib/output/highcharts.py:203-205 | The raw file: header, JSON text, `);`. WriteChart and OutputFraming state what becomes of it. |
| Emitter.KeyFix | lib/output/highcharts.py:212-214 | Key de-quoting of one line; a line without `":` is kept. KeyFixAt, KeyFixFirstKey and KeyFixDropsRest state its result. |
| Emitter.FixLine | lib/output/highcharts.py:216-223 | Marker unwrapping, else `\\u` restoring, else the line as it is. UnwrapRawCode, UnwrapKeepsFragment and UnmarkedLineEscapes state its result. |
| Emitter.RewriteLine | lib/output/highcharts.py:212-223 | The whole rewrite of one line: key de-quoting, then FixLine. InertLineUnchanged, RewriteRawCodeEntry and RewriteUnicodeEntry state its result for each kind of line. |
| Emitter.WriteChart | lib/output/highcharts.py:202-223 | The output is the raw text (header, JSON, `);`) read back line by line, with each line rewritten and written in order. |
| Emitter.InertLineUnchanged | lib/output/highcharts.py:210-223 | A line with no `"` and no backslash is written unchanged. |
| Emitter.KeyFixFirstKey | lib/output/highcharts.py:212-214 | Take a line `a": b` where neither a nor b contains `":`. It becomes a with every `"` removed, then `:`, then b. |
| Emitter.KeyFixAt | lib/output/highcharts.py:212-214 | A line `a": rest` whose a holds no `":` becomes a with every `"` removed, then `:`, then the part of rest before its own first `":`. |
| Emitter.KeyFixDropsRest | lib/output/highcharts.py:212-214 | In a line `a": b": c` with a and b free of `":`, everything from the second `":` on is dropped. |
| Emitter.QuotedKey | lib/output/highcharts.py:212-214 | An indented `"key": value` line becomes `key: value`, when the indentation holds no `"`, the key holds no `"` and no `:`, and the value holds no `":`. |
| Emitter.NoKeyEndBeforeKey | lib/output/highcharts.py:212 | An indentation without `"`, then `"`, then a key without `"` and without `:`, holds no `":`. |
| Emitter.UnquoteKey | lib/output/highcharts.py:213 | When the indentation and the key hold no `"`, removing quotes from `indent"key` leaves the indentation and the key. |
| Emitter.UnwrapRawCode | lib/output/highcharts.py:216-218 | A marked fragment between quote-free text loses both markers and its escaped newlines. The surrounding text and every quote inside the fragment are kept. |
| Emitter.UnwrapKeepsFragment | lib/output/highcharts.py:216-221 | Take a marked fragment with no escaped newline, no `'''"`, no `"'` and no `"` at its end, between text free of `"`, `'` and backslash. It comes out verbatim, so a marked line does not get the `\\u` fix. |
| Emitter.OpeningPass | lib/output/highcharts.py:217 | When the text before the fragment has no `"`, the text after it has no `'`, and the fragment has no `"'` and no `"` at its end, the first replacement turns the single opening marker into `\n` and touches nothing else. |
| Emitter.ClosingPass | lib/output/highcharts.py:217 | When the text before the fragment has no `'`, the text after it has no `"`, and the fragment has no `'''"`, the second replacement turns the single closing marker into `\n` and touches nothing else. |
| Emitter.NewlinePass | lib/output/highcharts.py:217 | When the text before and after the fragment holds no backslash, the third replacement drops both markers' `\n` and the fragment's own, and nothing else. |
| Emitter.RewriteRawCodeEntry | lib/output/highcharts.py:212-218 | A whole JSON line `"key": "'''code'''"` becomes `key: code` with the escaped newlines of the code removed. |
| Emitter.RawCodeKeyFix | lib/output/highcharts.py:212-214 | When the indentation has no `"`, the key has no `"` and no `:`, the fragment has no `":` and the text after it has no `:`, de-quoting a raw-fragment line changes only its key. |
| Emitter.UnmarkedLineEscapes | lib/output/highcharts.py:216-223 | A line without either marker is cut at each `\\u` and glued back with `\u`. A line with no `\\u` is unchanged. |
| Emitter.RestoreEscape | lib/output/highcharts.py:219-221 | The one `\\u` of a line free of apostrophes and other backslashes becomes `\u`. Everything else is kept. |
| Emitter.RewriteUnicodeEntry | lib/output/highcharts.py:212-221 | A JSON line `"key": "…\\u…"` becomes `key: "…\u…"`. |
| Emitter.OutputFraming | lib/output/highcharts.py:203-205 | Suppose the target name and the last JSON line hold no quote, backslash or newline. Then the output is the header line, then the rewritten JSON lines before the last, then the last line followed by `);`. |
| Emitter.HeaderLine | lib/output/highcharts.py:203 | When the target name holds no `"`, backslash or newline, the header `Highcharts.chart('<name from character 10 on>', ` is read back as one line and written unchanged. |
| Emitter.TailLine | lib/output/highcharts.py:205 | When the last JSON line holds no `"`, backslash or newline, that line with the closing `);` is read back as one line and written unchanged. |

## Left out

- File input and output are not modelled: the raw and final files, their opening, and `os.remove`. `WriteChart` returns the text the final file would hold.
- The JSON text that `json.dump(..., indent=4, sort_keys=True)` writes is an input of `WriteChart`. The serialiser's layout is not modelled, and neither is the chart dictionary itself.
- The timestamp in the subtitle, the title and the constant styling tree with its JavaScript fragments are not modelled. They carry no logic, and the timestamp depends on the clock.
- The `settings` module becomes parameters. Those parameters are the item-level ordering, the legendary level, the legendary colour and the colour map.
- Samples and levels are integers. The source parses decimal strings with `int()` and tests for missing samples with `== "0"`. The model assumes canonical decimals, where "missing" is exactly the value 0.
- Series.BuildSeries: a missing trinket name, a missing level or legendary sample, or a missing colour raises KeyError in the source. In the model this is the precondition `Covers` and not an error result.
- Series.TruncHalf: `int(x / 2.0)` goes through a float. The model is exact integer halving toward zero, which differs from the float result only when a sample difference exceeds 2^53 in magnitude.
- Text.Lines: Python's default text mode also treats `\r` and `\r\n` as line ends, and on reading translates each of them to `\n`. The model splits on `\n` only and keeps every character as it is.
- Emitter.UnwrapRawCode, Emitter.RewriteRawCodeEntry, Emitter.RestoreEscape, Emitter.RewriteUnicodeEntry, Emitter.QuotedKey, Emitter.HeaderLine, Emitter.TailLine and Emitter.OutputFraming hold under the stated side conditions on the surrounding text. Examples: no stray quote or backslash outside the fragment, and no `"'` inside it. Other lines follow the general definitions `KeyFix` and `FixLine`, and there is no lemma for their exact output.
- Text.LinesSingle: holds for non-empty texts only, because the empty text has no line.
- Emitter.NoKeyEndBeforeKey: holds only for a key without `:`; a key that starts with `:` puts `":` right after the opening quote.
- Emitter.UnwrapKeepsFragment: holds only under the side conditions of Emitter.UnwrapRawCode; a fragment such as `x"'''y` loses its inner marker.
- Emitter.OpeningPass: holds only when the text before the fragment has no `"`, the text after it has no `'`, and the fragment has no `"'` and does not end in `"`.
- Emitter.ClosingPass: holds only when the text before the fragment has no `'`, the text after it has no `"`, and the fragment has no `'''"`.
- Emitter.NewlinePass: holds only when the text around the fragment holds no backslash.
- Emitter.RawCodeKeyFix: holds only for a key without `"` or `:`, a fragment without `":` and following text without `:`; a `":` after the fragment cuts the line there.
- The commented-out earlier writer after the function is not modelled.
