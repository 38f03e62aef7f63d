/** The writer of the chart file (`print_highchart`, from the raw file on).
    The chart is first written as a call header, the JSON text of the chart
    and a closing `);`; that text is then read back line by line and each
    line is rewritten so that keys lose their quotes, the `'''`-marked
    JavaScript fragments lose their quotes and escaped newlines, and a
    doubly escaped `\u` is restored. The JSON text itself is an input. */
module Emitter {
  import opened Text

  /** `":`, the end of a quoted key. */
  const KeyEnd: string := "\":"
  /** `"'''`, the start of a raw JavaScript fragment as JSON quotes it. */
  const RawOpen: string := "\"'''"
  /** `'''"`, the end of a raw JavaScript fragment as JSON quotes it. */
  const RawClose: string := "'''\""
  /** A backslash and `n`: a newline as JSON escapes it. */
  const EscapedNewline: string := "\\n"
  /** Two backslashes and `u`: a `\u` escape that JSON escaped once more. */
  const DoubleEscapedU: string := "\\\\u"
  /** A backslash and `u`. */
  const EscapedU: string := "\\u"
  /** The text written after the JSON. */
  const Footer: string := ");"
  /** How many leading characters of the file name the header leaves out. */
  const PrefixLength := 10

  /** Key de-quoting: a line with `":` keeps the text before its first `":`
      without any `"`, then `:`, then the text up to the next `":`. */
  function KeyFix(line: string): string
  {
    if Occurs(line, KeyEnd) then
      SplitOccurs(line, KeyEnd);
      var parts := Split(line, KeyEnd);
      Replace(parts[0], "\"", "") + ":" + parts[1]
    else
      line
  }

  /** Unwrapping of raw fragments, or else restoring of `\u`. */
  function FixLine(line: string): string
  {
    if Occurs(line, RawOpen) || Occurs(line, RawClose) then
      var marked := Replace(Replace(line, RawOpen, EscapedNewline), RawClose, EscapedNewline);
      Replace(marked, EscapedNewline, "")
    else if Occurs(line, DoubleEscapedU) then
      Replace(line, DoubleEscapedU, EscapedU)
    else
      line
  }

  /** The rewrite applied to each line of the raw file. */
  function RewriteLine(line: string): string
  {
    FixLine(KeyFix(line))
  }

  /** Python's `filename[10:]`: empty when the name is shorter. */
  function Target(filename: string): (target: string)
    ensures |filename| > PrefixLength ==> filename == filename[..PrefixLength] + target
    ensures |filename| <= PrefixLength ==> target == []
  {
    if |filename| <= PrefixLength then [] else filename[PrefixLength..]
  }

  /** The first line of the file: a call to `Highcharts.chart` on the
      target derived from the file name. */
  function Header(filename: string): string
  {
    "Highcharts.chart('" + Target(filename) + "', \n"
  }

  /** The raw file: header, JSON text, closing `);`. */
  function RawText(filename: string, json: string): string
  {
    Header(filename) + json + Footer
  }

  /** Writes the raw text, reads it back line by line and writes every line
      rewritten. */
  method WriteChart(filename: string, json: string) returns (out: string)
    ensures out == ConcatMap(RewriteLine, Lines(RawText(filename, json)))
  {
    var lines := Lines(RawText(filename, json));
    out := [];
    for k := 0 to |lines|
      invariant out == ConcatMap(RewriteLine, lines[..k])
    {
      assert lines[..k + 1][..k] == lines[..k];
      out := out + RewriteLine(lines[k]);
    }
    assert lines[..|lines|] == lines;
  }

  // ---------------------------------------------------------------------
  // Facts about the markers

  lemma MarkersBorderless()
    ensures Borderless(KeyEnd) && Borderless(RawOpen) && Borderless(RawClose)
    ensures Borderless(EscapedNewline) && Borderless(DoubleEscapedU)
  {
    BorderlessByFirst(KeyEnd);
    BorderlessByFirst(RawOpen);
    BorderlessByLast(RawClose);
    BorderlessByFirst(EscapedNewline);
    BorderlessByLast(DoubleEscapedU);
  }

  // ---------------------------------------------------------------------
  // Lines left alone

  /** A line without `"` and without a backslash is written unchanged. */
  lemma InertLineUnchanged(line: string)
    requires NoneOf(line, {'"', '\\'})
    ensures RewriteLine(line) == line
  {
    AbsentChar(line, KeyEnd, 0);
    AbsentChar(line, RawOpen, 0);
    AbsentChar(line, RawClose, 3);
    AbsentChar(line, DoubleEscapedU, 0);
  }

  // ---------------------------------------------------------------------
  // Key de-quoting

  /** Before the first `":` every `"` goes, the `":` becomes `:`, and the
      text after it stays when it holds no second `":`. */
  lemma KeyFixFirstKey(a: string, b: string)
    requires !Occurs(a, KeyEnd) && !Occurs(b, KeyEnd)
    ensures KeyFix(a + KeyEnd + b) == RemoveChar(a, '"') + ":" + b
  {
    KeyFixAt(a, b);
    SplitAbsent(b, KeyEnd);
  }

  /** Everything from a second `":` on is dropped. */
  lemma KeyFixDropsRest(a: string, b: string, c: string)
    requires !Occurs(a, KeyEnd) && !Occurs(b, KeyEnd)
    ensures KeyFix(a + KeyEnd + b + KeyEnd + c) == RemoveChar(a, '"') + ":" + b
  {
    MarkersBorderless();
    var rest := b + KeyEnd + c;
    assert a + KeyEnd + b + KeyEnd + c == a + KeyEnd + rest;
    KeyFixAt(a, rest);
    SplitAtFirst(b, c, KeyEnd);
  }

  /** The line is cut at its first `":`: the key part loses its quotes and
      the value part runs to the next `":`. */
  lemma KeyFixAt(a: string, rest: string)
    requires !Occurs(a, KeyEnd)
    ensures KeyFix(a + KeyEnd + rest) == RemoveChar(a, '"') + ":" + Split(rest, KeyEnd)[0]
  {
    MarkersBorderless();
    var line := a + KeyEnd + rest;
    assert OccursAt(line, KeyEnd, |a|) by {
      assert line[|a|..|a| + 2] == KeyEnd;
    }
    SplitAtFirst(a, rest, KeyEnd);
    ReplaceCharIsRemove(a, '"');
  }

  /** An indented quoted key `"key":` loses its quotes. */
  lemma QuotedKey(indent: string, key: string, value: string)
    requires NoneOf(indent, {'"'}) && NoneOf(key, {'"', ':'})
    requires !Occurs(value, KeyEnd)
    ensures KeyFix(indent + "\"" + key + KeyEnd + value) == indent + key + ":" + value
  {
    var a := indent + "\"" + key;
    NoKeyEndBeforeKey(indent, key);
    KeyFixFirstKey(a, value);
    UnquoteKey(indent, key);
  }

  lemma NoKeyEndBeforeKey(indent: string, key: string)
    requires NoneOf(indent, {'"'}) && NoneOf(key, {'"', ':'})
    ensures !Occurs(indent + "\"" + key, KeyEnd)
  {
    AbsentChar(indent, KeyEnd, 0);
    AbsentChar("\"", KeyEnd, 1);
    NoPairConcat(indent, "\"", KeyEnd);
    AbsentChar(key, KeyEnd, 0);
    NoPairConcat(indent + "\"", key, KeyEnd);
  }

  lemma UnquoteKey(indent: string, key: string)
    requires NoneOf(indent, {'"'}) && NoneOf(key, {'"'})
    ensures RemoveChar(indent + "\"" + key, '"') == indent + key
  {
    RemoveCharAround(indent, key, '"');
  }

  // ---------------------------------------------------------------------
  // Raw fragments

  /** A marked fragment loses both markers and its escaped newlines; the
      text around it and every quote inside it stay. The fragment may not
      hold a `"` right before a `'` or at its end, nor the closing marker. */
  lemma UnwrapRawCode(pre: string, code: string, post: string)
    requires NoneOf(pre, {'"', '\'', '\\'}) && NoneOf(post, {'"', '\'', '\\'})
    requires !Occurs(code + "'", "\"'") && !Occurs(code, RawClose)
    ensures FixLine(pre + RawOpen + code + RawClose + post) ==
            pre + Replace(code, EscapedNewline, "") + post
  {
    var line := pre + RawOpen + code + RawClose + post;
    assert OccursAt(line, RawOpen, |pre|) by {
      assert line[|pre|..|pre| + 4] == RawOpen;
    }
    OpeningPass(pre, code, post);
    ClosingPass(pre, code, post);
    NewlinePass(pre, code, post);
  }

  /** A fragment without escaped newlines comes out exactly as it went in:
      in particular a marked line does not get the `\\u` fix. */
  lemma UnwrapKeepsFragment(pre: string, code: string, post: string)
    requires NoneOf(pre, {'"', '\'', '\\'}) && NoneOf(post, {'"', '\'', '\\'})
    requires !Occurs(code + "'", "\"'") && !Occurs(code, RawClose)
    requires !Occurs(code, EscapedNewline)
    ensures FixLine(pre + RawOpen + code + RawClose + post) == pre + code + post
  {
    UnwrapRawCode(pre, code, post);
    ReplaceAbsent(code, EscapedNewline, "");
  }

  /** The first replacement turns the only opening marker into `\n`. */
  lemma OpeningPass(pre: string, code: string, post: string)
    requires NoneOf(pre, {'"'}) && NoneOf(post, {'\''})
    requires !Occurs(code + "'", "\"'")
    ensures Replace(pre + RawOpen + code + RawClose + post, RawOpen, EscapedNewline) ==
            pre + EscapedNewline + code + RawClose + post
  {
    BorderlessByFirst(RawOpen);
    var x := code + RawClose + post;
    AbsentChar(pre, RawOpen, 0);
    NoQuoteApostrophe(code, post);
    assert RawOpen[..2] == "\"'";
    PatternPrefix(x, RawOpen, 2);
    ReplaceFirst(pre, x, RawOpen, EscapedNewline);
    ReplaceAbsent(x, RawOpen, EscapedNewline);
    Regroup5(pre, RawOpen, code, RawClose, post);
    Regroup5(pre, EscapedNewline, code, RawClose, post);
  }

  /** The second replacement turns the only closing marker into `\n`. */
  lemma ClosingPass(pre: string, code: string, post: string)
    requires NoneOf(pre, {'\''}) && NoneOf(post, {'"'})
    requires !Occurs(code, RawClose)
    ensures Replace(pre + EscapedNewline + code + RawClose + post, RawClose, EscapedNewline) ==
            pre + EscapedNewline + code + EscapedNewline + post
  {
    MarkersBorderless();
    var y := pre + EscapedNewline + code;
    NoneOfConcat(pre, EscapedNewline, {'\''});
    LeadFree(pre + EscapedNewline, code, RawClose);
    ReplaceAbsent(y, RawClose, EscapedNewline);
    AbsentChar(post, RawClose, 3);
    ReplaceAbsent(post, RawClose, EscapedNewline);
    ReplaceAround(y, post, RawClose, EscapedNewline);
  }

  /** The third replacement drops every `\n`: the two markers' and the
      fragment's own. */
  lemma NewlinePass(pre: string, code: string, post: string)
    requires NoneOf(pre, {'\\'}) && NoneOf(post, {'\\'})
    ensures Replace(pre + EscapedNewline + code + EscapedNewline + post, EscapedNewline, "") ==
            pre + Replace(code, EscapedNewline, "") + post
  {
    var z := code + EscapedNewline + post;
    assert pre + EscapedNewline + code + EscapedNewline + post == pre + EscapedNewline + z;
    DropNewlineAfter(pre, z);
    DropNewlineBefore(code, post);
  }

  lemma DropNewlineAfter(pre: string, z: string)
    requires NoneOf(pre, {'\\'})
    ensures Replace(pre + EscapedNewline + z, EscapedNewline, "") == pre + Replace(z, EscapedNewline, "")
  {
    BorderlessByFirst(EscapedNewline);
    AbsentChar(pre, EscapedNewline, 0);
    ReplaceFirst(pre, z, EscapedNewline, "");
  }

  lemma DropNewlineBefore(code: string, post: string)
    requires NoneOf(post, {'\\'})
    ensures Replace(code + EscapedNewline + post, EscapedNewline, "") == Replace(code, EscapedNewline, "") + post
  {
    MarkersBorderless();
    AbsentChar(post, EscapedNewline, 0);
    ReplaceAbsent(post, EscapedNewline, "");
    ReplaceAround(code, post, EscapedNewline, "");
  }

  /** No `"` is followed by `'` in a fragment, its closing marker and the
      text after it. */
  lemma NoQuoteApostrophe(code: string, post: string)
    requires NoneOf(post, {'\''})
    requires !Occurs(code + "'", "\"'")
    ensures !Occurs(code + RawClose + post, "\"'")
  {
    NoOccursLeft(code, "'", "\"'");
    if |code| > 0 {
      assert !OccursAt(code + "'", "\"'", |code| - 1);
      assert (code + "'")[|code| - 1..|code| + 1] == [code[|code| - 1], '\''];
    }
    AbsentChar("'''", "\"'", 0);
    NoPairConcat("'''", "\"", "\"'");
    assert "'''" + "\"" == RawClose;
    NoPairConcat(code, RawClose, "\"'");
    AbsentChar(post, "\"'", 1);
    NoPairConcat(code + RawClose, post, "\"'");
  }

  /** A whole JSON line `"key": "'''code'''"` becomes `key: code`, with the
      fragment's escaped newlines removed and its quotes kept. */
  lemma RewriteRawCodeEntry(indent: string, key: string, code: string, post: string)
    requires NoneOf(indent, {'"', '\'', '\\'}) && NoneOf(key, {'"', '\'', '\\', ':'})
    requires NoneOf(post, {'"', '\'', '\\', ':'})
    requires !Occurs(code + "'", "\"'") && !Occurs(code, RawClose) && !Occurs(code, KeyEnd)
    ensures RewriteLine(indent + "\"" + key + KeyEnd + " " + RawOpen + code + RawClose + post) ==
            indent + key + ": " + Replace(code, EscapedNewline, "") + post
  {
    var pre := indent + key + ": ";
    RawCodeKeyFix(indent, key, code, post);
    NoneOfConcat(indent, key, {'"', '\'', '\\'});
    NoneOfConcat(indent + key, ": ", {'"', '\'', '\\'});
    UnwrapRawCode(pre, code, post);
  }

  /** De-quoting the key of a raw-fragment line. */
  lemma RawCodeKeyFix(indent: string, key: string, code: string, post: string)
    requires NoneOf(indent, {'"'}) && NoneOf(key, {'"', ':'})
    requires NoneOf(post, {':'}) && !Occurs(code, KeyEnd)
    ensures KeyFix(indent + "\"" + key + KeyEnd + " " + RawOpen + code + RawClose + post) ==
            indent + key + ": " + RawOpen + code + RawClose + post
  {
    var rest := RawOpen + code + RawClose + post;
    var value := " " + rest;
    RawValueHasNoKeyEnd(code, post);
    QuotedKey(indent, key, value);
    assert indent + "\"" + key + KeyEnd + " " + RawOpen + code + RawClose + post ==
           indent + "\"" + key + KeyEnd + value;
    assert ":" + " " == ": ";
    assert indent + key + ":" + value == indent + key + ": " + rest;
    assert indent + key + ": " + rest == indent + key + ": " + RawOpen + code + RawClose + post;
  }

  lemma RawValueHasNoKeyEnd(code: string, post: string)
    requires NoneOf(post, {':'}) && !Occurs(code, KeyEnd)
    ensures !Occurs(" " + (RawOpen + code + RawClose + post), KeyEnd)
  {
    AbsentChar(" " + RawOpen, KeyEnd, 1);
    NoPairConcat(" " + RawOpen, code, KeyEnd);
    AbsentChar(RawClose, KeyEnd, 1);
    NoPairConcat(" " + RawOpen + code, RawClose, KeyEnd);
    AbsentChar(post, KeyEnd, 1);
    NoPairConcat(" " + RawOpen + code + RawClose, post, KeyEnd);
    assert " " + RawOpen + code + RawClose + post == " " + (RawOpen + code + RawClose + post);
  }

  // ---------------------------------------------------------------------
  // The \u escape

  /** A JSON line `"key": "…\\u…"` becomes `key: "…\u…"`. */
  lemma RewriteUnicodeEntry(indent: string, key: string, text1: string, text2: string, post: string)
    requires NoneOf(indent, {'"', '\'', '\\'}) && NoneOf(key, {'"', '\'', '\\', ':'})
    requires NoneOf(text1, {'"', '\'', '\\', ':'}) && NoneOf(text2, {'"', '\'', '\\', ':'})
    requires NoneOf(post, {'"', '\'', '\\', ':'})
    ensures RewriteLine(indent + "\"" + key + KeyEnd + " \"" + text1 + DoubleEscapedU + text2 + "\"" + post) ==
            indent + key + ": \"" + text1 + EscapedU + text2 + "\"" + post
  {
    var left := indent + key + ": \"" + text1;
    var right := text2 + "\"" + post;
    UnicodeKeyFix(indent, key, text1, text2, post);
    UnicodeSides(indent, key, text1, text2, post);
    RestoreEscape(left, right);
    Regroup5(left, EscapedU, text2, "\"", post);
  }

  /** De-quoting the key of a line with a `\\u` escape in its value. */
  lemma UnicodeKeyFix(indent: string, key: string, text1: string, text2: string, post: string)
    requires NoneOf(indent, {'"'}) && NoneOf(key, {'"', ':'})
    requires NoneOf(text1, {':'}) && NoneOf(text2, {':'}) && NoneOf(post, {':'})
    ensures KeyFix(indent + "\"" + key + KeyEnd + " \"" + text1 + DoubleEscapedU + text2 + "\"" + post) ==
            indent + key + ": \"" + text1 + DoubleEscapedU + (text2 + "\"" + post)
  {
    var right := text2 + "\"" + post;
    var value := " \"" + text1 + DoubleEscapedU + right;
    UnicodeValueHasNoKeyEnd(text1, text2, post);
    QuotedKey(indent, key, value);
    assert indent + "\"" + key + KeyEnd + " \"" + text1 + DoubleEscapedU + text2 + "\"" + post ==
           indent + "\"" + key + KeyEnd + value;
    assert indent + key + ":" + value == indent + key + ": \"" + text1 + DoubleEscapedU + right;
  }

  /** The text on each side of the escape holds no apostrophe and no backslash. */
  lemma UnicodeSides(indent: string, key: string, text1: string, text2: string, post: string)
    requires NoneOf(indent, {'"', '\'', '\\'}) && NoneOf(key, {'"', '\'', '\\', ':'})
    requires NoneOf(text1, {'"', '\'', '\\', ':'}) && NoneOf(text2, {'"', '\'', '\\', ':'})
    requires NoneOf(post, {'"', '\'', '\\', ':'})
    ensures NoneOf(indent + key + ": \"" + text1, {'\'', '\\'})
    ensures NoneOf(text2 + "\"" + post, {'\'', '\\'})
  {
    var cs := {'\'', '\\'};
    assert NoneOf(indent, cs) && NoneOf(key, cs) && NoneOf(text1, cs);
    assert NoneOf(text2, cs) && NoneOf(post, cs);
    NoneOfConcat(indent, key, cs);
    NoneOfConcat(indent + key, ": \"", cs);
    NoneOfConcat(indent + key + ": \"", text1, cs);
    NoneOfConcat(text2, "\"", cs);
    NoneOfConcat(text2 + "\"", post, cs);
  }

  lemma UnicodeValueHasNoKeyEnd(text1: string, text2: string, post: string)
    requires NoneOf(text1, {':'}) && NoneOf(text2, {':'}) && NoneOf(post, {':'})
    ensures !Occurs(" \"" + text1 + DoubleEscapedU + (text2 + "\"" + post), KeyEnd)
  {
    var a := " \"" + text1 + DoubleEscapedU;
    var b := text2 + "\"" + post;
    NoneOfConcat(" \"", text1, {':'});
    NoneOfConcat(" \"" + text1, DoubleEscapedU, {':'});
    NoneOfConcat(text2, "\"", {':'});
    NoneOfConcat(text2 + "\"", post, {':'});
    NoneOfConcat(a, b, {':'});
    AbsentChar(a + b, KeyEnd, 1);
  }

  /** A line without either marker has every `\\u` turned into `\u`: it
      is cut at each `\\u` and glued back with `\u`. A line with none is
      left as it is. */
  lemma UnmarkedLineEscapes(line: string)
    requires !Occurs(line, RawOpen) && !Occurs(line, RawClose)
    ensures FixLine(line) == Join(Split(line, DoubleEscapedU), EscapedU)
    ensures !Occurs(line, DoubleEscapedU) ==> FixLine(line) == line
  {
    ReplaceIsJoinSplit(line, DoubleEscapedU, EscapedU);
    if !Occurs(line, DoubleEscapedU) {
      SplitAbsent(line, DoubleEscapedU);
    }
  }

  /** The one doubly escaped `\u` of a line free of apostrophes and other
      backslashes becomes `\u`. */
  lemma RestoreEscape(left: string, right: string)
    requires NoneOf(left, {'\'', '\\'}) && NoneOf(right, {'\'', '\\'})
    ensures FixLine(left + DoubleEscapedU + right) == left + EscapedU + right
  {
    var line := left + DoubleEscapedU + right;
    NoneOfConcat(left, DoubleEscapedU, {'\''});
    NoneOfConcat(left + DoubleEscapedU, right, {'\''});
    AbsentChar(line, RawOpen, 1);
    AbsentChar(line, RawClose, 0);
    assert OccursAt(line, DoubleEscapedU, |left|) by {
      assert line[|left|..|left| + 3] == DoubleEscapedU;
    }
    BorderlessByLast(DoubleEscapedU);
    AbsentChar(left, DoubleEscapedU, 0);
    AbsentChar(right, DoubleEscapedU, 0);
    ReplaceFirst(left, right, DoubleEscapedU, EscapedU);
    ReplaceAbsent(right, DoubleEscapedU, EscapedU);
  }

  // ---------------------------------------------------------------------
  // The whole file

  /** The written file starts with the header and ends with the JSON's last
      line followed by `);`, when the target name and that last line hold no
      quote, backslash or newline; the lines in between are rewritten one by
      one. */
  lemma OutputFraming(filename: string, body: string, last: string)
    requires NoneOf(Target(filename), {'"', '\\', '\n'})
    requires body == [] || body[|body| - 1] == '\n'
    requires NoneOf(last, {'"', '\\', '\n'})
    ensures ConcatMap(RewriteLine, Lines(RawText(filename, body + last))) ==
            Header(filename) + ConcatMap(RewriteLine, Lines(body)) + last + Footer
  {
    var header := Header(filename);
    var tail := last + Footer;
    Regroup(header, body, last, Footer);
    HeaderLine(filename);
    TailLine(last);
    LinesAppend(header, body + tail);
    LinesAppend(body, tail);
    ConcatMapAppend(RewriteLine, [header], Lines(body) + [tail]);
    ConcatMapAppend(RewriteLine, Lines(body), [tail]);
    ConcatMapSingle(RewriteLine, header);
    ConcatMapSingle(RewriteLine, tail);
    Regroup(header, ConcatMap(RewriteLine, Lines(body)), last, Footer);
  }

  /** Regrouping a concatenation of five strings; spelled out as a lemma so
      that the solver sees the strings as opaque terms. */
  lemma Regroup5(a: string, b: string, c: string, d: string, e: string)
    ensures a + b + c + d + e == a + b + (c + d + e)
  {
  }

  /** Regrouping a concatenation of four strings. */
  lemma Regroup(a: string, b: string, c: string, d: string)
    ensures a + (b + c) + d == a + (b + (c + d))
    ensures a + b + c + d == a + (b + (c + d))
  {
  }

  /** The header is read back as one line and written unchanged. */
  lemma HeaderLine(filename: string)
    requires NoneOf(Target(filename), {'"', '\\', '\n'})
    ensures Lines(Header(filename)) == [Header(filename)]
    ensures RewriteLine(Header(filename)) == Header(filename)
  {
    var headText := "Highcharts.chart('" + Target(filename) + "', ";
    assert Header(filename) == headText + "\n";
    HeaderTextInert(Target(filename));
    assert NoneOf(headText, {'\n'});
    NewlineTerminated(headText);
    assert NoneOf(headText, {'"', '\\'});
    NoneOfConcat(headText, "\n", {'"', '\\'});
    InertLineUnchanged(headText + "\n");
  }

  /** The text of the header line holds no quote, backslash or newline. */
  lemma HeaderTextInert(target: string)
    requires NoneOf(target, {'"', '\\', '\n'})
    ensures NoneOf("Highcharts.chart('" + target + "', ", {'"', '\\', '\n'})
  {
    NoneOfConcat("Highcharts.chart('", target, {'"', '\\', '\n'});
    NoneOfConcat("Highcharts.chart('" + target, "', ", {'"', '\\', '\n'});
  }

  /** The last JSON line and the closing `);` are read back as one line and
      written unchanged. */
  lemma TailLine(last: string)
    requires NoneOf(last, {'"', '\\', '\n'})
    ensures Lines(last + Footer) == [last + Footer]
    ensures RewriteLine(last + Footer) == last + Footer
  {
    NoneOfConcat(last, Footer, {'"', '\\', '\n'});
    assert IsLine(last + Footer);
    LinesSingle(last + Footer);
    InertLineUnchanged(last + Footer);
  }
}
