/** Python string operations used by the chart writer, modelled on `seq<char>`:
    substring search (`p in s`), `str.replace`, `str.split`, `str.join` and
    the line-by-line iteration of a text file. Every pattern is non-empty,
    as it is at every call site in the writer. */
module Text {

  /** `p` occurs in `s` starting at index `j`. */
  predicate OccursAt(s: string, p: string, j: int) {
    0 <= j && j + |p| <= |s| && s[j..j + |p|] == p
  }

  /** Python's `p in s`. */
  predicate Occurs(s: string, p: string) {
    exists j :: 0 <= j <= |s| && OccursAt(s, p, j)
  }

  /** No character of `s` belongs to `cs`. */
  predicate NoneOf(s: string, cs: set<char>) {
    forall i :: 0 <= i < |s| ==> s[i] !in cs
  }

  /** No proper suffix of `p` is also a prefix of `p`: two occurrences of `p`
      can never overlap, and an occurrence never straddles a copy of `p`. */
  predicate Borderless(p: string) {
    forall k :: 0 < k < |p| ==> p[k..] != p[..|p| - k]
  }

  /** Python's `s.replace(p, r)`: scans left to right and replaces each
      non-overlapping occurrence of `p` by `r`. */
  function Replace(s: string, p: string, r: string): string
    requires |p| > 0
    decreases |s|
  {
    if |s| < |p| then s
    else if s[..|p|] == p then r + Replace(s[|p|..], p, r)
    else [s[0]] + Replace(s[1..], p, r)
  }

  /** Python's `s.split(sep)`: the pieces between the non-overlapping
      occurrences of `sep`, found left to right; there is always one more
      piece than there are occurrences. */
  function Split(s: string, sep: string): (pieces: seq<string>)
    requires |sep| > 0
    ensures |pieces| >= 1
    decreases |s|
  {
    if |s| < |sep| then [s]
    else if s[..|sep|] == sep then [[]] + Split(s[|sep|..], sep)
    else
      var rest := Split(s[1..], sep);
      [[s[0]] + rest[0]] + rest[1..]
  }

  /** Python's `sep.join(pieces)`. */
  function Join(pieces: seq<string>, sep: string): string
  {
    if |pieces| == 0 then []
    else if |pieces| == 1 then pieces[0]
    else pieces[0] + sep + Join(pieces[1..], sep)
  }

  /** `s` with every `c` taken out, the rest kept in order. */
  function RemoveChar(s: string, c: char): (r: string)
    ensures multiset(r) == multiset(s)[c := 0]
    ensures |r| <= |s|
  {
    if s == [] then []
    else
      var rest := RemoveChar(s[1..], c);
      assert s == [s[0]] + s[1..];
      if s[0] == c then rest else [s[0]] + rest
  }

  /** The concatenation of a sequence of strings. */
  function Flatten(parts: seq<string>): string
  {
    if parts == [] then [] else parts[0] + Flatten(parts[1..])
  }

  /** A line as Python's file iteration yields it: non-empty, and a newline
      can only be its last character. */
  predicate IsLine(l: string) {
    |l| > 0 && forall j :: 0 <= j < |l| - 1 ==> l[j] != '\n'
  }

  /** A line that ends with a newline. */
  predicate EndsLine(l: string) {
    |l| > 0 && l[|l| - 1] == '\n'
  }

  /** Every piece transformed by `f`, the results written one after the other. */
  function ConcatMap(f: string -> string, pieces: seq<string>): string
  {
    if pieces == [] then []
    else ConcatMap(f, pieces[..|pieces| - 1]) + f(pieces[|pieces| - 1])
  }

  lemma {:induction false} ConcatMapAppend(f: string -> string, xs: seq<string>, ys: seq<string>)
    ensures ConcatMap(f, xs + ys) == ConcatMap(f, xs) + ConcatMap(f, ys)
    decreases |ys|
  {
    if ys == [] {
      assert xs + ys == xs;
    } else {
      var ys' := ys[..|ys| - 1];
      assert (xs + ys)[..|xs + ys| - 1] == xs + ys';
      assert (xs + ys)[|xs + ys| - 1] == ys[|ys| - 1];
      ConcatMapAppend(f, xs, ys');
      assert ConcatMap(f, xs + ys) == ConcatMap(f, xs + ys') + f(ys[|ys| - 1]);
      assert ConcatMap(f, ys) == ConcatMap(f, ys') + f(ys[|ys| - 1]);
    }
  }

  lemma ConcatMapSingle(f: string -> string, piece: string)
    ensures ConcatMap(f, [piece]) == f(piece)
  {
    assert [piece][..0] == [];
  }

  /** Python's `for line in file`: the text cut after every newline, each
      line keeping its newline; a last line without one is kept too. */
  function Lines(t: string): (ls: seq<string>)
    ensures ls == [] <==> t == []
    decreases |t|
  {
    if t == [] then [] else Attach(t[0], Lines(t[1..]))
  }

  /** One character read in front of the lines of the rest of the text: a
      newline is a line of its own, any other character opens the first line. */
  function Attach(c: char, rest: seq<string>): (ls: seq<string>)
    ensures ls != []
  {
    if c == '\n' || rest == [] then [[c]] + rest
    else [[c] + rest[0]] + rest[1..]
  }

  /** The lines concatenate back to the text; each is non-empty with a
      newline at most at its end, and every line but the last ends with one. */
  lemma {:induction false} LinesSound(t: string)
    ensures Flatten(Lines(t)) == t
    ensures forall k :: 0 <= k < |Lines(t)| ==> IsLine(Lines(t)[k])
    ensures forall k :: 0 <= k < |Lines(t)| - 1 ==> EndsLine(Lines(t)[k])
    decreases |t|
  {
    if t != [] {
      LinesSound(t[1..]);
      var rest := Lines(t[1..]);
      assert t == [t[0]] + t[1..];
      AttachFlatten(t[0], rest);
      AttachShape(t[0], rest);
    }
  }

  lemma AttachFlatten(c: char, rest: seq<string>)
    ensures Flatten(Attach(c, rest)) == [c] + Flatten(rest)
  {
    if c == '\n' || rest == [] {
      assert ([[c]] + rest)[1..] == rest;
    } else {
      var ls := [[c] + rest[0]] + rest[1..];
      assert ls[1..] == rest[1..];
      assert Flatten(rest) == rest[0] + Flatten(rest[1..]);
    }
  }

  lemma AttachShape(c: char, rest: seq<string>)
    requires forall k :: 0 <= k < |rest| ==> IsLine(rest[k])
    requires forall k :: 0 <= k < |rest| - 1 ==> EndsLine(rest[k])
    ensures forall k :: 0 <= k < |Attach(c, rest)| ==> IsLine(Attach(c, rest)[k])
    ensures forall k :: 0 <= k < |Attach(c, rest)| - 1 ==> EndsLine(Attach(c, rest)[k])
  {
    var ls := Attach(c, rest);
    if c == '\n' || rest == [] {
      forall k | 0 <= k < |ls| ensures IsLine(ls[k]) && (k < |ls| - 1 ==> EndsLine(ls[k])) {
        if k > 0 {
          assert ls[k] == rest[k - 1];
        }
      }
    } else {
      ExtendLine(c, rest[0]);
      forall k | 0 <= k < |ls| ensures IsLine(ls[k]) && (k < |ls| - 1 ==> EndsLine(ls[k])) {
        if k > 0 {
          assert ls[k] == rest[k];
        }
      }
    }
  }

  /** A character that is not a newline, put in front of a line. */
  lemma ExtendLine(c: char, l: string)
    requires c != '\n' && IsLine(l)
    ensures IsLine([c] + l)
    ensures EndsLine(l) ==> EndsLine([c] + l)
  {
    var first := [c] + l;
    forall j | 0 <= j < |first| - 1 ensures first[j] != '\n' {
      if j > 0 { assert first[j] == l[j - 1]; }
    }
  }

  // ---------------------------------------------------------------------
  // Occurrences

  lemma OccursAtChars(s: string, p: string, j: int)
    requires OccursAt(s, p, j)
    ensures forall k :: 0 <= k < |p| ==> s[j + k] == p[k]
  {
    forall k | 0 <= k < |p| ensures s[j + k] == p[k] {
      assert s[j..j + |p|][k] == s[j + k];
    }
  }

  /** A string that lacks one of the characters of `p` does not contain `p`. */
  lemma AbsentChar(s: string, p: string, k: int)
    requires 0 <= k < |p|
    requires forall i :: 0 <= i < |s| ==> s[i] != p[k]
    ensures !Occurs(s, p)
  {
    forall j | 0 <= j <= |s| ensures !OccursAt(s, p, j) {
      if j + |p| <= |s| {
        assert s[j..j + |p|][k] == s[j + k];
      }
    }
  }

  /** Occurrences in the right part of a concatenation, seen from the whole. */
  lemma OccursShift(x: string, y: string, p: string, j: int)
    requires 0 <= j
    ensures OccursAt(x + y, p, |x| + j) <==> OccursAt(y, p, j)
  {
    if j + |p| <= |y| {
      assert (x + y)[|x| + j..|x| + j + |p|] == y[j..j + |p|];
    }
  }

  /** Occurrences in the left part of a concatenation are occurrences in the whole. */
  lemma OccursPrefix(x: string, y: string, p: string, j: int)
    requires OccursAt(x, p, j)
    ensures OccursAt(x + y, p, j)
  {
    assert (x + y)[j..j + |p|] == x[j..j + |p|];
  }

  /** For a borderless `p`, no occurrence starts inside `x` and reaches
      into a copy of `p` that follows `x`. */
  lemma NoStraddle(x: string, y: string, p: string, j: int)
    requires Borderless(p)
    requires |x| - |p| < j < |x|
    ensures !OccursAt(x + p + y, p, j)
  {
    if 0 <= j {
      var s := x + p + y;
      var k := |x| - j;
      var w := s[j..j + |p|];
      assert s[|x|..|x| + |p|] == p;
      assert w[k..] == s[|x|..|x| + |p|][..|p| - k];
      assert p[k..] != p[..|p| - k];
    }
  }

  /** A pattern whose first character appears nowhere else is borderless. */
  lemma BorderlessByFirst(p: string)
    requires forall k :: 0 < k < |p| ==> p[k] != p[0]
    ensures Borderless(p)
  {
    forall k | 0 < k < |p| ensures p[k..] != p[..|p| - k] {
      assert p[k..][0] == p[k] && p[..|p| - k][0] == p[0];
    }
  }

  /** A pattern whose last character appears nowhere else is borderless. */
  lemma BorderlessByLast(p: string)
    requires forall k :: 0 <= k < |p| - 1 ==> p[k] != p[|p| - 1]
    ensures Borderless(p)
  {
    forall k | 0 < k < |p| ensures p[k..] != p[..|p| - k] {
      assert p[k..][|p| - k - 1] == p[|p| - 1];
      assert p[..|p| - k][|p| - k - 1] == p[|p| - k - 1];
    }
  }

  /** A string that does not contain `p` loses no occurrence when its first
      character is dropped. */
  lemma NoOccursTail(s: string, p: string)
    requires |s| > 0 && !Occurs(s, p)
    ensures !Occurs(s[1..], p)
  {
    forall j | 0 <= j && OccursAt(s[1..], p, j) ensures false {
      assert s == [s[0]] + s[1..];
      OccursShift([s[0]], s[1..], p, j);
    }
  }

  lemma NoneOfConcat(a: string, b: string, cs: set<char>)
    ensures NoneOf(a + b, cs) <==> NoneOf(a, cs) && NoneOf(b, cs)
  {
    if NoneOf(a, cs) && NoneOf(b, cs) {
      forall i | 0 <= i < |a + b| ensures (a + b)[i] !in cs {
        if i >= |a| { assert (a + b)[i] == b[i - |a|]; }
      }
    }
    if NoneOf(a + b, cs) {
      forall i | 0 <= i < |a| ensures a[i] !in cs {
        assert (a + b)[i] == a[i];
      }
      forall i | 0 <= i < |b| ensures b[i] !in cs {
        assert (a + b)[|a| + i] == b[i];
      }
    }
  }

  /** A string without a prefix of `p` does not contain `p`. */
  lemma PatternPrefix(s: string, p: string, m: int)
    requires 0 < m <= |p| && !Occurs(s, p[..m])
    ensures !Occurs(s, p)
  {
    forall j | 0 <= j <= |s| ensures !OccursAt(s, p, j) {
      if j + |p| <= |s| {
        assert s[j..j + m] == s[j..j + |p|][..m];
        assert !OccursAt(s, p[..m], j);
      }
    }
  }

  /** Text that does not contain `p` in `x + y` does not contain it in `x`. */
  lemma NoOccursLeft(x: string, y: string, p: string)
    requires !Occurs(x + y, p)
    ensures !Occurs(x, p)
  {
    forall j | 0 <= j <= |x| && OccursAt(x, p, j) ensures OccursAt(x + y, p, j) {
      OccursPrefix(x, y, p, j);
    }
  }

  /** A prefix without the first character of `p` cannot start an
      occurrence of it. */
  lemma LeadFree(x: string, y: string, p: string)
    requires |p| > 0 && !Occurs(y, p)
    requires forall i :: 0 <= i < |x| ==> x[i] != p[0]
    ensures !Occurs(x + y, p)
  {
    forall j | 0 <= j <= |x + y| ensures !OccursAt(x + y, p, j) {
      if j < |x| {
        if j + |p| <= |x + y| {
          assert (x + y)[j..j + |p|][0] == x[j];
        }
      } else {
        OccursShift(x, y, p, j - |x|);
      }
    }
  }

  /** A two-character pattern found in neither part, and not across the
      cut, is not in the concatenation. */
  lemma NoPairConcat(x: string, y: string, p: string)
    requires |p| == 2 && !Occurs(x, p) && !Occurs(y, p)
    requires x == [] || y == [] || x[|x| - 1] != p[0] || y[0] != p[1]
    ensures !Occurs(x + y, p)
  {
    forall j | 0 <= j <= |x + y| ensures !OccursAt(x + y, p, j) {
      if j + 2 <= |x + y| {
        var w := (x + y)[j..j + 2];
        if j + 2 <= |x| {
          assert w == x[j..j + 2];
          assert !OccursAt(x, p, j);
        } else if j == |x| - 1 {
          assert w[0] == x[|x| - 1] && w[1] == y[0];
        } else {
          OccursShift(x, y, p, j - |x|);
        }
      }
    }
  }

  // ---------------------------------------------------------------------
  // Replace

  /** `replace` leaves a string without the pattern unchanged. */
  lemma {:induction false} ReplaceAbsent(s: string, p: string, r: string)
    requires |p| > 0 && !Occurs(s, p)
    ensures Replace(s, p, r) == s
    decreases |s|
  {
    if |s| >= |p| {
      assert !OccursAt(s, p, 0);
      NoOccursTail(s, p);
      ReplaceAbsent(s[1..], p, r);
      assert s == [s[0]] + s[1..];
    }
  }

  /** Dropping a prefix of `x` keeps the cut free of straddling occurrences. */
  lemma NoStraddleTail(x: string, y: string, p: string, m: int)
    requires 0 <= m <= |x|
    requires forall j :: |x| - |p| < j < |x| ==> !OccursAt(x + y, p, j)
    ensures forall j :: |x[m..]| - |p| < j < |x[m..]| ==> !OccursAt(x[m..] + y, p, j)
  {
    assert x[..m] + (x[m..] + y) == x + y;
    forall j | |x[m..]| - |p| < j < |x[m..]| ensures !OccursAt(x[m..] + y, p, j) {
      if 0 <= j {
        OccursShift(x[..m], x[m..] + y, p, j);
      }
    }
  }

  /** `replace` distributes over a concatenation when no occurrence of the
      pattern straddles the cut. */
  lemma {:induction false} ReplaceConcat(x: string, y: string, p: string, r: string)
    requires |p| > 0
    requires forall j :: |x| - |p| < j < |x| ==> !OccursAt(x + y, p, j)
    ensures Replace(x + y, p, r) == Replace(x, p, r) + Replace(y, p, r)
    decreases |x|, 1
  {
    if x == [] {
      assert x + y == y;
    } else if |x + y| < |p| {
    } else if (x + y)[..|p|] == p {
      ReplaceConcatMatch(x, y, p, r);
    } else {
      ReplaceConcatSkip(x, y, p, r);
    }
  }

  /** The step of `ReplaceConcat` where the pattern starts the string. */
  lemma {:induction false} ReplaceConcatMatch(x: string, y: string, p: string, r: string)
    requires |p| > 0 && x != [] && |x + y| >= |p| && (x + y)[..|p|] == p
    requires forall j :: |x| - |p| < j < |x| ==> !OccursAt(x + y, p, j)
    ensures Replace(x + y, p, r) == Replace(x, p, r) + Replace(y, p, r)
    decreases |x|, 0
  {
    var s := x + y;
    assert OccursAt(s, p, 0);
    assert x[..|p|] == p;
    var x' := x[|p|..];
    assert s[|p|..] == x' + y;
    NoStraddleTail(x, y, p, |p|);
    ReplaceConcat(x', y, p, r);
  }

  /** The step of `ReplaceConcat` where the first character is kept. */
  lemma {:induction false} ReplaceConcatSkip(x: string, y: string, p: string, r: string)
    requires |p| > 0 && x != [] && |x + y| >= |p| && (x + y)[..|p|] != p
    requires forall j :: |x| - |p| < j < |x| ==> !OccursAt(x + y, p, j)
    ensures Replace(x + y, p, r) == Replace(x, p, r) + Replace(y, p, r)
    decreases |x|, 0
  {
    NoStraddleTail(x, y, p, 1);
    ReplaceConcat(x[1..], y, p, r);
    ReplaceSkipCombine(x, y, p, r);
  }

  /** The first character is kept on both sides, so distributing over the
      rest distributes over the whole. */
  lemma ReplaceSkipCombine(x: string, y: string, p: string, r: string)
    requires |p| > 0 && x != [] && |x + y| >= |p| && (x + y)[..|p|] != p
    requires Replace(x[1..] + y, p, r) == Replace(x[1..], p, r) + Replace(y, p, r)
    ensures Replace(x + y, p, r) == Replace(x, p, r) + Replace(y, p, r)
  {
    var s := x + y;
    var x' := x[1..];
    var a, b := Replace(x', p, r), Replace(y, p, r);
    ReplaceKeepsHead(s, p, r);
    assert s[1..] == x' + y && s[0] == x[0];
    if |x| >= |p| {
      assert x[..|p|] == s[..|p|];
    }
    ReplaceKeepsHead(x, p, r);
    ConsRegroup(x[0], a, b, Replace(s, p, r), Replace(x, p, r));
  }

  lemma ConsRegroup(c: char, a: string, b: string, whole: string, left: string)
    requires whole == [c] + (a + b) && left == [c] + a
    ensures whole == left + b
  {
  }

  /** Where the pattern does not start the string, its first character is kept. */
  lemma ReplaceKeepsHead(x: string, p: string, r: string)
    requires |p| > 0 && x != [] && (|x| < |p| || x[..|p|] != p)
    ensures Replace(x, p, r) == [x[0]] + Replace(x[1..], p, r)
  {
    if |x| < |p| {
      assert x == [x[0]] + x[1..];
    }
  }

  /** Replacing a borderless pattern around one of its own occurrences. */
  lemma ReplaceAround(x: string, y: string, p: string, r: string)
    requires |p| > 0 && Borderless(p)
    ensures Replace(x + p + y, p, r) == Replace(x, p, r) + r + Replace(y, p, r)
  {
    assert x + p + y == x + (p + y);
    forall j | |x| - |p| < j < |x| ensures !OccursAt(x + (p + y), p, j) {
      NoStraddle(x, y, p, j);
    }
    ReplaceConcat(x, p + y, p, r);
    assert (p + y)[..|p|] == p;
    assert (p + y)[|p|..] == y;
  }

  /** Replacing a borderless pattern whose first occurrence follows `x`. */
  lemma ReplaceFirst(x: string, y: string, p: string, r: string)
    requires |p| > 0 && Borderless(p) && !Occurs(x, p)
    ensures Replace(x + p + y, p, r) == x + r + Replace(y, p, r)
  {
    ReplaceAround(x, y, p, r);
    ReplaceAbsent(x, p, r);
  }

  /** Removing `c` from a string that holds it exactly once, between `x` and `y`. */
  lemma RemoveCharAround(x: string, y: string, c: char)
    requires forall i :: 0 <= i < |x| ==> x[i] != c
    requires forall i :: 0 <= i < |y| ==> y[i] != c
    ensures RemoveChar(x + [c] + y, c) == x + y
  {
    var one := RemoveChar([c], c);
    assert one == [] by {
      assert [c][1..] == [];
    }
    var left := RemoveChar(x + [c], c);
    RemoveCharConcat(x, [c], c);
    RemoveCharAbsent(x, c);
    assert left == x;
    RemoveCharConcat(x + [c], y, c);
    RemoveCharAbsent(y, c);
  }

  /** Removing every copy of a one-character pattern is `RemoveChar`. */
  lemma {:induction false} ReplaceCharIsRemove(s: string, c: char)
    ensures Replace(s, [c], []) == RemoveChar(s, c)
    decreases |s|
  {
    if |s| >= 1 {
      ReplaceCharIsRemove(s[1..], c);
      assert s[..1] == [s[0]];
      assert s[1..] == s[|[c]|..];
    }
  }

  lemma {:induction false} RemoveCharConcat(x: string, y: string, c: char)
    ensures RemoveChar(x + y, c) == RemoveChar(x, c) + RemoveChar(y, c)
    decreases |x|
  {
    if x != [] {
      assert (x + y)[1..] == x[1..] + y;
      RemoveCharConcat(x[1..], y, c);
    } else {
      assert x + y == y;
    }
  }

  lemma {:induction false} RemoveCharAbsent(s: string, c: char)
    requires forall i :: 0 <= i < |s| ==> s[i] != c
    ensures RemoveChar(s, c) == s
    decreases |s|
  {
    if s != [] {
      RemoveCharAbsent(s[1..], c);
      assert s == [s[0]] + s[1..];
    }
  }

  // ---------------------------------------------------------------------
  // Split and join

  /** Python's identity `sep.join(s.split(sep)) == s`. */
  lemma {:induction false} SplitJoin(s: string, sep: string)
    requires |sep| > 0
    ensures Join(Split(s, sep), sep) == s
    decreases |s|
  {
    if |s| < |sep| {
      assert Split(s, sep) == [s];
    } else if s[..|sep|] == sep {
      SplitJoin(s[|sep|..], sep);
      var rest := Split(s[|sep|..], sep);
      assert Split(s, sep) == [[]] + rest;
      assert ([[]] + rest)[1..] == rest;
      assert Join([[]] + rest, sep) == [] + sep + Join(rest, sep);
      assert s == sep + s[|sep|..];
    } else {
      SplitJoin(s[1..], sep);
      var rest := Split(s[1..], sep);
      assert Split(s, sep) == [[s[0]] + rest[0]] + rest[1..];
      JoinConsChar(s[0], rest, sep);
      assert s == [s[0]] + s[1..];
    }
  }

  /** Prepending a character to the first piece prepends it to the join. */
  lemma JoinConsChar(c: char, pieces: seq<string>, sep: string)
    requires |pieces| >= 1
    ensures Join([[c] + pieces[0]] + pieces[1..], sep) == [c] + Join(pieces, sep)
  {
    var ps := [[c] + pieces[0]] + pieces[1..];
    if |pieces| > 1 {
      assert ps[1..] == pieces[1..];
    }
  }

  /** Python's identity `s.replace(p, r) == r.join(s.split(p))`: the two
      scans find the same occurrences. */
  lemma {:induction false} ReplaceIsJoinSplit(s: string, p: string, r: string)
    requires |p| > 0
    ensures Replace(s, p, r) == Join(Split(s, p), r)
    decreases |s|
  {
    if |s| < |p| {
    } else if s[..|p|] == p {
      var rest := Split(s[|p|..], p);
      assert Split(s, p) == [[]] + rest;
      assert Replace(s, p, r) == r + Replace(s[|p|..], p, r);
      ReplaceIsJoinSplit(s[|p|..], p, r);
      JoinConsEmpty(rest, r);
    } else {
      var rest := Split(s[1..], p);
      assert Split(s, p) == [[s[0]] + rest[0]] + rest[1..];
      assert Replace(s, p, r) == [s[0]] + Replace(s[1..], p, r);
      ReplaceIsJoinSplit(s[1..], p, r);
      JoinConsChar(s[0], rest, r);
    }
  }

  lemma JoinConsEmpty(pieces: seq<string>, sep: string)
    requires |pieces| >= 1
    ensures Join([[]] + pieces, sep) == sep + Join(pieces, sep)
  {
    assert ([[]] + pieces)[1..] == pieces;
  }

  /** A string without the separator splits into itself alone. */
  lemma {:induction false} SplitAbsent(s: string, sep: string)
    requires |sep| > 0 && !Occurs(s, sep)
    ensures Split(s, sep) == [s]
    decreases |s|
  {
    if |s| >= |sep| {
      assert !OccursAt(s, sep, 0);
      NoOccursTail(s, sep);
      SplitAbsent(s[1..], sep);
      assert s == [s[0]] + s[1..];
    }
  }

  /** A string that contains the separator splits into at least two pieces. */
  lemma {:induction false} SplitOccurs(s: string, sep: string)
    requires |sep| > 0 && Occurs(s, sep)
    ensures |Split(s, sep)| >= 2
    decreases |s|
  {
    var j :| 0 <= j <= |s| && OccursAt(s, sep, j);
    if s[..|sep|] != sep {
      assert j > 0;
      assert s == [s[0]] + s[1..];
      OccursShift([s[0]], s[1..], sep, j - 1);
      SplitOccurs(s[1..], sep);
    }
  }

  /** The first piece of a split is exactly the text before the first
      occurrence of a borderless separator. */
  lemma {:induction false} SplitAtFirst(a: string, b: string, sep: string)
    requires |sep| > 0 && Borderless(sep) && !Occurs(a, sep)
    ensures Split(a + sep + b, sep) == [a] + Split(b, sep)
    decreases |a|
  {
    var s := a + sep + b;
    if a == [] {
      assert s == sep + b;
      assert s[..|sep|] == sep;
      assert s[|sep|..] == b;
    } else {
      assert s[..|sep|] != sep by {
        if s[..|sep|] == sep {
          assert OccursAt(s, sep, 0);
          if |a| >= |sep| {
            assert a[..|sep|] == s[..|sep|];
            assert OccursAt(a, sep, 0);
          } else {
            NoStraddle(a, b, sep, 0);
          }
        }
      }
      NoOccursTail(a, sep);
      SplitAtFirst(a[1..], b, sep);
      assert s[1..] == a[1..] + sep + b;
      var rest := Split(s[1..], sep);
      assert rest == [a[1..]] + Split(b, sep);
      assert Split(s, sep) == [[s[0]] + rest[0]] + rest[1..];
      assert a == [a[0]] + a[1..];
    }
  }

  // ---------------------------------------------------------------------
  // Lines

  /** Cutting a text into lines after a newline cuts the lines in two. */
  lemma {:induction false} LinesAppend(x: string, y: string)
    requires x == [] || x[|x| - 1] == '\n'
    ensures Lines(x + y) == Lines(x) + Lines(y)
    decreases |x|
  {
    if x == [] {
      assert x + y == y;
    } else {
      var x' := x[1..];
      assert (x + y)[0] == x[0];
      assert (x + y)[1..] == x' + y;
      LinesAppend(x', y);
      AttachAppend(x[0], Lines(x'), Lines(y));
    }
  }

  /** Attaching a character to lines that are then followed by more lines. */
  lemma AttachAppend(c: char, a: seq<string>, b: seq<string>)
    requires c == '\n' || a != []
    ensures Attach(c, a + b) == Attach(c, a) + b
  {
    if c == '\n' || a == [] {
    } else {
      assert (a + b)[0] == a[0];
      assert (a + b)[1..] == a[1..] + b;
    }
  }

  /** A text without newlines followed by one newline is one line. */
  lemma NewlineTerminated(t: string)
    requires NoneOf(t, {'\n'})
    ensures Lines(t + "\n") == [t + "\n"]
  {
    var l := t + "\n";
    forall j | 0 <= j < |l| - 1 ensures l[j] != '\n' {
      assert l[j] == t[j];
    }
    LinesSingle(l);
  }

  /** A single line is its own one-line text. */
  lemma {:induction false} LinesSingle(l: string)
    requires IsLine(l)
    ensures Lines(l) == [l]
    decreases |l|
  {
    if |l| > 1 {
      assert l[0] != '\n';
      assert IsLine(l[1..]) by {
        forall j | 0 <= j < |l[1..]| - 1 ensures l[1..][j] != '\n' {
          assert l[1..][j] == l[j + 1];
        }
      }
      LinesSingle(l[1..]);
      assert l == [l[0]] + l[1..];
      assert [l[1..]][1..] == [];
    } else {
      assert l[1..] == [];
      assert l == [l[0]];
    }
  }
}
