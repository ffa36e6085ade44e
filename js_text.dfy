/**
 * The string primitives of ECMAScript that the aggregator relies on:
 * the whitespace class shared by `\s`, `String.prototype.trim` and `Number()`,
 * `trim`/`trimEnd`, `startsWith`/`endsWith`, `split(/\r?\n/)` and `Array.prototype.join`.
 * Strings are sequences of characters; UTF-16 surrogate pairs are not modelled.
 */
module JsText {
  import opened Wrappers

  /** WhiteSpace or LineTerminator in ECMAScript: what `\s` matches and `trim` removes. */
  predicate IsSpace(c: char) {
    var n := c as int;
    n == 0x09 || n == 0x0A || n == 0x0B || n == 0x0C || n == 0x0D || n == 0x20
    || n == 0xA0 || n == 0x1680 || (0x2000 <= n <= 0x200A)
    || n == 0x2028 || n == 0x2029 || n == 0x202F || n == 0x205F || n == 0x3000 || n == 0xFEFF
  }

  /** LineTerminator in ECMAScript: the characters a regular-expression `.` does not match. */
  predicate IsLineTerminator(c: char) {
    c == '\n' || c == '\r' || c as int == 0x2028 || c as int == 0x2029
  }

  predicate AllSpace(s: string) {
    forall i :: 0 <= i < |s| ==> IsSpace(s[i])
  }

  predicate StartsWith(s: string, prefix: string) {
    |prefix| <= |s| && s[..|prefix|] == prefix
  }

  predicate EndsWith(s: string, suffix: string) {
    |suffix| <= |s| && s[|s| - |suffix|..] == suffix
  }

  /** `s.trimEnd()`: the longest prefix of `s` that does not end in whitespace. */
  function TrimEnd(s: string): (r: string)
    ensures |r| <= |s|
    ensures r == [] || !IsSpace(r[|r| - 1])
    decreases |s|
  {
    if s == [] || !IsSpace(s[|s| - 1]) then s else TrimEnd(s[..|s| - 1])
  }

  /** Leading whitespace removed: the suffix of `s` that does not start with whitespace. */
  function TrimStart(s: string): (r: string)
    ensures |r| <= |s|
    ensures r == [] || !IsSpace(r[0])
    ensures r != [] ==> r[|r| - 1] == s[|s| - 1]
    decreases |s|
  {
    if s == [] || !IsSpace(s[0]) then s else TrimStart(s[1..])
  }

  /** `s.trim()`: `s` with whitespace removed at both ends. */
  function Trim(s: string): (r: string)
    ensures r == [] || (!IsSpace(r[0]) && !IsSpace(r[|r| - 1]))
  {
    TrimStart(TrimEnd(s))
  }

  /** What `trimEnd` removes is whitespace at the end. */
  lemma {:induction false} TrimEndParts(s: string)
    ensures TrimEnd(s) == s[..|TrimEnd(s)|] && AllSpace(s[|TrimEnd(s)|..])
    decreases |s|
  {
    if s != [] && IsSpace(s[|s| - 1]) {
      var init := s[..|s| - 1];
      TrimEndParts(init);
      assert init[..|TrimEnd(init)|] == s[..|TrimEnd(init)|];
      assert s[|TrimEnd(s)|..] == init[|TrimEnd(init)|..] + [s[|s| - 1]];
    }
  }

  /** What the start trim removes is whitespace at the start. */
  lemma {:induction false} TrimStartParts(s: string)
    ensures TrimStart(s) == s[|s| - |TrimStart(s)|..] && AllSpace(s[..|s| - |TrimStart(s)|])
    decreases |s|
  {
    if s != [] && IsSpace(s[0]) {
      var rest := s[1..];
      TrimStartParts(rest);
      var t := TrimStart(rest);
      assert TrimStart(s) == t;
      var n := |s| - |t|;
      assert rest[n - 1..] == s[n..];
      assert AllSpace(s[..n]) by {
        forall i | 0 <= i < n ensures IsSpace(s[..n][i]) {
          if i > 0 {
            assert s[..n][i] == rest[..n - 1][i - 1];
          }
        }
      }
    }
  }

  /** What `trim` removes is whitespace, at the two ends only. */
  lemma TrimRemovesEnds(s: string)
    ensures exists i, j :: 0 <= i <= j <= |s| && Trim(s) == s[i..j] && AllSpace(s[..i]) && AllSpace(s[j..])
  {
    var e := TrimEnd(s);
    var r := TrimStart(e);
    TrimEndParts(s);
    TrimStartParts(e);
    assert r == s[|e| - |r|..|e|];
    assert AllSpace(s[..|e| - |r|]) by { assert s[..|e| - |r|] == e[..|e| - |r|]; }
  }

  /** Trimming is idempotent: a trimmed string has nothing left to remove. */
  lemma TrimIdempotent(s: string)
    ensures Trim(Trim(s)) == Trim(s)
  {
  }

  /** The index of the first `c` in `s`, if any. */
  function IndexOf(s: string, c: char): (r: Option<nat>)
    ensures r.None? <==> c !in s
    ensures r.Some? ==> r.value < |s| && s[r.value] == c && c !in s[..r.value]
  {
    if c !in s then None
    else
      var i :| 0 <= i < |s| && s[i] == c;
      Some(FirstFrom(s, c, 0, i))
  }

  function FirstFrom(s: string, c: char, k: nat, bound: nat): (r: nat)
    requires k <= bound < |s| && s[bound] == c && c !in s[..k]
    ensures k <= r <= bound && s[r] == c && c !in s[..r]
    decreases bound - k
  {
    if s[k] == c then k
    else
      assert s[..k + 1] == s[..k] + [s[k]];
      FirstFrom(s, c, k + 1, bound)
  }

  /** `parts.join(sep)`. */
  function Join(parts: seq<string>, sep: string): string
    decreases |parts|
  {
    if |parts| == 0 then ""
    else if |parts| == 1 then parts[0]
    else parts[0] + sep + Join(parts[1..], sep)
  }

  /** Where the `i`-th part starts in `Join(parts, sep)`. */
  function Offset(parts: seq<string>, sep: string, i: nat): nat
    requires i <= |parts|
  {
    if i == 0 then 0 else Offset(parts, sep, i - 1) + |parts[i - 1]| + |sep|
  }

  lemma {:induction false} OffsetShift(parts: seq<string>, sep: string, i: nat)
    requires 1 <= i <= |parts|
    ensures Offset(parts, sep, i) == |parts[0]| + |sep| + Offset(parts[1..], sep, i - 1)
  {
    if i > 1 {
      OffsetShift(parts, sep, i - 1);
    }
  }

  lemma {:induction false} OffsetMonotone(parts: seq<string>, sep: string, i: nat, k: nat)
    requires i <= k <= |parts|
    ensures Offset(parts, sep, i) <= Offset(parts, sep, k)
    decreases k
  {
    if i < k {
      OffsetMonotone(parts, sep, i, k - 1);
    }
  }

  /** The joined text ends with the last part: its length is the last offset plus that part. */
  lemma {:induction false} JoinLength(parts: seq<string>, sep: string)
    requires |parts| >= 1
    ensures |Join(parts, sep)| == Offset(parts, sep, |parts| - 1) + |parts[|parts| - 1]|
    decreases |parts|
  {
    if |parts| > 1 {
      JoinLength(parts[1..], sep);
      OffsetShift(parts, sep, |parts| - 1);
      assert parts[1..][|parts| - 2] == parts[|parts| - 1];
    }
  }

  /** The joined text holds every part at its offset, in order. */
  lemma {:induction false} JoinPart(parts: seq<string>, sep: string, i: nat)
    requires i < |parts|
    ensures Offset(parts, sep, i) + |parts[i]| <= |Join(parts, sep)|
    ensures Join(parts, sep)[Offset(parts, sep, i)..Offset(parts, sep, i) + |parts[i]|] == parts[i]
    decreases |parts|
  {
    JoinLength(parts, sep);
    OffsetMonotone(parts, sep, i, |parts| - 1);
    if |parts| > 1 {
      var rest := parts[1..];
      var head := parts[0] + sep;
      assert Join(parts, sep) == head + Join(rest, sep);
      if i > 0 {
        JoinPart(rest, sep, i - 1);
        OffsetShift(parts, sep, i);
        var o := Offset(rest, sep, i - 1);
        assert rest[i - 1] == parts[i];
        SliceOfConcat(head, Join(rest, sep), o, o + |parts[i]|);
      }
    }
  }

  /** Between two neighbouring parts the joined text holds exactly `sep`. */
  lemma {:induction false} JoinSeparator(parts: seq<string>, sep: string, i: nat)
    requires i + 1 < |parts|
    ensures Offset(parts, sep, i + 1) <= |Join(parts, sep)|
    ensures Join(parts, sep)[Offset(parts, sep, i) + |parts[i]|..Offset(parts, sep, i + 1)] == sep
    decreases |parts|
  {
    JoinLength(parts, sep);
    OffsetMonotone(parts, sep, i + 1, |parts| - 1);
    var rest := parts[1..];
    var head := parts[0] + sep;
    assert Join(parts, sep) == head + Join(rest, sep);
    if i > 0 {
      JoinSeparator(rest, sep, i - 1);
      OffsetShift(parts, sep, i);
      OffsetShift(parts, sep, i + 1);
      assert rest[i - 1] == parts[i];
      SliceOfConcat(head, Join(rest, sep), Offset(rest, sep, i - 1) + |parts[i]|, Offset(rest, sep, i));
    }
  }

  lemma SliceOfConcat(a: string, b: string, x: nat, y: nat)
    requires x <= y <= |b|
    ensures (a + b)[|a| + x..|a| + y] == b[x..y]
  {
  }

  /** A line ended by `"\r\n"` loses its `'\r'` to the separator. */
  function DropCarriageReturn(line: string): string {
    if |line| > 0 && line[|line| - 1] == '\r' then line[..|line| - 1] else line
  }

  /**
   * `s.split(/\r?\n/)`: the regular expression is tried from left to right, so a
   * separator is every `'\n'` together with one `'\r'` just before it.
   */
  function SplitLines(s: string): (r: seq<string>)
    ensures |r| >= 1
    decreases |s|
  {
    match IndexOf(s, '\n')
    case None => [s]
    case Some(i) => [DropCarriageReturn(s[..i])] + SplitLines(s[i + 1..])
  }

  /** What `/\r?\n/` can match: a line feed, or a carriage return and a line feed. */
  predicate IsLineBreak(b: string) {
    b == "\r\n" || b == "\n"
  }

  /** The lines with the breaks between them put back: `lines[0] + breaks[0] + lines[1] + ...`. */
  function Interleave(lines: seq<string>, breaks: seq<string>): string
    requires |breaks| + 1 == |lines|
    decreases |breaks|
  {
    if breaks == [] then lines[0]
    else lines[0] + breaks[0] + Interleave(lines[1..], breaks[1..])
  }

  /**
   * A split of `s` by the leftmost-longest reading of `/\r?\n/`: the lines and
   * the breaks between them give `s` back, no line holds a line feed, and a
   * break is a bare line feed only when the line before it does not end in a
   * carriage return, which the match would otherwise have taken.
   */
  ghost predicate IsLineSplit(s: string, lines: seq<string>, breaks: seq<string>) {
    && |breaks| + 1 == |lines|
    && (forall i :: 0 <= i < |lines| ==> '\n' !in lines[i])
    && (forall i :: 0 <= i < |breaks| ==> IsLineBreak(breaks[i]))
    && (forall i :: 0 <= i < |breaks| && breaks[i] == "\n" ==>
          lines[i] == [] || lines[i][|lines[i]| - 1] != '\r')
    && Interleave(lines, breaks) == s
  }

  /** The break that `/\r?\n/` matches after a piece of `split("\n")`. */
  function BreakAfter(piece: string): string {
    if |piece| > 0 && piece[|piece| - 1] == '\r' then "\r\n" else "\n"
  }

  /** A piece and its line feed are the line and the break the regular expression sees. */
  lemma PieceParts(piece: string)
    requires '\n' !in piece
    ensures DropCarriageReturn(piece) + BreakAfter(piece) == piece + "\n"
    ensures '\n' !in DropCarriageReturn(piece)
    ensures IsLineBreak(BreakAfter(piece))
    ensures var line := DropCarriageReturn(piece);
      BreakAfter(piece) == "\n" ==> line == [] || line[|line| - 1] != '\r'
  {
    var line := DropCarriageReturn(piece);
    if line != piece {
      assert piece == line + "\r";
      assert '\n' !in line by {
        assert forall j :: 0 <= j < |line| ==> line[j] == piece[j];
      }
    }
  }

  /** A line and a break put in front of a line split give a line split. */
  lemma LineSplitCons(s: string, ls: seq<string>, bs: seq<string>,
                      line: string, b: string, rest: string, lines: seq<string>, breaks: seq<string>)
    requires IsLineSplit(rest, lines, breaks)
    requires '\n' !in line && IsLineBreak(b)
    requires b == "\n" ==> line == [] || line[|line| - 1] != '\r'
    requires s == line + b + rest && ls == [line] + lines && bs == [b] + breaks
    ensures IsLineSplit(s, ls, bs)
  {
    assert ls[1..] == lines && bs[1..] == breaks;
    forall j | 0 <= j < |ls|
      ensures '\n' !in ls[j]
    {
      if j > 0 {
        assert ls[j] == lines[j - 1];
      }
    }
    forall j | 0 <= j < |bs|
      ensures IsLineBreak(bs[j])
    {
      if j > 0 {
        assert bs[j] == breaks[j - 1];
      }
    }
    forall j | 0 <= j < |bs| && bs[j] == "\n"
      ensures ls[j] == [] || ls[j][|ls[j]| - 1] != '\r'
    {
      if j > 0 {
        assert bs[j] == breaks[j - 1] && ls[j] == lines[j - 1];
      }
    }
  }

  /** Dropping the first line and break of a line split leaves a line split of the rest. */
  lemma LineSplitTail(s: string, lines: seq<string>, breaks: seq<string>)
    requires IsLineSplit(s, lines, breaks) && breaks != []
    ensures IsLineSplit(Interleave(lines[1..], breaks[1..]), lines[1..], breaks[1..])
  {
    var ls := lines[1..];
    var bs := breaks[1..];
    forall j | 0 <= j < |ls|
      ensures '\n' !in ls[j]
    {
      assert ls[j] == lines[j + 1];
    }
    forall j | 0 <= j < |bs|
      ensures IsLineBreak(bs[j])
    {
      assert bs[j] == breaks[j + 1];
    }
    forall j | 0 <= j < |bs| && bs[j] == "\n"
      ensures ls[j] == [] || ls[j][|ls[j]| - 1] != '\r'
    {
      assert bs[j] == breaks[j + 1] && ls[j] == lines[j + 1];
    }
  }

  /** The first line feed of `line + b + rest` is the one that ends `b`, and it cuts off `line`. */
  lemma FirstBreak(line: string, b: string, rest: string)
    requires '\n' !in line && IsLineBreak(b)
    requires b == "\n" ==> line == [] || line[|line| - 1] != '\r'
    ensures var s := line + b + rest;
      var i := |line| + |b| - 1;
      && IndexOf(s, '\n') == Some(i)
      && DropCarriageReturn(s[..i]) == line
      && s[i + 1..] == rest
  {
    var s := line + b + rest;
    var i := |line| + |b| - 1;
    var head := s[..i];
    assert head == line + b[..|b| - 1];
    assert s[i] == '\n';
    assert '\n' !in head by {
      if b == "\r\n" {
        assert head == line + "\r";
      } else {
        assert head == line;
      }
    }
    if b == "\r\n" {
      assert head == line + "\r";
      assert head[..|head| - 1] == line;
    } else {
      assert head == line;
    }
    assert s[i + 1..] == rest;
  }

  /** Splitting a line, a break and the rest takes off that line and goes on with the rest. */
  lemma SplitLinesCons(line: string, b: string, rest: string)
    requires '\n' !in line && IsLineBreak(b)
    requires b == "\n" ==> line == [] || line[|line| - 1] != '\r'
    ensures SplitLines(line + b + rest) == [line] + SplitLines(rest)
  {
    FirstBreak(line, b, rest);
  }

  /** The breaks `/\r?\n/` matches in `s`, from left to right. */
  function LineBreaks(s: string): (r: seq<string>)
    decreases |s|
  {
    match IndexOf(s, '\n')
    case None => []
    case Some(i) => [BreakAfter(s[..i])] + LineBreaks(s[i + 1..])
  }

  /** The lines and the breaks `/\r?\n/` finds form a line split of the text. */
  lemma {:induction false} SplitLinesWithBreaks(s: string)
    ensures IsLineSplit(s, SplitLines(s), LineBreaks(s))
    decreases |s|
  {
    match IndexOf(s, '\n')
    case None =>
    case Some(i) =>
      var piece := s[..i];
      var rest := s[i + 1..];
      var line := DropCarriageReturn(piece);
      var b := BreakAfter(piece);
      assert && '\n' !in line && IsLineBreak(b)
             && (b == "\n" ==> line == [] || line[|line| - 1] != '\r')
             && s == line + b + rest
      by {
        PieceParts(piece);
        assert s == piece + "\n" + rest;
      }
      assert SplitLines(s) == [line] + SplitLines(rest);
      assert LineBreaks(s) == [b] + LineBreaks(rest);
      SplitLinesWithBreaks(rest);
      LineSplitCons(s, SplitLines(s), LineBreaks(s), line, b, rest, SplitLines(rest), LineBreaks(rest));
  }

  /** `split(/\r?\n/)` is a line split of its input: some breaks rebuild it. */
  lemma SplitLinesRebuild(s: string)
    ensures exists breaks :: IsLineSplit(s, SplitLines(s), breaks)
  {
    SplitLinesWithBreaks(s);
  }

  /** Any line split of `s` is the one `split(/\r?\n/)` returns. */
  lemma {:induction false} SplitLinesUnique(s: string, lines: seq<string>, breaks: seq<string>)
    requires IsLineSplit(s, lines, breaks)
    ensures lines == SplitLines(s)
    decreases |breaks|
  {
    if breaks == [] {
      assert '\n' !in s;
    } else {
      var line, b := lines[0], breaks[0];
      var rest := Interleave(lines[1..], breaks[1..]);
      LineSplitTail(s, lines, breaks);
      SplitLinesUnique(rest, lines[1..], breaks[1..]);
      assert s == line + b + rest;
      assert '\n' !in line && IsLineBreak(b);
      assert b == "\n" ==> line == [] || line[|line| - 1] != '\r';
      SplitLinesCons(line, b, rest);
      assert lines == [line] + lines[1..];
    }
  }
}
