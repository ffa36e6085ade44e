/**
 * The leading metadata block of a guide page (index.js:135-168).
 *
 * `SplitFrontmatter` follows the backtracking search of the regular expression
 * `^---\s*\r?\n([\s\S]*?)\r?\n---\s*(?:\r?\n|$)` step by step: the greedy `\s*`
 * runs are tried longest first, the lazy block shortest first. `IsMatch` is the
 * same expression stated as a plain predicate on positions, and the lemmas below
 * prove which of the possible matches the search returns.
 *
 * `ParseFrontmatter` is the line loop that fills the key/value dictionary;
 * `FrontmatterData` is the same fold written as a function.
 */
module Frontmatter {
  import opened Wrappers
  import opened JsText

  /** Result of splitting a page: the raw block (null when absent) and the rest. */
  datatype Split = Split(frontmatter: Option<string>, body: string)

  /**
   * Positions of one match in the content `s`: `s[..open]` is the opening line,
   * the block is `s[open..close]`, and the match ends at `end`.
   */
  datatype Span = Span(open: nat, close: nat, end: nat)

  // ---------------------------------------------------------------------------
  // The regular expression, as a predicate on positions.

  /** `s[..o]` matches `^---\s*\r?\n`. */
  predicate OpensAt(s: string, o: nat) {
    4 <= o <= |s| && s[..3] == "---" && AllSpace(s[3..o]) && s[o - 1] == '\n'
  }

  /** `s[c..e]` matches `\s*(?:\r?\n|$)`. */
  predicate ClosesAt(s: string, c: nat, e: nat) {
    c <= e <= |s| && AllSpace(s[c..e]) && (e == |s| || (c < e && s[e - 1] == '\n'))
  }

  /** `s[g..e]` matches `\r?\n---\s*(?:\r?\n|$)`. */
  predicate TailAt(s: string, g: nat, e: nat) {
    || (g + 4 <= |s| && s[g..g + 4] == "\n---" && ClosesAt(s, g + 4, e))
    || (g + 5 <= |s| && s[g..g + 5] == "\r\n---" && ClosesAt(s, g + 5, e))
  }

  /** `s[..sp.end]` matches the whole expression with the block `s[sp.open..sp.close]`. */
  predicate IsMatch(s: string, sp: Span) {
    OpensAt(s, sp.open) && sp.open <= sp.close && TailAt(s, sp.close, sp.end)
  }

  /**
   * The match a backtracking engine reports: the latest opening line that has a
   * closing line at all, then the first closing line after it, then the longest
   * run of whitespace after that closing `---`.
   */
  ghost predicate IsChosen(s: string, sp: Span) {
    && IsMatch(s, sp)
    && (forall o: nat, g: nat, e: nat :: IsMatch(s, Span(o, g, e)) ==> o <= sp.open)
    && (forall g: nat, e: nat :: sp.open <= g < sp.close ==> !IsMatch(s, Span(sp.open, g, e)))
    && (forall e: nat :: IsMatch(s, Span(sp.open, sp.close, e)) ==> e <= sp.end)
  }

  // ---------------------------------------------------------------------------
  // The search.

  /** The length of the whitespace run that starts at `p`. */
  function SpaceRun(s: string, p: nat): (n: nat)
    requires p <= |s|
    ensures p + n <= |s|
    ensures p + n == |s| || !IsSpace(s[p + n])
    decreases |s| - p
  {
    if p < |s| && IsSpace(s[p]) then 1 + SpaceRun(s, p + 1) else 0
  }

  /** Everything `SpaceRun` counts is whitespace. */
  lemma {:induction false} SpaceRunAll(s: string, p: nat)
    requires p <= |s|
    ensures AllSpace(s[p..p + SpaceRun(s, p)])
    decreases |s| - p
  {
    if p < |s| && IsSpace(s[p]) {
      SpaceRunAll(s, p + 1);
      var n := SpaceRun(s, p + 1);
      assert s[p..p + 1 + n] == [s[p]] + s[p + 1..p + 1 + n];
    }
  }

  /** `\r?\n` at `q`: where it ends, if it matches. */
  function LineBreakAt(s: string, q: nat): Option<nat> {
    if q + 1 < |s| && s[q] == '\r' && s[q + 1] == '\n' then Some(q + 2)
    else if q < |s| && s[q] == '\n' then Some(q + 1)
    else None
  }

  /** `\s*(?:\r?\n|$)` at `p`, with the `\s*` currently `k` characters long. */
  function CloseLine(s: string, p: nat, k: nat): Option<nat>
    requires p + k <= |s|
    decreases k
  {
    match LineBreakAt(s, p + k)
    case Some(e) => Some(e)
    case None =>
      if p + k == |s| then Some(|s|)
      else if k == 0 then None
      else CloseLine(s, p, k - 1)
  }

  /** `\r?\n---\s*(?:\r?\n|$)` at `g`. */
  function Tail(s: string, g: nat): Option<nat> {
    match LineBreakAt(s, g)
    case None => None
    case Some(c) =>
      if c + 3 <= |s| && s[c..c + 3] == "---" then CloseLine(s, c + 3, SpaceRun(s, c + 3))
      else None
  }

  /** The lazy block `[\s\S]*?` from `open`, currently extended to `g`. */
  function LazyBlock(s: string, open: nat, g: nat): Option<Span>
    requires g <= |s|
    decreases |s| - g
  {
    match Tail(s, g)
    case Some(e) => Some(Span(open, g, e))
    case None => if g == |s| then None else LazyBlock(s, open, g + 1)
  }

  /** The opening `---\s*\r?\n`, with the `\s*` currently `k` characters long. */
  function SearchOpen(s: string, k: nat): Option<Span>
    requires 3 + k <= |s|
    decreases k
  {
    var found := match LineBreakAt(s, 3 + k)
      case Some(o) => LazyBlock(s, o, o)
      case None => None;
    if found.Some? then found
    else if k == 0 then None
    else SearchOpen(s, k - 1)
  }

  function MatchFrontmatter(s: string): Option<Span> {
    if |s| >= 3 && s[..3] == "---" then SearchOpen(s, SpaceRun(s, 3)) else None
  }

  /** `splitFrontmatter`: the block and the text after the match, or no block and the whole page. */
  function SplitFrontmatter(content: string): (r: Split)
    ensures r.frontmatter.None? <==> (forall sp :: !IsMatch(content, sp))
    ensures r.frontmatter.None? ==> r.body == content
    ensures r.frontmatter.Some? ==>
      exists sp :: IsChosen(content, sp)
        && r.frontmatter.value == content[sp.open..sp.close]
        && r.body == content[sp.end..]
  {
    MatchFrontmatterChosen(content);
    match MatchFrontmatter(content)
    case None => Split(None, content)
    case Some(sp) => Split(Some(content[sp.open..sp.close]), content[sp.end..])
  }

  // ---------------------------------------------------------------------------
  // What the search finds.

  lemma LineBreakAtMeans(s: string, q: nat)
    ensures LineBreakAt(s, q).Some? ==>
      var e := LineBreakAt(s, q).value;
      q < e <= |s| && s[e - 1] == '\n' && AllSpace(s[q..e])
    ensures q < |s| && s[q] == '\n' ==> LineBreakAt(s, q) == Some(q + 1)
  {
  }

  /**
   * The closing search returns the longest `\s*(?:\r?\n|$)` that ends within
   * `p + k + 1`, and fails only when there is none.
   */
  lemma {:induction false} CloseLineFinds(s: string, p: nat, k: nat)
    requires p + k <= |s| && AllSpace(s[p..p + k])
    ensures CloseLine(s, p, k).Some? ==> ClosesAt(s, p, CloseLine(s, p, k).value)
    ensures forall e: nat :: ClosesAt(s, p, e) && (e <= p + k || (e == p + k + 1 && s[p + k] == '\n')) ==>
      CloseLine(s, p, k).Some? && e <= CloseLine(s, p, k).value
    decreases k
  {
    LineBreakAtMeans(s, p + k);
    match LineBreakAt(s, p + k)
    case Some(e) =>
      assert s[p..e] == s[p..p + k] + s[p + k..e];
    case None =>
      if p + k == |s| {
      } else if k > 0 {
        assert s[p..p + (k - 1)] == s[p..p + k][..k - 1];
        CloseLineFinds(s, p, k - 1);
      }
  }

  /** The whole closing line: found exactly when one exists, and the longest. */
  lemma ClosingFinds(s: string, c: nat)
    requires c <= |s|
    ensures CloseLine(s, c, SpaceRun(s, c)).Some? ==> ClosesAt(s, c, CloseLine(s, c, SpaceRun(s, c)).value)
    ensures forall e: nat :: ClosesAt(s, c, e) ==>
      CloseLine(s, c, SpaceRun(s, c)).Some? && e <= CloseLine(s, c, SpaceRun(s, c)).value
  {
    var w := SpaceRun(s, c);
    SpaceRunAll(s, c);
    CloseLineFinds(s, c, w);
  }

  /** A closing delimiter line at `g` starts with the line break `LineBreakAt` finds. */
  lemma TailAtBreak(s: string, g: nat, e: nat)
    requires TailAt(s, g, e)
    ensures LineBreakAt(s, g).Some?
    ensures var c := LineBreakAt(s, g).value;
      c + 3 <= |s| && s[c..c + 3] == "---" && ClosesAt(s, c + 3, e)
  {
    if g + 4 <= |s| && s[g..g + 4] == "\n---" && ClosesAt(s, g + 4, e) {
      assert s[g] == s[g..g + 4][0];
      assert s[g + 1..g + 4] == s[g..g + 4][1..];
    } else {
      assert s[g] == s[g..g + 5][0] && s[g + 1] == s[g..g + 5][1];
      assert s[g + 2..g + 5] == s[g..g + 5][2..];
    }
  }

  /** A line break, `---` and a closing run make a closing delimiter line. */
  lemma TailAtFrom(s: string, g: nat, c: nat, e: nat)
    requires LineBreakAt(s, g) == Some(c) && c + 3 <= |s| && s[c..c + 3] == "---" && ClosesAt(s, c + 3, e)
    ensures TailAt(s, g, e)
  {
    if c == g + 2 {
      assert s[g..g + 5] == [s[g], s[g + 1]] + s[c..c + 3];
    } else {
      assert s[g..g + 4] == [s[g]] + s[c..c + 3];
    }
  }

  /** `Tail` succeeds exactly where a closing delimiter line starts, with the longest end. */
  lemma TailFinds(s: string, g: nat)
    ensures Tail(s, g).Some? ==> TailAt(s, g, Tail(s, g).value)
    ensures forall e: nat :: TailAt(s, g, e) ==> Tail(s, g).Some? && e <= Tail(s, g).value
  {
    if Tail(s, g).Some? {
      var c := LineBreakAt(s, g).value;
      ClosingFinds(s, c + 3);
      TailAtFrom(s, g, c, Tail(s, g).value);
    }
    forall e: nat | TailAt(s, g, e) ensures Tail(s, g).Some? && e <= Tail(s, g).value {
      TailAtBreak(s, g, e);
      ClosingFinds(s, LineBreakAt(s, g).value + 3);
    }
  }

  /** The lazy block stops at the first closing delimiter line from `g` on. */
  lemma {:induction false} LazyBlockFinds(s: string, open: nat, g: nat)
    requires g <= |s|
    ensures LazyBlock(s, open, g).Some? ==>
      var sp := LazyBlock(s, open, g).value;
      sp.open == open && g <= sp.close && TailAt(s, sp.close, sp.end)
      && (forall e: nat :: TailAt(s, sp.close, e) ==> e <= sp.end)
      && (forall h: nat, e: nat :: g <= h < sp.close ==> !TailAt(s, h, e))
    ensures LazyBlock(s, open, g).None? ==> forall h: nat, e: nat :: g <= h ==> !TailAt(s, h, e)
    decreases |s| - g
  {
    TailFinds(s, g);
    if Tail(s, g).None? {
      if g == |s| {
        forall h: nat, e: nat | g <= h
          ensures !TailAt(s, h, e)
        {
        }
      } else {
        LazyBlockFinds(s, open, g + 1);
      }
    }
  }

  /**
   * A block found after the latest opening line that can have one is the
   * match the engine reports.
   */
  lemma OpeningChosen(s: string, o: nat, sp: Span)
    requires OpensAt(s, o) && o <= |s| && LazyBlock(s, o, o) == Some(sp)
    requires forall o': nat, g: nat, e: nat :: IsMatch(s, Span(o', g, e)) ==> o' <= o
    ensures IsChosen(s, sp)
  {
    LazyBlockFinds(s, o, o);
    assert IsMatch(s, sp);
    forall g: nat, e: nat | sp.open <= g < sp.close
      ensures !IsMatch(s, Span(sp.open, g, e))
    {
    }
    forall e: nat | IsMatch(s, Span(sp.open, sp.close, e))
      ensures e <= sp.end
    {
    }
  }

  /** An opening line with no block after it rules out every match that opens there. */
  lemma OpeningEmpty(s: string, o: nat)
    requires o <= |s| && LazyBlock(s, o, o).None?
    ensures forall g: nat, e: nat :: !IsMatch(s, Span(o, g, e))
  {
    LazyBlockFinds(s, o, o);
  }

  /** When the opening line ending at `3 + k` has no closing line, every match opens earlier. */
  lemma NoOpeningAfter(s: string, k: nat)
    requires 3 + k <= |s|
    requires forall o: nat, g: nat, e: nat :: IsMatch(s, Span(o, g, e)) ==> o <= 4 + k
    requires match LineBreakAt(s, 3 + k)
      case Some(o) => o <= |s| && LazyBlock(s, o, o).None?
      case None => true
    ensures forall o: nat, g: nat, e: nat :: IsMatch(s, Span(o, g, e)) ==> o <= 3 + k
  {
    if LineBreakAt(s, 3 + k).Some? {
      OpeningEmpty(s, LineBreakAt(s, 3 + k).value);
    }
  }

  /**
   * The opening search, with `\s*` currently `k` long and every opening line
   * ending after `4 + k` already known to have no closing line.
   */
  lemma {:induction false} SearchOpenFinds(s: string, k: nat)
    requires 3 + k <= |s| && s[..3] == "---" && AllSpace(s[3..3 + k])
    requires forall o: nat, g: nat, e: nat :: IsMatch(s, Span(o, g, e)) ==> o <= 4 + k
    ensures SearchOpen(s, k).Some? ==> IsChosen(s, SearchOpen(s, k).value)
    ensures SearchOpen(s, k).None? ==> forall sp :: !IsMatch(s, sp)
    decreases k
  {
    LineBreakAtMeans(s, 3 + k);
    var found := match LineBreakAt(s, 3 + k)
      case Some(o) => LazyBlock(s, o, o)
      case None => None;
    if found.Some? {
      var o := LineBreakAt(s, 3 + k).value;
      assert s[3..o] == s[3..3 + k] + s[3 + k..o];
      OpeningChosen(s, o, found.value);
      assert SearchOpen(s, k) == found;
      return;
    }
    assert SearchOpen(s, k) == (if k == 0 then None else SearchOpen(s, k - 1));
    NoOpeningAfter(s, k);
    if k == 0 {
      forall sp | IsMatch(s, sp)
        ensures false
      {
      }
    } else {
      var shorter := s[3..3 + (k - 1)];
      var run := s[3..3 + k];
      assert AllSpace(shorter) by {
        forall i | 0 <= i < |shorter| ensures IsSpace(shorter[i]) {
          assert shorter[i] == run[i];
        }
      }
      SearchOpenFinds(s, k - 1);
    }
  }

  /** `MatchFrontmatter` finds a match exactly when one exists, and then the one the engine reports. */
  lemma MatchFrontmatterChosen(s: string)
    ensures MatchFrontmatter(s).Some? ==> IsChosen(s, MatchFrontmatter(s).value)
    ensures MatchFrontmatter(s).None? ==> forall sp :: !IsMatch(s, sp)
  {
    if |s| >= 3 && s[..3] == "---" {
      var w := SpaceRun(s, 3);
      SpaceRunAll(s, 3);
      forall o: nat, g: nat, e: nat | IsMatch(s, Span(o, g, e))
        ensures o <= 4 + w
      {
      }
      SearchOpenFinds(s, w);
    }
  }

  // ---------------------------------------------------------------------------
  // The key/value lines of the block.

  /** A character of the class `[A-Za-z0-9_-]`. */
  predicate IsKeyChar(c: char) {
    'A' <= c <= 'Z' || 'a' <= c <= 'z' || '0' <= c <= '9' || c == '_' || c == '-'
  }

  predicate IsKey(k: string) {
    |k| > 0 && forall i :: 0 <= i < |k| ==> IsKeyChar(k[i])
  }

  /** Positions `a` up to `b` of `t` hold key characters. */
  predicate KeyCharsIn(t: string, a: nat, b: nat)
    requires b <= |t|
  {
    forall i :: a <= i < b ==> IsKeyChar(t[i])
  }

  /** Positions `a` up to `b` of `t` hold whitespace. */
  predicate SpacesIn(t: string, a: nat, b: nat)
    requires b <= |t|
  {
    forall i :: a <= i < b ==> IsSpace(t[i])
  }

  /** From `p` to its end, `t` holds no line terminator: what `.+$` can span. */
  predicate OneLineFrom(t: string, p: nat) {
    forall i :: p <= i < |t| ==> !IsLineTerminator(t[i])
  }

  /** The length of the run of key characters that starts at `p`. */
  function KeyRun(t: string, p: nat): (n: nat)
    requires p <= |t|
    ensures p + n <= |t|
    ensures p + n == |t| || !IsKeyChar(t[p + n])
    decreases |t| - p
  {
    if p < |t| && IsKeyChar(t[p]) then 1 + KeyRun(t, p + 1) else 0
  }

  /** Everything `KeyRun` counts is a key character. */
  lemma {:induction false} KeyRunChars(t: string, p: nat)
    requires p <= |t|
    ensures KeyCharsIn(t, p, p + KeyRun(t, p))
    decreases |t| - p
  {
    if p < |t| && IsKeyChar(t[p]) {
      KeyRunChars(t, p + 1);
    }
  }

  /** Everything `SpaceRun` counts is whitespace, position by position. */
  lemma SpaceRunSpaces(t: string, p: nat)
    requires p <= |t|
    ensures SpacesIn(t, p, p + SpaceRun(t, p))
  {
    SpaceRunAll(t, p);
    var n := SpaceRun(t, p);
    forall i | p <= i < p + n ensures IsSpace(t[i]) {
      assert t[p..p + n][i - p] == t[i];
    }
  }

  /**
   * `\s*(.+)$` at `p`, with the `\s*` currently `k` characters long: how many
   * blanks the match finally takes, trying the longest run first. What is
   * left after them is a non-empty value on one line.
   */
  function ValueSkip(t: string, p: nat, k: nat): (r: Option<nat>)
    requires p + k <= |t|
    ensures r.Some? ==> r.value <= k && p + r.value < |t| && OneLineFrom(t, p + r.value)
    decreases k
  {
    if p + k < |t| && OneLineFrom(t, p + k) then Some(k)
    else if k == 0 then None
    else ValueSkip(t, p, k - 1)
  }

  /**
   * The rest of the match once the key ends at `k` and the blanks after it at
   * `c`: a colon at `c`, blanks, and the value that follows them.
   */
  function AfterKey(t: string, k: nat, c: nat): (r: Option<(string, string)>)
    requires k <= c <= |t|
    ensures r.Some? ==> c < |t| && t[c] == ':' && exists v: nat ::
      c < v < |t| && SpacesIn(t, c + 1, v) && OneLineFrom(t, v) && r.value == (t[..k], t[v..])
  {
    if c == |t| || t[c] != ':' then None
    else
      SpaceRunSpaces(t, c + 1);
      match ValueSkip(t, c + 1, SpaceRun(t, c + 1))
      case None => None
      case Some(j) =>
        assert SpacesIn(t, c + 1, c + 1 + j);
        Some((t[..k], t[c + 1 + j..]))
  }

  /**
   * `^([A-Za-z0-9_-]+)\s*:\s*(.+)$`: the key and the raw value, when the line
   * matches; a match is a line of that shape, and yields its key and value.
   */
  function MatchKeyValue(t: string): (r: Option<(string, string)>)
    ensures r.Some? ==> exists c: nat, v: nat ::
      ShapeAt(t, |r.value.0|, c, v) && r.value == (t[..|r.value.0|], t[v..])
  {
    var k := KeyRun(t, 0);
    if k == 0 then None
    else
      KeyRunChars(t, 0);
      SpaceRunSpaces(t, k);
      AfterKeyShape(t, k, k + SpaceRun(t, k));
      KeyValueAfter(t, k)
  }

  /** The rest of the match once the key ends at `k`: blanks, then what `AfterKey` reads. */
  function KeyValueAfter(t: string, k: nat): Option<(string, string)>
    requires k <= |t|
  {
    AfterKey(t, k, k + SpaceRun(t, k))
  }

  /** After a key run and its blanks, a successful rest of the match completes a line of the shape. */
  lemma AfterKeyShape(t: string, k: nat, c: nat)
    requires 0 < k <= c <= |t| && KeyCharsIn(t, 0, k) && SpacesIn(t, k, c)
    ensures AfterKey(t, k, c).Some? ==> exists v: nat ::
      ShapeAt(t, k, c, v) && AfterKey(t, k, c).value == (t[..k], t[v..])
  {
    if AfterKey(t, k, c).Some? {
      var v: nat :| c < v < |t| && SpacesIn(t, c + 1, v) && OneLineFrom(t, v) && AfterKey(t, k, c).value == (t[..k], t[v..]);
      assert ShapeAt(t, k, c, v);
    }
  }

  /**
   * The line is a key ending at `k`, blanks, a colon at `c`, blanks, and from
   * `v` on a non-empty value on one line.
   */
  predicate ShapeAt(t: string, k: nat, c: nat, v: nat) {
    && 0 < k <= c < v < |t|
    && KeyCharsIn(t, 0, k) && SpacesIn(t, k, c) && t[c] == ':'
    && SpacesIn(t, c + 1, v) && OneLineFrom(t, v)
  }

  /** A run of `n` blanks followed by a non-blank (or the end) is what `SpaceRun` measures. */
  lemma SpaceRunIs(t: string, p: nat, n: nat)
    requires p + n <= |t| && SpacesIn(t, p, p + n) && (p + n == |t| || !IsSpace(t[p + n]))
    ensures SpaceRun(t, p) == n
  {
    SpaceRunSpaces(t, p);
  }

  /** A run of `n` key characters followed by another character (or the end) is what `KeyRun` measures. */
  lemma KeyRunIs(t: string, p: nat, n: nat)
    requires p + n <= |t| && KeyCharsIn(t, p, p + n)
    requires p + n == |t| || !IsKeyChar(t[p + n])
    ensures KeyRun(t, p) == n
  {
    KeyRunChars(t, p);
  }

  /** The key run of a line of that shape ends where the shape says. */
  lemma ShapeKeyRun(t: string, k: nat, c: nat, v: nat)
    requires ShapeAt(t, k, c, v)
    ensures KeyRun(t, 0) == k
  {
    assert !IsKeyChar(t[k]) by {
      if k < c { assert IsSpace(t[k]); }
    }
    KeyRunIs(t, 0, k);
  }

  /** The blank runs of a line of that shape end where the shape says. */
  lemma ShapeSpaceRuns(t: string, k: nat, c: nat, v: nat)
    requires ShapeAt(t, k, c, v) && !IsSpace(t[v])
    ensures SpaceRun(t, k) == c - k && SpaceRun(t, c + 1) == v - c - 1
  {
    SpaceRunIs(t, k, c - k);
    SpaceRunIs(t, c + 1, v - c - 1);
  }

  /** A colon at `c` whose blanks run up to `v` gives the value from `v`. */
  lemma AfterKeyFinds(t: string, k: nat, c: nat, v: nat)
    requires k <= c < v < |t| && t[c] == ':' && SpaceRun(t, c + 1) == v - c - 1 && OneLineFrom(t, v)
    ensures AfterKey(t, k, c) == Some((t[..k], t[v..]))
  {
  }

  /** The match is decided by what follows the key run and the blanks after it. */
  lemma MatchKeyValueIs(t: string, k: nat, c: nat, r: Option<(string, string)>)
    requires 0 < k <= c <= |t| && KeyRun(t, 0) == k && SpaceRun(t, k) == c - k
    requires AfterKey(t, k, c) == r
    ensures MatchKeyValue(t) == r
  {
    assert KeyValueAfter(t, k) == r;
    assert MatchKeyValue(t) == KeyValueAfter(t, k);
  }

  /**
   * Every line of that shape matches, with its key, and with the value from `v`
   * when the value does not itself start with a blank.
   */
  lemma MatchKeyValueComplete(t: string, k: nat, c: nat, v: nat)
    requires ShapeAt(t, k, c, v) && !IsSpace(t[v])
    ensures MatchKeyValue(t) == Some((t[..k], t[v..]))
  {
    ShapeKeyRun(t, k, c, v);
    ShapeSpaceRuns(t, k, c, v);
    AfterKeyFinds(t, k, c, v);
    MatchKeyValueIs(t, k, c, Some((t[..k], t[v..])));
  }

  /** The key of a match is a well-formed key. */
  lemma MatchKeyValueKey(t: string)
    requires MatchKeyValue(t).Some?
    ensures IsKey(MatchKeyValue(t).value.0)
  {
    var key := MatchKeyValue(t).value.0;
    var c: nat, v: nat :| ShapeAt(t, |key|, c, v) && MatchKeyValue(t).value == (t[..|key|], t[v..]);
    forall i | 0 <= i < |key| ensures IsKeyChar(key[i]) {
      assert key[i] == t[i];
    }
  }

  /** One layer of matching `"` or `'` quotes removed (`value.slice(1, -1)`). */
  function Unquote(v: string): string {
    if |v| >= 1 && ((v[0] == '"' && v[|v| - 1] == '"') || (v[0] == '\'' && v[|v| - 1] == '\'')) then
      if |v| >= 2 then v[1..|v| - 1] else ""
    else v
  }

  /** Quoting a value with `"` or `'` and unquoting it gives the value back, whatever quotes it holds. */
  lemma UnquoteRemovesOneLayer(q: char, v: string)
    requires q == '"' || q == '\''
    ensures Unquote([q] + v + [q]) == v
  {
    var w := [q] + v + [q];
    assert w[1..|w| - 1] == v;
  }

  /** A value not wrapped in one kind of quote is kept as it is. */
  lemma UnquoteKeepsUnwrapped(v: string)
    requires v == [] || !((v[0] == '"' && v[|v| - 1] == '"') || (v[0] == '\'' && v[|v| - 1] == '\''))
    ensures Unquote(v) == v
  {
  }

  /** What one line of the block contributes: its key and value, unless it is skipped. */
  function LineEntry(line: string): Option<(string, string)> {
    var trimmed := Trim(line);
    if trimmed == [] || trimmed[0] == '#' then None
    else match MatchKeyValue(trimmed)
      case None => None
      case Some(m) => Some((m.0, Unquote(Trim(m.1))))
  }

  /**
   * `data[key] = value` on a plain object: the key `__proto__` names the
   * prototype setter, which ignores a string, so no such entry is made.
   */
  function Store(data: map<string, string>, key: string, value: string): map<string, string> {
    if key == "__proto__" then data else data[key := value]
  }

  /** The dictionary after one more line. */
  function Apply(data: map<string, string>, entry: Option<(string, string)>): map<string, string> {
    if entry.None? then data else Store(data, entry.value.0, entry.value.1)
  }

  /** What each line of the block contributes, in order. */
  function Entries(lines: seq<string>): (r: seq<Option<(string, string)>>)
    ensures |r| == |lines|
  {
    seq(|lines|, i requires 0 <= i < |lines| => LineEntry(lines[i]))
  }

  /** The dictionary after the loop has seen `entries`, one line after another. */
  function Collect(entries: seq<Option<(string, string)>>): map<string, string>
    decreases |entries|
  {
    if entries == [] then map[]
    else Apply(Collect(entries[..|entries| - 1]), entries[|entries| - 1])
  }

  /** `parseFrontmatter` as a function: nothing for a missing or empty block. */
  function FrontmatterData(raw: Option<string>): (r: map<string, string>)
    ensures raw.None? || raw == Some("") ==> r == map[]
    ensures forall k :: k in r ==> IsKey(k) && k != "__proto__"
  {
    if raw.None? || raw.value == "" then map[]
    else
      var entries := Entries(SplitLines(raw.value));
      EntriesKeys(SplitLines(raw.value));
      CollectKeys(entries);
      Collect(entries)
  }

  /** `parseFrontmatter`: fills the dictionary line by line. */
  method ParseFrontmatter(raw: Option<string>) returns (data: map<string, string>)
    ensures data == FrontmatterData(raw)
  {
    if raw.None? || raw.value == "" {
      return map[];
    }
    data := map[];
    var lines := SplitLines(raw.value);
    ghost var entries := Entries(lines);
    var i := 0;
    while i < |lines|
      invariant 0 <= i <= |lines|
      invariant data == Collect(entries[..i])
    {
      assert entries[..i + 1][..i] == entries[..i];
      data := AddLine(data, lines[i]);
      i := i + 1;
    }
    assert entries[..i] == entries;
  }

  /** One pass of the loop in `parseFrontmatter`: the line's entry, if any, stored. */
  method AddLine(data: map<string, string>, line: string) returns (next: map<string, string>)
    ensures next == Apply(data, LineEntry(line))
  {
    next := data;
    var trimmed := Trim(line);
    if trimmed == [] || trimmed[0] == '#' {
      return;
    }
    var m := MatchKeyValue(trimmed);
    if m.None? {
      return;
    }
    var value := Trim(m.value.1);
    value := Unquote(value);
    if m.value.0 != "__proto__" {
      next := next[m.value.0 := value];
    }
  }

  /** A line that yields an entry is neither blank nor a comment, and names a well-formed key. */
  lemma LineEntryKey(line: string)
    requires LineEntry(line).Some?
    ensures IsKey(LineEntry(line).value.0)
    ensures Trim(line) != [] && Trim(line)[0] != '#'
  {
    MatchKeyValueKey(Trim(line));
  }

  /** Every entry of a block names a well-formed key. */
  lemma EntriesKeys(lines: seq<string>)
    ensures forall i :: 0 <= i < |lines| && Entries(lines)[i].Some? ==> IsKey(Entries(lines)[i].value.0)
  {
    forall i | 0 <= i < |lines| && Entries(lines)[i].Some?
      ensures IsKey(Entries(lines)[i].value.0)
    {
      LineEntryKey(lines[i]);
    }
  }

  /** Every key of the dictionary is a key some entry names, and never `__proto__`. */
  lemma {:induction false} CollectKeys(entries: seq<Option<(string, string)>>)
    requires forall i :: 0 <= i < |entries| && entries[i].Some? ==> IsKey(entries[i].value.0)
    ensures forall k :: k in Collect(entries) ==> IsKey(k) && k != "__proto__"
    decreases |entries|
  {
    if entries != [] {
      CollectKeys(entries[..|entries| - 1]);
    }
  }

  /** A key is in the dictionary exactly when some entry names it and it is not `__proto__`. */
  lemma {:induction false} CollectKeyOrigin(entries: seq<Option<(string, string)>>, k: string)
    ensures k in Collect(entries) <==>
      k != "__proto__" && exists i :: 0 <= i < |entries| && entries[i].Some? && entries[i].value.0 == k
    decreases |entries|
  {
    if entries != [] {
      var init := entries[..|entries| - 1];
      CollectKeyOrigin(init, k);
      if k in Collect(entries) && k !in Collect(init) {
        assert entries[|entries| - 1].Some?;
      }
      if k != "__proto__" && exists i :: 0 <= i < |entries| && entries[i].Some? && entries[i].value.0 == k {
        var i :| 0 <= i < |entries| && entries[i].Some? && entries[i].value.0 == k;
        if i < |entries| - 1 {
          assert init[i] == entries[i];
        }
      }
      if k in Collect(init) {
        var i :| 0 <= i < |init| && init[i].Some? && init[i].value.0 == k;
        assert entries[i] == init[i];
      }
    }
  }

  /** When a key repeats, the value of its last entry wins. */
  lemma {:induction false} CollectLastWins(entries: seq<Option<(string, string)>>, i: nat, k: string, v: string)
    requires i < |entries| && entries[i] == Some((k, v)) && k != "__proto__"
    requires forall j :: i < j < |entries| ==> entries[j].None? || entries[j].value.0 != k
    ensures k in Collect(entries) && Collect(entries)[k] == v
    decreases |entries|
  {
    if i < |entries| - 1 {
      var init := entries[..|entries| - 1];
      assert init[i] == entries[i];
      CollectLastWins(init, i, k, v);
    }
  }

  /**
   * Every key of a parsed block comes from a line of the block that is
   * neither blank nor a comment.
   */
  lemma FrontmatterKeyOrigin(raw: string, k: string)
    requires k in FrontmatterData(Some(raw))
    ensures exists i ::
              && 0 <= i < |SplitLines(raw)| && Trim(SplitLines(raw)[i]) != [] && Trim(SplitLines(raw)[i])[0] != '#'
              && LineEntry(SplitLines(raw)[i]).Some? && LineEntry(SplitLines(raw)[i]).value.0 == k
  {
    var lines := SplitLines(raw);
    CollectKeyOrigin(Entries(lines), k);
    var i :| 0 <= i < |lines| && Entries(lines)[i].Some? && Entries(lines)[i].value.0 == k;
    LineEntryKey(lines[i]);
  }
}
