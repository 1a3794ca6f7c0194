/**
 * The Markdown subset of simple mode (`s2p_markdown_to_html`): a line-by-line pass with one
 * piece of state (whether a `<ul>` is open) that classifies each trimmed line as blank,
 * heading, bullet item or paragraph, followed by two inline passes over the whole output,
 * `**bold**` first and `*italic*` second.
 */
module Markdown {
  import opened Options
  import opened PhpText
  import SheetRows

  // ---------------------------------------------------------------------------
  // Line classification
  // ---------------------------------------------------------------------------

  /** What one input line becomes. */
  datatype Line =
    | BlankLine
    | HeadingLine(level: nat, text: string)
    | ItemLine(text: string)
    | ParaLine(text: string)

  /** The number of leading `#` characters. */
  function HashRun(t: string): (n: nat)
    ensures n <= |t|
    ensures forall i :: 0 <= i < n ==> t[i] == '#'
    ensures n == |t| || t[n] != '#'
    decreases |t|
  {
    if |t| > 0 && t[0] == '#' then 1 + HashRun(t[1..]) else 0
  }

  /** The greedy `\s+` at the front: what is left after the maximal run of PCRE spaces. */
  function SkipSpaces(s: string): (r: string)
    ensures |r| <= |s| && r == s[|s| - |r|..]
    ensures forall i :: 0 <= i < |s| - |r| ==> IsPcreSpace(s[i])
    ensures r == [] || !IsPcreSpace(r[0])
    decreases |s|
  {
    if |s| > 0 && IsPcreSpace(s[0]) then SkipSpaces(s[1..]) else s
  }

  /**
   * The heading pattern `^(#{1,3})\s+` can match `t` taking `k` hashes: `k` is between 1 and 3,
   * the first `k` characters are `#` and a whitespace character follows them.
   */
  predicate HeadingAt(t: string, k: int) {
    1 <= k <= 3 && k < |t| && (forall i :: 0 <= i < k ==> t[i] == '#') && IsPcreSpace(t[k])
  }

  /** The bullet pattern `^-\s+` matches `t`. */
  predicate BulletAt(t: string) {
    |t| > 1 && t[0] == '-' && IsPcreSpace(t[1])
  }

  /** At most one hash count lets the heading pattern match. */
  lemma HeadingLevelUnique(t: string, a: int, b: int)
    requires HeadingAt(t, a) && HeadingAt(t, b)
    ensures a == b
  {
    assert t[a] != '#' && t[b] != '#';
  }

  /** `/^(#{1,3})\s+(.*)$/`: the level and the text after the whitespace, when the line is a heading. */
  function ParseHeading(t: string): (r: Option<(nat, string)>)
    ensures r.None? <==> forall k :: !HeadingAt(t, k)
    ensures r.Some? ==> HeadingAt(t, r.value.0) && r.value.1 == SkipSpaces(t[r.value.0..])
  {
    var n := HashRun(t);
    if 1 <= n <= 3 && n < |t| && IsPcreSpace(t[n]) then
      assert HeadingAt(t, n);
      Some((n, SkipSpaces(t[n..])))
    else
      assert forall k :: HeadingAt(t, k) ==> k == n by {
        forall k | HeadingAt(t, k) ensures k == n {
          assert t[k] != '#';
        }
      }
      None
  }

  /** `/^-\s+(.*)$/`: the item text, when the line is a bullet. */
  function ParseBullet(t: string): (r: Option<string>)
    ensures r.Some? <==> BulletAt(t)
    ensures r.Some? ==> r.value == SkipSpaces(t[1..])
  {
    if BulletAt(t) then Some(SkipSpaces(t[1..])) else None
  }

  /**
   * One line of input, looked at after `rtrim` and `trim`: blank, then heading, then bullet,
   * and a paragraph of the whole trimmed line otherwise.
   */
  function Classify(line: string): Line
  {
    var t := Trim(line);
    if t == "" then BlankLine
    else
      match ParseHeading(t)
      case Some(h) => HeadingLine(h.0, h.1)
      case None =>
        match ParseBullet(t)
        case Some(x) => ItemLine(x)
        case None => ParaLine(t)
  }

  /**
   * What each kind of line looks like: blank exactly when the trimmed line is empty, a heading
   * exactly when the heading pattern matches, an item exactly when only the bullet pattern
   * does, and a paragraph of the whole trimmed line otherwise.
   */
  lemma ClassifyKinds(line: string)
    ensures Classify(line).BlankLine? <==> Trim(line) == ""
    ensures Classify(line).HeadingLine? <==> Trim(line) != "" && exists k :: HeadingAt(Trim(line), k)
    ensures Classify(line).HeadingLine? ==>
      var h := Classify(line);
      HeadingAt(Trim(line), h.level) && 1 <= h.level <= 3 && h.text == SkipSpaces(Trim(line)[h.level..])
    ensures Classify(line).ItemLine? <==>
      Trim(line) != "" && (forall k :: !HeadingAt(Trim(line), k)) && BulletAt(Trim(line))
    ensures Classify(line).ItemLine? ==> Classify(line).text == SkipSpaces(Trim(line)[1..])
    ensures Classify(line).ParaLine? ==> Classify(line).text == Trim(line)
  {
  }

  /** `trim($raw)` with `$raw = rtrim($line)` is the same as `trim($line)`. */
  lemma TrimAfterTrimRight(s: string)
    ensures Trim(TrimRight(s)) == Trim(s)
  {
    var r := TrimRight(s);
    assert TrimRight(r) == r;
  }

  function ClassifyAll(lines: seq<string>): (ls: seq<Line>)
    ensures |ls| == |lines|
    ensures forall i :: 0 <= i < |lines| ==> ls[i] == Classify(lines[i])
  {
    seq(|lines|, i requires 0 <= i < |lines| => Classify(lines[i]))
  }

  // ---------------------------------------------------------------------------
  // Blocks and the open-list state
  // ---------------------------------------------------------------------------

  /** An emitted piece of output: `<ul>`, `</ul>`, or the markup of one line. */
  datatype Block = OpenList | CloseList | Emit(line: Line)

  /**
   * Reference reading of well-formed list markup: starting in state `open`, `<ul>` appears only
   * when no list is open, `</ul>` only when one is, items only inside a list, every other line
   * outside, and no list is left open at the end.
   */
  predicate Nested(bs: seq<Block>, open: bool)
    decreases |bs|
  {
    if |bs| == 0 then !open
    else
      match bs[0]
      case OpenList => !open && Nested(bs[1..], true)
      case CloseList => open && Nested(bs[1..], false)
      case Emit(l) => l.ItemLine? == open && Nested(bs[1..], open)
  }

  /** The lines an output shows, with the list markup removed. */
  function Strip(bs: seq<Block>): seq<Line>
  {
    if |bs| == 0 then []
    else if bs[0].Emit? then [bs[0].line] + Strip(bs[1..])
    else Strip(bs[1..])
  }

  lemma StripCons(b: Block, bs: seq<Block>)
    ensures Strip([b] + bs) == (if b.Emit? then [b.line] else []) + Strip(bs)
  {
    assert ([b] + bs)[1..] == bs;
  }

  /**
   * The list markup written before a line: `<ul>` when an item starts a list, `</ul>` when any
   * other line ends one, nothing otherwise.
   */
  function ListMarkup(inList: bool, isItem: bool): seq<Block> {
    if isItem && !inList then [OpenList]
    else if !isItem && inList then [CloseList]
    else []
  }

  /**
   * The main loop over the classified lines, with `inList` the value of `$in_list` before the
   * first one: a blank line, heading or paragraph first closes an open list; an item first
   * opens one; at the end an open list is closed.
   */
  function Blocks(ls: seq<Line>, inList: bool): seq<Block>
    decreases |ls|
  {
    if |ls| == 0 then ListMarkup(inList, false)
    else ListMarkup(inList, ls[0].ItemLine?) + ([Emit(ls[0])] + Blocks(ls[1..], ls[0].ItemLine?))
  }

  /** The output never leaves a list open, and items appear only inside lists. */
  lemma {:induction false} BlocksNested(ls: seq<Line>, inList: bool)
    ensures Nested(Blocks(ls, inList), inList)
    decreases |ls|
  {
    if |ls| > 0 {
      var l := ls[0];
      var next := l.ItemLine?;
      var rest := Blocks(ls[1..], next);
      BlocksNested(ls[1..], next);
      var tail := [Emit(l)] + rest;
      assert tail[1..] == rest;
      assert Nested(tail, next);
      var markup := ListMarkup(inList, next);
      if |markup| == 1 {
        assert (markup + tail)[1..] == tail;
      } else {
        assert markup + tail == tail;
      }
    }
  }

  /** Apart from the list markup, the output is the classified lines, in order. */
  lemma {:induction false} BlocksStrip(ls: seq<Line>, inList: bool)
    ensures Strip(Blocks(ls, inList)) == ls
    decreases |ls|
  {
    if |ls| > 0 {
      var l := ls[0];
      var next := l.ItemLine?;
      var rest := Blocks(ls[1..], next);
      BlocksStrip(ls[1..], next);
      StripCons(Emit(l), rest);
      var tail := [Emit(l)] + rest;
      assert Strip(tail) == ls by {
        assert ls == [l] + ls[1..];
      }
      var markup := ListMarkup(inList, next);
      if |markup| == 1 {
        assert markup + tail == [markup[0]] + tail;
        StripCons(markup[0], tail);
      } else {
        assert markup + tail == tail;
      }
    }
  }

  predicate IsItem(b: Block) {
    b.Emit? && b.line.ItemLine?
  }

  /**
   * Tight list markup: `<ul>` is followed at once by an item; `</ul>` comes right after an item
   * (or at the very start, when `afterItem` says the text before it ended in an item) and is
   * followed by a line that is not an item, or by the end. So no list is empty and no two lists
   * are adjacent.
   */
  predicate Tight(bs: seq<Block>, afterItem: bool)
    decreases |bs|
  {
    if |bs| == 0 then true
    else
      match bs[0]
      case OpenList => |bs| >= 2 && IsItem(bs[1]) && Tight(bs[1..], true)
      case CloseList =>
        afterItem && (|bs| == 1 || (bs[1].Emit? && !IsItem(bs[1]))) && Tight(bs[1..], false)
      case Emit(l) => Tight(bs[1..], l.ItemLine?)
  }

  /** The `$in_list` loop writes tight list markup: consecutive items share one `<ul>`. */
  lemma {:induction false} BlocksTight(ls: seq<Line>, inList: bool)
    ensures Tight(Blocks(ls, inList), inList)
    decreases |ls|
  {
    if |ls| > 0 {
      var l := ls[0];
      var next := l.ItemLine?;
      var rest := Blocks(ls[1..], next);
      BlocksTight(ls[1..], next);
      var tail := [Emit(l)] + rest;
      assert tail[1..] == rest;
      var markup := ListMarkup(inList, next);
      if |markup| == 1 {
        assert (markup + tail)[1..] == tail;
      } else {
        assert markup + tail == tail;
      }
    } else if inList {
      assert Blocks(ls, inList) == [CloseList];
      assert Blocks(ls, inList)[1..] == [];
    }
  }

  /**
   * Well-nested, tight markup around the lines `ls` is unique: it is what the `$in_list` loop
   * writes. Together with `BlocksNested`, `BlocksTight` and `BlocksStrip` this fixes the loop's
   * output on every input.
   */
  lemma {:induction false} BlocksUnique(bs: seq<Block>, ls: seq<Line>, open: bool)
    requires Nested(bs, open) && Tight(bs, open) && Strip(bs) == ls
    ensures bs == Blocks(ls, open)
    decreases |bs|
  {
    if |bs| == 0 {
      assert ls == [];
    } else {
      var tail := bs[1..];
      StripCons(bs[0], tail);
      assert bs == [bs[0]] + tail;
      match bs[0]
      case Emit(l) =>
        BlocksUnique(tail, ls[1..], open);
      case OpenList =>
        StripCons(tail[0], tail[1..]);
        assert tail == [tail[0]] + tail[1..];
        BlocksUnique(tail, ls, true);
      case CloseList =>
        if |tail| == 0 {
          assert ls == [];
        } else {
          StripCons(tail[0], tail[1..]);
          assert tail == [tail[0]] + tail[1..];
          BlocksUnique(tail, ls, false);
        }
    }
  }

  // ---------------------------------------------------------------------------
  // Rendering
  // ---------------------------------------------------------------------------

  function RenderLine(l: Line, esc: string -> string): string {
    match l
    case BlankLine => "\n"
    case HeadingLine(level, text) =>
      "<h" + NatToString(level) + ">" + esc(text) + "</h" + NatToString(level) + ">\n"
    case ItemLine(text) => "<li>" + esc(text) + "</li>\n"
    case ParaLine(text) => "<p>" + esc(text) + "</p>\n"
  }

  function RenderBlocks(bs: seq<Block>, esc: string -> string): string
  {
    if |bs| == 0 then ""
    else
      var head := match bs[0]
        case OpenList => "<ul>\n"
        case CloseList => "</ul>\n"
        case Emit(l) => RenderLine(l, esc);
      head + RenderBlocks(bs[1..], esc)
  }

  lemma RenderBlocksCons(bs: seq<Block>, esc: string -> string)
    requires |bs| >= 1
    ensures RenderBlocks(bs, esc) == RenderBlocks([bs[0]], esc) + RenderBlocks(bs[1..], esc)
  {
    assert [bs[0]][1..] == [];
  }

  /** Rendering works block by block: the output of `a + b` is that of `a` followed by that of `b`. */
  lemma {:induction false} RenderBlocksAppend(a: seq<Block>, b: seq<Block>, esc: string -> string)
    ensures RenderBlocks(a + b, esc) == RenderBlocks(a, esc) + RenderBlocks(b, esc)
    decreases |a|
  {
    if |a| == 0 {
      assert a + b == b;
    } else {
      assert (a + b)[0] == a[0];
      assert (a + b)[1..] == a[1..] + b;
      RenderBlocksAppend(a[1..], b, esc);
      RenderBlocksCons(a + b, esc);
      RenderBlocksCons(a, esc);
    }
  }

  // ---------------------------------------------------------------------------
  // Inline emphasis
  // ---------------------------------------------------------------------------

  /** A piece of text seen by `preg_replace('/M(.+?)M/s', ...)`: an untouched character or a match. */
  datatype Span = Plain(c: char) | Marked(body: string)

  /** The text a span list was read from. */
  function Unparse(spans: seq<Span>, m: string): string
  {
    if |spans| == 0 then ""
    else
      var head := match spans[0]
        case Plain(c) => [c]
        case Marked(b) => m + b + m;
      head + Unparse(spans[1..], m)
  }

  /**
   * The lazy `.+?`: the body is not empty and no marker starts inside it after its first
   * character, counting a marker that runs into the closing one.
   */
  predicate LazyBody(b: string, m: string) {
    |b| >= 1 && forall k :: 1 <= k < |b| ==> !StartsWith((b + m)[k..], m)
  }

  /**
   * The scan `preg_replace` performs for the pattern `M(.+?)M` with `/s`: at each position a
   * match is tried, taking the shortest non-empty body before the next marker; when there is
   * none, one character is copied and the scan moves on.
   */
  function Spans(s: string, m: string): (r: seq<Span>)
    requires |m| > 0
    ensures Unparse(r, m) == s
    ensures forall k :: 0 <= k < |r| && r[k].Marked? ==> LazyBody(r[k].body, m)
    decreases |s|
  {
    var j := if StartsWith(s, m) then FindFrom(s, m, |m| + 1) else None;
    if j.Some? then
      var e := j.value;
      var b := s[|m|..e];
      var rest := Spans(s[e + |m|..], m);
      MarkedMatch(s, m, e);
      var r := [Marked(b)] + rest;
      assert r[1..] == rest;
      r
    else if |s| == 0 then []
    else
      var rest := Spans(s[1..], m);
      var r := [Plain(s[0])] + rest;
      assert r[1..] == rest;
      assert s == [s[0]] + s[1..];
      r
  }

  function RenderSpans(spans: seq<Span>, m: string, open: string, close: string): string
  {
    if |spans| == 0 then ""
    else
      var head := match spans[0]
        case Plain(c) => [c]
        case Marked(b) => open + b + close;
      head + RenderSpans(spans[1..], m, open, close)
  }

  /** A match ending at the first marker at or after `|m| + 1` splits `s` and has a lazy body. */
  lemma MarkedMatch(s: string, m: string, e: nat)
    requires |m| > 0 && StartsWith(s, m)
    requires FindFrom(s, m, |m| + 1) == Some(e)
    ensures s == m + s[|m|..e] + m + s[e + |m|..]
    ensures LazyBody(s[|m|..e], m)
  {
    assert |m| + 1 <= e && e + |m| <= |s| && StartsWith(s[e..], m);
    assert s[e..e + |m|] == m by {
      assert s[e..][..|m|] == s[e..e + |m|];
    }
    MarkedSplit(s, m, e);
    MarkedLazy(s, m, e);
  }

  /** The text cut around the two markers. */
  lemma MarkedSplit(s: string, m: string, e: nat)
    requires StartsWith(s, m) && |m| <= e && e + |m| <= |s| && s[e..e + |m|] == m
    ensures s == m + s[|m|..e] + m + s[e + |m|..]
  {
    assert s[..|m|] == m;
    assert s == s[..|m|] + s[|m|..e] + s[e..e + |m|] + s[e + |m|..];
  }

  /** No marker starts strictly between `|m| + 1` and `e`, so the body up to `e` is lazy. */
  lemma MarkedLazy(s: string, m: string, e: nat)
    requires |m| > 0 && |m| + 1 <= e && e + |m| <= |s| && s[e..e + |m|] == m
    requires forall q :: |m| + 1 <= q < e ==> !StartsWith(s[q..], m)
    ensures LazyBody(s[|m|..e], m)
  {
    var b := s[|m|..e];
    forall k | 1 <= k < |b| ensures !StartsWith((b + m)[k..], m) {
      assert !StartsWith(s[|m| + k..], m);
      NoMarkerInside(s, m, e, k);
    }
  }

  lemma NoMarkerInside(s: string, m: string, e: nat, k: nat)
    requires |m| > 0 && |m| + 1 <= e && e + |m| <= |s| && s[e..e + |m|] == m
    requires 1 <= k < e - |m|
    requires !StartsWith(s[|m| + k..], m)
    ensures !StartsWith((s[|m|..e] + m)[k..], m)
  {
    var b := s[|m|..e];
    assert b + m == s[|m|..e + |m|];
    var w := s[|m| + k..e + |m|];
    assert (b + m)[k..] == w;
    assert s[|m| + k..][..|m|] == w[..|m|];
  }

  /** Text without the marker is read as plain characters only. */
  lemma {:induction false} SpansWithoutMarker(s: string, m: string)
    requires |m| > 0
    requires !Occurs(s, m)
    ensures forall k :: 0 <= k < |Spans(s, m)| ==> Spans(s, m)[k].Plain?
    ensures RenderSpans(Spans(s, m), m, "", "") == s
    decreases |s|
  {
    if |s| > 0 {
      assert !StartsWith(s[0..], m);
      assert s[0..] == s;
      assert !Occurs(s[1..], m) by {
        forall i | 0 <= i <= |s[1..]| ensures !StartsWith(s[1..][i..], m) {
          assert s[1..][i..] == s[i + 1..];
        }
      }
      SpansWithoutMarker(s[1..], m);
      var r := Spans(s, m);
      assert r == [Plain(s[0])] + Spans(s[1..], m);
      assert s == [s[0]] + s[1..];
    }
  }

  /** `preg_replace` with `M(.+?)M` and replacement `open$1close`. */
  function Emphasize(s: string, m: string, open: string, close: string): (r: string)
    requires |m| > 0
    ensures !Occurs(s, m) ==> r == s
  {
    RenderWithoutMarker(s, m, open, close);
    RenderSpans(Spans(s, m), m, open, close)
  }

  /** Text without the marker renders back to itself, whatever the tags. */
  lemma RenderWithoutMarker(s: string, m: string, open: string, close: string)
    requires |m| > 0
    ensures !Occurs(s, m) ==> RenderSpans(Spans(s, m), m, open, close) == s
  {
    if !Occurs(s, m) {
      SpansWithoutMarker(s, m);
      PlainRenderIgnoresTags(Spans(s, m), m, open, close);
    }
  }

  /** Rendering only plain spans does not depend on the tags. */
  lemma {:induction false} PlainRenderIgnoresTags(spans: seq<Span>, m: string, open: string, close: string)
    requires forall k :: 0 <= k < |spans| ==> spans[k].Plain?
    ensures RenderSpans(spans, m, open, close) == RenderSpans(spans, m, "", "")
    decreases |spans|
  {
    if |spans| > 0 {
      PlainRenderIgnoresTags(spans[1..], m, open, close);
    }
  }

  // ---------------------------------------------------------------------------
  // The scan, characterised
  // ---------------------------------------------------------------------------

  /**
   * A match of `M(.+?)M` can start at the front of `s`: the marker, at least one body
   * character, and a closing marker further on.
   */
  predicate CanMatchAt(s: string, m: string) {
    StartsWith(s, m) && exists e :: |m| + 1 <= e <= |s| && MarkerAt(s, m, e)
  }

  /** The marker stands in `s` at position `e`. */
  predicate MarkerAt(s: string, m: string, e: int) {
    0 <= e && e + |m| <= |s| && s[e..e + |m|] == m
  }

  /**
   * Reference reading of the `preg_replace` scan: `spans` reads `s` from the left, taking a
   * match with a lazy body wherever one can start, and a single plain character only where
   * none can.
   */
  predicate Leftmost(spans: seq<Span>, s: string, m: string)
    decreases |spans|
  {
    if |spans| == 0 then s == ""
    else
      match spans[0]
      case Plain(c) =>
        |s| > 0 && s[0] == c && !CanMatchAt(s, m) && Leftmost(spans[1..], s[1..], m)
      case Marked(b) =>
        LazyBody(b, m) && StartsWith(s, m + b + m) && Leftmost(spans[1..], s[|m + b + m|..], m)
  }

  /** When the search for a closing marker fails, no match can start at the front. */
  lemma NoCloseNoMatch(s: string, m: string)
    requires |m| > 0 && StartsWith(s, m)
    requires FindFrom(s, m, |m| + 1).None?
    ensures !CanMatchAt(s, m)
  {
    forall e | |m| + 1 <= e && e + |m| <= |s| ensures !MarkerAt(s, m, e) {
      assert !StartsWith(s[e..], m);
      assert s[e..][..|m|] == s[e..e + |m|];
    }
  }

  /** A lazy match at the front means a match can start there. */
  lemma MarkedCanMatch(s: string, m: string, b: string)
    requires LazyBody(b, m) && StartsWith(s, m + b + m)
    ensures CanMatchAt(s, m)
  {
    var e := |m| + |b|;
    assert s[..|m + b + m|] == m + b + m;
    assert s[..|m|] == (m + b + m)[..|m|] == m;
    assert s[e..e + |m|] == (m + b + m)[e..e + |m|] == m;
    assert MarkerAt(s, m, e);
  }

  /** Two lazy bodies read at the front of the same text are the same body. */
  lemma LazyUnique(s: string, m: string, b1: string, b2: string)
    requires |m| > 0 && LazyBody(b1, m) && LazyBody(b2, m)
    requires StartsWith(s, m + b1 + m) && StartsWith(s, m + b2 + m)
    ensures b1 == b2
  {
    if |b1| < |b2| {
      LazyShorter(s, m, b1, b2);
      assert false;
    } else if |b2| < |b1| {
      LazyShorter(s, m, b2, b1);
      assert false;
    } else {
      assert s[..|m + b1 + m|] == m + b1 + m;
      assert s[..|m + b2 + m|] == m + b2 + m;
      assert b1 == s[|m|..|m| + |b1|] == b2;
    }
  }

  /** A match with a shorter body puts a closing marker inside any longer body, which is then not lazy. */
  lemma LazyShorter(s: string, m: string, b1: string, b2: string)
    requires |m| > 0 && |b1| >= 1 && |b1| < |b2|
    requires StartsWith(s, m + b1 + m) && StartsWith(s, m + b2 + m)
    ensures StartsWith((b2 + m)[|b1|..], m)
    ensures !LazyBody(b2, m)
  {
    var k := |b1|;
    var w := s[|m| + k..|m| + k + |m|];
    assert s[..|m + b1 + m|] == m + b1 + m;
    assert s[..|m + b2 + m|] == m + b2 + m;
    assert w == (m + b1 + m)[|m| + k..|m| + k + |m|] == m;
    assert (b2 + m)[k..][..|m|] == (m + b2 + m)[|m| + k..|m| + k + |m|] == w;
  }

  /** The scan produces the reference reading. */
  lemma {:induction false} SpansLeftmost(s: string, m: string)
    requires |m| > 0
    ensures Leftmost(Spans(s, m), s, m)
    decreases |s|
  {
    var r := Spans(s, m);
    var j := if StartsWith(s, m) then FindFrom(s, m, |m| + 1) else None;
    if j.Some? {
      var e := j.value;
      var b := s[|m|..e];
      MarkedMatch(s, m, e);
      SpansLeftmost(s[e + |m|..], m);
      assert r[0] == Marked(b) && r[1..] == Spans(s[e + |m|..], m);
      assert s[..|m + b + m|] == m + b + m;
    } else if |s| > 0 {
      if StartsWith(s, m) {
        NoCloseNoMatch(s, m);
      }
      SpansLeftmost(s[1..], m);
      assert r[0] == Plain(s[0]) && r[1..] == Spans(s[1..], m);
    }
  }

  /** The reference reading of a text is unique. */
  lemma {:induction false} LeftmostUnique(r1: seq<Span>, r2: seq<Span>, s: string, m: string)
    requires |m| > 0
    requires Leftmost(r1, s, m) && Leftmost(r2, s, m)
    ensures r1 == r2
    decreases |r1|
  {
    if |r1| > 0 && |r2| > 0 {
      match r1[0]
      case Plain(c1) =>
        if r2[0].Marked? {
          MarkedCanMatch(s, m, r2[0].body);
        }
        LeftmostUnique(r1[1..], r2[1..], s[1..], m);
        assert r1 == [r1[0]] + r1[1..] && r2 == [r2[0]] + r2[1..];
      case Marked(b1) =>
        if r2[0].Plain? {
          MarkedCanMatch(s, m, b1);
        } else {
          LazyUnique(s, m, b1, r2[0].body);
        }
        LeftmostUnique(r1[1..], r2[1..], s[|m + b1 + m|..], m);
        assert r1 == [r1[0]] + r1[1..] && r2 == [r2[0]] + r2[1..];
    }
  }

  /** A lazy match at the front is replaced by `open`, its body and `close`, and the scan goes on after it. */
  lemma EmphasizeMatch(b: string, t: string, m: string, open: string, close: string)
    requires |m| > 0 && LazyBody(b, m)
    ensures Emphasize(m + b + m + t, m, open, close) == open + b + close + Emphasize(t, m, open, close)
  {
    var s := m + b + m + t;
    var r := [Marked(b)] + Spans(t, m);
    SpansLeftmost(s, m);
    SpansLeftmost(t, m);
    assert s[..|m + b + m|] == m + b + m;
    assert s[|m + b + m|..] == t;
    assert r[1..] == Spans(t, m);
    assert Leftmost(r, s, m);
    LeftmostUnique(Spans(s, m), r, s, m);
  }

  /** Where no match can start, the first character is copied and the scan goes on after it. */
  lemma EmphasizePlain(s: string, m: string, open: string, close: string)
    requires |m| > 0 && |s| > 0 && !CanMatchAt(s, m)
    ensures Emphasize(s, m, open, close) == [s[0]] + Emphasize(s[1..], m, open, close)
  {
    var r := [Plain(s[0])] + Spans(s[1..], m);
    SpansLeftmost(s, m);
    SpansLeftmost(s[1..], m);
    assert r[1..] == Spans(s[1..], m);
    assert Leftmost(r, s, m);
    LeftmostUnique(Spans(s, m), r, s, m);
  }

  /** A needle whose first character is absent does not occur. */
  lemma AbsentHeadNotOccurs(s: string, n: string)
    requires |n| > 0 && n[0] !in s
    ensures !Occurs(s, n)
  {
  }

  /** `s2p_markdown_to_html`: blocks rendered, then bold, then italic. */
  function MarkdownToHtml(text: string, esc: string -> string): string
  {
    var html := RenderBlocks(Blocks(ClassifyAll(SheetRows.Lines(text)), false), esc);
    Emphasize(Emphasize(html, "**", "<strong>", "</strong>"), "*", "<em>", "</em>")
  }

  /**
   * When the rendered blocks hold no `*`, neither inline pass changes them and the result is the
   * block rendering itself.
   */
  lemma MarkdownToHtmlPlain(text: string, esc: string -> string)
    requires '*' !in RenderBlocks(Blocks(ClassifyAll(SheetRows.Lines(text)), false), esc)
    ensures MarkdownToHtml(text, esc) == RenderBlocks(Blocks(ClassifyAll(SheetRows.Lines(text)), false), esc)
  {
    var html := RenderBlocks(Blocks(ClassifyAll(SheetRows.Lines(text)), false), esc);
    AbsentHeadNotOccurs(html, "**");
    AbsentHeadNotOccurs(html, "*");
  }
}
