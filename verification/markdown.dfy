/** `simpleMarkdownToHtml` (scripts.js:211-255): the fallback converter of
    the About page. It removes carriage returns, splits the text at line
    feeds, trims each line and classifies it as blank, heading, list item or
    paragraph; a single flag, `inList`, records whether a `<ul>` is open.

    The model separates what is written from how it is spelled: `Render` is
    the state machine and yields a sequence of `Token`s, `EmitAll` spells
    them as HTML. */
module Markdown {
  import opened Base
  import opened Text
  import opened Markup
  import opened Inline

  // ---------------------------------------------------------------------
  // Line classification

  /** What one trimmed line is. */
  datatype Line = Blank | Heading(level: nat, text: string) | Item(text: string) | Para(text: string)

  /** The regular-expression `.` matches every character of `t`. */
  predicate NoTerminator(t: string)
  {
    forall i | 0 <= i < |t| :: !IsLineTerminator(t[i])
  }

  /** The number of `#` characters `s` starts with. */
  function LeadingHashes(s: string): (n: nat)
    ensures n <= |s|
    ensures forall i :: 0 <= i < n ==> s[i] == '#'
    ensures n < |s| ==> s[n] != '#'
  {
    if |s| > 0 && s[0] == '#' then 1 + LeadingHashes(s[1..]) else 0
  }

  /** `n` copies of `#`. */
  function Hashes(n: nat): (r: string)
    ensures |r| == n && forall i :: 0 <= i < n ==> r[i] == '#'
  {
    if n == 0 then "" else "#" + Hashes(n - 1)
  }

  /** `line.match(/^(#{1,6})\s+(.*)$/)`: the number of `#` and the text
      after the whitespace, when the line is a heading. */
  function MatchHeading(line: string): (r: Option<(nat, string)>)
    ensures r.Some? ==> 1 <= r.value.0 <= 6
  {
    var n := LeadingHashes(line);
    if 1 <= n <= 6 && n < |line| && IsSpace(line[n]) then
      var rest := line[n..];
      var text := rest[LeadingSpaces(rest)..];
      if NoTerminator(text) then Some((n, text)) else None
    else
      None
  }

  /** `line.match(/^[-*]\s+(.*)$/)`: the text of a list item. */
  function MatchItem(line: string): Option<string>
  {
    if |line| > 1 && (line[0] == '-' || line[0] == '*') && IsSpace(line[1]) then
      var rest := line[1..];
      var text := rest[LeadingSpaces(rest)..];
      if NoTerminator(text) then Some(text) else None
    else
      None
  }

  /** How the loop body of the converter reads one raw line. */
  function Classify(raw: string): (l: Line)
    ensures l.Heading? ==> 1 <= l.level <= 6
  {
    var line := Trim(raw);
    if line == "" then Blank
    else match MatchHeading(line)
      case Some((n, text)) => Heading(n, text)
      case None =>
        match MatchItem(line)
        case Some(text) => Item(text)
        case None => Para(line)
  }

  /** The heading pattern matches `line` as `n` hashes, whitespace `w`, and
      text `t` that `.` can match. */
  ghost predicate HeadingParts(line: string, n: nat, w: string, t: string)
  {
    1 <= n <= 6 && |w| > 0 && AllSpace(w) && NoTerminator(t) && line == Hashes(n) + w + t
  }

  /** The list-item pattern matches `line` as bullet `b`, whitespace `w`, text `t`. */
  ghost predicate ItemParts(line: string, b: char, w: string, t: string)
  {
    (b == '-' || b == '*') && |w| > 0 && AllSpace(w) && NoTerminator(t) && line == [b] + w + t
  }

  /** Whitespace at the front of a string is counted by `LeadingSpaces`. */
  lemma LeadingSpacesCover(w: string, t: string)
    requires AllSpace(w)
    ensures |w| <= LeadingSpaces(w + t)
    ensures (w + t)[LeadingSpaces(w + t)..] == t[LeadingSpaces(w + t) - |w|..]
  {
    var k := LeadingSpaces(w + t);
    assert forall i :: 0 <= i < |w| ==> (w + t)[i] == w[i];
  }

  lemma NoTerminatorSuffix(t: string, k: nat)
    requires NoTerminator(t) && k <= |t|
    ensures NoTerminator(t[k..])
  {
    assert forall i :: 0 <= i < |t| - k ==> t[k..][i] == t[k + i];
  }

  /** `MatchHeading` succeeds exactly when the heading pattern can match, and
      then captures the level and the text after all of the whitespace. */
  lemma MatchHeadingSpec(line: string)
    ensures MatchHeading(line).Some? <==> exists n, w, t :: HeadingParts(line, n, w, t)
    ensures MatchHeading(line).Some? ==>
      var n, t := MatchHeading(line).value.0, MatchHeading(line).value.1;
      && HeadingParts(line, n, line[n..|line| - |t|], t)
      && (|t| == 0 || !IsSpace(t[0]))
  {
    var n := LeadingHashes(line);
    if MatchHeading(line).Some? {
      var rest := line[n..];
      var k := LeadingSpaces(rest);
      var t := rest[k..];
      assert line == Hashes(n) + rest[..k] + t by {
        assert line[..n] == Hashes(n);
        assert line == line[..n] + rest;
        assert rest == rest[..k] + t;
      }
      assert AllSpace(rest[..k]) && k > 0;
      assert HeadingParts(line, n, rest[..k], t);
      assert line[n..|line| - |t|] == rest[..k];
    }
    forall n', w, t | HeadingParts(line, n', w, t)
      ensures MatchHeading(line).Some?
    {
      HeadingPartsMatch(line, n', w, t);
    }
  }

  lemma HeadingPartsMatch(line: string, n: nat, w: string, t: string)
    requires HeadingParts(line, n, w, t)
    ensures MatchHeading(line).Some?
  {
    assert line[n] == w[0];
    assert forall i :: 0 <= i < n ==> line[i] == '#';
    assert LeadingHashes(line) == n;
    var rest := line[n..];
    assert rest == w + t;
    LeadingSpacesCover(w, t);
    NoTerminatorSuffix(t, LeadingSpaces(rest) - |w|);
  }

  /** `MatchItem` succeeds exactly when the list-item pattern can match, and
      then captures the text after all of the whitespace. */
  lemma MatchItemSpec(line: string)
    ensures MatchItem(line).Some? <==> exists b, w, t :: ItemParts(line, b, w, t)
    ensures MatchItem(line).Some? ==>
      var t := MatchItem(line).value;
      && ItemParts(line, line[0], line[1..|line| - |t|], t)
      && (|t| == 0 || !IsSpace(t[0]))
  {
    if MatchItem(line).Some? {
      var rest := line[1..];
      var k := LeadingSpaces(rest);
      var t := rest[k..];
      assert line == [line[0]] + rest[..k] + t;
      assert ItemParts(line, line[0], rest[..k], t);
      assert line[1..|line| - |t|] == rest[..k];
    }
    forall b, w, t | ItemParts(line, b, w, t)
      ensures MatchItem(line).Some?
    {
      assert line[1] == w[0];
      var rest := line[1..];
      assert rest == w + t;
      LeadingSpacesCover(w, t);
      NoTerminatorSuffix(t, LeadingSpaces(rest) - |w|);
    }
  }

  /** The classification of a line, stated through the two patterns: blank when
      nothing is left after trimming, a heading when the heading pattern
      matches, otherwise an item when the item pattern matches, otherwise a
      paragraph holding the whole trimmed line. */
  lemma ClassifySpec(raw: string)
    ensures var line := Trim(raw);
      match Classify(raw)
      case Blank => line == ""
      case Heading(n, t) => line != "" && HeadingParts(line, n, line[n..|line| - |t|], t)
      case Item(t) =>
        && line != ""
        && (forall n, w, t' :: !HeadingParts(line, n, w, t'))
        && ItemParts(line, line[0], line[1..|line| - |t|], t)
      case Para(t) =>
        && t == line != ""
        && (forall n, w, t' :: !HeadingParts(line, n, w, t'))
        && (forall b, w, t' :: !ItemParts(line, b, w, t'))
  {
    var line := Trim(raw);
    MatchHeadingSpec(line);
    MatchItemSpec(line);
  }

  // ---------------------------------------------------------------------
  // Tokens and their spelling

  /** One piece of output. */
  datatype Token = OpenList | CloseList | ListItem(html: string) | HeadingTag(level: nat, html: string) | Paragraph(html: string)

  /** The decimal spelling of `n`, as a template literal writes it. */
  function Decimal(n: nat): string
    decreases n
  {
    if n < 10 then [('0' as int + n) as char] else Decimal(n / 10) + [('0' as int + n % 10) as char]
  }

  function HeadingOpen(n: nat): string { "<h" + Decimal(n) + ">" }

  function HeadingClose(n: nat): string { "</h" + Decimal(n) + ">" }

  function Emit(t: Token): string
  {
    match t
    case OpenList => "<ul>"
    case CloseList => "</ul>"
    case ListItem(h) => "<li>" + h + "</li>"
    case HeadingTag(n, h) => HeadingOpen(n) + h + HeadingClose(n)
    case Paragraph(h) => "<p>" + h + "</p>"
  }

  function EmitAll(ts: seq<Token>): string
  {
    if |ts| == 0 then "" else Emit(ts[0]) + EmitAll(ts[1..])
  }

  lemma {:induction false} EmitAllAppend(a: seq<Token>, b: seq<Token>)
    ensures EmitAll(a + b) == EmitAll(a) + EmitAll(b)
    decreases |a|
  {
    if |a| > 0 {
      assert (a + b)[1..] == a[1..] + b;
      EmitAllAppend(a[1..], b);
    } else {
      assert a + b == b;
    }
  }

  // ---------------------------------------------------------------------
  // The state machine

  /** `flushList()`: close the list when one is open. */
  function Flush(inList: bool): seq<Token>
  {
    if inList then [CloseList] else []
  }

  /** The tokens a line of kind `l` writes from state `inList`, and whether a
      list is open after it. */
  function StepLine(l: Line, inList: bool): (seq<Token>, bool)
  {
    match l
    case Blank => (Flush(inList), false)
    case Heading(n, t) => (Flush(inList) + [HeadingTag(n, InlineFmt(t))], false)
    case Item(t) => ((if inList then [] else [OpenList]) + [ListItem(InlineFmt(t))], true)
    case Para(t) => (Flush(inList) + [Paragraph(InlineFmt(t))], false)
  }

  /** The tokens one raw line writes, and whether a list is open after it. */
  function Step(raw: string, inList: bool): (seq<Token>, bool)
  {
    StepLine(Classify(raw), inList)
  }

  /** The loop over `lines` from state `inList`, then the final `flushList()`. */
  function Render(lines: seq<string>, inList: bool): seq<Token>
    decreases |lines|
  {
    if |lines| == 0 then Flush(inList)
    else
      var (ts, next) := Step(lines[0], inList);
      ts + Render(lines[1..], next)
  }

  /** `md.replace(/\r/g, '').split('\n')`. */
  function Lines(md: string): seq<string>
  {
    Split(ReplaceAll(md, '\r', ""), '\n')
  }

  /** `simpleMarkdownToHtml(md)`. */
  function MarkdownToHtml(md: string): string
  {
    EmitAll(Render(Lines(md), false))
  }

  /** The converter as the script writes it: one pass over the lines that
      appends to `out` and keeps the `inList` flag. */
  method ConvertMarkdown(md: string) returns (out: string)
    ensures out == MarkdownToHtml(md)
  {
    var lines := Lines(md);
    out := "";
    var inList := false;
    var i := 0;
    assert lines[0..] == lines;
    while i < |lines|
      invariant 0 <= i <= |lines|
      invariant out + EmitAll(Render(lines[i..], inList)) == EmitAll(Render(lines, false))
    {
      var piece, next := StepHtml(lines[i], inList);
      RenderAdvance(out, lines, i, inList);
      out := out + piece;
      inList := next;
      i := i + 1;
    }
    RenderEnd(lines, inList);
    if inList {
      out := out + "</ul>";
    }
  }

  /** One iteration of the loop body: the flush, then the heading, the list
      item or the paragraph the line turns into. */
  method StepHtml(raw: string, inList: bool) returns (piece: string, next: bool)
    ensures piece == EmitAll(Step(raw, inList).0) && next == Step(raw, inList).1
  {
    var flush := if inList then "</ul>" else "";
    FlushHtml(inList);
    var line := Classify(raw);
    if line.Blank? {
      piece, next := flush, false;
    } else if line.Heading? {
      var tok := HeadingTag(line.level, InlineFmt(line.text));
      EmitAllAppend(Flush(inList), [tok]);
      assert EmitAll([tok]) == Emit(tok);
      piece := flush + Emit(tok);
      next := false;
    } else if line.Item? {
      var tok := ListItem(InlineFmt(line.text));
      var open := if inList then [] else [OpenList];
      assert EmitAll(open) == if inList then "" else "<ul>";
      EmitAllAppend(open, [tok]);
      assert EmitAll([tok]) == Emit(tok);
      piece := (if inList then "" else "<ul>") + Emit(tok);
      next := true;
    } else {
      var tok := Paragraph(InlineFmt(line.text));
      EmitAllAppend(Flush(inList), [tok]);
      assert EmitAll([tok]) == Emit(tok);
      piece := flush + Emit(tok);
      next := false;
    }
  }

  lemma FlushHtml(inList: bool)
    ensures EmitAll(Flush(inList)) == if inList then "</ul>" else ""
  {
  }

  lemma ConcatAssoc(a: string, b: string, c: string)
    ensures a + (b + c) == (a + b) + c
  {
  }

  lemma RenderAt(lines: seq<string>, i: nat, inList: bool)
    requires i < |lines|
    ensures EmitAll(Render(lines[i..], inList)) ==
      EmitAll(Step(lines[i], inList).0) + EmitAll(Render(lines[i + 1..], Step(lines[i], inList).1))
  {
    assert lines[i..][1..] == lines[i + 1..];
    EmitAllAppend(Step(lines[i], inList).0, Render(lines[i + 1..], Step(lines[i], inList).1));
  }

  /** The loop invariant carried across one line. */
  lemma RenderAdvance(out: string, lines: seq<string>, i: nat, inList: bool)
    requires i < |lines|
    ensures out + EmitAll(Render(lines[i..], inList)) ==
      (out + EmitAll(Step(lines[i], inList).0)) + EmitAll(Render(lines[i + 1..], Step(lines[i], inList).1))
  {
    RenderAt(lines, i, inList);
    ConcatAssoc(out, EmitAll(Step(lines[i], inList).0), EmitAll(Render(lines[i + 1..], Step(lines[i], inList).1)));
  }

  /** After the last line only the final `flushList()` is left. */
  lemma RenderEnd(lines: seq<string>, inList: bool)
    ensures EmitAll(Render(lines[|lines|..], inList)) == if inList then "</ul>" else ""
  {
    assert lines[|lines|..] == [];
    FlushHtml(inList);
  }

  // ---------------------------------------------------------------------
  // List structure

  /** The list tokens nest properly: `<ul>` opens only when no list is open and
      is followed at once by an item, `</ul>` closes only an open list, items
      occur only inside a list, nothing else occurs inside one, and no list is
      open at the end. */
  ghost predicate WellNested(ts: seq<Token>, open: bool)
    decreases |ts|
  {
    if |ts| == 0 then !open
    else match ts[0]
      case OpenList => !open && |ts| > 1 && ts[1].ListItem? && WellNested(ts[1..], true)
      case CloseList => open && WellNested(ts[1..], false)
      case ListItem(_) => open && WellNested(ts[1..], true)
      case _ => !open && WellNested(ts[1..], false)
  }

  lemma RenderHead(lines: seq<string>, inList: bool)
    requires |lines| > 0
    ensures Render(lines, inList) == Step(lines[0], inList).0 + Render(lines[1..], Step(lines[0], inList).1)
  {
  }

  /** One line's tokens continue a properly nested sequence. */
  lemma StepWellNested(l: Line, inList: bool, rest: seq<Token>)
    requires WellNested(rest, StepLine(l, inList).1)
    ensures WellNested(StepLine(l, inList).0 + rest, inList)
  {
    match l
    case Blank =>
      FlushWellNested(inList, rest);
    case Heading(n, t) =>
      BlockWellNested(HeadingTag(n, InlineFmt(t)), inList, rest);
    case Item(t) =>
      ItemWellNested(InlineFmt(t), inList, rest);
    case Para(t) =>
      BlockWellNested(Paragraph(InlineFmt(t)), inList, rest);
  }

  lemma FlushWellNested(inList: bool, rest: seq<Token>)
    requires WellNested(rest, false)
    ensures WellNested(Flush(inList) + rest, inList)
  {
    if inList {
      assert ([CloseList] + rest)[1..] == rest;
    } else {
      assert [] + rest == rest;
    }
  }

  /** A heading or a paragraph closes an open list and leaves none open. */
  lemma BlockWellNested(tok: Token, inList: bool, rest: seq<Token>)
    requires tok.HeadingTag? || tok.Paragraph?
    requires WellNested(rest, false)
    ensures WellNested((Flush(inList) + [tok]) + rest, inList)
  {
    var ts := [tok] + rest;
    assert ts[1..] == rest;
    FlushWellNested(inList, ts);
    assert (Flush(inList) + [tok]) + rest == Flush(inList) + ts;
  }

  /** An item opens a list when none is open and leaves one open. */
  lemma ItemWellNested(h: string, inList: bool, rest: seq<Token>)
    requires WellNested(rest, true)
    ensures WellNested(((if inList then [] else [OpenList]) + [ListItem(h)]) + rest, inList)
  {
    var ts := [ListItem(h)] + rest;
    assert ts[1..] == rest;
    if inList {
      assert ([] + [ListItem(h)]) + rest == ts;
    } else {
      assert ([OpenList] + ts)[1..] == ts;
      assert ([OpenList] + [ListItem(h)]) + rest == [OpenList] + ts;
    }
  }

  /** The state machine's output nests properly, starting from either state. */
  lemma {:induction false} RenderWellNested(lines: seq<string>, inList: bool)
    ensures WellNested(Render(lines, inList), inList)
    decreases |lines|
  {
    if |lines| > 0 {
      var (ts, next) := Step(lines[0], inList);
      RenderWellNested(lines[1..], next);
      RenderHead(lines, inList);
      StepWellNested(Classify(lines[0]), inList, Render(lines[1..], next));
    }
  }

  function OpenCount(ts: seq<Token>): nat
  {
    if |ts| == 0 then 0 else (if ts[0] == OpenList then 1 else 0) + OpenCount(ts[1..])
  }

  function CloseCount(ts: seq<Token>): nat
  {
    if |ts| == 0 then 0 else (if ts[0] == CloseList then 1 else 0) + CloseCount(ts[1..])
  }

  /** Properly nested tokens close every list they open. */
  lemma {:induction false} WellNestedBalanced(ts: seq<Token>, open: bool)
    requires WellNested(ts, open)
    ensures CloseCount(ts) == OpenCount(ts) + (if open then 1 else 0)
    decreases |ts|
  {
    if |ts| > 0 {
      WellNestedBalanced(ts[1..], ts[0] == OpenList || ts[0].ListItem?);
    }
  }

  /** The number of maximal runs of list-item lines in `lines`, when the line
      before them was an item exactly if `prevItem`. */
  function ItemRuns(lines: seq<string>, prevItem: bool): nat
    decreases |lines|
  {
    if |lines| == 0 then 0
    else
      var item := Classify(lines[0]).Item?;
      (if item && !prevItem then 1 else 0) + ItemRuns(lines[1..], item)
  }

  /** Consecutive items share one list: the converter opens one `<ul>` per run
      of item lines. */
  lemma {:induction false} RenderOpensPerRun(lines: seq<string>, inList: bool)
    ensures OpenCount(Render(lines, inList)) == ItemRuns(lines, inList)
    decreases |lines|
  {
    if |lines| > 0 {
      var (ts, next) := Step(lines[0], inList);
      RenderOpensPerRun(lines[1..], next);
      RenderHead(lines, inList);
      OpenCountAppend(ts, Render(lines[1..], next));
      StepOpens(Classify(lines[0]), inList);
    }
  }

  /** A line opens a list exactly when it is an item and none is open. */
  lemma StepOpens(l: Line, inList: bool)
    ensures OpenCount(StepLine(l, inList).0) == if l.Item? && !inList then 1 else 0
    ensures StepLine(l, inList).1 == l.Item?
  {
    match l
    case Blank =>
    case Heading(n, t) =>
      OpenCountAppend(Flush(inList), [HeadingTag(n, InlineFmt(t))]);
    case Item(t) =>
      OpenCountAppend(if inList then [] else [OpenList], [ListItem(InlineFmt(t))]);
    case Para(t) =>
      OpenCountAppend(Flush(inList), [Paragraph(InlineFmt(t))]);
  }

  lemma {:induction false} OpenCountAppend(a: seq<Token>, b: seq<Token>)
    ensures OpenCount(a + b) == OpenCount(a) + OpenCount(b)
    ensures CloseCount(a + b) == CloseCount(a) + CloseCount(b)
    decreases |a|
  {
    if |a| > 0 {
      assert (a + b)[1..] == a[1..] + b;
      OpenCountAppend(a[1..], b);
    } else {
      assert a + b == b;
    }
  }

  // ---------------------------------------------------------------------
  // Content

  /** What a line contributes on its own, regardless of the lines around it. */
  function Block(raw: string): seq<Token>
  {
    BlockOf(Classify(raw))
  }

  function BlockOf(l: Line): seq<Token>
  {
    match l
    case Blank => []
    case Heading(n, t) => [HeadingTag(n, InlineFmt(t))]
    case Item(t) => [ListItem(InlineFmt(t))]
    case Para(t) => [Paragraph(InlineFmt(t))]
  }

  function Blocks(lines: seq<string>): seq<Token>
  {
    if |lines| == 0 then [] else Block(lines[0]) + Blocks(lines[1..])
  }

  /** The tokens other than `<ul>` and `</ul>`. */
  function Content(ts: seq<Token>): seq<Token>
  {
    if |ts| == 0 then []
    else if ts[0] == OpenList || ts[0] == CloseList then Content(ts[1..])
    else [ts[0]] + Content(ts[1..])
  }

  lemma {:induction false} ContentAppend(a: seq<Token>, b: seq<Token>)
    ensures Content(a + b) == Content(a) + Content(b)
    decreases |a|
  {
    if |a| > 0 {
      assert (a + b)[1..] == a[1..] + b;
      ContentAppend(a[1..], b);
    } else {
      assert a + b == b;
    }
  }

  /** Apart from the list tags, the output is the lines' own blocks in order:
      each non-blank line becomes exactly one heading, item or paragraph, and
      the list state never drops, duplicates or reorders a line. */
  lemma {:induction false} RenderContent(lines: seq<string>, inList: bool)
    ensures Content(Render(lines, inList)) == Blocks(lines)
    decreases |lines|
  {
    if |lines| > 0 {
      var (ts, next) := Step(lines[0], inList);
      RenderContent(lines[1..], next);
      RenderHead(lines, inList);
      ContentAppend(ts, Render(lines[1..], next));
      StepContent(Classify(lines[0]), inList);
    }
  }

  /** One line's tokens, list tags aside, are its own block. */
  lemma StepContent(l: Line, inList: bool)
    ensures Content(StepLine(l, inList).0) == BlockOf(l)
  {
    match l
    case Blank =>
    case Heading(n, t) =>
      ContentAppend(Flush(inList), [HeadingTag(n, InlineFmt(t))]);
    case Item(t) =>
      ContentAppend(if inList then [] else [OpenList], [ListItem(InlineFmt(t))]);
    case Para(t) =>
      ContentAppend(Flush(inList), [Paragraph(InlineFmt(t))]);
  }

  // ---------------------------------------------------------------------
  // The HTML string

  /** The tags the converter writes around blocks. */
  const BlockTags: set<string> :=
    {"<ul>", "</ul>", "<li>", "</li>", "<p>", "</p>",
     "<h1>", "</h1>", "<h2>", "</h2>", "<h3>", "</h3>",
     "<h4>", "</h4>", "<h5>", "</h5>", "<h6>", "</h6>"}

  /** Every tag the converter can write. */
  const MarkdownTags: set<string> := InlineTags + BlockTags

  /** A token whose text came out of `inlineFmt`. */
  ghost predicate TokenSafe(t: Token)
  {
    match t
    case OpenList => true
    case CloseList => true
    case ListItem(h) => OnlyOpens(h, '<', InlineTags)
    case HeadingTag(n, h) => 1 <= n <= 6 && OnlyOpens(h, '<', InlineTags)
    case Paragraph(h) => OnlyOpens(h, '<', InlineTags)
  }

  ghost predicate AllSafe(ts: seq<Token>)
  {
    forall k :: 0 <= k < |ts| ==> TokenSafe(ts[k])
  }

  lemma StepSafe(l: Line, inList: bool)
    requires l.Heading? ==> 1 <= l.level <= 6
    ensures AllSafe(StepLine(l, inList).0)
  {
    match l
    case Blank =>
    case Heading(n, t) => InlineFmtSafe(t);
    case Item(t) => InlineFmtSafe(t);
    case Para(t) => InlineFmtSafe(t);
  }

  lemma {:induction false} RenderSafe(lines: seq<string>, inList: bool)
    ensures AllSafe(Render(lines, inList))
    decreases |lines|
  {
    if |lines| > 0 {
      var (ts, next) := Step(lines[0], inList);
      RenderSafe(lines[1..], next);
      RenderHead(lines, inList);
      StepSafe(Classify(lines[0]), inList);
      var r := Render(lines[1..], next);
      assert forall k :: 0 <= k < |ts + r| ==> (ts + r)[k] == if k < |ts| then ts[k] else r[k - |ts|];
    }
  }

  /** Every piece of output starts with `<`. */
  lemma {:induction false} EmitAllStart(ts: seq<Token>)
    ensures |EmitAll(ts)| == 0 || EmitAll(ts)[0] == '<'
  {
    if |ts| > 0 {
      match ts[0]
      case OpenList =>
      case CloseList =>
      case ListItem(h) =>
      case HeadingTag(n, h) =>
      case Paragraph(h) =>
    }
  }

  /** The heading tags of a valid level are the literal ones. */
  lemma HeadingTags(n: nat)
    requires 1 <= n <= 6
    ensures HeadingOpen(n) in BlockTags && HeadingClose(n) in BlockTags
    ensures HeadingOpen(n) == ['<', 'h', ('0' as int + n) as char, '>']
    ensures HeadingClose(n) == ['<', '/', 'h', ('0' as int + n) as char, '>']
  {
    if n == 1 {
      assert HeadingOpen(n) == "<h1>" && HeadingClose(n) == "</h1>";
    } else if n == 2 {
      assert HeadingOpen(n) == "<h2>" && HeadingClose(n) == "</h2>";
    } else if n == 3 {
      assert HeadingOpen(n) == "<h3>" && HeadingClose(n) == "</h3>";
    } else if n == 4 {
      assert HeadingOpen(n) == "<h4>" && HeadingClose(n) == "</h4>";
    } else if n == 5 {
      assert HeadingOpen(n) == "<h5>" && HeadingClose(n) == "</h5>";
    } else {
      assert HeadingOpen(n) == "<h6>" && HeadingClose(n) == "</h6>";
    }
  }

  lemma TokenSafeHtml(t: Token)
    requires TokenSafe(t)
    ensures OnlyOpens(Emit(t), '<', MarkdownTags)
  {
    match t
    case OpenList =>
      TagAlone("<ul>", MarkdownTags);
    case CloseList =>
      TagAlone("</ul>", MarkdownTags);
    case ListItem(h) =>
      TagAlone("<li>", MarkdownTags);
      TagAlone("</li>", MarkdownTags);
      OnlyOpensWiden(h, '<', InlineTags, MarkdownTags);
      OnlyOpensAppend3("<li>", h, "</li>", '<', MarkdownTags);
    case HeadingTag(n, h) =>
      HeadingTags(n);
      TagAlone(HeadingOpen(n), MarkdownTags);
      TagAlone(HeadingClose(n), MarkdownTags);
      OnlyOpensWiden(h, '<', InlineTags, MarkdownTags);
      OnlyOpensAppend3(HeadingOpen(n), h, HeadingClose(n), '<', MarkdownTags);
    case Paragraph(h) =>
      TagAlone("<p>", MarkdownTags);
      TagAlone("</p>", MarkdownTags);
      OnlyOpensWiden(h, '<', InlineTags, MarkdownTags);
      OnlyOpensAppend3("<p>", h, "</p>", '<', MarkdownTags);
  }

  lemma {:induction false} EmitAllSafe(ts: seq<Token>)
    requires AllSafe(ts)
    ensures OnlyOpens(EmitAll(ts), '<', MarkdownTags)
    decreases |ts|
  {
    if |ts| > 0 {
      TokenSafeHtml(ts[0]);
      EmitAllSafe(ts[1..]);
      OnlyOpensAppend(Emit(ts[0]), EmitAll(ts[1..]), '<', MarkdownTags);
    }
  }

  /** Every `<` of the converter's output begins a tag it wrote itself: the
      Markdown text cannot open a tag of its own. It can still add attributes
      to a link's `<a>` tag, since the url is written unescaped inside a
      double-quoted `href` (`Inline.LinkUrlVerbatim`). */
  lemma MarkdownSafe(md: string)
    ensures OnlyOpens(MarkdownToHtml(md), '<', MarkdownTags)
  {
    RenderSafe(Lines(md), false);
    EmitAllSafe(Render(Lines(md), false));
  }

  // ---------------------------------------------------------------------
  // Counting list tags in the HTML string

  /** A tag that differs from `<ul>` and `</ul>` right after `<` or `</`. */
  predicate NotListTag(w: string)
  {
    |w| > 2 && w[0] == '<' && w[1] != 'u' && (w[1] == '/' ==> w[2] != 'u')
  }

  lemma NotListTagApart(w: string, p: string)
    requires NotListTag(w) && (p == "<ul>" || p == "</ul>")
    ensures !(w <= p) && !(p <= w)
  {
    if w[1] == '/' {
      assert w[2] != p[2] || w[1] != p[1];
    } else {
      assert w[1] != p[1];
    }
  }

  /** No tag of `inlineFmt` is a prefix of a list tag or the other way round. */
  lemma InlineTagsApart(p: string)
    requires p == "<ul>" || p == "</ul>"
    ensures forall w :: w in InlineTags ==> !(w <= p) && !(p <= w)
  {
    forall w | w in InlineTags
      ensures !(w <= p) && !(p <= w)
    {
      assert NotListTag(w);
      NotListTagApart(w, p);
    }
  }

  /** A list tag written by a token, counted in the token's HTML. */
  lemma TokenCount(t: Token, p: string)
    requires TokenSafe(t) && (p == "<ul>" || p == "</ul>")
    ensures Count(Emit(t), p) == if (t == OpenList && p == "<ul>") || (t == CloseList && p == "</ul>") then 1 else 0
  {
    match t
    case OpenList =>
      ListTagCount("<ul>", p);
    case CloseList =>
      ListTagCount("</ul>", p);
    case ListItem(h) =>
      PlainTags();
      Wrapped("<li>", h, "</li>", p);
    case HeadingTag(n, h) =>
      HeadingPlain(n);
      Wrapped(HeadingOpen(n), h, HeadingClose(n), p);
    case Paragraph(h) =>
      PlainTags();
      Wrapped("<p>", h, "</p>", p);
  }

  /** Each list tag occurs once in itself and not at all in the other. */
  lemma ListTagCount(q: string, p: string)
    requires q == "<ul>" || q == "</ul>"
    requires p == "<ul>" || p == "</ul>"
    ensures Count(q, p) == if q == p then 1 else 0
  {
    assert '<' !in q[1..];
    if q == p {
      assert q <= q;
    } else {
      assert q[1] != p[1];
    }
    CountAbsent(q[1..], p);
  }

  /** A block tag other than a list tag: one `<`, at the front, and a `>` at the end. */
  predicate PlainTag(w: string)
  {
    NotListTag(w) && w[|w| - 1] == '>' && '<' !in w[1..]
  }

  lemma PlainTags()
    ensures PlainTag("<li>") && PlainTag("</li>") && PlainTag("<p>") && PlainTag("</p>")
  {
  }

  lemma HeadingPlain(n: nat)
    requires 1 <= n <= 6
    ensures PlainTag(HeadingOpen(n)) && PlainTag(HeadingClose(n))
  {
    HeadingTags(n);
  }

  /** Text from `inlineFmt` between two tags other than `p` holds no `p`. */
  lemma Wrapped(a: string, h: string, b: string, p: string)
    requires p == "<ul>" || p == "</ul>"
    requires OnlyOpens(h, '<', InlineTags)
    requires PlainTag(a) && PlainTag(b)
    ensures Count(a + h + b, p) == 0
  {
    assert p[0] == '<' && '<' !in p[1..] && '>' !in p[..|p| - 1];
    NotListTagApart(a, p);
    NotListTagApart(b, p);
    CountOther(a, p);
    CountOther(b, p);
    InlineTagsApart(p);
    CountNone(h, p, InlineTags);
    CountAppendClosed(a, h, p);
    CountAppend(a + h, b, p);
  }

  lemma {:induction false} EmitAllCount(ts: seq<Token>)
    requires AllSafe(ts)
    ensures Count(EmitAll(ts), "<ul>") == OpenCount(ts)
    ensures Count(EmitAll(ts), "</ul>") == CloseCount(ts)
    decreases |ts|
  {
    if |ts| > 0 {
      EmitAllCount(ts[1..]);
      EmitAllStart(ts[1..]);
      TokenCount(ts[0], "<ul>");
      TokenCount(ts[0], "</ul>");
      CountAppend(Emit(ts[0]), EmitAll(ts[1..]), "<ul>");
      CountAppend(Emit(ts[0]), EmitAll(ts[1..]), "</ul>");
    }
  }

  /** In the converter's output every `<ul>` has its `</ul>`, and there are as
      many lists as there are runs of consecutive list-item lines. */
  lemma MarkdownLists(md: string)
    ensures var html := MarkdownToHtml(md);
      && Count(html, "<ul>") == Count(html, "</ul>")
      && Count(html, "<ul>") == ItemRuns(Lines(md), false)
  {
    var ts := Render(Lines(md), false);
    RenderSafe(Lines(md), false);
    EmitAllCount(ts);
    RenderWellNested(Lines(md), false);
    WellNestedBalanced(ts, false);
    RenderOpensPerRun(Lines(md), false);
  }
}
