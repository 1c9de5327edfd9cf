/** `inlineFmt` (scripts.js:257-274): the inline pass of the markdown
    converter. After escaping `&`, `<`, `>` it makes four global regular
    expression replacements, in this order: inline code, links, bold,
    italic. Each replacement is a scan from the left that, at each position,
    either matches (and resumes after the match) or copies one character.

    Every pattern here has the shape "opening text, then one or more
    characters other than X, then a closing text that starts with X", so at
    a given position there is at most one match: the body must end at the
    first X. The functions `SpanClose` and `LinkClose` find it. */
module Inline {
  import opened Base
  import opened Text
  import opened Markup
  import opened Escape

  /** The tags `inlineFmt` writes; every `<` of its output begins one of them. */
  const InlineTags: set<string> :=
    {"<code>", "</code>", "<a href=\"", "</a>", "<strong>", "</strong>", "<em>", "</em>"}

  /** The three delimited spans: `` `code` ``, `**bold**` and `*italic*`. */
  datatype Span = Code | Strong | Em {

    /** The delimiter written on both sides of the span. */
    function Delim(): (d: string)
      ensures |d| > 0
    {
      match this
      case Code => "`"
      case Strong => "**"
      case Em => "*"
    }

    function Name(): string
    {
      match this
      case Code => "code"
      case Strong => "strong"
      case Em => "em"
    }

    function Open(): string { "<" + Name() + ">" }

    function Close(): string { "</" + Name() + ">" }

    /** What the replacement writes between the tags: code re-escapes
        angle brackets (scripts.js:262), bold and italic copy the text. */
    function Body(text: string): string
    {
      if Code? then EscapeAngles(text) else text
    }

    /** The replacement for a span whose text between the delimiters is `text`. */
    function Tagged(text: string): string
    {
      Open() + Body(text) + Close()
    }
  }

  /** `p1.replace(/</g,'&lt;').replace(/>/g,'&gt;')`. */
  function EscapeAngles(s: string): (r: string)
    ensures '<' !in r && '>' !in r
  {
    ReplaceAll(ReplaceAll(s, '<', "&lt;"), '>', "&gt;")
  }

  /** On text that the opening escape already processed, the re-escape inside a
      code span changes nothing. */
  lemma EscapeAnglesNoop(s: string)
    requires '<' !in s && '>' !in s
    ensures EscapeAngles(s) == s
  {
    ReplaceAllAbsent(s, '<', "&lt;");
    ReplaceAllAbsent(s, '>', "&gt;");
  }

  // ---------------------------------------------------------------------
  // Delimited spans

  /** The pattern `D([^c]+)D` (`c` the first character of `D`) matches at the
      start of `s`, with its closing delimiter at index `j`. */
  ghost predicate SpanMatch(s: string, k: Span, j: int)
  {
    var d := k.Delim();
    && d <= s
    && |d| < j && j + |d| <= |s|
    && d <= s[j..]
    && forall i :: |d| <= i < j ==> s[i] != d[0]
  }

  /** Where a span opening at the start of `s` closes, if it does. */
  function SpanClose(s: string, k: Span): (r: Option<nat>)
    ensures r.Some? ==> |k.Delim()| < r.value && r.value + |k.Delim()| <= |s|
  {
    var d := k.Delim();
    if !(d <= s) then
      None
    else
      var j := |d| + IndexOfChar(s[|d|..], d[0]);
      if |d| < j && j + |d| <= |s| && d <= s[j..] then Some(j) else None
  }

  /** `SpanClose` finds exactly the matches of the pattern: there is at most
      one, and it closes at the first delimiter character after the opening. */
  lemma SpanCloseMatches(s: string, k: Span)
    ensures forall j :: SpanMatch(s, k, j) <==> SpanClose(s, k) == Some(j)
  {
    var d := k.Delim();
    if d <= s {
      var j0 := |d| + IndexOfChar(s[|d|..], d[0]);
      IndexOfCharFirst(s[|d|..], d[0]);
      assert forall i :: |d| <= i < j0 ==> s[i] == s[|d|..][i - |d|];
      forall j | SpanMatch(s, k, j)
        ensures j == j0
      {
        assert s[j] == d[0];
      }
    }
  }

  /** What one step of the replacement writes at the start of `s`, and how
      much of `s` it consumes: a whole span when one matches, otherwise the
      first character. */
  function SpanHead(s: string, k: Span): (r: (string, nat))
    requires |s| > 0
    ensures 1 <= r.1 <= |s|
  {
    SpanHeadAt(s, k, SpanClose(s, k))
  }

  /** `SpanHead` once the closing position `c` is known. */
  function SpanHeadAt(s: string, k: Span, c: Option<nat>): (r: (string, nat))
    requires |s| > 0 && (c.Some? ==> |k.Delim()| < c.value && c.value + |k.Delim()| <= |s|)
    ensures 1 <= r.1 <= |s|
  {
    match c
    case Some(j) => (k.Tagged(s[|k.Delim()|..j]), j + |k.Delim()|)
    case None => ([s[0]], 1)
  }

  /** One global replacement of a span pattern, scanning from the left. */
  function SpanPass(s: string, k: Span): string
    decreases |s|
  {
    if |s| == 0 then ""
    else
      var h := SpanHead(s, k);
      h.0 + SpanPass(s[h.1..], k)
  }

  /** A character that cannot open a span is copied. */
  lemma SpanPassStep(s: string, k: Span)
    requires |s| > 0 && s[0] != k.Delim()[0]
    ensures SpanPass(s, k) == [s[0]] + SpanPass(s[1..], k)
  {
    assert !(k.Delim() <= s);
  }

  /** Text without the delimiter's first character is copied as it is. */
  lemma {:induction false} SpanPassCopies(s: string, k: Span, n: nat)
    requires n <= |s|
    requires forall i :: 0 <= i < n ==> s[i] != k.Delim()[0]
    ensures SpanPass(s, k) == s[..n] + SpanPass(s[n..], k)
    decreases n
  {
    if n > 0 {
      SpanPassStep(s, k);
      SpanPassCopies(s[1..], k, n - 1);
      assert s[1..][n - 1..] == s[n..];
      PrefixCons(s, n, SpanPass(s, k), SpanPass(s[1..], k), SpanPass(s[n..], k));
    }
  }

  // ---------------------------------------------------------------------
  // Links

  /** The pattern `\[([^\]]+)\]\(([^)]+)\)` matches at the start of `s`, with
      `]` at index `j` and `)` at index `m`. */
  ghost predicate LinkMatch(s: string, j: int, m: int)
  {
    && |s| > 0 && s[0] == '['
    && 1 < j && j + 2 < m < |s|
    && s[j] == ']' && s[j + 1] == '(' && s[m] == ')'
    && (forall i :: 1 <= i < j ==> s[i] != ']')
    && (forall i :: j + 2 <= i < m ==> s[i] != ')')
  }

  /** Where the text and the url of a link opening at the start of `s` end. */
  function LinkClose(s: string): (r: Option<(nat, nat)>)
    ensures r.Some? ==> 1 < r.value.0 && r.value.0 + 2 < r.value.1 < |s|
  {
    if |s| == 0 || s[0] != '[' then
      None
    else
      var j := 1 + IndexOfChar(s[1..], ']');
      if 1 < j && j + 1 < |s| && s[j + 1] == '(' then
        var m := j + 2 + IndexOfChar(s[j + 2..], ')');
        if j + 2 < m < |s| then Some((j, m)) else None
      else
        None
  }

  /** `LinkClose` finds exactly the matches of the pattern: the text ends at
      the first `]`, and the url at the first `)` after it. */
  lemma LinkCloseMatches(s: string)
    ensures forall j, m :: LinkMatch(s, j, m) <==> LinkClose(s) == Some((j, m))
  {
    if |s| > 0 && s[0] == '[' {
      var j0 := 1 + IndexOfChar(s[1..], ']');
      IndexOfCharFirst(s[1..], ']');
      assert forall i :: 1 <= i < j0 ==> s[i] == s[1..][i - 1];
      forall j, m | LinkMatch(s, j, m)
        ensures j == j0 && m == j0 + 2 + IndexOfChar(s[j0 + 2..], ')')
      {
        assert s[j] == ']';
        var m0 := j0 + 2 + IndexOfChar(s[j0 + 2..], ')');
        IndexOfCharFirst(s[j0 + 2..], ')');
        assert forall i :: j0 + 2 <= i < m0 ==> s[i] == s[j0 + 2..][i - j0 - 2];
        assert s[m] == ')';
      }
      if 1 < j0 && j0 + 1 < |s| && s[j0 + 1] == '(' {
        var m0 := j0 + 2 + IndexOfChar(s[j0 + 2..], ')');
        IndexOfCharFirst(s[j0 + 2..], ')');
        assert forall i :: j0 + 2 <= i < m0 ==> s[i] == s[j0 + 2..][i - j0 - 2];
      }
    }
  }

  /** What one link becomes: the url goes into `href` exactly as written. */
  function Anchor(text: string, url: string): string
  {
    "<a href=\"" + url + "\" rel=\"noopener noreferrer\">" + text + "</a>"
  }

  /** What one step of the link replacement writes and consumes. */
  function LinkHead(s: string): (r: (string, nat))
    requires |s| > 0
    ensures 1 <= r.1 <= |s|
  {
    match LinkClose(s)
    case Some((j, m)) => (Anchor(s[1..j], s[j + 2..m]), m + 1)
    case None => ([s[0]], 1)
  }

  /** The global link replacement, scanning from the left. */
  function LinkPass(s: string): string
    decreases |s|
  {
    if |s| == 0 then ""
    else
      var h := LinkHead(s);
      h.0 + LinkPass(s[h.1..])
  }

  lemma LinkPassStep(s: string)
    requires |s| > 0 && s[0] != '['
    ensures LinkPass(s) == [s[0]] + LinkPass(s[1..])
  {
  }

  lemma {:induction false} LinkPassCopies(s: string, n: nat)
    requires n <= |s|
    requires forall i :: 0 <= i < n ==> s[i] != '['
    ensures LinkPass(s) == s[..n] + LinkPass(s[n..])
    decreases n
  {
    if n > 0 {
      LinkPassStep(s);
      LinkPassCopies(s[1..], n - 1);
      assert s[1..][n - 1..] == s[n..];
      PrefixCons(s, n, LinkPass(s), LinkPass(s[1..]), LinkPass(s[n..]));
    }
  }

  // ---------------------------------------------------------------------
  // inlineFmt

  /** `inlineFmt(text)`. */
  function InlineFmt(text: string): string
  {
    var escaped := EscapeText(text);
    var code := SpanPass(escaped, Code);
    var links := LinkPass(code);
    var bold := SpanPass(links, Strong);
    SpanPass(bold, Em)
  }

  /** The code pass runs on the escaped text, so every code span it replaces
      has a slice of that text as its body, and writes the body unchanged: the
      re-escape of scripts.js:262 never has an effect. */
  lemma EscapedCodeBody(text: string, a: nat, b: nat)
    requires a <= b <= |EscapeText(text)|
    ensures Code.Tagged(EscapeText(text)[a..b]) == "<code>" + EscapeText(text)[a..b] + "</code>"
  {
    var s := EscapeText(text);
    EscapeTextSafe(text);
    var m := s[a..b];
    assert forall i :: 0 <= i < |m| ==> m[i] == s[a + i];
    EscapeAnglesNoop(m);
    CodeTags();
  }

  lemma CodeTags()
    ensures Code.Open() == "<code>" && Code.Close() == "</code>"
  {
    assert "<" + "code" + ">" == "<code>";
    assert "</" + "code" + ">" == "</code>";
  }

  // ---------------------------------------------------------------------
  // Every `<` of the output begins a tag the converter wrote

  lemma SpanTagsAlone(k: Span, words: set<string>)
    requires k.Open() in words && k.Close() in words
    ensures OnlyOpens(k.Open(), '<', words) && OnlyOpens(k.Close(), '<', words)
  {
    TagAlone(k.Open(), words);
    TagAlone(k.Close(), words);
  }

  /** A span pass keeps every `<` at the start of a known tag, provided the
      tags it writes are known and no known tag contains its delimiter. */
  lemma {:induction false} SpanPassSafe(s: string, k: Span, words: set<string>)
    requires OnlyOpens(s, '<', words)
    requires k.Open() in words && k.Close() in words && Avoids(words, k.Delim()[0])
    ensures OnlyOpens(SpanPass(s, k), '<', words)
    decreases |s|
  {
    if |s| > 0 {
      match SpanClose(s, k)
      case Some(j) =>
        var rest := s[j + |k.Delim()|..];
        OnlyOpensSuffix(s, j + |k.Delim()|, '<', words);
        SpanPassSafe(rest, k, words);
        SpanStepSafe(s, k, j, words);
      case None =>
        OnlyOpensSuffix(s, 1, '<', words);
        SpanPassSafe(s[1..], k, words);
        SpanCopySafe(s, k, words);
    }
  }

  /** A matched span: its tags, its body and what follows keep the property. */
  lemma {:induction false} SpanStepSafe(s: string, k: Span, j: nat, words: set<string>)
    requires |s| > 0 && SpanClose(s, k) == Some(j)
    requires OnlyOpens(s, '<', words) && OnlyOpens(SpanPass(s[j + |k.Delim()|..], k), '<', words)
    requires k.Open() in words && k.Close() in words && Avoids(words, k.Delim()[0])
    ensures OnlyOpens(SpanPass(s, k), '<', words)
  {
    var out := k.Tagged(s[|k.Delim()|..j]);
    TaggedSafe(s, k, j, words);
    OnlyOpensAppend(out, SpanPass(s[j + |k.Delim()|..], k), '<', words);
    SpanPassMatched(s, k, j);
  }

  /** The replacement of a matched span keeps the property: its tags are
      known and its body is a slice of `s` that ends before a delimiter. */
  lemma {:induction false} TaggedSafe(s: string, k: Span, j: nat, words: set<string>)
    requires SpanClose(s, k) == Some(j)
    requires OnlyOpens(s, '<', words)
    requires k.Open() in words && k.Close() in words && Avoids(words, k.Delim()[0])
    ensures OnlyOpens(k.Tagged(s[|k.Delim()|..j]), '<', words)
  {
    var d := k.Delim();
    var body := k.Body(s[|d|..j]);
    assert OnlyOpens(body, '<', words) by {
      if !k.Code? {
        SpanCloseAt(s, k, j);
        OnlyOpensSlice(s, |d|, j, '<', words);
      }
    }
    SpanTagsAlone(k, words);
    OnlyOpensAppend3(k.Open(), body, k.Close(), '<', words);
  }

  lemma SpanCloseAt(s: string, k: Span, j: nat)
    requires SpanClose(s, k) == Some(j)
    ensures s[j] == k.Delim()[0]
  {
    assert s[j..][0] == s[j];
  }

  lemma {:induction false} SpanPassMatched(s: string, k: Span, j: nat)
    requires |s| > 0 && SpanClose(s, k) == Some(j)
    ensures SpanPass(s, k) == k.Tagged(s[|k.Delim()|..j]) + SpanPass(s[j + |k.Delim()|..], k)
  {
    SpanHeadMatched(s, k, j);
    SpanPassHead(s, k, k.Tagged(s[|k.Delim()|..j]), j + |k.Delim()|);
  }

  /** One step of the pass: what the head writes, then the pass over the rest. */
  lemma {:induction false} SpanPassHead(s: string, k: Span, out: string, n: nat)
    requires |s| > 0 && SpanHead(s, k) == (out, n)
    ensures SpanPass(s, k) == out + SpanPass(s[n..], k)
  {
  }

  /** A matched span is written with its tags and consumed up to its closing
      delimiter. */
  lemma {:induction false} SpanHeadMatched(s: string, k: Span, j: nat)
    requires |s| > 0 && SpanClose(s, k) == Some(j)
    ensures SpanHead(s, k) == (k.Tagged(s[|k.Delim()|..j]), j + |k.Delim()|)
  {
  }

  /** An unmatched first character is copied; a `<` brings its tag along. */
  lemma {:induction false} SpanCopySafe(s: string, k: Span, words: set<string>)
    requires |s| > 0 && SpanClose(s, k).None?
    requires OnlyOpens(s, '<', words) && OnlyOpens(SpanPass(s[1..], k), '<', words)
    requires Avoids(words, k.Delim()[0])
    ensures OnlyOpens(SpanPass(s, k), '<', words)
  {
    var out := SpanPass(s, k);
    assert out == [s[0]] + SpanPass(s[1..], k);
    if s[0] == '<' {
      var w :| w in words && w <= s;
      SpanPassCopies(s, k, |w|);
      assert w <= out;
    }
    assert out[1..] == SpanPass(s[1..], k);
    OnlyOpensCons(out, '<', words);
  }

  lemma {:induction false} LinkPassSafe(s: string, words: set<string>)
    requires OnlyOpens(s, '<', words)
    requires "<a href=\"" in words && "</a>" in words
    requires Avoids(words, '[') && Avoids(words, ']') && Avoids(words, ')')
    ensures OnlyOpens(LinkPass(s), '<', words)
    decreases |s|
  {
    if |s| > 0 {
      match LinkClose(s)
      case Some((j, m)) =>
        OnlyOpensSuffix(s, m + 1, '<', words);
        LinkPassSafe(s[m + 1..], words);
        LinkStepSafe(s, j, m, words);
      case None =>
        OnlyOpensSuffix(s, 1, '<', words);
        LinkPassSafe(s[1..], words);
        LinkPassCopySafe(s, words);
    }
  }

  /** A matched link and what follows keep the property. */
  lemma {:induction false} LinkStepSafe(s: string, j: nat, m: nat, words: set<string>)
    requires |s| > 0 && LinkClose(s) == Some((j, m))
    requires OnlyOpens(s, '<', words) && OnlyOpens(LinkPass(s[m + 1..]), '<', words)
    requires "<a href=\"" in words && "</a>" in words
    requires Avoids(words, ']') && Avoids(words, ')')
    ensures OnlyOpens(LinkPass(s), '<', words)
  {
    LinkCloseAt(s, j, m);
    AnchorSafe(s, j, m, words);
    OnlyOpensAppend(Anchor(s[1..j], s[j + 2..m]), LinkPass(s[m + 1..]), '<', words);
    LinkPassMatched(s, j, m);
  }

  lemma LinkCloseAt(s: string, j: nat, m: nat)
    requires LinkClose(s) == Some((j, m))
    ensures s[j] == ']' && s[m] == ')'
  {
    assert s[1..][j - 1] == s[j];
    assert s[j + 2..][m - j - 2] == s[m];
  }

  lemma {:induction false} LinkPassMatched(s: string, j: nat, m: nat)
    requires |s| > 0 && LinkClose(s) == Some((j, m))
    ensures LinkPass(s) == Anchor(s[1..j], s[j + 2..m]) + LinkPass(s[m + 1..])
  {
    LinkHeadMatched(s, j, m);
  }

  /** A matched link is written as an anchor and consumed up to its `)`. */
  lemma {:induction false} LinkHeadMatched(s: string, j: nat, m: nat)
    requires |s| > 0 && LinkClose(s) == Some((j, m))
    ensures LinkHead(s) == (Anchor(s[1..j], s[j + 2..m]), m + 1)
  {
  }

  /** A link is written with its url exactly as it stands, quotes included:
      a `"` in the url closes the `href` value early and what follows it in
      the url becomes further attributes of the `<a>` tag. */
  lemma LinkUrlVerbatim(text: string, url: string, rest: string)
    requires |text| > 0 && ']' !in text && |url| > 0 && ')' !in url
    ensures LinkPass("[" + text + "](" + url + ")" + rest)
      == "<a href=\"" + url + "\" rel=\"noopener noreferrer\">" + text + "</a>" + LinkPass(rest)
  {
    LinkOfParts(text, url, rest);
  }

  lemma LinkOfParts(text: string, url: string, rest: string)
    requires |text| > 0 && ']' !in text && |url| > 0 && ')' !in url
    ensures LinkPass("[" + text + "](" + url + ")" + rest) == Anchor(text, url) + LinkPass(rest)
  {
    var s := "[" + text + "](" + url + ")" + rest;
    var j, m := 1 + |text|, 3 + |text| + |url|;
    LinkCloseOf(text, url, rest);
    LinkPassMatched(s, j, m);
    LinkSlices(text, url, rest);
  }

  lemma LinkSlices(text: string, url: string, rest: string)
    ensures var s := "[" + text + "](" + url + ")" + rest;
      var j, m := 1 + |text|, 3 + |text| + |url|;
      s[1..j] == text && s[j + 2..m] == url && s[m + 1..] == rest
  {
  }

  lemma LinkCloseOf(text: string, url: string, rest: string)
    requires |text| > 0 && ']' !in text && |url| > 0 && ')' !in url
    ensures LinkClose("[" + text + "](" + url + ")" + rest) == Some((1 + |text|, 3 + |text| + |url|))
  {
    var s := "[" + text + "](" + url + ")" + rest;
    var j := 1 + |text|;
    assert s[1..] == text + "]" + ("(" + url + ")" + rest);
    IndexOfCharAt(text, ']', "(" + url + ")" + rest);
    assert s[j + 1] == '(';
    assert s[j + 2..] == url + ")" + rest;
    IndexOfCharAt(url, ')', rest);
  }

  /** A link's text and url come out of a string whose tags are intact,
      and each ends just before a character no tag contains. */
  lemma AnchorSafe(s: string, j: nat, m: nat, words: set<string>)
    requires OnlyOpens(s, '<', words)
    requires 1 < j && j + 2 < m < |s| && s[j] == ']' && s[m] == ')'
    requires "<a href=\"" in words && "</a>" in words
    requires Avoids(words, ']') && Avoids(words, ')')
    ensures OnlyOpens(Anchor(s[1..j], s[j + 2..m]), '<', words)
  {
    OnlyOpensSlice(s, 1, j, '<', words);
    OnlyOpensSlice(s, j + 2, m, '<', words);
    TagAlone("<a href=\"", words);
    TagAlone("</a>", words);
    var mid := "\" rel=\"noopener noreferrer\">";
    OnlyOpensAbsent(mid, '<', words);
    OnlyOpensAppend3("<a href=\"", s[j + 2..m], mid, '<', words);
    OnlyOpensAppend3("<a href=\"" + s[j + 2..m] + mid, s[1..j], "</a>", '<', words);
  }

  /** When no link opens at the first character, that character is copied; if
      it is a `<`, the whole tag it opens is copied after it. */
  lemma {:induction false} LinkPassCopySafe(s: string, words: set<string>)
    requires |s| > 0 && LinkClose(s).None?
    requires OnlyOpens(s, '<', words) && OnlyOpens(LinkPass(s[1..]), '<', words)
    requires Avoids(words, '[')
    ensures OnlyOpens(LinkPass(s), '<', words)
  {
    var out := LinkPass(s);
    if s[0] == '<' {
      var w :| w in words && w <= s;
      LinkPassCopies(s, |w|);
      assert w <= out;
    }
    assert out[1..] == LinkPass(s[1..]);
    OnlyOpensCons(out, '<', words);
  }

  /** The facts about the tag set that the passes rely on. */
  lemma InlineTagsFacts()
    ensures Code.Open() in InlineTags && Code.Close() in InlineTags
    ensures Strong.Open() in InlineTags && Strong.Close() in InlineTags
    ensures Em.Open() in InlineTags && Em.Close() in InlineTags
    ensures Avoids(InlineTags, '`') && Avoids(InlineTags, '*')
    ensures Avoids(InlineTags, '[') && Avoids(InlineTags, ']') && Avoids(InlineTags, ')')
  {
    assert Code.Open() == "<code>" && Code.Close() == "</code>";
    assert Strong.Open() == "<strong>" && Strong.Close() == "</strong>";
    assert Em.Open() == "<em>" && Em.Close() == "</em>";
    InlineTagsAvoid('`');
    InlineTagsAvoid('*');
    InlineTagsAvoid('[');
    InlineTagsAvoid(']');
    InlineTagsAvoid(')');
  }

  /** No tag contains a character that opens or closes a pattern. */
  lemma InlineTagsAvoid(c: char)
    requires c in "`*[])"
    ensures Avoids(InlineTags, c)
  {
    forall w | w in InlineTags
      ensures c !in w
    {
    }
  }

  /** Every `<` in `inlineFmt`'s output begins one of the tags it writes: the
      text itself can no longer open a tag (though a link's url can add
      attributes to its `<a>` tag, see `LinkUrlVerbatim`). */
  lemma InlineFmtSafe(text: string)
    ensures OnlyOpens(InlineFmt(text), '<', InlineTags)
  {
    InlineTagsFacts();
    var escaped := EscapeText(text);
    EscapeTextSafe(text);
    OnlyOpensAbsent(escaped, '<', InlineTags);
    SpanPassSafe(escaped, Code, InlineTags);
    var code := SpanPass(escaped, Code);
    LinkPassSafe(code, InlineTags);
    var links := LinkPass(code);
    SpanPassSafe(links, Strong, InlineTags);
    SpanPassSafe(SpanPass(links, Strong), Em, InlineTags);
  }

  /** A pass over text that holds none of its opening characters copies it. */
  lemma SpanPassPlain(s: string, k: Span)
    requires forall i :: 0 <= i < |s| ==> s[i] != k.Delim()[0]
    ensures SpanPass(s, k) == s
  {
    SpanPassCopies(s, k, |s|);
    assert s[..|s|] == s && s[|s|..] == "";
  }

  lemma LinkPassPlain(s: string)
    requires forall i :: 0 <= i < |s| ==> s[i] != '['
    ensures LinkPass(s) == s
  {
    LinkPassCopies(s, |s|);
    assert s[..|s|] == s && s[|s|..] == "";
  }

  /** Text with none of `& < > ` * [` is returned exactly as it is. */
  lemma InlineFmtPlain(text: string)
    requires forall i :: 0 <= i < |text| ==> text[i] !in "&<>`*["
    ensures InlineFmt(text) == text
  {
    EscapeTextPerChar(text);
    FlatMapIdentity(text, TextEntity);
    assert EscapeText(text) == text;
    SpanPassPlain(text, Code);
    LinkPassPlain(text);
    SpanPassPlain(text, Strong);
    SpanPassPlain(text, Em);
  }
}
