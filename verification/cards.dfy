/** The card `renderList` writes for each listed entry (scripts.js:115-121):
    the name, the optional moniker, the summary and the tags, each escaped,
    and the link that opens the entry. The template literal spans four
    source lines; its line breaks are single line feeds, each followed by
    the twenty spaces of indentation the source carries. */
module Cards {
  import opened Base
  import opened Text
  import opened Markup
  import opened Escape
  import opened Uri
  import opened Catalog
  import opened Routing

  /** The tags the card template writes; every `<` of a card begins one. */
  const CardMarkup: set<string> := {
    "<h3>", "</h3>", "<small>", "</small>", "<p>", "</p>",
    "<div style=\"margin-top:10px\">", "</div>",
    "<span class=\"tag\">", "</span>", "<a href=\"", "</a>" }

  /** A line break of the template and the indentation after it. */
  const Indent: string := "\n                    "

  /** `${e.moniker ? `<small>— ${escapeHtml(e.moniker)}</small>` : ''}`:
      a missing or empty moniker writes nothing. */
  function MonikerHtml(moniker: Option<string>): string
  {
    match moniker
    case Some(m) => if m != "" then "<small>— " + EscapeHtml(Some(m)) + "</small>" else ""
    case None => ""
  }

  function HeadingHtml(e: Entry): string
  {
    "<h3>" + EscapeHtml(Some(e.name)) + " " + MonikerHtml(e.moniker) + "</h3>"
  }

  /** `<p>${escapeHtml(e.summary || '')}</p>`. */
  function SummaryHtml(e: Entry): string
  {
    "<p>" + EscapeHtml(e.summary) + "</p>"
  }

  /** One tag: `<span class="tag">${escapeHtml(t)}</span>`. */
  function TagSpan(t: string): string
  {
    "<span class=\"tag\">" + EscapeHtml(Some(t)) + "</span>"
  }

  /** `tags.map(t => ...)`. */
  function TagSpans(tags: seq<string>): (r: seq<string>)
    ensures |r| == |tags|
  {
    if |tags| == 0 then [] else [TagSpan(tags[0])] + TagSpans(tags[1..])
  }

  /** The tag row: the spans of `(e.tags||[])` joined with single spaces. */
  function TagsHtml(e: Entry): string
  {
    "<div style=\"margin-top:10px\">" + Join(TagSpans(e.tags.GetOr([])), " ") + "</div>"
  }

  /** The row with the link to the entry's own page. */
  function LinkHtml(e: Entry): string
  {
    "<div style=\"margin-top:10px\">" + "<a href=\"" + EntryLink(e.id) + "\">Read" + "</a>" + "</div>"
  }

  /** The `innerHTML` of the card of `e`. */
  function CardHtml(e: Entry): string
  {
    HeadingHtml(e) + Indent + SummaryHtml(e) + Indent + TagsHtml(e) + Indent + LinkHtml(e)
  }

  // ---------------------------------------------------------------------
  // Nothing in an entry can add markup to its card

  /** The link holds neither a quote nor a `<`: it cannot end the `href`
      attribute early or open a tag, whatever the id is. */
  lemma EntryLinkPlain(id: string)
    ensures '"' !in EntryLink(id) && '<' !in EntryLink(id)
  {
    var e := Encode(id);
    EncodeAlphabet(id);
    assert '"' !in e && '<' !in e by {
      forall i | 0 <= i < |e|
        ensures e[i] != '"' && e[i] != '<'
      {
        assert Unreserved(e[i]) || e[i] == '%';
      }
    }
    assert '"' !in EntryPrefix && '<' !in EntryPrefix;
  }

  /** Escaped text holds no `<`. */
  lemma EscapedSafe(s: Option<string>)
    ensures OnlyOpens(EscapeHtml(s), '<', CardMarkup)
  {
    OnlyOpensAbsent(EscapeHtml(s), '<', CardMarkup);
  }

  lemma MonikerSafe(moniker: Option<string>)
    ensures OnlyOpens(MonikerHtml(moniker), '<', CardMarkup)
  {
    match moniker
    case None =>
    case Some(m) =>
      if m != "" {
        TagAlone("<small>", CardMarkup);
        TagAlone("</small>", CardMarkup);
        EscapedSafe(Some(m));
        OnlyOpensAbsent(" ", '<', CardMarkup);
        assert "<small>— " == "<small>" + "— ";
        OnlyOpensAbsent("— ", '<', CardMarkup);
        OnlyOpensAppend("<small>", "— ", '<', CardMarkup);
        OnlyOpensAppend3("<small>— ", EscapeHtml(Some(m)), "</small>", '<', CardMarkup);
      }
  }

  lemma HeadingSafe(e: Entry)
    ensures OnlyOpens(HeadingHtml(e), '<', CardMarkup)
  {
    TagAlone("<h3>", CardMarkup);
    TagAlone("</h3>", CardMarkup);
    EscapedSafe(Some(e.name));
    MonikerSafe(e.moniker);
    OnlyOpensAbsent(" ", '<', CardMarkup);
    OnlyOpensAppend3("<h3>", EscapeHtml(Some(e.name)), " ", '<', CardMarkup);
    OnlyOpensAppend3("<h3>" + EscapeHtml(Some(e.name)) + " ", MonikerHtml(e.moniker), "</h3>", '<', CardMarkup);
  }

  lemma SummarySafe(e: Entry)
    ensures OnlyOpens(SummaryHtml(e), '<', CardMarkup)
  {
    TagAlone("<p>", CardMarkup);
    TagAlone("</p>", CardMarkup);
    EscapedSafe(e.summary);
    OnlyOpensAppend3("<p>", EscapeHtml(e.summary), "</p>", '<', CardMarkup);
  }

  lemma TagSpanSafe(t: string)
    ensures OnlyOpens(TagSpan(t), '<', CardMarkup)
  {
    TagAlone("<span class=\"tag\">", CardMarkup);
    TagAlone("</span>", CardMarkup);
    EscapedSafe(Some(t));
    OnlyOpensAppend3("<span class=\"tag\">", EscapeHtml(Some(t)), "</span>", '<', CardMarkup);
  }

  /** Joining safe pieces with a separator free of `c` keeps them safe. */
  lemma {:induction false} JoinSafe(xs: seq<string>, sep: string, c: char, words: set<string>)
    requires forall i :: 0 <= i < |xs| ==> OnlyOpens(xs[i], c, words)
    requires c !in sep
    ensures OnlyOpens(Join(xs, sep), c, words)
    decreases |xs|
  {
    if |xs| == 0 {
      OnlyOpensAbsent("", c, words);
    } else if |xs| > 1 {
      assert forall i :: 0 <= i < |xs| - 1 ==> xs[1..][i] == xs[i + 1];
      JoinSafe(xs[1..], sep, c, words);
      OnlyOpensAbsent(sep, c, words);
      OnlyOpensAppend3(xs[0], sep, Join(xs[1..], sep), c, words);
    }
  }

  lemma {:induction false} TagSpansSafe(tags: seq<string>)
    ensures forall i :: 0 <= i < |tags| ==> OnlyOpens(TagSpans(tags)[i], '<', CardMarkup)
    decreases |tags|
  {
    if |tags| > 0 {
      TagSpansSafe(tags[1..]);
      TagSpanSafe(tags[0]);
      assert forall i :: 1 <= i < |tags| ==> TagSpans(tags)[i] == TagSpans(tags[1..])[i - 1];
    }
  }

  lemma TagsSafe(e: Entry)
    ensures OnlyOpens(TagsHtml(e), '<', CardMarkup)
  {
    TagAlone("<div style=\"margin-top:10px\">", CardMarkup);
    TagAlone("</div>", CardMarkup);
    var spans := TagSpans(e.tags.GetOr([]));
    TagSpansSafe(e.tags.GetOr([]));
    JoinSafe(spans, " ", '<', CardMarkup);
    OnlyOpensAppend3("<div style=\"margin-top:10px\">", Join(spans, " "), "</div>", '<', CardMarkup);
  }

  lemma LinkSafe(e: Entry)
    ensures OnlyOpens(LinkHtml(e), '<', CardMarkup)
  {
    TagAlone("<div style=\"margin-top:10px\">", CardMarkup);
    TagAlone("<a href=\"", CardMarkup);
    TagAlone("</a>", CardMarkup);
    TagAlone("</div>", CardMarkup);
    EntryLinkPlain(e.id);
    var link := EntryLink(e.id);
    OnlyOpensAbsent(link, '<', CardMarkup);
    OnlyOpensAbsent("\">Read", '<', CardMarkup);
    OnlyOpensAppend3("<div style=\"margin-top:10px\">", "<a href=\"", link, '<', CardMarkup);
    var front := "<div style=\"margin-top:10px\">" + "<a href=\"" + link;
    OnlyOpensAppend3(front, "\">Read", "</a>", '<', CardMarkup);
    OnlyOpensAppend(front + "\">Read" + "</a>", "</div>", '<', CardMarkup);
  }

  /** Whatever an entry holds, every `<` of its card begins one of the
      template's own tags, and the `href` value is the entry link whole. */
  lemma CardHtmlSafe(e: Entry)
    ensures OnlyOpens(CardHtml(e), '<', CardMarkup)
    ensures '"' !in EntryLink(e.id)
  {
    HeadingSafe(e);
    SummarySafe(e);
    TagsSafe(e);
    LinkSafe(e);
    EntryLinkPlain(e.id);
    OnlyOpensAbsent(Indent, '<', CardMarkup);
    var a := HeadingHtml(e) + Indent + SummaryHtml(e);
    OnlyOpensAppend3(HeadingHtml(e), Indent, SummaryHtml(e), '<', CardMarkup);
    var b := a + Indent + TagsHtml(e);
    OnlyOpensAppend3(a, Indent, TagsHtml(e), '<', CardMarkup);
    OnlyOpensAppend3(b, Indent, LinkHtml(e), '<', CardMarkup);
  }
}
