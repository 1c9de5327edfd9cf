/** HTML escaping: `escapeHtml` (scripts.js:169-171), the five-character
    entity mapping used wherever entry fields are written into markup, and
    the three chained `replace` calls that open `inlineFmt`
    (scripts.js:259), which escape only `&`, `<` and `>`. */
module Escape {
  import opened Base
  import opened Text
  import opened Markup

  /** The entity `escapeHtml` writes for a character, or the character itself. */
  function Entity(c: char): string
  {
    match c
    case '&' => "&amp;"
    case '<' => "&lt;"
    case '>' => "&gt;"
    case '"' => "&quot;"
    case '\'' => "&#39;"
    case _ => [c]
  }

  /** The five entities `escapeHtml` can produce. */
  const Entities: set<string> := {"&amp;", "&lt;", "&gt;", "&quot;", "&#39;"}

  /** `escapeHtml(str)`: `(str || '')` followed by one global replacement
      of each of `& < > " '` by its entity. */
  function EscapeHtml(str: Option<string>): (r: string)
    ensures '<' !in r && '>' !in r && '"' !in r && '\'' !in r
    ensures OnlyOpens(r, '&', Entities)
    ensures str.None? || str == Some("") ==> r == ""
  {
    var s := str.GetOr("");
    EscapeSafe(s);
    FlatMap(s, Entity)
  }

  lemma {:induction false} EscapeSafe(s: string)
    ensures var r := FlatMap(s, Entity);
      '<' !in r && '>' !in r && '"' !in r && '\'' !in r && OnlyOpens(r, '&', Entities)
    decreases |s|
  {
    if |s| > 0 {
      EscapeSafe(s[1..]);
      EntitySafe(s[0]);
      OnlyOpensAppend(Entity(s[0]), FlatMap(s[1..], Entity), '&', Entities);
    }
  }

  lemma EntitySafe(c: char)
    ensures var e := Entity(c);
      '<' !in e && '>' !in e && '"' !in e && '\'' !in e && OnlyOpens(e, '&', Entities)
  {
    var e := Entity(c);
    if c in "&<>\"'" {
      assert e in Entities && e <= e;
      assert forall i :: 0 < i < |e| ==> e[i] != '&';
    }
  }

  /** Text free of the five special characters is left exactly as it is. */
  lemma EscapePlain(s: string)
    requires forall i :: 0 <= i < |s| ==> s[i] !in "&<>\"'"
    ensures EscapeHtml(Some(s)) == s
  {
    FlatMapIdentity(s, Entity);
  }

  /** An HTML decoder for exactly the five entities; anything else is kept. */
  function Unescape(s: string): string
    decreases |s|
  {
    if |s| == 0 then ""
    else if "&amp;" <= s then "&" + Unescape(s[5..])
    else if "&lt;" <= s then "<" + Unescape(s[4..])
    else if "&gt;" <= s then ">" + Unescape(s[4..])
    else if "&quot;" <= s then "\"" + Unescape(s[6..])
    else if "&#39;" <= s then "'" + Unescape(s[5..])
    else [s[0]] + Unescape(s[1..])
  }

  /** Escaping loses nothing: decoding the entities gives back the input,
      so distinct strings stay distinct once escaped. */
  lemma {:induction false} UnescapeEscape(s: string)
    ensures Unescape(EscapeHtml(Some(s))) == s
    decreases |s|
  {
    if |s| > 0 {
      var rest := FlatMap(s[1..], Entity);
      UnescapeEscape(s[1..]);
      UnescapeEntity(s[0], rest);
      assert s == [s[0]] + s[1..];
    }
  }

  /** Decoding reads an entity back as its character and then goes on after it. */
  lemma UnescapeEntity(c: char, rest: string)
    ensures Unescape(Entity(c) + rest) == [c] + Unescape(rest)
  {
    var s := Entity(c) + rest;
    match c
    case '&' => assert s[..5] == "&amp;" && s[5..] == rest;
    case '<' => assert s[1] == 'l' && s[..4] == "&lt;" && s[4..] == rest;
    case '>' => assert s[1] == 'g' && s[..4] == "&gt;" && s[4..] == rest;
    case '"' => assert s[1] == 'q' && s[..6] == "&quot;" && s[6..] == rest;
    case '\'' => assert s[1] == '#' && s[..5] == "&#39;" && s[5..] == rest;
    case _ => UnescapeOther(c, rest);
  }

  lemma UnescapeOther(c: char, rest: string)
    requires c != '&'
    ensures Unescape([c] + rest) == [c] + Unescape(rest)
  {
    var s := [c] + rest;
    assert s[0] == c && s[1..] == rest;
  }

  // ---------------------------------------------------------------------
  // The escape at the start of inlineFmt

  /** The per-character reading of `inlineFmt`'s escape: only `&`, `<`, `>`. */
  function TextEntity(c: char): string
  {
    if c == '&' then "&amp;" else if c == '<' then "&lt;" else if c == '>' then "&gt;" else [c]
  }

  /** `text.replace(/&/g,'&amp;').replace(/</g,'&lt;').replace(/>/g,'&gt;')`,
      written as the three passes the script makes. */
  function EscapeText(text: string): string
  {
    ReplaceAll(ReplaceAll(ReplaceAll(text, '&', "&amp;"), '<', "&lt;"), '>', "&gt;")
  }

  /** The three passes, `&` first, act as one per-character mapping: no entity
      written by a later pass is escaped again. */
  lemma {:induction false} EscapeTextPerChar(text: string)
    ensures EscapeText(text) == FlatMap(text, TextEntity)
    decreases |text|
  {
    var amp, lt, gt := Replacer('&', "&amp;"), Replacer('<', "&lt;"), Replacer('>', "&gt;");
    if |text| > 0 {
      EscapeTextPerChar(text[1..]);
      var c := text[0];
      var s1 := FlatMap(text[1..], amp);
      var s2 := FlatMap(s1, lt);
      assert FlatMap(text, amp) == amp(c) + s1;
      FlatMapAppend(amp(c), s1, lt);
      FlatMapAppend(FlatMap(amp(c), lt), s2, gt);
      ThreePasses(c);
    }
  }

  /** One character through the three passes. */
  lemma ThreePasses(c: char)
    ensures FlatMap(FlatMap(Replacer('&', "&amp;")(c), Replacer('<', "&lt;")), Replacer('>', "&gt;"))
      == TextEntity(c)
  {
    var lt, gt := Replacer('<', "&lt;"), Replacer('>', "&gt;");
    if c == '&' {
      FlatMapIdentity("&amp;", lt);
      FlatMapIdentity("&amp;", gt);
    } else if c == '<' {
      FlatMapSingle('<', lt);
      FlatMapIdentity("&lt;", gt);
    } else if c == '>' {
      FlatMapSingle('>', lt);
      FlatMapSingle('>', gt);
    } else {
      FlatMapSingle(c, lt);
      FlatMapSingle(c, gt);
    }
  }

  /** After the escape no `<` or `>` is left, and every `&` begins an entity. */
  lemma EscapeTextSafe(text: string)
    ensures '<' !in EscapeText(text) && '>' !in EscapeText(text)
    ensures OnlyOpens(EscapeText(text), '&', {"&amp;", "&lt;", "&gt;"})
  {
    EscapeTextPerChar(text);
    TextEntitySafe(text);
  }

  lemma {:induction false} TextEntitySafe(s: string)
    ensures var r := FlatMap(s, TextEntity);
      '<' !in r && '>' !in r && OnlyOpens(r, '&', {"&amp;", "&lt;", "&gt;"})
    decreases |s|
  {
    if |s| > 0 {
      TextEntitySafe(s[1..]);
      TextEntityOne(s[0]);
      OnlyOpensAppend(TextEntity(s[0]), FlatMap(s[1..], TextEntity), '&', {"&amp;", "&lt;", "&gt;"});
    }
  }

  lemma TextEntityOne(c: char)
    ensures var e := TextEntity(c);
      '<' !in e && '>' !in e && OnlyOpens(e, '&', {"&amp;", "&lt;", "&gt;"})
  {
    var e := TextEntity(c);
    if c in "&<>" {
      assert e <= e;
    }
  }
}
