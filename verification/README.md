# GenosMythos catalog page: a Dafny model of `scripts.js`

GenosMythos is a static site that shows a catalog of entries loaded from
`entries.json`. Its single script, `scripts.js`, lists the entries with a
search box and a category selector, routes on the page fragment (`#/`,
`#/about`, `#/entry/<id>`), shows one entry with an escaped metadata line,
and renders the About page with a small Markdown converter. This project
models the logic of that script as pure Dafny functions and proves what
the page relies on:

- escaping entry fields cannot inject markup and loses no information;
- the Markdown fallback writes only its own tags, nests its lists
  properly and keeps every line;
- the list shows exactly the matching entries, ordered by name and stable
  on ties;
- the category selector lists each category once, in sorted order;
- an entry card cannot gain markup from the entry, and its link routes
  back to its id: to that very entry when ids are distinct, otherwise to
  the first entry with that id.

Modules, one per file:

| file | module | what it holds |
|---|---|---|
| `base.dfy` | `Base` | `Option` (missing JSON fields) and `Result` (operations that throw) |
| `text.dfy` | `Text` | `replace` with a one-character pattern, `trim`, `toLowerCase`, `includes`, `split`/`join`, UTF-16 code-unit order |
| `markup.dfy` | `Markup` | `OnlyOpens`: every `<` (or `&`) begins a known tag (or entity); occurrence counting |
| `escape.dfy` | `Escape` | `escapeHtml` and the three-step escape that opens `inlineFmt` |
| `inline.dfy` | `Inline` | `inlineFmt`: code spans, links, bold, italic |
| `markdown.dfy` | `Markdown` | `simpleMarkdownToHtml`: line classification, the `inList` state machine, HTML spelling |
| `sorting.dfy` | `Sorting` | the stable sort of `Array.prototype.sort` over a total preorder |
| `catalog.dfy` | `Catalog` | entries, the filter and sort of `renderList`, the lookup of `renderEntry`, the metadata line, the category list |
| `uri.dfy` | `Uri` | `encodeURIComponent` / `decodeURIComponent` (ECMA-262, section 19.2.6) |
| `routing.dfy` | `Routing` | `handleRouting` and the view a fragment selects |
| `cards.dfy` | `Cards` | the HTML of one entry card in the list |

Modelling choices:

- `name` is a required field. The filter calls `e.name.toLowerCase()` when
  the query is not blank, and the sort calls `a.name.localeCompare(...)`,
  both with no fallback, so a missing name can throw. `Entry.name` is
  therefore a plain `string`.
- The list is the category filter, then the query filter, then a sort by
  name. The script has no favourites, no pagination, no tag filter and no
  HTML sanitizer, and the model has none of them either.
- An entry fragment with a malformed escape (`#/entry/100%`) makes
  `decodeURIComponent` throw. The exception leaves `handleRouting`
  uncaught. `RouteOf` returns `Err` for it instead of choosing a view.

## Model

| member | source | states |
|---|---|---|
| Escape.EscapeHtml | scripts.js:169-171 | the result holds no `<`, `>`, `"` or `'`, every `&` in it begins one of the five entities, and a missing or empty field gives the empty string |
| Escape.UnescapeEscape | scripts.js:169-171 | decoding the five entities gives back the original text, so two different fields never escape to the same markup |
| Escape.EscapePlain | scripts.js:169-171 | text with none of `& < > " '` is written unchanged |
| Escape.EscapeTextPerChar | scripts.js:259 | the three chained global replaces act like one per-character mapping of `&`, `<`, `>`: `&` goes first, so no entity is escaped twice |
| Escape.EscapeTextSafe | scripts.js:259 | after the opening escape of `inlineFmt` no `<` or `>` is left and every `&` begins `&amp;`, `&lt;` or `&gt;` |
| Text.ReplaceAll | scripts.js:214 | a global one-character replace removes the character when the replacement lacks it, and keeps exactly the other characters that occurred; `ReplaceAllAppend` and `ReplaceAllSingle` fix the result |
| Text.ReplaceAllAppend | scripts.js:214 | the replacement acts on each part of the text independently and keeps their order, and leaves empty text empty |
| Text.ReplaceAllSingle | scripts.js:259 | one character becomes the replacement when it is the pattern character and stays as it is otherwise |
| Text.Split | scripts.js:214 | `split('\n')` yields at least one piece, no piece holds the separator, and joining the pieces with it gives back the text |
| Text.SplitJoin | scripts.js:214 | splitting undoes joining when no piece holds the separator |
| Text.Trim | scripts.js:224 | `trim()` removes exactly the white space at both ends: the result is a slice of the input, only white space is cut, and the result neither starts nor ends with white space |
| Text.TrimIdempotent | scripts.js:92 | trimming twice is trimming once |
| Text.Lower | scripts.js:92 | lower-casing maps each character on its own, keeps the length, and leaves no upper-case ASCII letter |
| Text.LowerIdempotent | scripts.js:92 | lower-casing twice is lower-casing once |
| Text.IndexOf | scripts.js:99-102 | the search finds the first position at which the query occurs, or reports that it occurs nowhere |
| Text.ContainsIff | scripts.js:99-102 | `includes` holds exactly when the query occurs at some position |
| Text.ReplaceFirstPrefix | scripts.js:82 | replacing the prefix `#/entry/` in a fragment that starts with it leaves exactly the rest of the fragment |
| Text.CodeUnitLeTotalOrder | scripts.js:29 | the order of the default `sort()` (UTF-16 code units) is total, transitive and antisymmetric on strings |
| Inline.EscapeAnglesNoop | scripts.js:262 | re-escaping `<` and `>` inside a code span changes nothing on text that was already escaped |
| Inline.EscapedCodeBody | scripts.js:259-262 | every code span the code pass can replace has a slice of the escaped text as its body, and is written as `<code>`, that slice unchanged, `</code>`: the re-escape never has an effect |
| Inline.SpanCloseMatches | scripts.js:262-271 | at a given position the code, bold or italic pattern matches for exactly one closing position or none, and `SpanClose` finds it |
| Inline.LinkCloseMatches | scripts.js:265 | at a given position the link pattern matches for exactly one pair of `]` and `)` positions or none, and `LinkClose` finds it |
| Inline.SpanPassCopies | scripts.js:262-271 | a replacement pass copies text that holds no opening delimiter character unchanged |
| Inline.SpanPassSafe | scripts.js:262-271 | a code, bold or italic pass keeps every `<` at the start of a known tag |
| Inline.LinkPassSafe | scripts.js:265 | the link pass keeps every `<` at the start of a known tag |
| Inline.LinkUrlVerbatim | scripts.js:265 | a link is written with its url exactly as it stands, so a `"` in the url ends the `href` value and the rest of the url lands inside the `<a>` tag |
| Inline.InlineFmt | scripts.js:257-274 | the escape and the four passes in the source's order; what its output promises is stated by `InlineFmtSafe` and `InlineFmtPlain` |
| Inline.InlineFmtSafe | scripts.js:257-274 | every `<` in the output of `inlineFmt` begins one of the tags it writes itself, whatever the input text; the text cannot open a tag of its own |
| Inline.InlineFmtPlain | scripts.js:257-274 | text with none of ``& < > ` * [`` comes out of `inlineFmt` unchanged |
| Markdown.MatchHeadingSpec | scripts.js:233 | the heading test succeeds exactly when `^(#{1,6})\s+(.*)$` can match, and it captures the level and the text after all of the white space |
| Markdown.MatchItemSpec | scripts.js:242 | the list-item test succeeds exactly when `^[-*]\s+(.*)$` can match, and it captures the text after all of the white space |
| Markdown.Classify | scripts.js:224-251 | a heading's level is between 1 and 6; the full decision is stated by `ClassifySpec` |
| Markdown.ClassifySpec | scripts.js:224-251 | a trimmed line is blank when empty, otherwise a heading when the heading pattern matches, otherwise an item when the item pattern matches, otherwise a paragraph holding the whole line |
| Markdown.ConvertMarkdown | scripts.js:211-255 | the loop that appends to `out` and keeps the `inList` flag writes exactly the tokens of the state machine |
| Markdown.StepHtml | scripts.js:226-251 | one iteration of the loop body writes the flush and the block of its line, and sets `inList` as the state machine does |
| Markdown.RenderWellNested | scripts.js:217-253 | in the output, `<ul>` opens only when no list is open and is followed by an item, items occur only inside a list, and every list is closed |
| Markdown.WellNestedBalanced | scripts.js:219-221 | properly nested output closes every list it opens |
| Markdown.RenderOpensPerRun | scripts.js:241-247 | the converter opens one list per run of consecutive item lines |
| Markdown.RenderContent | scripts.js:223-252 | apart from the list tags, the output is each line's own heading, item or paragraph, in order: no line is lost, repeated or moved |
| Markdown.MarkdownToHtml | scripts.js:211-255 | the fallback converter; `ConvertMarkdown` shows its loop computes it, and `RenderContent`, `RenderWellNested`, `MarkdownLists` and `MarkdownSafe` state what it writes |
| Markdown.MarkdownSafe | scripts.js:211-255 | every `<` of the About page HTML begins a tag the converter or `inlineFmt` wrote: the Markdown cannot open a tag of its own |
| Markdown.EmitAllCount | scripts.js:220-245 | the spelled HTML holds as many `<ul>` and `</ul>` as the token sequence has list opens and closes |
| Markdown.MarkdownLists | scripts.js:217-253 | the HTML holds as many `</ul>` as `<ul>`, one per run of consecutive list items |
| Sorting.SortSorted | scripts.js:106 | the sorted list is ordered by the comparator |
| Sorting.SortStable | scripts.js:106 | elements that compare equal keep their input order |
| Sorting.SortIdempotent | scripts.js:106 | sorting a sorted list changes nothing |
| Catalog.Filter | scripts.js:96-103 | `filter` keeps each accepted element as many times as it occurs, drops every other one, and keeps the input order (the result is a subsequence of the input); together these fix the result |
| Catalog.FilterAll | scripts.js:96-103 | a filter that accepts every element returns the list unchanged |
| Catalog.FilterFilter | scripts.js:96-103 | two filters in a row are one filter on both conditions |
| Catalog.FilterTies | scripts.js:96-106 | filtering and picking the entries that tie with a given one commute |
| Catalog.Select | scripts.js:92-104 | the category filter when a category is chosen, then the query filter when the query is not blank; stated by `SelectFilter` and `SelectExact` |
| Catalog.SelectFilter | scripts.js:92-104 | the two filters of `renderList` are one filter that keeps exactly the entries meeting both conditions |
| Catalog.SelectExact | scripts.js:92-104 | an entry is shown, as often as it occurs in the catalog, exactly when it has the chosen category (if one is chosen) and the normalised query occurs in its name, moniker, summary or joined tags (if the query is not blank); the shown entries keep their catalog order |
| Catalog.SelectSound | scripts.js:92-104 | every shown entry comes from the catalog and meets both conditions |
| Catalog.SelectAll | scripts.js:96-97 | with no category and a blank query, every entry is kept, in order |
| Catalog.QueryInsensitive | scripts.js:92 | lower-casing or trimming the query first does not change the search |
| Catalog.TrimLower | scripts.js:92 | trimming and lower-casing commute |
| Catalog.RenderList | scripts.js:92-106 | the selection sorted by name; stated by `RenderListSpec` |
| Catalog.RenderListSpec | scripts.js:92-106 | the shown list holds the selected entries, ordered by `localeCompare` of names; the entries whose names tie with any entry are exactly the catalog's tying entries that pass both filters, in catalog order |
| Catalog.RenderListAll | scripts.js:91-106 | with no category and a blank query the page lists every entry |
| Catalog.FindIndex | scripts.js:127 | `find` returns the first entry with the id, and none only when no entry has it |
| Catalog.FindEntry | scripts.js:127 | `entries.find(x => x.id === id)`; stated by `FindIndex` and `FindEntrySpec` |
| Catalog.FindEntrySpec | scripts.js:127-128 | an entry is found exactly when one has the id, and then it is the earliest one |
| Catalog.FindOwnId | scripts.js:127 | when ids are distinct, every entry is found by its own id |
| Catalog.MetaHtml | scripts.js:138 | the metadata line under an entry; stated by `MetaHtmlSafe` |
| Catalog.MetaHtmlSafe | scripts.js:138 | category and size cannot add markup to the metadata line: every `<` begins one of its fixed `<strong>` tags |
| Catalog.CategoryValues | scripts.js:29 | `map(...).filter(Boolean)` keeps exactly the present, non-empty categories |
| Catalog.Distinct | scripts.js:29 | `[...new Set(...)]` keeps each value once and nothing else |
| Catalog.Categories | scripts.js:29 | the options of the category selector; stated by `CategoriesSpec` |
| Catalog.CategoriesSpec | scripts.js:29 | the selector lists exactly the non-empty categories of the entries, each once, in strictly increasing code-unit order |
| Catalog.CategoryNonEmpty | scripts.js:29 | choosing a listed category with a blank query shows at least one entry |
| Uri.Encode | scripts.js:121 | `encodeURIComponent`; stated by `EncodeAlphabet` and `DecodeEncode` |
| Uri.DecodeEncode | scripts.js:121 | decoding the percent-encoded id of a card gives back the id, for every id |
| Uri.EncodeAlphabet | scripts.js:121 | the encoded id holds only unreserved characters and `%` |
| Uri.Utf8Facts | scripts.js:121 | the UTF-8 bytes of a character beyond ASCII are a lead byte that announces their number, then continuation bytes, and they decode back to the character |
| Uri.Decode | scripts.js:82 | `decodeURIComponent`; stated by `DecodeEncode`, `DecodePlain` and `DecodeBadEscape` |
| Uri.DecodePlain | scripts.js:82 | text without `%` decodes to itself |
| Uri.DecodeBadEscape | scripts.js:82 | a `%` anywhere in the text that is not followed by two hexadecimal digits makes decoding fail |
| Routing.RouteOf | scripts.js:79-89 | routing fails only on a fragment that starts with `#/entry/` |
| Routing.RouteOfSpec | scripts.js:79-89 | an entry fragment routes to its decoded rest, `#/about` to the about page, and every other fragment (the empty one included) to the list |
| Routing.DecodeAppendPlain | scripts.js:82 | decoding copies a prefix without `%` in front of the decoded rest, and an error in the rest is the error of the whole |
| Routing.RoutePlainExamples | scripts.js:79-89 | the empty fragment and `#/` show the list, `#/about` the about page, and `#/about/` the list |
| Routing.RouteEscapeExample | scripts.js:82 | `#/entry/abc%20def` routes to the entry with id `abc def` |
| Routing.RouteBadEscapeExample | scripts.js:82 | `#/entry/100%` makes routing fail |
| Routing.RouteOfEntryLink | scripts.js:79-89 | following the link of a card routes to the card's own id |
| Routing.Resolve | scripts.js:79-89 | the view a fragment selects, with the lookup of `renderEntry` for an entry fragment; stated by `RouteOfSpec`, `ResolveEntryLink` and `ResolveListedEntry` |
| Routing.ResolveEntryLink | scripts.js:126-128 | with distinct ids, the link of every entry opens that entry |
| Routing.ResolveOwnLink | scripts.js:126-128 | the link of any catalog entry opens the first entry with its id, whether or not ids are distinct |
| Routing.ResolveListedEntry | scripts.js:115-128 | the link of any entry in the shown list opens the first catalog entry with its id, and with distinct ids that entry itself |
| Cards.CardHtml | scripts.js:118-121 | the card template: escaped name, moniker (only when present and not empty), summary and tags, and the link `#/entry/` plus the encoded id; stated by `CardHtmlSafe` |
| Cards.CardHtmlSafe | scripts.js:118-121 | whatever an entry holds, every `<` of its card begins one of the template's own tags, and the link holds no `"`, so the `href` value is the whole link |
| Cards.EntryLinkPlain | scripts.js:121 | the link of a card holds neither `"` nor `<`, whatever the id |
| Cards.JoinSafe | scripts.js:120 | joining tag spans with spaces keeps every `<` at the start of a known tag |

## Left out

- The DOM is not modelled: `$`, `$$`, `innerHTML` writes, the `show*View` functions and `setupEvents`. Reading the search box and the category selector becomes the parameters `rawQuery` and `category`, and the fragment becomes the parameter `hash`.
- Loading is not modelled: `fetchEntries`, `loadAboutMarkdown`, their error pages, and the branch that uses the `marked` library when it is present. The model covers the fallback converter only.
- `debounce`, `updateCopyright` (it reads the clock) and `buildAlphabet` are not modelled.
- `buildTagList` (scripts.js:51-65) makes one button per distinct tag of the entries, and a click puts that tag into the search box; `searchByLetter` (scripts.js:156-159) puts a letter there. Both then re-render the list. Building the buttons is DOM wiring and is not modelled; the search they trigger is `Catalog.RenderList` with that text as `rawQuery`.
- The `li.entry-card` elements that hold the cards, and the "No matches." item written for an empty list (scripts.js:110-113), are DOM writes and are not modelled. The card contents are `Cards.CardHtml`.
- `renderEntry` writes `e.content` unescaped (scripts.js:134). The model records only which entry is found. The not-found page is the view `NotFoundView`.
- Markdown.MarkdownSafe: promises only that the Markdown cannot open a tag of its own. A link's url is written unescaped into a double-quoted `href` (scripts.js:265), so a `"` in it can add attributes to the `<a>` tag, as `Inline.LinkUrlVerbatim` shows.
- The helper `esc` declared at scripts.js:212 is never called and is not modelled.
- Catalog.ByName: `localeCompare` depends on the locale and is not modelled. The sort is proved correct for every total preorder on names that is passed in.
- Text.Lower: models `toLowerCase` on ASCII letters only. Letters outside ASCII are kept, because full Unicode case mapping is out of scope.
- Uri.Encode: Dafny strings hold Unicode scalar values, so the JavaScript strings with unpaired surrogates, on which `encodeURIComponent` throws, cannot be represented.
- Catalog.Entry: `id` is required. The script tolerates an entry without one: the lookup at scripts.js:127 never finds it, and its card links to `#/entry/undefined`, which finds nothing unless some entry has the id `undefined`. `Routing.ResolveEntryLink` and `Routing.ResolveListedEntry` speak only of entries with an id.
- The optional entry fields are strings or absent, and `tags` is a list of strings or absent. JSON numbers, booleans or `null` in `entries.json`, and the conversions the script would apply to them, are not modelled.
- In line classification, a line holding U+2028 or U+2029 after trimming is not a heading or an item, because the regular-expression `.` does not match those characters. The model keeps this behaviour.
