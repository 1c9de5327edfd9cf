/** The catalog logic of the page: the filter and sort of `renderList`
    (scripts.js:92-106), the lookup of `renderEntry` (scripts.js:127-128)
    with the metadata line it writes (scripts.js:138), and the category
    list of `buildCategoryFilter` (scripts.js:29). The DOM around them is
    not modelled: the search box and the category selector become the
    string parameters `rawQuery` and `category`. */
module Catalog {
  import opened Base
  import opened Text
  import opened Markup
  import opened Escape
  import opened Sorting

  /** One record of `entries.json`. `name`, `id` and `content` are read
      without a fallback by the script, the other fields may be missing. */
  datatype Entry = Entry(
    id: string,
    name: string,
    moniker: Option<string>,
    summary: Option<string>,
    category: Option<string>,
    tags: Option<seq<string>>,
    content: string,
    size: Option<string>)

  // ---------------------------------------------------------------------
  // Filtering

  /** `r` is `s` with some of its elements deleted: the rest keep their order. */
  ghost predicate Subsequence<T>(r: seq<T>, s: seq<T>)
    decreases |s|
  {
    if |r| == 0 then true
    else if |s| == 0 then false
    else (r[0] == s[0] && Subsequence(r[1..], s[1..])) || Subsequence(r, s[1..])
  }

  /** `Array.prototype.filter`: the elements that `keep` accepts, in order.
      The two clauses determine the result: the only subsequence of `s` that
      holds every accepted occurrence and nothing else is the filtered list. */
  function Filter<T(!new)>(s: seq<T>, keep: T -> bool): (r: seq<T>)
    ensures Subsequence(r, s)
    ensures forall x :: multiset(r)[x] == if keep(x) then multiset(s)[x] else 0
  {
    if |s| == 0 then []
    else
      var rest := Filter(s[1..], keep);
      var r := (if keep(s[0]) then [s[0]] else []) + rest;
      assert s == [s[0]] + s[1..];
      assert Subsequence(r, s) by {
        if keep(s[0]) {
          assert r[0] == s[0] && r[1..] == rest;
        } else {
          assert r == rest;
        }
      }
      r
  }

  lemma FilterStep<T(!new)>(s: seq<T>, keep: T -> bool)
    requires |s| > 0
    ensures Filter(s, keep) == (if keep(s[0]) then [s[0]] else []) + Filter(s[1..], keep)
  {
  }

  lemma {:induction false} FilterAll<T(!new)>(s: seq<T>, keep: T -> bool)
    requires forall i :: 0 <= i < |s| ==> keep(s[i])
    ensures Filter(s, keep) == s
    decreases |s|
  {
    if |s| > 0 {
      FilterAll(s[1..], keep);
      FilterStep(s, keep);
      assert s == [s[0]] + s[1..];
    }
  }

  /** Filters that accept the same elements give the same list. */
  lemma {:induction false} FilterSame<T(!new)>(s: seq<T>, p: T -> bool, q: T -> bool)
    requires forall x :: p(x) == q(x)
    ensures Filter(s, p) == Filter(s, q)
    decreases |s|
  {
    if |s| > 0 {
      FilterSame(s[1..], p, q);
      FilterStep(s, p);
      FilterStep(s, q);
    }
  }

  /** Filtering twice is filtering once with both conditions. */
  lemma {:induction false} FilterFilter<T(!new)>(s: seq<T>, p: T -> bool, q: T -> bool, both: T -> bool)
    requires forall x :: both(x) == (p(x) && q(x))
    ensures Filter(Filter(s, p), q) == Filter(s, both)
    decreases |s|
  {
    if |s| > 0 {
      var a, tail := s[0], s[1..];
      FilterFilter(tail, p, q, both);
      var fp := Filter(s, p);
      FilterStep(s, p);
      FilterStep(s, both);
      if p(a) {
        assert fp == [a] + Filter(tail, p);
        FilterStep(fp, q);
        assert fp[0] == a && fp[1..] == Filter(tail, p);
      } else {
        assert fp == Filter(tail, p);
      }
    }
  }

  /** Filtering commutes with picking the elements that tie with `x`. */
  lemma {:induction false} FilterTies<T(!new)>(s: seq<T>, keep: T -> bool, x: T, le: (T, T) -> bool)
    ensures TiesWith(Filter(s, keep), x, le) == Filter(TiesWith(s, x, le), keep)
    decreases |s|
  {
    if |s| > 0 {
      var a, tail := s[0], s[1..];
      FilterTies(tail, keep, x, le);
      var f, t := Filter(s, keep), TiesWith(s, x, le);
      var ft, tt := Filter(tail, keep), TiesWith(tail, x, le);
      FilterStep(s, keep);
      assert t == (if Ties(le, a, x) then [a] else []) + tt;
      var head := if Ties(le, a, x) && keep(a) then [a] else [];
      if Ties(le, a, x) {
        FilterStep(t, keep);
        assert t[0] == a && t[1..] == tt;
        assert Filter(t, keep) == head + Filter(tt, keep);
      } else {
        assert t == tt;
      }
      if keep(a) {
        assert f == [a] + ft;
        TiesWithCons(a, ft, x, le);
        assert TiesWith(f, x, le) == head + TiesWith(ft, x, le);
      } else {
        assert f == ft;
      }
    }
  }

  /** `$('#search').value.trim().toLowerCase()`. */
  function NormalizeQuery(rawQuery: string): string
  {
    Lower(Trim(rawQuery))
  }

  /** The four texts a query is looked for in, lower-cased; missing fields
      count as empty and the tags are joined with single spaces. */
  function SearchTexts(e: Entry): seq<string>
  {
    [ Lower(e.name),
      Lower(e.moniker.GetOr("")),
      Lower(e.summary.GetOr("")),
      Lower(Join(e.tags.GetOr([]), " ")) ]
  }

  /** The query callback of `renderList`: `q` occurs in one of the texts. */
  predicate MatchesQuery(e: Entry, q: string)
  {
    var t := SearchTexts(e);
    Contains(t[0], q) || Contains(t[1], q) || Contains(t[2], q) || Contains(t[3], q)
  }

  predicate InCategory(e: Entry, category: string)
  {
    e.category == Some(category)
  }

  /** The category callback of `renderList`. */
  function CategoryKeep(category: string): Entry -> bool
  {
    e => InCategory(e, category)
  }

  /** The query callback of `renderList`, for the normalised query `q`. */
  function QueryKeep(q: string): Entry -> bool
  {
    e => MatchesQuery(e, q)
  }

  /** The entries `renderList` shows, before sorting: the category filter
      when a category is selected, then the query filter when the normalised
      query is not empty. */
  function Select(entries: seq<Entry>, category: string, rawQuery: string): seq<Entry>
  {
    var q := NormalizeQuery(rawQuery);
    var byCategory := if category != "" then Filter(entries, CategoryKeep(category)) else entries;
    if q != "" then Filter(byCategory, QueryKeep(q)) else byCategory
  }

  /** What the selection keeps, stated without the filters. */
  predicate Selected(e: Entry, category: string, rawQuery: string)
  {
    && (category != "" ==> InCategory(e, category))
    && (NormalizeQuery(rawQuery) != "" ==> MatchesQuery(e, NormalizeQuery(rawQuery)))
  }

  function Shown(category: string, rawQuery: string): Entry -> bool
  {
    e => Selected(e, category, rawQuery)
  }

  /** The two filters in a row are one filter on both conditions. */
  lemma SelectFilter(entries: seq<Entry>, category: string, rawQuery: string)
    ensures Select(entries, category, rawQuery) == Filter(entries, Shown(category, rawQuery))
  {
    var q := NormalizeQuery(rawQuery);
    var shown := Shown(category, rawQuery);
    if category != "" && q != "" {
      assert forall e :: shown(e) == (CategoryKeep(category)(e) && QueryKeep(q)(e));
      FilterFilter(entries, CategoryKeep(category), QueryKeep(q), shown);
    } else if category != "" {
      assert forall e :: CategoryKeep(category)(e) == shown(e);
      FilterSame(entries, CategoryKeep(category), shown);
    } else if q != "" {
      assert forall e :: QueryKeep(q)(e) == shown(e);
      FilterSame(entries, QueryKeep(q), shown);
    } else {
      FilterAll(entries, shown);
    }
  }

  /** The selection holds the entries that satisfy both conditions, in
      catalog order, as many times as `entries` does, and nothing else. */
  lemma SelectExact(entries: seq<Entry>, category: string, rawQuery: string)
    ensures Subsequence(Select(entries, category, rawQuery), entries)
    ensures forall e :: multiset(Select(entries, category, rawQuery))[e] == (if Selected(e, category, rawQuery) then multiset(entries)[e] else 0)
  {
    SelectFilter(entries, category, rawQuery);
    var r := Filter(entries, Shown(category, rawQuery));
    assert forall e :: multiset(r)[e] == (if Shown(category, rawQuery)(e) then multiset(entries)[e] else 0);
  }

  /** Every selected entry comes from `entries` and meets both conditions. */
  lemma SelectSound(entries: seq<Entry>, category: string, rawQuery: string, e: Entry)
    requires e in Select(entries, category, rawQuery)
    ensures e in entries && Selected(e, category, rawQuery)
  {
    SelectExact(entries, category, rawQuery);
    assert multiset(Select(entries, category, rawQuery))[e] > 0;
  }

  /** With no category and a blank query every entry is selected, in order. */
  lemma SelectAll(entries: seq<Entry>, rawQuery: string)
    requires NormalizeQuery(rawQuery) == ""
    ensures Select(entries, "", rawQuery) == entries
  {
  }

  /** Strings with white space at the same places trim at the same places. */
  lemma SameSpaces(s: string, t: string)
    requires |s| == |t|
    requires forall i :: 0 <= i < |s| ==> (IsSpace(s[i]) <==> IsSpace(t[i]))
    ensures LeadingSpaces(s) == LeadingSpaces(t)
    ensures TrailingSpaces(s) == TrailingSpaces(t)
  {
    var m, n := LeadingSpaces(s), LeadingSpaces(t);
    assert forall i :: 0 <= i < m ==> s[..m][i] == s[i];
    assert forall i :: 0 <= i < n ==> t[..n][i] == t[i];
    var p, q := TrailingSpaces(s), TrailingSpaces(t);
    assert forall i :: |s| - p <= i < |s| ==> s[|s| - p..][i - (|s| - p)] == s[i];
    assert forall i :: |t| - q <= i < |t| ==> t[|t| - q..][i - (|t| - q)] == t[i];
  }

  lemma LowerPreservesSpaces(s: string)
    ensures forall i :: 0 <= i < |s| ==> (IsSpace(s[i]) <==> IsSpace(Lower(s)[i]))
  {
  }

  lemma LowerSlice(s: string, a: nat, b: nat)
    requires a <= b <= |s|
    ensures Lower(s[a..b]) == Lower(s)[a..b]
  {
    var l, m := Lower(s[a..b]), Lower(s)[a..b];
    forall i | 0 <= i < b - a
      ensures l[i] == m[i]
    {
      assert s[a..b][i] == s[a + i];
    }
  }

  lemma TrimLowerBounds(s: string)
    ensures LeadingSpaces(Lower(s)) == LeadingSpaces(s)
    ensures TrimEnd(Lower(s)) == TrimEnd(s)
  {
    var l := Lower(s);
    LowerSameSpaces(s);
    var a := LeadingSpaces(s);
    LowerSuffix(s, a);
    LowerSameSpaces(s[a..]);
  }

  lemma LowerSuffix(s: string, a: nat)
    requires a <= |s|
    ensures Lower(s[a..]) == Lower(s)[a..]
  {
    var l, m := Lower(s[a..]), Lower(s)[a..];
    forall i | 0 <= i < |s| - a
      ensures l[i] == m[i]
    {
      assert s[a..][i] == s[a + i];
    }
  }

  /** Lower-casing keeps the white space at both ends. */
  lemma LowerSameSpaces(s: string)
    ensures LeadingSpaces(Lower(s)) == LeadingSpaces(s)
    ensures TrailingSpaces(Lower(s)) == TrailingSpaces(s)
  {
    LowerPreservesSpaces(s);
    SameSpaces(s, Lower(s));
  }

  /** Lower-casing changes no white space, so it commutes with trimming. */
  lemma TrimLower(s: string)
    ensures Trim(Lower(s)) == Lower(Trim(s))
  {
    TrimLowerBounds(s);
    LowerSlice(s, LeadingSpaces(s), TrimEnd(s));
  }

  /** The search ignores the case and the surrounding white space of the query. */
  lemma QueryInsensitive(rawQuery: string)
    ensures NormalizeQuery(Lower(rawQuery)) == NormalizeQuery(rawQuery)
    ensures NormalizeQuery(Trim(rawQuery)) == NormalizeQuery(rawQuery)
  {
    TrimLower(rawQuery);
    LowerIdempotent(Trim(rawQuery));
    TrimIdempotent(rawQuery);
  }

  // ---------------------------------------------------------------------
  // Ordering

  /** The comparator `(a,b)=> a.name.localeCompare(b.name)` read as "`a` sorts
      no later than `b`", for an order `nameLe` on names. */
  function ByName(nameLe: (string, string) -> bool): (Entry, Entry) -> bool
  {
    (a: Entry, b: Entry) => nameLe(a.name, b.name)
  }

  lemma ByNamePreorder(nameLe: (string, string) -> bool)
    requires TotalPreorder(nameLe)
    ensures TotalPreorder(ByName(nameLe))
  {
    var le := ByName(nameLe);
    forall a: Entry, b: Entry, c: Entry
      ensures le(a, b) || le(b, a)
      ensures le(a, b) && le(b, c) ==> le(a, c)
    {
      assert nameLe(a.name, b.name) || nameLe(b.name, a.name);
      assert nameLe(a.name, b.name) && nameLe(b.name, c.name) ==> nameLe(a.name, c.name);
    }
  }

  /** The list `renderList` writes, in order. */
  function RenderList(entries: seq<Entry>, category: string, rawQuery: string, nameLe: (string, string) -> bool): seq<Entry>
  {
    Sort(Select(entries, category, rawQuery), ByName(nameLe))
  }

  /** The shown list is the selection, reordered by name; the entries whose
      names tie with any `x` are the catalog's entries tying with `x` that
      pass both filters, in their order in `entries`. */
  lemma RenderListSpec(entries: seq<Entry>, category: string, rawQuery: string, nameLe: (string, string) -> bool)
    requires TotalPreorder(nameLe)
    ensures var r := RenderList(entries, category, rawQuery, nameLe);
      && multiset(r) == multiset(Select(entries, category, rawQuery))
      && (forall i, j :: 0 <= i < j < |r| ==> nameLe(r[i].name, r[j].name))
      && (forall x :: TiesWith(r, x, ByName(nameLe)) == Filter(TiesWith(entries, x, ByName(nameLe)), Shown(category, rawQuery)))
  {
    var sel := Select(entries, category, rawQuery);
    var le := ByName(nameLe);
    ByNamePreorder(nameLe);
    SortSorted(sel, le);
    SelectFilter(entries, category, rawQuery);
    forall x
      ensures TiesWith(Sort(sel, le), x, le) == Filter(TiesWith(entries, x, le), Shown(category, rawQuery))
    {
      SortStable(sel, x, le);
      FilterTies(entries, Shown(category, rawQuery), x, le);
    }
  }

  /** With no category and a blank query the page lists every entry. */
  lemma RenderListAll(entries: seq<Entry>, rawQuery: string, nameLe: (string, string) -> bool)
    requires NormalizeQuery(rawQuery) == ""
    ensures multiset(RenderList(entries, "", rawQuery, nameLe)) == multiset(entries)
  {
    SelectAll(entries, rawQuery);
  }

  // ---------------------------------------------------------------------
  // Lookup

  /** `entries.find(x => x.id === id)`, as the index of the first match. */
  function FindIndex(entries: seq<Entry>, id: string): (r: Option<nat>)
    ensures r.Some? ==> r.value < |entries| && entries[r.value].id == id
    ensures r.Some? ==> forall j :: 0 <= j < r.value ==> entries[j].id != id
    ensures r.None? ==> forall j :: 0 <= j < |entries| ==> entries[j].id != id
  {
    if |entries| == 0 then None
    else if entries[0].id == id then Some(0)
    else match FindIndex(entries[1..], id)
      case None => None
      case Some(k) => Some(k + 1)
  }

  /** The entry `renderEntry` shows, or `None` for the not-found page. */
  function FindEntry(entries: seq<Entry>, id: string): Option<Entry>
  {
    match FindIndex(entries, id)
    case None => None
    case Some(k) => Some(entries[k])
  }

  /** Position `i` holds the first entry with this id. */
  ghost predicate FirstWithId(entries: seq<Entry>, id: string, i: int)
  {
    0 <= i < |entries| && entries[i].id == id && forall j :: 0 <= j < i ==> entries[j].id != id
  }

  /** The lookup finds an entry exactly when one has the id, and then the
      earliest one: a later entry with the same id is never shown. */
  lemma FindEntrySpec(entries: seq<Entry>, id: string)
    ensures FindEntry(entries, id).Some? <==> exists i :: 0 <= i < |entries| && entries[i].id == id
    ensures forall i :: FirstWithId(entries, id, i) ==> FindEntry(entries, id) == Some(entries[i])
  {
    forall i | FirstWithId(entries, id, i)
      ensures FindEntry(entries, id) == Some(entries[i])
    {
      var k := FindIndex(entries, id).value;
      assert !(k < i) && !(i < k);
    }
  }

  /** The ids of `entries` are pairwise distinct. */
  ghost predicate UniqueIds(entries: seq<Entry>)
  {
    forall i, j :: 0 <= i < j < |entries| ==> entries[i].id != entries[j].id
  }

  /** With distinct ids, every entry of the catalog is found by its own id. */
  lemma FindOwnId(entries: seq<Entry>, i: nat)
    requires UniqueIds(entries) && i < |entries|
    ensures FindEntry(entries, entries[i].id) == Some(entries[i])
  {
    FindEntrySpec(entries, entries[i].id);
  }

  /** A bold label as the metadata line writes it: `<strong>Name:</strong> `. */
  function Label(name: string): string
  {
    "<strong>" + name + ":" + "</strong>" + " "
  }

  /** The metadata line under an entry (scripts.js:138). */
  function MetaHtml(e: Entry): string
  {
    Label("Category") + EscapeHtml(e.category) + " &nbsp; " + Label("Size") + EscapeHtml(e.size)
  }

  const MetaTags: set<string> := {"<strong>", "</strong>"}

  lemma LabelSafe(name: string)
    requires '<' !in name
    ensures OnlyOpens(Label(name), '<', MetaTags)
  {
    TagAlone("<strong>", MetaTags);
    TagAlone("</strong>", MetaTags);
    OnlyOpensAbsent(name + ":", '<', MetaTags);
    OnlyOpensAbsent(" ", '<', MetaTags);
    OnlyOpensAppend3("<strong>", name + ":", "</strong>", '<', MetaTags);
    assert "<strong>" + (name + ":") + "</strong>" == "<strong>" + name + ":" + "</strong>";
    OnlyOpensAppend("<strong>" + name + ":" + "</strong>", " ", '<', MetaTags);
  }

  /** Category and size cannot add markup: every `<` of the metadata line
      begins one of its two fixed tags. */
  lemma MetaHtmlSafe(e: Entry)
    ensures OnlyOpens(MetaHtml(e), '<', MetaTags)
  {
    LabelSafe("Category");
    LabelSafe("Size");
    var cat, size := EscapeHtml(e.category), EscapeHtml(e.size);
    OnlyOpensAbsent(cat, '<', MetaTags);
    OnlyOpensAbsent(size, '<', MetaTags);
    OnlyOpensAbsent(" &nbsp; ", '<', MetaTags);
    OnlyOpensAppend3(Label("Category"), cat, " &nbsp; ", '<', MetaTags);
    OnlyOpensAppend3(Label("Category") + cat + " &nbsp; ", Label("Size"), size, '<', MetaTags);
  }

  // ---------------------------------------------------------------------
  // Categories

  /** `entries.map(e=>e.category).filter(Boolean)`: the categories that are
      present and not empty, in entry order. */
  function CategoryValues(entries: seq<Entry>): (r: seq<string>)
    ensures forall c :: c in r <==> c != "" && exists i :: 0 <= i < |entries| && entries[i].category == Some(c)
  {
    if |entries| == 0 then []
    else
      var here := match entries[0].category
        case Some(c) => if c != "" then [c] else []
        case None => [];
      var r := here + CategoryValues(entries[1..]);
      assert forall i :: 1 <= i < |entries| ==> entries[1..][i - 1] == entries[i];
      r
  }

  /** `[...new Set(s)]`: the first occurrence of every value, in order,
      skipping the values in `seen`. */
  function Distinct(s: seq<string>, seen: set<string>): (r: seq<string>)
    ensures forall x :: x in r <==> x in s && x !in seen
    ensures forall i, j :: 0 <= i < j < |r| ==> r[i] != r[j]
  {
    if |s| == 0 then []
    else if s[0] in seen then Distinct(s[1..], seen)
    else [s[0]] + Distinct(s[1..], seen + {s[0]})
  }

  /** The options of the category selector: the distinct categories in
      UTF-16 code-unit order, the order of the default `sort()`. */
  function Categories(entries: seq<Entry>): seq<string>
  {
    Sort(Distinct(CategoryValues(entries), {}), CodeUnitLe)
  }

  lemma CodeUnitPreorder()
    ensures TotalPreorder(CodeUnitLe)
  {
    forall a: string, b: string, c: string
      ensures CodeUnitLe(a, b) || CodeUnitLe(b, a)
      ensures CodeUnitLe(a, b) && CodeUnitLe(b, c) ==> CodeUnitLe(a, c)
    {
      CodeUnitLeTotalOrder(a, b, c);
    }
  }

  /** A sequence with the same elements as a duplicate-free one is duplicate-free. */
  lemma {:induction false} DistinctCount(s: seq<string>)
    requires forall i, j :: 0 <= i < j < |s| ==> s[i] != s[j]
    ensures forall x :: multiset(s)[x] <= 1
    decreases |s|
  {
    if |s| > 0 {
      DistinctCount(s[1..]);
      assert s == [s[0]] + s[1..];
      assert s[0] !in s[1..];
    }
  }

  lemma {:induction false} CountDistinct(s: seq<string>)
    requires forall x :: multiset(s)[x] <= 1
    ensures forall i, j :: 0 <= i < j < |s| ==> s[i] != s[j]
    decreases |s|
  {
    if |s| > 0 {
      assert s == [s[0]] + s[1..];
      assert multiset(s) == multiset{s[0]} + multiset(s[1..]);
      assert multiset(s)[s[0]] == 1 + multiset(s[1..])[s[0]];
      assert s[0] !in multiset(s[1..]);
      forall x
        ensures multiset(s[1..])[x] <= 1
      {
        assert multiset(s)[x] == multiset{s[0]}[x] + multiset(s[1..])[x];
      }
      CountDistinct(s[1..]);
      assert forall j :: 1 <= j < |s| ==> s[j] == s[1..][j - 1] && s[j] in s[1..];
    }
  }

  /** The selector lists each category that some entry carries, exactly once,
      in strictly increasing code-unit order, and nothing else. */
  lemma CategoriesSpec(entries: seq<Entry>)
    ensures var r := Categories(entries);
      && (forall c :: c in r <==> c != "" && exists i :: 0 <= i < |entries| && entries[i].category == Some(c))
      && (forall i, j :: 0 <= i < j < |r| ==> CodeUnitLe(r[i], r[j]) && r[i] != r[j])
  {
    var d := Distinct(CategoryValues(entries), {});
    var r := Categories(entries);
    CodeUnitPreorder();
    SortSorted(d, CodeUnitLe);
    DistinctCount(d);
    CountDistinct(r);
    forall c
      ensures c in r <==> c in d
    {
      assert c in r <==> multiset(r)[c] > 0;
      assert c in d <==> multiset(d)[c] > 0;
    }
  }

  /** Choosing any listed category shows at least one entry. */
  lemma CategoryNonEmpty(entries: seq<Entry>, c: string, rawQuery: string)
    requires c in Categories(entries) && NormalizeQuery(rawQuery) == ""
    ensures |Select(entries, c, rawQuery)| > 0
  {
    CategoriesSpec(entries);
    var i :| 0 <= i < |entries| && entries[i].category == Some(c);
    SelectExact(entries, c, rawQuery);
    assert entries[i] in multiset(entries);
    assert multiset(Select(entries, c, rawQuery))[entries[i]] > 0;
  }
}
