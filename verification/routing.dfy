/** `handleRouting` (scripts.js:79-89): the fragment of the page address
    chooses the list, the about page or one entry. The fragment is a
    parameter; showing the views is not modelled, only which one is chosen
    and, for an entry, what `renderEntry` finds (scripts.js:126-128). */
module Routing {
  import opened Base
  import opened Text
  import opened Uri
  import opened Catalog
  import opened Sorting

  datatype Route = ListRoute | AboutRoute | EntryRoute(id: string)

  const EntryPrefix: string := "#/entry/"

  /** `location.hash || '#/'`: an empty fragment means the list. */
  function EffectiveHash(hash: string): string
  {
    if hash == "" then "#/" else hash
  }

  /** The route for a fragment. Decoding the id can throw, and the error
      escapes `handleRouting`: it is `Err` here. */
  function RouteOf(hash: string): (r: Result<Route, UriError>)
    ensures r.Err? ==> EntryPrefix <= hash
  {
    var h := EffectiveHash(hash);
    if EntryPrefix <= h then
      match Decode(ReplaceFirst(h, EntryPrefix, ""))
      case Ok(id) => Ok(EntryRoute(id))
      case Err(e) => Err(e)
    else if h == "#/about" then Ok(AboutRoute)
    else Ok(ListRoute)
  }

  /** The decision, stated case by case: the text after the prefix is what is
      decoded, `#/about` exactly is the about page, and every other fragment,
      the empty one and `#/` included, is the list. */
  lemma RouteOfSpec(hash: string)
    ensures EntryPrefix <= hash ==>
      RouteOf(hash) == match Decode(hash[|EntryPrefix|..])
        case Ok(id) => Ok(EntryRoute(id))
        case Err(e) => Err(e)
    ensures hash == "#/about" ==> RouteOf(hash) == Ok(AboutRoute)
    ensures !(EntryPrefix <= hash) && hash != "#/about" ==> RouteOf(hash) == Ok(ListRoute)
  {
    if EntryPrefix <= hash {
      ReplaceFirstPrefix(hash, EntryPrefix);
    }
  }

  /** The href of an entry card: `#/entry/${encodeURIComponent(e.id)}`. */
  function EntryLink(id: string): string
  {
    EntryPrefix + Encode(id)
  }

  /** Following the link of a card routes to that very id. */
  lemma RouteOfEntryLink(id: string)
    ensures RouteOf(EntryLink(id)) == Ok(EntryRoute(id))
  {
    var link := EntryLink(id);
    assert EntryPrefix <= link;
    assert link[|EntryPrefix|..] == Encode(id);
    RouteOfSpec(link);
    DecodeEncode(id);
  }

  /** What the page shows for a fragment. */
  datatype View = ListView | AboutView | EntryView(entry: Entry) | NotFoundView

  /** The view for a fragment, or the error `decodeURIComponent` throws. */
  function Resolve(entries: seq<Entry>, hash: string): Result<View, UriError>
  {
    match RouteOf(hash)
    case Err(e) => Err(e)
    case Ok(ListRoute) => Ok(ListView)
    case Ok(AboutRoute) => Ok(AboutView)
    case Ok(EntryRoute(id)) =>
      match FindEntry(entries, id)
      case Some(e) => Ok(EntryView(e))
      case None => Ok(NotFoundView)
  }

  /** In a catalog with distinct ids the link of every entry opens it. */
  lemma ResolveEntryLink(entries: seq<Entry>, i: nat)
    requires UniqueIds(entries) && i < |entries|
    ensures Resolve(entries, EntryLink(entries[i].id)) == Ok(EntryView(entries[i]))
  {
    RouteOfEntryLink(entries[i].id);
    FindOwnId(entries, i);
  }

  /** The link of any catalog entry opens the first entry with its id. */
  lemma ResolveOwnLink(entries: seq<Entry>, i: nat)
    requires i < |entries|
    ensures FindEntry(entries, entries[i].id).Some?
    ensures Resolve(entries, EntryLink(entries[i].id)) == Ok(EntryView(FindEntry(entries, entries[i].id).value))
  {
    RouteOfEntryLink(entries[i].id);
    FindEntrySpec(entries, entries[i].id);
  }

  /** A link to an entry in the shown list opens the first catalog entry
      with its id; with distinct ids that is the entry itself. */
  lemma ResolveListedEntry(entries: seq<Entry>, category: string, rawQuery: string,
                           nameLe: (string, string) -> bool, e: Entry)
    requires TotalPreorder(nameLe)
    requires e in RenderList(entries, category, rawQuery, nameLe)
    ensures FindEntry(entries, e.id).Some?
    ensures Resolve(entries, EntryLink(e.id)) == Ok(EntryView(FindEntry(entries, e.id).value))
    ensures forall i :: FirstWithId(entries, e.id, i) ==> Resolve(entries, EntryLink(e.id)) == Ok(EntryView(entries[i]))
    ensures UniqueIds(entries) ==> Resolve(entries, EntryLink(e.id)) == Ok(EntryView(e))
  {
    var i := ListedIndex(entries, category, rawQuery, nameLe, e);
    ResolveOwnLink(entries, i);
    FindEntrySpec(entries, e.id);
    if UniqueIds(entries) {
      ResolveEntryLink(entries, i);
    }
  }

  /** An entry of the shown list sits somewhere in the catalog. */
  lemma ListedIndex(entries: seq<Entry>, category: string, rawQuery: string,
                    nameLe: (string, string) -> bool, e: Entry) returns (i: nat)
    requires TotalPreorder(nameLe)
    requires e in RenderList(entries, category, rawQuery, nameLe)
    ensures i < |entries| && entries[i] == e
  {
    RenderListSpec(entries, category, rawQuery, nameLe);
    assert e in multiset(Select(entries, category, rawQuery));
    SelectSound(entries, category, rawQuery, e);
    i :| 0 <= i < |entries| && entries[i] == e;
  }

  /** The fragments that do not name an entry. */
  lemma RoutePlainExamples()
    ensures RouteOf("") == Ok(ListRoute)
    ensures RouteOf("#/") == Ok(ListRoute)
    ensures RouteOf("#/about") == Ok(AboutRoute)
    ensures RouteOf("#/about/") == Ok(ListRoute)
  {
    RouteOfSpec("");
    RouteOfSpec("#/");
    RouteOfSpec("#/about");
    assert "#/about/"[2] != EntryPrefix[2];
    RouteOfSpec("#/about/");
  }

  /** An escaped space in an entry fragment is decoded. */
  lemma RouteEscapeExample()
    ensures RouteOf(EntryPrefix + "abc%20def") == Ok(EntryRoute("abc" + " def"))
  {
    var plain, tail := "abc", "%20def";
    var hash := EntryPrefix + "abc%20def";
    assert hash[|EntryPrefix|..] == plain + tail;
    assert Decode(plain + tail) == Ok(plain + " def") by {
      DecodeSpace();
      DecodeAppendPlain(plain, tail);
    }
    RouteOfSpec(hash);
  }

  lemma DecodeSpace()
    ensures Decode("%20def") == Ok(" def")
  {
    var tail := "%20def";
    assert tail[..3] == "%20";
    SpaceHead(tail);
    DecodeStep(tail, ' ', 3);
    assert tail[3..] == "def";
    DecodePlain("def");
    assert [' '] + "def" == " def";
  }

  /** `%20` reads as one space, taking three characters. */
  lemma SpaceHead(s: string)
    requires |s| >= 3 && s[..3] == "%20"
    ensures DecodeHead(s) == Ok((' ', 3))
  {
    assert HexValue(s[1]) == Some(2) && HexValue(s[2]) == Some(0);
    assert ByteAt(s, 0) == Some(32);
    assert LeadingOnes(32) == 0;
  }

  /** A `%` without two hex digits after it makes the route an error. */
  lemma RouteBadEscapeExample()
    ensures RouteOf("#/entry/100%").Err?
  {
    var hash := "#/entry/100%";
    RouteOfSpec(hash);
    assert hash[|EntryPrefix|..] == "100" + "%";
    assert ByteAt("%", 0).None?;
    DecodeBadEscape("%", 0);
    DecodeAppendPlain("100", "%");
  }

  /** Decoding a plain prefix copies it in front of the rest. */
  lemma {:induction false} DecodeAppendPlain(p: string, s: string)
    requires '%' !in p
    ensures Decode(s).Ok? ==> Decode(p + s) == Ok(p + Decode(s).value)
    ensures Decode(s).Err? ==> Decode(p + s) == Decode(s)
    decreases |p|
  {
    var q := p + s;
    if |p| > 0 {
      assert q[0] == p[0] && q[1..] == p[1..] + s;
      DecodeStep(q, p[0], 1);
      DecodeAppendPlain(p[1..], s);
      if Decode(s).Ok? {
        var t := Decode(s).value;
        assert p + t == [p[0]] + (p[1..] + t);
      }
    } else {
      assert q == s;
      if Decode(s).Ok? {
        assert p + Decode(s).value == Decode(s).value;
      }
    }
  }
}
