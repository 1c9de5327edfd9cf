/** The JavaScript string primitives the script relies on, over `string`
    (a sequence of Unicode scalar values): global single-character
    `replace`, `trim`, `toLowerCase`, `includes`/`indexOf`, `split` and
    `join`, and the UTF-16 code-unit order used by the default `sort()`. */
module Text {
  import opened Base

  // ---------------------------------------------------------------------
  // Per-character rewriting

  /** The concatenation of `f(c)` over the characters `c` of `s`: the shape of
      every global `replace` whose pattern matches exactly one character. */
  function FlatMap(s: string, f: char -> string): string
  {
    if |s| == 0 then "" else f(s[0]) + FlatMap(s[1..], f)
  }

  lemma {:induction false} FlatMapAppend(a: string, b: string, f: char -> string)
    ensures FlatMap(a + b, f) == FlatMap(a, f) + FlatMap(b, f)
    decreases |a|
  {
    if |a| > 0 {
      assert (a + b)[1..] == a[1..] + b;
      FlatMapAppend(a[1..], b, f);
    } else {
      assert a + b == b;
    }
  }

  /** A one-character string maps to the image of its character. */
  lemma FlatMapSingle(c: char, f: char -> string)
    ensures FlatMap([c], f) == f(c)
  {
    assert [c][1..] == [];
  }

  /** Characters that `f` keeps as themselves pass through unchanged. */
  lemma {:induction false} FlatMapIdentity(s: string, f: char -> string)
    requires forall i :: 0 <= i < |s| ==> f(s[i]) == [s[i]]
    ensures FlatMap(s, f) == s
    decreases |s|
  {
    if |s| > 0 {
      FlatMapIdentity(s[1..], f);
      assert [s[0]] + s[1..] == s;
    }
  }

  /** Every character of the result comes out of the image of some input character. */
  lemma {:induction false} FlatMapOrigin(s: string, f: char -> string, x: char)
    requires x in FlatMap(s, f)
    ensures exists i :: 0 <= i < |s| && x in f(s[i])
    decreases |s|
  {
    if x !in f(s[0]) {
      FlatMapOrigin(s[1..], f, x);
      var i :| 0 <= i < |s[1..]| && x in f(s[1..][i]);
      assert s[1..][i] == s[i + 1];
    }
  }

  /** The per-character effect of replacing every `c` by `rep`. */
  function Replacer(c: char, rep: string): char -> string
  {
    x => if x == c then rep else [x]
  }

  /** `s.replace(/c/g, rep)`: every occurrence of `c` becomes `rep`. */
  function ReplaceAll(s: string, c: char, rep: string): (r: string)
    ensures c !in rep ==> c !in r
    ensures forall x :: x != c && x !in rep ==> (x in r <==> x in s)
  {
    var r := FlatMap(s, Replacer(c, rep));
    ReplaceAllChars(s, c, rep);
    r
  }

  /** The replacement works character by character, in place: text splits
      into independently replaced parts, the empty text stays empty, and a
      single character becomes `rep` when it is `c` and stays otherwise. */
  lemma ReplaceAllAppend(a: string, b: string, c: char, rep: string)
    ensures ReplaceAll(a + b, c, rep) == ReplaceAll(a, c, rep) + ReplaceAll(b, c, rep)
    ensures ReplaceAll("", c, rep) == ""
  {
    FlatMapAppend(a, b, Replacer(c, rep));
  }

  lemma ReplaceAllSingle(x: char, c: char, rep: string)
    ensures ReplaceAll([x], c, rep) == if x == c then rep else [x]
  {
    FlatMapSingle(x, Replacer(c, rep));
  }

  lemma {:induction false} ReplaceAllChars(s: string, c: char, rep: string)
    ensures var r := FlatMap(s, Replacer(c, rep));
      && (c !in rep ==> c !in r)
      && (forall x :: x != c && x !in rep ==> (x in r <==> x in s))
    decreases |s|
  {
    if |s| > 0 {
      ReplaceAllChars(s[1..], c, rep);
      assert s == [s[0]] + s[1..];
    }
  }

  /** A copied first character followed by `n - 1` copied characters is the
      first `n` characters. */
  lemma PrefixCons(s: string, n: nat, x: string, y: string, z: string)
    requires 0 < n <= |s|
    requires x == [s[0]] + y
    requires y == s[1..][..n - 1] + z
    ensures x == s[..n] + z
  {
    assert s[..n] == [s[0]] + s[1..][..n - 1];
  }

  /** A string in which `c` does not occur is left as it is. */
  lemma ReplaceAllAbsent(s: string, c: char, rep: string)
    requires c !in s
    ensures ReplaceAll(s, c, rep) == s
  {
    FlatMapIdentity(s, Replacer(c, rep));
  }

  // ---------------------------------------------------------------------
  // Whitespace and trim

  /** ECMAScript's WhiteSpace and LineTerminator characters: what `trim()`
      strips and what the regular-expression class `\s` matches. */
  predicate IsSpace(c: char)
  {
    || c == '\t' || c == '\n' || c == '\U{000B}' || c == '\U{000C}' || c == '\r'
    || c == ' ' || c == '\U{00A0}' || c == '\U{1680}'
    || ('\U{2000}' <= c <= '\U{200A}')
    || c == '\U{2028}' || c == '\U{2029}' || c == '\U{202F}' || c == '\U{205F}'
    || c == '\U{3000}' || c == '\U{FEFF}'
  }

  /** The characters the regular-expression `.` refuses to match. */
  predicate IsLineTerminator(c: char)
  {
    c == '\n' || c == '\r' || c == '\U{2028}' || c == '\U{2029}'
  }

  ghost predicate AllSpace(s: string)
  {
    forall i :: 0 <= i < |s| ==> IsSpace(s[i])
  }

  /** The number of whitespace characters `s` starts with. */
  function LeadingSpaces(s: string): (n: nat)
    ensures n <= |s|
    ensures AllSpace(s[..n])
    ensures n < |s| ==> !IsSpace(s[n])
  {
    if |s| > 0 && IsSpace(s[0]) then 1 + LeadingSpaces(s[1..]) else 0
  }

  /** The number of whitespace characters `s` ends with. */
  function TrailingSpaces(s: string): (n: nat)
    ensures n <= |s|
    ensures AllSpace(s[|s| - n..])
    ensures n < |s| ==> !IsSpace(s[|s| - n - 1])
  {
    if |s| > 0 && IsSpace(s[|s| - 1]) then 1 + TrailingSpaces(s[..|s| - 1]) else 0
  }

  /** `s.trim()`: the middle of `s` once whitespace is taken off both ends. */
  function Trim(s: string): (r: string)
    ensures |r| == 0 || (!IsSpace(r[0]) && !IsSpace(r[|r| - 1]))
    ensures exists a, b :: 0 <= a <= b <= |s| && r == s[a..b] && AllSpace(s[..a]) && AllSpace(s[b..])
  {
    var a, b := LeadingSpaces(s), TrimEnd(s);
    TrimSlice(s, a, b);
    s[a..b]
  }

  lemma TrimSlice(s: string, a: nat, b: nat)
    requires a == LeadingSpaces(s) && b == TrimEnd(s)
    ensures var r := s[a..b];
      && (|r| == 0 || (!IsSpace(r[0]) && !IsSpace(r[|r| - 1])))
      && exists a', b' :: 0 <= a' <= b' <= |s| && r == s[a'..b'] && AllSpace(s[..a']) && AllSpace(s[b'..])
  {
    TrimParts(s, a, b);
    var r := s[a..b];
    assert a == b || (r[0] == s[a] && r[|r| - 1] == s[b - 1]);
    assert 0 <= a <= b <= |s| && r == s[a..b] && AllSpace(s[..a]) && AllSpace(s[b..]);
  }

  lemma TrimParts(s: string, a: nat, b: nat)
    requires a == LeadingSpaces(s) && b == TrimEnd(s)
    ensures a == b || (!IsSpace(s[a]) && !IsSpace(s[b - 1]))
    ensures AllSpace(s[..a]) && AllSpace(s[b..])
  {
    var t := s[a..];
    var n := TrailingSpaces(t);
    assert b == a + (|t| - n);
    assert s[b..] == t[|t| - n..];
    if a < b {
      assert s[b - 1] == t[|t| - n - 1];
    }
  }

  /** Where the trimmed middle of `s` ends. */
  function TrimEnd(s: string): (b: nat)
    ensures LeadingSpaces(s) <= b <= |s|
  {
    var a := LeadingSpaces(s);
    |s| - TrailingSpaces(s[a..])
  }

  /** Trimming a string that neither starts nor ends with whitespace changes nothing;
      in particular trimming is idempotent. */
  lemma TrimTrimmed(s: string)
    requires |s| == 0 || (!IsSpace(s[0]) && !IsSpace(s[|s| - 1]))
    ensures Trim(s) == s
  {
    var a := LeadingSpaces(s);
    if |s| > 0 {
      assert a == 0;
      assert s[a..] == s;
    }
  }

  lemma TrimIdempotent(s: string)
    ensures Trim(Trim(s)) == Trim(s)
  {
    TrimTrimmed(Trim(s));
  }

  // ---------------------------------------------------------------------
  // Lower case

  /** `toLowerCase` restricted to ASCII: `A`..`Z` become `a`..`z`. */
  function LowerChar(c: char): (d: char)
    ensures !('A' <= d <= 'Z')
    ensures !('A' <= c <= 'Z') ==> d == c
    ensures 'A' <= c <= 'Z' ==> d as int == c as int + 32
  {
    if 'A' <= c <= 'Z' then (c as int + 32) as char else c
  }

  function Lower(s: string): (r: string)
    ensures |r| == |s|
    ensures forall i :: 0 <= i < |s| ==> r[i] == LowerChar(s[i])
  {
    if |s| == 0 then "" else [LowerChar(s[0])] + Lower(s[1..])
  }

  lemma LowerIdempotent(s: string)
    ensures Lower(Lower(s)) == Lower(s)
  {
  }

  // ---------------------------------------------------------------------
  // Searching

  /** `needle` occurs in `hay` starting at index `i`. */
  ghost predicate OccursAt(hay: string, needle: string, i: int)
  {
    0 <= i && i + |needle| <= |hay| && hay[i..i + |needle|] == needle
  }

  /** `hay.indexOf(needle)`: the first index at which `needle` occurs, if any. */
  function IndexOf(hay: string, needle: string): (r: Option<nat>)
    ensures r.Some? ==> OccursAt(hay, needle, r.value)
    ensures r.Some? ==> forall j :: 0 <= j < r.value ==> !OccursAt(hay, needle, j)
    ensures r.None? ==> forall j :: !OccursAt(hay, needle, j)
    decreases |hay|
  {
    if needle <= hay then
      assert hay[0..|needle|] == needle;
      Some(0)
    else if |hay| == 0 then
      None
    else
      OccursAtTail(hay, needle);
      match IndexOf(hay[1..], needle)
      case Some(k) => Some(k + 1)
      case None => None
  }

  /** Occurrences in `hay[1..]` are the occurrences in `hay` one place further on. */
  lemma OccursAtTail(hay: string, needle: string)
    requires |hay| > 0 && !(needle <= hay)
    ensures !OccursAt(hay, needle, 0)
    ensures forall j :: 1 <= j ==> (OccursAt(hay, needle, j) <==> OccursAt(hay[1..], needle, j - 1))
  {
    forall j | 1 <= j
      ensures OccursAt(hay, needle, j) <==> OccursAt(hay[1..], needle, j - 1)
    {
      if j + |needle| <= |hay| {
        assert hay[1..][j - 1..j - 1 + |needle|] == hay[j..j + |needle|];
      }
    }
  }

  /** `hay.includes(needle)`. */
  predicate Contains(hay: string, needle: string)
  {
    IndexOf(hay, needle).Some?
  }

  lemma ContainsIff(hay: string, needle: string)
    ensures Contains(hay, needle) <==> exists i :: OccursAt(hay, needle, i)
  {
  }

  /** The first index of the character `c` in `s`, or `|s|` when it does not occur. */
  function IndexOfChar(s: string, c: char): (r: nat)
    ensures r <= |s|
    ensures r < |s| ==> s[r] == c
  {
    if |s| == 0 || s[0] == c then 0 else 1 + IndexOfChar(s[1..], c)
  }

  /** `IndexOfChar` finds the first `c`: none comes before it. */
  lemma {:induction false} IndexOfCharFirst(s: string, c: char)
    ensures forall i :: 0 <= i < IndexOfChar(s, c) ==> s[i] != c
    decreases |s|
  {
    if |s| > 0 && s[0] != c {
      IndexOfCharFirst(s[1..], c);
      assert forall i :: 1 <= i < IndexOfChar(s, c) ==> s[i] == s[1..][i - 1];
    }
  }

  /** The first `c` of `a + [c] + b`, when `a` holds none, is the one after `a`. */
  lemma IndexOfCharAt(a: string, c: char, b: string)
    requires c !in a
    ensures IndexOfChar(a + [c] + b, c) == |a|
  {
    var s := a + [c] + b;
    IndexOfCharFirst(s, c);
    assert s[|a|] == c;
    assert forall i :: 0 <= i < |a| ==> s[i] == a[i];
  }

  /** `s.replace(pattern, rep)` with a string pattern: only the first occurrence
      is replaced, and nothing changes when there is none. */
  function ReplaceFirst(s: string, pattern: string, rep: string): (r: string)
    ensures IndexOf(s, pattern).None? ==> r == s
  {
    match IndexOf(s, pattern)
    case None => s
    case Some(i) => s[..i] + rep + s[i + |pattern|..]
  }

  /** Removing a prefix the string is known to start with leaves the rest. */
  lemma ReplaceFirstPrefix(s: string, pattern: string)
    requires pattern <= s
    ensures ReplaceFirst(s, pattern, "") == s[|pattern|..]
  {
    assert OccursAt(s, pattern, 0) by {
      assert s[0..|pattern|] == pattern;
    }
    assert IndexOf(s, pattern) == Some(0);
  }

  // ---------------------------------------------------------------------
  // split and join

  /** `xs.join(sep)`. */
  function Join(xs: seq<string>, sep: string): string
  {
    if |xs| == 0 then ""
    else if |xs| == 1 then xs[0]
    else xs[0] + sep + Join(xs[1..], sep)
  }

  /** `s.split(sep)` for a one-character separator: the maximal pieces
      between separators, always at least one (`"".split(sep)` is `[""]`). */
  function Split(s: string, sep: char): (r: seq<string>)
    ensures |r| >= 1
    ensures forall k :: 0 <= k < |r| ==> sep !in r[k]
    ensures Join(r, [sep]) == s
    decreases |s|
  {
    var i := IndexOfChar(s, sep);
    IndexOfCharFirst(s, sep);
    if i == |s| then
      assert sep !in s;
      [s]
    else
      var rest := Split(s[i + 1..], sep);
      assert s == s[..i] + [sep] + s[i + 1..];
      [s[..i]] + rest
  }

  /** The first separator of `a + [sep] + b` is the one after `a`. */
  lemma IndexOfCharAfter(a: string, sep: char, b: string)
    requires sep !in a
    ensures IndexOfChar(a + [sep] + b, sep) == |a|
  {
    var s := a + [sep] + b;
    IndexOfCharFirst(s, sep);
    assert s[|a|] == sep;
    forall j | 0 <= j < |a|
      ensures s[j] != sep
    {
      assert s[j] == a[j];
    }
  }

  /** Splitting undoes joining when no piece holds the separator. */
  lemma {:induction false} SplitJoin(xs: seq<string>, sep: char)
    requires |xs| >= 1
    requires forall k :: 0 <= k < |xs| ==> sep !in xs[k]
    ensures Split(Join(xs, [sep]), sep) == xs
    decreases |xs|
  {
    if |xs| > 1 {
      var tail := Join(xs[1..], [sep]);
      var s := xs[0] + [sep] + tail;
      assert Join(xs, [sep]) == s;
      IndexOfCharAfter(xs[0], sep, tail);
      var i := |xs[0]|;
      assert s[..i] == xs[0] && s[i + 1..] == tail;
      SplitJoin(xs[1..], sep);
      assert Split(s, sep) == [xs[0]] + Split(tail, sep);
      assert [xs[0]] + xs[1..] == xs;
    }
  }

  // ---------------------------------------------------------------------
  // UTF-16 code units and the default sort order

  /** The UTF-16 code units of one character. */
  function CharUnits(c: char): (u: seq<int>)
    ensures 1 <= |u| <= 2
    ensures |u| == 1 <==> c as int < 0x1_0000
    ensures |u| == 1 ==> u[0] == c as int
    ensures |u| == 2 ==> 0xD800 <= u[0] < 0xDC00 <= u[1] < 0xE000
  {
    var v := c as int;
    if v < 0x1_0000 then [v]
    else [0xD800 + (v - 0x1_0000) / 0x400, 0xDC00 + (v - 0x1_0000) % 0x400]
  }

  /** The UTF-16 code units of a string: JavaScript's own view of it. */
  function CodeUnits(s: string): seq<int>
  {
    if |s| == 0 then [] else CharUnits(s[0]) + CodeUnits(s[1..])
  }

  /** Two characters with the same leading code unit are the same character;
      the units of one never extend those of another. */
  lemma CharUnitsInjective(c: char, d: char, rest1: seq<int>, rest2: seq<int>)
    requires CharUnits(c) + rest1 == CharUnits(d) + rest2
    ensures c == d && rest1 == rest2
  {
    var u, w := CharUnits(c), CharUnits(d);
    assert (u + rest1)[0] == u[0] && (w + rest2)[0] == w[0];
    if |u| == 1 {
      assert |w| == 1;
      assert u[0] == w[0];
    } else {
      assert |w| == 2;
      assert (u + rest1)[1] == u[1] && (w + rest2)[1] == w[1];
      var v, x := c as int - 0x1_0000, d as int - 0x1_0000;
      assert v / 0x400 == x / 0x400 && v % 0x400 == x % 0x400;
      assert v == (v / 0x400) * 0x400 + v % 0x400;
      assert x == (x / 0x400) * 0x400 + x % 0x400;
    }
    assert u == w;
    assert rest1 == (u + rest1)[|u|..];
    assert rest2 == (w + rest2)[|w|..];
  }

  /** Different strings have different code-unit sequences. */
  lemma {:induction false} CodeUnitsInjective(a: string, b: string)
    requires CodeUnits(a) == CodeUnits(b)
    ensures a == b
    decreases |a|
  {
    if |a| > 0 && |b| > 0 {
      CharUnitsInjective(a[0], b[0], CodeUnits(a[1..]), CodeUnits(b[1..]));
      CodeUnitsInjective(a[1..], b[1..]);
      assert a == [a[0]] + a[1..] && b == [b[0]] + b[1..];
    }
  }

  /** Lexicographic order on integer sequences, a prefix coming first. */
  predicate LexLe(u: seq<int>, w: seq<int>)
  {
    |u| == 0 || (|w| > 0 && (u[0] < w[0] || (u[0] == w[0] && LexLe(u[1..], w[1..]))))
  }

  lemma {:induction false} LexLeTotal(u: seq<int>, w: seq<int>)
    ensures LexLe(u, w) || LexLe(w, u)
    decreases |u|
  {
    if |u| > 0 && |w| > 0 && u[0] == w[0] {
      LexLeTotal(u[1..], w[1..]);
    }
  }

  lemma {:induction false} LexLeTransitive(u: seq<int>, v: seq<int>, w: seq<int>)
    requires LexLe(u, v) && LexLe(v, w)
    ensures LexLe(u, w)
    decreases |u|
  {
    if |u| > 0 && u[0] == v[0] && v[0] == w[0] {
      LexLeTransitive(u[1..], v[1..], w[1..]);
    }
  }

  lemma {:induction false} LexLeAntisymmetric(u: seq<int>, w: seq<int>)
    requires LexLe(u, w) && LexLe(w, u)
    ensures u == w
    decreases |u|
  {
    if |u| > 0 {
      LexLeAntisymmetric(u[1..], w[1..]);
      assert u == [u[0]] + u[1..] && w == [w[0]] + w[1..];
    }
  }

  /** The comparison of the default `Array.prototype.sort()`: strings ordered
      by their UTF-16 code units. */
  predicate CodeUnitLe(a: string, b: string)
  {
    LexLe(CodeUnits(a), CodeUnits(b))
  }

  /** The code-unit order is a total order on strings. */
  lemma CodeUnitLeTotalOrder(a: string, b: string, c: string)
    ensures CodeUnitLe(a, b) || CodeUnitLe(b, a)
    ensures CodeUnitLe(a, b) && CodeUnitLe(b, c) ==> CodeUnitLe(a, c)
    ensures CodeUnitLe(a, b) && CodeUnitLe(b, a) ==> a == b
  {
    LexLeTotal(CodeUnits(a), CodeUnits(b));
    if CodeUnitLe(a, b) && CodeUnitLe(b, c) {
      LexLeTransitive(CodeUnits(a), CodeUnits(b), CodeUnits(c));
    }
    if CodeUnitLe(a, b) && CodeUnitLe(b, a) {
      LexLeAntisymmetric(CodeUnits(a), CodeUnits(b));
      CodeUnitsInjective(a, b);
    }
  }
}
