/** Facts about generated markup that every HTML-producing part of the model
    shares: "each occurrence of a character begins one of a fixed set of
    words" (each `<` begins a tag the script wrote, each `&` begins an
    entity), and the number of occurrences of a tag in a string. */
module Markup {

  /** `s` begins with one of `words`. */
  ghost predicate Opens(s: string, words: set<string>)
  {
    exists w :: w in words && w <= s
  }

  /** Every occurrence of `c` in `s` begins one of `words`. */
  ghost predicate OnlyOpens(s: string, c: char, words: set<string>)
  {
    forall i :: 0 <= i < |s| && s[i] == c ==> Opens(s[i..], words)
  }

  /** No word contains the character `d`. */
  ghost predicate Avoids(words: set<string>, d: char)
  {
    forall w :: w in words ==> d !in w
  }

  lemma OnlyOpensAbsent(s: string, c: char, words: set<string>)
    requires c !in s
    ensures OnlyOpens(s, c, words)
  {
  }

  lemma OnlyOpensWiden(s: string, c: char, words: set<string>, more: set<string>)
    requires OnlyOpens(s, c, words) && words <= more
    ensures OnlyOpens(s, c, more)
  {
    forall i | 0 <= i < |s| && s[i] == c
      ensures Opens(s[i..], more)
    {
      var w :| w in words && w <= s[i..];
    }
  }

  /** A word that `s` starts with is still a prefix once more text follows. */
  lemma OpensAppend(s: string, t: string, words: set<string>)
    requires Opens(s, words)
    ensures Opens(s + t, words)
  {
    var w :| w in words && w <= s;
    assert (s + t)[..|w|] == s[..|w|];
  }

  /** A tag starts with `<` and holds no other `<`, so it is safe on its own. */
  lemma TagAlone(t: string, words: set<string>)
    requires t in words && |t| > 0 && t[0] == '<'
    requires forall i :: 1 <= i < |t| ==> t[i] != '<'
    ensures OnlyOpens(t, '<', words)
  {
    assert t <= t;
  }

  lemma OnlyOpensAppend(a: string, b: string, c: char, words: set<string>)
    requires OnlyOpens(a, c, words) && OnlyOpens(b, c, words)
    ensures OnlyOpens(a + b, c, words)
  {
    var s := a + b;
    forall i | 0 <= i < |s| && s[i] == c
      ensures Opens(s[i..], words)
    {
      if i < |a| {
        assert s[i..] == a[i..] + b;
        OpensAppend(a[i..], b, words);
      } else {
        assert s[i..] == b[i - |a|..];
      }
    }
  }

  lemma OnlyOpensAppend3(a: string, b: string, d: string, c: char, words: set<string>)
    requires OnlyOpens(a, c, words) && OnlyOpens(b, c, words) && OnlyOpens(d, c, words)
    ensures OnlyOpens(a + b + d, c, words)
  {
    OnlyOpensAppend(a, b, c, words);
    OnlyOpensAppend(a + b, d, c, words);
  }

  /** A string starting with `x` keeps the property if `x` is harmless or opens a word. */
  lemma OnlyOpensCons(s: string, c: char, words: set<string>)
    requires |s| > 0
    requires s[0] == c ==> Opens(s, words)
    requires OnlyOpens(s[1..], c, words)
    ensures OnlyOpens(s, c, words)
  {
    forall i | 0 < i < |s| && s[i] == c
      ensures Opens(s[i..], words)
    {
      assert s[i..] == s[1..][i - 1..];
    }
  }

  lemma OnlyOpensSuffix(s: string, k: nat, c: char, words: set<string>)
    requires OnlyOpens(s, c, words) && k <= |s|
    ensures OnlyOpens(s[k..], c, words)
  {
    forall i | 0 <= i < |s| - k && s[k..][i] == c
      ensures Opens(s[k..][i..], words)
    {
      assert s[k..][i..] == s[k + i..];
    }
  }

  /** Cutting `s` just before a character no word contains cuts no word in two. */
  lemma OnlyOpensPrefix(s: string, j: nat, c: char, words: set<string>)
    requires OnlyOpens(s, c, words) && j < |s| && Avoids(words, s[j])
    ensures OnlyOpens(s[..j], c, words)
  {
    forall i | 0 <= i < j && s[..j][i] == c
      ensures Opens(s[..j][i..], words)
    {
      var w :| w in words && w <= s[i..];
      assert w <= s[..j][i..];
    }
  }

  /** The slice `s[k..j]` ending just before a character no word contains. */
  lemma OnlyOpensSlice(s: string, k: nat, j: nat, c: char, words: set<string>)
    requires OnlyOpens(s, c, words) && k <= j < |s| && Avoids(words, s[j])
    ensures OnlyOpens(s[k..j], c, words)
  {
    OnlyOpensPrefix(s, j, c, words);
    OnlyOpensSuffix(s[..j], k, c, words);
    assert s[..j][k..] == s[k..j];
  }

  // ---------------------------------------------------------------------
  // Counting occurrences of a tag

  /** The number of (possibly overlapping) occurrences of `p` in `s`. */
  function Count(s: string, p: string): nat
    decreases |s|
  {
    if |s| == 0 then 0 else (if p <= s then 1 else 0) + Count(s[1..], p)
  }

  /** A tag beginning with `<` and containing no other `<` cannot straddle the
      point where the text after it begins with `<`. */
  lemma {:induction false} CountAppend(a: string, b: string, p: string)
    requires |p| > 0 && p[0] == '<' && '<' !in p[1..]
    requires |b| == 0 || b[0] == '<'
    ensures Count(a + b, p) == Count(a, p) + Count(b, p)
    decreases |a|
  {
    if |a| > 0 {
      assert (a + b)[1..] == a[1..] + b;
      CountAppend(a[1..], b, p);
      assert |b| > 0 ==> (a + b)[|a|] == '<';
      assert !(p <= a + b && |p| > |a|);
      assert p <= a ==> p <= a + b;
    } else {
      assert a + b == b;
    }
  }

  /** A string where every `<` opens a word incompatible with `p` holds no `p`. */
  lemma {:induction false} CountNone(s: string, p: string, words: set<string>)
    requires |p| > 0 && p[0] == '<'
    requires OnlyOpens(s, '<', words)
    requires forall w :: w in words ==> !(w <= p) && !(p <= w)
    ensures Count(s, p) == 0
    decreases |s|
  {
    if |s| > 0 {
      OnlyOpensSuffix(s, 1, '<', words);
      CountNone(s[1..], p, words);
    }
  }

  /** A tag containing `>` only at its end cannot straddle the point where
      text ending in `>` stops. */
  lemma {:induction false} CountAppendClosed(a: string, b: string, p: string)
    requires |p| > 0 && '>' !in p[..|p| - 1]
    requires |a| == 0 || a[|a| - 1] == '>'
    ensures Count(a + b, p) == Count(a, p) + Count(b, p)
    decreases |a|
  {
    if |a| > 0 {
      assert (a + b)[1..] == a[1..] + b;
      CountAppendClosed(a[1..], b, p);
      if 1 < |p| && |p| > |a| {
        assert p[..|p| - 1][|a| - 1] == p[|a| - 1];
        assert (a + b)[|a| - 1] == '>';
        assert !(p <= a + b);
      }
      assert p <= a ==> p <= a + b;
    } else {
      assert a + b == b;
    }
  }

  lemma {:induction false} CountAbsent(s: string, p: string)
    requires |p| > 0 && p[0] !in s
    ensures Count(s, p) == 0
    decreases |s|
  {
    if |s| > 0 {
      CountAbsent(s[1..], p);
    }
  }

  /** A tag that is not `p` and has no second `<` holds no `p`. */
  lemma CountOther(s: string, p: string)
    requires |s| > 0 && |p| > 0 && p[0] !in s[1..] && !(p <= s)
    ensures Count(s, p) == 0
  {
    CountAbsent(s[1..], p);
  }
}
