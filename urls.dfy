/**
 * The URLs the scraper builds and the page token it reads back from the
 * paginator link.
 */
module Urls {
  import opened Wrappers
  import opened Numerals

  /** The site every link and request URL starts with. */
  const Base: string := "https://my1lib.org"

  predicate StartsWith(s: string, prefix: string)
  {
    |prefix| <= |s| && s[..|prefix|] == prefix
  }

  /** `f'https://my1lib.org/s/{keyword}?page={page}'` */
  function SearchLink(keyword: string, page: int): string
  {
    Base + "/s/" + keyword + "?page=" + IntToString(page)
  }

  /** `s` has no occurrence of `c`. */
  predicate Lacks(s: string, c: char)
  {
    forall i :: 0 <= i < |s| ==> s[i] != c
  }

  /** `t` is a (possibly empty, possibly whole) suffix of `s`. */
  predicate IsSuffix(t: string, s: string)
  {
    |t| <= |s| && t == s[|s| - |t|..]
  }

  /** `s.split(c)` for a one-character separator: the pieces between occurrences of `c`. */
  function Split(s: string, c: char): (r: seq<string>)
    ensures |r| >= 1
    ensures forall i :: 0 <= i < |r| ==> Lacks(r[i], c)
  {
    if s == [] then [[]]
    else
      var rest := Split(s[1..], c);
      if s[0] == c then [[]] + rest
      else [[s[0]] + rest[0]] + rest[1..]
  }

  /** Joining the pieces with the separator gives the string back. */
  function Join(parts: seq<string>, c: char): string
    requires |parts| >= 1
  {
    if |parts| == 1 then parts[0] else parts[0] + [c] + Join(parts[1..], c)
  }

  /** `split` loses nothing: `c.join(s.split(c)) == s`. */
  lemma {:induction false} SplitJoin(s: string, c: char)
    ensures Join(Split(s, c), c) == s
  {
    if s != [] {
      SplitJoin(s[1..], c);
      var rest := Split(s[1..], c);
      if s[0] == c {
        assert ([[]] + rest)[1..] == rest;
      } else {
        var r := [[s[0]] + rest[0]] + rest[1..];
        if |rest| > 1 {
          assert r[1..] == rest[1..];
          assert Join(rest, c) == rest[0] + [c] + Join(rest[1..], c);
        }
      }
    }
  }

  /** Without any `c`, `split` returns the whole string as its only piece. */
  lemma {:induction false} SplitWhole(s: string, c: char)
    requires Lacks(s, c)
    ensures Split(s, c) == [s]
  {
    if s != [] {
      SplitWhole(s[1..], c);
      assert [s[0]] + s[1..] == s;
    }
  }

  /** A single piece means there was no separator. */
  lemma {:induction false} SplitSingle(s: string, c: char)
    requires |Split(s, c)| == 1
    ensures Lacks(s, c)
  {
    if s != [] {
      SplitSingle(s[1..], c);
    }
  }

  /** `s.split(c)[-1]`. */
  function LastPiece(s: string, c: char): string
  {
    var pieces := Split(s, c);
    pieces[|pieces| - 1]
  }

  /** Index of the last `c` among the first `n` characters of `s`, or -1 when there is none. */
  function LastBefore(s: string, c: char, n: nat): (k: int)
    requires n <= |s|
    ensures -1 <= k < n
  {
    if n == 0 then -1
    else if s[n - 1] == c then n - 1
    else LastBefore(s, c, n - 1)
  }

  /** `LastBefore` finds a `c`, and no `c` lies after it. */
  lemma {:induction false} LastBeforeSpec(s: string, c: char, n: nat)
    requires n <= |s|
    ensures var k := LastBefore(s, c, n);
            (k >= 0 ==> s[k] == c) && (forall j :: k < j < n ==> s[j] != c)
  {
    if n > 0 && s[n - 1] != c {
      LastBeforeSpec(s, c, n - 1);
    }
  }

  /** `s.split(c)[-1]` computed from the end: the characters after the last `c`. */
  function AfterLast(s: string, c: char): string
  {
    s[LastBefore(s, c, |s|) + 1..]
  }

  /**
   * What `AfterLast` returns: a suffix of `s` without `c` that is either all
   * of `s` or preceded by a `c`.
   */
  lemma AfterLastSpec(s: string, c: char)
    ensures Lacks(AfterLast(s, c), c)
    ensures IsSuffix(AfterLast(s, c), s)
    ensures |AfterLast(s, c)| < |s| ==> s[|s| - |AfterLast(s, c)| - 1] == c
  {
    var k := LastBefore(s, c, |s|);
    LastBeforeSpec(s, c, |s|);
    var r := s[k + 1..];
    assert forall i :: 0 <= i < |r| ==> r[i] == s[k + 1 + i];
  }

  /** Without any `c`, nothing is cut off. */
  lemma AfterLastWhole(s: string, c: char)
    requires Lacks(s, c)
    ensures AfterLast(s, c) == s
  {
    AfterLastSpec(s, c);
  }

  /** The properties in `AfterLastSpec` determine the result: no other suffix has them. */
  lemma AfterLastUnique(s: string, c: char, t: string)
    requires IsSuffix(t, s) && Lacks(t, c)
    requires |t| < |s| ==> s[|s| - |t| - 1] == c
    ensures t == AfterLast(s, c)
  {
    AfterLastSpec(s, c);
  }

  /** `AfterLast` is the last piece of Python's `split`. */
  lemma {:induction false} AfterLastIsLastPiece(s: string, c: char)
    ensures AfterLast(s, c) == LastPiece(s, c)
  {
    if s != [] {
      AfterLastIsLastPiece(s[1..], c);
      AfterLastSpec(s[1..], c);
      var rest := Split(s[1..], c);
      var t := AfterLast(s[1..], c);
      if s[0] == c {
        assert Split(s, c) == [[]] + rest;
        AfterLastUnique(s, c, t);
      } else if |t| < |s| - 1 {
        assert Split(s, c) == [[s[0]] + rest[0]] + rest[1..];
        assert |rest| >= 2 by {
          if |rest| == 1 {
            SplitSingle(s[1..], c);
          }
        }
        AfterLastUnique(s, c, t);
      } else {
        assert t == s[1..];
        assert Lacks(s, c);
        AfterLastWhole(s, c);
        SplitWhole(s, c);
      }
    }
  }

  /** A suffix of a suffix is a suffix. */
  lemma SuffixTransitive(u: string, t: string, s: string)
    requires IsSuffix(u, t) && IsSuffix(t, s)
    ensures IsSuffix(u, s)
  {
  }

  /** A suffix of a string without `c` has no `c` either. */
  lemma SuffixLacks(t: string, s: string, c: char)
    requires IsSuffix(t, s) && Lacks(s, c)
    ensures Lacks(t, c)
  {
  }

  /** `href.split('?')[-1].split('=')[-1]`: the next-page token of a paginator link. */
  function NextPageToken(href: string): string
  {
    AfterLast(AfterLast(href, '?'), '=')
  }

  /**
   * The token is a suffix of the link that contains neither `?` nor `=`, and
   * it is the whole link when the link has neither.
   */
  lemma NextPageTokenSpec(href: string)
    ensures var r := NextPageToken(href);
            Lacks(r, '?') && Lacks(r, '=') && IsSuffix(r, href) &&
            (Lacks(href, '?') && Lacks(href, '=') ==> r == href)
  {
    var query := AfterLast(href, '?');
    var r := AfterLast(query, '=');
    AfterLastSpec(href, '?');
    AfterLastSpec(query, '=');
    SuffixLacks(r, query, '?');
    SuffixTransitive(r, query, href);
    if Lacks(href, '?') && Lacks(href, '=') {
      AfterLastWhole(href, '?');
      AfterLastWhole(query, '=');
    }
  }

  /** The token is the last piece after splitting on `?`, then on `=`. */
  lemma NextPageTokenIsPythonSplit(href: string)
    ensures NextPageToken(href) == LastPiece(LastPiece(href, '?'), '=')
  {
    AfterLastIsLastPiece(href, '?');
    AfterLastIsLastPiece(AfterLast(href, '?'), '=');
  }

  /**
   * A paginator link written in the scraper's own search-link form yields the
   * page number it was written with, whatever the keyword contains.
   */
  lemma SearchLinkToken(keyword: string, page: int)
    ensures NextPageToken(SearchLink(keyword, page)) == IntToString(page)
    ensures ParseInt(NextPageToken(SearchLink(keyword, page))) == Some(page)
  {
    var link := SearchLink(keyword, page);
    var digits := IntToString(page);
    var query := "page=" + digits;
    assert link == (Base + "/s/" + keyword + "?") + query;
    assert link[|link| - |query| - 1] == '?';
    assert Lacks(digits, '?') && Lacks(digits, '=');
    assert Lacks(query, '?') by {
      assert forall i | 5 <= i < |query| :: query[i] == digits[i - 5];
    }
    AfterLastUnique(link, '?', query);
    assert query[|query| - |digits| - 1] == '=';
    AfterLastUnique(query, '=', digits);
    ParsePrintRoundTrip(page);
  }
}
