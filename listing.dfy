/**
 * One result-listing page as the scraper sees it once fetched and parsed:
 * the `href` of each `resItemTable` item (`None` where `book.h3.a['href']`
 * raises) and the `href` of the paginator's first anchor (`None` where the
 * paginator `div`, its anchor or the attribute is missing).
 */
module Listing {
  import opened Wrappers
  import opened Numerals
  import opened Urls

  datatype ListingPage = ListingPage(items: seq<Option<string>>, paginatorHref: Option<string>)

  /** The links one item contributes: its resolved URL, or nothing when its lookup raised. */
  function ItemLinks(item: Option<string>): seq<string>
  {
    match item
    case None => []
    case Some(href) => [Base + href]
  }

  /** The detail links of one page, in document order, with failing items skipped. */
  function PageLinks(items: seq<Option<string>>): (r: seq<string>)
    ensures |r| <= |items|
  {
    if items == [] then []
    else ItemLinks(items[0]) + PageLinks(items[1..])
  }

  /** Every extracted link starts with the site prefix. */
  lemma {:induction false} PageLinksPrefix(items: seq<Option<string>>)
    ensures forall i :: 0 <= i < |PageLinks(items)| ==> StartsWith(PageLinks(items)[i], Base)
  {
    if items != [] {
      PageLinksPrefix(items[1..]);
      var head, tail := ItemLinks(items[0]), PageLinks(items[1..]);
      assert forall i :: |head| <= i < |head| + |tail| ==> (head + tail)[i] == tail[i - |head|];
    }
  }

  /** Number of items whose `href` lookup succeeds. */
  function CountPresent(items: seq<Option<string>>): nat
  {
    if items == [] then 0 else (if items[0].Some? then 1 else 0) + CountPresent(items[1..])
  }

  /** Extraction is item by item: the links of two runs of items are concatenated. */
  lemma {:induction false} PageLinksAppend(a: seq<Option<string>>, b: seq<Option<string>>)
    ensures PageLinks(a + b) == PageLinks(a) + PageLinks(b)
  {
    if a == [] {
      assert a + b == b;
    } else {
      assert (a + b)[1..] == a[1..] + b;
      PageLinksAppend(a[1..], b);
    }
  }

  /** Extending the examined items by one adds that item's links at the end. */
  lemma PageLinksStep(items: seq<Option<string>>, i: nat)
    requires i < |items|
    ensures PageLinks(items[..i + 1]) == PageLinks(items[..i]) + ItemLinks(items[i])
  {
    var one := [items[i]];
    assert items[..i + 1] == items[..i] + one;
    PageLinksAppend(items[..i], one);
    assert PageLinks(one) == ItemLinks(items[i]) by {
      assert one[1..] == [];
    }
  }

  /** One link per item that has an `href`, no more and no fewer. */
  lemma {:induction false} PageLinksCount(items: seq<Option<string>>)
    ensures |PageLinks(items)| == CountPresent(items)
  {
    if items != [] {
      PageLinksCount(items[1..]);
    }
  }

  /** A failing item is skipped and the items after it are still extracted. */
  lemma PageLinksSkip(before: seq<Option<string>>, after: seq<Option<string>>)
    ensures PageLinks(before + [None] + after) == PageLinks(before) + PageLinks(after)
  {
    var none: seq<Option<string>> := [None];
    assert PageLinks(none) == [] by {
      assert none[1..] == [];
      assert PageLinks(none) == ItemLinks(None) + PageLinks([]);
    }
    PageLinksAppend(before, none);
    PageLinksAppend(before + none, after);
    assert PageLinks(before + none) == PageLinks(before);
  }

  /** A link is extracted exactly when some item carries the `href` it was built from. */
  lemma {:induction false} PageLinksMembership(items: seq<Option<string>>, url: string)
    ensures url in PageLinks(items) <==>
            exists i :: 0 <= i < |items| && items[i].Some? && url == Base + items[i].value
  {
    if items != [] {
      PageLinksMembership(items[1..], url);
      if exists i :: 0 <= i < |items[1..]| && items[1..][i].Some? && url == Base + items[1..][i].value {
        var i :| 0 <= i < |items[1..]| && items[1..][i].Some? && url == Base + items[1..][i].value;
        assert items[i + 1] == items[1..][i];
      }
      if exists i :: 0 <= i < |items| && items[i].Some? && url == Base + items[i].value {
        var i :| 0 <= i < |items| && items[i].Some? && url == Base + items[i].value;
        if i > 0 {
          assert items[1..][i - 1] == items[i];
        }
      }
    }
  }

  /** When every item has an `href`, link `i` is the site prefix followed by item `i`'s `href`. */
  lemma {:induction false} PageLinksAllPresent(items: seq<Option<string>>)
    requires forall i :: 0 <= i < |items| ==> items[i].Some?
    ensures |PageLinks(items)| == |items|
    ensures forall i :: 0 <= i < |items| ==> PageLinks(items)[i] == Base + items[i].value
  {
    if items != [] {
      PageLinksAllPresent(items[1..]);
      assert forall i :: 1 <= i < |items| ==> items[i] == items[1..][i - 1];
    }
  }

  /** What the paginator says about the walk. */
  datatype Pagination =
    | Missing           // no paginator `div`, no anchor, or no `href`: the lookup raises
    | NotAnInteger      // the token fails `int()`: the walk stops normally
    | Next(page: int)   // the token is an integer: the page to request next

  /** The next-page decision of one listing page. */
  function Paginate(listing: ListingPage): Pagination
  {
    match listing.paginatorHref
    case None => Missing
    case Some(href) =>
      match ParseInt(NextPageToken(href))
      case None => NotAnInteger
      case Some(n) => Next(n)
  }

  /**
   * The three outcomes in terms of the paginator link: no link raises; a link
   * whose token (a suffix free of `?` and `=`) is an integer literal gives that
   * integer; any other token ends the walk.
   */
  lemma PaginateCases(listing: ListingPage)
    ensures Paginate(listing) == Missing <==> listing.paginatorHref.None?
    ensures Paginate(listing) == NotAnInteger <==>
              listing.paginatorHref.Some? && !IsIntLiteral(NextPageToken(listing.paginatorHref.value))
    ensures Paginate(listing).Next? ==>
              var token := NextPageToken(listing.paginatorHref.value);
              IsIntLiteral(token) && IsSuffix(token, listing.paginatorHref.value) &&
              Lacks(token, '?') && Lacks(token, '=') && ParseInt(token) == Some(Paginate(listing).page)
  {
  }

  /**
   * The next page is the number in the paginator's link, not the current page
   * plus one: a paginator link in the scraper's own URL form leads to the page
   * written in it.
   */
  lemma PaginateSearchLink(keyword: string, page: int, items: seq<Option<string>>)
    ensures Paginate(ListingPage(items, Some(SearchLink(keyword, page)))) == Next(page)
  {
    SearchLinkToken(keyword, page);
  }
}
