/**
 * `BooksScraper`: the object holding the encoded keyword, the current page and
 * the current search link, and its `get_books_urls` loop, which updates the
 * page and link in place while it walks the listing pages.
 */
module Scraper {
  import opened Wrappers
  import opened Keyword
  import opened Urls
  import opened Listing
  import opened PageWalk

  /**
   * The inner `for book in books` loop: appends the resolved link of each item
   * whose `href` lookup succeeds, in document order, and skips the others.
   */
  method CollectPageLinks(booksUrls: seq<string>, items: seq<Option<string>>) returns (out: seq<string>)
    ensures out == booksUrls + PageLinks(items)
  {
    out := booksUrls;
    for i := 0 to |items|
      invariant out == booksUrls + PageLinks(items[..i])
    {
      match items[i] {
        case None =>
        case Some(href) =>
          out := out + [Base + href];
      }
      PageLinksStep(items, i);
    }
    assert items[..|items|] == items;
  }

  class BooksScraper {
    var searchKeyword: string
    var page: int
    var searchLink: string

    /** The search link always points at the current page for the keyword. */
    ghost predicate Valid()
      reads this
    {
      searchLink == SearchLink(searchKeyword, page)
    }

    /** Encodes the keyword and starts at page 1. */
    constructor (keyword: string)
      ensures searchKeyword == Encode(keyword)
      ensures page == 1
      ensures searchLink == SearchLink(Encode(keyword), 1)
      ensures Valid()
    {
      var encoded := Encode(keyword);
      searchKeyword := encoded;
      page := 1;
      searchLink := SearchLink(encoded, 1);
    }

    /**
     * Requests listing pages from `site`, collecting the detail links of each,
     * until a page's next-page token is not an integer. At most `fuel` pages
     * are requested.
     */
    method GetBooksUrls(site: Site, fuel: nat) returns (result: Result<seq<string>, WalkError>)
      requires Valid()
      modifies this
      ensures Valid() && searchKeyword == old(searchKeyword)
      ensures result == Outcome(Walk(Paginate, old(searchKeyword), old(page), site, fuel))
      ensures page == Walk(Paginate, old(searchKeyword), old(page), site, fuel).lastPage
    {
      result := FollowPages(Paginate, site, fuel);
    }

    /**
     * The loop of `GetBooksUrls`, written for any rule that reads a listing's
     * paginator; `GetBooksUrls` runs it with `Paginate`.
     */
    method FollowPages(rule: ListingPage -> Pagination, site: Site, fuel: nat) returns (result: Result<seq<string>, WalkError>)
      requires Valid()
      modifies this
      ensures Valid() && searchKeyword == old(searchKeyword)
      ensures result == Outcome(Walk(rule, old(searchKeyword), old(page), site, fuel))
      ensures page == Walk(rule, old(searchKeyword), old(page), site, fuel).lastPage
    {
      var booksUrls: seq<string> := [];
      ghost var visited: seq<int> := [];
      var left := fuel;
      while true
        invariant Valid() && searchKeyword == old(searchKeyword)
        invariant Resume(visited, booksUrls, Walk(rule, searchKeyword, page, site, left)) ==
                  Walk(rule, old(searchKeyword), old(page), site, fuel)
        decreases left
      {
        ghost var url := SearchLink(searchKeyword, page);
        assert searchLink == url;
        WalkLast(rule, searchKeyword, page, site, left);
        if left == 0 {
          result := Err(OutOfFuel);
          return;
        }
        if searchLink !in site {
          result := Err(ConnectionFailed);
          return;
        }
        var listing := site[searchLink];
        assert listing == site[url];
        ghost var before := booksUrls;
        booksUrls := CollectPageLinks(booksUrls, listing.items);
        match rule(listing) {
          case Missing =>
            result := Err(PaginatorMissing);
            return;
          case NotAnInteger =>
            result := Ok(booksUrls);
            break;
          case Next(n) =>
            WalkNext(rule, searchKeyword, page, site, left, n);
            ResumeResume(visited, before, [page], PageLinks(listing.items), Walk(rule, searchKeyword, n, site, left - 1));
            visited := visited + [page];
            page := n;
            searchLink := SearchLink(searchKeyword, page);
            left := left - 1;
        }
      }
    }
  }
}
