/**
 * The pagination walk of `get_books_urls`, as a function of the site's
 * responses. The site is a map from request URL to the parsed listing page
 * it returns; a URL outside the map is a request that raises. The loop's
 * `while True` has no bound, so the walk takes a fuel argument: each page
 * request costs one unit, and running out means `get_books_urls` would still
 * be looping.
 */
module PageWalk {
  import opened Wrappers
  import opened Urls
  import opened Listing

  /** The site's answer to each URL that can be fetched. */
  type Site = map<string, ListingPage>

  /** Why the walk stopped. */
  datatype Stop =
    | TokenNotInteger    // `int()` raised on the token: `break`
    | NoPaginator        // the paginator lookup raised
    | RequestFailed      // `requests.get` raised
    | FuelExhausted      // `get_books_urls` would go on requesting pages

  /**
   * What the loop did: the pages fetched and parsed, in request order, the
   * links collected from them, why it stopped, and the value of `page` then.
   */
  datatype Run = Run(visited: seq<int>, collected: seq<string>, stop: Stop, lastPage: int)

  /** What `get_books_urls` raises instead of returning. */
  datatype WalkError = ConnectionFailed | PaginatorMissing | OutOfFuel

  /** Put the pages and links of earlier iterations in front of a run. */
  function Resume(visited: seq<int>, collected: seq<string>, rest: Run): Run
  {
    Run(visited + rest.visited, collected + rest.collected, rest.stop, rest.lastPage)
  }

  /**
   * The loop, started with `page` as the current page and `keyword` already
   * encoded. `rule` is what a parsed page says about the next page; the
   * scraper's rule is `Listing.Paginate` (the lemmas below hold for any rule,
   * so they do not depend on how the token is read).
   */
  function Walk(rule: ListingPage -> Pagination, keyword: string, page: int, site: Site, fuel: nat): (r: Run)
    ensures |r.visited| <= fuel
    ensures r.visited != [] ==> r.visited[0] == page
    decreases fuel
  {
    if fuel == 0 then Run([], [], FuelExhausted, page)
    else
      var url := SearchLink(keyword, page);
      if url !in site then Run([], [], RequestFailed, page)
      else
        var links := PageLinks(site[url].items);
        match rule(site[url])
        case Missing => Run([page], links, NoPaginator, page)
        case NotAnInteger => Run([page], links, TokenNotInteger, page)
        case Next(n) =>
          Resume([page], links, Walk(rule, keyword, n, site, fuel - 1))
  }

  /** Earlier iterations can be put in front one at a time or all together. */
  lemma ResumeResume(visited: seq<int>, collected: seq<string>, visited': seq<int>, collected': seq<string>, rest: Run)
    ensures Resume(visited, collected, Resume(visited', collected', rest)) ==
            Resume(visited + visited', collected + collected', rest)
  {
  }

  /** Unfolding one iteration that moves on to page `n`. */
  lemma WalkNext(rule: ListingPage -> Pagination, keyword: string, page: int, site: Site, fuel: nat, n: int)
    requires fuel > 0 && SearchLink(keyword, page) in site
    requires rule(site[SearchLink(keyword, page)]) == Next(n)
    ensures Walk(rule, keyword, page, site, fuel) ==
            Resume([page], PageLinks(site[SearchLink(keyword, page)].items), Walk(rule, keyword, n, site, fuel - 1))
  {
  }

  /** Unfolding one iteration that ends the walk. */
  lemma WalkLast(rule: ListingPage -> Pagination, keyword: string, page: int, site: Site, fuel: nat)
    ensures fuel == 0 ==> Walk(rule, keyword, page, site, fuel) == Run([], [], FuelExhausted, page)
    ensures fuel > 0 && SearchLink(keyword, page) !in site ==>
              Walk(rule, keyword, page, site, fuel) == Run([], [], RequestFailed, page)
    ensures fuel > 0 && SearchLink(keyword, page) in site && rule(site[SearchLink(keyword, page)]) == Missing ==>
              Walk(rule, keyword, page, site, fuel) ==
              Run([page], PageLinks(site[SearchLink(keyword, page)].items), NoPaginator, page)
    ensures fuel > 0 && SearchLink(keyword, page) in site && rule(site[SearchLink(keyword, page)]) == NotAnInteger ==>
              Walk(rule, keyword, page, site, fuel) ==
              Run([page], PageLinks(site[SearchLink(keyword, page)].items), TokenNotInteger, page)
  {
  }

  /** What the method returns or raises at the end of a run. */
  function Outcome(r: Run): (o: Result<seq<string>, WalkError>)
    ensures o.Ok? <==> r.stop == TokenNotInteger
    ensures o.Ok? ==> o.value == r.collected
  {
    match r.stop
    case TokenNotInteger => Ok(r.collected)
    case NoPaginator => Err(PaginatorMissing)
    case RequestFailed => Err(ConnectionFailed)
    case FuelExhausted => Err(OutOfFuel)
  }

  /** Each of `pages` has a search link the site answers. */
  predicate AllFetched(keyword: string, site: Site, pages: seq<int>)
  {
    forall i :: 0 <= i < |pages| ==> SearchLink(keyword, pages[i]) in site
  }

  /** Each of `pages` after the first is the page its predecessor's paginator named. */
  predicate FollowsRule(rule: ListingPage -> Pagination, keyword: string, site: Site, pages: seq<int>)
  {
    forall i :: 0 <= i < |pages| - 1 ==>
      SearchLink(keyword, pages[i]) in site && rule(site[SearchLink(keyword, pages[i])]) == Next(pages[i + 1])
  }

  /** The links of the given pages, each page's in document order, concatenated in visit order. */
  function LinksOf(keyword: string, site: Site, pages: seq<int>): seq<string>
    requires AllFetched(keyword, site, pages)
  {
    if pages == [] then []
    else PageLinks(site[SearchLink(keyword, pages[0])].items) + LinksOf(keyword, site, pages[1..])
  }

  /** Every visited page was fetched from its search link. */
  lemma {:induction false} WalkFetched(rule: ListingPage -> Pagination, keyword: string, page: int, site: Site, fuel: nat)
    ensures AllFetched(keyword, site, Walk(rule, keyword, page, site, fuel).visited)
    decreases fuel
  {
    var r := Walk(rule, keyword, page, site, fuel);
    if fuel > 0 && SearchLink(keyword, page) in site {
      match rule(site[SearchLink(keyword, page)])
      case Missing =>
      case NotAnInteger =>
      case Next(n) =>
        WalkFetched(rule, keyword, n, site, fuel - 1);
        var rest := Walk(rule, keyword, n, site, fuel - 1);
        assert r.visited == [page] + rest.visited;
        forall i | 0 <= i < |r.visited|
          ensures SearchLink(keyword, r.visited[i]) in site
        {
          if i > 0 {
            assert r.visited[i] == rest.visited[i - 1];
          } else {
            assert r.visited[i] == page;
          }
        }
    }
  }

  /** Each page after the first is the page the previous page's paginator named, not its successor. */
  lemma {:induction false} WalkChain(rule: ListingPage -> Pagination, keyword: string, page: int, site: Site, fuel: nat)
    ensures FollowsRule(rule, keyword, site, Walk(rule, keyword, page, site, fuel).visited)
    decreases fuel
  {
    var r := Walk(rule, keyword, page, site, fuel);
    if fuel > 0 && SearchLink(keyword, page) in site {
      match rule(site[SearchLink(keyword, page)])
      case Missing =>
      case NotAnInteger =>
      case Next(n) =>
        WalkChain(rule, keyword, n, site, fuel - 1);
        var rest := Walk(rule, keyword, n, site, fuel - 1);
        assert r.visited == [page] + rest.visited;
        forall i | 0 <= i < |r.visited| - 1
          ensures SearchLink(keyword, r.visited[i]) in site
          ensures rule(site[SearchLink(keyword, r.visited[i])]) == Next(r.visited[i + 1])
        {
          if i > 0 {
            assert r.visited[i] == rest.visited[i - 1];
            assert r.visited[i + 1] == rest.visited[i];
          } else {
            assert r.visited[1] == rest.visited[0] == n;
          }
        }
    }
  }

  /**
   * The collected list is the concatenation of the visited pages' links, in
   * visit order, the last page's included, with nothing removed.
   */
  lemma {:induction false} WalkCollected(rule: ListingPage -> Pagination, keyword: string, page: int, site: Site, fuel: nat)
    ensures AllFetched(keyword, site, Walk(rule, keyword, page, site, fuel).visited)
    ensures Walk(rule, keyword, page, site, fuel).collected ==
            LinksOf(keyword, site, Walk(rule, keyword, page, site, fuel).visited)
    decreases fuel
  {
    WalkFetched(rule, keyword, page, site, fuel);
    var r := Walk(rule, keyword, page, site, fuel);
    if fuel > 0 && SearchLink(keyword, page) in site {
      match rule(site[SearchLink(keyword, page)])
      case Missing =>
        assert r.visited[1..] == [];
      case NotAnInteger =>
        assert r.visited[1..] == [];
      case Next(n) =>
        WalkCollected(rule, keyword, n, site, fuel - 1);
        var rest := Walk(rule, keyword, n, site, fuel - 1);
        assert r.visited[1..] == rest.visited;
    }
  }

  /** Every returned URL starts with the site prefix. */
  lemma {:induction false} WalkPrefix(rule: ListingPage -> Pagination, keyword: string, page: int, site: Site, fuel: nat)
    ensures forall i :: 0 <= i < |Walk(rule, keyword, page, site, fuel).collected| ==>
              StartsWith(Walk(rule, keyword, page, site, fuel).collected[i], Base)
    decreases fuel
  {
    if fuel > 0 && SearchLink(keyword, page) in site {
      var links := PageLinks(site[SearchLink(keyword, page)].items);
      PageLinksPrefix(site[SearchLink(keyword, page)].items);
      match rule(site[SearchLink(keyword, page)])
      case Missing =>
      case NotAnInteger =>
      case Next(n) =>
        WalkPrefix(rule, keyword, n, site, fuel - 1);
        var rest := Walk(rule, keyword, n, site, fuel - 1).collected;
        var r := Walk(rule, keyword, page, site, fuel).collected;
        assert r == links + rest;
        forall i | 0 <= i < |r|
          ensures StartsWith(r[i], Base)
        {
          if i >= |links| {
            assert r[i] == rest[i - |links|];
          }
        }
    }
  }

  /**
   * How each stop comes about: a normal end and a missing paginator both
   * happen on the last visited page, after its links were collected; a failed
   * request happens on the page `page` was last set to, which was not visited.
   */
  lemma {:induction false} WalkStop(rule: ListingPage -> Pagination, keyword: string, page: int, site: Site, fuel: nat)
    ensures var r := Walk(rule, keyword, page, site, fuel);
            match r.stop
            case TokenNotInteger =>
              r.visited != [] && r.lastPage == r.visited[|r.visited| - 1] &&
              SearchLink(keyword, r.lastPage) in site &&
              rule(site[SearchLink(keyword, r.lastPage)]) == NotAnInteger
            case NoPaginator =>
              r.visited != [] && r.lastPage == r.visited[|r.visited| - 1] &&
              SearchLink(keyword, r.lastPage) in site &&
              rule(site[SearchLink(keyword, r.lastPage)]) == Missing
            case RequestFailed =>
              SearchLink(keyword, r.lastPage) !in site && |r.visited| < fuel &&
              (r.visited == [] ==> r.lastPage == page) &&
              (r.visited != [] ==>
                 SearchLink(keyword, r.visited[|r.visited| - 1]) in site &&
                 rule(site[SearchLink(keyword, r.visited[|r.visited| - 1])]) == Next(r.lastPage))
            case FuelExhausted =>
              |r.visited| == fuel
    decreases fuel
  {
    if fuel > 0 && SearchLink(keyword, page) in site {
      match rule(site[SearchLink(keyword, page)])
      case Missing =>
      case NotAnInteger =>
      case Next(n) =>
        WalkStop(rule, keyword, n, site, fuel - 1);
    }
  }

  /**
   * A token that fails `int()` ends the walk on the page it was read from: that
   * page's links are returned and no further request is made.
   */
  lemma WalkEndsOnNonInteger(rule: ListingPage -> Pagination, keyword: string, page: int, site: Site, fuel: nat)
    requires fuel > 0
    requires SearchLink(keyword, page) in site
    requires rule(site[SearchLink(keyword, page)]) == NotAnInteger
    ensures Outcome(Walk(rule, keyword, page, site, fuel)) == Ok(PageLinks(site[SearchLink(keyword, page)].items))
    ensures Walk(rule, keyword, page, site, fuel).visited == [page]
  {
  }

  /** A missing paginator raises after the page's links were read; they are not returned. */
  lemma WalkRaisesOnMissingPaginator(rule: ListingPage -> Pagination, keyword: string, page: int, site: Site, fuel: nat)
    requires fuel > 0
    requires SearchLink(keyword, page) in site
    requires rule(site[SearchLink(keyword, page)]) == Missing
    ensures Outcome(Walk(rule, keyword, page, site, fuel)) == Err(PaginatorMissing)
    ensures Walk(rule, keyword, page, site, fuel).visited == [page]
  {
  }

  /**
   * An integer token makes that integer the next page requested, whatever the
   * current page is.
   */
  lemma WalkFollowsToken(rule: ListingPage -> Pagination, keyword: string, page: int, site: Site, fuel: nat, n: int)
    requires fuel > 1
    requires SearchLink(keyword, page) in site
    requires rule(site[SearchLink(keyword, page)]) == Next(n)
    ensures var r := Walk(rule, keyword, page, site, fuel);
            (|r.visited| >= 2 && r.visited[1] == n) ||
            (r.visited == [page] && r.stop == RequestFailed && r.lastPage == n)
  {
  }

  /**
   * Fuel only bounds the model: a run that ended for one of `get_books_urls`'s
   * own reasons is the same run with any larger fuel.
   */
  lemma {:induction false} WalkFuelIrrelevant(rule: ListingPage -> Pagination, keyword: string, page: int, site: Site, fuel: nat, more: nat)
    requires fuel <= more
    requires Walk(rule, keyword, page, site, fuel).stop != FuelExhausted
    ensures Walk(rule, keyword, page, site, more) == Walk(rule, keyword, page, site, fuel)
    decreases fuel
  {
    if SearchLink(keyword, page) in site {
      match rule(site[SearchLink(keyword, page)])
      case Missing =>
      case NotAnInteger =>
      case Next(n) =>
        WalkFuelIrrelevant(rule, keyword, n, site, fuel - 1, more - 1);
    }
  }

  /**
   * A page whose paginator points back to itself is fetched again and again:
   * the Python loop never ends, and its links are collected once per
   * request, never deduplicated.
   */
  lemma {:induction false} WalkSelfLoop(rule: ListingPage -> Pagination, keyword: string, page: int, site: Site, fuel: nat)
    requires SearchLink(keyword, page) in site
    requires rule(site[SearchLink(keyword, page)]) == Next(page)
    ensures Walk(rule, keyword, page, site, fuel).stop == FuelExhausted
    ensures |Walk(rule, keyword, page, site, fuel).visited| == fuel
    ensures forall i :: 0 <= i < fuel ==> Walk(rule, keyword, page, site, fuel).visited[i] == page
    ensures fuel > 0 ==>
              Walk(rule, keyword, page, site, fuel).collected ==
              PageLinks(site[SearchLink(keyword, page)].items) + Walk(rule, keyword, page, site, fuel - 1).collected
    decreases fuel
  {
    if fuel > 0 {
      WalkSelfLoop(rule, keyword, page, site, fuel - 1);
    }
  }
}
