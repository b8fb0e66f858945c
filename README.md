# BooksScraper listing walk, in Dafny

This project models the core of the Z-Library books scraper (`book_scraper.py`).
It covers how a `BooksScraper` turns a search keyword into a listing URL, and
how `get_books_urls` walks the result-listing pages. On each page the walk
collects the detail link of every book item. It then reads the next page
number from the paginator link, updates `page` and `search_link` in place and
requests that page. It stops when the number does not parse as an integer.

Modules:

- `Keyword`: the keyword encoding (`' '` becomes `%20`).
- `Numerals`: the part of Python's `int()` and `str()` used on page numbers.
- `Urls`: the search link, `str.split` and the next-page token
  `href.split('?')[-1].split('=')[-1]`.
- `Listing`: a parsed listing page, its detail links and its paginator decision.
- `PageWalk`: the whole walk as a function of the site's responses (`Walk`), and
  what it returns or raises (`Outcome`).
- `Scraper`: the `BooksScraper` class. Its constructor and `GetBooksUrls` loop
  update the object's fields, and `GetBooksUrls` is proved equal to `Walk`.

Model of the environment:

- The site is a map from request URL to the parsed listing page it returns.
- A URL missing from the map is a request where `requests.get` raises.
- A parsed page keeps only what the scraper reads: each `resItemTable` item's
  `h3.a['href']` (`None` when that lookup raises) and the paginator's first
  anchor `href` (`None` when the `div`, the anchor or the attribute is missing).

Two behaviours of `get_books_urls` are easy to misread; the model follows the code:

- `requests.get` does not raise on a non-2xx status. Such a page is parsed like
  any other, so here it is an ordinary entry of the site map.
- A missing paginator is not a quiet end of the walk. The attribute lookup on
  line 71 raises, so `get_books_urls` raises and the links collected so far are
  lost (`Err(PaginatorMissing)`).

## Model

| member | source | states |
|---|---|---|
| Keyword.Encode | book_scraper.py:26 | the encoded keyword has no space, and each space adds two characters |
| Keyword.EncodeAt | book_scraper.py:26 | each input character appears at its shifted position: a non-space unchanged, a space as exactly `%20` |
| Keyword.EncodeAppend | book_scraper.py:26 | the encoding works character by character, so it distributes over concatenation |
| Keyword.EncodeNoSpaces | book_scraper.py:26 | a keyword without spaces is used verbatim |
| Keyword.EncodeIdempotent | book_scraper.py:26 | encoding an encoded keyword changes nothing |
| Keyword.DecodeEncode | book_scraper.py:26 | for a keyword without `%`, replacing `%20` by a space gives the keyword back |
| Scraper.BooksScraper.constructor | book_scraper.py:21-28 | the keyword is stored encoded, `page` is 1, and `search_link` is the page-1 search link of the encoded keyword |
| Numerals.ParseInt | book_scraper.py:74 | `int()` succeeds exactly on an optional sign followed by one or more ASCII digits (no digit-count limit, see below); the sign decides the sign of the value |
| Numerals.ParseDigits | book_scraper.py:74 | a digit string parses exactly when it is non-empty and all digits |
| Numerals.NatToString | book_scraper.py:75 | `str()` of a natural number is non-empty, all digits and has no leading zero unless it is `0` |
| Numerals.IntToString | book_scraper.py:75 | `str()` of an integer is a valid integer literal: digits with at most a leading minus |
| Numerals.DigitsRoundTrip | book_scraper.py:74-75 | reading back the digits printed for `n` gives `n` |
| Numerals.ParsePrintRoundTrip | book_scraper.py:74-75 | `int(str(n)) == n` for every integer |
| Numerals.SignedLiteral | book_scraper.py:74 | a `+` sign leaves the value unchanged and a `-` sign negates it |
| Numerals.LeadingZero | book_scraper.py:74 | a leading zero is accepted and ignored by `int()` |
| Urls.Split | book_scraper.py:71 | `split` yields at least one piece and no piece contains the separator |
| Urls.SplitJoin | book_scraper.py:71 | joining the pieces with the separator gives the string back |
| Urls.AfterLastSpec | book_scraper.py:71 | the last piece is a suffix without the separator that is either the whole string or preceded by the separator |
| Urls.AfterLastUnique | book_scraper.py:71 | no other suffix has those properties |
| Urls.AfterLastWhole | book_scraper.py:71 | a string without the separator is its own last piece |
| Urls.AfterLastIsLastPiece | book_scraper.py:71 | the suffix after the last separator is `s.split(c)[-1]` |
| Urls.NextPageTokenSpec | book_scraper.py:70-71 | the token is a suffix of the paginator link free of `?` and `=`, and the whole link when it has neither |
| Urls.NextPageTokenIsPythonSplit | book_scraper.py:70-71 | the token equals the last piece after splitting on `?` and then on `=` |
| Urls.SearchLinkToken | book_scraper.py:71-75 | the token of a link in the scraper's own search-link form is `str(page)`, and `int()` of it is `page`, whatever the keyword contains |
| Listing.PageLinks | book_scraper.py:59-67 | a page yields at most one link per item |
| Listing.PageLinksPrefix | book_scraper.py:63 | every extracted link starts with `https://my1lib.org` |
| Listing.PageLinksCount | book_scraper.py:61-67 | exactly one link per item whose `href` lookup succeeds |
| Listing.PageLinksAppend | book_scraper.py:61-67 | items are handled one by one, in document order |
| Listing.PageLinksSkip | book_scraper.py:62-65 | an item whose lookup raises is skipped and the items after it are still read |
| Listing.PageLinksMembership | book_scraper.py:61-67 | a URL is extracted if and only if some item's `href` resolves to it |
| Listing.PageLinksAllPresent | book_scraper.py:61-67 | when every item has an `href`, link `i` is the site prefix followed by item `i`'s `href` |
| Listing.PaginateCases | book_scraper.py:70-77 | no paginator link raises; a non-integer token ends the walk; an integer token, a `?`/`=`-free suffix of the link, is the next page |
| Listing.PaginateSearchLink | book_scraper.py:70-75 | the next page is the number written in the paginator link, not the current page plus one |
| Scraper.CollectPageLinks | book_scraper.py:59-67 | the inner loop appends exactly the page's links, in order, to the links already collected |
| PageWalk.Walk | book_scraper.py:48-79 | the walk fetches at most one page per unit of fuel and starts at the current page |
| PageWalk.Outcome | book_scraper.py:72-79 | the method returns normally exactly when a token fails `int()`, and then returns all collected links |
| PageWalk.WalkFetched | book_scraper.py:54-56 | every visited page was fetched from its search link |
| PageWalk.WalkChain | book_scraper.py:70-75 | each visited page after the first is the page named by its predecessor's paginator |
| PageWalk.WalkCollected | book_scraper.py:53-67 | the collected list is the concatenation of the visited pages' links in visit order, the last page's included |
| PageWalk.WalkPrefix | book_scraper.py:63 | every returned URL starts with the site prefix |
| PageWalk.WalkStop | book_scraper.py:54-77 | a normal end and a missing paginator both happen on the last visited page; a failed request happens on the page `page` was last set to, which is the start page when nothing was fetched and otherwise the token of the last fetched page |
| PageWalk.WalkEndsOnNonInteger | book_scraper.py:72-77 | a non-integer token returns that page's links and makes no further request |
| PageWalk.WalkRaisesOnMissingPaginator | book_scraper.py:70-71 | a missing paginator raises after one page and returns nothing |
| PageWalk.WalkFollowsToken | book_scraper.py:74-75 | an integer token is the next page requested: either it is fetched as the second page, or its request raises and `page` is left at that token |
| PageWalk.WalkFuelIrrelevant | book_scraper.py:54 | a walk that ended for one of the code's own reasons is the same with more fuel |
| PageWalk.WalkSelfLoop | book_scraper.py:54-77 | a page whose paginator names itself is requested forever, and each request adds that page's links again in front of the rest |
| Scraper.BooksScraper.FollowPages | book_scraper.py:53-79 | the loop, for any paginator rule, returns what `Walk` describes, leaves `page` at the walk's last page and keeps `search_link` in step with `page` |
| Scraper.BooksScraper.GetBooksUrls | book_scraper.py:48-79 | the method's result is `Outcome` of the walk from the current page and keyword, `page` ends at the walk's last page, and the keyword is unchanged |

## Left out

- Command-line parsing (`book_scraper.py:10-14`) and the `__main__` block (`book_scraper.py:82-85`): these are I/O. The keyword is a parameter of the constructor.
- `create_csv` and `update_csv` (`book_scraper.py:30-46`): they write files and are outside this core.
- HTTP and HTML parsing (`requests`, `BeautifulSoup`): the site is a map from URL to the parsed page. A raised request is a URL outside the map. Timeouts, retries and redirects are not modelled.
- The imports `time` and `tqdm` are unused by the modelled code.
- Numerals.ParseInt: accepts only an optional sign followed by ASCII digits. Python's `int()` also accepts surrounding whitespace, `_` between digits and non-ASCII decimal digits. A token containing those is treated here as not an integer.
- Numerals.ParseInt: has no limit on the number of digits. Recent Python versions raise `ValueError` on a decimal string of more than 4300 digits, a limit that can be configured. At lines 72-77 that error ends the loop normally, while the model reads such a token as the next page.
- PageWalk.Walk: the `while True` loop has no bound, so the walk takes a fuel argument. Running out of fuel (`FuelExhausted`, `Err(OutOfFuel)`) stands for a run that has not finished. `WalkFuelIrrelevant` shows that fuel changes nothing for runs that end.
- Scraper.BooksScraper.GetBooksUrls: takes the site and the fuel as parameters, and raised exceptions are returned as `Err` values. `ConnectionFailed` is a raising request and `PaginatorMissing` a missing paginator link.
