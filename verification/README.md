# Crawler link discovery and listing store, modelled in Dafny

This project models the link-discovery and listing-persistence core of the
nepremicnine crawler:

- sitemap discovery (`get_sitemap_urls`, `find_sitemap_links`), image
  discovery (`find_images`) and binary-link separation
  (`extract_binary_links`) from `services/page_extractor.py`;
- per-element link selection and the filter-then-canonicalize pipeline of
  `find_links` in `services/link_extractor.py`;
- `save_listing` (insert, or return the row already holding the url) and
  `update_listing` (update by id) of `database/database_manager.py`, on a
  table whose `url` column is unique (`database/models.py`).

Files, one module each:

| file | module | models |
|---|---|---|
| `util.dfy` | `Util` | `Option`, `str.endswith`, substring `in`, ASCII `lower`/`upper`, `rfind` |
| `url_util.dfy` | `UrlUtil` | the policy helpers of `util/util.py`: canonicalize, robots and domain filters |
| `sitemaps.dfy` | `Sitemaps` | the recursive sitemap walk and the choice of sitemaps to walk |
| `page_extractor.dfy` | `PageExtractor` | `find_images`, `extract_binary_links` |
| `link_extractor.dfy` | `LinkExtractor` | `find_links` |
| `listing_store.dfy` | `ListingStore` | the listing table, `save_listing`, `update_listing` |

Helpers the code imports but whose bodies are not part of this model are
carried as uninterpreted total functions passed in by the caller:
`canonicalize` (applied pointwise and lifted to sets, so URLs with the same
canonical form collapse), `is_url`, `fill_url` (bound to the current page),
`is_url_allowed` (bound to the site's parsed robots.txt),
`is_domain_allowed`, `check_if_binary` (whose data-type code is carried as an opaque string), the two navigation regexes (each
reporting whether it matched and the capture group the code reads), the
`image_extensions` table and `urlparse(...).path`. The network seen by the
sitemap walk is a map from sitemap URL to the `<loc>` texts of the document
served there; a missing entry or `None` is a non-200 status or an exception
while fetching or parsing.

The walk has no cycle guard in the source, so the model's walk takes a
`fuel` bound on nesting depth. `Sitemaps.LeafOf` is an independent
description of the sitemap tree (the pages listed by the document or by
sitemaps nested under it), and `Sitemaps.GetSitemapUrlsIsLeaves` proves the
walk collects exactly those pages.

The `Listing` table shown in `database/models.py` declares only `id`, `url`
and `accessed_time`, while `update_listing` also writes `title` and
`price`. The model follows `update_listing` and gives a row all four
values.

## Model

| member | source | states |
|---|---|---|
| Sitemaps.GetSitemapUrls | services/page_extractor.py:154-188 | a failed fetch returns the accumulator (or the empty set); the result always contains the accumulator; nothing it adds is a sitemap `<loc>` (ending in `.xml` or containing `sitemap.xml`); after a successful fetch every leaf `<loc>` of the document is in the result |
| Sitemaps.WalkLocs | services/page_extractor.py:176-188 | the `<loc>` loop keeps everything already accumulated, adds every leaf `<loc>` of the document, and adds no sitemap `<loc>` |
| Sitemaps.WalkLocsMembers | services/page_extractor.py:176-188 | a URL is in the loop's result exactly when it was accumulated before or is contributed by one `<loc>` (itself if a leaf, the nested walk's result if a sitemap) |
| Sitemaps.GetSitemapUrlsIsLeaves | services/page_extractor.py:154-188 | a URL is returned exactly when it was in the accumulator or is a leaf page of the sitemap tree below the walked sitemap, within the depth bound |
| Sitemaps.SitemapNamedLocNeverReturned | services/page_extractor.py:179-186 | a `<loc>` that contains `sitemap.xml` anywhere is walked, never returned, by a walk started without an accumulator |
| Sitemaps.SitemapRoots | services/page_extractor.py:114-138 | the walked sitemaps are exactly the declared ones when robots.txt declares any, else a single URL ending in `/sitemap.xml` |
| Sitemaps.WalkAll | services/page_extractor.py:116-138 | the URLs gathered from several sitemaps are exactly those some single sitemap's walk returns |
| Sitemaps.FallbackWalksOneSitemap | services/page_extractor.py:128-138 | with no sitemap declared, the result is the walk of `scheme://netloc/sitemap.xml` alone |
| Sitemaps.WalkAllIsLeaves | services/page_extractor.py:114-138 | the gathered URLs are exactly the leaves of the trees below the walked sitemaps |
| Sitemaps.FindSitemapLinks | services/page_extractor.py:140-151 | every returned URL is admitted by robots.txt and the domain allow-list and is the canonical form of a URL the walks found |
| Sitemaps.FindSitemapLinksIsLeaves | services/page_extractor.py:100-151 | a URL is returned exactly when it is admitted and is the canonical form of a leaf of the tree below one of the walked sitemaps |
| UrlUtil.CanonicalizeAll | services/page_extractor.py:140-141 | every input's canonical form is in the result and every result is some input's canonical form |
| UrlUtil.CanonicalizeAllNoLarger | services/link_extractor.py:59-60 | canonicalizing a set never makes it larger: equal canonical forms collapse |
| UrlUtil.FilterAdmissible | services/page_extractor.py:143-149 | the kept URLs are exactly the inputs that both `is_url_allowed` and `is_domain_allowed` accept |
| PageExtractor.BasenameIsLastSegment | services/page_extractor.py:86 | the basename is the part of the path after its last `/` and holds no `/` |
| PageExtractor.SplitExtParts | services/page_extractor.py:86 | on a basename, root and extension concatenate back to the name; a non-empty extension starts with its only dot and follows a root that is not all dots; the extension is empty exactly when no dot has a non-dot before it |
| PageExtractor.ContentTypeOfExtension | services/page_extractor.py:92 | the content type `extension[1:].upper()` equals the extension without its dot, up to case |
| PageExtractor.ImageOf | services/page_extractor.py:80-96 | an image is kept exactly when its `src` is present and the lower-cased extension of its basename is an image extension; the filename plus the extension gives back the basename; the content type is the extension without the dot, up to case, and holds no lower-case letter, so it is the upper-cased extension |
| PageExtractor.FindImages | services/page_extractor.py:69-97 | every image returned comes from one `<img>`, every `<img>` that yields an image contributes it, and there are exactly as many images as qualifying `<img>` elements |
| PageExtractor.FindImagesOccurrences | services/page_extractor.py:78-97 | each image occurs in the result exactly as often as the `<img>` elements that yield it, so equal images never collapse into one |
| PageExtractor.ExtractBinaryLinks | services/page_extractor.py:191-207 | the kept URLs are exactly the inputs `check_if_binary` does not flag; there is one page-data record per flagged URL, carrying the data type reported for that URL |
| PageExtractor.ExtractBinaryLinksPartitions | services/page_extractor.py:197-207 | kept URLs and binary URLs are disjoint, together give back the input, and their counts add up to the input's size |
| LinkExtractor.ElementUrl | services/link_extractor.py:34-48 | a URL-like `href` wins whatever `onclick` says; otherwise only `onclick` is read, the assignment form before the call form, taking that form's capture group (group 3 of the assignment form, group 4 of the call form); no `onclick`, or an `onclick` matching neither form, gives nothing |
| LinkExtractor.CollectLinks | services/link_extractor.py:29-57 | a URL is collected exactly when some element's raw URL, resolved against the current page, is that URL and is admitted by robots.txt and the domain allow-list |
| LinkExtractor.FindLinks | services/link_extractor.py:59-62 | every returned URL is the canonical form of a collected URL, and every collected URL's canonical form is returned |
| LinkExtractor.FindLinksIsContributions | services/link_extractor.py:29-62 | a URL is returned exactly when it is the canonical form of some element's admitted, resolved URL |
| LinkExtractor.HrefElementIsFollowed | services/link_extractor.py:34-62 | an element with a URL-like `href` whose resolved form is admitted always puts that form's canonical URL in the result |
| ListingStore.IdOfUrl | database/database_manager.py:145-154 | the lookup finds a row exactly when some row holds the url, and the id it returns names such a row |
| ListingStore.SaveListing | database/database_manager.py:124-155 | url uniqueness is preserved; the returned id names the one row holding the listing's url; a new url adds exactly one row, holding the listing, under an id not used before; a known url leaves the table unchanged |
| ListingStore.SaveListingIdempotent | database/database_manager.py:134-155 | saving the same listing a second time changes nothing and returns the same id |
| ListingStore.SaveListingKeepsRows | database/database_manager.py:134-155 | saving never removes or alters an existing row |
| ListingStore.UpdateListing | database/database_manager.py:97-120 | a successful update keeps url uniqueness and the set of ids, changes only the addressed row and gives it exactly the new values; an unknown id changes nothing; the update fails exactly when another row already holds the new url |
| ListingStore.UpdateThenSaveFindsRow | database/database_manager.py:97-155 | after an update, the row is found under its new url and saving a listing with that url returns the updated row's id |

## Left out

- `get_page` (page navigation through the browser, the raw-download fallback, the `datetime.now()` readings and the dispatch on exception text): I/O and foreign calls.
- `refresh_site_available_time` before every page and sitemap fetch: politeness timing in a module that is not part of this model; its calls have no effect on the returned values, so the `domain`, `ip` and `robot_delay` arguments are dropped.
- The bodies of `canonicalize`, `is_url`, `fill_url`, `is_url_allowed`, `is_domain_allowed`, `check_if_binary` (whose data-type code is carried as an opaque string), `extension_to_datatype`, the navigation regexes and `image_extensions`: not part of this model, so they are uninterpreted parameters.
- HTML and XML parsing and robots.txt parsing: a page is its list of clickable elements or `<img>` sources, a sitemap is its list of `<loc>` texts, robots.txt is its declared sitemap list and an allow predicate.
- Sitemaps.GetSitemapUrls: bounded by `fuel` on nesting depth; with no fuel left it returns what a failed fetch would. The source has no bound, so a sitemap that lists itself recurses until Python's recursion limit. When that `RecursionError` is raised inside `requests.get` or the XML parse, the fetch's `except Exception` catches it and the call returns its accumulator, which is what the model does at zero fuel; when it is raised before the `try`, in the debug log call or in `refresh_site_available_time`, it escapes the walk, and that path is not modelled.
- PageExtractor.ImageOf: `str.lower`/`str.upper` are modelled on ASCII letters only; other Unicode case mappings are not. `urlparse(src)` is modelled as a total `pathOf`; on a malformed `src` (an unbalanced `[` in the network location, say) it raises `ValueError`, which nothing in `find_images` catches, so the whole call fails. That failure path is not modelled.
- PageExtractor.ExtractBinaryLinks: the source removes the binary URLs from the caller's set in place and returns that same set object; the model returns the kept URLs as a new set and says nothing about the caller's set afterwards.
- ListingStore.SaveListing: ids come from a counter above every id in use; whether a rolled-back insert consumes an id (it does on PostgreSQL sequences) is not modelled, and neither is the `String(3000)` length limit on `url`, which SQLite, the backend the bot uses, does not enforce.
- ListingStore.UpdateListing: the row holds url, accessed time, title and price only; the `history` relationship and the ORM session are not modelled. A unique-constraint failure is returned as an outcome where the source raises.
- Timestamps and float prices are carried as opaque integers; nothing depends on their values.
- The `DatabaseManager` engine, session factory and thread-local caching, `create_models`, `delete_tables` and `cleanup`: connection plumbing.
- `util/util.py` DNS lookup and request blocking, `spider/spider.py`, the Discord, extract and search services, and `migrate.py`: browser automation, chat UI and configuration.
