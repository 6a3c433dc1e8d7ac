/** Sitemap discovery from `services/page_extractor.py`: the recursive walk
    `get_sitemap_urls` and its driver `find_sitemap_links`.

    The network is a map from a sitemap URL to the `<loc>` texts of the
    document served there, in document order; `None` (or a URL absent from
    the map) stands for a non-200 status or an exception while fetching or
    parsing. The source recurses without a cycle guard, so the walk takes a
    `fuel` bound on the nesting depth it follows. */
module Sitemaps {
  import opened Util
  import opened UrlUtil

  type Network = map<string, Option<seq<string>>>

  /** `requests.get` followed by `BeautifulSoup(...).find_all("loc")`. */
  function Fetch(net: Network, url: string): Option<seq<string>> {
    if url in net then net[url] else None
  }

  /** A `<loc>` that names another sitemap document rather than a page:
      it ends in `.xml` or mentions `sitemap.xml` anywhere. */
  predicate IsSitemapLoc(loc: string) {
    EndsWith(loc, ".xml") || Contains(loc, "sitemap.xml")
  }

  /** The `new_urls` accumulator: `None` when the caller passed none. */
  function AccOrEmpty(acc: Option<set<string>>): set<string> {
    if acc.Some? then acc.value else {}
  }

  /** `get_sitemap_urls(sitemap_url, ..., new_urls=acc)`. A failed fetch
      returns the accumulator (or the empty set); otherwise every leaf `<loc>`
      is added and every inner `<loc>` is walked with a fresh accumulator
      whose result is merged in. With no fuel left the walk stops as if the
      fetch had failed. */
  function GetSitemapUrls(net: Network, sitemapUrl: string, acc: Option<set<string>>, fuel: nat): (r: set<string>)
    ensures Fetch(net, sitemapUrl).None? ==> r == AccOrEmpty(acc)
    ensures AccOrEmpty(acc) <= r
    ensures forall u :: u in r && u !in AccOrEmpty(acc) ==> !IsSitemapLoc(u)
    ensures fuel > 0 && Fetch(net, sitemapUrl).Some? ==>
              forall loc :: loc in Fetch(net, sitemapUrl).value && !IsSitemapLoc(loc) ==> loc in r
    decreases fuel, 0, 0
  {
    if fuel == 0 then AccOrEmpty(acc)
    else
      match Fetch(net, sitemapUrl)
      case None => AccOrEmpty(acc)
      case Some(locs) => WalkLocs(net, locs, AccOrEmpty(acc), fuel - 1)
  }

  /** The `for loc in xml.find_all("loc")` loop of `get_sitemap_urls`,
      processing `locs` in order into `acc`. */
  function WalkLocs(net: Network, locs: seq<string>, acc: set<string>, fuel: nat): (r: set<string>)
    ensures acc <= r
    ensures forall u :: u in r && u !in acc ==> !IsSitemapLoc(u)
    ensures forall loc :: loc in locs && !IsSitemapLoc(loc) ==> loc in r
    decreases fuel, 1, |locs|
  {
    if |locs| == 0 then acc
    else
      var loc := locs[0];
      var acc' := if IsSitemapLoc(loc) then acc + GetSitemapUrls(net, loc, None, fuel) else acc + {loc};
      WalkLocs(net, locs[1..], acc', fuel)
  }

  /** Reference definition of the sitemap tree: `url` is a page listed, as a
      leaf `<loc>`, by the document at `root` or by a sitemap reachable from it
      through inner `<loc>`s, following at most `fuel` documents deep. */
  ghost predicate LeafOf(net: Network, root: string, url: string, fuel: nat)
    decreases fuel, 0
  {
    && fuel > 0
    && Fetch(net, root).Some?
    && exists loc :: loc in Fetch(net, root).value && LeafVia(net, loc, url, fuel - 1)
  }

  /** `url` is reached from the `<loc>` entry `loc`: either `loc` is the page
      itself, or `loc` is a nested sitemap that lists it. */
  ghost predicate LeafVia(net: Network, loc: string, url: string, fuel: nat)
    decreases fuel, 1
  {
    if IsSitemapLoc(loc) then LeafOf(net, loc, url, fuel) else loc == url
  }

  /** Membership in one step of the `<loc>` loop. */
  lemma {:induction false} WalkLocsMembers(net: Network, locs: seq<string>, acc: set<string>, fuel: nat, url: string)
    ensures url in WalkLocs(net, locs, acc, fuel) <==>
              url in acc || exists loc :: loc in locs && url in StepResult(net, loc, fuel)
    decreases |locs|
  {
    if |locs| > 0 {
      var loc := locs[0];
      var acc' := acc + StepResult(net, loc, fuel);
      assert WalkLocs(net, locs, acc, fuel) == WalkLocs(net, locs[1..], acc', fuel);
      WalkLocsMembers(net, locs[1..], acc', fuel, url);
      assert forall l :: l in locs <==> l == loc || l in locs[1..];
    }
  }

  /** What one `<loc>` contributes to the accumulator. */
  function StepResult(net: Network, loc: string, fuel: nat): (r: set<string>)
    ensures !IsSitemapLoc(loc) ==> r == {loc}
  {
    if IsSitemapLoc(loc) then GetSitemapUrls(net, loc, None, fuel) else {loc}
  }

  /** The walk collects exactly the accumulator plus the leaves of the sitemap
      tree below `sitemapUrl`, as the reference definition describes them. */
  lemma {:induction false} GetSitemapUrlsIsLeaves(net: Network, sitemapUrl: string, acc: Option<set<string>>, fuel: nat, url: string)
    ensures url in GetSitemapUrls(net, sitemapUrl, acc, fuel) <==>
              url in AccOrEmpty(acc) || LeafOf(net, sitemapUrl, url, fuel)
    decreases fuel
  {
    if fuel > 0 && Fetch(net, sitemapUrl).Some? {
      var locs := Fetch(net, sitemapUrl).value;
      WalkLocsMembers(net, locs, AccOrEmpty(acc), fuel - 1, url);
      forall loc | loc in locs
        ensures url in StepResult(net, loc, fuel - 1) <==> LeafVia(net, loc, url, fuel - 1)
      {
        if IsSitemapLoc(loc) {
          GetSitemapUrlsIsLeaves(net, loc, None, fuel - 1, url);
        }
      }
    }
  }

  /** A `<loc>` mentioning `sitemap.xml` anywhere (say `.../sitemap.xml.gz`)
      is always walked as a sitemap, so the walk never returns it. */
  lemma {:induction false} SitemapNamedLocNeverReturned(net: Network, sitemapUrl: string, fuel: nat, loc: string, at: nat)
    requires at + |"sitemap.xml"| <= |loc|
    requires loc[at..at + |"sitemap.xml"|] == "sitemap.xml"
    ensures loc !in GetSitemapUrls(net, sitemapUrl, None, fuel)
  {
    ContainsAt(loc, "sitemap.xml", at);
  }

  /** The sitemaps `find_sitemap_links` walks: those robots.txt declares, or
      the conventional `/sitemap.xml` at the root of the current site when it
      declares none. */
  function SitemapRoots(scheme: string, netloc: string, declared: Option<seq<string>>): (r: seq<string>)
    ensures declared.Some? ==> r == declared.value
    ensures declared.None? ==> |r| == 1 && EndsWith(r[0], "/sitemap.xml")
  {
    match declared
    case Some(sitemaps) => sitemaps
    case None => [scheme + "://" + netloc + "/sitemap.xml"]
  }

  /** The union of the walks started at each of `roots`. */
  function WalkAll(net: Network, roots: seq<string>, fuel: nat): (r: set<string>)
    ensures forall url :: url in r <==> exists i :: 0 <= i < |roots| && url in GetSitemapUrls(net, roots[i], None, fuel)
    decreases |roots|
  {
    if |roots| == 0 then {}
    else GetSitemapUrls(net, roots[0], None, fuel) + WalkAll(net, roots[1..], fuel)
  }

  /** `find_sitemap_links`: walk the chosen sitemaps, canonicalize what they
      list, and keep what robots.txt and the domain allow-list admit. */
  function FindSitemapLinks(scheme: string, netloc: string, declared: Option<seq<string>>,
                            net: Network, policy: UrlPolicy, fuel: nat): (r: set<string>)
    ensures forall u :: u in r ==> Admissible(policy, u)
    ensures forall u :: u in r ==>
              exists v :: v in WalkAll(net, SitemapRoots(scheme, netloc, declared), fuel) && policy.canonicalize(v) == u
  {
    var found := WalkAll(net, SitemapRoots(scheme, netloc, declared), fuel);
    FilterAdmissible(policy, CanonicalizeAll(policy, found))
  }

  /** With no sitemap declared, exactly one sitemap is walked: the fallback
      `scheme://netloc/sitemap.xml`. */
  lemma FallbackWalksOneSitemap(scheme: string, netloc: string, net: Network, fuel: nat)
    ensures WalkAll(net, SitemapRoots(scheme, netloc, None), fuel)
            == GetSitemapUrls(net, scheme + "://" + netloc + "/sitemap.xml", None, fuel)
  {
  }

  /** The walks from several roots collect exactly the union of their trees' leaves. */
  lemma {:induction false} WalkAllIsLeaves(net: Network, roots: seq<string>, fuel: nat, leaf: string)
    ensures leaf in WalkAll(net, roots, fuel) <==> exists root :: root in roots && LeafOf(net, root, leaf, fuel)
  {
    forall root | root in roots
      ensures leaf in GetSitemapUrls(net, root, None, fuel) <==> LeafOf(net, root, leaf, fuel)
    {
      GetSitemapUrlsIsLeaves(net, root, None, fuel, leaf);
    }
    if leaf in WalkAll(net, roots, fuel) {
      var i :| 0 <= i < |roots| && leaf in GetSitemapUrls(net, roots[i], None, fuel);
      assert roots[i] in roots;
    }
    if exists root :: root in roots && LeafOf(net, root, leaf, fuel) {
      var root :| root in roots && LeafOf(net, root, leaf, fuel);
      var i :| 0 <= i < |roots| && roots[i] == root;
      assert leaf in GetSitemapUrls(net, roots[i], None, fuel);
    }
  }

  /** End to end: a URL comes out of `find_sitemap_links` exactly when it is
      admitted by the policy and is the canonical form of a leaf of the tree
      below one of the walked sitemaps. */
  lemma {:induction false} FindSitemapLinksIsLeaves(scheme: string, netloc: string, declared: Option<seq<string>>,
                                                    net: Network, policy: UrlPolicy, fuel: nat, url: string)
    ensures url in FindSitemapLinks(scheme, netloc, declared, net, policy, fuel) <==>
              && Admissible(policy, url)
              && exists root, leaf :: root in SitemapRoots(scheme, netloc, declared)
                                    && LeafOf(net, root, leaf, fuel)
                                    && policy.canonicalize(leaf) == url
  {
    var roots := SitemapRoots(scheme, netloc, declared);
    var found := WalkAll(net, roots, fuel);
    var canon := CanonicalizeAll(policy, found);
    if url in canon {
      var leaf :| leaf in found && policy.canonicalize(leaf) == url;
      WalkAllIsLeaves(net, roots, fuel, leaf);
    }
    if exists root, leaf :: root in roots && LeafOf(net, root, leaf, fuel) && policy.canonicalize(leaf) == url {
      var root, leaf :| root in roots && LeafOf(net, root, leaf, fuel) && policy.canonicalize(leaf) == url;
      WalkAllIsLeaves(net, roots, fuel, leaf);
      assert leaf in found;
    }
  }
}
