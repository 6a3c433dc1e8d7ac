/** Link discovery from `services/link_extractor.py` (`find_links`).

    The parsed page is reduced to the elements `select("a, [onclick]")`
    returns, in document order, each with its `href` and `onclick` attributes.
    `is_url`, `fill_url` and the two navigation regexes are not part of this
    model and are passed in. */
module LinkExtractor {
  import opened Util
  import opened UrlUtil

  /** A clickable element: an anchor or anything with an `onclick` handler. */
  datatype Element = Element(href: Option<string>, onclick: Option<string>)

  /** The outcome of testing a navigation regex against an `onclick` text:
      no match at all, or a match together with the capture group holding
      the target URL (which is `None` when that group did not participate). */
  datatype RegexMatch = NoMatch | Matched(group: Option<string>)

  /** How URLs are recognised in element attributes.
      `isUrl` is `util.is_url`; `assignPattern` is `navigation_assign_regex`
      reporting capture group 3; `callPattern` is `navigation_func_regex`
      reporting capture group 4. */
  datatype Navigation = Navigation(
    isUrl: string -> bool,
    assignPattern: string -> RegexMatch,
    callPattern: string -> RegexMatch)

  /** `href` is present and URL-like. */
  predicate HrefIsUrl(nav: Navigation, e: Element) {
    e.href.Some? && nav.isUrl(e.href.value)
  }

  /** The raw URL one element contributes before resolution, if any. */
  function ElementUrl(nav: Navigation, e: Element): (r: Option<string>)
    // An URL-like href wins, whatever onclick says.
    ensures HrefIsUrl(nav, e) ==> r == e.href
    // Otherwise only onclick is consulted, the assignment form first.
    ensures !HrefIsUrl(nav, e) && r.Some? ==>
              && e.onclick.Some?
              && (|| nav.assignPattern(e.onclick.value) == Matched(r)
                  || (nav.assignPattern(e.onclick.value) == NoMatch && nav.callPattern(e.onclick.value) == Matched(r)))
    ensures !HrefIsUrl(nav, e) && e.onclick.Some? && nav.assignPattern(e.onclick.value).Matched? ==>
              r == nav.assignPattern(e.onclick.value).group
    ensures (&& !HrefIsUrl(nav, e) && e.onclick.Some?
             && nav.assignPattern(e.onclick.value) == NoMatch
             && nav.callPattern(e.onclick.value).Matched?) ==> r == nav.callPattern(e.onclick.value).group
    // No onclick and no usable href: nothing.
    ensures !HrefIsUrl(nav, e) && e.onclick.None? ==> r.None?
    // An onclick matching neither form: nothing.
    ensures (&& !HrefIsUrl(nav, e) && e.onclick.Some?
             && nav.assignPattern(e.onclick.value) == NoMatch
             && nav.callPattern(e.onclick.value) == NoMatch) ==> r.None?
  {
    if HrefIsUrl(nav, e) then e.href
    else if e.onclick.Some? then
      match nav.assignPattern(e.onclick.value)
      case Matched(group) => group
      case NoMatch =>
        match nav.callPattern(e.onclick.value)
        case Matched(group) => group
        case NoMatch => None
    else None
  }

  /** An element's contribution to `new_urls`: its raw URL resolved against
      the current page, provided the policy admits the result. */
  predicate Contributes(nav: Navigation, fill: string -> string, policy: UrlPolicy, e: Element, url: string) {
    && ElementUrl(nav, e).Some?
    && url == fill(ElementUrl(nav, e).value)
    && Admissible(policy, url)
  }

  /** The `for element in clickables` loop: the set `new_urls` before
      canonicalization. `fill` is `fill_url(_, current_url)`. */
  function CollectLinks(nav: Navigation, fill: string -> string, policy: UrlPolicy, elements: seq<Element>): (r: set<string>)
    ensures forall url :: url in r ==> Admissible(policy, url)
    ensures forall url :: url in r <==> exists i :: 0 <= i < |elements| && Contributes(nav, fill, policy, elements[i], url)
    decreases |elements|
  {
    if |elements| == 0 then {}
    else
      var rest := CollectLinks(nav, fill, policy, elements[1..]);
      assert forall i :: 1 <= i < |elements| ==> elements[i] == elements[1..][i - 1];
      var raw := ElementUrl(nav, elements[0]);
      if raw.Some? && Admissible(policy, fill(raw.value)) then {fill(raw.value)} + rest else rest
  }

  /** `find_links`: the collected URLs, canonicalized as a set. */
  function FindLinks(nav: Navigation, fill: string -> string, policy: UrlPolicy, elements: seq<Element>): (r: set<string>)
    ensures forall c :: c in r ==> exists url :: url in CollectLinks(nav, fill, policy, elements) && policy.canonicalize(url) == c
    ensures forall url :: url in CollectLinks(nav, fill, policy, elements) ==> policy.canonicalize(url) in r
  {
    CanonicalizeAll(policy, CollectLinks(nav, fill, policy, elements))
  }

  /** End to end: a canonical URL is returned by `find_links` exactly when some
      element contributes a URL with that canonical form. */
  lemma FindLinksIsContributions(nav: Navigation, fill: string -> string, policy: UrlPolicy,
                                 elements: seq<Element>, c: string)
    ensures c in FindLinks(nav, fill, policy, elements) <==>
              exists i, url :: 0 <= i < |elements| && Contributes(nav, fill, policy, elements[i], url)
                               && policy.canonicalize(url) == c
  {
  }

  /** An element with an URL-like `href` puts the canonical form of the
      resolved `href` into the result whenever the policy admits it, whatever
      its `onclick` handler says. */
  lemma HrefElementIsFollowed(nav: Navigation, fill: string -> string, policy: UrlPolicy,
                              elements: seq<Element>, i: nat)
    requires i < |elements|
    requires HrefIsUrl(nav, elements[i])
    requires Admissible(policy, fill(elements[i].href.value))
    ensures policy.canonicalize(fill(elements[i].href.value)) in FindLinks(nav, fill, policy, elements)
  {
  }
}
