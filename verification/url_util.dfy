/** The URL helpers the extractors import from `util/util.py`
    (`canonicalize`, `is_url_allowed`, `is_domain_allowed`). Their bodies are
    not part of this model: each is carried as an uninterpreted total
    function, bundled with the robots rules it is evaluated against. */
module UrlUtil {

  /** The policy one extraction runs under.
      `canonicalize` is `util.canonicalize` on a single URL; the source
      applies it to a whole set, which is modelled as the pointwise image.
      `isUrlAllowed` is `is_url_allowed(_, robot_file_parser)` for the site's
      parsed robots.txt; `isDomainAllowed` is `is_domain_allowed(url=_)`. */
  datatype UrlPolicy = UrlPolicy(
    canonicalize: string -> string,
    isUrlAllowed: string -> bool,
    isDomainAllowed: string -> bool)

  /** A URL that both robots.txt and the domain allow-list admit. */
  predicate Admissible(p: UrlPolicy, url: string) {
    p.isUrlAllowed(url) && p.isDomainAllowed(url)
  }

  /** `canonicalize(urls)` on a set: every URL is replaced by its canonical
      form, and URLs with the same canonical form collapse into one. */
  function CanonicalizeAll(p: UrlPolicy, urls: set<string>): (r: set<string>)
    ensures forall u :: u in urls ==> p.canonicalize(u) in r
    ensures forall c :: c in r ==> exists u :: u in urls && p.canonicalize(u) == c
  {
    set u | u in urls :: p.canonicalize(u)
  }

  /** Canonicalizing never grows a set: collapsing is the only effect on size. */
  lemma {:induction false} CanonicalizeAllNoLarger(p: UrlPolicy, urls: set<string>)
    ensures |CanonicalizeAll(p, urls)| <= |urls|
    decreases |urls|
  {
    if urls != {} {
      var u :| u in urls;
      var rest := urls - {u};
      CanonicalizeAllNoLarger(p, rest);
      assert CanonicalizeAll(p, urls) == CanonicalizeAll(p, rest) + {p.canonicalize(u)};
    }
  }

  /** Keeps the URLs the policy admits (the source's set comprehension over
      `is_url_allowed` and `is_domain_allowed`). */
  function FilterAdmissible(p: UrlPolicy, urls: set<string>): (r: set<string>)
    ensures r <= urls
    ensures forall u :: u in urls ==> (u in r <==> Admissible(p, u))
  {
    set u | u in urls && Admissible(p, u)
  }
}
