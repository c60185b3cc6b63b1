/** The URL helpers of `src/blog.rs`: the article-link heuristic, the same-domain test and
    link normalisation. URL parsing and joining are the `url` crate's (the basic URL parser of
    section 4.4 of the WHATWG URL Standard) and stay abstract in `Env`. */
module Links {
  import opened Wrappers
  import opened Strings
  import opened Web

  /** `is_article_link`: a year-like path segment or an `.html` ending. */
  function IsArticleLink(href: string): (r: bool)
    ensures r <==> (exists i :: OccursAt(href, "/20", i))
                   || (|href| >= 5 && href[|href| - 5..] == ".html")
  {
    Contains(href, "/20") || EndsWith(href, ".html")
  }

  /** `same_domain`: both URLs parse and their `domain()` values are equal. */
  function SameDomain(env: Env, base: string, target: string): bool
  {
    match (env.parseUrl(base), env.parseUrl(target))
    case (Some(b), Some(t)) => b.domain == t.domain
    case _ => false
  }

  /** A URL that does not parse is on no one's domain, its own included. */
  lemma SameDomainNeedsParse(env: Env, base: string, target: string)
    ensures env.parseUrl(base).None? || env.parseUrl(target).None? ==> !SameDomain(env, base, target)
  {
  }

  lemma SameDomainSymmetric(env: Env, a: string, b: string)
    ensures SameDomain(env, a, b) == SameDomain(env, b, a)
  {
  }

  lemma SameDomainReflexive(env: Env, a: string)
    ensures SameDomain(env, a, a) <==> env.parseUrl(a).Some?
  {
  }

  lemma SameDomainTransitive(env: Env, a: string, b: string, c: string)
    requires SameDomain(env, a, b) && SameDomain(env, b, c)
    ensures SameDomain(env, a, c)
  {
  }

  /** The comparison is of `domain()` values, full host names: `www.x.com` and `x.com` differ,
      while two hosts that are IP addresses (no domain) compare equal whatever the addresses. */
  lemma SameDomainComparesDomainOption(env: Env, a: string, b: string)
    requires env.parseUrl(a).Some? && env.parseUrl(b).Some?
    ensures SameDomain(env, a, b) <==> env.parseUrl(a).value.domain == env.parseUrl(b).value.domain
    ensures env.parseUrl(a).value.domain.None? && env.parseUrl(b).value.domain.None? ==> SameDomain(env, a, b)
  {
  }

  /** `normalize_url`: `href` resolved against `base`, or `href` itself when the base does not
      parse or the join fails. */
  function NormalizeUrl(env: Env, base: string, href: string): (r: string)
    ensures env.parseUrl(base).None? ==> r == href
    ensures env.parseUrl(base).Some? && env.join(env.parseUrl(base).value, href).None? ==> r == href
    ensures env.parseUrl(base).Some? && env.join(env.parseUrl(base).value, href).Some? ==>
              r == env.join(env.parseUrl(base).value, href).value.serialization
  {
    match env.parseUrl(base)
    case None => href
    case Some(b) =>
      match env.join(b, href)
      case Some(joined) => joined.serialization
      case None => href
  }
}
