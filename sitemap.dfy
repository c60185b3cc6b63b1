/** `fetch_sitemap` in `src/blog.rs`: request `<base>/sitemap.xml`, read the body as text
    (without looking at the status), and fold the XML event stream into the text of every
    `loc` element, stopping at the end of input or at the first parse error. */
module Sitemap {
  import opened Wrappers
  import opened Strings
  import opened Web

  datatype SitemapError =
    | SitemapTransport
    | NoUrls

  /** The sitemap's address: the base URL with every trailing `/` removed, then `/sitemap.xml`. */
  function SitemapUrl(base: string): string
  {
    TrimEndBy(base, c => c == '/') + "/sitemap.xml"
  }

  /** However many slashes the base ends with, exactly one separates it from `sitemap.xml`. */
  lemma SitemapUrlShape(base: string)
    ensures var stem := TrimEndBy(base, c => c == '/');
      && SitemapUrl(base) == stem + "/sitemap.xml"
      && base == stem + base[|stem|..]
      && (forall i :: |stem| <= i < |base| ==> base[i] == '/')
      && (stem == [] || stem[|stem| - 1] != '/')
  {
  }

  lemma SitemapUrlIgnoresTrailingSlashes(base: string)
    ensures SitemapUrl(base + "/") == SitemapUrl(base)
  {
    assert (base + "/")[..|base + "/"| - 1] == base;
  }

  /** The URLs the fold collects from `events` onwards, `inside` being the `inside_loc` flag:
      a `loc` start tag sets the flag, a `loc` end tag clears it, every text event seen while it
      is set is collected (lossily decoded), and the end of input or an error stops the fold. */
  function LocTexts(env: Env, events: seq<XmlEvent>, inside: bool): seq<string>
  {
    if events == [] then []
    else match events[0]
      case Start(name) => LocTexts(env, events[1..], if name == "loc" then true else inside)
      case Text(raw) =>
        if inside then [env.lossyUtf8(raw)] + LocTexts(env, events[1..], inside)
        else LocTexts(env, events[1..], inside)
      case End(name) => LocTexts(env, events[1..], if name == "loc" then false else inside)
      case Eof => []
      case XmlError => []
      case Other => LocTexts(env, events[1..], inside)
  }

  /** What `fetch_sitemap` returns. */
  function SitemapResult(env: Env, base: string): Result<seq<string>, SitemapError>
  {
    match env.get(SitemapUrl(base))
    case TransportFailure => Err(SitemapTransport)
    case Response(_, contentType, body) =>
      var urls := LocTexts(env, env.xmlEvents(env.text(contentType, body)), false);
      if urls == [] then Err(NoUrls) else Ok(urls)
  }

  predicate Stops(e: XmlEvent)
  {
    e.Eof? || e.XmlError?
  }

  /** A parse error (or the end of input) truncates: what follows it is never read, and what
      precedes it is kept. */
  lemma {:induction false} StopTruncates(env: Env, events: seq<XmlEvent>, inside: bool, k: nat)
    requires k < |events| && Stops(events[k])
    ensures LocTexts(env, events, inside) == LocTexts(env, events[..k], inside)
  {
    if k > 0 {
      assert events[1..][..k - 1] == events[..k][1..];
      var next := match events[0]
        case Start(name) => if name == "loc" then true else inside
        case End(name) => if name == "loc" then false else inside
        case _ => inside;
      StopTruncates(env, events[1..], next, k - 1);
    }
  }

  /** Texts are collected only once a `loc` start tag has set the flag: before any such tag
      (and with the flag clear) nothing is collected. */
  lemma {:induction false} NoLocNoUrls(env: Env, events: seq<XmlEvent>)
    requires forall i :: 0 <= i < |events| ==> events[i] != Start("loc")
    ensures LocTexts(env, events, false) == []
  {
    if events != [] {
      NoLocNoUrls(env, events[1..]);
    }
  }

  /** One `<url><loc>u</loc></url>` entry. */
  function Entry(raw: Bytes): seq<XmlEvent>
  {
    [Start("url"), Start("loc"), Text(raw), End("loc"), End("url")]
  }

  /** An entry, read with the flag clear, contributes exactly its location text and leaves the
      flag clear. */
  lemma EntryContributes(env: Env, raw: Bytes, rest: seq<XmlEvent>)
    ensures LocTexts(env, Entry(raw) + rest, false) == [env.lossyUtf8(raw)] + LocTexts(env, rest, false)
  {
    var s := Entry(raw) + rest;
    assert s[1..] == [Start("loc"), Text(raw), End("loc"), End("url")] + rest;
    assert s[1..][1..] == [Text(raw), End("loc"), End("url")] + rest;
    assert s[1..][1..][1..] == [End("loc"), End("url")] + rest;
    assert s[1..][1..][1..][1..] == [End("url")] + rest;
    assert s[1..][1..][1..][1..][1..] == rest;
    calc {
      LocTexts(env, s, false);
      LocTexts(env, s[1..], false);
      LocTexts(env, s[1..][1..], true);
      [env.lossyUtf8(raw)] + LocTexts(env, s[1..][1..][1..], true);
      [env.lossyUtf8(raw)] + LocTexts(env, s[1..][1..][1..][1..], false);
      [env.lossyUtf8(raw)] + LocTexts(env, rest, false);
    }
  }

  /** A sitemap with two entries yields their two locations, in document order. */
  lemma TwoEntrySitemap(env: Env, a: Bytes, b: Bytes)
    ensures LocTexts(env, [Start("urlset")] + Entry(a) + Entry(b) + [End("urlset"), Eof], false)
            == [env.lossyUtf8(a), env.lossyUtf8(b)]
  {
    var close: seq<XmlEvent> := [End("urlset"), Eof];
    var s := [Start("urlset")] + Entry(a) + Entry(b) + close;
    assert s[1..] == Entry(a) + (Entry(b) + close);
    EntryContributes(env, a, Entry(b) + close);
    EntryContributes(env, b, close);
    assert close[1..] == [Eof];
    assert LocTexts(env, close, false) == [];
  }

  /** `fetch_sitemap`: the event loop of the source, folding into `urls` with the `inside_loc`
      flag. */
  method FetchSitemap(env: Env, base: string) returns (r: Result<seq<string>, SitemapError>)
    ensures r == SitemapResult(env, base)
  {
    var reply := env.get(SitemapUrl(base));
    if reply.TransportFailure? {
      return Err(SitemapTransport);
    }
    var body := env.text(reply.contentType, reply.body);
    var events := env.xmlEvents(body);
    var urls: seq<string> := [];
    var insideLoc := false;
    var i := 0;
    while i < |events|
      invariant 0 <= i <= |events|
      invariant LocTexts(env, events, false) == urls + LocTexts(env, events[i..], insideLoc)
      decreases |events| - i
    {
      assert events[i..][1..] == events[i + 1..];
      match events[i] {
      case Start(name) =>
        if name == "loc" {
          insideLoc := true;
        }
      case Text(raw) =>
        if insideLoc {
          urls := urls + [env.lossyUtf8(raw)];
        }
      case End(name) =>
        if name == "loc" {
          insideLoc := false;
        }
      case Eof =>
        assert LocTexts(env, events[i..], insideLoc) == [];
        assert urls == LocTexts(env, events, false);
        break;
      case XmlError =>
        assert LocTexts(env, events[i..], insideLoc) == [];
        assert urls == LocTexts(env, events, false);
        break;
      case Other =>
      }
      i := i + 1;
    }
    assert urls == LocTexts(env, events, false);
    if urls == [] {
      return Err(NoUrls);
    }
    return Ok(urls);
  }
}
