/** The libraries the crawler calls and that this model does not open up: the HTTP client
    (`reqwest`), the HTML parser and selectors (`scraper`), the XML tokeniser (`quick_xml`),
    the URL parser (`url`) and the text-encoding crates (`encoding_rs`, `chardetng`).
    Each one is a field of `Env`, an arbitrary total function the crawl logic is
    parameterised by; only the logic around their results is modelled. */
module Web {
  import opened Wrappers

  newtype byte = b: int | 0 <= b < 256

  type Bytes = seq<byte>

  /** What one GET request yields: a transport failure (connection error, timeout, body read
      error), or a status code, the raw `Content-Type` header value if any, and the body bytes. */
  datatype Reply =
    | TransportFailure
    | Response(status: int, contentType: Option<Bytes>, body: Bytes)

  /** A parsed HTML document, reduced to what the crawler selects from it, in document order:
      the `href` attribute of every `a` element (None when the anchor has none), the text of
      every `title` element, and the `content` attribute of every `meta[name=description]`. */
  datatype Document = Document(
    hrefs: seq<Option<string>>,
    titles: seq<string>,
    descriptions: seq<Option<string>>)

  /** The events `quick_xml`'s reader produces with `trim_text(true)`: start and end tags by
      qualified name, raw (still escaped) text, end of input, a parse error, and everything
      else (empty-element tags, comments, CDATA, declarations, ...). */
  datatype XmlEvent =
    | Start(name: string)
    | End(name: string)
    | Text(raw: Bytes)
    | Eof
    | XmlError
    | Other

  /** A parsed URL: its serialisation and its `domain()` (None for IP-address hosts and URLs
      without a host). */
  datatype ParsedUrl = ParsedUrl(serialization: string, domain: Option<string>)

  datatype Encoding = Encoding(name: string)

  datatype Env = Env(
    /** One GET request to the URL. */
    get: string -> Reply,
    /** `Response::text`: the body decoded by the header's charset, UTF-8 by default. */
    text: (Option<Bytes>, Bytes) -> string,
    parseHtml: string -> Document,
    /** The full event sequence of a document as `read_event_into` yields it. */
    xmlEvents: string -> seq<XmlEvent>,
    /** `Url::parse`. */
    parseUrl: string -> Option<ParsedUrl>,
    /** `Url::join`: a reference resolved against a base. */
    join: (ParsedUrl, string) -> Option<ParsedUrl>,
    /** `Encoding::for_label`: a known encoding for a label, as the WHATWG Encoding Standard's
        "get an encoding" (section 4.2) defines it. */
    forLabel: string -> Option<Encoding>,
    /** `Encoding::decode`: lossy decoding that replaces malformed input. */
    decode: (Encoding, Bytes) -> string,
    /** `String::from_utf8_lossy`. */
    lossyUtf8: Bytes -> string,
    /** `chardetng`'s guess for a complete buffer. */
    detect: Bytes -> Encoding)

  /** `StatusCode::is_success`: the 2xx class of section 15.3 of RFC 9110. */
  predicate IsSuccess(status: int)
  {
    200 <= status < 300
  }

  const NotFound: int := 404

  /** Tab or a printable ASCII byte. */
  predicate IsVisibleAscii(b: byte)
  {
    b == 9 || 32 <= b < 127
  }

  /** `HeaderValue::to_str`: succeeds only on visible ASCII, which it reads byte for char. */
  function HeaderToStr(v: Bytes): (r: Option<string>)
    ensures r.Some? <==> forall i :: 0 <= i < |v| ==> IsVisibleAscii(v[i])
    ensures r.Some? ==> |r.value| == |v| && forall i :: 0 <= i < |v| ==> r.value[i] as int == v[i] as int
  {
    if v == [] then Some("")
    else if !IsVisibleAscii(v[0]) then None
    else match HeaderToStr(v[1..])
      case None => None
      case Some(rest) => Some([(v[0] as int) as char] + rest)
  }
}
