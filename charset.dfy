/** The decoding step of `fetch_html` in `src/blog.rs`: the status check, then the choice of a
    text encoding in strict priority order (the `charset=` of the Content-Type header, then a
    `charset=` declaration sniffed from the first 4096 bytes, then statistical detection) and a
    lossy decode of the whole body with it. Label lookup, decoding and detection stay abstract
    in `Env`; the header split and the sniffing regular expression are modelled exactly. */
module Charset {
  import opened Wrappers
  import opened Strings
  import opened Web

  /** How many leading bytes the markup sniffing looks at. */
  const SniffLimit: nat := 4096

  datatype FetchError =
    | Transport
    | HttpStatus(status: int, url: string)

  // ---------------------------------------------------------------- step 1: the header

  /** The label a Content-Type value declares: the piece after the first `charset=` (up to a
      second `charset=`, as `split(..).nth(1)` cuts it), trimmed. None when the value is not
      visible ASCII or has no `charset=`. */
  function HeaderLabel(contentType: Option<Bytes>): Option<string>
  {
    match contentType
    case None => None
    case Some(raw) =>
      match HeaderToStr(raw)
      case None => None
      case Some(text) =>
        match SecondPiece(text, "charset=")
        case None => None
        case Some(piece) => Some(Trim(piece))
  }

  function HeaderEncoding(env: Env, contentType: Option<Bytes>): Option<Encoding>
  {
    match HeaderLabel(contentType)
    case None => None
    case Some(name) => env.forLabel(name)
  }

  // ---------------------------------------------------------------- step 2: sniffing

  predicate IsLabelChar(c: char)
  {
    ('A' <= c <= 'Z') || ('a' <= c <= 'z') || ('0' <= c <= '9') || c == '_' || c == '-'
  }

  predicate IsQuote(c: char)
  {
    c == '"' || c == '\''
  }

  /** The end of the longest run of characters satisfying `p` that starts at `j`. */
  function SpanEnd(t: string, j: nat, p: char -> bool): (k: nat)
    requires j <= |t|
    ensures j <= k <= |t|
    ensures forall m :: j <= m < k ==> p(t[m])
    ensures k == |t| || !p(t[k])
    decreases |t| - j
  {
    if j < |t| && p(t[j]) then SpanEnd(t, j + 1, p) else j
  }

  /** The capture group of `charset\s*=\s*["']?([A-Za-z0-9_\-]+)` for a match starting at `i`:
      the literal `charset` (case-sensitive), optional white space, `=`, optional white space, an
      optional quote, and the longest non-empty run of label characters. None when no match
      starts at `i`. */
  function CaptureAt(t: string, i: nat): (r: Option<string>)
    ensures r.Some? ==> OccursAt(t, "charset", i)
    ensures r.Some? ==> r.value != [] && forall j :: 0 <= j < |r.value| ==> IsLabelChar(r.value[j])
  {
    if i + 7 > |t| || t[i..i + 7] != "charset" then None
    else
      var k := SpanEnd(t, i + 7, IsSpace);
      if k == |t| || t[k] != '=' then None
      else
        var m := SpanEnd(t, k + 1, IsSpace);
        var q := if m < |t| && IsQuote(t[m]) then m + 1 else m;
        if q < |t| && IsLabelChar(t[q]) then Some(t[q..SpanEnd(t, q, IsLabelChar)]) else None
  }

  /** The leftmost position at or after `i` where the pattern matches. */
  function MatchFrom(t: string, i: nat): (r: Option<nat>)
    ensures r.Some? ==> i <= r.value < |t| && CaptureAt(t, r.value).Some?
    ensures r.Some? ==> forall j :: i <= j < r.value ==> CaptureAt(t, j).None?
    ensures r.None? ==> forall j :: i <= j ==> CaptureAt(t, j).None?
    decreases |t| - i
  {
    if i >= |t| then None
    else if CaptureAt(t, i).Some? then Some(i)
    else MatchFrom(t, i + 1)
  }

  /** `re.captures(text)` and its first group: the label of the leftmost match. */
  function SniffLabel(text: string): Option<string>
  {
    match MatchFrom(text, 0)
    case None => None
    case Some(p) => CaptureAt(text, p)
  }

  /** A sniffed label is a non-empty run of label characters taken from the leftmost
      `charset` declaration; with no declaration nothing is sniffed. */
  lemma SniffLabelShape(text: string)
    ensures SniffLabel(text).Some? ==>
              && SniffLabel(text).value != []
              && (forall c :: c in SniffLabel(text).value ==> IsLabelChar(c))
              && (exists p :: OccursAt(text, "charset", p) && CaptureAt(text, p) == SniffLabel(text)
                              && forall j :: 0 <= j < p ==> CaptureAt(text, j).None?)
    ensures !Contains(text, "charset") ==> SniffLabel(text).None?
  {
    ContainsIff(text, "charset");
    if SniffLabel(text).Some? {
      var p := MatchFrom(text, 0).value;
      assert OccursAt(text, "charset", p);
    }
  }

  /** `SpanEnd` stops exactly at the first character after `j` that fails `p`. */
  lemma {:induction false} SpanEndAt(t: string, j: nat, k: nat, p: char -> bool)
    requires j <= k <= |t|
    requires forall m :: j <= m < k ==> p(t[m])
    requires k == |t| || !p(t[k])
    ensures SpanEnd(t, j, p) == k
    decreases k - j
  {
    if j < k {
      SpanEndAt(t, j + 1, k, p);
    }
  }

  /** The pieces of a match of the sniffing pattern after the literal `charset`: white space,
      `=`, white space, at most one quote, the label (a non-empty run of label characters) and
      whatever follows, which does not continue the label. */
  predicate DeclarationPieces(ws1: string, ws2: string, quote: string, name: string, rest: string)
  {
    && (forall j :: 0 <= j < |ws1| ==> IsSpace(ws1[j]))
    && (forall j :: 0 <= j < |ws2| ==> IsSpace(ws2[j]))
    && (quote == "" || quote == "\"" || quote == "'")
    && name != [] && (forall j :: 0 <= j < |name| ==> IsLabelChar(name[j]))
    && (rest == [] || !IsLabelChar(rest[0]))
  }

  /** Whatever precedes it, a declaration is captured where its `charset` starts, and the
      capture is exactly its label. */
  lemma CaptureDeclaration(pre: string, ws1: string, ws2: string, quote: string, name: string, rest: string)
    requires DeclarationPieces(ws1, ws2, quote, name, rest)
    ensures CaptureAt(pre + "charset" + ws1 + "=" + ws2 + quote + name + rest, |pre|) == Some(name)
  {
    var t := pre + "charset" + ws1 + "=" + ws2 + quote + name + rest;
    var i := |pre|;
    var k := i + 7 + |ws1|;
    var m := k + 1 + |ws2|;
    var q := m + |quote|;
    var e := q + |name|;
    DeclarationAt(pre, ws1, ws2, quote, name, rest);
    DeclaredCapture(t, i, k, m, q, e);
  }

  /** Where the pieces of a declaration lie in the text they make up. */
  lemma DeclarationAt(pre: string, ws1: string, ws2: string, quote: string, name: string, rest: string)
    requires DeclarationPieces(ws1, ws2, quote, name, rest)
    ensures var t := pre + "charset" + ws1 + "=" + ws2 + quote + name + rest;
            var k := |pre| + 7 + |ws1|;
            var m := k + 1 + |ws2|;
            var q := m + |quote|;
            Declared(t, |pre|, k, m, q, q + |name|) && t[q..q + |name|] == name
  {
    ConcatSlices(pre, ws1, ws2, quote, name, rest);
    var t := pre + "charset" + ws1 + "=" + ws2 + quote + name + rest;
    var k := |pre| + 7 + |ws1|;
    var m := k + 1 + |ws2|;
    var q := m + |quote|;
    PiecesAt(t, |pre|, k, m, q, q + |name|, ws1, ws2, quote, name, rest);
  }

  /** The slices of a concatenation of eight pieces between the running lengths. */
  lemma ConcatSlices(pre: string, ws1: string, ws2: string, quote: string, name: string, rest: string)
    ensures var t := pre + "charset" + ws1 + "=" + ws2 + quote + name + rest;
            var k := |pre| + 7 + |ws1|;
            var m := k + 1 + |ws2|;
            var q := m + |quote|;
            && |t| == q + |name| + |rest|
            && t[|pre|..|pre| + 7] == "charset" && t[|pre| + 7..k] == ws1 && t[k..k + 1] == "="
            && t[k + 1..m] == ws2 && t[m..q] == quote && t[q..q + |name|] == name
            && t[q + |name|..] == rest
  {
    var p1 := pre + "charset";
    var p2 := p1 + ws1;
    var p3 := p2 + "=";
    var p4 := p3 + ws2;
    var p5 := p4 + quote;
    var p6 := p5 + name;
    var t := p6 + rest;
    assert t[|p6|..] == rest;
    Layer(t, p6, rest);
    Layer(t, p5, name);
    Layer(t, p4, quote);
    Layer(t, p3, ws2);
    Layer(t, p2, "=");
    Layer(t, p1, ws1);
    Layer(t, pre, "charset");
  }

  /** The prefix of `t` that is `p + x` ends with `x`, after the prefix `p`. */
  lemma Layer(t: string, p: string, x: string)
    requires |p| + |x| <= |t| && t[..|p| + |x|] == p + x
    ensures t[..|p|] == p && t[|p|..|p| + |x|] == x
  {
    assert t[..|p|] == t[..|p| + |x|][..|p|];
    assert t[|p|..|p| + |x|] == t[..|p| + |x|][|p|..];
  }

  /** Slices of `t` shaped like the pieces of a declaration lie where `Declared` wants them. */
  lemma PiecesAt(t: string, i: nat, k: nat, m: nat, q: nat, e: nat,
                 ws1: string, ws2: string, quote: string, name: string, rest: string)
    requires DeclarationPieces(ws1, ws2, quote, name, rest)
    requires i + 7 <= k < m <= q <= e <= |t|
    requires t[i..i + 7] == "charset" && t[i + 7..k] == ws1 && t[k..k + 1] == "="
    requires t[k + 1..m] == ws2 && t[m..q] == quote && t[q..e] == name && t[e..] == rest
    ensures Declared(t, i, k, m, q, e)
  {
    forall j | i + 7 <= j < k ensures IsSpace(t[j]) {
      assert t[j] == t[i + 7..k][j - i - 7];
    }
    assert t[k] == t[k..k + 1][0];
    forall j | k + 1 <= j < m ensures IsSpace(t[j]) {
      assert t[j] == t[k + 1..m][j - k - 1];
    }
    forall j | q <= j < e ensures IsLabelChar(t[j]) {
      assert t[j] == t[q..e][j - q];
    }
    if quote != "" {
      assert t[m] == quote[0];
    }
    if e < |t| {
      assert t[e] == rest[0];
    }
  }

  /** The positions of a match of the sniffing pattern at `i`: `charset` at `i`, white space up
      to `k`, `=` at `k`, white space up to `m`, at most one quote up to `q`, and the label up
      to `e`, where a character that does not continue the label (or the end) follows. */
  predicate Declared(t: string, i: nat, k: nat, m: nat, q: nat, e: nat)
  {
    && i + 7 <= k < m <= q < e <= |t|
    && t[i..i + 7] == "charset"
    && (forall j :: i + 7 <= j < k ==> IsSpace(t[j]))
    && t[k] == '='
    && (forall j :: k + 1 <= j < m ==> IsSpace(t[j]))
    && ((q == m + 1 && IsQuote(t[m])) || q == m)
    && (forall j :: q <= j < e ==> IsLabelChar(t[j]))
    && (e == |t| || !IsLabelChar(t[e]))
  }

  /** A match found at those positions is captured, and the capture is the label. */
  lemma DeclaredCapture(t: string, i: nat, k: nat, m: nat, q: nat, e: nat)
    requires Declared(t, i, k, m, q, e)
    ensures CaptureAt(t, i) == Some(t[q..e])
  {
    SpanEndAt(t, i + 7, k, IsSpace);
    LabelNotSpace(t[q]);
    if q == m + 1 {
      assert !IsSpace(t[m]);
    }
    SpanEndAt(t, k + 1, m, IsSpace);
    SpanEndAt(t, q, e, IsLabelChar);
    CaptureUnfold(t, i, k, m, q, e);
  }

  /** Conversely, every capture is the label of a match at such positions. */
  lemma CaptureDeclared(t: string, i: nat) returns (k: nat, m: nat, q: nat, e: nat)
    requires CaptureAt(t, i).Some?
    ensures Declared(t, i, k, m, q, e) && CaptureAt(t, i).value == t[q..e]
  {
    k, m, q, e := CaptureShape(t, i);
    CaptureUnfold(t, i, k, m, q, e);
  }

  /** The positions `CaptureAt` computes, when it captures. */
  lemma CaptureShape(t: string, i: nat) returns (k: nat, m: nat, q: nat, e: nat)
    requires CaptureAt(t, i).Some?
    ensures i + 7 <= |t| && t[i..i + 7] == "charset"
    ensures k == SpanEnd(t, i + 7, IsSpace) && k < |t| && t[k] == '='
    ensures m == SpanEnd(t, k + 1, IsSpace)
    ensures q == (if m < |t| && IsQuote(t[m]) then m + 1 else m)
    ensures q < |t| && IsLabelChar(t[q]) && e == SpanEnd(t, q, IsLabelChar)
  {
    k := SpanEnd(t, i + 7, IsSpace);
    m := SpanEnd(t, k + 1, IsSpace);
    q := if m < |t| && IsQuote(t[m]) then m + 1 else m;
    e := SpanEnd(t, q, IsLabelChar);
  }

  /** What `CaptureAt` captures once its positions are known. */
  lemma CaptureUnfold(t: string, i: nat, k: nat, m: nat, q: nat, e: nat)
    requires i + 7 <= |t| && t[i..i + 7] == "charset"
    requires SpanEnd(t, i + 7, IsSpace) == k && k < |t| && t[k] == '='
    requires SpanEnd(t, k + 1, IsSpace) == m
    requires (if m < |t| && IsQuote(t[m]) then m + 1 else m) == q
    requires q < |t| && IsLabelChar(t[q])
    requires SpanEnd(t, q, IsLabelChar) == e
    ensures CaptureAt(t, i) == Some(t[q..e])
  {
  }

  lemma LabelNotSpace(c: char)
    requires IsLabelChar(c)
    ensures !IsSpace(c) && !IsQuote(c)
  {
  }

  /** Conversely, every capture comes from a declaration whose `charset` starts at `i`. */
  lemma CaptureIsDeclaration(t: string, i: nat)
    requires CaptureAt(t, i).Some?
    ensures exists ws1, ws2, quote, rest ::
              && DeclarationPieces(ws1, ws2, quote, CaptureAt(t, i).value, rest)
              && t == t[..i] + "charset" + ws1 + "=" + ws2 + quote + CaptureAt(t, i).value + rest
  {
    var k, m, q, e := CaptureDeclared(t, i);
    PiecesOfCapture(t, i, k, m, q, e);
    Reassemble(t, i, k, m, q, e);
    assert t[k..k + 1] == "=";
    Exhibit(t, t[..i], t[i + 7..k], t[k + 1..m], t[m..q], CaptureAt(t, i).value, t[e..]);
  }

  /** Pieces shaped like a declaration that make up `t` witness the existential above. */
  lemma Exhibit(t: string, pre: string, ws1: string, ws2: string, quote: string, name: string, rest: string)
    requires DeclarationPieces(ws1, ws2, quote, name, rest)
    requires t == pre + "charset" + ws1 + "=" + ws2 + quote + name + rest
    ensures exists ws1', ws2', quote', rest' ::
              && DeclarationPieces(ws1', ws2', quote', name, rest')
              && t == pre + "charset" + ws1' + "=" + ws2' + quote' + name + rest'
  {
  }

  /** The pieces between the positions `CaptureAt` computes have the shapes of a declaration. */
  lemma PiecesOfCapture(t: string, i: nat, k: nat, m: nat, q: nat, e: nat)
    requires i + 7 <= k < m <= q < e <= |t|
    requires forall j :: i + 7 <= j < k ==> IsSpace(t[j])
    requires forall j :: k + 1 <= j < m ==> IsSpace(t[j])
    requires (q == m + 1 && IsQuote(t[m])) || q == m
    requires forall j :: q <= j < e ==> IsLabelChar(t[j])
    requires e == |t| || !IsLabelChar(t[e])
    ensures DeclarationPieces(t[i + 7..k], t[k + 1..m], t[m..q], t[q..e], t[e..])
  {
    if q == m + 1 {
      assert t[m..q] == [t[m]];
    } else {
      assert t[m..q] == [];
    }
  }

  /** A text is the concatenation of its slices between increasing positions. */
  lemma Reassemble(t: string, i: nat, k: nat, m: nat, q: nat, e: nat)
    requires i + 7 <= k < m <= q <= e <= |t|
    ensures t == t[..i] + t[i..i + 7] + t[i + 7..k] + t[k..k + 1] + t[k + 1..m] + t[m..q] + t[q..e] + t[e..]
  {
    PrefixGlue(t, i, i + 7);
    PrefixGlue(t, i + 7, k);
    PrefixGlue(t, k, k + 1);
    PrefixGlue(t, k + 1, m);
    PrefixGlue(t, m, q);
    PrefixGlue(t, q, e);
    PrefixGlue(t, e, |t|);
    assert t[..|t|] == t;
  }

  /** A prefix is the shorter prefix followed by the slice between them. */
  lemma PrefixGlue(t: string, a: nat, b: nat)
    requires a <= b <= |t|
    ensures t[..b] == t[..a] + t[a..b]
  {
  }

  /** A declaration at the very start of the text, with white space around `=` and a quoted
      label, is captured without its quotes. */
  lemma SniffQuotedDeclaration(name: string, rest: string)
    requires name != [] && forall c :: c in name ==> IsLabelChar(c)
    requires rest == [] || !IsLabelChar(rest[0])
    ensures SniffLabel("charset = '" + name + rest) == Some(name)
  {
    var t := "charset = '" + name + rest;
    assert t[..7] == "charset";
    SpanEndAt(t, 7, 8, IsSpace);
    SpanEndAt(t, 9, 10, IsSpace);
    assert t[11] == name[0];
    forall m | 11 <= m < 11 + |name| ensures IsLabelChar(t[m]) {
      assert t[m] == name[m - 11];
    }
    SpanEndAt(t, 11, 11 + |name|, IsLabelChar);
    assert t[11..11 + |name|] == name;
    assert CaptureAt(t, 0) == Some(name);
  }

  /** The bytes the sniffing looks at. */
  function Head(body: Bytes): (h: Bytes)
    ensures |h| == Min(|body|, SniffLimit) && h == body[..|h|]
  {
    body[..Min(|body|, SniffLimit)]
  }

  function MetaEncoding(env: Env, body: Bytes): Option<Encoding>
  {
    match SniffLabel(env.lossyUtf8(Head(body)))
    case None => None
    case Some(name) => env.forLabel(name)
  }

  // ---------------------------------------------------------------- the chain

  /** The encoding `fetch_html` decodes the whole body with. */
  function ChooseEncoding(env: Env, contentType: Option<Bytes>, body: Bytes): Encoding
  {
    match HeaderEncoding(env, contentType)
    case Some(e) => e
    case None =>
      match MetaEncoding(env, body)
      case Some(e) => e
      case None => env.detect(body)
  }

  /** A known header label wins, whatever the body says. */
  lemma HeaderWins(env: Env, contentType: Option<Bytes>, body: Bytes, e: Encoding)
    requires HeaderEncoding(env, contentType) == Some(e)
    ensures ChooseEncoding(env, contentType, body) == e
  {
  }

  /** Without a usable header label, a known sniffed label is used, and the sniff depends only
      on the first 4096 bytes: two bodies agreeing there get the same sniffed encoding. */
  lemma SniffedLabelNext(env: Env, contentType: Option<Bytes>, b1: Bytes, b2: Bytes)
    requires HeaderEncoding(env, contentType).None?
    requires MetaEncoding(env, b1).Some?
    requires Head(b1) == Head(b2)
    ensures ChooseEncoding(env, contentType, b1) == MetaEncoding(env, b1).value
    ensures ChooseEncoding(env, contentType, b2) == MetaEncoding(env, b1).value
  {
  }

  /** Beyond the window, the body's bytes cannot influence the sniff. */
  lemma SniffIgnoresTail(env: Env, body: Bytes, tail: Bytes)
    requires |body| >= SniffLimit
    ensures MetaEncoding(env, body + tail) == MetaEncoding(env, body)
  {
    assert Head(body + tail) == Head(body);
  }

  /** With neither label, the detector's guess over the full buffer decides. */
  lemma DetectorLast(env: Env, contentType: Option<Bytes>, body: Bytes)
    requires HeaderEncoding(env, contentType).None? && MetaEncoding(env, body).None?
    ensures ChooseEncoding(env, contentType, body) == env.detect(body)
  {
  }

  /** The request gets a reply with a 2xx status. */
  predicate Fetches(env: Env, url: string)
  {
    env.get(url).Response? && IsSuccess(env.get(url).status)
  }

  /** `fetch_html`: a transport failure or a non-2xx status is an error carrying the status and
      URL; otherwise the body is always decoded to text. */
  function FetchHtml(env: Env, url: string): (r: Result<string, FetchError>)
    ensures r.Ok? <==> Fetches(env, url)
    ensures env.get(url).TransportFailure? ==> r == Err(Transport)
    ensures env.get(url).Response? ==> (r.Ok? <==> IsSuccess(env.get(url).status))
    ensures env.get(url).Response? && !IsSuccess(env.get(url).status) ==>
              r == Err(HttpStatus(env.get(url).status, url))
    ensures env.get(url).Response? && IsSuccess(env.get(url).status) ==>
              var reply := env.get(url);
              r == Ok(env.decode(ChooseEncoding(env, reply.contentType, reply.body), reply.body))
  {
    match env.get(url)
    case TransportFailure => Err(Transport)
    case Response(status, contentType, body) =>
      if !IsSuccess(status) then Err(HttpStatus(status, url))
      else Ok(env.decode(ChooseEncoding(env, contentType, body), body))
  }

  /** A header `prefix charset=name`, whose prefix holds no `=` and whose name is made of label
      characters, declares exactly `name`. */
  lemma HeaderDeclaredLabel(prefix: string, name: string)
    requires IsAscii(prefix) && forall i :: 0 <= i < |prefix| ==> prefix[i] != '='
    requires forall i :: 0 <= i < |name| ==> IsLabelChar(name[i])
    ensures IsAscii(prefix + "charset=" + name)
    ensures HeaderLabel(Some(AsciiBytes(prefix + "charset=" + name))) == Some(name)
  {
    DeclarationIsAscii(prefix, name);
    DeclarationPiece(prefix, name);
    LabelUntrimmed(name);
    HeaderLabelOf(prefix + "charset=" + name, name);
  }

  /** An ASCII header value whose piece after `charset=` is an untrimmed `name` declares `name`. */
  lemma HeaderLabelOf(text: string, name: string)
    requires IsAscii(text) && SecondPiece(text, "charset=") == Some(name) && Trim(name) == name
    ensures HeaderLabel(Some(AsciiBytes(text))) == Some(name)
  {
    AsciiRoundTrip(text);
  }

  /** Joining ASCII text and label characters around `charset=` gives ASCII text. */
  lemma DeclarationIsAscii(prefix: string, name: string)
    requires IsAscii(prefix)
    requires forall i :: 0 <= i < |name| ==> IsLabelChar(name[i])
    ensures IsAscii(prefix + "charset=" + name)
  {
    var text := prefix + "charset=" + name;
    forall i | 0 <= i < |text| ensures ' ' <= text[i] <= '~' {
      if i >= |prefix| + 8 {
        assert text[i] == name[i - |prefix| - 8];
      }
    }
  }

  /** The piece after the separator in `prefix charset=name` is `name`. */
  lemma DeclarationPiece(prefix: string, name: string)
    requires forall i :: 0 <= i < |prefix| ==> prefix[i] != '='
    requires forall i :: 0 <= i < |name| ==> IsLabelChar(name[i])
    ensures SecondPiece(prefix + "charset=" + name, "charset=") == Some(name)
  {
    var text := prefix + "charset=" + name;
    FindDeclaration(prefix, name);
    assert text[|prefix| + 8..] == name;
  }

  /** Label characters are not white space, so trimming leaves a label as it is. */
  lemma LabelUntrimmed(name: string)
    requires forall i :: 0 <= i < |name| ==> IsLabelChar(name[i])
    ensures Trim(name) == name
  {
    assert name == [] || !IsSpace(name[0]);
    assert name == [] || !IsSpace(name[|name| - 1]);
  }

  /** In `prefix charset=name` with no `=` outside the separator, the separator is found right
      after the prefix, and not again. */
  lemma FindDeclaration(prefix: string, name: string)
    requires forall i :: 0 <= i < |prefix| ==> prefix[i] != '='
    requires forall i :: 0 <= i < |name| ==> name[i] != '='
    ensures Find(prefix + "charset=" + name, "charset=") == Some(|prefix|)
    ensures Find(name, "charset=") == None
  {
    var sep := "charset=";
    var text := prefix + sep + name;
    var p := |prefix|;
    assert text[p..p + 8] == sep;
    assert OccursAt(text, sep, p);
    assert sep[7] == '=' && forall k :: 0 <= k < 7 ==> sep[k] != '=';
  }

  /** Printable ASCII text. */
  ghost predicate IsAscii(s: string)
  {
    forall i :: 0 <= i < |s| ==> ' ' <= s[i] <= '~'
  }

  /** The bytes of an ASCII string. */
  function AsciiBytes(s: string): (b: Bytes)
    requires IsAscii(s)
    ensures |b| == |s|
  {
    seq(|s|, i requires 0 <= i < |s| => (s[i] as int) as byte)
  }

  lemma AsciiRoundTrip(s: string)
    requires IsAscii(s)
    ensures HeaderToStr(AsciiBytes(s)) == Some(s)
  {
    var r := HeaderToStr(AsciiBytes(s));
    assert r.Some?;
    assert r.value == s;
  }
}
