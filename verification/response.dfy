/**
  The poem integration's response encoder (integrations/poem/src/response.rs):
  a total conversion from a (batch) GraphQL response to an HTTP response.

  The body is the pre-serialized raw payload when the batch carries one and
  the JSON encoding of the batch otherwise; a `cache-control` header is set
  only for a successful batch; resolver-supplied headers are appended
  through a convert-or-drop filter.

  The JSON encoding is kept symbolic (`JsonBody`), and the HTTP header
  grammar is abstract: a `HeaderGrammar` says which names and values the
  transport accepts.
 */
module PoemResponse {
  import opened Common
  import opened FilterMaps

  const ContentTypeName: string := "content-type"
  const CacheControlName: string := "cache-control"
  const JsonContentType: string := "application/json; charset=utf-8"

  /** A header as a (name, value) pair of texts. */
  type Header = (string, string)

  /** Which names `HeaderName::from_str` and which values
      `HeaderValue::from_bytes` / `HeaderValue::try_from` accept. */
  datatype HeaderGrammar = HeaderGrammar(validName: string -> bool, validValue: string -> bool)

  /** What the encoder reads from `async_graphql::BatchResponse`:
      `has_raw_data()`, `get_raw_data()`, `is_ok()`,
      `cache_control().value()` and `http_headers()`. */
  datatype BatchResponse = BatchResponse(
    hasRawData: bool,
    rawData: Option<seq<byte>>,
    isOk: bool,
    cacheValue: Option<string>,
    overrides: seq<Header>)

  /** The same view of a single `async_graphql::Response`. */
  datatype SingleResponse = SingleResponse(
    hasRawData: bool,
    rawData: Option<seq<byte>>,
    isOk: bool,
    cacheValue: Option<string>,
    overrides: seq<Header>)

  /** A response body: the given bytes, or the JSON encoding of a batch. */
  datatype Body = RawBody(bytes: seq<byte>) | JsonBody(batch: BatchResponse)

  /** An HTTP response: a body and its headers in insertion order. */
  datatype Response = Response(body: Body, headers: seq<Header>)

  /** The guard of the `unwrap` at the raw fast path: a batch that claims
      raw data has it. */
  predicate RawDataConsistent(b: BatchResponse) {
    b.hasRawData ==> b.rawData.Some?
  }

  /** The response carries header `name` with value `value`. */
  predicate Carries(headers: seq<Header>, name: string, value: string) {
    (name, value) in headers
  }

  // ---------------------------------------------------------------------
  // Header names and values
  // ---------------------------------------------------------------------

  function LowerChar(c: char): char {
    if 'A' <= c <= 'Z' then (c as int - 'A' as int + 'a' as int) as char else c
  }

  /** The ASCII lower-casing `HeaderName::from_str` applies to a name. */
  function Lower(s: string): (r: string)
    ensures |r| == |s|
    ensures forall i :: 0 <= i < |s| ==> r[i] == LowerChar(s[i])
  {
    seq(|s|, i requires 0 <= i < |s| => LowerChar(s[i]))
  }

  /** One override through `HeaderName::from_str(name).ok().zip(
      HeaderValue::from_bytes(value).ok())`: both must convert; the name is
      normalised to lower case and the value kept as given. */
  function ConvertOverride(h: Header, g: HeaderGrammar): (r: Option<Header>)
    ensures r.Some? <==> g.validName(h.0) && g.validValue(h.1)
    ensures r.Some? ==> r.value == (Lower(h.0), h.1)
  {
    if g.validName(h.0) && g.validValue(h.1) then Some((Lower(h.0), h.1)) else None
  }

  /** `ConvertOverride` as the closure handed to `filter_map`. */
  function Converter(g: HeaderGrammar): Header -> Option<Header> {
    h => ConvertOverride(h, g)
  }

  /** The `filter_map` over the resolver-supplied headers: a header is kept
      iff some override converts to it. */
  function KeepConvertible(overrides: seq<Header>, g: HeaderGrammar): (r: seq<Header>)
    ensures |r| <= |overrides|
    ensures forall h :: h in r <==>
              exists i :: 0 <= i < |overrides| && ConvertOverride(overrides[i], g) == Some(h)
  {
    var r := FilterMap(overrides, Converter(g));
    forall h ensures h in r <==> exists i :: 0 <= i < |overrides| && ConvertOverride(overrides[i], g) == Some(h) {
      FilterMapIff(overrides, Converter(g), h);
      if i :| 0 <= i < |overrides| && ConvertOverride(overrides[i], g) == Some(h) {
        assert Converter(g)(overrides[i]) == Some(h);
      }
    }
    r
  }

  /** The filter keeps exactly the convertible overrides, converted, in their
      original order, and drops the rest. */
  lemma KeepConvertibleSelects(overrides: seq<Header>, g: HeaderGrammar) returns (idx: seq<int>)
    ensures |idx| == |KeepConvertible(overrides, g)|
    ensures forall k :: 0 <= k < |idx| ==>
              0 <= idx[k] < |overrides| &&
              ConvertOverride(overrides[idx[k]], g) == Some(KeepConvertible(overrides, g)[k])
    ensures forall k, l :: 0 <= k < l < |idx| ==> idx[k] < idx[l]
    ensures forall i :: 0 <= i < |overrides| && ConvertOverride(overrides[i], g).Some? ==> i in idx
  {
    idx := FilterMapSelects(overrides, Converter(g));
    forall i | 0 <= i < |overrides| && ConvertOverride(overrides[i], g).Some? ensures i in idx {
      assert Converter(g)(overrides[i]).Some?;
    }
  }

  /** Exactly as many headers are kept as there are convertible overrides. */
  lemma KeptCount(overrides: seq<Header>, g: HeaderGrammar)
    ensures |KeepConvertible(overrides, g)| ==
            |set i | 0 <= i < |overrides| && ConvertOverride(overrides[i], g).Some?|
  {
    var valid := set i | 0 <= i < |overrides| && ConvertOverride(overrides[i], g).Some?;
    forall i ensures i in valid <==> 0 <= i < |overrides| && Converter(g)(overrides[i]).Some? {
      if 0 <= i < |overrides| {
        assert Converter(g)(overrides[i]) == ConvertOverride(overrides[i], g);
      }
    }
    FilterMapCount(overrides, Converter(g), valid);
    assert KeepConvertible(overrides, g) == FilterMap(overrides, Converter(g));
  }

  // ---------------------------------------------------------------------
  // HeaderMap operations
  // ---------------------------------------------------------------------

  /** `HeaderMap::insert`: afterwards `name` has the single value `value`;
      headers of other names are kept in order. */
  function Insert(headers: seq<Header>, name: string, value: string): (r: seq<Header>)
    ensures Carries(r, name, value)
    ensures forall h :: h in r && h.0 == name ==> h.1 == value
    ensures forall h :: h in r && h.0 != name <==> h in headers && h.0 != name
  {
    RemoveName(headers, name) + [(name, value)]
  }

  /** The headers without any entry named `name`. */
  function RemoveName(headers: seq<Header>, name: string): (r: seq<Header>)
    ensures forall h :: h in r <==> h in headers && h.0 != name
  {
    if |headers| == 0 then []
    else if headers[0].0 == name then RemoveName(headers[1..], name)
    else [headers[0]] + RemoveName(headers[1..], name)
  }

  /** `HeaderMap::extend` with the kept overrides: the body is unchanged, the
      earlier headers stay as they were and the converted overrides follow. */
  function ExtendHeaders(resp: Response, overrides: seq<Header>, g: HeaderGrammar): (r: Response)
    ensures r.body == resp.body
    ensures |r.headers| >= |resp.headers| && r.headers[..|resp.headers|] == resp.headers
    ensures forall h :: h in r.headers <==>
              h in resp.headers || exists i :: 0 <= i < |overrides| && ConvertOverride(overrides[i], g) == Some(h)
  {
    Response(resp.body, resp.headers + KeepConvertible(overrides, g))
  }

  // ---------------------------------------------------------------------
  // into_response
  // ---------------------------------------------------------------------

  /** The response before any metadata: the raw payload verbatim on the fast
      path, the JSON encoding otherwise, with the JSON content type either
      way. */
  function BaseResponse(b: BatchResponse): (r: Response)
    requires RawDataConsistent(b)
    ensures b.hasRawData ==> r.body == RawBody(b.rawData.value)
    ensures !b.hasRawData ==> r.body == JsonBody(b)
    ensures r.headers == [(ContentTypeName, JsonContentType)]
  {
    if b.hasRawData then Response(RawBody(b.rawData.value), [(ContentTypeName, JsonContentType)])
    else Response(JsonBody(b), [(ContentTypeName, JsonContentType)])
  }

  /** The cache directive the encoder sets, if any: only for a successful
      batch whose directive value is a valid header value. */
  function CacheDirective(b: BatchResponse, g: HeaderGrammar): (d: Option<string>)
    ensures d.Some? <==> b.isOk && b.cacheValue.Some? && g.validValue(b.cacheValue.value)
    ensures d.Some? ==> b.cacheValue == d
  {
    if b.isOk then
      match b.cacheValue
      case Some(v) => if g.validValue(v) then Some(v) else None
      case None => None
    else None
  }

  /** The `cache-control` step: inserts the directive when there is one and
      changes nothing otherwise. */
  function WithCacheControl(resp: Response, b: BatchResponse, g: HeaderGrammar): (r: Response)
    ensures r.body == resp.body
    ensures forall v :: Carries(r.headers, CacheControlName, v) <==>
              CacheDirective(b, g) == Some(v) ||
              (CacheDirective(b, g).None? && Carries(resp.headers, CacheControlName, v))
    ensures forall h: Header :: h.0 != CacheControlName ==> (h in r.headers <==> h in resp.headers)
  {
    match CacheDirective(b, g)
    case Some(v) => Response(resp.body, Insert(resp.headers, CacheControlName, v))
    case None => resp
  }

  /** `GraphQLBatchResponse::into_response`. */
  function IntoResponse(b: BatchResponse, g: HeaderGrammar): (r: Response)
    requires RawDataConsistent(b)
    ensures b.hasRawData ==> r.body == RawBody(b.rawData.value)
    ensures !b.hasRawData ==> r.body == JsonBody(b)
    ensures |r.headers| >= 1 && r.headers[0] == (ContentTypeName, JsonContentType)
    ensures forall v :: Carries(r.headers, CacheControlName, v) <==>
              (b.isOk && b.cacheValue == Some(v) && g.validValue(v)) ||
              Carries(KeepConvertible(b.overrides, g), CacheControlName, v)
  {
    var base := BaseResponse(b);
    var cached := WithCacheControl(base, b, g);
    var r := ExtendHeaders(cached, b.overrides, g);
    assert forall v :: !Carries(base.headers, CacheControlName, v);
    assert |cached.headers| >= 1 && cached.headers[0] == (ContentTypeName, JsonContentType);
    assert r.headers[..|cached.headers|] == cached.headers;
    assert r.headers[0] == r.headers[..|cached.headers|][0];
    r
  }

  /** The headers set before the extend step, in order: the content type
      and, for a successful batch with a valid directive, `cache-control`. */
  function MetadataHeaders(b: BatchResponse, g: HeaderGrammar): seq<Header> {
    [(ContentTypeName, JsonContentType)] +
    match CacheDirective(b, g)
    case Some(v) => [(CacheControlName, v)]
    case None => []
  }

  /** The encoded headers are the metadata headers followed by the kept
      overrides: the extend step only appends. */
  lemma HeadersLayout(b: BatchResponse, g: HeaderGrammar)
    requires RawDataConsistent(b)
    ensures IntoResponse(b, g).headers == MetadataHeaders(b, g) + KeepConvertible(b.overrides, g)
  {
    var base := BaseResponse(b);
    assert RemoveName(base.headers, CacheControlName) == base.headers by {
      assert base.headers[1..] == [];
    }
  }

  /** When no resolver-supplied header converts to a `cache-control` header,
      the response carries `cache-control: v` iff the batch succeeded, its
      directive value is `v`, and `v` is a valid header value. */
  lemma CacheControlIff(b: BatchResponse, g: HeaderGrammar, v: string)
    requires RawDataConsistent(b)
    requires forall i :: 0 <= i < |b.overrides| && ConvertOverride(b.overrides[i], g).Some? ==>
               ConvertOverride(b.overrides[i], g).value.0 != CacheControlName
    ensures Carries(IntoResponse(b, g).headers, CacheControlName, v) <==>
            b.isOk && b.cacheValue == Some(v) && g.validValue(v)
  {
  }

  /** A failed batch never gets a `cache-control` header from the encoder:
      any it carries came from a resolver-supplied header. */
  lemma FailedBatchNotCached(b: BatchResponse, g: HeaderGrammar, v: string)
    requires RawDataConsistent(b) && !b.isOk
    ensures Carries(IntoResponse(b, g).headers, CacheControlName, v) ==>
            exists i :: 0 <= i < |b.overrides| && ConvertOverride(b.overrides[i], g) == Some((CacheControlName, v))
  {
  }

  /** The raw fast path replaces only the body: two batches that differ only
      in their raw payload get identical headers. */
  lemma HeadersIndependentOfBody(b1: BatchResponse, b2: BatchResponse, g: HeaderGrammar)
    requires RawDataConsistent(b1) && RawDataConsistent(b2)
    requires b1.isOk == b2.isOk && b1.cacheValue == b2.cacheValue && b1.overrides == b2.overrides
    ensures IntoResponse(b1, g).headers == IntoResponse(b2, g).headers
  {
    HeadersLayout(b1, g);
    HeadersLayout(b2, g);
  }

  /** With raw data present the body is that data byte for byte, whatever
      else the batch holds. */
  lemma RawBodyPrecedence(b1: BatchResponse, b2: BatchResponse, g: HeaderGrammar)
    requires RawDataConsistent(b1) && RawDataConsistent(b2)
    requires b1.hasRawData && b2.hasRawData && b1.rawData == b2.rawData
    ensures IntoResponse(b1, g).body == IntoResponse(b2, g).body == RawBody(b1.rawData.value)
  {
  }

  // ---------------------------------------------------------------------
  // Single responses
  // ---------------------------------------------------------------------

  /** `BatchResponse::from(Response)`: a batch of one, whose accessors answer
      for the single response. */
  function FromSingle(s: SingleResponse): (b: BatchResponse)
    ensures b.hasRawData == s.hasRawData && b.rawData == s.rawData && b.isOk == s.isOk
    ensures b.cacheValue == s.cacheValue && b.overrides == s.overrides
  {
    BatchResponse(s.hasRawData, s.rawData, s.isOk, s.cacheValue, s.overrides)
  }

  /** `GraphQLResponse::into_response`: encoded as the batch built from it. */
  function IntoResponseSingle(s: SingleResponse, g: HeaderGrammar): (r: Response)
    requires s.hasRawData ==> s.rawData.Some?
    ensures s.hasRawData ==> r.body == RawBody(s.rawData.value)
    ensures !s.hasRawData ==> r.body == JsonBody(FromSingle(s))
    ensures forall v :: Carries(r.headers, CacheControlName, v) <==>
              (s.isOk && s.cacheValue == Some(v) && g.validValue(v)) ||
              Carries(KeepConvertible(s.overrides, g), CacheControlName, v)
  {
    IntoResponse(FromSingle(s), g)
  }

  /** Every property of the batch encoder carries over to single responses. */
  lemma SingleEncodesAsBatch(s: SingleResponse, g: HeaderGrammar)
    requires s.hasRawData ==> s.rawData.Some?
    ensures RawDataConsistent(FromSingle(s))
    ensures IntoResponseSingle(s, g) == IntoResponse(FromSingle(s), g)
  {
  }

  /** A mixed-case `Cache-Control` override on a failed batch reaches the
      response as a lower-case `cache-control` header, because conversion
      lower-cases names: the encoder's own success-only rule does not stop
      it. */
  lemma MixedCaseCacheOverride(g: HeaderGrammar, v: string)
    requires g.validName("Cache-Control") && g.validValue(v)
    ensures var b := BatchResponse(false, None, false, None, [("Cache-Control", v)]);
            Carries(IntoResponse(b, g).headers, CacheControlName, v)
  {
  }

  /** Three overrides, one with a name the grammar rejects: exactly the two
      valid ones are kept, lower-cased and in order. */
  lemma DropSafetyExample()
    ensures var g := HeaderGrammar(n => |n| > 0 && ' ' !in n, v => true);
            KeepConvertible([("bad name", "1"), ("x-a", "2"), ("X-B", "3")], g) ==
            [("x-a", "2"), ("x-b", "3")]
  {
    var g := HeaderGrammar(n => |n| > 0 && ' ' !in n, v => true);
    var ov: seq<Header> := [("bad name", "1"), ("x-a", "2"), ("X-B", "3")];
    assert ' ' in ov[0].0 by { assert ov[0].0[3] == ' '; }
    assert ov[1..][1..] == [ov[2]];
    assert Lower("x-a") == "x-a";
    assert Lower("X-B") == "x-b";
  }
}
