/** What every operation of csd/api_client.go has in common, and what tells
    them apart: the route each one takes, the headers each one sends and how
    they agree with what was signed, and the status table each one follows. */
module ApiClientProperties {
  import opened ByteStrings
  import opened Wrappers
  import Hex
  import Decimal
  import TimeFormat
  import Crypto
  import Signer
  import SignerProperties
  import opened Diag
  import opened ApiClient

  // ---------------------------------------------------------------------------
  // Routes.

  /** What the server reads off the method and the path. */
  datatype Kind = Create | Read | List | Update | Remove

  function KindOf(op: Operation): Kind
  {
    match op
    case CreateZone(_) => Create
    case GetZone(_) => Read
    case GetZones => List
    case UpdateZone(_, _) => Update
    case DeleteZone(_) => Remove
  }

  function NameOf(op: Operation): Option<Bytes>
  {
    match op
    case GetZone(name) => Some(name)
    case UpdateZone(name, _) => Some(name)
    case DeleteZone(name) => Some(name)
    case _ => None
  }

  /** The route a method and a path select: the zone collection under
      `/v1/zones`, or one zone under `/v1/zones/<name>`. */
  function Resolve(httpMethod: Bytes, path: Bytes): Option<(Kind, Option<Bytes>)>
  {
    if path == ZonesPath then
      if httpMethod == Post then Some((Create, None))
      else if httpMethod == Get then Some((List, None))
      else None
    else if |path| > |ZonesPath| && path[..|ZonesPath| + 1] == ZonesPath + [Slash] then
      var name := path[|ZonesPath| + 1..];
      if httpMethod == Get then Some((Read, Some(name)))
      else if httpMethod == Put then Some((Update, Some(name)))
      else if httpMethod == Delete then Some((Remove, Some(name)))
      else None
    else None
  }

  lemma MethodsDiffer()
    ensures Post != Get && Post != Put && Post != Delete
    ensures Get != Put && Get != Delete && Put != Delete
  {
    assert Get[0] != Put[0];
  }

  /** The method and path of an operation select that operation and its zone
      name back: POST and GET on `/v1/zones` create and list, GET, PUT and
      DELETE on `/v1/zones/<name>` read, update and delete. */
  lemma RouteRoundTrip(op: Operation)
    ensures Resolve(MethodOf(op), PathOf(op)) == Some((KindOf(op), NameOf(op)))
  {
    MethodsDiffer();
    var path := PathOf(op);
    if NameOf(op).Some? {
      assert |path| > |ZonesPath|;
      assert path[..|ZonesPath| + 1] == ZonesPath + [Slash];
      assert path[|ZonesPath| + 1..] == NameOf(op).value;
    }
  }

  /** Two operations of different kinds, or on different zones, never share
      both method and path. */
  lemma RoutesDistinct(op1: Operation, op2: Operation)
    requires KindOf(op1) != KindOf(op2) || NameOf(op1) != NameOf(op2)
    ensures MethodOf(op1) != MethodOf(op2) || PathOf(op1) != PathOf(op2)
  {
    RouteRoundTrip(op1);
    RouteRoundTrip(op2);
  }

  lemma HostLiterals()
    ensures Slash !in ApiHost && Newline !in ApiHost
    ensures Newline !in Post && Newline !in Get && Newline !in Put && Newline !in Delete
  {
    HostPiece0();
    HostPiece1();
  }

  // One lemma per literal keeps each proof small.
  lemma HostPiece0()
    ensures Slash !in Ascii("api.common-short-domain") && Newline !in Ascii("api.common-short-domain")
  {
  }

  lemma HostPiece1()
    ensures Slash !in Ascii(".aws.idealo.cloud") && Newline !in Ascii(".aws.idealo.cloud")
  {
  }

  /** Every URL is `HostURL` followed by the operation's path: the request's
      host is the API host and its path is the operation's path. */
  lemma UrlParts(op: Operation)
    ensures SplitUrl(UrlOf(op)) == Some((ApiHost, PathOf(op)))
    ensures RequestFor(op).host == ApiHost && RequestFor(op).path == PathOf(op)
  {
    HostLiterals();
    SplitUrlAt(ApiHost, PathOf(op));
  }

  lemma SplitUrlAt(host: Bytes, path: Bytes)
    requires Slash !in host && |path| > 0 && path[0] == Slash
    ensures SplitUrl(Scheme + host + path) == Some((host, path))
  {
    var url := Scheme + host + path;
    assert url[..|Scheme|] == Scheme;
    var rest := url[|Scheme|..];
    assert rest == host + [Slash] + path[1..];
    IndexOfFirst(host, path[1..], Slash);
    assert rest[..|host|] == host;
    assert rest[|host|..] == path;
  }

  // ---------------------------------------------------------------------------
  // Headers.

  const HeaderKeys: set<Bytes> :=
    {TokenKey, DateKey, AuthorizationKey, ContentTypeKey, ContentHashKey, UserAgentKey}

  lemma KeysDiffer()
    ensures TokenKey != DateKey && TokenKey != AuthorizationKey && TokenKey != ContentTypeKey
    ensures TokenKey != ContentHashKey && TokenKey != UserAgentKey
    ensures DateKey != AuthorizationKey && DateKey != ContentTypeKey && DateKey != ContentHashKey
    ensures DateKey != UserAgentKey
    ensures AuthorizationKey != ContentTypeKey && AuthorizationKey != ContentHashKey
    ensures AuthorizationKey != UserAgentKey
    ensures ContentTypeKey != ContentHashKey && ContentTypeKey != UserAgentKey
    ensures ContentHashKey != UserAgentKey
  {
    assert TokenKey[0] != ContentHashKey[0];
    assert DateKey[0] != UserAgentKey[0];
  }

  /** After signing, a request carries exactly six headers, each with exactly
      one value: the session token, the signer's timestamp, the signer's
      `Authorization` value, `application/json`, the hex payload hash and the
      client's `User-Agent`. */
  lemma AttachedHeaders(c: Client, a: Signer.Authorizer)
    ensures var h := AttachHeaders(c, a);
      && h.Keys == HeaderKeys
      && h[TokenKey] == [c.sessionToken]
      && h[DateKey] == [a.date]
      && h[AuthorizationKey] == [a.authorizationHeaders]
      && h[ContentTypeKey] == [Signer.RequestContentType]
      && h[ContentHashKey] == [Hex.Encode(a.payloadHash)]
      && h[UserAgentKey] == [c.userAgent]
  {
    KeysDiffer();
  }

  /** The headers sent carry the values the canonical request signed: the
      content type, the hex payload hash, the timestamp and the session token
      of the sent headers are those on lines 3, 5, 6 and 7 (counting from 0) of
      the canonical request, the host on line 4 is the request's, and the sent
      `Authorization` is the signer's. */
  lemma SentHeadersMatchSigned(p: Crypto.Primitives, c: Client, op: Operation, now: TimeFormat.DateTime)
    requires Newline !in PathOf(op) && Newline !in c.sessionToken
    ensures var pr := Prepare(p, c, op, now);
      var d := Signer.Derive(p, AuthOf(c), pr.request, now);
      var lines := Split(d.canonicalRequest, Newline);
      && pr.headers.Keys == HeaderKeys
      && |lines| == 11
      && lines[3] == Signer.HeaderNames[0] + [Colon] + pr.headers[ContentTypeKey][0]
      && lines[4] == Signer.HeaderNames[1] + [Colon] + pr.request.host
      && lines[5] == Signer.HeaderNames[2] + [Colon] + pr.headers[ContentHashKey][0]
      && lines[6] == Signer.HeaderNames[3] + [Colon] + pr.headers[DateKey][0]
      && lines[7] == Signer.HeaderNames[4] + [Colon] + pr.headers[TokenKey][0]
      && pr.headers[AuthorizationKey] == [d.result.authorizationHeaders]
  {
    var pr := Prepare(p, c, op, now);
    var req := RequestFor(op);
    var d := Signer.Derive(p, AuthOf(c), req, now);
    HostLiterals();
    assert Signer.SingleLine(req, AuthOf(c));
    AttachedHeaders(c, pr.authorizer);
    SignerProperties.CanonicalRequestLines(p, AuthOf(c), req, now);
    SignerProperties.RequestLinesAt(req.httpMethod, req.path,
      SignerProperties.HeaderValues(req.host, d.payloadHash, d.timestamp, c.sessionToken), d.payloadHash);
  }

  // ---------------------------------------------------------------------------
  // Status codes.

  /** The status chain of every operation agrees with its table: a listed code
      takes its listed branch, any other code is unexpected. */
  lemma ClassifyByTable(op: Operation, status: int)
    ensures Classify(op, status) == (if status in Table(op) then Table(op)[status] else Unexpected)
  {
  }

  /** A 403 is an authentication error for every operation, whatever else the
      operation handles, and each operation has exactly one success code. */
  lemma AuthFirst(op: Operation, resp: Response)
    requires resp.status == 403
    ensures Classify(op, resp.status) == AuthError
    ensures |Handle(op, resp)| == 1
    ensures resp.errorJson.Ok? ==> Handle(op, resp)[0].summary == AuthSummary
    ensures resp.errorJson.Err? ==> Handle(op, resp) == FromErr(resp.errorJson.error)
  {
  }

  /** `getZones` has no not-found branch: a 404 there is an unexpected status,
      reported with its code and body. */
  lemma ListHasNoNotFound(resp: Response)
    requires resp.status == 404
    ensures Classify(GetZones, 404) == Unexpected
    ensures Handle(GetZones, resp) == [Diagnostic(Error, UnexpectedSummary, UnexpectedDetail(404, resp.body))]
    ensures forall name :: Classify(GetZone(name), 404) == NotFound
  {
  }

  // ---------------------------------------------------------------------------
  // The "HTTP <code>: <body>" detail.

  /** The status code and body a detail of the form "HTTP <code>: <body>"
      carries. */
  function ParseUnexpectedDetail(detail: Bytes): Option<(int, Bytes)>
  {
    var prefix := Ascii("HTTP ");
    if |detail| < |prefix| || detail[..|prefix|] != prefix then None
    else
      var rest := detail[|prefix|..];
      if Colon !in rest then None
      else
        var i := IndexOf(rest, Colon);
        if i + 1 >= |rest| || rest[i + 1] != 32 then None
        else match Decimal.ParseInt(rest[..i])
          case None => None
          case Some(code) => Some((code, rest[i + 2..]))
  }

  lemma FormatHasNoColon(x: int)
    ensures Colon !in Decimal.FormatInt(x)
  {
    var u: nat := if x < 0 then -x else x;
    Decimal.AppendIntParse(u, 0);
    var ds := Decimal.AppendInt(u, 0);
    assert Colon !in ds by {
      forall k | 0 <= k < |ds| ensures ds[k] != Colon {
        assert Decimal.IsDigit(ds[k]);
      }
    }
    if x < 0 {
      assert Decimal.FormatInt(x) == [Decimal.Minus] + ds;
    } else {
      assert Decimal.FormatInt(x) == ds;
    }
  }

  /** The unexpected-status detail gives back the status code and the body,
      whatever bytes the body holds. */
  lemma UnexpectedDetailRoundTrip(status: int, body: Bytes)
    ensures ParseUnexpectedDetail(UnexpectedDetail(status, body)) == Some((status, body))
  {
    var prefix := Ascii("HTTP ");
    var code := Decimal.FormatInt(status);
    var detail := UnexpectedDetail(status, body);
    assert detail[..|prefix|] == prefix;
    var rest := detail[|prefix|..];
    assert rest == code + [Colon] + ([32] + body);
    FormatHasNoColon(status);
    IndexOfFirst(code, [32] + body, Colon);
    assert rest[..|code|] == code;
    assert rest[|code| + 2..] == body;
    Decimal.FormatParse(status, 0);
  }

  /** A response no branch names yields one error whose detail carries its
      status code and body. */
  lemma UnexpectedReportsStatus(op: Operation, resp: Response)
    requires resp.status !in Table(op)
    ensures |Handle(op, resp)| == 1
    ensures Handle(op, resp)[0].summary == UnexpectedSummary
    ensures ParseUnexpectedDetail(Handle(op, resp)[0].detail) == Some((resp.status, resp.body))
  {
    UnexpectedDetailRoundTrip(resp.status, resp.body);
  }
}
