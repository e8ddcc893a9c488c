/** The request preparation and response handling shared by the five operations
    of csd/api_client.go: `createZone`, `getZone`, `getZones`, `updateZone` and
    `deleteZone`.

    Each operation builds a request with a fixed method and a path under
    `HostURL` and signs it. It then attaches the client's session token, the
    signer's timestamp, `Authorization` value and hex payload hash, the constant
    content type and the client's `User-Agent`, sends the request, and turns
    the status code into diagnostics. The signing is `Signer.Sign`; sending is left out, and the
    response (its status, its body and what the JSON decoder makes of that body)
    is a parameter. */
module ApiClient {
  import opened ByteStrings
  import opened Wrappers
  import Hex
  import Decimal
  import TimeFormat
  import Crypto
  import Signer
  import opened Diag

  /** `ApiClient`: the credentials and the `User-Agent` value. */
  datatype Client = Client(accessKeyId: Bytes, secretAccessKey: Bytes, sessionToken: Bytes, userAgent: Bytes)

  /** One call on a client. `zoneJson` is what `json.NewEncoder(buffer).Encode(zone)`
      wrote; for `UpdateZone`, `name` is `zone.Name`. */
  datatype Operation =
    | CreateZone(zoneJson: Bytes)
    | GetZone(name: Bytes)
    | GetZones
    | UpdateZone(name: Bytes, zoneJson: Bytes)
    | DeleteZone(name: Bytes)

  // `HostURL` is the scheme followed by the API host.
  const Scheme: Bytes := Ascii("https://")
  const ApiHost: Bytes := Ascii("api.common-short-domain") + Ascii(".aws.idealo.cloud")
  const HostUrl: Bytes := Scheme + ApiHost
  const ZonesPath: Bytes := Ascii("/v1/zones")

  const Post: Bytes := Ascii("POST")
  const Get: Bytes := Ascii("GET")
  const Put: Bytes := Ascii("PUT")
  const Delete: Bytes := Ascii("DELETE")

  function MethodOf(op: Operation): Bytes
  {
    match op
    case CreateZone(_) => Post
    case GetZone(_) => Get
    case GetZones => Get
    case UpdateZone(_, _) => Put
    case DeleteZone(_) => Delete
  }

  /** The path part of the URL formatted from `HostURL`; zone names go in
      verbatim. */
  function PathOf(op: Operation): Bytes
  {
    match op
    case CreateZone(_) => ZonesPath
    case GetZone(name) => ZonesPath + [Slash] + name
    case GetZones => ZonesPath
    case UpdateZone(name, _) => ZonesPath + [Slash] + name
    case DeleteZone(name) => ZonesPath + [Slash] + name
  }

  /** The URL `fmt.Sprintf` builds. */
  function UrlOf(op: Operation): Bytes
  {
    HostUrl + PathOf(op)
  }

  /** The request body: the encoded zone, or `strings.NewReader("")`. */
  function BodyOf(op: Operation): Bytes
  {
    match op
    case CreateZone(zoneJson) => zoneJson
    case UpdateZone(_, zoneJson) => zoneJson
    case _ => []
  }

  /** An absolute `https` URL cut into its host (up to the first '/') and its
      path. */
  function SplitUrl(url: Bytes): Option<(Bytes, Bytes)>
  {
    if |url| < |Scheme| || url[..|Scheme|] != Scheme then None
    else
      var rest := url[|Scheme|..];
      if Slash in rest then
        var i := IndexOf(rest, Slash);
        Some((rest[..i], rest[i..]))
      else Some((rest, []))
  }

  /** The request `http.NewRequest` returns, as far as the signer reads it. */
  function RequestFor(op: Operation): Signer.Request
  {
    Signer.Request(MethodOf(op), ApiHost, PathOf(op), BodyOf(op))
  }

  function AuthOf(c: Client): Signer.AuthInfo
  {
    Signer.AuthInfo(c.accessKeyId, c.secretAccessKey, c.sessionToken)
  }

  // ---------------------------------------------------------------------------
  // Headers.

  /** `http.Header`: each name with its values, in the order they were added. */
  type Header = map<Bytes, seq<Bytes>>

  /** `Header.Add`: appends a value to those already under the name. */
  function Add(h: Header, name: Bytes, value: Bytes): Header
  {
    h[name := (if name in h then h[name] else []) + [value]]
  }

  /** `Header.Set`: replaces every value under the name. */
  function Set(h: Header, name: Bytes, value: Bytes): Header
  {
    h[name := [value]]
  }

  const TokenKey: Bytes := Ascii("X-Amz-Security-Token")
  const DateKey: Bytes := Ascii("X-Amz-Date")
  const AuthorizationKey: Bytes := Ascii("Authorization")
  const ContentTypeKey: Bytes := Ascii("content-type")
  const ContentHashKey: Bytes := Ascii("x-amz-content-sha256")
  const UserAgentKey: Bytes := Ascii("User-Agent")

  /** The six header calls every operation makes after signing, on the empty
      header map of a new request. */
  function AttachHeaders(c: Client, a: Signer.Authorizer): Header
  {
    var h0: Header := map[];
    var h1 := Add(h0, TokenKey, c.sessionToken);
    var h2 := Add(h1, DateKey, a.date);
    var h3 := Add(h2, AuthorizationKey, a.authorizationHeaders);
    var h4 := Add(h3, ContentTypeKey, Signer.RequestContentType);
    var h5 := Add(h4, ContentHashKey, Hex.Encode(a.payloadHash));
    Set(h5, UserAgentKey, c.userAgent)
  }

  /** A signed request ready to send: the request and its headers. */
  datatype Prepared = Prepared(request: Signer.Request, headers: Header, authorizer: Signer.Authorizer)

  function Prepare(p: Crypto.Primitives, c: Client, op: Operation, now: TimeFormat.DateTime): Prepared
  {
    var req := RequestFor(op);
    var a := Signer.Sign(p, AuthOf(c), req, now);
    Prepared(req, AttachHeaders(c, a), a)
  }

  // ---------------------------------------------------------------------------
  // Responses.

  /** Which branch of the status-code check a response takes. */
  datatype Outcome = Success | AuthError | NotFound | Conflict | Unexpected

  /** The status code an operation expects on success. */
  function SuccessCode(op: Operation): int
  {
    match op
    case CreateZone(_) => 201
    case DeleteZone(_) => 204
    case _ => 200
  }

  /** The status codes each operation handles by name, with their outcomes. */
  function Table(op: Operation): map<int, Outcome>
  {
    match op
    case CreateZone(_) => map[403 := AuthError, 409 := Conflict, 201 := Success]
    case GetZone(_) => map[403 := AuthError, 404 := NotFound, 200 := Success]
    case GetZones => map[403 := AuthError, 200 := Success]
    case UpdateZone(_, _) => map[403 := AuthError, 404 := NotFound, 200 := Success]
    case DeleteZone(_) => map[403 := AuthError, 404 := NotFound, 204 := Success]
  }

  /** The `if`/`else if` chain on `response.StatusCode` of each operation. */
  function Classify(op: Operation, status: int): (o: Outcome)
    ensures status == 403 ==> o == AuthError
    ensures o == Success <==> status == SuccessCode(op)
    ensures o == NotFound <==> status == 404 && !op.CreateZone? && !op.GetZones?
    ensures o == Conflict <==> status == 409 && op.CreateZone?
    ensures o == Unexpected <==> status !in Table(op)
  {
    match op
    case CreateZone(_) =>
      if status == 403 then AuthError
      else if status == 409 then Conflict
      else if status != 201 then Unexpected
      else Success
    case GetZone(_) =>
      if status == 403 then AuthError
      else if status == 404 then NotFound
      else if status != 200 then Unexpected
      else Success
    case GetZones =>
      if status == 403 then AuthError
      else if status != 200 then Unexpected
      else Success
    case UpdateZone(_, _) =>
      if status == 403 then AuthError
      else if status == 404 then NotFound
      else if status != 200 then Unexpected
      else Success
    case DeleteZone(_) =>
      if status == 403 then AuthError
      else if status == 404 then NotFound
      else if status != 204 then Unexpected
      else Success
  }

  /** What the client reads of a response: the status code, the body bytes,
      what decoding the body into a `map[string]string` yields (the decoder's
      error text on failure), and, on success, the decoder's error when the
      body is decoded into the operation's result, if there is one. */
  datatype Response = Response(
    status: int,
    body: Bytes,
    errorJson: Result<map<Bytes, Bytes>, Bytes>,
    payloadError: Option<Bytes>)

  const AuthSummary: Bytes :=
    Ascii("Couldn't authenticate") + Ascii(" to API, please check") + Ascii(" AWS credentials")
  const NotFoundSummary: Bytes := Ascii("Couldn't find zone") + Ascii(" with given name")
  const ConflictSummary: Bytes := Ascii("Couldn't create zone")
  const UnexpectedSummary: Bytes := Ascii("Unexpected error") + Ascii(" message from API")
  const MessageKey: Bytes := Ascii("message")

  /** `responseBody["message"]`: the empty string when the key is absent. */
  function Message(m: map<Bytes, Bytes>): Bytes
  {
    if MessageKey in m then m[MessageKey] else []
  }

  /** `fmt.Sprintf("HTTP %d: %s", response.StatusCode, body)`. */
  function UnexpectedDetail(status: int, body: Bytes): Bytes
  {
    Ascii("HTTP ") + Decimal.FormatInt(status) + [Colon, 32] + body
  }

  /** A 403, 404 or 409 branch: decode the error body, then report its message
      under the branch's summary. */
  function Report(summary: Bytes, resp: Response): seq<Diagnostic>
  {
    match resp.errorJson
    case Err(e) => FromErr(e)
    case Ok(m) => [Diagnostic(Error, summary, Message(m))]
  }

  /** The diagnostics an operation returns for a response. `deleteZone` decodes
      nothing on success. */
  function Handle(op: Operation, resp: Response): (ds: seq<Diagnostic>)
    ensures AllErrors(ds)
    ensures |ds| <= 1
    ensures resp.status != SuccessCode(op) ==> |ds| == 1
    ensures ds == [] <==> resp.status == SuccessCode(op) && (op.DeleteZone? || resp.payloadError.None?)
    ensures resp.status == 403 && resp.errorJson.Ok? ==>
      ds == [Diagnostic(Error, AuthSummary, Message(resp.errorJson.value))]
    ensures resp.status == 404 && !op.CreateZone? && !op.GetZones? && resp.errorJson.Ok? ==>
      ds == [Diagnostic(Error, NotFoundSummary, Message(resp.errorJson.value))]
    ensures resp.status == 409 && op.CreateZone? && resp.errorJson.Ok? ==>
      ds == [Diagnostic(Error, ConflictSummary, Message(resp.errorJson.value))]
    ensures Classify(op, resp.status) in {AuthError, NotFound, Conflict} && resp.errorJson.Err? ==>
      ds == FromErr(resp.errorJson.error)
    ensures resp.status == SuccessCode(op) && !op.DeleteZone? && resp.payloadError.Some? ==>
      ds == FromErr(resp.payloadError.value)
  {
    match Classify(op, resp.status)
    case AuthError => Report(AuthSummary, resp)
    case NotFound => Report(NotFoundSummary, resp)
    case Conflict => Report(ConflictSummary, resp)
    case Unexpected => [Diagnostic(Error, UnexpectedSummary, UnexpectedDetail(resp.status, resp.body))]
    case Success =>
      if op.DeleteZone? then []
      else match resp.payloadError
        case Some(e) => FromErr(e)
        case None => []
  }
}
