/** The AWS Signature Version 4 request signer of csd/signer.go.

    `signer(authInfo, request)` samples the clock once, hashes the request body,
    and assembles in turn the canonical header block, the canonical request, the
    string to sign, the four-step HMAC signing key, the signature and the
    `Authorization` value. It returns that value, the timestamp (in a field named
    `date`) and the payload hash.

    The clock and the body are parameters here: `now` is the instant
    `time.Now().UTC()` returns, and `Request.body` is what
    `io.ReadAll(request.GetBody())` yields. The source has no error return and
    does not check for empty credentials. It discards both errors of that read,
    and it panics when `GetBody` is nil or fails. Every request of the API client
    has a `bytes.Buffer` or `strings.Reader` body, whose `GetBody` never fails,
    and that is the case modelled here. SHA-256 and HMAC-SHA256 are the `Crypto.Primitives`
    passed in. */
module Signer {
  import opened ByteStrings
  import Hex
  import TimeFormat
  import Crypto

  /** The credentials the signer reads. */
  datatype AuthInfo = AuthInfo(accessKeyId: Bytes, secretAccessKey: Bytes, sessionToken: Bytes)

  /** The parts of the outgoing `http.Request` the signer reads: its method (`httpMethod`), its
      `Host`, its `URL.Path` and the bytes of its body. */
  datatype Request = Request(httpMethod: Bytes, host: Bytes, path: Bytes, body: Bytes)

  /** The signer's result. `date` holds the full timestamp, not the date. */
  datatype Authorizer = Authorizer(authorizationHeaders: Bytes, date: Bytes, payloadHash: Bytes)

  // The constants of signer.go:21-29. The signed-header list is written in
  // pieces that concatenate to the source's single literal.
  const AwsService: Bytes := Ascii("execute-api")
  const RequestQuery: Bytes := Ascii("")
  const RequestContentType: Bytes := Ascii("application/json")
  const AwsRegion: Bytes := Ascii("eu-central-1")
  const SignedHeaders: Bytes :=
    Ascii("content-type;host;") + Ascii("x-amz-content-sha256;") + Ascii("x-amz-date;") + Ascii("x-amz-security-token")

  const Algorithm: Bytes := Ascii("AWS4-HMAC-SHA256")
  const Terminator: Bytes := Ascii("aws4_request")

  /** The names of the five canonical headers, in the order the header block
      lists them. */
  const HeaderNames: seq<Bytes> :=
    [Ascii("content-type"), Ascii("host"), Ascii("x-amz-content-sha256"), Ascii("x-amz-date"), Ascii("x-amz-security-token")]

  /** The canonical header block: five `name:value` lines, no final newline. */
  function CanonicalHeaders(host: Bytes, payloadHash: Bytes, timestamp: Bytes, sessionToken: Bytes): Bytes
  {
    Join([
      Ascii("content-type:") + RequestContentType,
      Ascii("host:") + host,
      Ascii("x-amz-content-sha256:") + Hex.Encode(payloadHash),
      Ascii("x-amz-date:") + timestamp,
      Ascii("x-amz-security-token:") + sessionToken], Newline)
  }

  /** method, path, query, header block, an empty line, signed headers, payload
      hash, one per line. */
  function CanonicalRequest(httpMethod: Bytes, path: Bytes, headers: Bytes, payloadHash: Bytes): Bytes
  {
    Join([httpMethod, path, RequestQuery, headers, [], SignedHeaders, Hex.Encode(payloadHash)], Newline)
  }

  function StringToSign(timestamp: Bytes, date: Bytes, canonicalRequestHash: Bytes): Bytes
  {
    Join([
      Algorithm,
      timestamp,
      date + [Slash] + AwsRegion + [Slash] + AwsService + [Slash] + Terminator,
      Hex.Encode(canonicalRequestHash)], Newline)
  }

  function SigningKey(c: Crypto.Primitives, secretAccessKey: Bytes, date: Bytes): Bytes
  {
    var kDate := c.hmac(Ascii("AWS4") + secretAccessKey, date);
    var kRegion := c.hmac(kDate, AwsRegion);
    var kService := c.hmac(kRegion, AwsService);
    c.hmac(kService, Terminator)
  }

  function AuthorizationHeader(accessKeyId: Bytes, date: Bytes, signature: Bytes): Bytes
  {
    Ascii("AWS4-HMAC-SHA256 Credential=") + accessKeyId + [Slash] + date + [Slash] + AwsRegion
      + [Slash] + AwsService + Ascii("/aws4_request") + Ascii(", SignedHeaders=") + SignedHeaders
      + Ascii(";x-amz-date") + Ascii(", Signature=") + Hex.Encode(signature)
  }

  /** Every intermediate value of one signing run. */
  datatype Derivation = Derivation(
    timestamp: Bytes,
    date: Bytes,
    payloadHash: Bytes,
    canonicalHeaders: Bytes,
    canonicalRequest: Bytes,
    stringToSign: Bytes,
    signingKey: Bytes,
    signature: Bytes,
    result: Authorizer)

  function Derive(c: Crypto.Primitives, auth: AuthInfo, req: Request, now: TimeFormat.DateTime): Derivation
  {
    var timestamp := TimeFormat.Format(now, TimeFormat.TimeLayout);
    var date := TimeFormat.Format(now, TimeFormat.DateLayout);
    var payloadHash := c.sha256(req.body);
    var headers := CanonicalHeaders(req.host, payloadHash, timestamp, auth.sessionToken);
    var canonicalRequest := CanonicalRequest(req.httpMethod, req.path, headers, payloadHash);
    var stringToSign := StringToSign(timestamp, date, c.sha256(canonicalRequest));
    var signingKey := SigningKey(c, auth.secretAccessKey, date);
    var signature := c.hmac(signingKey, stringToSign);
    Derivation(timestamp, date, payloadHash, headers, canonicalRequest, stringToSign, signingKey, signature,
      Authorizer(AuthorizationHeader(auth.accessKeyId, date, signature), timestamp, payloadHash))
  }

  /** `signer(authInfo, request)` at instant `now`. */
  function Sign(c: Crypto.Primitives, auth: AuthInfo, req: Request, now: TimeFormat.DateTime): Authorizer
  {
    Derive(c, auth, req, now).result
  }

  /** The credential scope `date/region/service/aws4_request`. */
  function CredentialScope(date: Bytes): Bytes
  {
    Join([date, AwsRegion, AwsService, Terminator], Slash)
  }

  /** The header name of a `name:value` line. */
  function HeaderName(line: Bytes): Bytes
    requires Colon in line
  {
    line[..IndexOf(line, Colon)]
  }

  /** Request fields that end up on a line of their own. */
  predicate SingleLine(req: Request, auth: AuthInfo) {
    Newline !in req.httpMethod && Newline !in req.path && Newline !in req.host && Newline !in auth.sessionToken
  }

  predicate StrictlySorted(names: seq<Bytes>) {
    forall i, j :: 0 <= i < j < |names| ==> Less(names[i], names[j])
  }
}
