# SigV4 request signing and API calls of terraform-provider-csd, in Dafny

This project models the request-signing core of the Terraform provider for idealo's
common-short-domain (CSD) DNS API. It also models the code on either side of that core.

- **The signer** (`csd/signer.go`) takes the credentials, an outgoing request and the
  current instant. It assembles the AWS Signature Version 4 canonical header block, the
  canonical request, the string to sign, the four-step HMAC-SHA256 signing key and the
  `Authorization` value. It returns that value, the timestamp and the SHA-256 payload
  hash.
- **The API client** (`csd/api_client.go`) has five operations: `createZone`,
  `getZone`, `getZones`, `updateZone` and `deleteZone`. Each one builds a request with a
  fixed method and path and signs it. It then adds the client's session token, three
  headers from the signer's result (timestamp, `Authorization` value and hex payload
  hash) and the constant content type. It sets the `User-Agent` and maps the response
  status to diagnostics.
- **The provider's `configure` function** (`csd/provider.go`) reports each empty
  credential setting and builds the API client from the settings.

Go strings and byte slices are byte sequences (`ByteStrings.Bytes`). Four Go
facilities used by the core are written out concretely:

| Go facility | Model |
|---|---|
| `%x` | `Hex.Encode`, lower-case hex |
| `%d` and the time package's zero-padded integers | `Decimal.AppendInt` |
| The layouts `20060102` and `20060102T150405Z` | `TimeFormat.Format` over a broken-down `DateTime` |
| Newline-, slash- and semicolon-separated layouts | `Join` and its inverse `Split` (`strings.Split` semantics) |

Each of these comes with its inverse (`Hex.Decode`, `Decimal.ParseInt`,
`TimeFormat.ParseTimestamp`, `Split`) and a round-trip lemma.

SHA-256 and HMAC-SHA256 are not reimplemented. They are the two fields of a
`Crypto.Primitives` value passed to the signer, and `Crypto.WellFormed` states that
their outputs are 32 bytes.

Modules:

| Module | Contents |
|---|---|
| `Signer` | The signer, step by step |
| `SignerProperties` | Line layouts and header naming |
| `SignerConsistency` | Agreement between the outputs |
| `ApiClient` | Routes, headers, status classification and diagnostics |
| `ApiClientProperties` | Lemmas about `ApiClient` |
| `Provider` | The credential checks |
| `ProviderProperties` | Lemmas about `Provider` |

Helpers: `ByteStrings`, `Hex`, `Decimal`, `TimeFormat`, `Crypto`, `Diag`, `Wrappers`.

## Behaviour that differs from AWS Signature Version 4

In each case below the model follows the code.

- **The `SignedHeaders` lists differ.** In AWS Signature Version 4, the `SignedHeaders`
  list of the `Authorization` value names exactly the headers of the canonical request.
  In the code, the `Authorization` value's list is the canonical request's list with
  `;x-amz-date` appended, so `x-amz-date` appears twice. `signer.go:47` writes
  `SignedHeaders=%s;x-amz-date` with the constant that already ends in
  `x-amz-security-token`. This is modelled as written, and
  `SignerConsistency.AuthorizationRepeatsDate` states the difference.
- **No trimming of header values.** AWS Signature Version 4 trims leading and trailing
  spaces from each canonical header value and collapses inner runs of spaces.
  `signer.go:36` places the values verbatim, and so does the model.
- **The security token is always sent.** AWS Signature Version 4 adds
  `X-Amz-Security-Token` when signing with temporary credentials. `signer.go:36` and
  `api_client.go:44` sign and send it on every request, even when it is empty.

## Other behaviour of the code

- **The signer has no error return.** `signer.go:18-52` has no check for an empty
  access key or secret, and it discards the errors of `GetBody` and `io.ReadAll`
  (`signer.go:31-32`). It panics when the request's `GetBody` is nil or fails. Every
  request `api_client.go` builds has a `bytes.Buffer` or `strings.Reader` body, whose
  `GetBody` never fails, and that is the case `Signer.Sign` models. The only emptiness
  checks are in the provider's `configure` (`provider.go:90-110`), and they do not
  stop the client from being built.
- **`signRequest` is not part of this model.** The client calls it
  (`api_client.go:43`), and the client is modelled as signing with `signer.go`'s
  algorithm.

## Model

| member | source | states |
|---|---|---|
| SignerProperties.CanonicalRequestLines | csd/signer.go:23-37 | When method, path, host and session token hold no newline, the canonical request splits at newlines into exactly eleven lines. Line 0 is the method and line 1 the path. Line 2, the query, is empty. Lines 3-7 are the five `name:value` header lines, with the request's host, the returned timestamp and the session token as values. Line 8 is empty, line 9 is the signed-header list, and line 10 is the hex of the returned payload hash. |
| SignerProperties.HeaderBlockLines | csd/signer.go:36 | When host, timestamp and session token hold no newline, the header block splits into five lines. Line i starts with header name i followed by ':' and its value, so the name read back before the first ':' is that header's name. |
| SignerProperties.SignedHeadersNameTheHeaderBlock | csd/signer.go:26-36 | The `signedHeaders` constant is the five header names of the block joined by ';'. Splitting it at ';' gives them back, and they ascend strictly in byte order. |
| SignerProperties.HeaderNamesAscend | csd/signer.go:26 | content-type < host < x-amz-content-sha256 < x-amz-date < x-amz-security-token, as bytes. |
| SignerProperties.CanonicalHeadersAreLines | csd/signer.go:36 | The header block is the five `name:value` lines joined by newlines, with no final newline. |
| SignerConsistency.OneInstant | csd/signer.go:19-49 | One instant feeds every place a time appears. The returned `date` is the timestamp. Its `x-amz-date` line is a whole line of the canonical request whatever the other values hold, and it is line 6 (counting from 0) when method, path and host hold no newline. The timestamp is the string to sign's second line, and the scope date is its prefix. For a four-digit year the timestamp is 16 bytes, with the 8-byte date first, 'T' at index 8 and 'Z' last. |
| SignerConsistency.OnePayloadHash | csd/signer.go:34-49 | The returned payload hash is SHA-256 of the body, for every request and session token. Its hex form is the last canonical-request line, after the signed-header list. The `x-amz-content-sha256` line carrying it is a whole line, and it is line 5 (counting from 0) when method, path and host hold no newline. For 32-byte digests the hex form is 64 lower-case hex digits. |
| SignerConsistency.PayloadHashSeparates | csd/signer.go:34-37 | Two requests whose bodies have different SHA-256 digests get different canonical requests, whatever their methods, paths, hosts, credentials and instants. |
| SignerConsistency.StringToSignLines | csd/signer.go:39 | The string to sign splits into four lines: "AWS4-HMAC-SHA256", the timestamp, the credential scope and the hex SHA-256 of the canonical request. The scope splits at '/' into date, eu-central-1, execute-api and aws4_request. |
| SignerConsistency.AuthorizationLayout | csd/signer.go:39-47 | The `Authorization` value is "AWS4-HMAC-SHA256 Credential=", the access key, '/', the credential scope, the signed-header list and the hex signature. Its credential scope is byte-identical to the third line (index 2) of the string to sign. |
| SignerConsistency.SignatureFromKeyChain | csd/signer.go:41-47 | The signing key is HMAC(HMAC(HMAC(HMAC("AWS4"+secret, date), region), service), "aws4_request"). The signature is the key's HMAC of the string to sign, and the last 64 bytes of the `Authorization` value hex-decode back to it. |
| SignerConsistency.AuthorizationRepeatsDate | csd/signer.go:26-47 | The `Authorization` signed-header list is the canonical request's list plus a second `x-amz-date`. It differs from the signed list, splits into six names, and is not strictly ascending. |
| TimeFormat.TimestampExtendsDate | csd/signer.go:27-28 | For every instant, the `20060102T150405Z` rendering is the `20060102` rendering, 'T', the six clock digits and 'Z'. |
| TimeFormat.TimestampShape | csd/signer.go:27-28 | For a valid instant with a four-digit year, the timestamp is 16 bytes: eight date digits, 'T', six clock digits and 'Z'. |
| TimeFormat.ParseFormat | csd/signer.go:28 | Reading the timestamp back gives the instant it was made from. |
| TimeFormat.TimestampInjective | csd/signer.go:28 | Two different valid four-digit-year instants never share a timestamp. |
| TimeFormat.LayoutBytes | csd/signer.go:27-28 | Both renderings consist only of digits, '-', 'T' and 'Z', so they never contain the newline or '/' the layouts use as separators. |
| Hex.DecodeEncode | csd/signer.go:37 | `%x` is invertible: decoding the lower-case hex of any byte string gives it back. |
| Hex.EncodeShape | csd/signer.go:37 | `%x` writes two lower-case hex digits per byte. |
| Hex.EncodeInjective | csd/signer.go:37 | Different byte strings print differently under `%x`. |
| Decimal.FormatParse | csd/api_client.go:84 | `%d` (and zero-padded rendering at any width) of every integer, negative ones included, parses back to that integer. |
| ApiClient.Classify | csd/api_client.go:57-319 | 403 is an authentication error for every operation. Success holds exactly on the operation's success code (201 create, 204 delete, 200 otherwise). Not-found holds exactly on 404 for getZone, updateZone and deleteZone. Conflict holds exactly on 409 for createZone. Every code outside the operation's table is unexpected. |
| ApiClientProperties.ClassifyByTable | csd/api_client.go:57-319 | Each operation's status chain agrees with its table of named codes: a listed code takes its listed branch, and any other code is unexpected. |
| ApiClient.Handle | csd/api_client.go:57-321 | Every diagnostic is an error and there is at most one. A status other than the success code always gives exactly one. No diagnostic comes back exactly when the status is the success code and the success body decodes (deleteZone decodes nothing). When the error body decodes, the body's "message" (empty when absent) is the detail under the branch's summary. A 403 uses "Couldn't authenticate to API, please check AWS credentials". A 404 on getZone, updateZone or deleteZone uses "Couldn't find zone with given name". A 409 on createZone uses "Couldn't create zone". When the error body of those branches does not decode, the single diagnostic is the decoder's error. On the success code, a success body that does not decode gives the decoder's error. |
| ApiClientProperties.AuthFirst | csd/api_client.go:57-67 | For every operation (the same branch recurs at lines 117, 177, 231 and 290), 403 gives one diagnostic. It carries the authentication summary, or the decoder's error when the body does not decode. |
| ApiClientProperties.ListHasNoNotFound | csd/api_client.go:177-196 | getZones has no 404 branch: a 404 there is reported as "Unexpected error message from API" with detail "HTTP 404: <body>", while getZone treats it as not-found. |
| ApiClientProperties.UnexpectedReportsStatus | csd/api_client.go:78-85 | A status outside the operation's table gives one "Unexpected error message from API" diagnostic whose detail parses back to the status code and body. |
| ApiClientProperties.UnexpectedDetailRoundTrip | csd/api_client.go:84 | "HTTP %d: %s" loses nothing: the code and the body can be read back from the detail, whatever the body holds. |
| ApiClientProperties.RouteRoundTrip | csd/api_client.go:39-272 | The method and path of an operation identify it and its zone name: POST and GET on /v1/zones create and list, and GET, PUT and DELETE on /v1/zones/<name> read, update and delete. |
| ApiClientProperties.RoutesDistinct | csd/api_client.go:39-272 | Operations of different kinds, or on different zones, never share both method and path. |
| ApiClientProperties.UrlParts | csd/api_client.go:15-39 | Every request URL is `HostURL` followed by the operation's path. Cut at the first '/' after the scheme, it gives the API host and that path, which are the host and path the signer signs. |
| ApiClientProperties.AttachedHeaders | csd/api_client.go:43-49 | After signing, the request carries exactly six header names, each with one value: the session token, the signer's timestamp, the signer's `Authorization` value, application/json, the hex payload hash, and the client's User-Agent. |
| ApiClientProperties.SentHeadersMatchSigned | csd/api_client.go:43-48 | The content type, payload hash, timestamp and session token sent as headers are the values on the signed canonical-request header lines. The host line carries the request's host, and the `Authorization` header sent is the signer's. |
| ProviderProperties.CheckReportsEmptySettings | csd/provider.go:89-110 | One diagnostic per empty setting: as many diagnostics as empty settings, each an error under "Unable to find authentication info for AWS". The one naming a setting is present exactly when that setting is empty, and they come in the order access key, secret key, session token. |
| ProviderProperties.CheckNamesTheSetting | csd/provider.go:90-110 | No diagnostic exactly when all three settings are set. An empty access key alone gives the single detail "Value for aws_access_key_id is missing". |
| ProviderProperties.FieldOfDetail | csd/provider.go:94-108 | Each "Value for <setting> is missing" detail names its setting back, so the three details are distinct. |
| ProviderProperties.ClientBuiltRegardless | csd/provider.go:113-118 | The client is built even when the checks report missing settings, since nothing returns early. Every operation prepared with it sends the given session token as `X-Amz-Security-Token` and the given user agent. Its `Authorization` header starts with "AWS4-HMAC-SHA256 Credential=", the given access key and '/'. This holds for every operation and instant, the empty access key included. |
| ProviderProperties.ConfiguredSecretSigns | csd/provider.go:113-118 | Every operation prepared with the configured client is signed with the given secret. The last 64 bytes of its `Authorization` value decode to the HMAC of the string to sign under the key chain that starts from "AWS4" and the secret. This holds whatever the checks report, for SHA-256 and HMAC digests of 32 bytes. |

## Left out

- SHA-256 and HMAC-SHA256 internals: these come from Go's crypto library. They are the parameters `Crypto.Primitives`, and only their 32-byte output length is assumed, where a lemma needs it.
- `time.Now()`: the instant is a parameter. `TimeFormat.Valid` bounds the fields but does not check days per month.
- Years outside 0..9999: the layouts are modelled as Go writes them (a sign and more digits). The 16-byte shape lemmas assume a four-digit year.
- Reading the body: the signer's `GetBody`/`io.ReadAll` are replaced by the body bytes. The panic on a nil or failing `GetBody` is not modelled, so a request with a nil body, such as the one in csd/data_source_zones.go, is not modelled either.
- HTTP transport, timeouts, `client.Do` and closing the body: left out as I/O. The response's status, body and decoder results are the `Response` parameter.
- JSON: encoding a zone (and the encoder's error return), decoding error bodies into `map[string]string`, and decoding zones on success are not modelled. The encoded zone and the decoder outcomes are parameters, and the returned `Zone` values are not modelled.
- `http.NewRequest`: its URL parsing is not modelled. Zone names go into the path verbatim: no splitting at '?' or '#', no percent-decoding, and no rejection of control bytes, so its error return is not modelled.
- `Header.Add` canonicalises the case of header names; names are kept as the source spells them.
- ApiClientProperties.SentHeadersMatchSigned: assumes zone names and the session token hold no newline. Go's URL parser rejects such paths, and the lemma does not cover the other case.
- The `User-Agent` string (`p.UserAgent(...)`, csd/provider.go:72) and the `getZones` connectivity probe (csd/provider.go:121-123) are parameters of `Provider.Configure`.
- Go's `int` is 64 bits; status codes are unbounded integers here.
- Terraform schema and resource/data-source plumbing, the mock server, `main.go`, csd/client.go, csd/get_credentials.go and the tests are outside the modelled core.
