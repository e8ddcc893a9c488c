/** Agreement between the outputs of csd/signer.go: one instant, one payload
    hash and one credential scope flow into every place that names them, and the
    one deliberate disagreement of the source, the doubled `x-amz-date` in the
    `Authorization` value's signed-header list. */
module SignerConsistency {
  import opened ByteStrings
  import opened Wrappers
  import Hex
  import TimeFormat
  import Crypto
  import opened Signer
  import opened SignerProperties

  /** The time is sampled once. The returned `date` is the timestamp. Its
      `x-amz-date` header line is a whole line of the canonical request whatever
      the other values hold, and line 6 of it (counting from 0) when method,
      path and host are single lines. It is the second line of the string to
      sign, and the date of the scope is its prefix. With a four-digit year it is
      16 bytes with 'T' at index 8 and 'Z' last, the date being its first 8. */
  lemma OneInstant(c: Crypto.Primitives, auth: AuthInfo, req: Request, now: TimeFormat.DateTime)
    ensures var d := Derive(c, auth, req, now);
      var r := d.result;
      var lines := Split(d.canonicalRequest, Newline);
      var dateLine := HeaderNames[3] + [Colon] + r.date;
      && r.date == d.timestamp == TimeFormat.Format(now, TimeFormat.TimeLayout)
      && d.date == TimeFormat.Format(now, TimeFormat.DateLayout)
      && r.date == d.date + [TimeFormat.T] + TimeFormat.ClockDigits(now) + [TimeFormat.Z]
      && dateLine in lines
      && (Newline !in req.httpMethod && Newline !in req.path && Newline !in req.host ==>
            |lines| > 7 && lines[6] == dateLine)
      && |Split(d.stringToSign, Newline)| == 4
      && Split(d.stringToSign, Newline)[1] == r.date
      && Split(d.stringToSign, Newline)[2] == CredentialScope(d.date)
      && Split(CredentialScope(d.date), Slash)[0] == d.date
      && (TimeFormat.Valid(now) && TimeFormat.FourDigitYear(now) ==>
            && |r.date| == 16 && |d.date| == 8 && r.date[..8] == d.date
            && r.date[8] == TimeFormat.T && r.date[15] == TimeFormat.Z)
  {
    var d := Derive(c, auth, req, now);
    var layout := CanonicalRequestLayout(d, req, auth);
    var lines := Split(d.canonicalRequest, Newline);
    TimeFormat.TimestampExtendsDate(now);
    CanonicalRequestEdges(c, auth, req, now);
    RequestLinesAt(req.httpMethod, req.path, HeaderValues(req.host, d.payloadHash, d.timestamp, auth.sessionToken), d.payloadHash);
    if Newline !in req.httpMethod && Newline !in req.path && Newline !in req.host {
      assert lines[6] == lines[..7][6] == layout[..7][6] == layout[6];
    }
    StringToSignLines(c, auth, req, now);
    if TimeFormat.Valid(now) && TimeFormat.FourDigitYear(now) {
      TimeFormat.TimestampShape(now);
    }
  }

  /** The payload hash is the SHA-256 of the body and appears three times: as
      the value of the `x-amz-content-sha256` line, as the last line of the
      canonical request, and as the returned `payloadHash`. This holds whatever
      the method, path, host and session token hold. Printed, the hash is 64
      lower-case hexadecimal digits. */
  lemma OnePayloadHash(c: Crypto.Primitives, auth: AuthInfo, req: Request, now: TimeFormat.DateTime)
    ensures var d := Derive(c, auth, req, now);
      var lines := Split(d.canonicalRequest, Newline);
      var hex := Hex.Encode(d.result.payloadHash);
      && d.result.payloadHash == d.payloadHash == c.sha256(req.body)
      && |lines| > 3
      && lines[|lines| - 1] == hex
      && lines[|lines| - 2] == SignedHeaders
      && HeaderNames[2] + [Colon] + hex in lines
      && (Newline !in req.httpMethod && Newline !in req.path && Newline !in req.host ==>
            |lines| > 7 && lines[5] == HeaderNames[2] + [Colon] + hex)
      && (Crypto.WellFormed(c) ==> |hex| == 64)
      && (forall i :: 0 <= i < |hex| ==> Hex.IsDigit(hex[i]))
  {
    var d := Derive(c, auth, req, now);
    var layout := CanonicalRequestLayout(d, req, auth);
    var lines := Split(d.canonicalRequest, Newline);
    CanonicalRequestEdges(c, auth, req, now);
    RequestLinesAt(req.httpMethod, req.path, HeaderValues(req.host, d.payloadHash, d.timestamp, auth.sessionToken), d.payloadHash);
    assert lines[|lines| - 1] == lines[|lines| - 3..][2] == layout[8..][2] == layout[10];
    assert lines[|lines| - 2] == lines[|lines| - 3..][1] == layout[8..][1] == layout[9];
    if Newline !in req.httpMethod && Newline !in req.path && Newline !in req.host {
      assert lines[5] == lines[..7][5] == layout[..7][5] == layout[5];
    }
    Hex.EncodeShape(d.payloadHash);
  }

  lemma ScopeIsJoin(date: Bytes)
    ensures date + [Slash] + AwsRegion + [Slash] + AwsService + [Slash] + Terminator == CredentialScope(date)
  {
    Join4(date, AwsRegion, AwsService, Terminator, Slash);
  }

  lemma ScopeLiterals()
    ensures Newline !in AwsRegion && Slash !in AwsRegion
    ensures Newline !in AwsService && Slash !in AwsService
    ensures Newline !in Terminator && Slash !in Terminator
    ensures Newline !in Algorithm
  {
    assert Newline !in AwsRegion && Slash !in AwsRegion;
    assert Newline !in AwsService && Slash !in AwsService;
    assert Newline !in Terminator && Slash !in Terminator;
    assert Newline !in Algorithm;
  }

  /** The credential scope of a date is the date, the region, the service and
      "aws4_request", and splitting it at '/' gives these four back. */
  lemma ScopeParts(now: TimeFormat.DateTime)
    ensures var date := TimeFormat.Format(now, TimeFormat.DateLayout);
      && Split(CredentialScope(date), Slash) == [date, AwsRegion, AwsService, Terminator]
      && Newline !in CredentialScope(date)
  {
    TimeHasNoSeparator(now);
    ScopeSplit(TimeFormat.Format(now, TimeFormat.DateLayout));
  }

  lemma ScopeSplit(date: Bytes)
    requires Slash !in date && Newline !in date
    ensures Split(CredentialScope(date), Slash) == [date, AwsRegion, AwsService, Terminator]
    ensures Newline !in CredentialScope(date)
  {
    var parts := [date, AwsRegion, AwsService, Terminator];
    ScopeLiterals();
    assert NoneContains(parts, Slash);
    assert NoneContains(parts, Newline);
    SplitJoin(parts, Slash);
    JoinAvoids(parts, Slash, Newline);
  }

  /** The string to sign is the algorithm name, the timestamp, the credential
      scope and the hex SHA-256 of the canonical request, one per line. */
  lemma StringToSignLines(c: Crypto.Primitives, auth: AuthInfo, req: Request, now: TimeFormat.DateTime)
    ensures var d := Derive(c, auth, req, now);
      && Split(d.stringToSign, Newline)
         == [Algorithm, d.timestamp, CredentialScope(d.date), Hex.Encode(c.sha256(d.canonicalRequest))]
      && Split(CredentialScope(d.date), Slash) == [d.date, AwsRegion, AwsService, Terminator]
  {
    var d := Derive(c, auth, req, now);
    TimeHasNoSeparator(now);
    ScopeSplit(d.date);
    StringToSignSplit(d.timestamp, d.date, c.sha256(d.canonicalRequest));
  }

  lemma StringToSignSplit(timestamp: Bytes, date: Bytes, crHash: Bytes)
    requires Newline !in timestamp && Newline !in date && Slash !in date
    ensures Split(StringToSign(timestamp, date, crHash), Newline)
         == [Algorithm, timestamp, CredentialScope(date), Hex.Encode(crHash)]
  {
    var scope := CredentialScope(date);
    var hex := Hex.Encode(crHash);
    var parts := [Algorithm, timestamp, scope, hex];
    ScopeIsJoin(date);
    ScopeSplit(date);
    ScopeLiterals();
    HexBytes(crHash);
    NoneContains4(Algorithm, timestamp, scope, hex, Newline);
    assert StringToSign(timestamp, date, crHash) == Join(parts, Newline);
    SplitJoin(parts, Newline);
  }

  /** The signed-header list the `Authorization` value carries. */
  function AuthorizationSignedHeaders(): Bytes {
    SignedHeaders + Ascii(";x-amz-date")
  }

  /** The `Authorization` value is the algorithm, the access key, the same
      credential scope as the third line of the string to sign, the
      signed-header list and the hex signature, in the layout of section "Adding the signature to
      the HTTP request" of AWS Signature Version 4. */
  lemma AuthorizationLayout(c: Crypto.Primitives, auth: AuthInfo, req: Request, now: TimeFormat.DateTime)
    ensures var d := Derive(c, auth, req, now);
      && d.result.authorizationHeaders
         == Ascii("AWS4-HMAC-SHA256 Credential=") + auth.accessKeyId + [Slash] + CredentialScope(d.date)
            + Ascii(", SignedHeaders=") + AuthorizationSignedHeaders() + Ascii(", Signature=") + Hex.Encode(d.signature)
      && |Split(d.stringToSign, Newline)| == 4
      && CredentialScope(d.date) == Split(d.stringToSign, Newline)[2]
  {
    var d := Derive(c, auth, req, now);
    StringToSignLines(c, auth, req, now);
    AuthorizationHeaderLayout(auth.accessKeyId, d.date, d.signature);
  }

  lemma AuthorizationHeaderLayout(accessKeyId: Bytes, date: Bytes, signature: Bytes)
    ensures AuthorizationHeader(accessKeyId, date, signature)
         == Ascii("AWS4-HMAC-SHA256 Credential=") + accessKeyId + [Slash] + CredentialScope(date)
            + Ascii(", SignedHeaders=") + AuthorizationSignedHeaders() + Ascii(", Signature=") + Hex.Encode(signature)
  {
    ScopeIsJoin(date);
    assert Ascii("/aws4_request") == [Slash] + Terminator;
    Regroup(Ascii("AWS4-HMAC-SHA256 Credential="), accessKeyId, date, AwsRegion, AwsService, Terminator,
      Ascii("/aws4_request"), Ascii(", SignedHeaders="), SignedHeaders, Ascii(";x-amz-date"),
      Ascii(", Signature="), Hex.Encode(signature));
  }

  /** Re-association of the pieces of the `Authorization` value. */
  lemma Regroup(p: Bytes, ak: Bytes, date: Bytes, r: Bytes, s: Bytes, term: Bytes, t: Bytes,
                sh: Bytes, list: Bytes, extra: Bytes, sig: Bytes, hex: Bytes)
    requires t == [Slash] + term
    ensures p + ak + [Slash] + date + [Slash] + r + [Slash] + s + t + sh + list + extra + sig + hex
         == p + ak + [Slash] + (date + [Slash] + r + [Slash] + s + [Slash] + term) + sh + (list + extra) + sig + hex
  {
  }

  /** The signature is the HMAC of the string to sign under the four-step key
      HMAC(HMAC(HMAC(HMAC("AWS4" + secret, date), region), service),
      "aws4_request"); the last 64 bytes of the `Authorization` value decode back
      to it. */
  lemma SignatureFromKeyChain(c: Crypto.Primitives, auth: AuthInfo, req: Request, now: TimeFormat.DateTime)
    requires Crypto.WellFormed(c)
    ensures var d := Derive(c, auth, req, now);
      var a := d.result.authorizationHeaders;
      var kDate := c.hmac(Ascii("AWS4") + auth.secretAccessKey, d.date);
      var key := c.hmac(c.hmac(c.hmac(kDate, AwsRegion), AwsService), Terminator);
      && d.signingKey == key
      && d.signature == c.hmac(key, d.stringToSign)
      && |a| > 64
      && Hex.Decode(a[|a| - 64..]) == Some(c.hmac(key, d.stringToSign))
  {
    var d := Derive(c, auth, req, now);
    var a := d.result.authorizationHeaders;
    Hex.EncodeShape(d.signature);
    Hex.DecodeEncode(d.signature);
    var prefix := a[..|a| - 64];
    assert a == prefix + Hex.Encode(d.signature);
    assert a[|a| - 64..] == Hex.Encode(d.signature);
  }

  /** The `Authorization` value names `x-amz-date` twice: its signed-header list
      is the canonical request's list with ";x-amz-date" appended, so the two
      lists differ and the longer one is not strictly ascending. */
  lemma AuthorizationRepeatsDate()
    ensures AuthorizationSignedHeaders() != SignedHeaders
    ensures Split(AuthorizationSignedHeaders(), Semicolon) == HeaderNames + [Ascii("x-amz-date")]
    ensures HeaderNames[3] == Ascii("x-amz-date")
    ensures !StrictlySorted(Split(AuthorizationSignedHeaders(), Semicolon))
  {
    var names := HeaderNames + [HeaderNames[3]];
    AuthorizationNamesJoin();
    AuthorizationNamesPlain();
    SplitJoin(names, Semicolon);
    NotLessSelf(names[3]);
    assert names[3] == names[5];
  }

  lemma DatePiece()
    ensures Ascii(";x-amz-date") == [Semicolon] + Ascii("x-amz-date")
  {
  }

  lemma AuthorizationNamesJoin()
    ensures Join(HeaderNames + [HeaderNames[3]], Semicolon) == AuthorizationSignedHeaders()
  {
    JoinAppend(HeaderNames, [HeaderNames[3]], Semicolon);
    SignedHeadersIsJoin();
    DatePiece();
  }

  lemma AuthorizationNamesPlain()
    ensures NoneContains(HeaderNames + [HeaderNames[3]], Semicolon)
  {
    var names := HeaderNames + [HeaderNames[3]];
    HeaderNameBytes();
    forall k | 0 <= k < |names| ensures Semicolon !in names[k] {
      if k < 5 {
        assert names[k] == HeaderNames[k];
      } else {
        assert names[k] == HeaderNames[3];
      }
    }
  }

  lemma {:induction false} NotLessSelf(a: Bytes)
    ensures !Less(a, a)
  {
    if |a| > 0 {
      NotLessSelf(a[1..]);
    }
  }

  /** Two requests whose bodies hash differently get different canonical
      requests, whatever their other values and credentials and whenever they
      are signed: their last lines differ. */
  lemma PayloadHashSeparates(c: Crypto.Primitives, auth: AuthInfo, req: Request, now: TimeFormat.DateTime,
                             auth2: AuthInfo, req2: Request, now2: TimeFormat.DateTime)
    requires c.sha256(req.body) != c.sha256(req2.body)
    ensures Derive(c, auth, req, now).canonicalRequest != Derive(c, auth2, req2, now2).canonicalRequest
  {
    var d1 := Derive(c, auth, req, now);
    var d2 := Derive(c, auth2, req2, now2);
    CanonicalRequestSeparates(req.httpMethod, req.path, d1.canonicalHeaders, d1.payloadHash,
      req2.httpMethod, req2.path, d2.canonicalHeaders, d2.payloadHash);
  }

  /** Canonical requests over different payload hashes differ, whatever their
      methods, paths and header blocks. */
  lemma CanonicalRequestSeparates(m1: Bytes, p1: Bytes, h1: Bytes, ph1: Bytes, m2: Bytes, p2: Bytes, h2: Bytes, ph2: Bytes)
    requires ph1 != ph2
    ensures CanonicalRequest(m1, p1, h1, ph1) != CanonicalRequest(m2, p2, h2, ph2)
  {
    LastLineOfRequest(m1, p1, h1, ph1);
    LastLineOfRequest(m2, p2, h2, ph2);
    DifferentLastLines(CanonicalRequest(m1, p1, h1, ph1), CanonicalRequest(m2, p2, h2, ph2), ph1, ph2);
  }

  lemma LastLineOfRequest(m: Bytes, p: Bytes, h: Bytes, ph: Bytes)
    ensures var lines := Split(CanonicalRequest(m, p, h, ph), Newline);
      lines[|lines| - 1] == Hex.Encode(ph)
  {
    var parts := [m, p, RequestQuery, h, [], SignedHeaders, Hex.Encode(ph)];
    HexBytes(ph);
    assert parts[6..] == [Hex.Encode(ph)];
    SplitJoinTail(parts, 6, Newline);
  }

  lemma DifferentLastLines(x: Bytes, y: Bytes, hx: Bytes, hy: Bytes)
    requires Split(x, Newline)[|Split(x, Newline)| - 1] == Hex.Encode(hx)
    requires Split(y, Newline)[|Split(y, Newline)| - 1] == Hex.Encode(hy)
    requires hx != hy
    ensures x != y
  {
    if x == y {
      Hex.EncodeInjective(hx, hy);
    }
  }
}
