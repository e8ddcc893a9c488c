/** Layout and consistency facts about the signer of csd/signer.go: where each
    value lands in the canonical request, the string to sign and the
    `Authorization` value, and which of them must agree. */
module SignerProperties {
  import opened ByteStrings
  import Hex
  import TimeFormat
  import Crypto
  import opened Signer

  /** The value on each canonical header line, in header order. */
  function HeaderValues(host: Bytes, payloadHash: Bytes, timestamp: Bytes, sessionToken: Bytes): seq<Bytes>
  {
    [RequestContentType, host, Hex.Encode(payloadHash), timestamp, sessionToken]
  }

  /** `name:value` for each of the five canonical headers. */
  function HeaderLines(values: seq<Bytes>): (lines: seq<Bytes>)
    requires |values| == 5
    ensures |lines| == 5
  {
    seq(5, i requires 0 <= i < 5 => HeaderNames[i] + [Colon] + values[i])
  }

  /** A header name is a non-empty line without ':' or ';'. */
  predicate PlainName(name: Bytes) {
    |name| > 0 && Newline !in name && Colon !in name && Semicolon !in name
  }

  // One lemma per name keeps each literal's proof small.
  lemma PlainName0() ensures PlainName(HeaderNames[0]) {}
  lemma PlainName1() ensures PlainName(HeaderNames[1]) {}
  lemma PlainName2() ensures PlainName(HeaderNames[2]) {}
  lemma PlainName3() ensures PlainName(HeaderNames[3]) {}
  lemma PlainName4() ensures PlainName(HeaderNames[4]) {}

  lemma HeaderNameBytes()
    ensures forall i :: 0 <= i < 5 ==> Newline !in HeaderNames[i] && Colon !in HeaderNames[i]
    ensures forall i :: 0 <= i < 5 ==> Semicolon !in HeaderNames[i] && |HeaderNames[i]| > 0
  {
    PlainName0();
    PlainName1();
    PlainName2();
    PlainName3();
    PlainName4();
    assert forall i :: 0 <= i < 5 ==> PlainName(HeaderNames[i]);
  }

  lemma HexBytes(bs: Bytes)
    ensures Newline !in Hex.Encode(bs) && Colon !in Hex.Encode(bs)
  {
    Hex.EncodeShape(bs);
  }

  lemma TimeHasNoSeparator(t: TimeFormat.DateTime)
    ensures var ts := TimeFormat.Format(t, TimeFormat.TimeLayout);
      Newline !in ts && Slash !in ts
    ensures var date := TimeFormat.Format(t, TimeFormat.DateLayout);
      Newline !in date && Slash !in date
  {
    TimeFormat.LayoutBytes(t);
    var ts := TimeFormat.Format(t, TimeFormat.TimeLayout);
    var date := TimeFormat.Format(t, TimeFormat.DateLayout);
    forall i | 0 <= i < |ts| ensures ts[i] != Newline && ts[i] != Slash {
      assert TimeFormat.IsTimeByte(ts[i]);
    }
    forall i | 0 <= i < |date| ensures date[i] != Newline && date[i] != Slash {
      assert TimeFormat.IsTimeByte(date[i]);
    }
  }

  /** The header block is the five `name:value` lines joined by newlines. */
  lemma CanonicalHeadersAreLines(host: Bytes, payloadHash: Bytes, timestamp: Bytes, sessionToken: Bytes)
    ensures CanonicalHeaders(host, payloadHash, timestamp, sessionToken)
      == Join(HeaderLines(HeaderValues(host, payloadHash, timestamp, sessionToken)), Newline)
  {
    var lines := HeaderLines(HeaderValues(host, payloadHash, timestamp, sessionToken));
    assert Ascii("content-type:") == HeaderNames[0] + [Colon];
    assert Ascii("host:") == HeaderNames[1] + [Colon];
    assert Ascii("x-amz-content-sha256:") == HeaderNames[2] + [Colon];
    assert Ascii("x-amz-date:") == HeaderNames[3] + [Colon];
    assert Ascii("x-amz-security-token:") == HeaderNames[4] + [Colon];
    assert lines == [
      Ascii("content-type:") + RequestContentType,
      Ascii("host:") + host,
      Ascii("x-amz-content-sha256:") + Hex.Encode(payloadHash),
      Ascii("x-amz-date:") + timestamp,
      Ascii("x-amz-security-token:") + sessionToken];
  }

  lemma SignedHeadersIsJoin()
    ensures Join(HeaderNames, Semicolon) == SignedHeaders
  {
    var n := HeaderNames;
    Join5(n[0], n[1], n[2], n[3], n[4], Semicolon);
    assert Ascii("content-type;host;") == Ascii("content-type") + [Semicolon] + Ascii("host") + [Semicolon];
    assert Ascii("x-amz-content-sha256;") == Ascii("x-amz-content-sha256") + [Semicolon];
    assert Ascii("x-amz-date;") == Ascii("x-amz-date") + [Semicolon];
  }

  /** The header names ascend strictly in byte order:
      "content-type" < "host" < "x-amz-content-sha256" < "x-amz-date" <
      "x-amz-security-token". */
  lemma HeaderNamesAscend()
    ensures StrictlySorted(HeaderNames)
  {
    AscendByFirstByte();
    AscendAfterAmz();
  }

  /** "content-type" and "host" sort before every other name by their first
      byte. */
  lemma AscendByFirstByte()
    ensures forall j :: 1 <= j < 5 ==> Less(HeaderNames[0], HeaderNames[j])
    ensures forall j :: 2 <= j < 5 ==> Less(HeaderNames[1], HeaderNames[j])
  {
    var n := HeaderNames;
    LessAt(n[0], n[1], 0);
    LessAt(n[0], n[2], 0);
    LessAt(n[0], n[3], 0);
    LessAt(n[0], n[4], 0);
    LessAt(n[1], n[2], 0);
    LessAt(n[1], n[3], 0);
    LessAt(n[1], n[4], 0);
  }

  /** The three "x-amz-" names are ordered by their seventh byte. */
  lemma AscendAfterAmz()
    ensures Less(HeaderNames[2], HeaderNames[3]) && Less(HeaderNames[2], HeaderNames[4])
    ensures Less(HeaderNames[3], HeaderNames[4])
  {
    var n := HeaderNames;
    AmzPrefix();
    LessAt(n[2], n[3], 6);
    LessAt(n[2], n[4], 6);
    LessAt(n[3], n[4], 6);
  }

  lemma AmzPrefix()
    ensures HeaderNames[2][..6] == HeaderNames[3][..6] == HeaderNames[4][..6]
    ensures HeaderNames[2][6] < HeaderNames[3][6] < HeaderNames[4][6]
  {
  }

  /** The names of the header block, joined by ';', are the `signedHeaders`
      constant; splitting the constant gives them back; and they are in strictly
      ascending byte order. */
  lemma SignedHeadersNameTheHeaderBlock()
    ensures Join(HeaderNames, Semicolon) == SignedHeaders
    ensures Split(SignedHeaders, Semicolon) == HeaderNames
    ensures StrictlySorted(HeaderNames)
  {
    SignedHeadersIsJoin();
    HeaderNameBytes();
    SplitJoin(HeaderNames, Semicolon);
    HeaderNamesAscend();
  }

  lemma HeaderNameOfLine(name: Bytes, value: Bytes)
    requires Colon !in name
    ensures Colon in name + [Colon] + value
    ensures HeaderName(name + [Colon] + value) == name
  {
    IndexOfFirst(name, value, Colon);
    assert (name + [Colon] + value)[|name|] == Colon;
    assert (name + [Colon] + value)[..|name|] == name;
  }

  /** Splitting the header block at its newlines gives five lines; line i names
      header i of `HeaderNames` and carries its value after the first ':'. */
  lemma HeaderBlockLines(host: Bytes, payloadHash: Bytes, timestamp: Bytes, sessionToken: Bytes)
    requires Newline !in host && Newline !in timestamp && Newline !in sessionToken
    ensures var values := HeaderValues(host, payloadHash, timestamp, sessionToken);
      var lines := Split(CanonicalHeaders(host, payloadHash, timestamp, sessionToken), Newline);
      && |lines| == 5
      && forall i :: 0 <= i < 5 ==>
           && lines[i] == HeaderNames[i] + [Colon] + values[i]
           && Colon in lines[i]
           && HeaderName(lines[i]) == HeaderNames[i]
  {
    var values := HeaderValues(host, payloadHash, timestamp, sessionToken);
    var lines := HeaderLines(values);
    CanonicalHeadersAreLines(host, payloadHash, timestamp, sessionToken);
    HeaderNameBytes();
    HexBytes(payloadHash);
    assert Newline !in RequestContentType;
    assert NoneContains(lines, Newline) by {
      forall k | 0 <= k < 5 ensures Newline !in lines[k] {
        assert Newline !in values[k];
        assert lines[k] == HeaderNames[k] + [Colon] + values[k];
      }
    }
    SplitJoin(lines, Newline);
    forall i | 0 <= i < 5
      ensures Colon in lines[i] && HeaderName(lines[i]) == HeaderNames[i]
    {
      HeaderNameOfLine(HeaderNames[i], values[i]);
    }
  }

  /** The eleven lines of the canonical request. */
  function CanonicalRequestLayout(d: Derivation, req: Request, auth: AuthInfo): seq<Bytes>
  {
    RequestLines(req.httpMethod, req.path, HeaderValues(req.host, d.payloadHash, d.timestamp, auth.sessionToken), d.payloadHash)
  }

  function RequestLines(httpMethod: Bytes, path: Bytes, values: seq<Bytes>, payloadHash: Bytes): (lines: seq<Bytes>)
    requires |values| == 5
    ensures |lines| == 11
  {
    [httpMethod, path, RequestQuery] + HeaderLines(values) + [[], SignedHeaders, Hex.Encode(payloadHash)]
  }

  /** The eleven lines one by one. */
  lemma RequestLinesAt(httpMethod: Bytes, path: Bytes, values: seq<Bytes>, payloadHash: Bytes)
    requires |values| == 5
    ensures var lines := RequestLines(httpMethod, path, values, payloadHash);
      && lines[0] == httpMethod && lines[1] == path && lines[2] == []
      && lines[3] == HeaderNames[0] + [Colon] + values[0]
      && lines[4] == HeaderNames[1] + [Colon] + values[1]
      && lines[5] == HeaderNames[2] + [Colon] + values[2]
      && lines[6] == HeaderNames[3] + [Colon] + values[3]
      && lines[7] == HeaderNames[4] + [Colon] + values[4]
      && lines[8] == [] && lines[9] == SignedHeaders && lines[10] == Hex.Encode(payloadHash)
  {
    var h := HeaderLines(values);
    assert RequestLines(httpMethod, path, values, payloadHash)[3..8] == h;
  }

  lemma CanonicalRequestIsJoin(httpMethod: Bytes, path: Bytes, host: Bytes, payloadHash: Bytes, timestamp: Bytes, sessionToken: Bytes)
    ensures CanonicalRequest(httpMethod, path, CanonicalHeaders(host, payloadHash, timestamp, sessionToken), payloadHash)
      == Join(RequestLines(httpMethod, path, HeaderValues(host, payloadHash, timestamp, sessionToken), payloadHash), Newline)
  {
    var lines := HeaderLines(HeaderValues(host, payloadHash, timestamp, sessionToken));
    CanonicalHeadersAreLines(host, payloadHash, timestamp, sessionToken);
    var pre := [httpMethod, path, RequestQuery];
    var post := [[], SignedHeaders, Hex.Encode(payloadHash)];
    JoinFlatten(pre, lines, post, Newline);
    assert pre + [Join(lines, Newline)] + post == [httpMethod, path, RequestQuery, Join(lines, Newline), [], SignedHeaders, Hex.Encode(payloadHash)];
  }

  lemma RequestLinesSingle(httpMethod: Bytes, path: Bytes, host: Bytes, payloadHash: Bytes, timestamp: Bytes, sessionToken: Bytes)
    requires Newline !in httpMethod && Newline !in path && Newline !in host
    requires Newline !in timestamp && Newline !in sessionToken
    ensures NoneContains(RequestLines(httpMethod, path, HeaderValues(host, payloadHash, timestamp, sessionToken), payloadHash), Newline)
  {
    var values := HeaderValues(host, payloadHash, timestamp, sessionToken);
    var lines := HeaderLines(values);
    HeaderNameBytes();
    HexBytes(payloadHash);
    assert Newline !in RequestContentType;
    assert NoneContains(lines, Newline) by {
      forall k | 0 <= k < 5 ensures Newline !in lines[k] {
        assert Newline !in values[k];
        assert lines[k] == HeaderNames[k] + [Colon] + values[k];
      }
    }
    assert NoneContains(HeaderNames, Newline);
    JoinAvoids(HeaderNames, Semicolon, Newline);
    SignedHeadersIsJoin();
    var all := RequestLines(httpMethod, path, values, payloadHash);
    forall k | 0 <= k < 11 ensures Newline !in all[k] {
      if 3 <= k < 8 {
        assert all[k] == lines[k - 3];
      }
    }
  }

  /** The canonical request is method, path, an always-empty query, the five
      header lines, an empty line, the signed-header list and the hex payload
      hash, one per line: splitting it at its newlines gives exactly these eleven
      lines. */
  lemma CanonicalRequestLines(c: Crypto.Primitives, auth: AuthInfo, req: Request, now: TimeFormat.DateTime)
    requires SingleLine(req, auth)
    ensures var d := Derive(c, auth, req, now);
      && Split(d.canonicalRequest, Newline) == CanonicalRequestLayout(d, req, auth)
      && |Split(d.canonicalRequest, Newline)| == 11
      && Split(d.canonicalRequest, Newline)[2] == RequestQuery == []
    ensures var d := Derive(c, auth, req, now);
      var lines := Split(d.canonicalRequest, Newline);
      var values := HeaderValues(req.host, d.payloadHash, d.timestamp, auth.sessionToken);
      && |lines| == 11
      && lines[0] == req.httpMethod && lines[1] == req.path
      && (forall i :: 0 <= i < 5 ==> lines[3 + i] == HeaderNames[i] + [Colon] + values[i])
      && lines[4] == HeaderNames[1] + [Colon] + req.host
      && lines[6] == HeaderNames[3] + [Colon] + d.result.date
      && lines[7] == HeaderNames[4] + [Colon] + auth.sessionToken
      && lines[8] == [] && lines[9] == SignedHeaders && lines[10] == Hex.Encode(d.result.payloadHash)
  {
    var d := Derive(c, auth, req, now);
    var values := HeaderValues(req.host, d.payloadHash, d.timestamp, auth.sessionToken);
    TimeHasNoSeparator(now);
    CanonicalRequestIsJoin(req.httpMethod, req.path, req.host, d.payloadHash, d.timestamp, auth.sessionToken);
    RequestLinesSingle(req.httpMethod, req.path, req.host, d.payloadHash, d.timestamp, auth.sessionToken);
    SplitJoin(CanonicalRequestLayout(d, req, auth), Newline);
    RequestLinesAt(req.httpMethod, req.path, values, d.payloadHash);
  }
  /** The lines of the canonical request hold their place whatever the session
      token holds. The last three lines are always the empty line, the
      signed-header list and the hex payload hash. The `x-amz-content-sha256` and
      `x-amz-date` lines are always whole lines of it. With a newline-free method,
      path and host, its first seven lines are those of the layout. */
  lemma CanonicalRequestEdges(c: Crypto.Primitives, auth: AuthInfo, req: Request, now: TimeFormat.DateTime)
    ensures var d := Derive(c, auth, req, now);
      var lines := Split(d.canonicalRequest, Newline);
      var layout := CanonicalRequestLayout(d, req, auth);
      && |lines| > 3
      && lines[|lines| - 3..] == layout[8..]
      && layout[5] in lines && layout[6] in lines
      && (Newline !in req.httpMethod && Newline !in req.path && Newline !in req.host ==>
            |lines| > 7 && lines[..7] == layout[..7])
  {
    var d := Derive(c, auth, req, now);
    TimeHasNoSeparator(now);
    CanonicalRequestIsJoin(req.httpMethod, req.path, req.host, d.payloadHash, d.timestamp, auth.sessionToken);
    LayoutEdges(req.httpMethod, req.path, req.host, d.payloadHash, d.timestamp, auth.sessionToken);
  }

  lemma LayoutEdges(httpMethod: Bytes, path: Bytes, host: Bytes, payloadHash: Bytes, timestamp: Bytes, sessionToken: Bytes)
    requires Newline !in timestamp
    ensures var layout := RequestLines(httpMethod, path, HeaderValues(host, payloadHash, timestamp, sessionToken), payloadHash);
      var lines := Split(Join(layout, Newline), Newline);
      && |lines| > 3
      && lines[|lines| - 3..] == layout[8..]
      && layout[5] in lines && layout[6] in lines
      && (Newline !in httpMethod && Newline !in path && Newline !in host ==>
            |lines| > 7 && lines[..7] == layout[..7])
  {
    var layout := RequestLines(httpMethod, path, HeaderValues(host, payloadHash, timestamp, sessionToken), payloadHash);
    RequestLinesAt(httpMethod, path, HeaderValues(host, payloadHash, timestamp, sessionToken), payloadHash);
    HexBytes(payloadHash);
    HeaderNameBytes();
    SignedHeadersSingleLine();
    LineAvoids(HeaderNames[2], Hex.Encode(payloadHash));
    LineAvoids(HeaderNames[3], timestamp);
    LayoutTail(layout);
    LayoutMiddle(layout);
    if Newline !in httpMethod && Newline !in path && Newline !in host {
      LayoutEdgesHead(httpMethod, path, host, payloadHash, timestamp, sessionToken);
    }
  }

  lemma LayoutEdgesHead(httpMethod: Bytes, path: Bytes, host: Bytes, payloadHash: Bytes, timestamp: Bytes, sessionToken: Bytes)
    requires Newline !in timestamp && Newline !in httpMethod && Newline !in path && Newline !in host
    ensures var layout := RequestLines(httpMethod, path, HeaderValues(host, payloadHash, timestamp, sessionToken), payloadHash);
      var lines := Split(Join(layout, Newline), Newline);
      |lines| > 7 && lines[..7] == layout[..7]
  {
    var layout := RequestLines(httpMethod, path, HeaderValues(host, payloadHash, timestamp, sessionToken), payloadHash);
    RequestLinesAt(httpMethod, path, HeaderValues(host, payloadHash, timestamp, sessionToken), payloadHash);
    HexBytes(payloadHash);
    HeaderNameBytes();
    assert Newline !in RequestContentType;
    LineAvoids(HeaderNames[0], RequestContentType);
    LineAvoids(HeaderNames[1], host);
    LineAvoids(HeaderNames[2], Hex.Encode(payloadHash));
    LineAvoids(HeaderNames[3], timestamp);
    LayoutHead(layout);
  }

  lemma LineAvoids(name: Bytes, value: Bytes)
    requires Newline !in name && Newline !in value
    ensures Newline !in name + [Colon] + value
  {
  }

  lemma SignedHeadersSingleLine()
    ensures Newline !in SignedHeaders
  {
    HeaderNameBytes();
    assert NoneContains(HeaderNames, Newline);
    JoinAvoids(HeaderNames, Semicolon, Newline);
    SignedHeadersIsJoin();
  }

  lemma LayoutTail(layout: seq<Bytes>)
    requires |layout| == 11
    requires Newline !in layout[8] && Newline !in layout[9] && Newline !in layout[10]
    ensures var lines := Split(Join(layout, Newline), Newline);
      |lines| > 3 && lines[|lines| - 3..] == layout[8..]
  {
    assert NoneContains(layout[8..], Newline);
    SplitJoinTail(layout, 8, Newline);
  }

  lemma LayoutMiddle(layout: seq<Bytes>)
    requires |layout| == 11
    requires Newline !in layout[5] && Newline !in layout[6]
    ensures layout[5] in Split(Join(layout, Newline), Newline)
    ensures layout[6] in Split(Join(layout, Newline), Newline)
  {
    SplitJoinHasPart(layout, 5, Newline);
    SplitJoinHasPart(layout, 6, Newline);
  }

  lemma LayoutHead(layout: seq<Bytes>)
    requires |layout| == 11
    requires Newline !in layout[0] && Newline !in layout[1] && Newline !in layout[2] && Newline !in layout[3]
    requires Newline !in layout[4] && Newline !in layout[5] && Newline !in layout[6]
    ensures var lines := Split(Join(layout, Newline), Newline);
      |lines| > 7 && lines[..7] == layout[..7]
  {
    assert NoneContains(layout[..7], Newline);
    SplitJoinHead(layout, 7, Newline);
  }
}
