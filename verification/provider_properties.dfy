/** What the credential checks of csd/provider.go promise: one error per empty
    setting, naming that setting, in settings order, under one shared summary,
    and none when all three are set. */
module ProviderProperties {
  import opened ByteStrings
  import opened Wrappers
  import opened Diag
  import Hex
  import TimeFormat
  import Crypto
  import Signer
  import SignerConsistency
  import ApiClient
  import ApiClientProperties
  import opened Provider

  /** The settings in the order they are checked. */
  const Fields: seq<Bytes> := [AccessKeyField, SecretKeyField, TokenField]

  /** The setting a missing-value detail names. */
  function FieldOf(detail: Bytes): Option<Bytes>
  {
    if |detail| >= |DetailPrefix| + |DetailSuffix|
       && detail[..|DetailPrefix|] == DetailPrefix
       && detail[|detail| - |DetailSuffix|..] == DetailSuffix
    then Some(detail[|DetailPrefix|..|detail| - |DetailSuffix|])
    else None
  }

  /** The detail text names its setting back. */
  lemma FieldOfDetail(field: Bytes)
    ensures FieldOf(MissingDetail(field)) == Some(field)
  {
    var d := MissingDetail(field);
    assert d[..|DetailPrefix|] == DetailPrefix;
    assert d[|d| - |DetailSuffix|..] == DetailSuffix;
    assert d[|DetailPrefix|..|d| - |DetailSuffix|] == field;
  }

  lemma FieldsDiffer()
    ensures AccessKeyField != SecretKeyField && AccessKeyField != TokenField && SecretKeyField != TokenField
  {
    assert AccessKeyField[4] != TokenField[4];
  }

  /** Diagnostics for different settings differ. */
  lemma MissingInjective(f: Bytes, g: Bytes)
    requires f != g
    ensures Missing(f) != Missing(g)
  {
    FieldOfDetail(f);
    FieldOfDetail(g);
  }

  /** The position of a diagnostic's setting in the check order, 3 for any
      other diagnostic. */
  function Rank(d: Diagnostic): nat
  {
    if d == Missing(AccessKeyField) then 0
    else if d == Missing(SecretKeyField) then 1
    else if d == Missing(TokenField) then 2
    else 3
  }

  lemma RankOfField(k: nat)
    requires k < 3
    ensures Rank(Missing(Fields[k])) == k
  {
    FieldsDiffer();
    MissingInjective(AccessKeyField, SecretKeyField);
    MissingInjective(AccessKeyField, TokenField);
    MissingInjective(SecretKeyField, TokenField);
  }

  function Empties(accessKeyId: Bytes, secretAccessKey: Bytes, sessionToken: Bytes): nat
  {
    (if accessKeyId == [] then 1 else 0) + (if secretAccessKey == [] then 1 else 0)
      + (if sessionToken == [] then 1 else 0)
  }

  /** Exactly the empty settings are reported, each once, in settings order,
      every report an error under the shared summary naming its setting. */
  lemma CheckReportsEmptySettings(accessKeyId: Bytes, secretAccessKey: Bytes, sessionToken: Bytes)
    ensures var ds := CheckCredentials(accessKeyId, secretAccessKey, sessionToken);
      && |ds| == Empties(accessKeyId, secretAccessKey, sessionToken)
      && AllErrors(ds)
      && (forall i :: 0 <= i < |ds| ==> ds[i].summary == MissingSummary)
      && (Missing(AccessKeyField) in ds <==> accessKeyId == [])
      && (Missing(SecretKeyField) in ds <==> secretAccessKey == [])
      && (Missing(TokenField) in ds <==> sessionToken == [])
      && (forall i, j :: 0 <= i < j < |ds| ==> Rank(ds[i]) < Rank(ds[j]))
  {
    CheckShape(accessKeyId, secretAccessKey, sessionToken);
    CheckMembership(accessKeyId, secretAccessKey, sessionToken);
    CheckOrder(accessKeyId, secretAccessKey, sessionToken);
  }

  lemma CheckShape(accessKeyId: Bytes, secretAccessKey: Bytes, sessionToken: Bytes)
    ensures var ds := CheckCredentials(accessKeyId, secretAccessKey, sessionToken);
      && |ds| == Empties(accessKeyId, secretAccessKey, sessionToken)
      && AllErrors(ds)
      && (forall i :: 0 <= i < |ds| ==> ds[i].summary == MissingSummary)
  {
  }

  lemma CheckMembership(accessKeyId: Bytes, secretAccessKey: Bytes, sessionToken: Bytes)
    ensures var ds := CheckCredentials(accessKeyId, secretAccessKey, sessionToken);
      && (Missing(AccessKeyField) in ds <==> accessKeyId == [])
      && (Missing(SecretKeyField) in ds <==> secretAccessKey == [])
      && (Missing(TokenField) in ds <==> sessionToken == [])
  {
    FieldsDiffer();
    MissingInjective(AccessKeyField, SecretKeyField);
    MissingInjective(AccessKeyField, TokenField);
    MissingInjective(SecretKeyField, TokenField);
  }

  lemma CheckOrder(accessKeyId: Bytes, secretAccessKey: Bytes, sessionToken: Bytes)
    ensures var ds := CheckCredentials(accessKeyId, secretAccessKey, sessionToken);
      forall i, j :: 0 <= i < j < |ds| ==> Rank(ds[i]) < Rank(ds[j])
  {
    RankOfField(0);
    RankOfField(1);
    RankOfField(2);
  }

  /** With all three settings present there is nothing to report, and with one
      missing the report names it. */
  lemma CheckNamesTheSetting(accessKeyId: Bytes, secretAccessKey: Bytes, sessionToken: Bytes)
    ensures accessKeyId != [] && secretAccessKey != [] && sessionToken != [] <==>
      CheckCredentials(accessKeyId, secretAccessKey, sessionToken) == []
    ensures accessKeyId == [] && secretAccessKey != [] && sessionToken != [] ==>
      CheckCredentials(accessKeyId, secretAccessKey, sessionToken)
        == [Diagnostic(Error, MissingSummary, Ascii("Value for ") + Ascii("aws_access_key_id") + Ascii(" is missing"))]
  {
  }

  /** Missing settings do not stop the construction: whatever the checks
      report, even an empty access key, every operation prepared with the
      configured client sends the given session token and user agent, and an
      `Authorization` value that starts with the algorithm and the given access
      key. */
  lemma ClientBuiltRegardless(p: Crypto.Primitives, accessKeyId: Bytes, secretAccessKey: Bytes, sessionToken: Bytes,
                              userAgent: Bytes, probe: seq<Diagnostic>, op: ApiClient.Operation, now: TimeFormat.DateTime)
    ensures var client := Configure(accessKeyId, secretAccessKey, sessionToken, userAgent, probe).0;
      var pr := ApiClient.Prepare(p, client, op, now);
      var a := pr.authorizer.authorizationHeaders;
      var credential := Ascii("AWS4-HMAC-SHA256 Credential=") + accessKeyId + [Slash];
      && pr.headers[ApiClient.TokenKey] == [sessionToken]
      && pr.headers[ApiClient.UserAgentKey] == [userAgent]
      && pr.headers[ApiClient.AuthorizationKey] == [a]
      && |credential| <= |a| && a[..|credential|] == credential
  {
    var client := Configure(accessKeyId, secretAccessKey, sessionToken, userAgent, probe).0;
    assert client == ApiClient.Client(accessKeyId, secretAccessKey, sessionToken, userAgent);
    var pr := ApiClient.Prepare(p, client, op, now);
    ApiClientProperties.AttachedHeaders(client, pr.authorizer);
    CredentialFirst(p, ApiClient.AuthOf(client), ApiClient.RequestFor(op), now);
  }

  /** The configured client signs with the given secret, whatever the checks
      report: the last 64 bytes of every `Authorization` value it sends decode
      to the HMAC of the string to sign under the key derived from that secret. */
  lemma ConfiguredSecretSigns(p: Crypto.Primitives, accessKeyId: Bytes, secretAccessKey: Bytes, sessionToken: Bytes,
                              userAgent: Bytes, probe: seq<Diagnostic>, op: ApiClient.Operation, now: TimeFormat.DateTime)
    requires Crypto.WellFormed(p)
    ensures var client := Configure(accessKeyId, secretAccessKey, sessionToken, userAgent, probe).0;
      var pr := ApiClient.Prepare(p, client, op, now);
      var a := pr.authorizer.authorizationHeaders;
      var d := Signer.Derive(p, Signer.AuthInfo(accessKeyId, secretAccessKey, sessionToken), pr.request, now);
      && |a| > 64
      && Hex.Decode(a[|a| - 64..])
         == Some(p.hmac(Signer.SigningKey(p, secretAccessKey, TimeFormat.Format(now, TimeFormat.DateLayout)), d.stringToSign))
  {
    var client := Configure(accessKeyId, secretAccessKey, sessionToken, userAgent, probe).0;
    assert client == ApiClient.Client(accessKeyId, secretAccessKey, sessionToken, userAgent);
    SignerConsistency.SignatureFromKeyChain(p, ApiClient.AuthOf(client), ApiClient.RequestFor(op), now);
  }

  /** The `Authorization` value starts with the algorithm and the access key. */
  lemma CredentialFirst(p: Crypto.Primitives, auth: Signer.AuthInfo, req: Signer.Request, now: TimeFormat.DateTime)
    ensures var a := Signer.Sign(p, auth, req, now).authorizationHeaders;
      var credential := Ascii("AWS4-HMAC-SHA256 Credential=") + auth.accessKeyId + [Slash];
      |credential| <= |a| && a[..|credential|] == credential
  {
    var d := Signer.Derive(p, auth, req, now);
    SignerConsistency.AuthorizationLayout(p, auth, req, now);
    PrefixOf(Ascii("AWS4-HMAC-SHA256 Credential=") + auth.accessKeyId + [Slash], Signer.CredentialScope(d.date),
      Ascii(", SignedHeaders="), SignerConsistency.AuthorizationSignedHeaders(), Ascii(", Signature="), Hex.Encode(d.signature));
  }

  lemma PrefixOf(pre: Bytes, s1: Bytes, s2: Bytes, s3: Bytes, s4: Bytes, s5: Bytes)
    ensures var w := pre + s1 + s2 + s3 + s4 + s5;
      |pre| <= |w| && w[..|pre|] == pre
  {
    var w := pre + s1 + s2 + s3 + s4 + s5;
    assert w == pre + (s1 + s2 + s3 + s4 + s5);
  }
}
