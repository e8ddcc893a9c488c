/** The credential checks and the client construction of `configure` in
    csd/provider.go: each of the three provider settings that is empty adds
    one error, in the order access key, secret key, session token, and the
    client is built from the three values whatever the checks found. The user
    agent is computed before the checks and the `getZones` probe runs after
    them; both are parameters here. */
module Provider {
  import opened ByteStrings
  import opened Diag
  import ApiClient

  const MissingSummary: Bytes := Ascii("Unable to find") + Ascii(" authentication info") + Ascii(" for AWS")

  const AccessKeyField: Bytes := Ascii("aws_access_key_id")
  const SecretKeyField: Bytes := Ascii("aws_secret_access_key")
  const TokenField: Bytes := Ascii("aws_session_token")

  const DetailPrefix: Bytes := Ascii("Value for ")
  const DetailSuffix: Bytes := Ascii(" is missing")

  /** "Value for <field> is missing". */
  function MissingDetail(field: Bytes): Bytes
  {
    DetailPrefix + field + DetailSuffix
  }

  function Missing(field: Bytes): Diagnostic
  {
    Diagnostic(Error, MissingSummary, MissingDetail(field))
  }

  /** The three `if … == ""` checks, each appending to the diagnostics. */
  function CheckCredentials(accessKeyId: Bytes, secretAccessKey: Bytes, sessionToken: Bytes): seq<Diagnostic>
  {
    var d0: seq<Diagnostic> := [];
    var d1 := if accessKeyId == [] then d0 + [Missing(AccessKeyField)] else d0;
    var d2 := if secretAccessKey == [] then d1 + [Missing(SecretKeyField)] else d1;
    if sessionToken == [] then d2 + [Missing(TokenField)] else d2
  }

  /** The body of the function `configure` returns: the client, and the
      credential diagnostics followed by those of the `getZones` probe. */
  function Configure(accessKeyId: Bytes, secretAccessKey: Bytes, sessionToken: Bytes, userAgent: Bytes,
                     probe: seq<Diagnostic>): (ApiClient.Client, seq<Diagnostic>)
  {
    var diags := CheckCredentials(accessKeyId, secretAccessKey, sessionToken);
    var client := ApiClient.Client(accessKeyId, secretAccessKey, sessionToken, userAgent);
    (client, diags + probe)
  }
}
