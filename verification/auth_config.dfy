/** `AuthConfig`: one credential ready to be rendered as the value of an HTTP
    `Authorization` header, in the Basic or the Digest scheme of RFC 2617. */
module Auth {

  import opened Wrappers
  import opened External
  import Rfc2617

  /** `AUTH_NONE` is the scheme of a default-constructed config, which no
      factory produces; `MAX_SUPPORTED_SCHEME` is a count, not a scheme. */
  datatype AuthScheme = AuthNone | AuthBasic | AuthDigest

  /** The parameters of a server's Digest challenge. Only `serverNonce`,
      `realm`, `qop` and `algorithm` are ever read. */
  datatype DigestAuthParams = DigestAuthParams(
    serverNonce: string,
    realm: string,
    clientNonce: string,
    qop: string,
    response: string,
    algorithm: string,
    uri: string)

  /** `digest` holds the Digest directive list (empty for Basic). */
  datatype AuthConfig = AuthConfig(scheme: AuthScheme, user: string, password: string, digest: string)

  /** The nonce count and client nonce are fixed literals, not generated
      per request. */
  const NonceCount := "00000001"
  const ClientNonce := "0a4f113b"

  /** The two-argument constructor. */
  function BasicConfig(user: string, password: string): (c: AuthConfig)
    ensures c.scheme == AuthBasic
    ensures c.user == user && c.password == password
  {
    AuthConfig(AuthBasic, user, password, "")
  }

  /** The response hash of the Digest constructor: three MD5 passes, each
      over text that embeds the hex rendering of the previous ones. */
  function DigestResponse(prims: Primitives, user: string, password: string, path: string,
                          httpMethod: string, params: DigestAuthParams): (r: string)
    ensures r == Rfc2617.RequestDigest(prims, user, params.realm, password, httpMethod, path,
                                       params.serverNonce, NonceCount, ClientNonce, params.qop)
  {
    var rawH1 := user + ":" + params.realm + ":" + password;
    var rawH2 := httpMethod + ":" + path;
    var h1 := prims.toHex(prims.md5(rawH1));
    var h2 := prims.toHex(prims.md5(rawH2));
    var rawResponse := h1 + ":" + params.serverNonce + ":00000001:0a4f113b:" + params.qop + ":" + h2;
    assert rawResponse == h1 + ":" + (params.serverNonce + ":" + NonceCount + ":" + ClientNonce
                                      + ":" + params.qop + ":" + h2);
    prims.toHex(prims.md5(rawResponse))
  }

  /** The directive list the Digest constructor stores, starting with a
      space; `qop` is followed by a space before its comma. */
  function DigestDirectives(user: string, path: string, params: DigestAuthParams,
                            response: string): (r: string)
    ensures r == " " + Rfc2617.Join(Rfc2617.DigestResponseDirectives(
                  user, params.realm, params.serverNonce, path, params.algorithm,
                  response, params.qop + " ", NonceCount, ClientNonce))
  {
    DigestDirectivesAreAList(user, path, params, response);
    " username=\"" + user + "\", realm=\"" + params.realm + "\", nonce=\"" + params.serverNonce
    + "\", uri=\"" + path + "\", algorithm=" + params.algorithm + ", response=\"" + response
    + "\", qop=" + params.qop + " , nc=00000001, cnonce=\"0a4f113b\""
  }

  lemma DigestDirectivesAreAList(user: string, path: string, params: DigestAuthParams,
                                 response: string)
    ensures " username=\"" + user + "\", realm=\"" + params.realm + "\", nonce=\"" + params.serverNonce
            + "\", uri=\"" + path + "\", algorithm=" + params.algorithm + ", response=\"" + response
            + "\", qop=" + params.qop + " , nc=00000001, cnonce=\"0a4f113b\""
         == " " + Rfc2617.Join(Rfc2617.DigestResponseDirectives(
                    user, params.realm, params.serverNonce, path, params.algorithm,
                    response, params.qop + " ", NonceCount, ClientNonce))
  {
    var ds := Rfc2617.DigestResponseDirectives(user, params.realm, params.serverNonce, path, params.algorithm,
                                     response, params.qop + " ", NonceCount, ClientNonce);
    Rfc2617.JoinNine(ds);
    assert Rfc2617.Render(ds[0]) == "username" + "=\"" + user + "\"";
    assert Rfc2617.Render(ds[1]) == "realm" + "=\"" + params.realm + "\"";
    assert Rfc2617.Render(ds[2]) == "nonce" + "=\"" + params.serverNonce + "\"";
    assert Rfc2617.Render(ds[3]) == "uri" + "=\"" + path + "\"";
    assert Rfc2617.Render(ds[4]) == "algorithm" + "=" + params.algorithm;
    assert Rfc2617.Render(ds[5]) == "response" + "=\"" + response + "\"";
    assert Rfc2617.Render(ds[6]) == "qop" + "=" + (params.qop + " ");
    assert Rfc2617.Render(ds[7]) == "nc" + "=" + "00000001";
    assert Rfc2617.Render(ds[8]) == "cnonce" + "=\"" + "0a4f113b" + "\"";
    SourceDirectivesRegrouped(user, params.realm, params.serverNonce, path, params.algorithm,
                              response, params.qop);
  }

  lemma SourceDirectivesRegrouped(user: string, realm: string, nonce: string, path: string,
                                  alg: string, response: string, qop: string)
    ensures " username=\"" + user + "\", realm=\"" + realm + "\", nonce=\"" + nonce
            + "\", uri=\"" + path + "\", algorithm=" + alg + ", response=\"" + response
            + "\", qop=" + qop + " , nc=00000001, cnonce=\"0a4f113b\""
         == " " + (("username" + "=\"" + user + "\"") + ", " + ("realm" + "=\"" + realm + "\"") + ", "
            + ("nonce" + "=\"" + nonce + "\"") + ", " + ("uri" + "=\"" + path + "\"") + ", "
            + ("algorithm" + "=" + alg) + ", " + ("response" + "=\"" + response + "\"") + ", "
            + ("qop" + "=" + (qop + " ")) + ", " + ("nc" + "=" + "00000001") + ", "
            + ("cnonce" + "=\"" + "0a4f113b" + "\""))
  {
    SplitLiterals();
    var sp, q, c, eq, eqq := " ", "\"", ", ", "=", "=\"";
    var r1 := "username" + eqq + user + q;
    var t1 := r1;
    var a1 := " username=\"" + user;
    assert a1 + q == sp + t1;
    RegroupQuotedAfterQuoted(a1, "\", realm=\"", realm, t1, sp, q, c, "realm", eqq);
    var t2 := t1 + c + ("realm" + eqq + realm + q);
    var a2 := a1 + "\", realm=\"" + realm;
    RegroupQuotedAfterQuoted(a2, "\", nonce=\"", nonce, t2, sp, q, c, "nonce", eqq);
    var t3 := t2 + c + ("nonce" + eqq + nonce + q);
    var a3 := a2 + "\", nonce=\"" + nonce;
    RegroupQuotedAfterQuoted(a3, "\", uri=\"", path, t3, sp, q, c, "uri", eqq);
    var t4 := t3 + c + ("uri" + eqq + path + q);
    var a4 := a3 + "\", uri=\"" + path;
    RegroupTokenAfterQuoted(a4, "\", algorithm=", alg, t4, sp, q, c, "algorithm", eq);
    var t5 := t4 + c + ("algorithm" + eq + alg);
    var a5 := a4 + "\", algorithm=" + alg;
    RegroupQuotedAfterToken(a5, ", response=\"", response, t5, sp, q, c, "response", eqq);
    var t6 := t5 + c + ("response" + eqq + response + q);
    var a6 := a5 + ", response=\"" + response;
    RegroupSpacedTokenAfterQuoted(a6, "\", qop=", qop, t6, sp, q, c, "qop", eq);
    var t7 := t6 + c + ("qop" + eq + (qop + sp));
    var a7 := a6 + "\", qop=" + qop;
    RegroupTail(a7, " , nc=00000001, cnonce=\"0a4f113b\"", t7, sp, q, c, "nc", eq, "00000001", "cnonce", eqq, "0a4f113b");
  }

  // The literals of src/AuthConfig.cc:71 are the directive separators and
  // names run together; the lemmas below split them and regroup one
  // directive at a time.

  lemma SplitLiterals()
    ensures " username=\"" == " " + "username" + "=\""
    ensures "\", realm=\"" == "\"" + ", " + "realm" + "=\""
    ensures "\", nonce=\"" == "\"" + ", " + "nonce" + "=\""
    ensures "\", uri=\"" == "\"" + ", " + "uri" + "=\""
    ensures "\", algorithm=" == "\"" + ", " + "algorithm" + "="
    ensures ", response=\"" == ", " + "response" + "=\""
    ensures "\", qop=" == "\"" + ", " + "qop" + "="
    ensures " , nc=00000001, cnonce=\"0a4f113b\"" == " " + ", " + "nc" + "=" + "00000001" + ", " + "cnonce" + "=\"" + "0a4f113b" + "\""
  {
    SplitTailLiteral();
  }

  lemma SplitTailLiteral()
    ensures " , nc=00000001, cnonce=\"0a4f113b\"" == " " + ", " + "nc" + "=" + "00000001" + ", " + "cnonce" + "=\"" + "0a4f113b" + "\""
  {
    assert " , nc=00000001" == " " + ", " + "nc" + "=" + "00000001";
    assert ", cnonce=\"0a4f113b\"" == ", " + "cnonce" + "=\"" + "0a4f113b" + "\"";
  }

  lemma RegroupQuotedAfterQuoted(a: string, l: string, v: string, t: string, sp: string, q: string, c: string, n: string, e: string)
    requires l == q + c + n + e && a + q == sp + t
    ensures a + l + v + q == sp + (t + c + (n + e + v + q))
  {
    calc {
      a + l + v + q;
      a + q + c + n + e + v + q;
      sp + t + c + n + e + v + q;
    }
  }
  lemma RegroupTokenAfterQuoted(a: string, l: string, v: string, t: string, sp: string, q: string, c: string, n: string, e: string)
    requires l == q + c + n + e && a + q == sp + t
    ensures a + l + v == sp + (t + c + (n + e + v))
  {
    calc {
      a + l + v;
      a + q + c + n + e + v;
      sp + t + c + n + e + v;
    }
  }
  lemma RegroupQuotedAfterToken(a: string, l: string, v: string, t: string, sp: string, q: string, c: string, n: string, e: string)
    requires l == c + n + e && a == sp + t
    ensures a + l + v + q == sp + (t + c + (n + e + v + q))
  {
    calc {
      a + l + v + q;
      a + c + n + e + v + q;
      sp + t + c + n + e + v + q;
    }
  }
  lemma RegroupSpacedTokenAfterQuoted(a: string, l: string, v: string, t: string, sp: string, q: string, c: string, n: string, e: string)
    requires l == q + c + n + e && a + q == sp + t
    ensures a + l + v + sp == sp + (t + c + (n + e + (v + sp)))
  {
    calc {
      a + l + v + sp;
      a + q + c + n + e + v + sp;
      sp + t + c + n + e + v + sp;
    }
  }
  lemma RegroupTail(a: string, l: string, t: string, sp: string, q: string, c: string, n8: string, eq: string, v8: string,
             n9: string, eqq: string, v9: string)
    requires l == sp + c + n8 + eq + v8 + c + n9 + eqq + v9 + q && a + sp == sp + t
    ensures a + l == sp + (t + c + (n8 + eq + v8) + c + (n9 + eqq + v9 + q))
  {
    calc {
      a + l;
      a + sp + c + n8 + eq + v8 + c + n9 + eqq + v9 + q;
      sp + t + c + n8 + eq + v8 + c + n9 + eqq + v9 + q;
    }
  }

  /** The five-argument constructor: a Digest config answering `params`
      for a request of `httpMethod` on `path` (directory plus file). */
  function DigestConfig(user: string, password: string, path: string, httpMethod: string,
                        params: DigestAuthParams, prims: Primitives): (c: AuthConfig)
    ensures c.scheme == AuthDigest
    ensures c.user == user && c.password == password
    ensures c.digest == " " + Rfc2617.Join(Rfc2617.DigestResponseDirectives(
                          user, params.realm, params.serverNonce, path, params.algorithm,
                          Rfc2617.RequestDigest(prims, user, params.realm, password, httpMethod, path,
                                                params.serverNonce, NonceCount, ClientNonce, params.qop),
                          params.qop + " ", NonceCount, ClientNonce))
  {
    var response := DigestResponse(prims, user, password, path, httpMethod, params);
    AuthConfig(AuthDigest, user, password, DigestDirectives(user, path, params, response))
  }

  /** `getAuthText`: the header value. A config of scheme `AuthNone` would
      build a string from a null pointer, so it is excluded. */
  function GetAuthText(c: AuthConfig, prims: Primitives): (r: string)
    requires c.scheme != AuthNone
    ensures c.scheme == AuthBasic ==> r == Rfc2617.BasicCredentials(prims.base64, c.user, c.password)
    ensures c.scheme == AuthDigest ==> r == "Digest " + c.digest
  {
    if c.scheme == AuthBasic then
      var s := c.user + ":" + c.password;
      "Basic " + prims.base64(s)
    else
      "Digest " + c.digest
  }

  /** `AuthConfig::create(user, password)`. */
  function Create(user: string, password: string): (r: Option<AuthConfig>)
    ensures r.None? <==> user == ""
    ensures r.Some? ==> r.value.scheme == AuthBasic
    ensures r.Some? ==> r.value.user == user && r.value.password == password
  {
    if user == "" then None else Some(BasicConfig(user, password))
  }

  /** `AuthConfig::create(user, password, path, method, params)`. */
  function CreateDigest(user: string, password: string, path: string, httpMethod: string,
                        params: DigestAuthParams, prims: Primitives): (r: Option<AuthConfig>)
    ensures r.None? <==> user == ""
    ensures r.Some? ==> r.value.scheme == AuthDigest
    ensures r.Some? ==> r.value.user == user && r.value.password == password
  {
    if user == "" then None else Some(DigestConfig(user, password, path, httpMethod, params, prims))
  }

  /** The Basic header value carries exactly (user, password): a decoder
      that inverts base64 on it recovers both, when the user has no colon. */
  lemma BasicAuthTextRoundTrip(user: string, password: string, prims: Primitives,
                               decode: string -> string)
    requires ':' !in user
    requires decode(prims.base64(user + ":" + password)) == user + ":" + password
    ensures Rfc2617.ParseBasicCredentials(GetAuthText(BasicConfig(user, password), prims), decode)
            == Some((user, password))
  {
    Rfc2617.BasicCredentialsRoundTrip(prims.base64, decode, user, password);
  }

  /** The Digest header value: the scheme name, then two spaces, then the
      directive list whose response field is the RFC 2617 request-digest
      over the same path that appears as `uri`. */
  lemma DigestAuthText(user: string, password: string, path: string, httpMethod: string,
                       params: DigestAuthParams, prims: Primitives)
    ensures GetAuthText(DigestConfig(user, password, path, httpMethod, params, prims), prims)
            == "Digest  " + Rfc2617.Join(Rfc2617.DigestResponseDirectives(
                 user, params.realm, params.serverNonce, path, params.algorithm,
                 Rfc2617.RequestDigest(prims, user, params.realm, password, httpMethod, path,
                                       params.serverNonce, NonceCount, ClientNonce, params.qop),
                 params.qop + " ", NonceCount, ClientNonce))
  {
  }

  /** The Digest config depends on the challenge only through its nonce,
      realm, qop and algorithm: client nonce, response and uri are ignored. */
  lemma DigestIgnoresUnreadParams(user: string, password: string, path: string, httpMethod: string,
                                  p: DigestAuthParams, q: DigestAuthParams, prims: Primitives)
    requires p.serverNonce == q.serverNonce && p.realm == q.realm
    requires p.qop == q.qop && p.algorithm == q.algorithm
    ensures DigestConfig(user, password, path, httpMethod, p, prims)
            == DigestConfig(user, password, path, httpMethod, q, prims)
  {
  }
}
