/** Reference definitions from RFC 2617 ("HTTP Authentication: Basic and
    Digest Access Authentication"), written independently of the code that
    implements them, so that the implementation can be proved against them. */
module Rfc2617 {

  import opened Wrappers
  import opened External

  /** H(data), section 3.2.1 with algorithm "MD5": the digest rendered as
      lowercase hex. */
  function H(prims: Primitives, data: string): string {
    prims.toHex(prims.md5(data))
  }

  /** KD(secret, data) = H(concat(secret, ":", data)), section 3.2.1. */
  function KD(prims: Primitives, secret: string, data: string): string {
    H(prims, secret + ":" + data)
  }

  /** A1 for algorithm "MD5", section 3.2.2.2. */
  function A1(user: string, realm: string, password: string): string {
    user + ":" + realm + ":" + password
  }

  /** A2 for qop "auth", section 3.2.2.3. */
  function A2(httpMethod: string, uri: string): string {
    httpMethod + ":" + uri
  }

  /** request-digest when qop is present, section 3.2.2.1. */
  function RequestDigest(prims: Primitives, user: string, realm: string, password: string,
                         httpMethod: string, uri: string, nonce: string, nc: string,
                         cnonce: string, qop: string): string
  {
    KD(prims, H(prims, A1(user, realm, password)),
       nonce + ":" + nc + ":" + cnonce + ":" + qop + ":" + H(prims, A2(httpMethod, uri)))
  }

  /** basic-credentials, section 2: "Basic" SP base64(userid ":" password). */
  function BasicCredentials(base64: string -> string, user: string, password: string): string {
    "Basic " + base64(user + ":" + password)
  }

  /** One auth-param of a digest-response (section 3.2.2): a quoted-string
      value or a bare token value. */
  datatype Directive = Quoted(name: string, value: string) | Token(name: string, value: string)

  function Render(d: Directive): string {
    match d
    case Quoted(n, v) => n + "=\"" + v + "\""
    case Token(n, v) => n + "=" + v
  }

  /** A comma-separated list of directives, the `#rule` of section 2.1 of
      RFC 2616 with ", " between elements. */
  function Join(ds: seq<Directive>): string {
    if |ds| == 0 then ""
    else if |ds| == 1 then Render(ds[0])
    else Join(ds[..|ds| - 1]) + ", " + Render(ds[|ds| - 1])
  }

  /** A nine-element list joined, spelled out. */
  lemma JoinNine(ds: seq<Directive>)
    requires |ds| == 9
    ensures Join(ds) == Render(ds[0]) + ", " + Render(ds[1]) + ", " + Render(ds[2]) + ", "
                        + Render(ds[3]) + ", " + Render(ds[4]) + ", " + Render(ds[5]) + ", "
                        + Render(ds[6]) + ", " + Render(ds[7]) + ", " + Render(ds[8])
  {
    assert ds[..9] == ds;
    assert Join(ds[..1]) == Render(ds[0]);
    assert ds[..2][..1] == ds[..1];
    assert Join(ds[..2]) == Render(ds[0]) + ", " + Render(ds[1]);
    assert ds[..3][..2] == ds[..2];
    assert Join(ds[..3]) == Render(ds[0]) + ", " + Render(ds[1]) + ", " + Render(ds[2]);
    assert ds[..4][..3] == ds[..3];
    assert Join(ds[..4]) == Render(ds[0]) + ", " + Render(ds[1]) + ", " + Render(ds[2]) + ", " + Render(ds[3]);
    assert ds[..5][..4] == ds[..4];
    assert Join(ds[..5]) == Render(ds[0]) + ", " + Render(ds[1]) + ", " + Render(ds[2]) + ", " + Render(ds[3]) + ", " + Render(ds[4]);
    assert ds[..6][..5] == ds[..5];
    assert Join(ds[..6]) == Render(ds[0]) + ", " + Render(ds[1]) + ", " + Render(ds[2]) + ", " + Render(ds[3]) + ", " + Render(ds[4]) + ", " + Render(ds[5]);
    assert ds[..7][..6] == ds[..6];
    assert Join(ds[..7]) == Render(ds[0]) + ", " + Render(ds[1]) + ", " + Render(ds[2]) + ", " + Render(ds[3]) + ", " + Render(ds[4]) + ", " + Render(ds[5]) + ", " + Render(ds[6]);
    assert ds[..8][..7] == ds[..7];
    assert Join(ds[..8]) == Render(ds[0]) + ", " + Render(ds[1]) + ", " + Render(ds[2]) + ", " + Render(ds[3]) + ", " + Render(ds[4]) + ", " + Render(ds[5]) + ", " + Render(ds[6]) + ", " + Render(ds[7]);
    assert ds[..9][..8] == ds[..8];
  }

  /** The directives of a digest-response with qop, in the order the client
      sends them. */
  function DigestResponseDirectives(user: string, realm: string, nonce: string, uri: string,
                                    algorithm: string, response: string, qop: string,
                                    nc: string, cnonce: string): seq<Directive>
  {
    [Quoted("username", user), Quoted("realm", realm), Quoted("nonce", nonce),
     Quoted("uri", uri), Token("algorithm", algorithm), Quoted("response", response),
     Token("qop", qop), Token("nc", nc), Quoted("cnonce", cnonce)]
  }

  /** Splits user-pass (section 2) at its first colon into userid and
      password; a userid cannot contain a colon. */
  function SplitUserPass(s: string): (r: Option<(string, string)>)
    ensures r.Some? ==> r.value.0 + ":" + r.value.1 == s
    ensures r.Some? ==> ':' !in r.value.0
    ensures r.None? <==> ':' !in s
  {
    if |s| == 0 then None
    else if s[0] == ':' then Some(("", s[1..]))
    else match SplitUserPass(s[1..])
      case None => None
      case Some(up) => Some(([s[0]] + up.0, up.1))
  }

  /** The receiving side of section 2: recovers (userid, password) from a
      basic-credentials string, given a base64 decoder. */
  function ParseBasicCredentials(text: string, decode: string -> string): Option<(string, string)> {
    if |text| >= 6 && text[..6] == "Basic " then SplitUserPass(decode(text[6..])) else None
  }

  /** Basic credentials of a colon-free userid read back as what was sent. */
  lemma BasicCredentialsRoundTrip(base64: string -> string, decode: string -> string,
                                  user: string, password: string)
    requires ':' !in user
    requires decode(base64(user + ":" + password)) == user + ":" + password
    ensures ParseBasicCredentials(BasicCredentials(base64, user, password), decode)
            == Some((user, password))
  {
    var text := BasicCredentials(base64, user, password);
    assert text[6..] == base64(user + ":" + password);
    SplitAtFirstColon(user, password);
  }

  lemma {:induction false} SplitAtFirstColon(user: string, password: string)
    requires ':' !in user
    ensures SplitUserPass(user + ":" + password) == Some((user, password))
    decreases |user|
  {
    var s := user + ":" + password;
    if |user| > 0 {
      assert s[0] == user[0] && s[1..] == user[1..] + ":" + password;
      SplitAtFirstColon(user[1..], password);
      assert [s[0]] + user[1..] == user;
    } else {
      assert s[1..] == password;
    }
  }
}
