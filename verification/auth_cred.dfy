/** `AuthCred`: one known binding of (user, password) to a host, a port and
    a path prefix, as stored in the credential index. */
module Creds {

  import opened Wrappers
  import opened StringOrder
  import opened Auth

  /** `uint16_t`. */
  type Port = p: int | 0 <= p < 0x1_0000

  predicate EndsWithSlash(p: string) {
    |p| > 0 && p[|p| - 1] == '/'
  }

  /** Every stored path ends in '/'; both constructors see to it. */
  type NormalizedPath = p: string | EndsWithSlash(p) witness "/"

  datatype AuthCred = AuthCred(
    user: string,
    password: string,
    host: string,
    port: Port,
    path: NormalizedPath,
    activated: bool,
    digestAuthParams: Option<DigestAuthParams>)
  {
    predicate IsDigest() {
      digestAuthParams.Some?
    }

    predicate IsActivated() {
      activated
    }

    /** `activate()`: only the flag changes. */
    function Activate(): (c: AuthCred)
      ensures c.IsActivated()
      ensures c == this.(activated := true)
    {
      this.(activated := true)
    }

    /** `upgradeToDigest(params)`: the parameters are replaced wholesale,
        an absent argument included; nothing else changes. */
    function UpgradeToDigest(params: Option<DigestAuthParams>): (c: AuthCred)
      ensures c.IsDigest() <==> params.Some?
      ensures c.digestAuthParams == params
      ensures c.(digestAuthParams := digestAuthParams) == this
    {
      this.(digestAuthParams := params)
    }
  }

  /** The path normalisation of both constructors: append '/' when the
      path is empty or does not already end in one. */
  function NormalizePath(path: string): (r: NormalizedPath)
    ensures StartsWith(r, path)
    ensures r == path <==> EndsWithSlash(path)
    ensures r != path ==> r == path + "/"
  {
    if |path| == 0 || path[|path| - 1] != '/' then path + "/" else path
  }

  /** Normalising twice is normalising once. */
  lemma NormalizePathIdempotent(path: string)
    ensures NormalizePath(NormalizePath(path)) == NormalizePath(path)
  {
  }

  /** The constructor without Digest parameters; `activated` defaults to
      false, as the declaration's default argument does. */
  function NewAuthCred(user: string, password: string, host: string, port: Port, path: string,
                       activated: bool := false): (c: AuthCred)
    ensures c.path == NormalizePath(path)
    ensures !c.IsDigest() && c.IsActivated() == activated
    ensures c.user == user && c.password == password && c.host == host && c.port == port
  {
    AuthCred(user, password, host, port, NormalizePath(path), activated, None)
  }

  /** The constructor taking (possibly absent) Digest parameters. */
  function NewDigestAuthCred(user: string, password: string, host: string, port: Port,
                             path: string, params: Option<DigestAuthParams>,
                             activated: bool := false): (c: AuthCred)
    ensures c.path == NormalizePath(path)
    ensures c.digestAuthParams == params && c.IsActivated() == activated
    ensures c.user == user && c.password == password && c.host == host && c.port == port
  {
    AuthCred(user, password, host, port, NormalizePath(path), activated, params)
  }

  /** `operator==`: the same (host, port, path) binding. */
  predicate SameKey(a: AuthCred, b: AuthCred) {
    a.host == b.host && a.port == b.port && a.path == b.path
  }

  /** `operator<`: host ascending, then port ascending, then path
      DESCENDING, so that for one host and port longer prefixes come first. */
  predicate CredLess(a: AuthCred, b: AuthCred) {
    Less(a.host, b.host)
    || (!Less(b.host, a.host)
        && (a.port < b.port || (!(b.port < a.port) && Less(b.path, a.path))))
  }

  /** The order read lexicographically on (host, port, reversed path). */
  lemma CredLessLexicographic(a: AuthCred, b: AuthCred)
    ensures CredLess(a, b) <==>
              Less(a.host, b.host)
              || (a.host == b.host && (a.port < b.port || (a.port == b.port && Less(b.path, a.path))))
  {
    if !Less(a.host, b.host) && !Less(b.host, a.host) {
      Equivalent(a.host, b.host);
    }
    if a.host == b.host {
      LessIrreflexive(a.host);
    }
  }

  lemma CredLessIrreflexive(a: AuthCred)
    ensures !CredLess(a, a)
  {
    LessIrreflexive(a.host);
    LessIrreflexive(a.path);
  }

  lemma CredLessTransitive(a: AuthCred, b: AuthCred, c: AuthCred)
    requires CredLess(a, b) && CredLess(b, c)
    ensures CredLess(a, c)
  {
    CredLessLexicographic(a, b);
    CredLessLexicographic(b, c);
    CredLessLexicographic(a, c);
    if Less(a.host, b.host) && Less(b.host, c.host) {
      LessTransitive(a.host, b.host, c.host);
    }
    if a.host == b.host && b.host == c.host && a.port == b.port && b.port == c.port
       && Less(b.path, a.path) && Less(c.path, b.path) {
      LessTransitive(c.path, b.path, a.path);
    }
  }

  /** `operator==` holds exactly when neither record is below the other:
      the order is a strict weak order whose equivalence is `SameKey`. */
  lemma SameKeyIffUnordered(a: AuthCred, b: AuthCred)
    ensures SameKey(a, b) <==> !CredLess(a, b) && !CredLess(b, a)
  {
    CredLessLexicographic(a, b);
    CredLessLexicographic(b, a);
    LessTotal(a.host, b.host);
    LessTotal(a.path, b.path);
    if Less(a.host, b.host) {
      LessAsymmetric(a.host, b.host);
    }
    if Less(b.host, a.host) {
      LessAsymmetric(b.host, a.host);
    }
    if a.host == b.host {
      LessIrreflexive(a.host);
    }
    if a.path == b.path {
      LessIrreflexive(a.path);
    }
  }

  /** Both relations look only at the key: user, password, activation and
      Digest parameters play no part. */
  lemma OrderIgnoresPayload(a: AuthCred, a': AuthCred, b: AuthCred, b': AuthCred)
    requires SameKey(a, a') && SameKey(b, b')
    ensures CredLess(a, b) == CredLess(a', b')
    ensures SameKey(a, b) == SameKey(a', b')
  {
  }
}
