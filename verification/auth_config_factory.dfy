/** `AuthConfigFactory`: decides, per request, which credential to send,
    and keeps the credential index that HTTP challenges activate. */
module Factory {

  import opened Wrappers
  import opened External
  import opened Auth
  import opened Creds
  import opened CredIndex
  import opened StringOrder

  /** The built-in identity of the FTP resolver. */
  const AuthDefaultUser := "anonymous"
  const AuthDefaultPasswd := "ARIA2USER@"

  datatype Credential = Credential(user: string, password: string)

  datatype ResolverKind = NetrcResolver | DefaultResolver

  /** A resolver as configured before `resolveAuthConfig(host)` is asked:
      which kind, whether netrc's `default` entry is ignored, the
      user-defined credential and the built-in default credential, each
      `None` when never set. */
  datatype ResolverSetup = ResolverSetup(
    kind: ResolverKind,
    ignoreDefault: bool,
    userDefined: Option<Credential>,
    defaultCred: Option<Credential>)

  /** The resolvers' lookup by host (netrc contents included), which this
      model does not define. */
  type Resolve = (ResolverSetup, string) -> Option<Credential>

  /** The option values the factory reads. */
  datatype Options = Options(
    httpAuthChallenge: bool,
    noNetrc: bool,
    httpUser: string,
    httpPasswd: string,
    ftpUser: string,
    ftpPasswd: string)

  /** The request fields the factory reads. */
  datatype Request = Request(
    protocol: string,
    host: string,
    port: Port,
    dir: string,
    file: string,
    httpMethod: string,
    username: string,
    password: string,
    hasPassword: bool)

  predicate IsHttp(protocol: string) {
    protocol == "http" || protocol == "https"
  }

  predicate IsFtp(protocol: string) {
    protocol == "ftp" || protocol == "sftp"
  }

  /** `createHttpAuthResolver`: netrc (without its `default` entry) unless
      netrc is disabled, with the HTTP user and password as user-defined
      credential and no built-in default. */
  function HttpResolverSetup(op: Options): (s: ResolverSetup)
    ensures s.kind == NetrcResolver <==> !op.noNetrc
    ensures s.ignoreDefault <==> s.kind == NetrcResolver
    ensures s.userDefined == Some(Credential(op.httpUser, op.httpPasswd))
    ensures s.defaultCred.None?
  {
    if op.noNetrc then
      ResolverSetup(DefaultResolver, false, Some(Credential(op.httpUser, op.httpPasswd)), None)
    else
      ResolverSetup(NetrcResolver, true, Some(Credential(op.httpUser, op.httpPasswd)), None)
  }

  /** `createFtpAuthResolver`: netrc (its `default` entry included) unless
      netrc is disabled, with the FTP user and password as user-defined
      credential and anonymous login as the built-in default. */
  function FtpResolverSetup(op: Options): (s: ResolverSetup)
    ensures s.kind == NetrcResolver <==> !op.noNetrc
    ensures !s.ignoreDefault
    ensures s.userDefined == Some(Credential(op.ftpUser, op.ftpPasswd))
    ensures s.defaultCred == Some(Credential("anonymous", "ARIA2USER@"))
  {
    var kind := if op.noNetrc then DefaultResolver else NetrcResolver;
    ResolverSetup(kind, false, Some(Credential(op.ftpUser, op.ftpPasswd)),
                  Some(Credential(AuthDefaultUser, AuthDefaultPasswd)))
  }

  /** The bare netrc resolver consulted for an FTP user without password. */
  const NetrcLookup := ResolverSetup(NetrcResolver, false, None, None)

  /** `resolveAuthConfig(host)`: the resolver's answer built by the Basic
      factory, so an empty user yields no config. */
  function ResolveAuthConfig(resolve: Resolve, setup: ResolverSetup, host: string): (r: Option<AuthConfig>)
    ensures r.Some? <==> resolve(setup, host).Some? && resolve(setup, host).value.user != ""
    ensures r.Some? ==> r.value == BasicConfig(resolve(setup, host).value.user,
                                               resolve(setup, host).value.password)
  {
    match resolve(setup, host)
    case None => None
    case Some(c) => Create(c.user, c.password)
  }

  /** The bare netrc resolver knows a credential for `host` whose login is `user`. */
  predicate NetrcHasLogin(resolve: Resolve, host: string, user: string) {
    resolve(NetrcLookup, host).Some? && resolve(NetrcLookup, host).value.user == user
  }

  /** The activated record a request with a user name registers. */
  function RequestCred(req: Request): (c: AuthCred)
    ensures c.IsActivated() && !c.IsDigest()
    ensures c.path == NormalizePath(req.dir)
    ensures c.user == req.username && c.password == req.password
    ensures c.host == req.host && c.port == req.port
  {
    NewAuthCred(req.username, req.password, req.host, req.port, req.dir, true)
  }

  datatype Resolution = Resolution(config: Option<AuthConfig>, index: Index)

  /** The HTTP and HTTPS branch of `createAuthConfig`. */
  function HttpAuthConfig(idx: Index, req: Request, op: Options, resolve: Resolve,
                          prims: Primitives): (r: Resolution)
    requires Valid(idx)
    ensures Valid(r.index)
    ensures r.config.Some? ==> r.config.value.scheme != AuthNone && r.config.value.user != ""
    // The index changes only by gaining the request's own record.
    ensures r.index == idx
            || (req.username != "" && !KeyIn(idx, RequestCred(req))
                && |r.index| == |idx| + 1
                && multiset(r.index) == multiset(idx) + multiset{RequestCred(req)})
    // A user name in the request wins unless challenge mode already knows the path.
    ensures req.username != ""
            && (!op.httpAuthChallenge || FindAuthCred(idx, req.host, req.port, req.dir).None?)
            ==> r.config == Some(BasicConfig(req.username, req.password))
                && KeyIn(r.index, RequestCred(req))
    ensures op.httpAuthChallenge && req.username == ""
            && FindAuthCred(idx, req.host, req.port, req.dir).None?
            ==> r.config.None?
    ensures !op.httpAuthChallenge && req.username == ""
            ==> r.config == ResolveAuthConfig(resolve, HttpResolverSetup(op), req.host)
    // Challenge mode with a known path: the record's credential, Digest iff it has parameters.
    ensures op.httpAuthChallenge && FindAuthCred(idx, req.host, req.port, req.dir).Some?
            ==> var c := idx[FindAuthCred(idx, req.host, req.port, req.dir).value];
                && r.index == idx
                && (r.config.Some? <==> c.user != "")
                && (r.config.Some? ==> r.config.value.user == c.user
                                       && r.config.value.password == c.password
                                       && (r.config.value.scheme == AuthDigest <==> c.IsDigest()))
  {
    if op.httpAuthChallenge then
      match FindAuthCred(idx, req.host, req.port, req.dir)
      case None =>
        if req.username != "" then
          InsertedIsFound(idx, RequestCred(req));
          Resolution(Create(req.username, req.password), UpdateAuthCred(idx, RequestCred(req)))
        else
          Resolution(None, idx)
      case Some(i) =>
        var c := idx[i];
        if c.IsDigest() then
          Resolution(CreateDigest(c.user, c.password, req.dir + req.file, req.httpMethod,
                                  c.digestAuthParams.value, prims), idx)
        else
          Resolution(Create(c.user, c.password), idx)
    else if req.username != "" then
      Resolution(Create(req.username, req.password), UpdateAuthCred(idx, RequestCred(req)))
    else
      Resolution(ResolveAuthConfig(resolve, HttpResolverSetup(op), req.host), idx)
  }

  /** The FTP and SFTP branch of `createAuthConfig`; it never touches the
      index. */
  function FtpAuthConfig(req: Request, op: Options, resolve: Resolve): (r: Option<AuthConfig>)
    ensures r.Some? ==> r.value.scheme == AuthBasic && r.value.user != ""
    // A user name in the request is always the user sent.
    ensures req.username != "" ==> r.Some? && r.value.user == req.username
    ensures req.username != "" && req.hasPassword
            ==> r == Some(BasicConfig(req.username, req.password))
    // Without a password: netrc's password when netrc is on and its login is this user ...
    ensures req.username != "" && !req.hasPassword
            && !op.noNetrc && NetrcHasLogin(resolve, req.host, req.username)
            ==> r == Some(BasicConfig(req.username, resolve(NetrcLookup, req.host).value.password))
    // ... and the FTP password option otherwise.
    ensures req.username != "" && !req.hasPassword
            && !(!op.noNetrc && NetrcHasLogin(resolve, req.host, req.username))
            ==> r == Some(BasicConfig(req.username, op.ftpPasswd))
    ensures req.username == ""
            ==> r == ResolveAuthConfig(resolve, FtpResolverSetup(op), req.host)
  {
    if req.username != "" then
      if req.hasPassword then
        Create(req.username, req.password)
      else
        // A netrc entry for the host counts only if its login is this user.
        var ac := if op.noNetrc then None else ResolveAuthConfig(resolve, NetrcLookup, req.host);
        if ac.Some? && ac.value.user == req.username then ac
        else Create(req.username, op.ftpPasswd)
    else
      ResolveAuthConfig(resolve, FtpResolverSetup(op), req.host)
  }

  /** `createAuthConfig(request, op)`: the config to send (`None` for a
      null pointer) and the index afterwards. */
  function CreateAuthConfig(idx: Index, req: Request, op: Options, resolve: Resolve,
                            prims: Primitives): (r: Resolution)
    requires Valid(idx)
    ensures Valid(r.index)
    // Every config produced can be rendered.
    ensures r.config.Some? ==> r.config.value.scheme != AuthNone && r.config.value.user != ""
    // The index changes only for HTTP, and only by gaining the request's own record.
    ensures r.index == idx
            || (IsHttp(req.protocol) && req.username != "" && !KeyIn(idx, RequestCred(req))
                && |r.index| == |idx| + 1
                && multiset(r.index) == multiset(idx) + multiset{RequestCred(req)})
    ensures !IsHttp(req.protocol) && !IsFtp(req.protocol) ==> r.config.None?
    // HTTP: a user name in the request wins unless challenge mode already knows the path.
    ensures IsHttp(req.protocol) && req.username != ""
            && (!op.httpAuthChallenge || FindAuthCred(idx, req.host, req.port, req.dir).None?)
            ==> r.config == Some(BasicConfig(req.username, req.password))
                && KeyIn(r.index, RequestCred(req))
    ensures IsHttp(req.protocol) && op.httpAuthChallenge && req.username == ""
            && FindAuthCred(idx, req.host, req.port, req.dir).None?
            ==> r.config.None?
    ensures IsHttp(req.protocol) && !op.httpAuthChallenge && req.username == ""
            ==> r.config == ResolveAuthConfig(resolve, HttpResolverSetup(op), req.host)
    // HTTP challenge mode with a known path: the record's credential, Digest iff it has parameters.
    ensures IsHttp(req.protocol) && op.httpAuthChallenge
            && FindAuthCred(idx, req.host, req.port, req.dir).Some?
            ==> var c := idx[FindAuthCred(idx, req.host, req.port, req.dir).value];
                && r.index == idx
                && (r.config.Some? <==> c.user != "")
                && (r.config.Some? ==> r.config.value.user == c.user
                                       && r.config.value.password == c.password
                                       && (r.config.value.scheme == AuthDigest <==> c.IsDigest()))
    // FTP: a user name in the request is always the user sent.
    ensures IsFtp(req.protocol) && req.username != ""
            ==> r.config.Some? && r.config.value.user == req.username
    ensures IsFtp(req.protocol) && req.username != "" && req.hasPassword
            ==> r.config == Some(BasicConfig(req.username, req.password))
    // FTP without a password: netrc's when netrc is on and its login is this user ...
    ensures IsFtp(req.protocol) && req.username != "" && !req.hasPassword
            && !op.noNetrc && NetrcHasLogin(resolve, req.host, req.username)
            ==> r.config == Some(BasicConfig(req.username, resolve(NetrcLookup, req.host).value.password))
    // ... and the FTP password option otherwise.
    ensures IsFtp(req.protocol) && req.username != "" && !req.hasPassword
            && !(!op.noNetrc && NetrcHasLogin(resolve, req.host, req.username))
            ==> r.config == Some(BasicConfig(req.username, op.ftpPasswd))
    ensures IsFtp(req.protocol) && req.username == ""
            ==> r.config == ResolveAuthConfig(resolve, FtpResolverSetup(op), req.host)
  {
    if IsHttp(req.protocol) then
      HttpAuthConfig(idx, req, op, resolve, prims)
    else if IsFtp(req.protocol) then
      Resolution(FtpAuthConfig(req, op, resolve), idx)
    else
      Resolution(None, idx)
  }

  datatype Activation = Activation(ok: bool, index: Index)

  /** `activateAuthCred(host, port, path, op)`: after an HTTP challenge,
      mark the record for the path as activated, creating one from the
      HTTP resolver's answer when no record applies. */
  function ActivateAuthCred(idx: Index, host: string, port: Port, path: string, op: Options,
                            resolve: Resolve): (a: Activation)
    requires Valid(idx)
    ensures Valid(a.index)
    ensures a.ok <==> FindAuthCred(idx, host, port, path).Some?
                      || ResolveAuthConfig(resolve, HttpResolverSetup(op), host).Some?
    ensures !a.ok ==> a.index == idx
    // After success the same lookup finds an activated record.
    ensures a.ok ==> FindAuthCred(a.index, host, port, path).Some?
                     && a.index[FindAuthCred(a.index, host, port, path).value].IsActivated()
    // A hit activates that record in place and nothing else changes.
    ensures FindAuthCred(idx, host, port, path).Some? ==>
              var i := FindAuthCred(idx, host, port, path).value;
              && |a.index| == |idx| && a.index[i] == idx[i].Activate()
              && (forall j :: 0 <= j < |idx| && j != i ==> a.index[j] == idx[j])
    // A miss adds one activated record, for the caller's path, carrying the resolver's credential.
    ensures FindAuthCred(idx, host, port, path).None? && a.ok ==>
              var ac := ResolveAuthConfig(resolve, HttpResolverSetup(op), host).value;
              && |a.index| == |idx| + 1
              && multiset(a.index) == multiset(idx) + multiset{NewAuthCred(ac.user, ac.password, host, port, path, true)}
  {
    match FindAuthCred(idx, host, port, path)
    case None => (
      match ResolveAuthConfig(resolve, HttpResolverSetup(op), host)
      case None => Activation(false, idx)
      case Some(ac) =>
        var c := NewAuthCred(ac.user, ac.password, host, port, path, true);
        FindNormalizesQuery(idx, host, port, path);
        InsertedIsFound(idx, c);
        FindNormalizesQuery(Insert(idx, c), host, port, path);
        Activation(true, Insert(idx, c))
      )
    case Some(i) =>
      var r := idx[i := idx[i].Activate()];
      FindAuthCredIgnoresPayload(idx, r, host, port, path);
      Activation(true, r)
  }

  /** `activateAuthCred(host, port, path, op, digestAuthParams)`: as above,
      and the record's Digest parameters become `params`. */
  function ActivateAuthCredDigest(idx: Index, host: string, port: Port, path: string, op: Options,
                                  resolve: Resolve, params: Option<DigestAuthParams>): (a: Activation)
    requires Valid(idx)
    ensures Valid(a.index)
    ensures a.ok <==> FindAuthCred(idx, host, port, path).Some?
                      || ResolveAuthConfig(resolve, HttpResolverSetup(op), host).Some?
    ensures !a.ok ==> a.index == idx
    // After success the same lookup finds an activated record holding `params`.
    ensures a.ok ==> FindAuthCred(a.index, host, port, path).Some?
                     && a.index[FindAuthCred(a.index, host, port, path).value].IsActivated()
                     && a.index[FindAuthCred(a.index, host, port, path).value].digestAuthParams == params
    // A hit keeps the record's user and password and nothing else changes.
    ensures FindAuthCred(idx, host, port, path).Some? ==>
              var i := FindAuthCred(idx, host, port, path).value;
              && |a.index| == |idx| && a.index[i] == idx[i].Activate().UpgradeToDigest(params)
              && (forall j :: 0 <= j < |idx| && j != i ==> a.index[j] == idx[j])
    ensures FindAuthCred(idx, host, port, path).None? && a.ok ==>
              var ac := ResolveAuthConfig(resolve, HttpResolverSetup(op), host).value;
              && |a.index| == |idx| + 1
              && multiset(a.index) == multiset(idx)
                                      + multiset{NewDigestAuthCred(ac.user, ac.password, host, port, path, params, true)}
  {
    match FindAuthCred(idx, host, port, path)
    case None => (
      match ResolveAuthConfig(resolve, HttpResolverSetup(op), host)
      case None => Activation(false, idx)
      case Some(ac) =>
        var c := NewDigestAuthCred(ac.user, ac.password, host, port, path, params, true);
        FindNormalizesQuery(idx, host, port, path);
        InsertedIsFound(idx, c);
        FindNormalizesQuery(Insert(idx, c), host, port, path);
        Activation(true, Insert(idx, c))
      )
    case Some(i) =>
      var r := idx[i := idx[i].Activate().UpgradeToDigest(params)];
      FindAuthCredIgnoresPayload(idx, r, host, port, path);
      Activation(true, r)
  }

  /** In challenge mode the credential sent is the one of the most specific
      record: the one whose path is the longest prefix of the directory. */
  lemma ChallengeUsesMostSpecificRecord(idx: Index, req: Request, op: Options, resolve: Resolve,
                                        prims: Primitives, j: nat)
    requires Valid(idx) && IsHttp(req.protocol) && op.httpAuthChallenge
    requires j < |idx| && Matches(idx[j], req.host, req.port, NormalizePath(req.dir))
    ensures var r := CreateAuthConfig(idx, req, op, resolve, prims);
            exists i :: 0 <= i < |idx| && Matches(idx[i], req.host, req.port, NormalizePath(req.dir))
                        && StartsWith(idx[i].path, idx[j].path)
                        && r.index == idx
                        && r.config == (if idx[i].IsDigest()
                                        then CreateDigest(idx[i].user, idx[i].password, req.dir + req.file,
                                                          req.httpMethod, idx[i].digestAuthParams.value, prims)
                                        else Create(idx[i].user, idx[i].password))
  {
    FindAuthCredIsLongestMatch(idx, req.host, req.port, req.dir);
    var i := FindAuthCred(idx, req.host, req.port, req.dir).value;
    assert Matches(idx[i], req.host, req.port, NormalizePath(req.dir));
  }

  /** Challenge mode: once a request with a user name has registered its
      directory, a later request for the same directory reuses that user
      and password, whatever its own user name. */
  lemma RegisteredCredentialIsReused(idx: Index, req: Request, later: Request, op: Options,
                                     resolve: Resolve, prims: Primitives)
    requires Valid(idx) && IsHttp(req.protocol) && op.httpAuthChallenge && req.username != ""
    requires FindAuthCred(idx, req.host, req.port, req.dir).None?
    requires IsHttp(later.protocol) && later.host == req.host && later.port == req.port
    requires later.dir == req.dir
    ensures var first := CreateAuthConfig(idx, req, op, resolve, prims);
            var second := CreateAuthConfig(first.index, later, op, resolve, prims);
            && first.config == Some(BasicConfig(req.username, req.password))
            && second.config == first.config
            && second.index == first.index
  {
    var c := RequestCred(req);
    FindNormalizesQuery(idx, req.host, req.port, req.dir);
    InsertedIsFound(idx, c);
    FindNormalizesQuery(Insert(idx, c), req.host, req.port, req.dir);
  }

  /** After a Digest challenge activates a path with parameters, a request
      for that directory in challenge mode answers with Digest over exactly
      those parameters, for the request's own URI and method. */
  lemma ActivatedDigestIsUsed(idx: Index, host: string, port: Port, path: string, op: Options,
                              resolve: Resolve, params: DigestAuthParams, req: Request,
                              prims: Primitives)
    requires Valid(idx)
    requires ActivateAuthCredDigest(idx, host, port, path, op, resolve, Some(params)).ok
    requires IsHttp(req.protocol) && op.httpAuthChallenge
    requires req.host == host && req.port == port && req.dir == path
    ensures var a := ActivateAuthCredDigest(idx, host, port, path, op, resolve, Some(params));
            var rec := a.index[FindAuthCred(a.index, host, port, path).value];
            var r := CreateAuthConfig(a.index, req, op, resolve, prims);
            && r.index == a.index
            && r.config == CreateDigest(rec.user, rec.password, req.dir + req.file, req.httpMethod,
                                        params, prims)
            && (rec.user != "" ==> r.config.value.scheme == AuthDigest)
  {
  }

  /** Records that differ only in their activation flag: the flag is
      stored but never read when a config is created. */
  predicate SameButActivation(a: Index, b: Index) {
    |a| == |b| && forall i :: 0 <= i < |a| ==> a[i].(activated := false) == b[i].(activated := false)
  }

  lemma CreateIgnoresActivation(a: Index, b: Index, req: Request, op: Options, resolve: Resolve,
                                prims: Primitives)
    requires Valid(a) && SameButActivation(a, b)
    ensures Valid(b)
    ensures CreateAuthConfig(a, req, op, resolve, prims).config
            == CreateAuthConfig(b, req, op, resolve, prims).config
  {
    assert SameKeys(a, b) by {
      forall i | 0 <= i < |a| ensures SameKey(a[i], b[i]) {
        assert a[i].(activated := false) == b[i].(activated := false);
      }
    }
    FindAuthCredIgnoresPayload(a, b, req.host, req.port, req.dir);
  }
}
