# aria2 authentication layer, modelled in Dafny

This project models how aria2 chooses the credential it sends with a
download request. It covers three parts:

- **The credential index** (`AuthConfigFactory::authCreds_`). This is a
  `std::set` of `AuthCred` records. Records are ordered by host ascending,
  then port ascending, then path *descending*. `findAuthCred` returns the
  record for a host and port whose path is the longest prefix of the
  requested directory.
- **The resolution cascade** (`AuthConfigFactory::createAuthConfig`).
  - HTTP in challenge mode: the record the index finds is used, as Basic
    or as Digest.
  - HTTP otherwise: the request's own user is used, or else the HTTP
    resolver (netrc without its `default` entry, or the `--http-user`
    option).
  - FTP: the request's user with its password, or a netrc entry for the
    same login, or `--ftp-passwd`, or the FTP resolver whose built-in
    default is `anonymous` / `ARIA2USER@`.
  - After a challenge, `activateAuthCred` marks or creates the record.
    Its second overload also attaches Digest parameters.
- **AuthConfig** (`AuthConfig::create`, `getAuthText`). This renders the
  `Basic` header value and the `Digest` one. The Digest response is the
  request-digest of section 3.2.2 of RFC 2617:
  `KD(H(A1), nonce:nc:cnonce:qop:H(A2))`, with nc fixed at `00000001` and
  cnonce fixed at `0a4f113b`.

## Layout

| Module | File | Contents |
|---|---|---|
| `Wrappers` | `wrappers.dfy` | `Option` |
| `StringOrder` | `string_order.dfy` | `std::string`'s `operator<` as `Less` (a strict total order); `util::startsWith` as `StartsWith` |
| `External` | `external.dfy` | MD5, hex rendering and base64 as function-valued fields of `Primitives` |
| `Rfc2617` | `rfc2617.dfy` | Reference definitions from RFC 2617, kept apart from the code that implements them |
| `Auth` | `auth_config.dfy` | `AuthConfig`, its two factories and `getAuthText` |
| `Creds` | `auth_cred.dfy` | `AuthCred`, path normalization, `operator<` and `operator==` |
| `CredIndex` | `cred_index.dfy` | The sorted index, `lower_bound`, `findAuthCred`, `insert` and `updateAuthCred` |
| `Factory` | `auth_config_factory.dfy` | Resolver setup, `createAuthConfig`, and both `activateAuthCred` overloads |

`Rfc2617` holds H, KD, A1, A2, request-digest, the Basic credentials, and
the directive list joined by `", "`.

How the model represents the C++ objects:

- **The index** is a `seq<AuthCred>` that is strictly increasing under
  `operator<` (`CredIndex.Valid`). A position stands for an iterator, and
  `None` stands for `end()`.
- **Operations that mutate the factory** are functions that return the
  new index next to their result.
- **The resolvers** (`NetrcAuthResolver`, `DefaultAuthResolver`) are one
  function parameter, `Resolve`. It takes a `ResolverSetup` and a host,
  and returns an optional (user, password). `Factory.ResolveAuthConfig`
  passes that answer through `AuthConfig::create`, so an empty user gives
  no config.

### Where the code and its comments disagree (the model follows the code)

- **`updateAuthCred` never replaces.** The header (src/AuthConfigFactory.h:137-142)
  says a record with the same key is replaced. The code at
  src/AuthConfigFactory.cc:182 compares the owning `unique_ptr`s, which
  are never equal for a freshly made record. The `insert` at line 186 then
  leaves the existing record untouched. `CredIndex.UpdateAuthCredKeepsExisting`
  states this outcome.
- **Activation uses the caller's path.** The header (src/AuthConfigFactory.h:119-124)
  says `activateAuthCred` creates the new record with path "/". The code
  uses the caller's `path`, normalized by the constructor.
- **The Digest header differs from RFC 2617 in spacing.** The value holds
  two spaces after `Digest`, and a space before the comma that follows
  `qop`: `qop=auth , nc=…`. `Auth.DigestAuthText` states the text exactly.
  In terms of the RFC's directive list, this is the qop value followed by
  one space.
- **The activation flag is never read.** `createAuthConfig` never consults
  it (`Factory.CreateIgnoresActivation`).

## Model

| member | source | states |
|---|---|---|
| StringOrder.LessTransitive | src/AuthConfigFactory.cc:278-283 | The string order used for hosts and paths is transitive |
| StringOrder.LessTotal | src/AuthConfigFactory.cc:278-283 | Any two different strings are ordered one way or the other |
| StringOrder.LongerPrefixIsGreater | src/AuthConfigFactory.cc:278-283 | Of two different prefixes of one path, the longer is greater, so it sorts first under the descending path order |
| Creds.NormalizePath | src/AuthConfigFactory.cc:249-251 | The stored path extends the given one and ends in '/'. It equals the input exactly when the input already ended in '/', and is otherwise the input plus "/" |
| Creds.NormalizePathIdempotent | src/AuthConfigFactory.cc:249-251 | Normalizing twice is normalizing once |
| Creds.NewAuthCred | src/AuthConfigFactory.cc:240-252 | The record keeps user, password, host and port, stores the normalized path, has no Digest parameters, and is activated only when asked (the default is false) |
| Creds.NewDigestAuthCred | src/AuthConfigFactory.cc:254-267 | As above, but holding the given Digest parameters |
| Creds.AuthCred.Activate | src/AuthConfigFactory.cc:269 | The record becomes activated and only the activation flag changes |
| Creds.AuthCred.UpgradeToDigest | src/AuthConfigFactory.h:71-73 | The parameters are replaced wholesale, an absent one included. The record is Digest iff the argument is present, and nothing else changes |
| Creds.CredLessLexicographic | src/AuthConfigFactory.cc:278-283 | `operator<` is the lexicographic order on (host ascending, port ascending, path descending) |
| Creds.CredLessTransitive | src/AuthConfigFactory.cc:278-283 | `operator<` is transitive, as a `std::set` comparator must be |
| Creds.SameKeyIffUnordered | src/AuthConfigFactory.cc:273-283 | `operator==` holds exactly when neither record is below the other, so equality is the order's equivalence |
| Creds.OrderIgnoresPayload | src/AuthConfigFactory.cc:273-283 | Both relations depend only on (host, port, path) |
| CredIndex.ValidKeysUnique | src/AuthConfigFactory.h:92-94 | The set never holds two records with the same key |
| CredIndex.LowerBound | src/AuthConfigFactory.cc:290 | Every earlier record is below the probe, and the record at the result is not |
| CredIndex.ScanFrom | src/AuthConfigFactory.cc:291-297 | The scan returns a record for the host and port whose path is a prefix of the query, and no earlier record from the start position is one |
| CredIndex.FindAuthCred | src/AuthConfigFactory.cc:285-299 | A found record has the host and port, and its path is a prefix of the normalized query path |
| CredIndex.FindAuthCredIsLongestMatch | src/AuthConfigFactory.cc:285-299 | `end()` is returned iff no record applies. Otherwise every applicable record's path is a prefix of the found one's, so the found path is the longest match |
| CredIndex.FindNormalizesQuery | src/AuthConfigFactory.cc:289-290 | A query path and its normalized form find the same record |
| CredIndex.KeyInIsFound | src/AuthConfigFactory.cc:285-299 | A record present under a key is found by querying that key's path |
| CredIndex.InsertKeepsValid | src/AuthConfigFactory.cc:181-186 | Inserting an absent key at its lower bound keeps the index strictly ordered |
| CredIndex.Insert | src/AuthConfigFactory.cc:186 | Set insert: the index stays ordered and holds the key afterwards. It is unchanged if the key was present, and otherwise grows by exactly the new record (as a multiset) |
| CredIndex.UpdateAuthCred | src/AuthConfigFactory.cc:179-188 | Same outcome as `Insert`: the index stays ordered and contains the key, a present key leaves the index unchanged, and an absent key adds exactly the record |
| CredIndex.UpdateAuthCredKeepsExisting | src/AuthConfigFactory.cc:179-188 | After two updates with the same key, the first record stays and the second record is not in the index |
| CredIndex.FindAuthCredIgnoresPayload | src/AuthConfigFactory.cc:285-299 | Two indexes with the same keys position-by-position are equally valid and answer every lookup with the same position |
| CredIndex.InsertedIsFound | src/AuthConfigFactory.cc:285-299 | After a miss, inserting a record for the queried key makes the same query find exactly that record |
| Auth.BasicConfig | src/AuthConfig.cc:49-53 | The two-argument constructor gives scheme Basic with the given user and password |
| Auth.DigestResponse | src/AuthConfig.cc:59-70 | The three MD5 passes compute the RFC 2617 request-digest with nc 00000001 and cnonce 0a4f113b |
| Auth.DigestDirectives | src/AuthConfig.cc:71 | The stored digest text is a space, then the RFC 2617 directive list joined by ", ". The qop value carries a trailing space |
| Auth.DigestConfig | src/AuthConfig.cc:55-73 | The five-argument constructor gives scheme Digest with the user and password, and a digest text whose response is the request-digest over the same uri |
| Auth.GetAuthText | src/AuthConfig.cc:77-89 | Basic gives "Basic " followed by base64 of user:password, as in section 2 of RFC 2617. Digest gives "Digest " followed by the stored text |
| Auth.Create | src/AuthConfig.cc:91-100 | No config iff the user is empty; otherwise Basic with the given user and password |
| Auth.CreateDigest | src/AuthConfig.cc:102-114 | No config iff the user is empty; otherwise Digest with the given user and password |
| Auth.BasicAuthTextRoundTrip | src/AuthConfig.cc:79-83 | When the user has no colon, decoding the Basic header recovers exactly (user, password) |
| Auth.DigestAuthText | src/AuthConfig.cc:84-85 | The Digest header is "Digest", two spaces, then the directive list with the RFC 2617 request-digest as response |
| Auth.DigestIgnoresUnreadParams | src/AuthConfig.cc:55-73 | The Digest config depends on the challenge only through nonce, realm, qop and algorithm |
| Factory.HttpResolverSetup | src/AuthConfigFactory.cc:138-154 | The setup is netrc iff netrc is enabled, and then netrc's default entry is ignored. The user-defined credential is the HTTP user and password, and there is no built-in default |
| Factory.FtpResolverSetup | src/AuthConfigFactory.cc:156-172 | The setup is netrc iff netrc is enabled, with the default entry kept. The user-defined credential is the FTP user and password, and the built-in default is anonymous / ARIA2USER@ |
| Factory.ResolveAuthConfig | src/AuthConfigFactory.cc:99-100 | A config exists iff the resolver answers with a non-empty user, and it is then Basic over that answer |
| Factory.RequestCred | src/AuthConfigFactory.cc:69-71 | The registered record is activated, has no Digest parameters, holds the request's user, password, host and port, and stores its normalized directory |
| Factory.HttpAuthConfig | src/AuthConfigFactory.cc:63-103 | The HTTP branch. Its contract is the HTTP part of the `CreateAuthConfig` contract described below the table |
| Factory.FtpAuthConfig | src/AuthConfigFactory.cc:104-132 | The FTP branch. The request's user is always the one sent: with its password, when the request has one; otherwise with the netrc password when netrc is on and its login is that user, and with `--ftp-passwd` in every other case. Without a user, the FTP resolver's answer is used |
| Factory.CreateAuthConfig | src/AuthConfigFactory.cc:59-136 | The index stays valid. See the note below the table for the full contract |
| Factory.ActivateAuthCred | src/AuthConfigFactory.cc:216-238 | Success iff a record applies or the HTTP resolver gives a config. See the note below the table |
| Factory.ActivateAuthCredDigest | src/AuthConfigFactory.cc:190-214 | As `ActivateAuthCred`. In addition, the record later found holds exactly the given Digest parameters, an absent one included: a hit keeps its user and password, and a miss adds a record holding the given parameters |
| Factory.ChallengeUsesMostSpecificRecord | src/AuthConfigFactory.cc:64-88 | In challenge mode, when any record applies, the config comes from the record with the longest applicable path: Digest over its parameters if it has them, Basic otherwise. The index is unchanged |
| Factory.RegisteredCredentialIsReused | src/AuthConfigFactory.cc:64-88 | In challenge mode, a request with a user for an unknown directory gets Basic over its credential. A later request for the same directory gets the same config, and the index does not change again |
| Factory.ActivatedDigestIsUsed | src/AuthConfigFactory.cc:190-214 | After a successful Digest activation of a path, a challenge-mode request for that directory gets the Digest config over exactly those parameters, for the request's own uri and method |
| Factory.CreateIgnoresActivation | src/AuthConfigFactory.cc:59-136 | Two indexes that differ only in activation flags give the same config for every request |

**Full contract of `Factory.CreateAuthConfig`:**

- Every config it returns can be rendered: the scheme is not `AuthNone`
  and the user is not empty.
- The index changes only for HTTP, and only by gaining the request's own
  record when that key was absent.
- Unknown protocols get no config.
- HTTP with a user and no challenge hit gives Basic over the request's
  credential, and the key is then in the index.
- In challenge mode, a miss without a user gives no config.
- Without challenge mode, a request without a user gets the HTTP
  resolver's answer.
- In challenge mode, a hit uses the record's credential. The config is
  Digest iff the record has parameters, and there is none iff the
  record's user is empty.
- An FTP request with a user always sends that user:
  - with its password, when the request has one;
  - otherwise with the netrc password, when netrc is enabled and netrc's
    login for the host is that same user;
  - with `--ftp-passwd` in every other case.
- An FTP request without a user gets the FTP resolver's answer.

**Full contract of `Factory.ActivateAuthCred`:**

- Success iff a record applies or the HTTP resolver gives a config.
- Failure leaves the index unchanged.
- After success, the same lookup finds an activated record.
- A hit activates that record in place and changes nothing else.
- A miss adds exactly one activated record. It holds the resolver's
  credential and the caller's normalized path.

## Left out

- MD5, hex rendering and base64 are parameters (`External.Primitives`),
  not definitions, because they are foreign code. Only the text fed to
  them and the way their results are assembled are modelled.
- The resolver classes and netrc parsing are one function parameter,
  `Factory.Resolve`, because they are not part of this model. The model
  assumes they return their answer through `AuthConfig::create`, as
  `ResolveAuthConfig` states. Which netrc entry wins for a host is theirs
  to decide.
- `setNetrc`, `netrc_` ownership, and the `unique_ptr` / `shared_ptr`
  plumbing are left out; they carry no logic beyond holding objects.
- `operator<<` on `AuthConfig`, and the `A2_LOG_INFO` call, are left out
  because they are output only.
- The default constructor of `AuthConfig` is left out. It leaves the
  scheme uninitialised, and none of the modelled operations use it.
- The copy constructor and copy assignment of `AuthConfig` are left out.
  They are declared but never defined, so they have no behaviour.
- `MAX_SUPPORTED_SCHEME` is left out; it is an enumeration bound with no
  behaviour.
- Auth.GetAuthText: requires a scheme other than `AuthNone`. On
  `AuthNone` the source builds a `std::string` from a null pointer, which
  is undefined behaviour, and every config the factories build is Basic
  or Digest.
- CredIndex.LowerBound: a linear search for the first position not below
  the probe. On a strictly ordered index this is the position the tree's
  `lower_bound` returns; the tree itself and its logarithmic cost are not
  modelled.
- The fields of `DigestAuthParams` that the code never reads
  (`clientNonce`, `response`, `uri`) are carried but unused, as in the
  source (`Auth.DigestIgnoresUnreadParams`).
