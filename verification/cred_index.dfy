/** The credential index: the `std::set` of `AuthCred` ordered by
    `operator<` through `DerefLess`, modelled as a strictly increasing
    sequence, with `lower_bound`, `insert`, `findAuthCred` and
    `updateAuthCred`. */
module CredIndex {

  import opened Wrappers
  import opened StringOrder
  import opened Creds

  type Index = seq<AuthCred>

  /** The set's invariant: strictly increasing under `operator<`. */
  predicate Valid(idx: Index) {
    forall i, j :: 0 <= i < j < |idx| ==> CredLess(idx[i], idx[j])
  }

  /** Some record holds the key (host, port, path) of `c`. */
  predicate KeyIn(idx: Index, c: AuthCred) {
    exists j :: 0 <= j < |idx| && SameKey(idx[j], c)
  }

  /** A valid index never holds two records with the same key. */
  lemma ValidKeysUnique(idx: Index, i: nat, j: nat)
    requires Valid(idx) && i < |idx| && j < |idx| && i != j
    ensures !SameKey(idx[i], idx[j])
  {
    SameKeyIffUnordered(idx[i], idx[j]);
  }

  /** `c` applies to a request for normalised path `np` on host and port. */
  predicate Matches(c: AuthCred, host: string, port: Port, np: string) {
    c.host == host && c.port == port && StartsWith(np, c.path)
  }

  /** `lower_bound(probe)`: the first position whose record is not below
      `probe`. */
  function LowerBound(idx: Index, probe: AuthCred): (r: nat)
    ensures r <= |idx|
    ensures forall i :: 0 <= i < r ==> CredLess(idx[i], probe)
    ensures r < |idx| ==> !CredLess(idx[r], probe)
    decreases |idx|
  {
    if |idx| == 0 || !CredLess(idx[0], probe) then 0 else 1 + LowerBound(idx[1..], probe)
  }

  /** On a valid index nothing at or after the lower bound is below the probe. */
  lemma LowerBoundPartition(idx: Index, probe: AuthCred)
    requires Valid(idx)
    ensures forall j :: LowerBound(idx, probe) <= j < |idx| ==> !CredLess(idx[j], probe)
  {
    var lb := LowerBound(idx, probe);
    forall j | lb < j < |idx|
      ensures !CredLess(idx[j], probe)
    {
      if CredLess(idx[j], probe) {
        CredLessTransitive(idx[lb], idx[j], probe);
      }
    }
  }

  /** The forward scan of `findAuthCred` from position `k`: stop at the
      first record of another host or port, answer the first whose path is
      a prefix of `np`. */
  function ScanFrom(idx: Index, host: string, port: Port, np: string, k: nat): (r: Option<nat>)
    requires k <= |idx|
    ensures r.Some? ==> k <= r.value < |idx| && Matches(idx[r.value], host, port, np)
    ensures r.Some? ==> forall i :: k <= i < r.value ==> !Matches(idx[i], host, port, np)
    decreases |idx| - k
  {
    if k == |idx| || idx[k].host != host || idx[k].port != port then None
    else if StartsWith(np, idx[k].path) then Some(k)
    else ScanFrom(idx, host, port, np, k + 1)
  }

  /** The record `findAuthCred` builds to search with. */
  function Probe(host: string, port: Port, path: string): (p: AuthCred)
    ensures p.host == host && p.port == port && p.path == NormalizePath(path)
  {
    NewAuthCred("", "", host, port, path)
  }

  /** `findAuthCred(host, port, path)`: the position of the matching
      record, `None` for `end()`. */
  function FindAuthCred(idx: Index, host: string, port: Port, path: string): (r: Option<nat>)
    ensures r.Some? ==> r.value < |idx| && Matches(idx[r.value], host, port, NormalizePath(path))
  {
    var probe := Probe(host, port, path);
    ScanFrom(idx, host, port, probe.path, LowerBound(idx, probe))
  }

  /** A query path and its normalized form find the same record, so a
      record's own path is a query that reaches it. */
  lemma FindNormalizesQuery(idx: Index, host: string, port: Port, path: string)
    ensures FindAuthCred(idx, host, port, NormalizePath(path)) == FindAuthCred(idx, host, port, path)
  {
    NormalizePathIdempotent(path);
  }

  /** Every record that applies sits at or after the lower bound: its path
      is a prefix of the query, so it is not greater than the query, so in
      descending path order it is not before the probe. */
  lemma MatchNotBelowLowerBound(idx: Index, host: string, port: Port, path: string, j: nat)
    requires j < |idx| && Matches(idx[j], host, port, NormalizePath(path))
    ensures LowerBound(idx, Probe(host, port, path)) <= j
  {
    var probe := Probe(host, port, path);
    PrefixNotGreater(probe.path, idx[j].path);
    CredLessLexicographic(idx[j], probe);
    LessIrreflexive(host);
  }

  /** Between the lower bound and a record of the probe's host and port,
      every record has that host and port. */
  lemma BetweenSharesHostPort(idx: Index, probe: AuthCred, k: nat, j: nat)
    requires Valid(idx)
    requires LowerBound(idx, probe) <= k <= j < |idx|
    requires idx[j].host == probe.host && idx[j].port == probe.port
    ensures idx[k].host == probe.host && idx[k].port == probe.port
  {
    if k < j {
      LowerBoundPartition(idx, probe);
      assert !CredLess(idx[k], probe) && CredLess(idx[k], idx[j]);
      CredLessLexicographic(idx[k], probe);
      CredLessLexicographic(idx[k], idx[j]);
      LessTotal(idx[k].host, probe.host);
    }
  }

  /** The scan gets as far as any applicable record when nothing before it
      changes host or port. */
  lemma {:induction false} ScanReaches(idx: Index, host: string, port: Port, np: string,
                                       k: nat, j: nat)
    requires k <= j < |idx| && Matches(idx[j], host, port, np)
    requires forall i :: k <= i <= j ==> idx[i].host == host && idx[i].port == port
    ensures ScanFrom(idx, host, port, np, k).Some?
    decreases j - k
  {
    if k < j && !StartsWith(np, idx[k].path) {
      ScanReaches(idx, host, port, np, k + 1, j);
    }
  }

  /** The longest-prefix property: `findAuthCred` answers `end()` exactly
      when no record of that host and port has a path that prefixes the
      normalised query, and otherwise answers the one whose path is the
      longest such prefix — every other applicable path is a prefix of it. */
  lemma FindAuthCredIsLongestMatch(idx: Index, host: string, port: Port, path: string)
    requires Valid(idx)
    ensures FindAuthCred(idx, host, port, path).None? <==>
              forall j :: 0 <= j < |idx| ==> !Matches(idx[j], host, port, NormalizePath(path))
    ensures FindAuthCred(idx, host, port, path).Some? ==>
              forall j :: 0 <= j < |idx| && Matches(idx[j], host, port, NormalizePath(path)) ==>
                StartsWith(idx[FindAuthCred(idx, host, port, path).value].path, idx[j].path)
  {
    var np := NormalizePath(path);
    var probe := Probe(host, port, path);
    var lb := LowerBound(idx, probe);
    var r := FindAuthCred(idx, host, port, path);
    forall j | 0 <= j < |idx| && Matches(idx[j], host, port, np)
      ensures r.Some?
      ensures r.Some? ==> StartsWith(idx[r.value].path, idx[j].path)
    {
      MatchNotBelowLowerBound(idx, host, port, path, j);
      forall i | lb <= i <= j
        ensures idx[i].host == host && idx[i].port == port
      {
        BetweenSharesHostPort(idx, probe, i, j);
      }
      ScanReaches(idx, host, port, np, lb, j);
      var m := r.value;
      MatchNotBelowLowerBound(idx, host, port, path, m);
      if m < j {
        // The earlier record is the greater path of two prefixes of np.
        CredLessLexicographic(idx[m], idx[j]);
        LessIrreflexive(host);
        if |idx[m].path| < |idx[j].path| {
          LongerPrefixIsGreater(np, idx[m].path, idx[j].path);
          LessAsymmetric(idx[m].path, idx[j].path);
        } else {
          PrefixesNested(np, idx[j].path, idx[m].path);
        }
      } else {
        assert m == j;
      }
    }
  }

  /** A record whose key the index already holds is found by exactly that
      key, since its own path is the longest prefix possible. */
  lemma KeyInIsFound(idx: Index, c: AuthCred)
    requires Valid(idx) && KeyIn(idx, c)
    ensures FindAuthCred(idx, c.host, c.port, c.path).Some?
    ensures SameKey(idx[FindAuthCred(idx, c.host, c.port, c.path).value], c)
  {
    var j :| 0 <= j < |idx| && SameKey(idx[j], c);
    assert NormalizePath(c.path) == c.path;
    assert Matches(idx[j], c.host, c.port, c.path);
    FindAuthCredIsLongestMatch(idx, c.host, c.port, c.path);
    var m := FindAuthCred(idx, c.host, c.port, c.path).value;
    assert StartsWith(idx[m].path, idx[j].path);
  }

  /** On a valid index the key of `c` is present exactly when the record at
      the lower bound has it. */
  lemma KeyInAtLowerBound(idx: Index, c: AuthCred)
    requires Valid(idx)
    ensures KeyIn(idx, c) <==>
              LowerBound(idx, c) < |idx| && SameKey(idx[LowerBound(idx, c)], c)
  {
    var lb := LowerBound(idx, c);
    if KeyIn(idx, c) {
      var j :| 0 <= j < |idx| && SameKey(idx[j], c);
      SameKeyIffUnordered(idx[j], c);
      LowerBoundPartition(idx, c);
      assert lb == j;
    }
  }

  /** Inserting at the lower bound a key that is absent keeps the index
      strictly increasing. */
  lemma InsertKeepsValid(idx: Index, c: AuthCred)
    requires Valid(idx) && !KeyIn(idx, c)
    ensures Valid(idx[..LowerBound(idx, c)] + [c] + idx[LowerBound(idx, c)..])
  {
    var i := LowerBound(idx, c);
    var r := idx[..i] + [c] + idx[i..];
    LowerBoundPartition(idx, c);
    forall p, q | 0 <= p < q < |r|
      ensures CredLess(r[p], r[q])
    {
      if q < i {
        assert r[p] == idx[p] && r[q] == idx[q];
      } else if q == i {
        assert r[p] == idx[p] && r[q] == c;
      } else if p < i {
        assert r[p] == idx[p] && r[q] == idx[q - 1];
      } else if p == i {
        assert r[q] == idx[q - 1];
        SameKeyIffUnordered(idx[q - 1], c);
      } else {
        assert r[p] == idx[p - 1] && r[q] == idx[q - 1];
      }
    }
  }

  /** `insert(value)` of a `std::set`: nothing happens when a record with
      the same key is present; otherwise the record joins at its place. */
  function Insert(idx: Index, c: AuthCred): (r: Index)
    requires Valid(idx)
    ensures Valid(r)
    ensures KeyIn(r, c)
    ensures KeyIn(idx, c) ==> r == idx
    ensures !KeyIn(idx, c) ==> |r| == |idx| + 1 && multiset(r) == multiset(idx) + multiset{c}
  {
    var i := LowerBound(idx, c);
    KeyInAtLowerBound(idx, c);
    if i < |idx| && SameKey(idx[i], c) then idx
    else
      InsertKeepsValid(idx, c);
      Splice(idx, i, c);
      idx[..i] + [c] + idx[i..]
  }

  /** Placing `c` at position `i` adds exactly one record: `c`. */
  lemma Splice(idx: Index, i: nat, c: AuthCred)
    requires i <= |idx|
    ensures |idx[..i] + [c] + idx[i..]| == |idx| + 1
    ensures multiset(idx[..i] + [c] + idx[i..]) == multiset(idx) + multiset{c}
    ensures KeyIn(idx[..i] + [c] + idx[i..], c)
  {
    var r := idx[..i] + [c] + idx[i..];
    assert idx == idx[..i] + idx[i..];
    assert r[i] == c && SameKey(r[i], c);
  }

  /** `updateAuthCred`. src/AuthConfigFactory.cc:182 compares the owning
      pointers rather than the records they point to, and a freshly
      allocated record's pointer equals none already stored, so the
      replacing branch never runs: the insert of line 186 leaves a present
      key's record as it was. */
  function UpdateAuthCred(idx: Index, cred: AuthCred): (r: Index)
    requires Valid(idx)
    ensures Valid(r)
    ensures KeyIn(r, cred)
    ensures KeyIn(idx, cred) ==> r == idx
    ensures !KeyIn(idx, cred) ==> |r| == |idx| + 1 && multiset(r) == multiset(idx) + multiset{cred}
  {
    Insert(idx, cred)
  }

  /** Updating twice with the same key keeps the FIRST record: the second
      record's user and password never reach the index. */
  lemma UpdateAuthCredKeepsExisting(idx: Index, first: AuthCred, second: AuthCred)
    requires Valid(idx) && !KeyIn(idx, first) && SameKey(first, second) && first != second
    ensures first in UpdateAuthCred(UpdateAuthCred(idx, first), second)
    ensures second !in UpdateAuthCred(UpdateAuthCred(idx, first), second)
    ensures |UpdateAuthCred(UpdateAuthCred(idx, first), second)| == |idx| + 1
  {
    var once := UpdateAuthCred(idx, first);
    assert first in multiset(once);
    assert KeyIn(once, second) by {
      var j :| 0 <= j < |once| && once[j] == first;
      assert SameKey(once[j], second);
    }
  }
  /** Both indexes hold the same keys in the same positions. */
  predicate SameKeys(a: Index, b: Index) {
    |a| == |b| && forall i :: 0 <= i < |a| ==> SameKey(a[i], b[i])
  }

  lemma {:induction false} LowerBoundIgnoresPayload(a: Index, b: Index, probe: AuthCred)
    requires SameKeys(a, b)
    ensures LowerBound(a, probe) == LowerBound(b, probe)
    decreases |a|
  {
    if |a| > 0 {
      assert SameKeys(a[1..], b[1..]);
      LowerBoundIgnoresPayload(a[1..], b[1..], probe);
    }
  }

  lemma {:induction false} ScanIgnoresPayload(a: Index, b: Index, host: string, port: Port,
                                              np: string, k: nat)
    requires SameKeys(a, b) && k <= |a|
    ensures ScanFrom(a, host, port, np, k) == ScanFrom(b, host, port, np, k)
    decreases |a| - k
  {
    if k < |a| {
      ScanIgnoresPayload(a, b, host, port, np, k + 1);
    }
  }

  /** The lookup sees keys only: changing users, passwords, activation or
      Digest parameters in place changes nothing it answers. */
  lemma FindAuthCredIgnoresPayload(a: Index, b: Index, host: string, port: Port, path: string)
    requires SameKeys(a, b)
    ensures Valid(a) <==> Valid(b)
    ensures FindAuthCred(a, host, port, path) == FindAuthCred(b, host, port, path)
  {
    var probe := Probe(host, port, path);
    LowerBoundIgnoresPayload(a, b, probe);
    ScanIgnoresPayload(a, b, host, port, probe.path, LowerBound(a, probe));
  }

  /** After a miss, inserting a record for the queried key makes the same
      query find exactly that record. */
  lemma InsertedIsFound(idx: Index, c: AuthCred)
    requires Valid(idx) && FindAuthCred(idx, c.host, c.port, c.path).None?
    ensures !KeyIn(idx, c)
    ensures FindAuthCred(Insert(idx, c), c.host, c.port, c.path).Some?
    ensures Insert(idx, c)[FindAuthCred(Insert(idx, c), c.host, c.port, c.path).value] == c
  {
    if KeyIn(idx, c) {
      KeyInIsFound(idx, c);
    }
    FindAuthCredIsLongestMatch(idx, c.host, c.port, c.path);
    var r := Insert(idx, c);
    assert c in multiset(r);
    var k :| 0 <= k < |r| && r[k] == c;
    assert Matches(r[k], c.host, c.port, c.path);
    FindAuthCredIsLongestMatch(r, c.host, c.port, c.path);
    var m := FindAuthCred(r, c.host, c.port, c.path).value;
    assert r[m] in multiset(idx) + multiset{c};
  }
}
