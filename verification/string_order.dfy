/** The two string relations the credential index is built on: the order of
    `std::string::operator<` and `util::startsWith`. Characters compare by
    code, which for the bytes of a `std::string` is the `unsigned char` order
    that `std::char_traits<char>::lt` uses. */
module StringOrder {

  /** `a < b` for `std::string`: lexicographic, a proper prefix before any
      extension of it. (Dafny's own `<` on sequences means "proper prefix".) */
  predicate Less(a: string, b: string)
    decreases |a|
  {
    if |b| == 0 then false
    else if |a| == 0 then true
    else if a[0] != b[0] then a[0] < b[0]
    else Less(a[1..], b[1..])
  }

  /** `util::startsWith(s, prefix)`: `s` begins with `prefix`. */
  predicate StartsWith(s: string, prefix: string) {
    |prefix| <= |s| && s[..|prefix|] == prefix
  }

  lemma {:induction false} LessIrreflexive(a: string)
    ensures !Less(a, a)
    decreases |a|
  {
    if |a| > 0 {
      LessIrreflexive(a[1..]);
    }
  }

  lemma {:induction false} LessAsymmetric(a: string, b: string)
    requires Less(a, b)
    ensures !Less(b, a)
    decreases |a|
  {
    if |a| > 0 && a[0] == b[0] {
      LessAsymmetric(a[1..], b[1..]);
    }
  }

  lemma {:induction false} LessTransitive(a: string, b: string, c: string)
    requires Less(a, b) && Less(b, c)
    ensures Less(a, c)
    decreases |a|
  {
    if |a| > 0 && a[0] == b[0] && b[0] == c[0] {
      LessTransitive(a[1..], b[1..], c[1..]);
    }
  }

  /** Any two distinct strings are ordered one way or the other. */
  lemma {:induction false} LessTotal(a: string, b: string)
    ensures a == b || Less(a, b) || Less(b, a)
    decreases |a|
  {
    if |a| > 0 && |b| > 0 && a[0] == b[0] {
      LessTotal(a[1..], b[1..]);
      if a[1..] == b[1..] {
        assert a == [a[0]] + a[1..] && b == [b[0]] + b[1..];
      }
    }
  }

  /** Neither string before the other means they are the same string. */
  lemma Equivalent(a: string, b: string)
    requires !Less(a, b) && !Less(b, a)
    ensures a == b
  {
    LessTotal(a, b);
  }

  /** A proper prefix comes strictly before the string it starts. */
  lemma {:induction false} ProperPrefixIsLess(s: string, p: string)
    requires StartsWith(s, p) && |p| < |s|
    ensures Less(p, s)
    decreases |p|
  {
    if |p| > 0 {
      assert p[0] == s[0];
      assert s[1..][..|p| - 1] == p[1..];
      ProperPrefixIsLess(s[1..], p[1..]);
    }
  }

  /** No prefix of `s` comes after `s`. */
  lemma PrefixNotGreater(s: string, p: string)
    requires StartsWith(s, p)
    ensures !Less(s, p)
  {
    if |p| < |s| {
      ProperPrefixIsLess(s, p);
      LessAsymmetric(p, s);
    } else {
      assert p == s;
      LessIrreflexive(s);
    }
  }

  /** Of two prefixes of one string, the shorter is a prefix of the longer. */
  lemma PrefixesNested(s: string, a: string, b: string)
    requires StartsWith(s, a) && StartsWith(s, b) && |a| <= |b|
    ensures StartsWith(b, a)
  {
    assert b[..|a|] == s[..|b|][..|a|];
  }

  /** Of two prefixes of one string, the longer is the greater. */
  lemma LongerPrefixIsGreater(s: string, a: string, b: string)
    requires StartsWith(s, a) && StartsWith(s, b) && |a| < |b|
    ensures Less(a, b)
  {
    PrefixesNested(s, a, b);
    ProperPrefixIsLess(b, a);
  }
}
