/**
 * Semantic versions as the registry hands them out: `major.minor.patch` with
 * an optional pre-release list, ordered the semver way (a pre-release sorts
 * below the release it precedes; pre-release identifiers compare numerically
 * when numeric, as strings otherwise, and numeric below alphanumeric).
 */
module Semver {
  import Strings

  datatype Identifier = Numeric(n: nat) | AlphaNumeric(s: string)

  datatype Version = Version(major: nat, minor: nat, patch: nat, pre: seq<Identifier>)

  /** `Version::is_prerelease`: the pre-release list is not empty. */
  predicate IsPrerelease(v: Version) {
    v.pre != []
  }

  predicate IdentifierLess(a: Identifier, b: Identifier) {
    match (a, b)
    case (Numeric(m), Numeric(n)) => m < n
    case (Numeric(_), AlphaNumeric(_)) => true
    case (AlphaNumeric(_), Numeric(_)) => false
    case (AlphaNumeric(s), AlphaNumeric(t)) => Strings.Less(s, t)
  }

  /** Lexicographic order of identifier lists (Rust's `Ord` on `Vec`). */
  predicate IdentifiersLess(a: seq<Identifier>, b: seq<Identifier>)
    decreases |a|
  {
    |b| > 0 && (|a| == 0 || IdentifierLess(a[0], b[0]) || (a[0] == b[0] && IdentifiersLess(a[1..], b[1..])))
  }

  /** Order of pre-release lists: the empty list (a release) is the greatest. */
  predicate PreLess(a: seq<Identifier>, b: seq<Identifier>) {
    a != [] && (b == [] || IdentifiersLess(a, b))
  }

  /** `a < b` as semver's `Ord for Version` decides it. */
  predicate Less(a: Version, b: Version) {
    || a.major < b.major
    || (a.major == b.major && a.minor < b.minor)
    || (a.major == b.major && a.minor == b.minor && a.patch < b.patch)
    || (a.major == b.major && a.minor == b.minor && a.patch == b.patch && PreLess(a.pre, b.pre))
  }

  lemma IdentifierLessIrreflexive(a: Identifier)
    ensures !IdentifierLess(a, a)
  {
    if a.AlphaNumeric? { Strings.LessIrreflexive(a.s); }
  }

  lemma IdentifierLessTransitive(a: Identifier, b: Identifier, c: Identifier)
    requires IdentifierLess(a, b) && IdentifierLess(b, c)
    ensures IdentifierLess(a, c)
  {
    if a.AlphaNumeric? { Strings.LessTransitive(a.s, b.s, c.s); }
  }

  lemma IdentifierLessTotal(a: Identifier, b: Identifier)
    requires a != b
    ensures IdentifierLess(a, b) || IdentifierLess(b, a)
  {
    if a.AlphaNumeric? && b.AlphaNumeric? { Strings.LessTotal(a.s, b.s); }
  }

  lemma {:induction false} IdentifiersLessIrreflexive(a: seq<Identifier>)
    ensures !IdentifiersLess(a, a)
    decreases |a|
  {
    if |a| > 0 {
      IdentifierLessIrreflexive(a[0]);
      IdentifiersLessIrreflexive(a[1..]);
    }
  }

  lemma {:induction false} IdentifiersLessTransitive(a: seq<Identifier>, b: seq<Identifier>, c: seq<Identifier>)
    requires IdentifiersLess(a, b) && IdentifiersLess(b, c)
    ensures IdentifiersLess(a, c)
    decreases |a|
  {
    if |a| > 0 {
      if a[0] == b[0] && b[0] == c[0] {
        IdentifierLessIrreflexive(a[0]);
        IdentifiersLessTransitive(a[1..], b[1..], c[1..]);
      } else if IdentifierLess(a[0], b[0]) && IdentifierLess(b[0], c[0]) {
        IdentifierLessTransitive(a[0], b[0], c[0]);
      }
    }
  }

  lemma {:induction false} IdentifiersLessTotal(a: seq<Identifier>, b: seq<Identifier>)
    requires a != b
    ensures IdentifiersLess(a, b) || IdentifiersLess(b, a)
    decreases |a|
  {
    if |a| > 0 && |b| > 0 {
      if a[0] == b[0] {
        assert a == [a[0]] + a[1..] && b == [b[0]] + b[1..];
        IdentifiersLessTotal(a[1..], b[1..]);
      } else {
        IdentifierLessTotal(a[0], b[0]);
      }
    }
  }

  lemma LessIrreflexive(a: Version)
    ensures !Less(a, a)
  {
    IdentifiersLessIrreflexive(a.pre);
  }

  lemma LessTransitive(a: Version, b: Version, c: Version)
    requires Less(a, b) && Less(b, c)
    ensures Less(a, c)
  {
    if a.pre != [] && b.pre != [] && c.pre != [] && IdentifiersLess(a.pre, b.pre) && IdentifiersLess(b.pre, c.pre) {
      IdentifiersLessTransitive(a.pre, b.pre, c.pre);
    }
  }

  lemma LessTotal(a: Version, b: Version)
    requires a != b
    ensures Less(a, b) || Less(b, a)
  {
    if a.pre != b.pre && a.pre != [] && b.pre != [] {
      IdentifiersLessTotal(a.pre, b.pre);
    }
  }

  lemma LessAsymmetric(a: Version, b: Version)
    requires Less(a, b)
    ensures !Less(b, a)
  {
    if Less(b, a) { LessTransitive(a, b, a); LessIrreflexive(a); }
  }

  /** `!Less(b, a)`: `a` is at least `b`, and this is a total preorder. */
  lemma AtLeastTransitive(a: Version, b: Version, c: Version)
    requires !Less(a, b) && !Less(b, c)
    ensures !Less(a, c)
  {
    if a != b { LessTotal(a, b); }
    if b != c { LessTotal(b, c); }
    if a != b && b != c { LessTransitive(c, b, a); }
    if Less(a, c) {
      if a == b { LessAsymmetric(a, c); }
      else if b == c { LessAsymmetric(a, b); }
      else { LessAsymmetric(c, a); }
    }
  }

  function IdentifierString(i: Identifier): string {
    match i
    case Numeric(n) => Strings.NatToString(n)
    case AlphaNumeric(s) => s
  }

  function JoinIdentifiers(ids: seq<Identifier>): string
    decreases |ids|
  {
    if |ids| == 0 then ""
    else if |ids| == 1 then IdentifierString(ids[0])
    else IdentifierString(ids[0]) + "." + JoinIdentifiers(ids[1..])
  }

  /** The release triple, `major.minor.patch`. */
  function TripleString(v: Version): string {
    Strings.NatToString(v.major) + "." + Strings.NatToString(v.minor) + "." + Strings.NatToString(v.patch)
  }

  /** `Version::to_string`: the triple, then `-` and the pre-release list when there is one. */
  function ToString(v: Version): string {
    TripleString(v) + (if v.pre == [] then "" else "-" + JoinIdentifiers(v.pre))
  }

  /** A pre-release sorts below the release of its triple. */
  lemma PrereleaseBelowRelease(v: Version)
    requires IsPrerelease(v)
    ensures Less(v, v.(pre := []))
  {
  }

  /** A version prints as its bare triple exactly when it is not a pre-release. */
  lemma ToStringTriple(v: Version)
    ensures ToString(v) == TripleString(v) <==> !IsPrerelease(v)
  {
    if IsPrerelease(v) {
      assert |ToString(v)| > |TripleString(v)|;
    }
  }
}
