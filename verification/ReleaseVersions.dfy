/**
 Versions as the updater compares them: the precedence of section 11 of SemVer
 2.0.0, and among versions of equal precedence the build metadata.
 */
module ReleaseVersions {
  import opened Text

  /** Leading zeros occur in build metadata only, where they tell texts of equal value apart. */
  datatype Identifier = Numeric(value: nat, zeros: nat) | Alphanumeric(text: string)

  datatype Version = Version(major: nat, minor: nat, patch: nat, pre: seq<Identifier>, build: seq<Identifier>)

  /** Numbers before texts, numbers by value, texts by ASCII order. */
  predicate IdentifierLess(a: Identifier, b: Identifier)
  {
    match (a, b)
    case (Numeric(m, x), Numeric(n, y)) => m < n || (m == n && x < y)
    case (Numeric(_, _), Alphanumeric(_)) => true
    case (Alphanumeric(_), Numeric(_, _)) => false
    case (Alphanumeric(s), Alphanumeric(t)) => Precedes(s, t)
  }

  /** Identifier by identifier; a proper prefix comes first. */
  predicate IdentifiersLess(a: seq<Identifier>, b: seq<Identifier>)
  {
    b != [] && (a == [] || IdentifierLess(a[0], b[0]) || (a[0] == b[0] && IdentifiersLess(a[1..], b[1..])))
  }

  /** A pre-release comes before the version without one. */
  predicate PreLess(a: seq<Identifier>, b: seq<Identifier>)
  {
    a != [] && (b == [] || IdentifiersLess(a, b))
  }

  predicate CoreLess(a: Version, b: Version)
  {
    a.major < b.major
    || (a.major == b.major && a.minor < b.minor)
    || (a.major == b.major && a.minor == b.minor && a.patch < b.patch)
  }

  predicate SameCore(a: Version, b: Version)
  {
    a.major == b.major && a.minor == b.minor && a.patch == b.patch
  }

  /** Section 11: build metadata does not figure. */
  predicate PrecedenceLess(a: Version, b: Version)
  {
    CoreLess(a, b) || (SameCore(a, b) && PreLess(a.pre, b.pre))
  }

  predicate VersionLess(a: Version, b: Version)
  {
    PrecedenceLess(a, b) || (SameCore(a, b) && a.pre == b.pre && IdentifiersLess(a.build, b.build))
  }

  lemma IdentifierTotal(a: Identifier, b: Identifier)
    ensures IdentifierLess(a, b) || a == b || IdentifierLess(b, a)
    ensures !(IdentifierLess(a, b) && IdentifierLess(b, a)) && !IdentifierLess(a, a)
  {
    if a.Alphanumeric? {
      PrecedesTotal(a.text, if b.Alphanumeric? then b.text else "");
    }
  }

  lemma IdentifierTransitive(a: Identifier, b: Identifier, c: Identifier)
    requires IdentifierLess(a, b) && IdentifierLess(b, c)
    ensures IdentifierLess(a, c)
  {
    if a.Alphanumeric? {
      PrecedesTransitive(a.text, b.text, c.text);
    }
  }

  lemma {:induction false} IdentifiersTotal(a: seq<Identifier>, b: seq<Identifier>)
    ensures IdentifiersLess(a, b) || a == b || IdentifiersLess(b, a)
    ensures !(IdentifiersLess(a, b) && IdentifiersLess(b, a)) && !IdentifiersLess(a, a)
  {
    if a != [] {
      IdentifiersTotal(a[1..], a[1..]);
      IdentifierTotal(a[0], a[0]);
      if b != [] {
        IdentifierTotal(a[0], b[0]);
        IdentifiersTotal(a[1..], b[1..]);
        assert a == [a[0]] + a[1..] && b == [b[0]] + b[1..];
      }
    }
  }

  lemma {:induction false} IdentifiersTransitive(a: seq<Identifier>, b: seq<Identifier>, c: seq<Identifier>)
    requires IdentifiersLess(a, b) && IdentifiersLess(b, c)
    ensures IdentifiersLess(a, c)
  {
    if a != [] {
      if a[0] == b[0] == c[0] {
        IdentifierTotal(a[0], a[0]);
        IdentifiersTransitive(a[1..], b[1..], c[1..]);
      } else if a[0] != b[0] && b[0] != c[0] {
        IdentifierTransitive(a[0], b[0], c[0]);
      }
    }
  }

  /** The order is total: any two different versions compare, one way only. */
  lemma VersionTotal(a: Version, b: Version)
    ensures VersionLess(a, b) || a == b || VersionLess(b, a)
    ensures !(VersionLess(a, b) && VersionLess(b, a)) && !VersionLess(a, a)
  {
    IdentifiersTotal(a.pre, b.pre);
    IdentifiersTotal(a.build, b.build);
    IdentifiersTotal(a.pre, a.pre);
    IdentifiersTotal(a.build, a.build);
    hide IdentifiersLess;
  }

  lemma VersionTransitive(a: Version, b: Version, c: Version)
    requires VersionLess(a, b) && VersionLess(b, c)
    ensures VersionLess(a, c)
  {
    if IdentifiersLess(a.pre, b.pre) && IdentifiersLess(b.pre, c.pre) {
      IdentifiersTransitive(a.pre, b.pre, c.pre);
    }
    if IdentifiersLess(a.build, b.build) && IdentifiersLess(b.build, c.build) {
      IdentifiersTransitive(a.build, b.build, c.build);
    }
    hide IdentifiersLess;
  }

  /** Precedence decides wherever it distinguishes at all. */
  lemma PrecedenceRefined(a: Version, b: Version)
    ensures PrecedenceLess(a, b) ==> VersionLess(a, b) && !VersionLess(b, a)
    ensures !PrecedenceLess(a, b) && !PrecedenceLess(b, a) <==> SameCore(a, b) && a.pre == b.pre
  {
    VersionTotal(a, b);
    IdentifiersTotal(a.pre, b.pre);
    hide IdentifiersLess;
  }
}
