/**
 Agent version texts. The store accepts any `major.minor.patch` of 32-bit
 numbers, including leading zeros and plus signs; the SemVer parser that later
 picks the greatest Version accepts canonical numbers only.
 */
module AgentVersions {
  import opened Wrappers
  import opened Sequences

  datatype Triple = Triple(major: nat, minor: nat, patch: nat)

  predicate IsDigit(c: char)
  {
    '0' <= c <= '9'
  }

  predicate AllDigits(s: string)
  {
    forall i :: 0 <= i < |s| ==> IsDigit(s[i])
  }

  function Value(digits: string): nat
    requires AllDigits(digits)
  {
    if digits == "" then 0 else 10 * Value(digits[..|digits| - 1]) + (digits[|digits| - 1] as int - '0' as int)
  }

  function Unsigned(part: string): string
  {
    if part != "" && part[0] == '+' then part[1..] else part
  }

  /** Accepted by the 32-bit unsigned integer parser, which allows one plus sign. */
  predicate IsU32(part: string)
  {
    Unsigned(part) != "" && AllDigits(Unsigned(part)) && Value(Unsigned(part)) < 0x1_0000_0000
  }

  /** `validate_semver`. */
  predicate IsAgentVersion(text: string)
  {
    var parts := Split(text, '.');
    |parts| == 3 && forall i :: 0 <= i < 3 ==> IsU32(parts[i])
  }

  /** The number a part denotes, whatever its spelling. */
  function Triplet(text: string): Triple
    requires IsAgentVersion(text)
  {
    var parts := Split(text, '.');
    Triple(Value(Unsigned(parts[0])), Value(Unsigned(parts[1])), Value(Unsigned(parts[2])))
  }

  predicate IsCanonicalNumber(part: string)
  {
    part != "" && AllDigits(part) && (part[0] != '0' || |part| == 1)
  }

  predicate IsCanonical(text: string)
  {
    var parts := Split(text, '.');
    |parts| == 3 && forall i :: 0 <= i < 3 ==> IsCanonicalNumber(parts[i])
  }

  /** What the SemVer parser makes of an accepted text. */
  function Parsed(text: string): Option<Triple>
    requires IsAgentVersion(text)
  {
    if IsCanonical(text) then Some(Triplet(text)) else None
  }

  predicate Less(a: Triple, b: Triple)
  {
    a.major < b.major || (a.major == b.major && (a.minor < b.minor || (a.minor == b.minor && a.patch < b.patch)))
  }

  /** `Option` order: a text the parser rejects sorts below every parsed one. */
  predicate ParsedLess(a: Option<Triple>, b: Option<Triple>)
  {
    b.Some? && (a.None? || Less(a.value, b.value))
  }

  lemma {:induction false} LeadingDigitPositive(digits: string)
    requires digits != "" && AllDigits(digits) && digits[0] != '0'
    ensures Value(digits) > 0
  {
    if |digits| == 1 {
      assert digits[..0] == "";
    } else {
      LeadingDigitPositive(digits[..|digits| - 1]);
    }
  }

  /** Canonical numerals are determined by the number they denote. */
  lemma {:induction false} CanonicalNumberUnique(a: string, b: string)
    requires IsCanonicalNumber(a) && IsCanonicalNumber(b) && Value(a) == Value(b)
    ensures a == b
  {
    var m, n := |a| - 1, |b| - 1;
    assert a == a[..m] + [a[m]] && b == b[..n] + [b[n]];
    assert a[..0] == "" == b[..0];
    if m > 0 {
      LeadingDigitPositive(a[..m]);
    }
    if n > 0 {
      LeadingDigitPositive(b[..n]);
    }
    if m > 0 && n > 0 {
      CanonicalNumberUnique(a[..m], b[..n]);
    }
  }

  /** The decimal spelling of a number. */
  function Decimal(n: nat): (digits: string)
    ensures digits != "" && AllDigits(digits)
  {
    var last := [('0' as int + n % 10) as char];
    if n < 10 then last else Decimal(n / 10) + last
  }

  /** The canonical numerals are exactly the decimal spellings, and each denotes its number. */
  lemma {:induction false} DecimalDenotes(n: nat)
    ensures IsCanonicalNumber(Decimal(n)) && Value(Decimal(n)) == n
    ensures n > 0 ==> Decimal(n)[0] != '0'
  {
    var digits := Decimal(n);
    var last := ('0' as int + n % 10) as char;
    assert Value([last]) == n % 10 by {
      assert [last][..0] == "";
    }
    if n >= 10 {
      DecimalDenotes(n / 10);
      assert digits[..|digits| - 1] == Decimal(n / 10);
    }
  }

  lemma CanonicalIsDecimal(digits: string)
    requires IsCanonicalNumber(digits)
    ensures digits == Decimal(Value(digits))
  {
    DecimalDenotes(Value(digits));
    CanonicalNumberUnique(digits, Decimal(Value(digits)));
  }

  /** The parts of a canonical version, and that its numbers are theirs. */
  lemma PartsOfCanonical(text: string)
    requires IsAgentVersion(text) && IsCanonical(text)
    ensures var parts := Split(text, '.');
      && |parts| == 3 && IsCanonicalNumber(parts[0]) && IsCanonicalNumber(parts[1]) && IsCanonicalNumber(parts[2])
      && Triplet(text) == Triple(Value(parts[0]), Value(parts[1]), Value(parts[2]))
      && Join(parts, '.') == text
  {
    hide Value, Split, Join;
    SplitJoins(text, '.');
  }

  /** So two canonical versions that denote the same triple are the same text. */
  lemma CanonicalUnique(a: string, b: string)
    requires IsAgentVersion(a) && IsAgentVersion(b) && IsCanonical(a) && IsCanonical(b)
    requires Triplet(a) == Triplet(b)
    ensures a == b
  {
    hide Value, Split, Join, IsAgentVersion, IsCanonical, Triplet, IsCanonicalNumber;
    PartsOfCanonical(a);
    PartsOfCanonical(b);
    var p, q := Split(a, '.'), Split(b, '.');
    CanonicalNumberUnique(p[0], q[0]);
    CanonicalNumberUnique(p[1], q[1]);
    CanonicalNumberUnique(p[2], q[2]);
    assert p == q;
  }
}
