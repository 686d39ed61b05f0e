/**
 Text as the Rust standard library sees it: White_Space trimming, control
 characters and UTF-8 length. Input checks of the store use only these.
 */
module Text {
  /** The limit of objectives and acceptance criteria, of Drafts and of Runs. */
  const TEXT_BYTES: nat := 16 * 1024

  predicate IsWhitespace(c: char)
  {
    var n := c as int;
    9 <= n <= 13 || n == 0x20 || n == 0x85 || n == 0xA0 || n == 0x1680 || 0x2000 <= n <= 0x200A
    || n == 0x2028 || n == 0x2029 || n == 0x202F || n == 0x205F || n == 0x3000
  }

  predicate IsControl(c: char)
  {
    c as int < 0x20 || 0x7F <= c as int < 0xA0
  }

  function TrimStart(s: string): string
  {
    if s != "" && IsWhitespace(s[0]) then TrimStart(s[1..]) else s
  }

  function TrimEnd(s: string): string
  {
    if s != "" && IsWhitespace(s[|s| - 1]) then TrimEnd(s[..|s| - 1]) else s
  }

  function Trim(s: string): string
  {
    TrimEnd(TrimStart(s))
  }

  function ByteLength(s: string): nat
  {
    if s == "" then 0
    else
      var n := s[0] as int;
      (if n < 0x80 then 1 else if n < 0x800 then 2 else if n < 0x10000 then 3 else 4) + ByteLength(s[1..])
  }

  /** Whether trimming leaves nothing. */
  predicate IsBlank(s: string)
  {
    forall i :: 0 <= i < |s| ==> IsWhitespace(s[i])
  }

  /** Whether trimming leaves the text as it is. */
  predicate IsTrimmed(s: string)
  {
    s == "" || (!IsWhitespace(s[0]) && !IsWhitespace(s[|s| - 1]))
  }

  lemma {:induction false} TrimStartFacts(s: string)
    ensures TrimStart(s) == "" <==> IsBlank(s)
    ensures |TrimStart(s)| <= |s| && TrimStart(s) == s[|s| - |TrimStart(s)|..]
    ensures TrimStart(s) != "" ==> !IsWhitespace(TrimStart(s)[0])
  {
    if s != "" && IsWhitespace(s[0]) {
      TrimStartFacts(s[1..]);
      assert forall i :: 0 < i < |s| ==> s[1..][i - 1] == s[i];
    }
  }

  lemma {:induction false} TrimEndFacts(s: string)
    ensures TrimEnd(s) == "" <==> IsBlank(s)
    ensures |TrimEnd(s)| <= |s| && TrimEnd(s) == s[..|TrimEnd(s)|]
    ensures TrimEnd(s) != "" ==> !IsWhitespace(TrimEnd(s)[|TrimEnd(s)| - 1])
  {
    if s != "" && IsWhitespace(s[|s| - 1]) {
      TrimEndFacts(s[..|s| - 1]);
      assert forall i :: 0 <= i < |s| - 1 ==> s[..|s| - 1][i] == s[i];
    }
  }

  lemma TrimmedFixed(s: string)
    requires IsTrimmed(s)
    ensures Trim(s) == s
  {}

  /** Trimming leaves a trimmed text, and leaves nothing exactly of a blank one. */
  lemma TrimFacts(s: string)
    ensures IsTrimmed(Trim(s))
    ensures Trim(s) == "" <==> IsBlank(s)
  {
    var start := TrimStart(s);
    TrimStartFacts(s);
    TrimEndFacts(start);
    assert start != "" ==> !IsWhitespace(start[0]);
    assert TrimEnd(start) == start[..|TrimEnd(start)|];
  }

  /** Non-empty, bounded, already trimmed and free of control characters. */
  predicate IsCleanText(s: string, maxBytes: nat)
  {
    s != "" && ByteLength(s) <= maxBytes && IsTrimmed(s) && forall i :: 0 <= i < |s| ==> !IsControl(s[i])
  }

  /** Lexicographic order. */
  predicate Precedes(a: string, b: string)
  {
    b != "" && (a == "" || a[0] < b[0] || (a[0] == b[0] && Precedes(a[1..], b[1..])))
  }

  lemma {:induction false} PrecedesTotal(a: string, b: string)
    ensures Precedes(a, b) || a == b || Precedes(b, a)
    ensures !(Precedes(a, b) && Precedes(b, a)) && !Precedes(a, a)
  {
    if a != "" {
      PrecedesTotal(a[1..], a[1..]);
      if b != "" {
        PrecedesTotal(a[1..], b[1..]);
        assert a == [a[0]] + a[1..] && b == [b[0]] + b[1..];
      }
    }
  }

  lemma {:induction false} PrecedesTransitive(a: string, b: string, c: string)
    requires Precedes(a, b) && Precedes(b, c)
    ensures Precedes(a, c)
  {
    if a != "" && a[0] == b[0] == c[0] {
      PrecedesTransitive(a[1..], b[1..], c[1..]);
    }
  }
}
