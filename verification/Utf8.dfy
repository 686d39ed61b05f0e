/** UTF-8 byte syntax: section 4 of RFC 3629. */
module Utf8 {
  import opened Bytes

  predicate IsTail(b: Byte)
  {
    0x80 <= b <= 0xBF
  }

  /** How many bytes a character with this first byte has; 0 for a byte no character starts with. */
  function LengthFor(first: Byte): (n: nat)
    ensures n <= 4
    ensures IsTail(first) ==> n == 0
  {
    if first <= 0x7F then 1
    else if 0xC2 <= first <= 0xDF then 2
    else if 0xE0 <= first <= 0xEF then 3
    else if 0xF0 <= first <= 0xF4 then 4
    else 0
  }

  /** The second byte of a longer character is restricted after some first bytes. */
  predicate IsSecond(first: Byte, second: Byte)
  {
    && IsTail(second)
    && (first == 0xE0 ==> 0xA0 <= second)
    && (first == 0xED ==> second <= 0x9F)
    && (first == 0xF0 ==> 0x90 <= second)
    && (first == 0xF4 ==> second <= 0x8F)
  }

  /** Bytes that could still become a character, or are one. */
  predicate OpensCharacter(s: seq<Byte>)
  {
    && 1 <= |s| <= LengthFor(s[0])
    && (|s| >= 2 ==> IsSecond(s[0], s[1]))
    && (|s| >= 3 ==> IsTail(s[2]))
    && (|s| >= 4 ==> IsTail(s[3]))
  }

  predicate IsCharacter(s: seq<Byte>)
  {
    OpensCharacter(s) && |s| == LengthFor(s[0])
  }

  /** Well-formed text: characters one after the other, cut up in any way. */
  ghost predicate IsText(s: seq<Byte>)
    decreases |s|
  {
    s == [] || exists n: nat :: 1 <= n <= |s| && IsCharacter(s[..n]) && IsText(s[n..])
  }

  /** The bytes of the character in front, 0 if there is none. */
  function FrontLength(s: seq<Byte>): (n: nat)
    ensures n <= |s|
    ensures n > 0 ==> IsCharacter(s[..n])
    ensures n == 0 ==> forall k :: 0 <= k <= |s| ==> !IsCharacter(s[..k])
  {
    if s == [] then 0
    else
      var n := LengthFor(s[0]);
      if 1 <= n <= |s| && IsCharacter(s[..n]) then n else 0
  }

  /** Where the decoder stops: after as many characters as there are. */
  function ValidUpTo(s: seq<Byte>): (n: nat)
    ensures n <= |s|
    decreases |s|
  {
    var n := FrontLength(s);
    if n == 0 then 0 else n + ValidUpTo(s[n..])
  }

  /** The decoder's error without a length: the rest is the beginning of a character. */
  predicate EndsEarly(s: seq<Byte>)
  {
    var rest := s[ValidUpTo(s)..];
    rest != [] && OpensCharacter(rest)
  }

  /** A character's first byte fixes its length, so the front of a text is cut in one way. */
  lemma OneFront(s: seq<Byte>, n: nat)
    requires n <= |s| && IsCharacter(s[..n])
    ensures FrontLength(s) == n && n >= 1
  {
    assert s[..n][0] == s[0];
  }

  /** The decoder accepts exactly the well-formed texts. */
  lemma {:induction false} TextIsValid(s: seq<Byte>)
    ensures IsText(s) <==> ValidUpTo(s) == |s|
    decreases |s|
  {
    if s != [] {
      if IsText(s) {
        var n: nat :| 1 <= n <= |s| && IsCharacter(s[..n]) && IsText(s[n..]);
        OneFront(s, n);
        TextIsValid(s[n..]);
      } else {
        var n := FrontLength(s);
        if n > 0 {
          TextIsValid(s[n..]);
        }
      }
    }
  }

  /** The front character of the whole is the front character of every well-formed prefix. */
  lemma FrontOfPrefix(s: seq<Byte>, k: nat)
    requires 0 < k <= |s| && IsText(s[..k])
    ensures 1 <= FrontLength(s) <= k && IsText(s[FrontLength(s)..][..k - FrontLength(s)])
  {
    var m: nat :| 1 <= m <= k && IsCharacter(s[..k][..m]) && IsText(s[..k][m..]);
    assert s[..k][..m] == s[..m] && s[..k][m..] == s[m..][..k - m];
    OneFront(s, m);
  }

  lemma PrefixWithFront(s: seq<Byte>, n: nat, j: nat)
    requires n == FrontLength(s) > 0 && j <= |s| - n && IsText(s[n..][..j])
    ensures IsText(s[..n + j])
  {
    assert s[..n + j][..n] == s[..n] && s[..n + j][n..] == s[n..][..j];
  }

  lemma {:induction false} PrefixWithin(s: seq<Byte>, k: nat)
    requires k <= |s| && IsText(s[..k])
    ensures k <= ValidUpTo(s)
    decreases |s|
  {
    if k > 0 {
      FrontOfPrefix(s, k);
      PrefixWithin(s[FrontLength(s)..], k - FrontLength(s));
    }
  }

  /** What it accepts of any bytes is their longest well-formed prefix. */
  lemma {:induction false} ValidIsLongest(s: seq<Byte>)
    ensures IsText(s[..ValidUpTo(s)])
    ensures forall k :: ValidUpTo(s) < k <= |s| ==> !IsText(s[..k])
    decreases |s|
  {
    var n := FrontLength(s);
    if n > 0 {
      ValidIsLongest(s[n..]);
      PrefixWithFront(s, n, ValidUpTo(s[n..]));
    }
    forall k: nat | k <= |s| && IsText(s[..k]) ensures k <= ValidUpTo(s) {
      PrefixWithin(s, k);
    }
  }

  lemma FrontOfText(s: seq<Byte>)
    requires IsText(s) && s != []
    ensures FrontLength(s) > 0 && IsText(s[FrontLength(s)..])
    ensures forall k :: 0 < k < FrontLength(s) ==> IsTail(s[k])
    ensures !IsTail(s[0])
  {
    assert s[..|s|] == s;
    FrontOfPrefix(s, |s|);
    var n := FrontLength(s);
    assert s[n..][..|s| - n] == s[n..];
    assert forall k :: 0 <= k < n ==> s[..n][k] == s[k];
  }

  /** In a text, a prefix is well-formed exactly when the next byte is not a tail byte. */
  lemma {:induction false} BoundaryIff(s: seq<Byte>, i: nat)
    requires IsText(s) && i <= |s|
    ensures IsText(s[..i]) <==> i == |s| || !IsTail(s[i])
    decreases |s|
  {
    hide IsText, IsTail, FrontLength, IsCharacter;
    if i == |s| {
      assert s[..i] == s;
    } else {
      FrontOfText(s);
      var n := FrontLength(s);
      if i == 0 {
        EmptyIsText(s[..0]);
      } else {
        if IsText(s[..i]) {
          FrontOfPrefix(s, i);
        }
        if i >= n {
          BoundaryIff(s[n..], i - n);
          if IsText(s[n..][..i - n]) {
            PrefixWithFront(s, n, i - n);
          }
        }
      }
    }
  }

  lemma EmptyIsText(s: seq<Byte>)
    requires s == []
    ensures IsText(s)
  {}
}
