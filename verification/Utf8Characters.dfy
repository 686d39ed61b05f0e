/**
 What the byte syntax of `Utf8` means: characters are the encodings of scalar values,
 texts the encodings of their sequences, and a text that is cut is one that could go on.
 */
module Utf8Characters {
  import opened Bytes
  import opened Utf8

  /** The numbers that characters have: section 3 of RFC 3629 leaves the surrogates out. */
  predicate IsScalar(c: nat)
  {
    c <= 0x10FFFF && !(0xD800 <= c <= 0xDFFF)
  }

  /** The bits of the number, six to each byte but the first. */
  function Encoded(c: nat): (bytes: seq<Byte>)
    requires IsScalar(c)
  {
    if c < 0x80 then [c]
    else if c < 0x800 then [0xC0 + c / 64, 0x80 + c % 64]
    else if c < 0x10000 then [0xE0 + c / 4096, 0x80 + c / 64 % 64, 0x80 + c % 64]
    else [0xF0 + c / 262144, 0x80 + c / 4096 % 64, 0x80 + c / 64 % 64, 0x80 + c % 64]
  }

  /** Every number is encoded as one character. */
  lemma EncodedIsCharacter(c: nat)
    requires IsScalar(c)
    ensures IsCharacter(Encoded(c))
  {}

  lemma Sextet(front: nat, last: nat)
    requires last < 64
    ensures (64 * front + last) / 64 == front && (64 * front + last) % 64 == last
  {}

  lemma Sextets(c: nat)
    ensures c / 4096 == c / 64 / 64 && c / 262144 == c / 64 / 64 / 64
  {}

  /** And every character encodes a number, so overlong forms and surrogates are none. */
  lemma CharacterIsEncoded(s: seq<Byte>) returns (c: nat)
    requires IsCharacter(s)
    ensures IsScalar(c) && Encoded(c) == s
  {
    if |s| == 1 {
      c := s[0] as int;
    } else if |s| == 2 {
      c := 64 * (s[0] as int - 0xC0) + (s[1] as int - 0x80);
      Sextet(s[0] as int - 0xC0, s[1] as int - 0x80);
    } else if |s| == 3 {
      c := ThreeBytes(s);
    } else {
      c := FourBytes(s);
    }
  }

  lemma ThreeBytes(s: seq<Byte>) returns (c: nat)
    requires IsCharacter(s) && |s| == 3
    ensures IsScalar(c) && Encoded(c) == s
  {
    var two := 64 * (s[0] as int - 0xE0) + (s[1] as int - 0x80);
    c := 64 * two + (s[2] as int - 0x80);
    Sextet(s[0] as int - 0xE0, s[1] as int - 0x80);
    Sextet(two, s[2] as int - 0x80);
    Sextets(c);
  }

  lemma FourBytes(s: seq<Byte>) returns (c: nat)
    requires IsCharacter(s) && |s| == 4
    ensures IsScalar(c) && Encoded(c) == s
  {
    var two := 64 * (s[0] as int - 0xF0) + (s[1] as int - 0x80);
    var three := 64 * two + (s[2] as int - 0x80);
    c := 64 * three + (s[3] as int - 0x80);
    Sextet(s[0] as int - 0xF0, s[1] as int - 0x80);
    Sextet(two, s[2] as int - 0x80);
    Sextet(three, s[3] as int - 0x80);
    Sextets(c);
  }

  ghost predicate AreScalars(scalars: seq<nat>)
  {
    forall i :: 0 <= i < |scalars| ==> IsScalar(scalars[i])
  }

  function EncodedText(scalars: seq<nat>): seq<Byte>
    requires AreScalars(scalars)
  {
    if scalars == [] then [] else Encoded(scalars[0]) + EncodedText(scalars[1..])
  }

  ghost predicate Encodes(scalars: seq<nat>, s: seq<Byte>)
  {
    AreScalars(scalars) && EncodedText(scalars) == s
  }

  /** The well-formed texts are exactly the encodings. */
  lemma TextIsEncoded(s: seq<Byte>)
    ensures IsText(s) <==> exists scalars :: Encodes(scalars, s)
  {
    if IsText(s) {
      var scalars := ScalarsOf(s);
      assert Encodes(scalars, s);
    }
    forall scalars | Encodes(scalars, s) ensures IsText(s) {
      EncodedIsText(scalars);
    }
  }

  lemma TextSplit(s: seq<Byte>) returns (n: nat)
    requires IsText(s) && s != []
    ensures 1 <= n <= |s| && IsCharacter(s[..n]) && IsText(s[n..])
  {
    n :| 1 <= n <= |s| && IsCharacter(s[..n]) && IsText(s[n..]);
  }

  lemma {:induction false} ScalarsOf(s: seq<Byte>) returns (scalars: seq<nat>)
    requires IsText(s)
    ensures Encodes(scalars, s)
    decreases |s|
  {
    hide IsText, IsCharacter, Encoded, IsScalar;
    scalars := [];
    if s != [] {
      var n := TextSplit(s);
      var c := CharacterIsEncoded(s[..n]);
      var rest := ScalarsOf(s[n..]);
      scalars := [c] + rest;
      assert scalars[1..] == rest && s == s[..n] + s[n..];
    }
  }

  lemma {:induction false} EncodedIsText(scalars: seq<nat>)
    requires AreScalars(scalars)
    ensures IsText(EncodedText(scalars))
  {
    if scalars != [] {
      EncodedIsCharacter(scalars[0]);
      EncodedIsText(scalars[1..]);
      CharacterThenText(Encoded(scalars[0]), EncodedText(scalars[1..]));
    }
  }

  lemma CharacterThenText(character: seq<Byte>, text: seq<Byte>)
    requires IsCharacter(character) && IsText(text)
    ensures IsText(character + text)
  {
    var s, n := character + text, |character|;
    assert s[..n] == character && s[n..] == text;
  }

  /** The decoder reports a mere end exactly for bytes that are no text and could be continued to one. */
  lemma EndsEarlyExactly(s: seq<Byte>)
    ensures EndsEarly(s) <==> !IsText(s) && exists more :: IsText(s + more)
  {
    hide IsText, EndsEarly;
    if EndsEarly(s) {
      var more := CanGoOn(s);
    }
    forall more | !IsText(s) && IsText(s + more) ensures EndsEarly(s) {
      BeginningOfText(s, more);
    }
  }

  lemma CanGoOn(s: seq<Byte>) returns (more: seq<Byte>)
    requires EndsEarly(s)
    ensures !IsText(s) && IsText(s + more)
  {
    hide IsText, IsCharacter, OpensCharacter, ValidUpTo;
    TextIsValid(s);
    ValidIsLongest(s);
    EmptyIsText([]);
    var v := ValidUpTo(s);
    more := Completion(s[v..]);
    CharacterThenText(s[v..] + more, []);
    assert s[v..] + more + [] == s[v..] + more;
    TextThenText(s[..v], s[v..] + more);
    assert s + more == s[..v] + (s[v..] + more);
  }

  /** What is missing of a character. */
  lemma Completion(s: seq<Byte>) returns (more: seq<Byte>)
    requires OpensCharacter(s)
    ensures IsCharacter(s + more)
  {
    var second := if s[0] == 0xE0 then 0xA0 else if s[0] == 0xF0 then 0x90 else 0x80;
    var n := LengthFor(s[0]) - |s|;
    more := if n == 0 then [] else if |s| == 1 then [second, 0x80, 0x80][..n] else [0x80, 0x80][..n];
  }

  lemma {:induction false} TextThenText(one: seq<Byte>, other: seq<Byte>)
    requires IsText(one) && IsText(other)
    ensures IsText(one + other)
    decreases |one|
  {
    hide IsText, IsCharacter;
    if one == [] {
      assert one + other == other;
    } else {
      var n := TextSplit(one);
      TextThenText(one[n..], other);
      CharacterThenText(one[..n], one[n..] + other);
      assert one[..n] + (one[n..] + other) == one + other;
    }
  }

  lemma BeginningOfCharacter(character: seq<Byte>, k: nat)
    requires IsCharacter(character) && 0 < k < |character|
    ensures FrontLength(character[..k]) == 0 && OpensCharacter(character[..k])
  {
    assert character[..k][0] == character[0];
  }

  lemma {:induction false} BeginningOfText(s: seq<Byte>, more: seq<Byte>)
    requires IsText(s + more) && !IsText(s)
    ensures EndsEarly(s)
    decreases |s|
  {
    hide IsCharacter, OpensCharacter, FrontLength, IsText;
    EmptyIsText([]);
    var all := s + more;
    var n := TextSplit(all);
    if n <= |s| {
      assert all[..n] == s[..n] && all[n..] == s[n..] + more;
      assert s == s[..n] + s[n..];
      OneFront(s, n);
      if IsText(s[n..]) {
        CharacterThenText(s[..n], s[n..]);
      } else {
        BeginningOfText(s[n..], more);
        assert s[n..][ValidUpTo(s[n..])..] == s[ValidUpTo(s)..];
      }
    } else {
      BeginningOfCharacter(all[..n], |s|);
      assert s == all[..n][..|s|];
      assert s[ValidUpTo(s)..] == s;
    }
  }
}
