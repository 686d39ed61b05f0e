/**
 The bounded text read: at most `max` bytes of a file as text, cut at a character
 boundary, from a buffer that reads four bytes further. The file does not change
 while it is read.
 */
module TextRead {
  import opened Bytes
  import opened Utf8

  const MAX_READ_BYTES: nat := 1024 * 1024
  const BINARY_PROBE: nat := 8 * 1024
  const LOOKAHEAD: nat := 4

  /** `Panic`: the conversion of the cut prefix, expected to succeed, does not. */
  datatype Outcome = Refused | Binary | Content(text: seq<Byte>) | Panic

  function Buffer(file: seq<Byte>, max: nat): seq<Byte>
  {
    file[..Min(|file|, max + LOOKAHEAD)]
  }

  predicate HasNul(buffer: seq<Byte>)
  {
    0 in buffer[..Min(|buffer|, BINARY_PROBE)]
  }

  /** A NUL byte that is probed: within the limit, the four bytes behind it, and the first 8192 bytes. */
  lemma ProbedExactly(file: seq<Byte>, max: nat)
    ensures HasNul(Buffer(file, max)) <==>
      exists i :: 0 <= i < |file| && i < max + 4 && i < 8192 && file[i] == 0
  {
    var buffer := Buffer(file, max);
    forall i | 0 <= i < |buffer| ensures buffer[i] == file[i] {}
  }

  /** The longest well-formed prefix of the file within `max` bytes. */
  ghost predicate IsLongestText(text: seq<Byte>, file: seq<Byte>, max: nat)
  {
    && text <= file && |text| <= max && IsText(text)
    && forall k :: |text| < k <= Min(max, |file|) ==> !IsText(file[..k])
  }

  /** The buffer is cut inside a character, and so is the text at `max`. */
  ghost predicate CutsTwice(file: seq<Byte>, max: nat)
  {
    var buffer := Buffer(file, max);
    |file| > max && EndsEarly(buffer) && ValidUpTo(buffer) > max && IsTail(buffer[max])
  }

  /** Well-formed up to the end of the buffer, or up to a character the cut-off buffer began. */
  ghost predicate IsReadable(file: seq<Byte>, max: nat)
  {
    var buffer := Buffer(file, max);
    !HasNul(buffer) && (IsText(buffer) || (|file| > max && EndsEarly(buffer)))
  }

  /** Where stepping down from the limit over tail bytes stops. */
  predicate IsStop(buffer: seq<Byte>, max: nat, end: nat)
  {
    && end <= Min(max, |buffer|) && (end < Min(max, |buffer|) ==> max < |buffer|)
    && (end < |buffer| ==> !IsTail(buffer[end]))
    && forall k :: end < k < |buffer| && k <= max ==> IsTail(buffer[k])
  }

  method StepDown(buffer: seq<Byte>, max: nat) returns (end: nat)
    requires buffer == [] || !IsTail(buffer[0])
    ensures IsStop(buffer, max, end)
  {
    end := Min(max, |buffer|);
    while end < |buffer| && IsTail(buffer[end])
      invariant 0 <= end <= Min(max, |buffer|) && (end < Min(max, |buffer|) ==> max < |buffer|)
      invariant forall k :: end < k < |buffer| && k <= max ==> IsTail(buffer[k])
      decreases end
    {
      end := end - 1;
    }
  }

  method ReadText(file: seq<Byte>, max: nat) returns (outcome: Outcome, truncated: bool)
    ensures truncated <==> |file| > max
    ensures outcome == Refused <==> max == 0 || max > MAX_READ_BYTES
    ensures outcome != Refused ==> (outcome == Binary <==> !IsReadable(file, max))
    ensures outcome != Refused ==> (outcome == Panic <==> IsReadable(file, max) && CutsTwice(file, max))
    ensures outcome.Content? ==> IsLongestText(outcome.text, file, max)
  {
    truncated := |file| > max;
    if max == 0 || max > MAX_READ_BYTES {
      return Refused, truncated;
    }
    var buffer := Buffer(file, max);
    if HasNul(buffer) {
      return Binary, truncated;
    }
    TextIsValid(buffer);
    var validUpTo := ValidUpTo(buffer);
    if validUpTo == |buffer| {
      TextStart(buffer);
      var end := StepDown(buffer, max);
      CutAtBoundary(file, max, end);
      return Content(buffer[..end]), truncated;
    }
    if truncated && EndsEarly(buffer) {
      var prefix := buffer[..Min(validUpTo, max)];
      CutPrefix(file, max);
      TextIsValid(prefix);
      if ValidUpTo(prefix) == |prefix| {
        return Content(prefix), truncated;
      }
      return Panic, truncated;
    }
    return Binary, truncated;
  }

  lemma TextStart(s: seq<Byte>)
    requires IsText(s)
    ensures s == [] || !IsTail(s[0])
  {
    if s != [] {
      FrontOfText(s);
    }
  }

  lemma CutAtBoundary(file: seq<Byte>, max: nat, end: nat)
    requires IsText(Buffer(file, max)) && IsStop(Buffer(file, max), max, end)
    ensures IsLongestText(Buffer(file, max)[..end], file, max) && !EndsEarly(Buffer(file, max))
  {
    hide IsText;
    var buffer := Buffer(file, max);
    TextIsValid(buffer);
    BoundaryIff(buffer, end);
    forall k | end < k <= Min(max, |file|) ensures !IsText(file[..k]) {
      assert file[..k] == buffer[..k];
      BoundaryIff(buffer, k);
    }
  }

  /** Cut at the smaller of `max` and the valid length, the prefix is well-formed unless `max` is inside a character. */
  lemma CutPrefix(file: seq<Byte>, max: nat)
    requires |file| > max && EndsEarly(Buffer(file, max))
    ensures var buffer := Buffer(file, max);
      var prefix := buffer[..Min(ValidUpTo(buffer), max)];
      && (IsText(prefix) <==> !CutsTwice(file, max))
      && (IsText(prefix) ==> IsLongestText(prefix, file, max))
  {
    hide IsText;
    var buffer := Buffer(file, max);
    var v := ValidUpTo(buffer);
    ValidIsLongest(buffer);
    if v > max {
      BoundaryIff(buffer[..v], max);
      assert buffer[..v][..max] == buffer[..max];
    } else {
      forall k | v < k <= Min(max, |file|) ensures !IsText(file[..k]) {
        assert file[..k] == buffer[..k];
      }
    }
  }

  // ----------------------------------------------------------- well-formed files

  lemma BehindFront(s: seq<Byte>, n: nat)
    requires n == FrontLength(s) > 0
    ensures ValidUpTo(s) == n + ValidUpTo(s[n..]) && (EndsEarly(s) <==> EndsEarly(s[n..]))
  {
    hide OpensCharacter;
    assert s[ValidUpTo(s)..] == s[n..][ValidUpTo(s[n..])..];
  }

  lemma WithinFront(s: seq<Byte>, n: nat, i: nat)
    requires n <= |s| && IsCharacter(s[..n]) && 0 < i < n
    ensures ValidUpTo(s[..i]) == 0 && EndsEarly(s[..i]) && i <= 3
  {
    var cut := s[..i];
    assert cut == s[..n][..i] && cut[0] == s[..n][0];
    assert OpensCharacter(cut);
    assert forall k :: 0 <= k <= i ==> !IsCharacter(cut[..k]) by {
      assert forall k :: 1 <= k <= i ==> cut[..k][0] == cut[0];
    }
    assert FrontLength(cut) == 0 && cut[0..] == cut;
  }

  /** Well-formed, or cut off at most three bytes into a last character. */
  ghost predicate IsCutText(s: seq<Byte>)
  {
    (IsText(s) || EndsEarly(s)) && |s| - ValidUpTo(s) <= 3
  }

  lemma CutBehindFront(cut: seq<Byte>, front: seq<Byte>, rest: seq<Byte>)
    requires cut == front + rest && IsCharacter(front) && IsCutText(rest)
    ensures IsCutText(cut)
  {
    var n := |front|;
    assert cut[..n] == front && cut[n..] == rest;
    OneFront(cut, n);
    BehindFront(cut, n);
    hide EndsEarly, ValidUpTo, IsCharacter;
  }

  lemma CutStep(s: seq<Byte>, n: nat, i: nat)
    requires n <= i <= |s| && IsCharacter(s[..n]) && IsCutText(s[n..][..i - n])
    ensures IsCutText(s[..i])
  {
    hide IsCutText, IsCharacter;
    assert s[..i] == s[..n] + s[n..][..i - n];
    CutBehindFront(s[..i], s[..n], s[n..][..i - n]);
  }

  lemma FrontSplits(s: seq<Byte>) returns (n: nat)
    requires IsText(s) && s != []
    ensures 0 < n <= |s| && IsCharacter(s[..n]) && IsText(s[n..])
  {
    hide IsText, IsCharacter;
    FrontOfText(s);
    n := FrontLength(s);
  }

  /** A text cut anywhere. */
  lemma {:induction false} CutText(s: seq<Byte>, i: nat)
    requires IsText(s) && i <= |s|
    ensures IsCutText(s[..i])
    decreases |s|
  {
    if i == 0 {
      assert s[..0] == [];
    } else {
      hide IsText, IsCharacter;
      var n := FrontSplits(s);
      if i < n {
        WithinFront(s, n, i);
      } else {
        hide IsCutText;
        CutText(s[n..], i - n);
        CutStep(s, n, i);
      }
    }
  }

  /**
   On a well-formed file the read fails exactly when both ends fall inside a
   character: the text's at `max` and the buffer's four bytes further on.
   */
  lemma PanicsOnText(file: seq<Byte>, max: nat)
    requires IsText(file) && !HasNul(Buffer(file, max))
    ensures IsReadable(file, max)
    ensures CutsTwice(file, max) <==>
      |file| > max + LOOKAHEAD && !IsText(file[..max + LOOKAHEAD]) && !IsText(file[..max])
  {
    hide IsText;
    var buffer := Buffer(file, max);
    CutText(file, |buffer|);
    TextIsValid(buffer);
    if |file| > max {
      BoundaryIff(file, max);
    }
    assert |buffer| == |file| ==> buffer == file;
  }

  lemma OneMore(character: seq<Byte>, text: seq<Byte>)
    requires IsCharacter(character) && IsText(text)
    ensures IsText(character + text)
  {
    assert (character + text)[..|character|] == character && (character + text)[|character|..] == text;
  }

  lemma FourTimes(character: seq<Byte>)
    requires IsCharacter(character)
    ensures IsText(character + (character + (character + (character + []))))
  {
    hide IsText, IsCharacter;
    assert IsText([]) by {
      TextIsValid([]);
    }
    OneMore(character, []);
    OneMore(character, character + []);
    OneMore(character, character + (character + []));
    OneMore(character, character + (character + (character + [])));
  }

  /** Twelve bytes, four three-byte characters, read with a limit of four: the read fails. */
  lemma EuroSigns(euro: seq<Byte>, file: seq<Byte>)
    requires euro == [0xE2, 0x82, 0xAC] && file == euro + (euro + (euro + (euro + [])))
    ensures IsText(file) && IsReadable(file, 4) && CutsTwice(file, 4)
  {
    assert IsCharacter(euro);
    assert forall i :: 0 <= i < 12 ==> file[i] == euro[i % 3];
    assert !HasNul(Buffer(file, 4));
    hide IsText, IsCharacter, HasNul, CutsTwice, IsReadable;
    FourTimes(euro);
    BoundaryIff(file, 4);
    BoundaryIff(file, 8);
    PanicsOnText(file, 4);
  }
}
