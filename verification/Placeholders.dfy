/**
 Single-pass placeholder expansion in plugin arguments: `${PLUGIN_ROOT}` and
 `${PLUGIN_DATA}` are replaced left to right and inserted text is not read again.
 */
module Placeholders {
  import opened Wrappers

  datatype Token = Root | Data

  /** The two texts and what replaces them. */
  datatype Replacements = Replacements(root: string, data: string)

  const TOKEN_LENGTH: nat := 14

  function TextOf(token: Token): string
  {
    match token
    case Root => "${PLUGIN_ROOT}"
    case Data => "${PLUGIN_DATA}"
  }

  function ValueOf(replacements: Replacements, token: Token): string
  {
    match token
    case Root => replacements.root
    case Data => replacements.data
  }

  predicate OccursAt(token: Token, s: string, i: int)
  {
    0 <= i <= |s| && TextOf(token) <= s[i..]
  }

  predicate AnyAt(s: string, i: int)
  {
    OccursAt(Root, s, i) || OccursAt(Data, s, i)
  }

  /** A dollar sign opens a token and appears nowhere else in it; the two differ. */
  lemma TokenFacts()
    ensures forall token: Token :: |TextOf(token)| == TOKEN_LENGTH && TextOf(token)[0] == '$'
    ensures forall token: Token, k :: 1 <= k < TOKEN_LENGTH ==>
      |TextOf(token)| == TOKEN_LENGTH && TextOf(token)[k] != '$'
    ensures TextOf(Root) != TextOf(Data)
  {
    assert TextOf(Root)[9] != TextOf(Data)[9];
  }

  // -------------------------------------------------------------- the scanner

  datatype Piece = Literal(c: char) | Placeholder(token: Token)

  /** One character at a time: a token at the front is one piece, anything else one literal. */
  function Pieces(input: string): seq<Piece>
    decreases |input|
  {
    TokenFacts();
    if input == "" then []
    else if OccursAt(Root, input, 0) then [Placeholder(Root)] + Pieces(input[TOKEN_LENGTH..])
    else if OccursAt(Data, input, 0) then [Placeholder(Data)] + Pieces(input[TOKEN_LENGTH..])
    else [Literal(input[0])] + Pieces(input[1..])
  }

  function SourceOf(piece: Piece): string
  {
    match piece
    case Literal(c) => [c]
    case Placeholder(token) => TextOf(token)
  }

  function Sources(pieces: seq<Piece>): string
  {
    if pieces == [] then "" else SourceOf(pieces[0]) + Sources(pieces[1..])
  }

  function OutputOf(piece: Piece, replacements: Replacements): string
  {
    match piece
    case Literal(c) => [c]
    case Placeholder(token) => ValueOf(replacements, token)
  }

  function Outputs(pieces: seq<Piece>, replacements: Replacements): string
  {
    if pieces == [] then "" else OutputOf(pieces[0], replacements) + Outputs(pieces[1..], replacements)
  }

  /** The expansion: pieces depend on the input alone, so no inserted text is ever scanned. */
  function Expanded(input: string, replacements: Replacements): string
  {
    Outputs(Pieces(input), replacements)
  }

  /** A way to cut a text into pieces in which no literal opens a token. */
  ghost predicate IsCut(pieces: seq<Piece>)
  {
    pieces == [] || ((pieces[0].Literal? ==> !AnyAt(Sources(pieces), 0)) && IsCut(pieces[1..]))
  }

  lemma {:induction false} SourcesPieces(input: string)
    ensures Sources(Pieces(input)) == input && IsCut(Pieces(input))
    decreases |input|
  {
    if input != "" {
      TokenFacts();
      hide TextOf;
      var n := if AnyAt(input, 0) then TOKEN_LENGTH else 1;
      SourcesPieces(input[n..]);
      assert Pieces(input)[1..] == Pieces(input[n..]);
      assert input[..n] + input[n..] == input;
      assert input[0..] == input;
    }
  }

  /** Tokens do not overlap. */
  lemma NoOverlap(s: string, i: int, j: int, one: Token, other: Token)
    requires OccursAt(one, s, i) && OccursAt(other, s, j) && i <= j
    ensures i == j ==> one == other
    ensures i < j ==> i + TOKEN_LENGTH <= j
  {
    TokenFacts();
    hide TextOf;
    assert s[j] == s[j..][0] == '$';
    forall k | i < k < i + TOKEN_LENGTH ensures s[k] != '$' {
      assert s[k] == s[i..][k - i];
    }
    assert i == j ==> TextOf(one) == s[i..][..TOKEN_LENGTH] == TextOf(other);
    assert one == other || {one, other} == {Root, Data};
  }

  lemma TokenPiece(input: string, token: Token)
    requires OccursAt(token, input, 0)
    ensures |input| >= TOKEN_LENGTH && Pieces(input) == [Placeholder(token)] + Pieces(input[TOKEN_LENGTH..])
  {
    TokenFacts();
    if OccursAt(Root, input, 0) {
      NoOverlap(input, 0, 0, token, Root);
    }
    hide TextOf;
  }

  /** There is only one such way. */
  lemma {:induction false} CutIsUnique(pieces: seq<Piece>)
    requires IsCut(pieces)
    ensures Pieces(Sources(pieces)) == pieces
  {
    if pieces != [] {
      TokenFacts();
      hide TextOf;
      CutIsUnique(pieces[1..]);
      var input, head := Sources(pieces), SourceOf(pieces[0]);
      assert input == head + Sources(pieces[1..]);
      assert input[|head|..] == Sources(pieces[1..]) && input[0..] == input;
      match pieces[0]
      case Placeholder(token) =>
        TokenPiece(input, token);
      case Literal(c) =>
        assert Pieces(input) == [Literal(c)] + Pieces(input[1..]);
    }
  }

  // -------------------------------------------------------- concatenation

  /** A token that begins in `a` and ends in `b`, for the text `a + b`. */
  predicate Straddles(token: Token, a: string, b: string)
  {
    exists i :: 0 <= i < |a| < i + TOKEN_LENGTH && OccursAt(token, a + b, i)
  }

  /** Expansion distributes over concatenation when no token straddles the seam. */
  lemma {:induction false} Distributes(a: string, b: string, replacements: Replacements)
    requires forall token: Token :: !Straddles(token, a, b)
    ensures Expanded(a + b, replacements) == Expanded(a, replacements) + Expanded(b, replacements)
    decreases |a|
  {
    TokenFacts();
    hide TextOf;
    var s := a + b;
    if a == "" {
      assert s == b;
    } else {
      assert s[0..] == s && a[0..] == a;
      forall token: Token ensures OccursAt(token, s, 0) <==> OccursAt(token, a, 0) {
        assert !Straddles(token, a, b);
        assert a == s[..|a|];
      }
      var n := if AnyAt(a, 0) then TOKEN_LENGTH else 1;
      assert s[n..] == a[n..] + b;
      forall token: Token ensures !Straddles(token, a[n..], b) {
        if Straddles(token, a[n..], b) {
          StraddlesLater(token, a, b, n);
          assert false;
        }
      }
      Distributes(a[n..], b, replacements);
      hide OccursAt, Straddles;
    }
  }

  lemma StraddlesLater(token: Token, a: string, b: string, n: nat)
    requires n <= |a| && Straddles(token, a[n..], b)
    ensures Straddles(token, a, b)
  {
    hide TextOf;
    var i :| 0 <= i < |a[n..]| < i + TOKEN_LENGTH && OccursAt(token, a[n..] + b, i);
    assert (a + b)[i + n..] == (a[n..] + b)[i..];
    assert OccursAt(token, a + b, i + n);
  }

  /** Within any stretch of the text, a token occurrence lies on one side of another token's ends. */
  lemma BesideToken(s: string, token: Token, i: nat, low: nat, cut: nat, high: nat, other: Token, k: nat)
    requires OccursAt(token, s, i) && low <= cut <= high <= |s|
    requires cut == i || cut == i + TOKEN_LENGTH
    requires OccursAt(other, s[low..high], k)
    ensures low + k + TOKEN_LENGTH <= cut || cut <= low + k
  {
    TokenFacts();
    assert s[low + k..][..TOKEN_LENGTH] == s[low..high][k..][..TOKEN_LENGTH];
    hide TextOf;
    assert OccursAt(other, s, low + k);
    if low + k <= i {
      NoOverlap(s, low + k, i, other, token);
    } else {
      NoOverlap(s, i, low + k, token, other);
    }
  }

  lemma ClearSeam(s: string, token: Token, i: nat, low: nat, cut: nat, high: nat)
    requires OccursAt(token, s, i) && low <= cut <= high <= |s|
    requires cut == i || cut == i + TOKEN_LENGTH
    ensures forall other: Token :: !Straddles(other, s[low..cut], s[cut..high])
  {
    assert s[low..cut] + s[cut..high] == s[low..high];
    hide TextOf;
    forall other: Token, k: nat | OccursAt(other, s[low..high], k)
      ensures low + k + TOKEN_LENGTH <= cut || cut <= low + k {
      BesideToken(s, token, i, low, cut, high, other, k);
    }
  }

  lemma {:induction false} TooShort(s: string, replacements: Replacements)
    requires |s| < TOKEN_LENGTH
    ensures Expanded(s, replacements) == s
  {
    TokenFacts();
    hide TextOf;
    if s != "" {
      TooShort(s[1..], replacements);
      assert [s[0]] + s[1..] == s;
    }
  }

  lemma TokenAtFront(input: string, token: Token, replacements: Replacements)
    requires OccursAt(token, input, 0)
    ensures |input| >= TOKEN_LENGTH
    ensures Expanded(input, replacements) == ValueOf(replacements, token) +
      Expanded(input[TOKEN_LENGTH..], replacements)
  {
    TokenPiece(input, token);
    hide Pieces, OccursAt;
  }

  lemma WholeAtToken(s: string, replacements: Replacements, token: Token, i: nat)
    requires OccursAt(token, s, i)
    ensures i + TOKEN_LENGTH <= |s|
    ensures Expanded(s, replacements) ==
      Expanded(s[..i], replacements) + ValueOf(replacements, token) + Expanded(s[i + TOKEN_LENGTH..], replacements)
  {
    TokenFacts();
    hide TextOf;
    ClearSeam(s, token, i, 0, i, |s|);
    assert s[0..i] == s[..i];
    assert s[i..|s|] == s[i..];
    assert s[..i] + s[i..] == s;
    Distributes(s[..i], s[i..], replacements);
    assert s[i..][0..] == s[i..] && s[i..][TOKEN_LENGTH..] == s[i + TOKEN_LENGTH..];
    TokenAtFront(s[i..], token, replacements);
  }

  /** The front of a token cut off by the end of the text stays as it is. */
  lemma FrontOfToken(s: string, replacements: Replacements, token: Token, i: nat, seam: nat)
    requires OccursAt(token, s, i) && i < seam < i + TOKEN_LENGTH && seam <= |s|
    ensures Expanded(s[..seam], replacements) == Expanded(s[..i], replacements) + s[i..seam]
  {
    ClearSeam(s, token, i, 0, i, seam);
    hide TextOf, OccursAt, Straddles, Expanded;
    assert s[0..i] == s[..i] && s[..i] + s[i..seam] == s[..seam];
    Distributes(s[..i], s[i..seam], replacements);
    TooShort(s[i..seam], replacements);
  }

  /** So does the rear of a token whose front is cut off. */
  lemma RearOfToken(s: string, replacements: Replacements, token: Token, i: nat, seam: nat)
    requires OccursAt(token, s, i) && i < seam < i + TOKEN_LENGTH <= |s|
    ensures Expanded(s[seam..], replacements) == s[seam..i + TOKEN_LENGTH] +
      Expanded(s[i + TOKEN_LENGTH..], replacements)
  {
    var end := i + TOKEN_LENGTH;
    ClearSeam(s, token, i, seam, end, |s|);
    hide TextOf, OccursAt, Straddles, Expanded;
    assert s[end..|s|] == s[end..] && s[seam..end] + s[end..] == s[seam..];
    Distributes(s[seam..end], s[end..], replacements);
    TooShort(s[seam..end], replacements);
  }

  lemma Regroup(w: string, x: string, y: string, z: string)
    ensures (w + x) + (y + z) == w + (x + y) + z
  {}

  lemma PartsAtToken(s: string, replacements: Replacements, token: Token, i: nat, seam: nat)
    requires OccursAt(token, s, i) && i < seam < i + TOKEN_LENGTH <= |s|
    ensures Expanded(s[..seam], replacements) + Expanded(s[seam..], replacements) ==
      Expanded(s[..i], replacements) + TextOf(token) + Expanded(s[i + TOKEN_LENGTH..], replacements)
  {
    TokenFacts();
    FrontOfToken(s, replacements, token, i, seam);
    RearOfToken(s, replacements, token, i, seam);
    hide TextOf, Expanded;
    var before, behind := Expanded(s[..i], replacements), Expanded(s[i + TOKEN_LENGTH..], replacements);
    assert s[i..seam] + s[seam..i + TOKEN_LENGTH] == s[i..][..TOKEN_LENGTH] == TextOf(token);
    Regroup(before, s[i..seam], s[seam..i + TOKEN_LENGTH], behind);
  }

  lemma Cancel(x: string, v: string, w: string, y: string)
    ensures x + v + y == x + w + y <==> v == w
  {
    if x + v + y == x + w + y {
      assert |v| == |w|;
      assert v == (x + v + y)[|x|..|x| + |v|] == w;
    }
  }

  /** Exactly when expansion distributes: a token across the seam must be replaced by itself. */
  lemma DistributesExactly(a: string, b: string, replacements: Replacements)
    ensures Expanded(a + b, replacements) == Expanded(a, replacements) + Expanded(b, replacements)
      <==> forall token: Token :: Straddles(token, a, b) ==> ValueOf(replacements, token) == TextOf(token)
  {
    forall token: Token | Straddles(token, a, b)
      ensures Expanded(a + b, replacements) == Expanded(a, replacements) + Expanded(b, replacements)
        <==> ValueOf(replacements, token) == TextOf(token)
    {
      var i :| 0 <= i < |a| < i + TOKEN_LENGTH && OccursAt(token, a + b, i);
      WholeAtToken(a + b, replacements, token, i);
      PartsAtToken(a + b, replacements, token, i, |a|);
      assert (a + b)[..|a|] == a && (a + b)[|a|..] == b;
      Cancel(Expanded((a + b)[..i], replacements), ValueOf(replacements, token), TextOf(token),
             Expanded((a + b)[i + TOKEN_LENGTH..], replacements));
    }
    if forall token: Token :: !Straddles(token, a, b) {
      Distributes(a, b, replacements);
    }
  }

  // ------------------------------------------------------------------ the loop

  /** The first place a text occurs. */
  method Find(token: Token, input: string) returns (found: Option<nat>)
    ensures found.Some? ==> OccursAt(token, input, found.value) && forall k :: 0 <= k < found.value ==>
      !OccursAt(token, input, k)
    ensures found.None? ==> forall k :: !OccursAt(token, input, k)
  {
    for i := 0 to |input|
      invariant forall k :: 0 <= k < i ==> !OccursAt(token, input, k)
    {
      if OccursAt(token, input, i) {
        return Some(i);
      }
    }
    assert !OccursAt(token, input, |input|) by {
      TokenFacts();
    }
    return None;
  }

  /** The leftmost token of either kind. */
  method NextPlaceholder(input: string) returns (next: Option<(nat, Token)>)
    ensures next.Some? ==> OccursAt(next.value.1, input, next.value.0) && forall k :: 0 <= k < next.value.0 ==>
      !AnyAt(input, k)
    ensures next.None? ==> forall k :: !AnyAt(input, k)
  {
    var root := Find(Root, input);
    var data := Find(Data, input);
    if root.Some? && (data.None? || root.value <= data.value) {
      return Some((root.value, Root));
    }
    if data.Some? {
      return Some((data.value, Data));
    }
    return None;
  }

  /** A text without tokens is copied. */
  lemma {:induction false} Untouched(s: string, replacements: Replacements)
    requires forall k :: 0 <= k < |s| ==> !AnyAt(s, k)
    ensures Expanded(s, replacements) == s
  {
    hide TextOf;
    if s != "" {
      forall k | 0 <= k < |s| - 1 ensures !AnyAt(s[1..], k) {
        assert s[1..][k..] == s[k + 1..];
        assert !AnyAt(s, k + 1);
      }
      assert !AnyAt(s, 0);
      Untouched(s[1..], replacements);
      assert [s[0]] + s[1..] == s;
    }
  }

  /** One turn of the loop: copy up to the leftmost token, replace it, go on behind it. */
  lemma ExpandedStep(rest: string, index: nat, token: Token, replacements: Replacements)
    requires OccursAt(token, rest, index) && forall k :: 0 <= k < index ==> !AnyAt(rest, k)
    ensures index + TOKEN_LENGTH <= |rest|
    ensures Expanded(rest, replacements) ==
      rest[..index] + ValueOf(replacements, token) + Expanded(rest[index + TOKEN_LENGTH..], replacements)
  {
    hide TextOf;
    WholeAtToken(rest, replacements, token, index);
    forall k | 0 <= k < index ensures !AnyAt(rest[..index], k) {
      assert !AnyAt(rest, k) && rest[..index][k..] <= rest[k..];
    }
    Untouched(rest[..index], replacements);
  }

  method ExpandPlaceholders(input: string, replacements: Replacements) returns (result: string)
    ensures result == Expanded(input, replacements)
  {
    result := "";
    var rest := input;
    var next := NextPlaceholder(rest);
    while next.Some?
      invariant result + Expanded(rest, replacements) == Expanded(input, replacements)
      invariant next.Some? ==> OccursAt(next.value.1, rest, next.value.0) && forall k :: 0 <= k < next.value.0 ==>
        !AnyAt(rest, k)
      invariant next.None? ==> forall k :: !AnyAt(rest, k)
      decreases |rest|
    {
      var index, token := next.value.0, next.value.1;
      ExpandedStep(rest, index, token, replacements);
      result := result + rest[..index] + ValueOf(replacements, token);
      rest := rest[index + TOKEN_LENGTH..];
      next := NextPlaceholder(rest);
    }
    Untouched(rest, replacements);
    result := result + rest;
  }
}
