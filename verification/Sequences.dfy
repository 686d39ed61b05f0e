/** Facts about finite sequences that several components need. */
module Sequences {
  function Sum(s: seq<int>): (total: int)
  {
    if s == [] then 0 else Sum(s[..|s| - 1]) + s[|s| - 1]
  }

  lemma {:induction false} SumAppend(s: seq<int>, t: seq<int>)
    ensures Sum(s + t) == Sum(s) + Sum(t)
  {
    if t == [] {
      assert s + t == s;
    } else {
      assert (s + t)[..|s + t| - 1] == s + t[..|t| - 1];
      SumAppend(s, t[..|t| - 1]);
    }
  }

  ghost predicate Distinct<T>(s: seq<T>)
  {
    forall i, j :: 0 <= i < j < |s| ==> s[i] != s[j]
  }

  /** The pieces between the separators: one more than there are separators. */
  function Split<T(==)>(s: seq<T>, separator: T): (pieces: seq<seq<T>>)
    ensures |pieces| > 0
  {
    if s == [] then [[]]
    else
      var rest := Split(s[1..], separator);
      if s[0] == separator then [[]] + rest else [[s[0]] + rest[0]] + rest[1..]
  }

  function Join<T>(pieces: seq<seq<T>>, separator: T): seq<T>
    requires |pieces| > 0
  {
    if |pieces| == 1 then pieces[0] else pieces[0] + [separator] + Join(pieces[1..], separator)
  }

  lemma {:induction false} SplitPrefix<T>(head: seq<T>, tail: seq<T>, separator: T)
    requires separator !in head
    ensures Split(head + [separator] + tail, separator) == [head] + Split(tail, separator)
  {
    var s := head + [separator] + tail;
    if head == [] {
      assert s[1..] == tail;
    } else {
      assert s[1..] == head[1..] + [separator] + tail;
      SplitPrefix(head[1..], tail, separator);
      assert [head[0]] + head[1..] == head;
    }
  }

  lemma {:induction false} SplitNone<T>(s: seq<T>, separator: T)
    requires separator !in s
    ensures Split(s, separator) == [s]
  {
    if s != [] {
      SplitNone(s[1..], separator);
      assert [s[0]] + s[1..] == s;
    }
  }

  lemma {:induction false} SplitPieces<T>(s: seq<T>, separator: T)
    ensures forall piece :: piece in Split(s, separator) ==> separator !in piece
    ensures forall piece, x :: piece in Split(s, separator) && x in piece ==> x in s
  {
    if s != [] {
      SplitPieces(s[1..], separator);
      var rest := Split(s[1..], separator);
      assert s == [s[0]] + s[1..] && rest == [rest[0]] + rest[1..];
      hide Split;
      assert forall piece :: piece in rest[1..] ==> piece in rest;
    }
  }

  lemma {:induction false} SplitJoins<T>(s: seq<T>, separator: T)
    ensures Join(Split(s, separator), separator) == s
  {
    if s != [] {
      SplitJoins(s[1..], separator);
      var rest := Split(s[1..], separator);
      if s[0] == separator {
        assert ([[]] + rest)[1..] == rest;
        assert s == [separator] + s[1..];
      } else {
        var mine := [[s[0]] + rest[0]] + rest[1..];
        assert mine[1..] == rest[1..];
        assert s == [s[0]] + s[1..];
      }
    }
  }
}
