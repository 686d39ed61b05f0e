/**
 Proportional rescaling of pane widths in integer basis points.

 Every pane but the last gets the floor of its exact share; the last one takes
 what is left, so that the total is met exactly.
 */
module PaneWidths {
  import opened Sequences

  const TOTAL: int := 10000

  predicate Positive(widths: seq<int>)
  {
    forall i :: 0 <= i < |widths| ==> widths[i] > 0
  }

  function Floors(widths: seq<int>, target: int, source: int): (floors: seq<int>)
    requires source > 0
    ensures |floors| == |widths|
  {
    seq(|widths|, i requires 0 <= i < |widths| => Share(widths[i], target, source))
  }

  /** What the panes share after rescaling `widths` to `target`. */
  function Rescaled(widths: seq<int>, target: int): (scaled: seq<int>)
    requires widths != [] ==> Sum(widths) > 0
    ensures |scaled| == |widths|
  {
    if widths == [] then []
    else
      var head := Floors(widths[..|widths| - 1], target, Sum(widths));
      head + [target - Sum(head)]
  }

  lemma {:induction false} PositiveSum(widths: seq<int>)
    requires Positive(widths)
    ensures Sum(widths) >= |widths|
  {
    if widths != [] {
      PositiveSum(widths[..|widths| - 1]);
    }
  }

  function Share(width: int, target: int, source: int): int
    requires source > 0
  {
    width * target / source
  }

  lemma ShareBounds(width: int, target: int, source: int)
    requires width >= 0 && target >= 0 && source > 0
    ensures 0 <= Share(width, target, source)
    ensures Share(width, target, source) * source <= width * target
    ensures width * target < Share(width, target, source) * source + source
  {
    assert width * target >= 0;
  }

  lemma AddShare(floors: int, widths: int, share: int, width: int, target: int, source: int, n: int)
    requires floors * source <= widths * target <= floors * source + n * source
    requires share * source <= width * target < share * source + source
    ensures (floors + share) * source <= (widths + width) * target
    ensures (widths + width) * target < (floors + share) * source + (n + 1) * source
  {
    assert (floors + share) * source == floors * source + share * source;
    assert (widths + width) * target == widths * target + width * target;
    assert (n + 1) * source == n * source + source;
  }

  /** The floors of the shares lose less than one unit per pane. */
  lemma {:induction false} FloorsBound(widths: seq<int>, target: int, source: int)
    requires Positive(widths) && target >= 0 && source > 0
    ensures 0 <= Sum(Floors(widths, target, source))
    ensures Sum(Floors(widths, target, source)) * source <= Sum(widths) * target
    ensures widths != [] ==> Sum(widths) * target < Sum(Floors(widths, target, source)) * source + |widths| * source
    ensures widths == [] ==> Sum(Floors(widths, target, source)) == 0 == Sum(widths)
  {
    if widths != [] {
      var n := |widths| - 1;
      var floors := Floors(widths, target, source);
      assert floors[..n] == Floors(widths[..n], target, source);
      FloorsBound(widths[..n], target, source);
      ShareBounds(widths[n], target, source);
      AddShare(Sum(floors[..n]), Sum(widths[..n]), floors[n], widths[n], target, source, n);
    }
  }

  lemma PositiveFactor(a: int, b: int)
    requires a * b > 0 && b > 0
    ensures a > 0
  {}

  /** The last pane keeps what the floors leave: its share and less than n-1 units more. */
  lemma Remainder(floors: int, widths: int, width: int, source: int, target: int, n: int)
    requires widths >= 0 && width > 0 && target > 0 && n >= 0 && source == widths + width
    requires floors * source <= widths * target
    requires n == 0 ==> floors == widths == 0
    requires n > 0 ==> widths * target < floors * source + n * source
    ensures 0 < target - floors
    ensures width * target <= (target - floors) * source
    ensures n > 0 ==> (target - floors) * source < width * target + n * source
  {
    assert source * target == widths * target + width * target;
    assert (target - floors) * source == source * target - floors * source;
    assert width * target > 0;
    PositiveFactor(target - floors, source);
  }

  /** The total is met exactly, and every pane but the last gets the floor of its share. */
  lemma RescaledTotal(widths: seq<int>, target: int)
    requires widths != [] && Positive(widths) && target > 0
    ensures Sum(widths) > 0
    ensures Sum(Rescaled(widths, target)) == target
    ensures forall i :: 0 <= i < |widths| - 1 ==>
      Rescaled(widths, target)[i] == Share(widths[i], target, Sum(widths)) >= 0
  {
    PositiveSum(widths);
    var head := Floors(widths[..|widths| - 1], target, Sum(widths));
    SumAppend(head, [target - Sum(head)]);
    assert [target - Sum(head)][..0] == [];
    forall i | 0 <= i < |head| ensures head[i] >= 0 {
      ShareBounds(widths[i], target, Sum(widths));
    }
  }

  /**
   The last pane gets a positive width, at least its exact share and less than
   n-1 units above it, so the unsigned subtraction that computes it cannot wrap.
   */
  lemma RescaledLast(widths: seq<int>, target: int)
    requires widths != [] && Positive(widths) && target > 0
    ensures Sum(widths) > 0
    ensures var n, last := |widths| - 1, Rescaled(widths, target)[|widths| - 1];
      && 0 < last
      && widths[n] * target <= last * Sum(widths)
      && (n == 0 ==> last == target)
      && (n > 0 ==> last * Sum(widths) < widths[n] * target + n * Sum(widths))
  {
    PositiveSum(widths);
    var n := |widths| - 1;
    var init := widths[..n];
    PositiveSum(init);
    FloorsBound(init, target, Sum(widths));
    Remainder(Sum(Floors(init, target, Sum(widths))), Sum(init), widths[n], Sum(widths), target, n);
  }

  lemma ShareZero(width: int, target: int, source: int)
    requires width > 0 && target > 0 && source > 0
    ensures Share(width, target, source) == 0 <==> width * target < source
    ensures target >= source ==> Share(width, target, source) > 0
  {
    ShareBounds(width, target, source);
    var q := Share(width, target, source);
    if q > 0 {
      assert q * source >= source;
    }
    if target >= source {
      assert width * target >= 1 * target;
    }
  }

  /**
   A rescaled share vanishes exactly for a pane other than the last whose exact
   share is below one unit; growing therefore never produces a zero width.
   */
  lemma ZeroShare(widths: seq<int>, target: int)
    requires widths != [] && Positive(widths) && target > 0
    ensures Sum(widths) > 0
    ensures forall i :: 0 <= i < |widths| ==>
      (Rescaled(widths, target)[i] == 0 <==> i < |widths| - 1 && widths[i] * target < Sum(widths))
    ensures target >= Sum(widths) ==> Positive(Rescaled(widths, target))
  {
    RescaledTotal(widths, target);
    RescaledLast(widths, target);
    forall i | 0 <= i < |widths| - 1
      ensures Rescaled(widths, target)[i] == 0 <==> widths[i] * target < Sum(widths)
      ensures target >= Sum(widths) ==> Rescaled(widths, target)[i] > 0
    {
      ShareZero(widths[i], target, Sum(widths));
    }
  }

  /** Shares of a positive layout stay within the total they are cut from. */
  lemma {:induction false} WidthBound(widths: seq<int>, i: int)
    requires 0 <= i < |widths|
    requires forall k :: 0 <= k < |widths| ==> widths[k] >= 0
    ensures 0 <= widths[i] <= Sum(widths)
    ensures 0 <= Sum(widths[..i]) <= Sum(widths)
  {
    var n := |widths| - 1;
    if i < n {
      WidthBound(widths[..n], i);
      assert widths[..n][..i] == widths[..i];
    } else if n > 0 {
      WidthBound(widths[..n], n - 1);
    }
  }

  lemma RescaledRange(widths: seq<int>, target: int)
    requires widths != [] && Positive(widths) && target > 0
    ensures Sum(widths) > 0
    ensures forall i :: 0 <= i < |widths| ==> 0 <= Rescaled(widths, target)[i] <= target
    ensures forall i :: 0 <= i <= |widths| ==> 0 <= Sum(Rescaled(widths, target)[..i]) <= target
  {
    RescaledTotal(widths, target);
    RescaledLast(widths, target);
    var full := Rescaled(widths, target);
    forall i | 0 <= i < |full|
      ensures 0 <= full[i] <= target && 0 <= Sum(full[..i]) <= target
    {
      WidthBound(full, i);
    }
    assert full[..|full|] == full;
  }

  /**
   The rescaling loop itself. `spent` never exceeds the target, so neither the
   16-bit subtraction for the last pane nor the 16-bit sum can overflow.
   */
  method ScaleWorkspaceWidths(widths: seq<int>, target: int) returns (scaled: seq<int>)
    requires Positive(widths) && Sum(widths) <= TOTAL
    requires 0 < target <= TOTAL
    ensures widths != [] ==> Sum(widths) > 0
    ensures scaled == Rescaled(widths, target)
    ensures forall i :: 0 <= i < |scaled| ==> 0 <= scaled[i] <= TOTAL
  {
    var sourceTotal := 0;
    for i := 0 to |widths|
      invariant sourceTotal == Sum(widths[..i])
    {
      assert widths[..i + 1][..i] == widths[..i];
      sourceTotal := sourceTotal + widths[i];
    }
    assert widths[..|widths|] == widths;
    if widths == [] {
      return [];
    }
    RescaledRange(widths, target);
    ghost var full := Rescaled(widths, target);
    var spent := 0;
    scaled := [];
    for i := 0 to |widths|
      invariant |scaled| == i
      invariant scaled == full[..i]
      invariant spent == Sum(full[..i]) <= target
    {
      assert full[..i + 1][..i] == full[..i];
      if i + 1 == |widths| {
        assert full[..i] == Floors(widths[..i], target, sourceTotal);
      }
      var share := if i + 1 == |widths| then target - spent else Share(widths[i], target, sourceTotal);
      scaled := scaled + [share];
      spent := spent + share;
    }
  }

  /** The width of a pane opened beside `count` others. */
  function SideWidth(count: nat): int
  {
    TOTAL / (count + 1)
  }

  /**
   Opening a third pane beside two and closing it again moves each of the two
   widths by at most two basis points: the left one may lose them to the right.
   */
  lemma OpenThirdThenClose(left: int, right: int)
    requires left > 0 && right > 0 && left + right == TOTAL
    requires Share(left, TOTAL - SideWidth(2), TOTAL) > 0
    ensures Sum([left, right]) == TOTAL
    ensures var narrowed := Rescaled([left, right], TOTAL - SideWidth(2));
      && Positive(narrowed)
      && Sum(narrowed) == TOTAL - SideWidth(2)
      && var restored := Rescaled(narrowed, TOTAL);
      && |restored| == 2
      && left - 2 <= restored[0] <= left
      && right <= restored[1] <= right + 2
  {
    var widths := [left, right];
    assert widths[..1] == [left] && [left][..0] == [];
    assert Sum(widths) == Sum([left]) + right == TOTAL;
    var narrowed := Rescaled(widths, 6667);
    RescaledTotal(widths, 6667);
    RescaledLast(widths, 6667);
    var l := left * 6667 / 10000;
    assert narrowed[0] == l;
    RescaledTotal(narrowed, TOTAL);
    var restored := Rescaled(narrowed, TOTAL);
    assert restored[0] == l * 10000 / 6667;
    assert restored[..1] == [restored[0]] && [restored[0]][..0] == [];
    assert Sum(restored) == restored[0] + restored[1];
  }
}
