/**
 What the workspace pane operations do to the visible layout: the panes from
 left to right and the focused pane.
 */
module PaneLayout {
  import opened Wrappers
  import opened StoreErrors
  import opened Sequences
  import opened PaneWidths

  type Id = nat

  datatype Pane = Pane(id: Id, context: Id, width: int)

  datatype Layout = Layout(panes: seq<Pane>, focus: Option<Id>)

  const MAX_PANES: nat := 3

  function Widths(panes: seq<Pane>): (widths: seq<int>)
    ensures |widths| == |panes|
  {
    seq(|panes|, i requires 0 <= i < |panes| => panes[i].width)
  }

  ghost predicate DistinctIds(panes: seq<Pane>)
  {
    forall i, j :: 0 <= i < j < |panes| ==> panes[i].id != panes[j].id
  }

  ghost predicate DistinctContexts(panes: seq<Pane>)
  {
    forall i, j :: 0 <= i < j < |panes| ==> panes[i].context != panes[j].context
  }

  /** At most three panes, one per work context, positive widths that fill the window. */
  ghost predicate ValidPanes(panes: seq<Pane>)
  {
    && |panes| <= MAX_PANES
    && DistinctIds(panes)
    && DistinctContexts(panes)
    && Positive(Widths(panes))
    && (panes != [] ==> Sum(Widths(panes)) == TOTAL)
  }

  ghost predicate Shows(panes: seq<Pane>, id: Id)
  {
    exists i :: 0 <= i < |panes| && panes[i].id == id
  }

  /** Exactly the empty layout has no focus; any other focus names a visible pane. */
  ghost predicate ValidLayout(layout: Layout)
  {
    && ValidPanes(layout.panes)
    && (layout.focus.None? <==> layout.panes == [])
    && (layout.focus.Some? ==> Shows(layout.panes, layout.focus.value))
  }

  /** The first index of the pane, or the number of panes when it is not visible. */
  function IndexOf(panes: seq<Pane>, id: Id): (index: nat)
    ensures index <= |panes|
    ensures index < |panes| ==> panes[index].id == id
    ensures forall i :: 0 <= i < index ==> panes[i].id != id
  {
    if panes == [] || panes[0].id == id then 0 else 1 + IndexOf(panes[1..], id)
  }

  function IndexOfContext(panes: seq<Pane>, context: Id): (index: nat)
    ensures index <= |panes|
    ensures index < |panes| ==> panes[index].context == context
    ensures forall i :: 0 <= i < index ==> panes[i].context != context
  {
    if panes == [] || panes[0].context == context then 0 else 1 + IndexOfContext(panes[1..], context)
  }

  lemma TotalAppend(left: seq<Pane>, right: seq<Pane>)
    ensures Sum(Widths(left + right)) == Sum(Widths(left)) + Sum(Widths(right))
  {
    assert Widths(left + right) == Widths(left) + Widths(right);
    SumAppend(Widths(left), Widths(right));
  }

  lemma TotalOne(pane: Pane)
    ensures Sum(Widths([pane])) == pane.width
  {
    assert Widths([pane])[..0] == [];
  }

  function WithWidths(panes: seq<Pane>, widths: seq<int>): (resized: seq<Pane>)
    requires |widths| == |panes|
    ensures |resized| == |panes|
    ensures forall i :: 0 <= i < |panes| ==> resized[i] == panes[i].(width := widths[i])
    ensures Widths(resized) == widths
  {
    var resized := seq(|panes|, i requires 0 <= i < |panes| => panes[i].(width := widths[i]));
    assert Widths(resized) == widths;
    resized
  }

  /** The panes rescaled to share `target`. */
  function Fill(panes: seq<Pane>, target: int): (resized: seq<Pane>)
    requires Positive(Widths(panes))
    ensures |resized| == |panes|
  {
    PositiveSum(Widths(panes));
    WithWidths(panes, Rescaled(Widths(panes), target))
  }

  function Without(panes: seq<Pane>, index: nat): (rest: seq<Pane>)
    requires index < |panes|
    ensures |rest| == |panes| - 1
  {
    panes[..index] + panes[index + 1..]
  }

  function Inserted(panes: seq<Pane>, index: nat, pane: Pane): (all: seq<Pane>)
    requires index <= |panes|
    ensures |all| == |panes| + 1
  {
    panes[..index] + [pane] + panes[index..]
  }

  /** Bring `context` into view, in the first pane or in a new pane to the side. */
  function Show(layout: Layout, context: Id, paneId: Id, toSide: bool): Result<Layout, StoreError>
    requires Positive(Widths(layout.panes))
  {
    var panes := layout.panes;
    var shown := IndexOfContext(panes, context);
    if shown < |panes| then
      Success(layout.(focus := Some(panes[shown].id)))
    else if !toSide && panes != [] then
      Success(Layout(panes[0 := panes[0].(context := context)], Some(panes[0].id)))
    else if |panes| >= MAX_PANES then
      Failure(Conflict)
    else if panes == [] then
      Success(Layout([Pane(paneId, context, TOTAL)], Some(paneId)))
    else
      var narrowed := Fill(panes, TOTAL - SideWidth(|panes|));
      if Positive(Widths(narrowed)) then
        Success(Layout(narrowed + [Pane(paneId, context, SideWidth(|panes|))], Some(paneId)))
      else
        Failure(Constraint)
  }

  function Focus(layout: Layout, id: Id): Result<Layout, StoreError>
  {
    if IndexOf(layout.panes, id) < |layout.panes| then Success(layout.(focus := Some(id))) else Failure(NotFound)
  }

  lemma {:induction false} WithoutPositive(panes: seq<Pane>, index: nat)
    requires index < |panes| && Positive(Widths(panes))
    ensures Positive(Widths(Without(panes, index)))
  {
    var rest := Without(panes, index);
    forall i | 0 <= i < |rest| ensures Widths(rest)[i] > 0 {
      assert rest[i] == panes[if i < index then i else i + 1];
      assert Widths(panes)[if i < index then i else i + 1] > 0;
    }
  }

  /**
   Close a pane. The survivors grow to fill the window, and the pane that moves
   into the closed slot gets the focus (the last survivor if there is none).
   */
  function Close(layout: Layout, id: Id): Result<Layout, StoreError>
    requires Positive(Widths(layout.panes))
  {
    var slot := IndexOf(layout.panes, id);
    if slot == |layout.panes| then Failure(NotFound)
    else
      WithoutPositive(layout.panes, slot);
      var survivors := Fill(Without(layout.panes, slot), TOTAL);
      var focus :=
        if survivors == [] then None
        else Some(survivors[if slot < |survivors| then slot else |survivors| - 1].id);
      Success(Layout(survivors, focus))
  }

  /** Replace the widths; the request must list every pane in layout order. */
  function Resize(layout: Layout, request: seq<(Id, nat)>): Result<Layout, StoreError>
  {
    var panes := layout.panes;
    var widths := seq(|request|, i requires 0 <= i < |request| => request[i].1);
    if request == [] || |request| != |panes| || Sum(widths) != TOTAL || !Positive(widths) then
      Failure(InvalidInput)
    else if exists i | 0 <= i < |panes| :: request[i].0 != panes[i].id then
      Failure(InvalidInput)
    else
      Success(layout.(panes := WithWidths(panes, widths)))
  }

  /** Move a pane: take it out, put it back at its destination, focus it. */
  function Move(layout: Layout, id: Id, destination: nat): Result<Layout, StoreError>
  {
    var panes := layout.panes;
    var source := IndexOf(panes, id);
    if destination >= |panes| then Failure(InvalidInput)
    else if source == |panes| then Failure(NotFound)
    else Success(Layout(Inserted(Without(panes, source), destination, panes[source]), Some(id)))
  }

  function Outside(panes: seq<Pane>, gone: set<Id>): (rest: seq<Pane>)
    ensures |rest| <= |panes|
    ensures forall pane :: pane in rest ==> pane in panes && pane.context !in gone
  {
    if panes == [] then []
    else (if panes[0].context in gone then [] else [panes[0]]) + Outside(panes[1..], gone)
  }

  lemma {:induction false} OutsidePositive(panes: seq<Pane>, gone: set<Id>)
    requires Positive(Widths(panes))
    ensures Positive(Widths(Outside(panes, gone)))
  {
    var rest := Outside(panes, gone);
    forall i | 0 <= i < |rest| ensures Widths(rest)[i] > 0 {
      assert rest[i] in panes;
      var k :| 0 <= k < |panes| && panes[k] == rest[i];
      assert Widths(panes)[k] > 0;
    }
  }

  /** Drop every pane of the archived Agent's contexts and focus the first survivor. */
  function Archive(layout: Layout, gone: set<Id>): Layout
    requires Positive(Widths(layout.panes))
  {
    OutsidePositive(layout.panes, gone);
    var rest := Fill(Outside(layout.panes, gone), TOTAL);
    Layout(rest, if rest == [] then None else Some(rest[0].id))
  }

  // ---------------------------------------------------------------- invariants

  lemma FillValid(panes: seq<Pane>)
    requires |panes| <= MAX_PANES && DistinctIds(panes) && DistinctContexts(panes)
    requires Positive(Widths(panes)) && Sum(Widths(panes)) <= TOTAL
    ensures ValidPanes(Fill(panes, TOTAL))
  {
    if panes != [] {
      RescaledTotal(Widths(panes), TOTAL);
      ZeroShare(Widths(panes), TOTAL);
    }
  }

  lemma WithoutValid(panes: seq<Pane>, index: nat)
    requires index < |panes| && ValidPanes(panes)
    ensures var rest := Without(panes, index);
      DistinctIds(rest) && DistinctContexts(rest) && Positive(Widths(rest)) && Sum(Widths(rest)) <= TOTAL
  {
    WithoutDistinct(panes, index);
    WithoutPositive(panes, index);
    WithoutTotal(panes, index);
    assert Widths(panes)[index] > 0;
  }

  lemma WithoutTotal(panes: seq<Pane>, index: nat)
    requires index < |panes|
    ensures multiset(panes) == multiset(Without(panes, index)) + multiset{panes[index]}
    ensures Sum(Widths(panes)) == Sum(Widths(Without(panes, index))) + panes[index].width
  {
    var head, tail := panes[..index], panes[index + 1..];
    assert panes == head + [panes[index]] + tail;
    TotalAppend(head + [panes[index]], tail);
    TotalAppend(head, [panes[index]]);
    TotalOne(panes[index]);
    TotalAppend(head, tail);
  }

  lemma OutsideSum(panes: seq<Pane>, gone: set<Id>)
    requires panes != []
    ensures Sum(Widths(panes)) == panes[0].width + Sum(Widths(panes[1..]))
    ensures Sum(Widths(Outside(panes, gone))) ==
      (if panes[0].context in gone then 0 else panes[0].width) + Sum(Widths(Outside(panes[1..], gone)))
  {
    assert panes == [panes[0]] + panes[1..];
    TotalAppend([panes[0]], panes[1..]);
    TotalOne(panes[0]);
    TotalAppend([panes[0]], Outside(panes[1..], gone));
    assert [] + Outside(panes[1..], gone) == Outside(panes[1..], gone);
  }

  lemma {:induction false} OutsideTotal(panes: seq<Pane>, gone: set<Id>)
    requires Positive(Widths(panes))
    ensures Sum(Widths(Outside(panes, gone))) <= Sum(Widths(panes))
  {
    if panes != [] {
      assert forall i :: 0 <= i < |panes| - 1 ==> Widths(panes[1..])[i] == Widths(panes)[i + 1];
      assert Widths(panes)[0] > 0;
      OutsideTotal(panes[1..], gone);
      OutsideSum(panes, gone);
    }
  }

  lemma {:induction false} OutsideDistinct(panes: seq<Pane>, gone: set<Id>)
    requires DistinctIds(panes) && DistinctContexts(panes)
    ensures DistinctIds(Outside(panes, gone)) && DistinctContexts(Outside(panes, gone))
  {
    hide DistinctIds, DistinctContexts, Absent, Inserted;
    if panes == [] {
      EmptyDistinct();
    } else {
      TailDistinct(panes);
      var rest := Outside(panes[1..], gone);
      OutsideDistinct(panes[1..], gone);
      if panes[0].context !in gone {
        TailAbsent(panes, rest);
        InsertedDistinct(rest, 0, panes[0]);
        InsertedFront(rest, panes[0]);
      } else {
        assert Outside(panes, gone) == rest;
      }
    }
  }

  lemma EmptyDistinct()
    ensures DistinctIds([]) && DistinctContexts([])
  {}

  lemma InsertedFront(panes: seq<Pane>, pane: Pane)
    ensures Inserted(panes, 0, pane) == [pane] + panes
  {
    assert panes[0..] == panes;
  }

  lemma TailDistinct(panes: seq<Pane>)
    requires panes != [] && DistinctIds(panes) && DistinctContexts(panes)
    ensures DistinctIds(panes[1..]) && DistinctContexts(panes[1..])
  {
    assert forall i :: 0 <= i < |panes| - 1 ==> panes[1..][i] == panes[i + 1];
  }

  ghost predicate Absent(panes: seq<Pane>, pane: Pane)
  {
    forall i :: 0 <= i < |panes| ==> panes[i].id != pane.id && panes[i].context != pane.context
  }

  lemma TailAbsent(panes: seq<Pane>, rest: seq<Pane>)
    requires panes != [] && DistinctIds(panes) && DistinctContexts(panes)
    requires forall pane :: pane in rest ==> pane in panes[1..]
    ensures Absent(rest, panes[0])
  {
    forall j | 0 <= j < |rest| ensures rest[j].id != panes[0].id && rest[j].context != panes[0].context {
      assert rest[j] in panes[1..];
    }
  }

  lemma InsertedDistinct(panes: seq<Pane>, index: nat, pane: Pane)
    requires index <= |panes| && DistinctIds(panes) && DistinctContexts(panes)
    requires Absent(panes, pane)
    ensures DistinctIds(Inserted(panes, index, pane)) && DistinctContexts(Inserted(panes, index, pane))
  {
    var all := Inserted(panes, index, pane);
    assert all[index] == pane;
    assert forall i :: 0 <= i < index ==> all[i] == panes[i];
    assert forall i :: index < i < |all| ==> all[i] == panes[i - 1];
  }

  lemma WithoutDistinct(panes: seq<Pane>, index: nat)
    requires index < |panes| && DistinctIds(panes) && DistinctContexts(panes)
    ensures var rest := Without(panes, index);
      DistinctIds(rest) && DistinctContexts(rest) && Absent(rest, panes[index])
  {
    var rest := Without(panes, index);
    assert forall i :: 0 <= i < index ==> rest[i] == panes[i];
    assert forall i :: index <= i < |rest| ==> rest[i] == panes[i + 1];
  }

  lemma BesideValid(panes: seq<Pane>, narrowed: seq<Pane>, pane: Pane)
    requires ValidPanes(panes) && 0 < |panes| == |narrowed| < MAX_PANES && Absent(panes, pane)
    requires forall i :: 0 <= i < |panes| ==> narrowed[i].(width := panes[i].width) == panes[i]
    requires Positive(Widths(narrowed)) && Sum(Widths(narrowed)) + pane.width == TOTAL && pane.width > 0
    ensures ValidPanes(narrowed + [pane])
  {
    forall i | 0 <= i < |panes| ensures narrowed[i].id == panes[i].id && narrowed[i].context == panes[i].context {}
    InsertedDistinct(narrowed, |narrowed|, pane);
    assert Inserted(narrowed, |narrowed|, pane) == narrowed + [pane];
    TotalAppend(narrowed, [pane]);
    TotalOne(pane);
    assert Widths(narrowed + [pane]) == Widths(narrowed) + [pane.width];
  }

  lemma FocusedAt(layout: Layout, k: nat)
    requires ValidPanes(layout.panes) && k < |layout.panes| && layout.focus == Some(layout.panes[k].id)
    ensures ValidLayout(layout)
  {}

  lemma ShowValid(layout: Layout, context: Id, paneId: Id, toSide: bool)
    requires ValidLayout(layout) && !Shows(layout.panes, paneId)
    ensures Show(layout, context, paneId, toSide).Success? ==> ValidLayout(Show(layout, context, paneId, toSide).value)
  {
    PanesOfValid(layout);
    hide ValidLayout, ValidPanes, Fill, Widths, Positive, Shows;
    var panes, shown := layout.panes, IndexOfContext(layout.panes, context);
    if shown < |panes| {
      FocusedAt(layout.(focus := Some(panes[shown].id)), shown);
    } else if !toSide && panes != [] {
      RetargetedValid(panes, context);
      FocusedAt(Layout(panes[0 := panes[0].(context := context)], Some(panes[0].id)), 0);
    } else if panes == [] {
      SingleValid(Pane(paneId, context, TOTAL));
      FocusedAt(Layout([Pane(paneId, context, TOTAL)], Some(paneId)), 0);
    } else if |panes| < MAX_PANES {
      var side := SideWidth(|panes|);
      var narrowed := Fill(panes, TOTAL - side);
      if Positive(Widths(narrowed)) {
        NarrowedValid(panes, context, paneId);
        FocusedAt(Layout(narrowed + [Pane(paneId, context, side)], Some(paneId)), |panes|);
      }
    }
  }

  lemma PanesOfValid(layout: Layout)
    requires ValidLayout(layout)
    ensures ValidPanes(layout.panes) && Positive(Widths(layout.panes)) && Sum(Widths(layout.panes)) <= TOTAL
  {}

  lemma SingleValid(pane: Pane)
    requires pane.width == TOTAL
    ensures ValidPanes([pane])
  {
    TotalOne(pane);
  }

  /** The first pane turned to a context not shown elsewhere. */
  lemma RetargetedValid(panes: seq<Pane>, context: Id)
    requires ValidPanes(panes) && panes != [] && IndexOfContext(panes, context) == |panes|
    ensures ValidPanes(panes[0 := panes[0].(context := context)])
  {
    assert Widths(panes[0 := panes[0].(context := context)]) == Widths(panes);
  }

  lemma NarrowedValid(panes: seq<Pane>, context: Id, paneId: Id)
    requires ValidPanes(panes) && 0 < |panes| < MAX_PANES
    requires IndexOfContext(panes, context) == |panes| && !Shows(panes, paneId) && Positive(Widths(panes))
    requires Positive(Widths(Fill(panes, TOTAL - SideWidth(|panes|))))
    ensures |Fill(panes, TOTAL - SideWidth(|panes|))| == |panes|
    ensures ValidPanes(Fill(panes, TOTAL - SideWidth(|panes|)) + [Pane(paneId, context, SideWidth(|panes|))])
  {
    hide Positive, DistinctIds, DistinctContexts, Sum, Rescaled;
    var side := SideWidth(|panes|);
    var narrowed := Fill(panes, TOTAL - side);
    RescaledTotal(Widths(panes), TOTAL - side);
    assert Widths(narrowed) == Rescaled(Widths(panes), TOTAL - side);
    BesideValid(panes, narrowed, Pane(paneId, context, side));
  }

  lemma CloseValid(layout: Layout, id: Id)
    requires ValidLayout(layout)
    ensures Close(layout, id).Success? ==> ValidLayout(Close(layout, id).value)
  {
    match Close(layout, id)
    case Failure(_) =>
    case Success(next) =>
      var slot := IndexOf(layout.panes, id);
      WithoutValid(layout.panes, slot);
      FillValid(Without(layout.panes, slot));
      if next.panes != [] {
        assert next.panes[if slot < |next.panes| then slot else |next.panes| - 1].id == next.focus.value;
      }
  }

  lemma ResizeValid(layout: Layout, request: seq<(Id, nat)>)
    requires ValidLayout(layout)
    ensures Resize(layout, request).Success? ==> ValidLayout(Resize(layout, request).value)
  {
    match Resize(layout, request)
    case Failure(_) =>
    case Success(next) =>
      var k :| 0 <= k < |layout.panes| && layout.panes[k].id == layout.focus.value;
      assert next.panes[k].id == layout.focus.value;
  }

  ghost predicate MovedTo(layout: Layout, next: Layout, id: Id, destination: nat)
  {
    && next.focus == Some(id)
    && |next.panes| == |layout.panes| && multiset(next.panes) == multiset(layout.panes)
    && destination < |next.panes| && next.panes[destination].id == id
    && IndexOf(layout.panes, id) < |layout.panes|
    && Without(next.panes, destination) == Without(layout.panes, IndexOf(layout.panes, id))
    && Sum(Widths(next.panes)) == Sum(Widths(layout.panes))
  }

  /**
   Moving works exactly for a visible pane and a slot that has one. It permutes the
   panes: every pane keeps its width and its context, the others keep their order, and
   the moved one gets the focus.
   */
  lemma MovePermutes(layout: Layout, id: Id, destination: nat)
    ensures Move(layout, id, destination).Success? <==> Shows(layout.panes, id) && destination < |layout.panes|
    ensures destination >= |layout.panes| ==> Move(layout, id, destination) == Failure(InvalidInput)
    ensures destination < |layout.panes| && !Shows(layout.panes, id) ==>
      Move(layout, id, destination) == Failure(NotFound)
    ensures Move(layout, id, destination).Success? ==>
      MovedTo(layout, Move(layout, id, destination).value, id, destination)
  {
    var panes := layout.panes;
    var source := IndexOf(panes, id);
    if source < |panes| {
      assert panes[source].id == id;
      if destination < |panes| {
        var rest := Without(panes, source);
        var moved := Inserted(rest, destination, panes[source]);
        WithoutTotal(panes, source);
        InsertedThenWithout(rest, destination, panes[source]);
        WithoutTotal(moved, destination);
      }
    }
  }

  lemma InsertedThenWithout(panes: seq<Pane>, index: nat, pane: Pane)
    requires index <= |panes|
    ensures Inserted(panes, index, pane)[index] == pane
    ensures Without(Inserted(panes, index, pane), index) == panes
  {
    var all := Inserted(panes, index, pane);
    assert all[..index] == panes[..index] && all[index + 1..] == panes[index..];
  }

  lemma MoveValid(layout: Layout, id: Id, destination: nat)
    requires ValidLayout(layout)
    ensures Move(layout, id, destination).Success? ==> ValidLayout(Move(layout, id, destination).value)
  {
    match Move(layout, id, destination)
    case Failure(_) =>
    case Success(next) =>
      MovePermutes(layout, id, destination);
      forall i | 0 <= i < |next.panes| ensures next.panes[i].width > 0 {
        assert next.panes[i] in multiset(layout.panes);
        var k :| 0 <= k < |layout.panes| && layout.panes[k] == next.panes[i];
        assert Widths(layout.panes)[k] > 0;
      }
      MoveDistinct(layout.panes, IndexOf(layout.panes, id), destination);
  }

  lemma MoveDistinct(panes: seq<Pane>, source: nat, destination: nat)
    requires source < |panes| && destination < |panes| && DistinctIds(panes) && DistinctContexts(panes)
    ensures var moved := Inserted(Without(panes, source), destination, panes[source]);
      DistinctIds(moved) && DistinctContexts(moved)
  {
    WithoutDistinct(panes, source);
    InsertedDistinct(Without(panes, source), destination, panes[source]);
  }

  lemma ArchiveValid(layout: Layout, gone: set<Id>)
    requires ValidLayout(layout)
    ensures ValidLayout(Archive(layout, gone))
    ensures forall pane :: pane in Archive(layout, gone).panes ==> pane.context !in gone
  {
    OutsidePositive(layout.panes, gone);
    OutsideDistinct(layout.panes, gone);
    OutsideTotal(layout.panes, gone);
    var rest := Outside(layout.panes, gone);
    assert layout.panes == [] ==> rest == [];
    FillValid(rest);
    var next := Archive(layout, gone);
    forall pane | pane in next.panes ensures pane.context !in gone {
      var i :| 0 <= i < |next.panes| && next.panes[i] == pane;
      assert rest[i] in rest;
    }
    if next.panes != [] {
      assert next.panes[0].id == next.focus.value;
    }
  }

  // ------------------------------------------------------------- consequences

  predicate Vanishes(panes: seq<Pane>, i: int)
    requires 0 <= i < |panes|
  {
    i < |panes| - 1 && panes[i].width * (TOTAL - SideWidth(|panes|)) < TOTAL
  }

  lemma NarrowedPositive(panes: seq<Pane>)
    requires ValidPanes(panes) && 0 < |panes| < MAX_PANES
    ensures Positive(Widths(Fill(panes, TOTAL - SideWidth(|panes|)))) <==>
      forall i :: 0 <= i < |panes| ==> !Vanishes(panes, i)
  {
    var target := TOTAL - SideWidth(|panes|);
    var widths := Widths(panes);
    ZeroShare(widths, target);
    RescaledTotal(widths, target);
    RescaledLast(widths, target);
    forall i | 0 <= i < |panes| ensures Rescaled(widths, target)[i] > 0 <==> !Vanishes(panes, i) {
      assert widths[i] == panes[i].width;
    }
  }

  /** Opening to the side is refused exactly when full, or when some pane but the last would shrink to nothing. */
  lemma OpenToSideRefused(layout: Layout, context: Id, paneId: Id)
    requires ValidLayout(layout) && IndexOfContext(layout.panes, context) == |layout.panes|
    ensures Show(layout, context, paneId, true) == Failure(Conflict) <==> |layout.panes| == MAX_PANES
    ensures Show(layout, context, paneId, true) == Failure(Constraint) <==>
      0 < |layout.panes| < MAX_PANES && exists i :: 0 <= i < |layout.panes| && Vanishes(layout.panes, i)
  {
    if 0 < |layout.panes| < MAX_PANES {
      NarrowedPositive(layout.panes);
    }
  }

  /**
   Opening a third pane and closing it again restores the two panes, their
   order and contexts, with widths off by at most two basis points.
   */
  lemma OpenThirdThenCloseRestores(layout: Layout, context: Id, paneId: Id)
    requires ValidLayout(layout) && |layout.panes| == 2 && !Shows(layout.panes, paneId)
    requires IndexOfContext(layout.panes, context) == 2
    requires Show(layout, context, paneId, true).Success?
    ensures var widened := Show(layout, context, paneId, true).value;
      && Positive(Widths(widened.panes))
      && var closed := Close(widened, paneId);
      && closed.Success?
      && |closed.value.panes| == 2
      && forall i :: 0 <= i < 2 ==>
        && closed.value.panes[i].(width := layout.panes[i].width) == layout.panes[i]
        && -2 <= closed.value.panes[i].width - layout.panes[i].width <= 2
  {
    var panes := layout.panes;
    var side := SideWidth(2);
    var left, right := panes[0].width, panes[1].width;
    assert Widths(panes) == [left, right];
    assert [left, right][..1] == [left] && [left][..0] == [];
    assert Sum([left, right]) == Sum([left]) + right;
    assert left > 0 && right > 0 by { assert Widths(panes)[0] > 0 && Widths(panes)[1] > 0; }
    ShowValid(layout, context, paneId, true);
    var widened := Show(layout, context, paneId, true).value;
    var narrowed := Fill(panes, TOTAL - side);
    assert Widths(narrowed) == Rescaled([left, right], TOTAL - side);
    assert Widths(narrowed)[0] > 0;
    RescaledTotal([left, right], TOTAL - side);
    OpenThirdThenClose(left, right);
    assert widened.panes[2].id == paneId && panes[0].id != paneId && panes[1].id != paneId;
    assert IndexOf(widened.panes, paneId) == 2;
    assert Without(widened.panes, 2) == narrowed;
    var closed := Close(widened, paneId).value;
    assert Widths(closed.panes) == Rescaled(Rescaled([left, right], TOTAL - side), TOTAL);
    RescaledTotal(Widths(narrowed), TOTAL);
    var w := Widths(closed.panes);
    assert w[..1] == [w[0]] && [w[0]][..0] == [];
  }

  function Distance(a: int, b: int): nat
  {
    if a < b then b - a else a - b
  }

  /**
   Where the focus goes after a close: to the survivor whose new position is
   nearest the closed slot. That choice never ties. Seen from the positions
   before the close, both neighbours are one step away and the right one wins;
   the left one is focused only when the closed pane was the last.
   */
  lemma FocusAfterClose(layout: Layout, id: Id)
    requires ValidLayout(layout) && Close(layout, id).Success? && |layout.panes| > 1
    ensures var slot, next := IndexOf(layout.panes, id), Close(layout, id).value;
      var focused := IndexOf(next.panes, next.focus.value);
      && focused < |next.panes|
      && (forall i :: 0 <= i < |next.panes| && i != focused ==> Distance(focused, slot) < Distance(i, slot))
      && next.focus == Some(layout.panes[if slot + 1 < |layout.panes| then slot + 1 else slot - 1].id)
  {
    hide Close, ValidLayout, Fill, Without, Widths, Positive, IndexOf;
    PanesOfValid(layout);
    CloseShape(layout, id);
    var slot, next := IndexOf(layout.panes, id), Close(layout, id).value;
    var k := if slot < |next.panes| then slot else |next.panes| - 1;
    assert IndexOf(next.panes, next.focus.value) == k;
  }

  lemma CloseShape(layout: Layout, id: Id)
    requires ValidLayout(layout) && Close(layout, id).Success? && |layout.panes| > 1
    ensures var slot, next := IndexOf(layout.panes, id), Close(layout, id).value;
      var k := if slot < |next.panes| then slot else |next.panes| - 1;
      && slot < |layout.panes| <= MAX_PANES && |next.panes| == |layout.panes| - 1
      && next.focus == Some(next.panes[k].id)
      && next.panes[k].id == layout.panes[if slot + 1 < |layout.panes| then slot + 1 else slot - 1].id
      && DistinctIds(next.panes)
  {
    CloseValid(layout, id);
    hide Rescaled, Positive;
  }

  predicate IsSamePane(one: Pane, other: Pane)
  {
    one.id == other.id && one.context == other.context
  }

  ghost predicate InView(panes: seq<Pane>, context: Id)
  {
    exists i :: 0 <= i < |panes| && panes[i].context == context
  }

  /**
   Opening moves no pane and always works without the side. A context in view only
   gets the focus. Otherwise a plain open gives it the first pane, with all widths as
   they are; to the side, or in an empty window, it gets a new last pane, for which
   no other pane gets wider and all but one get the floor of their new share.
   */
  lemma ShowKeepsOthers(layout: Layout, context: Id, paneId: Id, toSide: bool)
    requires ValidLayout(layout)
    ensures var panes, shown := layout.panes, Show(layout, context, paneId, toSide);
      && (InView(panes, context) || !toSide ==> shown.Success?)
      && (shown.Success? ==>
            var next := shown.value.panes;
            && (InView(panes, context) ==>
                  && next == panes
                  && exists i :: 0 <= i < |panes| && panes[i].context == context
                       && shown.value.focus == Some(panes[i].id))
            && (!InView(panes, context) && !toSide && panes != [] ==>
                  && |next| == |panes| && next[0] == panes[0].(context := context) && next[1..] == panes[1..]
                  && shown.value.focus == Some(panes[0].id))
            && (!InView(panes, context) && (toSide || panes == []) ==>
                  && |next| == |panes| + 1 && next[|panes|] == Pane(paneId, context, TOTAL / (|panes| + 1))
                  && shown.value.focus == Some(paneId)
                  && (forall i :: 0 <= i < |panes| ==> IsSamePane(next[i], panes[i]) && next[i].width <= panes[i].width)
                  && (forall i :: 0 <= i < |panes| - 1 ==>
                        var left := panes[i].width * (TOTAL - TOTAL / (|panes| + 1));
                        next[i].width * TOTAL <= left < (next[i].width + 1) * TOTAL)))
  {
    hide Rescaled, Sum, Positive, DistinctIds, DistinctContexts, Fill, Widths;
    PanesOfValid(layout);
    var panes, shown := layout.panes, IndexOfContext(layout.panes, context);
    assert shown < |panes| <==> InView(panes, context);
    if shown == |panes| && toSide && 0 < |panes| < MAX_PANES {
      Narrowed(panes);
    }
  }

  /** What opening one more pane to the side does to the others. */
  lemma Narrowed(panes: seq<Pane>)
    requires ValidPanes(panes) && 0 < |panes| < MAX_PANES
    ensures var next := Fill(panes, TOTAL - SideWidth(|panes|));
      && (forall i :: 0 <= i < |panes| ==> IsSamePane(next[i], panes[i]) && next[i].width <= panes[i].width)
      && (forall i :: 0 <= i < |panes| - 1 ==>
            var left := panes[i].width * (TOTAL - SideWidth(|panes|));
            next[i].width * TOTAL <= left < (next[i].width + 1) * TOTAL)
  {
    ShrunkShares(Widths(panes), TOTAL - SideWidth(|panes|));
    assert forall i :: 0 <= i < |panes| ==> Widths(panes)[i] == panes[i].width;
    hide Rescaled, Sum, Positive, DistinctIds, DistinctContexts;
  }

  lemma ShrunkShares(widths: seq<int>, target: int)
    requires widths != [] && |widths| <= 2 && Positive(widths) && Sum(widths) == TOTAL
    requires target == TOTAL - SideWidth(|widths|)
    ensures forall i :: 0 <= i < |widths| ==> Rescaled(widths, target)[i] <= widths[i]
    ensures forall i :: 0 <= i < |widths| - 1 ==>
      Rescaled(widths, target)[i] * TOTAL <= widths[i] * target < (Rescaled(widths, target)[i] + 1) * TOTAL
  {
    hide Rescaled, Sum, Positive, Share;
    ShrunkFloors(widths, target);
    RescaledLast(widths, target);
    var n := |widths| - 1;
    assert n == 0 ==> widths == [TOTAL] by {
      TotalOnly(widths);
    }
    assert widths[n] > 0 by {
      PositiveAt(widths, n);
    }
    LastShrinks(widths[n], Rescaled(widths, target)[n], n);
  }

  lemma TotalOnly(widths: seq<int>)
    ensures |widths| == 1 ==> Sum(widths) == widths[0]
  {
    if |widths| == 1 {
      assert widths[..0] == [];
    }
  }

  lemma PositiveAt(widths: seq<int>, i: nat)
    requires Positive(widths) && i < |widths|
    ensures widths[i] > 0
  {}

  lemma LastShrinks(width: int, last: int, n: nat)
    requires width > 0 && n <= 1
    requires if n == 0 then last == TOTAL - SideWidth(1) && width == TOTAL
             else last * TOTAL < width * (TOTAL - SideWidth(2)) + n * TOTAL
    ensures last <= width
  {}

  lemma ShrunkFloors(widths: seq<int>, target: int)
    requires widths != [] && Positive(widths) && Sum(widths) == TOTAL && 0 < target <= TOTAL
    ensures forall i :: 0 <= i < |widths| - 1 ==>
      && Rescaled(widths, target)[i] <= widths[i]
      && Rescaled(widths, target)[i] * TOTAL <= widths[i] * target < (Rescaled(widths, target)[i] + 1) * TOTAL
  {
    hide Rescaled, Sum, Share;
    RescaledTotal(widths, target);
    forall i | 0 <= i < |widths| - 1
      ensures Share(widths[i], target, TOTAL) <= widths[i]
      ensures Share(widths[i], target, TOTAL) * TOTAL <=
        widths[i] * target < (Share(widths[i], target, TOTAL) + 1) * TOTAL
    {
      ShareOfTotal(widths[i], target);
    }
  }

  lemma ShareOfTotal(width: int, target: int)
    requires 0 <= width && 0 <= target <= TOTAL
    ensures Share(width, target, TOTAL) <= width
    ensures Share(width, target, TOTAL) * TOTAL <= width * target < (Share(width, target, TOTAL) + 1) * TOTAL
  {
    ShareBounds(width, target, TOTAL);
    MulMonotone(target, TOTAL, width);
  }

  /**
   Closing works exactly for a visible pane and keeps every other pane, in order; all
   but the last get the floor of their new share.
   */
  lemma CloseKeepsOthers(layout: Layout, id: Id)
    requires ValidLayout(layout)
    ensures Shows(layout.panes, id) <==> Close(layout, id).Success?
    ensures !Shows(layout.panes, id) ==> Close(layout, id) == Failure(NotFound)
    ensures Shows(layout.panes, id) ==>
      var slot, next := IndexOf(layout.panes, id), Close(layout, id).value.panes;
      && slot < |layout.panes| && layout.panes[slot].id == id && |next| == |layout.panes| - 1
      && forall i :: 0 <= i < |next| ==>
        var earlier := layout.panes[if i < slot then i else i + 1];
        && IsSamePane(next[i], earlier) && next[i].width >= earlier.width
        && (i < |next| - 1 ==>
              var rest := TOTAL - layout.panes[slot].width;
              next[i].width * rest <= earlier.width * TOTAL < (next[i].width + 1) * rest)
  {
    hide Rescaled, Sum, Positive, Widths, Without, Fill, ValidPanes;
    PanesOfValid(layout);
    var slot := IndexOf(layout.panes, id);
    if slot < |layout.panes| {
      assert layout.panes[slot].id == id;
      SurvivorsAt(layout.panes, slot);
      if Without(layout.panes, slot) != [] {
        GrownShares(Widths(Without(layout.panes, slot)));
      }
    }
  }

  lemma SurvivorsAt(panes: seq<Pane>, slot: nat)
    requires ValidPanes(panes) && slot < |panes|
    ensures var rest := Without(panes, slot);
      && Positive(Widths(rest)) && Sum(Widths(rest)) == TOTAL - panes[slot].width < TOTAL
      && (rest != [] ==> Sum(Widths(rest)) > 0)
      && Fill(rest, TOTAL) == WithWidths(rest, Rescaled(Widths(rest), TOTAL))
      && forall i :: 0 <= i < |rest| ==>
        rest[i] == panes[if i < slot then i else i + 1] && Widths(rest)[i] == rest[i].width
  {
    WithoutTotal(panes, slot);
    WithoutPositive(panes, slot);
    PositiveSum(Widths(Without(panes, slot)));
    assert Widths(panes)[slot] > 0;
    hide Rescaled, Sum, Positive, DistinctIds, DistinctContexts;
  }

  lemma GrownShares(widths: seq<int>)
    requires widths != [] && Positive(widths) && Sum(widths) <= TOTAL
    ensures 0 < Sum(widths)
    ensures forall i :: 0 <= i < |widths| ==> Rescaled(widths, TOTAL)[i] >= widths[i]
    ensures forall i :: 0 <= i < |widths| - 1 ==>
      Rescaled(widths, TOTAL)[i] * Sum(widths) <= widths[i] * TOTAL < (Rescaled(widths, TOTAL)[i] + 1) * Sum(widths)
  {
    hide Rescaled, Sum, Share;
    RescaledTotal(widths, TOTAL);
    RescaledLast(widths, TOTAL);
    var n := |widths| - 1;
    forall i | 0 <= i < n
      ensures Rescaled(widths, TOTAL)[i] >= widths[i]
      ensures Rescaled(widths, TOTAL)[i] * Sum(widths) <=
        widths[i] * TOTAL < (Rescaled(widths, TOTAL)[i] + 1) * Sum(widths)
    {
      ShareBounds(widths[i], TOTAL, Sum(widths));
      AtLeast(widths[i], Share(widths[i], TOTAL, Sum(widths)), Sum(widths));
    }
    var last := Rescaled(widths, TOTAL)[n];
    MulMonotone(last * Sum(widths), last * Sum(widths) + Sum(widths), 1);
    AtLeast(widths[n], last, Sum(widths));
  }

  /** A width scaled by `TOTAL` over a smaller source does not shrink. */
  lemma AtLeast(width: int, scaled: int, source: int)
    requires 0 < width && 0 < source <= TOTAL && width * TOTAL < (scaled + 1) * source
    ensures scaled >= width
  {
    MulMonotone(source, TOTAL, width);
    if scaled < width {
      MulMonotone(scaled + 1, width, source);
    }
  }

  lemma MulMonotone(a: int, b: int, c: int)
    requires a <= b && 0 <= c
    ensures a * c <= b * c
  {}

  /**
   Resizing accepts exactly the visible panes in order with positive widths that
   fill the row, and sets just these widths.
   */
  lemma ResizeExact(layout: Layout, request: seq<(Id, nat)>)
    ensures var widths := seq(|request|, i requires 0 <= i < |request| => request[i].1);
      Resize(layout, request).Success? <==>
        && request != [] && |request| == |layout.panes|
        && (forall i :: 0 <= i < |request| ==> request[i].0 == layout.panes[i].id && request[i].1 > 0)
        && Sum(widths) == TOTAL
    ensures Resize(layout, request).Failure? ==> Resize(layout, request).error == InvalidInput
    ensures Resize(layout, request).Success? ==>
      && Resize(layout, request).value.focus == layout.focus
      && |Resize(layout, request).value.panes| == |request| == |layout.panes|
      && forall i :: 0 <= i < |request| ==>
           Resize(layout, request).value.panes[i] == layout.panes[i].(width := request[i].1)
  {
    var widths := seq(|request|, i requires 0 <= i < |request| => request[i].1);
    assert Positive(widths) <==> forall i :: 0 <= i < |request| ==> request[i].1 > 0 by {
      assert forall i :: 0 <= i < |request| ==> widths[i] == request[i].1;
    }
    hide Sum;
  }

  /** The request that asks for the widths of these panes. */
  function AsRequest(panes: seq<Pane>): (request: seq<(Id, nat)>)
    requires Positive(Widths(panes))
    ensures |request| == |panes|
  {
    seq(|panes|, i requires 0 <= i < |panes| =>
      assert Widths(panes)[i] > 0;
      (panes[i].id, panes[i].width as nat))
  }

  /** The same panes in the same order; only widths may differ. */
  ghost predicate SamePanes(a: Layout, b: Layout)
  {
    && a.focus == b.focus && |a.panes| == |b.panes|
    && forall i :: 0 <= i < |a.panes| ==> IsSamePane(a.panes[i], b.panes[i])
  }

  ghost predicate ResizesTo(layout: Layout, request: seq<(Id, nat)>, target: Layout)
  {
    Resize(layout, request) == Success(target)
  }

  /**
   Resizing reaches exactly the valid layouts of the same panes. So every resize can
   be undone, by asking for the old widths.
   */
  lemma ResizeReaches(layout: Layout, target: Layout)
    requires ValidLayout(layout) && layout.panes != []
    ensures (exists request :: ResizesTo(layout, request, target)) <==> ValidLayout(target) && SamePanes(layout, target)
    ensures ValidLayout(target) && SamePanes(layout, target) ==>
      ResizesTo(layout, AsRequest(target.panes), target) && ResizesTo(target, AsRequest(layout.panes), layout)
  {
    forall request | ResizesTo(layout, request, target) ensures ValidLayout(target) && SamePanes(layout, target) {
      ResizeValid(layout, request);
      ResizeExact(layout, request);
    }
    if ValidLayout(target) && SamePanes(layout, target) {
      ResizeBySelf(layout, target);
      ResizeBySelf(target, layout);
    }
  }

  lemma ResizeBySelf(layout: Layout, target: Layout)
    requires ValidLayout(layout) && layout.panes != [] && ValidLayout(target) && SamePanes(layout, target)
    ensures ResizesTo(layout, AsRequest(target.panes), target)
  {
    var request := AsRequest(target.panes);
    ResizeExact(layout, request);
    assert seq(|request|, i requires 0 <= i < |request| => request[i].1) == Widths(target.panes);
    hide Sum;
    assert Resize(layout, request).Success?;
    assert Resize(layout, request).value.panes == target.panes;
  }

  lemma {:induction false} OutsideKeeps(panes: seq<Pane>, gone: set<Id>, pane: Pane)
    requires pane in panes && pane.context !in gone
    ensures pane in Outside(panes, gone)
  {
    if pane != panes[0] {
      assert panes == [panes[0]] + panes[1..];
      OutsideKeeps(panes[1..], gone, pane);
    }
  }

  lemma OutsideHead(panes: seq<Pane>, gone: set<Id>)
    requires panes != []
    ensures Outside(panes, gone) == (if panes[0].context in gone then [] else [panes[0]]) + Outside(panes[1..], gone)
  {}

  /** Where two of the panes that are left stood: in the same order. */
  lemma {:induction false} OutsidePlaces(panes: seq<Pane>, gone: set<Id>, i: nat, j: nat) returns (k: nat, l: nat)
    requires i < j < |Outside(panes, gone)|
    ensures k < l < |panes| && panes[k] == Outside(panes, gone)[i] && panes[l] == Outside(panes, gone)[j]
  {
    hide Outside;
    OutsideHead(panes, gone);
    var head := if panes[0].context in gone then 0 else 1;
    if head <= i {
      k, l := OutsidePlaces(panes[1..], gone, i - head, j - head);
      k, l := k + 1, l + 1;
    } else {
      assert Outside(panes[1..], gone)[j - 1] in panes[1..];
      k := 0;
      l :| 0 < l < |panes| && panes[l] == Outside(panes[1..], gone)[j - 1];
    }
  }

  lemma IndexIs(panes: seq<Pane>, k: nat)
    requires DistinctIds(panes) && k < |panes|
    ensures IndexOf(panes, panes[k].id) == k
  {}

  /** Some of the panes, unchanged and in the same order. */
  ghost predicate InOrder(panes: seq<Pane>, rest: seq<Pane>)
  {
    && (forall j :: 0 <= j < |rest| ==>
          IndexOf(panes, rest[j].id) < |panes| && rest[j] == panes[IndexOf(panes, rest[j].id)])
    && (forall i, j :: 0 <= i < j < |rest| ==> IndexOf(panes, rest[i].id) < IndexOf(panes, rest[j].id))
  }

  lemma OutsideInOrder(panes: seq<Pane>, gone: set<Id>)
    requires DistinctIds(panes)
    ensures InOrder(panes, Outside(panes, gone))
  {
    hide DistinctIds, Outside, IndexOf;
    var rest := Outside(panes, gone);
    forall j | 0 <= j < |rest|
      ensures IndexOf(panes, rest[j].id) < |panes| && rest[j] == panes[IndexOf(panes, rest[j].id)]
    {
      assert rest[j] in rest;
      var k :| 0 <= k < |panes| && panes[k] == rest[j];
      IndexIs(panes, k);
    }
    forall i, j | 0 <= i < j < |rest| ensures IndexOf(panes, rest[i].id) < IndexOf(panes, rest[j].id) {
      var k, l := OutsidePlaces(panes, gone, i, j);
      IndexIs(panes, k);
      IndexIs(panes, l);
    }
  }

  lemma ArchivedWidths(panes: seq<Pane>, gone: set<Id>)
    requires Positive(Widths(panes)) && Sum(Widths(panes)) <= TOTAL
    ensures var rest := Outside(panes, gone);
      && Positive(Widths(rest))
      && var next, sum := Fill(rest, TOTAL), Sum(Widths(rest));
      forall j :: 0 <= j < |rest| ==>
        && IsSamePane(next[j], rest[j]) && next[j].width >= rest[j].width
        && (j < |rest| - 1 ==> next[j].width * sum <= rest[j].width * TOTAL < (next[j].width + 1) * sum)
  {
    OutsidePositive(panes, gone);
    OutsideTotal(panes, gone);
    var rest := Outside(panes, gone);
    if rest != [] {
      GrownShares(Widths(rest));
    }
    assert forall j :: 0 <= j < |rest| ==> Widths(rest)[j] == rest[j].width;
    hide Rescaled, Sum, Positive, Outside;
  }

  /**
   Archiving removes only the Agent's panes: every other one is still there, in the
   old order and no narrower, all but the last with the floor of its new share, and
   the first has the focus.
   */
  lemma ArchiveKeepsOthers(layout: Layout, gone: set<Id>)
    requires ValidLayout(layout)
    ensures forall pane :: pane in layout.panes && pane.context !in gone ==> pane in Outside(layout.panes, gone)
    ensures var panes, next := layout.panes, Archive(layout, gone);
      var rest := Outside(panes, gone);
      && InOrder(panes, rest) && |next.panes| == |rest|
      && next.focus == (if rest == [] then None else Some(rest[0].id))
      && forall j :: 0 <= j < |rest| ==>
        && IsSamePane(next.panes[j], rest[j]) && next.panes[j].width >= rest[j].width
        && (j < |rest| - 1 ==>
              var sum := Sum(Widths(rest));
              next.panes[j].width * sum <= rest[j].width * TOTAL < (next.panes[j].width + 1) * sum)
  {
    hide Rescaled, Sum, Positive, Widths, Outside, Fill, InOrder, DistinctContexts;
    PanesOfValid(layout);
    ArchivedWidths(layout.panes, gone);
    OutsideInOrder(layout.panes, gone);
    forall pane | pane in layout.panes && pane.context !in gone ensures pane in Outside(layout.panes, gone) {
      OutsideKeeps(layout.panes, gone, pane);
    }
  }
}
