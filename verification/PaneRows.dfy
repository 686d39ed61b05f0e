/**
 The `workspace_panes` table and the transactions that edit it row by row.

 CHECK (position BETWEEN 0 AND 2) and UNIQUE(position) make the table a shelf of
 three slots, each empty or holding one row. Every statement checks the schema at
 once: a statement that would put a row on an occupied slot, or break a CHECK or
 another UNIQUE, returns `None` and the transaction around it is abandoned. The
 transactions are proved to reach exactly the layout that `PaneLayout` describes,
 and so never to meet a violation half-way.
 */
module PaneRows {
  import opened Wrappers
  import opened StoreErrors
  import opened Sequences
  import opened PaneWidths
  import opened PaneLayout

  type PaneTable = rows: seq<Option<Pane>> | |rows| == MAX_PANES witness [None, None, None]

  const EMPTY_TABLE: PaneTable := [None, None, None]

  // --------------------------------------------------------------- statements

  /** The position of the row, or 3 when there is none. */
  function Find(rows: PaneTable, id: Id): (position: nat)
    ensures position <= MAX_PANES
    ensures position < MAX_PANES ==> rows[position].Some? && rows[position].value.id == id
    ensures position == MAX_PANES ==> forall p :: 0 <= p < MAX_PANES && rows[p].Some? ==> rows[p].value.id != id
  {
    if rows[0].Some? && rows[0].value.id == id then 0
    else if rows[1].Some? && rows[1].value.id == id then 1
    else if rows[2].Some? && rows[2].value.id == id then 2
    else 3
  }

  function FindContext(rows: PaneTable, context: Id): (position: nat)
    ensures position <= MAX_PANES
    ensures position < MAX_PANES ==> rows[position].Some? && rows[position].value.context == context
    ensures position == MAX_PANES ==>
      forall p :: 0 <= p < MAX_PANES && rows[p].Some? ==> rows[p].value.context != context
  {
    if rows[0].Some? && rows[0].value.context == context then 0
    else if rows[1].Some? && rows[1].value.context == context then 1
    else if rows[2].Some? && rows[2].value.context == context then 2
    else 3
  }

  function Delete(rows: PaneTable, id: Id): PaneTable
  {
    if Find(rows, id) < MAX_PANES then rows[Find(rows, id) := None] else rows
  }

  function Insert(rows: PaneTable, pane: Pane, position: int): Option<PaneTable>
  {
    if Find(rows, pane.id) < MAX_PANES || FindContext(rows, pane.context) < MAX_PANES then None
    else if !(0 <= position < MAX_PANES) || rows[position].Some? then None
    else if !(1 <= pane.width <= TOTAL) then None
    else Some(rows[position := Some(pane)])
  }

  function SetWidth(rows: PaneTable, id: Id, width: int): Option<PaneTable>
  {
    var p := Find(rows, id);
    if p == MAX_PANES then Some(rows)
    else if !(1 <= width <= TOTAL) then None
    else Some(rows[p := Some(rows[p].value.(width := width))])
  }

  function SetContext(rows: PaneTable, id: Id, context: Id): Option<PaneTable>
  {
    var p := Find(rows, id);
    if p == MAX_PANES then Some(rows)
    else if FindContext(rows, context) < MAX_PANES && FindContext(rows, context) != p then None
    else Some(rows[p := Some(rows[p].value.(context := context))])
  }

  /** Renumber whatever row stands at position `from`. */
  function MoveSlot(rows: PaneTable, from: int, to: int): Option<PaneTable>
  {
    if !(0 <= from < MAX_PANES) || rows[from].None? then Some(rows)
    else if !(0 <= to < MAX_PANES) || (to != from && rows[to].Some?) then None
    else Some(rows[from := None][to := rows[from]])
  }

  function SetPosition(rows: PaneTable, id: Id, to: int): Option<PaneTable>
  {
    MoveSlot(rows, Find(rows, id), to)
  }

  // -------------------------------------------------------------- abstraction

  function At(rows: PaneTable, position: nat): seq<Pane>
    requires position < MAX_PANES
  {
    if rows[position].Some? then [rows[position].value] else []
  }

  /** SELECT ... ORDER BY position. */
  function LayoutOf(rows: PaneTable): seq<Pane>
  {
    At(rows, 0) + At(rows, 1) + At(rows, 2)
  }

  /** The table that holds a layout at the positions 0, 1, ... without a gap. */
  function Stored(panes: seq<Pane>): PaneTable
  {
    seq(MAX_PANES, p requires 0 <= p => if p < |panes| then Some(panes[p]) else None)
  }

  ghost predicate Holds(rows: PaneTable, panes: seq<Pane>)
  {
    ValidPanes(panes) && rows == Stored(panes)
  }

  lemma StoredReadBack(panes: seq<Pane>)
    requires |panes| <= MAX_PANES
    ensures LayoutOf(Stored(panes)) == panes
  {}

  lemma FindStored(panes: seq<Pane>, id: Id)
    requires |panes| <= MAX_PANES
    ensures IndexOf(panes, id) == |panes| ==> Find(Stored(panes), id) == MAX_PANES
    ensures IndexOf(panes, id) < |panes| ==> Find(Stored(panes), id) == IndexOf(panes, id)
  {
    var rows := Stored(panes);
    var k := IndexOf(panes, id);
    if k < |panes| {
      assert rows[k] == Some(panes[k]);
    }
  }

  lemma FindContextStored(panes: seq<Pane>, context: Id)
    requires |panes| <= MAX_PANES
    ensures IndexOfContext(panes, context) == |panes| ==> FindContext(Stored(panes), context) == MAX_PANES
    ensures IndexOfContext(panes, context) < |panes| ==>
      FindContext(Stored(panes), context) == IndexOfContext(panes, context)
  {
    var rows := Stored(panes);
    var k := IndexOfContext(panes, context);
    if k < |panes| {
      assert rows[k] == Some(panes[k]);
    }
  }

  lemma PositiveWidths(panes: seq<Pane>)
    ensures Positive(Widths(panes)) <==> forall i :: 0 <= i < |panes| ==> panes[i].width > 0
  {
    assert forall i :: 0 <= i < |panes| ==> Widths(panes)[i] == panes[i].width;
  }

  lemma ValidWidths(panes: seq<Pane>)
    requires Positive(Widths(panes)) && Sum(Widths(panes)) <= TOTAL
    ensures forall i :: 0 <= i < |panes| ==> 1 <= panes[i].width <= TOTAL
  {
    forall i | 0 <= i < |panes| ensures 1 <= panes[i].width <= TOTAL {
      assert Widths(panes)[i] > 0;
      WidthBound(Widths(panes), i);
    }
  }

  // ------------------------------------------------------------- transactions

  /** `rows` with the width of every given pane replaced. */
  function Rewidened(rows: PaneTable, resized: seq<Pane>): (updated: PaneTable)
  {
    seq(MAX_PANES, p requires 0 <= p < MAX_PANES =>
      if rows[p].Some? && IndexOf(resized, rows[p].value.id) < |resized| then
        Some(rows[p].value.(width := resized[IndexOf(resized, rows[p].value.id)].width))
      else rows[p])
  }

  /** One width UPDATE per pane; `None` as soon as a width violates its CHECK. */
  method UpdateWidths(rows: PaneTable, resized: seq<Pane>) returns (updated: Option<PaneTable>)
    requires DistinctIds(resized) && DistinctIds(LayoutOf(rows))
    requires forall i :: 0 <= i < |resized| ==> Find(rows, resized[i].id) < MAX_PANES
    ensures updated == if forall i :: 0 <= i < |resized| ==> 1 <= resized[i].width <= TOTAL then
                         Some(Rewidened(rows, resized)) else None
  {
    hide Rewidened, LayoutOf, IndexOf, DistinctIds;
    var current := rows;
    RewidenNone(rows);
    for k := 0 to |resized|
      invariant forall i :: 0 <= i < k ==> 1 <= resized[i].width <= TOTAL
      invariant current == Rewidened(rows, resized[..k])
    {
      RewidenStep(rows, resized, k);
      var next := SetWidth(current, resized[k].id, resized[k].width);
      if next.None? {
        return None;
      }
      current := next.value;
    }
    assert resized[..|resized|] == resized;
    updated := Some(current);
  }

  lemma RewidenNone(rows: PaneTable)
    ensures Rewidened(rows, []) == rows
  {}

  lemma RewidenStep(rows: PaneTable, resized: seq<Pane>, k: nat)
    requires k < |resized| && DistinctIds(resized) && DistinctIds(LayoutOf(rows))
    requires Find(rows, resized[k].id) < MAX_PANES
    ensures Find(Rewidened(rows, resized[..k]), resized[k].id) == Find(rows, resized[k].id)
    ensures var p := Find(rows, resized[k].id);
      Rewidened(rows, resized[..k + 1])
      == Rewidened(rows, resized[..k])[p := Some(Rewidened(rows, resized[..k])[p].value.(width := resized[k].width))]
  {
    var target := Find(rows, resized[k].id);
    IndexOfPrefix(resized, k, resized[k].id);
    assert IndexOf(resized[..k + 1], resized[k].id) == k;
    forall p | 0 <= p < MAX_PANES && p != target && rows[p].Some?
      ensures rows[p].value.id != resized[k].id
      ensures Rewidened(rows, resized[..k + 1])[p] == Rewidened(rows, resized[..k])[p]
    {
      SlotsDistinct(rows, p, target);
      IndexOfPrefix(resized, k, rows[p].value.id);
    }
  }

  lemma IndexOfPrefix(panes: seq<Pane>, k: nat, id: Id)
    requires k < |panes| && DistinctIds(panes)
    ensures panes[k].id != id ==>
      if IndexOf(panes[..k], id) < k then IndexOf(panes[..k + 1], id) == IndexOf(panes[..k], id)
      else IndexOf(panes[..k + 1], id) == k + 1
    ensures panes[k].id == id ==> IndexOf(panes[..k], id) == k && IndexOf(panes[..k + 1], id) == k
  {
    var a, b := IndexOf(panes[..k], id), IndexOf(panes[..k + 1], id);
    if b < k + 1 {
      assert panes[..k + 1][b].id == id;
    }
  }

  lemma SlotsDistinct(rows: PaneTable, p: nat, q: nat)
    requires p < MAX_PANES && q < MAX_PANES && p != q && rows[p].Some? && rows[q].Some?
    requires DistinctIds(LayoutOf(rows))
    ensures rows[p].value.id != rows[q].value.id
  {
    var panes := LayoutOf(rows);
    var at := (r: int) => if r == 0 then 0 else if r == 1 then |At(rows, 0)| else |At(rows, 0)| + |At(rows, 1)|;
    assert panes[at(p)] == rows[p].value && panes[at(q)] == rows[q].value && at(p) != at(q);
  }

  lemma RewidenedStored(panes: seq<Pane>, resized: seq<Pane>)
    requires |panes| <= MAX_PANES && |resized| == |panes| && DistinctIds(panes)
    requires forall i :: 0 <= i < |panes| ==> resized[i].(width := panes[i].width) == panes[i]
    ensures Rewidened(Stored(panes), resized) == Stored(resized)
  {
    forall i | 0 <= i < |panes| ensures IndexOf(resized, panes[i].id) == i {
      assert resized[i].id == panes[i].id;
    }
  }

  /** The table after closing `slot`, once every position below `q` is done. */
  ghost function ShiftedLeft(panes: seq<Pane>, slot: nat, q: int): (rows: PaneTable)
    requires slot < q <= MAX_PANES
  {
    var all := Stored(panes);
    seq(MAX_PANES, p requires 0 <= p < MAX_PANES =>
      if slot <= p < q - 1 then all[p + 1] else if p == q - 1 then None else all[p])
  }

  ghost function ShiftedRight(panes: seq<Pane>, slot: nat, q: int): (rows: PaneTable)
    requires 0 <= q <= slot < MAX_PANES
  {
    var all := Stored(panes);
    seq(MAX_PANES, p requires 0 <= p < MAX_PANES =>
      if q < p <= slot then all[p - 1] else if p == q then None else all[p])
  }

  /** Shift the rows in `(slot, last]` one position down, in ascending order. */
  method ShiftDown(rows: PaneTable, ghost panes: seq<Pane>, slot: nat, last: nat) returns (shifted: Option<PaneTable>)
    requires slot <= last < MAX_PANES && rows == Stored(panes)[slot := None]
    ensures shifted == Some(ShiftedLeft(panes, slot, last + 1))
  {
    var current := rows;
    for q := slot + 1 to last + 1
      invariant current == ShiftedLeft(panes, slot, q)
    {
      var next := MoveSlot(current, q, q - 1);
      current := next.value;
    }
    shifted := Some(current);
  }

  /** Shift the rows in `[first, slot)` one position up, in descending order. */
  method ShiftUp(rows: PaneTable, ghost panes: seq<Pane>, slot: nat, first: nat) returns (shifted: Option<PaneTable>)
    requires first <= slot < MAX_PANES && rows == Stored(panes)[slot := None]
    ensures shifted == Some(ShiftedRight(panes, slot, first))
  {
    var current := rows;
    for q := slot downto first
      invariant current == ShiftedRight(panes, slot, q)
    {
      var next := MoveSlot(current, q, q + 1);
      current := next.value;
    }
    shifted := Some(current);
  }

  /** Open or reveal a context. Returns the new table and the pane to focus. */
  method ShowPane(rows: PaneTable, context: Id, paneId: Id, toSide: bool)
    returns (result: Result<(PaneTable, Id), StoreError>)
    requires Holds(rows, LayoutOf(rows)) && Find(rows, paneId) == MAX_PANES
    ensures match Show(Layout(LayoutOf(rows), None), context, paneId, toSide)
      case Failure(error) => result == Failure(error)
      case Success(next) => next.focus.Some? && result == Success((Stored(next.panes), next.focus.value))
  {
    var panes := LayoutOf(rows);
    FindContextStored(panes, context);
    FindStored(panes, paneId);
    var shown := FindContext(rows, context);
    if shown < MAX_PANES {
      return Success((rows, rows[shown].value.id));
    }
    if !toSide && panes != [] {
      FindStored(panes, panes[0].id);
      var updated := SetContext(rows, panes[0].id, context);
      assert updated.value == Stored(panes[0 := panes[0].(context := context)]);
      return Success((updated.value, panes[0].id));
    }
    if |panes| >= MAX_PANES {
      return Failure(Conflict);
    }
    if panes == [] {
      var inserted := Insert(rows, Pane(paneId, context, TOTAL), 0);
      assert inserted.value == Stored([Pane(paneId, context, TOTAL)]);
      return Success((inserted.value, paneId));
    }
    assert IndexOf(panes, paneId) == |panes|;
    var beside := InsertBeside(rows, panes, Pane(paneId, context, TOTAL / (|panes| + 1)));
    if beside.None? {
      return Failure(Constraint);
    }
    return Success((beside.value, paneId));
  }

  /** Narrow the panes to make room for one more and insert it after them. */
  method InsertBeside(rows: PaneTable, panes: seq<Pane>, pane: Pane) returns (updated: Option<PaneTable>)
    requires Holds(rows, panes) && 0 < |panes| < MAX_PANES && pane.width == SideWidth(|panes|)
    requires IndexOf(panes, pane.id) == |panes| && IndexOfContext(panes, pane.context) == |panes|
    ensures var narrowed := Fill(panes, TOTAL - pane.width);
      updated == if Positive(Widths(narrowed)) then Some(Stored(narrowed + [pane])) else None
  {
    var widths := ScaleWorkspaceWidths(Widths(panes), TOTAL - pane.width);
    var narrowed := WithWidths(panes, widths);
    SameIds(panes, narrowed);
    updated := UpdateWidths(rows, narrowed);
    PositiveWidths(narrowed);
    if updated.Some? {
      RewidenedStored(panes, narrowed);
      SideInserted(panes, narrowed, pane);
      updated := Insert(updated.value, pane, |panes|);
    }
  }

  lemma SameIds(panes: seq<Pane>, resized: seq<Pane>)
    requires ValidPanes(panes) && |resized| == |panes|
    requires forall i :: 0 <= i < |panes| ==> resized[i].(width := panes[i].width) == panes[i]
    ensures DistinctIds(resized) && LayoutOf(Stored(panes)) == panes
    ensures forall i :: 0 <= i < |resized| ==> Find(Stored(panes), resized[i].id) < MAX_PANES
  {
    forall i | 0 <= i < |panes| ensures resized[i].id == panes[i].id && Find(Stored(panes), panes[i].id) < MAX_PANES {
      FindStored(panes, panes[i].id);
    }
  }

  lemma SideInserted(panes: seq<Pane>, narrowed: seq<Pane>, pane: Pane)
    requires |narrowed| == |panes| < MAX_PANES && 1 <= pane.width <= TOTAL
    requires forall i :: 0 <= i < |panes| ==> narrowed[i].(width := panes[i].width) == panes[i]
    requires IndexOf(panes, pane.id) == |panes| && IndexOfContext(panes, pane.context) == |panes|
    ensures Insert(Stored(narrowed), pane, |panes|) == Some(Stored(narrowed + [pane]))
  {
    forall i | 0 <= i < |panes| ensures narrowed[i].id != pane.id && narrowed[i].context != pane.context {
      assert narrowed[i].id == panes[i].id && narrowed[i].context == panes[i].context;
    }
    FindStored(narrowed, pane.id);
    FindContextStored(narrowed, pane.context);
    assert Stored(narrowed)[|panes| := Some(pane)] == Stored(narrowed + [pane]);
  }

  /** Widen the panes of a table, wherever they stand, to fill the window. */
  method Refill(rows: PaneTable) returns (filled: PaneTable)
    requires DistinctIds(LayoutOf(rows)) && Positive(Widths(LayoutOf(rows))) && Sum(Widths(LayoutOf(rows))) <= TOTAL
    ensures LayoutOf(filled) == Fill(LayoutOf(rows), TOTAL) && DistinctIds(LayoutOf(filled))
    ensures forall p :: 0 <= p < MAX_PANES ==> (filled[p].Some? <==> rows[p].Some?)
  {
    var panes := LayoutOf(rows);
    filled := rows;
    if panes != [] {
      var widths := ScaleWorkspaceWidths(Widths(panes), TOTAL);
      ZeroShare(Widths(panes), TOTAL);
      var resized := WithWidths(panes, widths);
      PositiveWidths(resized);
      forall i | 0 <= i < |resized| ensures Find(rows, resized[i].id) < MAX_PANES {
        assert resized[i].id == panes[i].id;
      }
      assert forall i :: 0 <= i < |resized| ==> resized[i].width == widths[i];
      var updated := UpdateWidths(rows, resized);
      filled := updated.value;
      RewidenedLayout(rows, resized);
    }
  }

  lemma RewidenedLayout(rows: PaneTable, resized: seq<Pane>)
    requires |resized| == |LayoutOf(rows)| && DistinctIds(LayoutOf(rows))
    requires forall i :: 0 <= i < |resized| ==> resized[i].(width := LayoutOf(rows)[i].width) == LayoutOf(rows)[i]
    ensures LayoutOf(Rewidened(rows, resized)) == resized
  {
    var panes := LayoutOf(rows);
    forall i | 0 <= i < |panes| ensures IndexOf(resized, panes[i].id) == i {
      assert forall k :: 0 <= k < |panes| ==> resized[k].id == panes[k].id;
    }
  }

  /** SELECT id ... ORDER BY ABS(position - slot), position LIMIT 1. */
  method QueryNearest(rows: PaneTable, slot: nat) returns (nearest: Option<Id>)
    ensures nearest.None? <==> rows == EMPTY_TABLE
    ensures nearest.Some? ==>
      exists best: nat :: IsNearest(rows, slot, best) && nearest == Some(rows[best].value.id)
  {
    nearest := None;
    ghost var best := 0;
    for p := 0 to MAX_PANES
      invariant nearest.None? ==> forall q :: 0 <= q < p ==> rows[q].None?
      invariant nearest.Some? ==> 0 <= best < p && rows[best].Some? && nearest.value == rows[best].value.id
      invariant nearest.Some? ==> forall q :: 0 <= q < p && rows[q].Some? ==> Distance(best, slot) <= Distance(q, slot)
      invariant nearest.Some? ==>
        forall q :: 0 <= q < p && rows[q].Some? && Distance(best, slot) == Distance(q, slot) ==> best <= q
    {
      var closest := if nearest.Some? then Find(rows, nearest.value) else 0;
      if rows[p].Some? && (nearest.None? || Distance(p, slot) < Distance(closest, slot)) {
        nearest := Some(rows[p].value.id);
        best := p;
      }
    }
  }

  ghost predicate IsNearest(rows: PaneTable, slot: nat, best: nat)
  {
    && best < MAX_PANES && rows[best].Some?
    && forall q :: 0 <= q < MAX_PANES && rows[q].Some? ==>
      Distance(best, slot) < Distance(q, slot) || (Distance(best, slot) == Distance(q, slot) && best <= q)
  }

  lemma NearestStored(panes: seq<Pane>, slot: nat, best: nat)
    requires panes != [] && slot <= |panes| <= MAX_PANES
    requires best < |panes| && IsNearest(Stored(panes), slot, best)
    ensures best == if slot < |panes| then slot else |panes| - 1
  {
    var k := if slot < |panes| then slot else |panes| - 1;
    assert Stored(panes)[k].Some?;
  }

  lemma FocusStored(panes: seq<Pane>, slot: nat, nearest: Option<Id>)
    requires slot <= |panes| <= MAX_PANES
    requires nearest.None? <==> Stored(panes) == EMPTY_TABLE
    requires nearest.Some? ==>
      exists best: nat :: IsNearest(Stored(panes), slot, best) && nearest == Some(Stored(panes)[best].value.id)
    ensures nearest == if panes == [] then None else Some(panes[if slot < |panes| then slot else |panes| - 1].id)
  {
    if panes != [] {
      assert Stored(panes)[0].Some?;
      var best: nat :| IsNearest(Stored(panes), slot, best) && nearest == Some(Stored(panes)[best].value.id);
      NearestStored(panes, slot, best);
    }
  }

  /** Close a pane. Returns the new table and the pane to focus, if any is left. */
  method ClosePane(rows: PaneTable, id: Id) returns (result: Result<(PaneTable, Option<Id>), StoreError>)
    requires Holds(rows, LayoutOf(rows))
    ensures match Close(Layout(LayoutOf(rows), None), id)
      case Failure(error) => result == Failure(error)
      case Success(next) => result == Success((Stored(next.panes), next.focus))
  {
    hide Close, Fill, IndexOf;
    var panes := LayoutOf(rows);
    FindStored(panes, id);
    ClosedPanes(panes, id);
    var slot := IndexOf(panes, id);
    if slot == |panes| {
      return Failure(NotFound);
    }
    var current := Delete(rows, id);
    var shifted := ShiftDown(current, panes, slot, MAX_PANES - 1);
    current := RefillSurvivors(shifted.value, panes, slot);
    var focus := FocusNearest(current, Fill(Without(panes, slot), TOTAL), slot);
    return Success((current, focus));
  }

  method RefillSurvivors(rows: PaneTable, ghost panes: seq<Pane>, ghost slot: nat) returns (filled: PaneTable)
    requires ValidPanes(panes) && slot < |panes| && rows == ShiftedLeft(panes, slot, MAX_PANES)
    ensures Positive(Widths(Without(panes, slot))) && filled == Stored(Fill(Without(panes, slot), TOTAL))
  {
    ClosedRows(panes, slot);
    filled := Refill(rows);
    FromLayout(filled, Fill(Without(panes, slot), TOTAL));
  }

  method FocusNearest(rows: PaneTable, ghost panes: seq<Pane>, slot: nat) returns (nearest: Option<Id>)
    requires slot <= |panes| <= MAX_PANES && rows == Stored(panes)
    ensures nearest == if panes == [] then None else Some(panes[if slot < |panes| then slot else |panes| - 1].id)
  {
    nearest := QueryNearest(rows, slot);
    FocusStored(panes, slot, nearest);
  }

  lemma ClosedPanes(panes: seq<Pane>, id: Id)
    requires Positive(Widths(panes))
    ensures var slot := IndexOf(panes, id);
      if slot == |panes| then Close(Layout(panes, None), id) == Failure(NotFound)
      else
        && Positive(Widths(Without(panes, slot)))
        && var rest := Fill(Without(panes, slot), TOTAL);
           Close(Layout(panes, None), id) ==
             Success(Layout(rest, if rest == [] then None
                            else Some(rest[if slot < |rest| then slot else |rest| - 1].id)))
  {
    var slot := IndexOf(panes, id);
    if slot < |panes| {
      WithoutPositive(panes, slot);
    }
    hide Fill, Without, IndexOf;
  }

  lemma ShiftedLeftStored(panes: seq<Pane>, slot: nat)
    requires slot < |panes| <= MAX_PANES
    ensures ShiftedLeft(panes, slot, MAX_PANES) == Stored(Without(panes, slot))
  {
    var a, b := ShiftedLeft(panes, slot, MAX_PANES), Stored(Without(panes, slot));
    assert a[0] == b[0] && a[1] == b[1] && a[2] == b[2];
  }

  lemma ClosedRows(panes: seq<Pane>, slot: nat)
    requires ValidPanes(panes) && slot < |panes|
    ensures var rest := Without(panes, slot);
      && ShiftedLeft(panes, slot, MAX_PANES) == Stored(rest)
      && LayoutOf(Stored(rest)) == rest
      && DistinctIds(rest) && Positive(Widths(rest)) && Sum(Widths(rest)) <= TOTAL
  {
    hide ShiftedLeft, Stored, LayoutOf;
    ShiftedLeftStored(panes, slot);
    WithoutValid(panes, slot);
    StoredReadBack(Without(panes, slot));
  }

  lemma FromLayout(rows: PaneTable, panes: seq<Pane>)
    requires LayoutOf(rows) == panes && forall p :: 0 <= p < MAX_PANES ==> (rows[p].Some? <==> p < |panes|)
    ensures rows == Stored(panes)
  {}

  /** Replace every width after checking the request against the visible layout. */
  method ResizePanes(rows: PaneTable, request: seq<(Id, nat)>) returns (result: Result<PaneTable, StoreError>)
    requires Holds(rows, LayoutOf(rows))
    ensures match Resize(Layout(LayoutOf(rows), None), request)
      case Failure(error) => result == Failure(error)
      case Success(next) => result == Success(Stored(next.panes))
  {
    var panes := LayoutOf(rows);
    if request == [] || |request| != |panes| {
      return Failure(InvalidInput);
    }
    var widths := seq(|request|, i requires 0 <= i < |request| => request[i].1);
    if Sum(widths) != TOTAL || exists i | 0 <= i < |widths| :: widths[i] == 0 {
      assert Sum(widths) != TOTAL || !Positive(widths);
      return Failure(InvalidInput);
    }
    if exists i | 0 <= i < |panes| :: request[i].0 != panes[i].id {
      return Failure(InvalidInput);
    }
    var resized := WithWidths(panes, widths);
    SameIds(panes, resized);
    ValidWidths(resized);
    var updated := UpdateWidths(rows, resized);
    RewidenedStored(panes, resized);
    return Success(updated.value);
  }

  /** Take the pane's row out, shift the rows between, and put it back. */
  method MovePane(rows: PaneTable, id: Id, destination: nat) returns (result: Result<PaneTable, StoreError>)
    requires Holds(rows, LayoutOf(rows))
    ensures match Move(Layout(LayoutOf(rows), None), id, destination)
      case Failure(error) => result == Failure(error)
      case Success(next) => result == Success(Stored(next.panes))
  {
    var panes := LayoutOf(rows);
    if destination >= |panes| {
      return Failure(InvalidInput);
    }
    FindStored(panes, id);
    var source := IndexOf(panes, id);
    if source == |panes| {
      return Failure(NotFound);
    }
    var current := Delete(rows, id);
    var shifted: Option<PaneTable>;
    if source < destination {
      shifted := ShiftDown(current, panes, source, destination);
    } else {
      shifted := ShiftUp(current, panes, source, destination);
    }
    MovedRows(panes, source, destination);
    ValidWidths(panes);
    var inserted := Insert(shifted.value, panes[source], destination);
    return Success(inserted.value);
  }

  ghost function Shifted(panes: seq<Pane>, source: nat, destination: nat): PaneTable
    requires source < MAX_PANES && destination < MAX_PANES
  {
    if source < destination then ShiftedLeft(panes, source, destination + 1)
    else ShiftedRight(panes, source, destination)
  }

  lemma ShiftedRows(panes: seq<Pane>, source: nat, destination: nat)
    requires source < |panes| <= MAX_PANES && destination < |panes|
    ensures Shifted(panes, source, destination)[destination].None?
    ensures Shifted(panes, source, destination)[destination := Some(panes[source])]
      == Stored(Inserted(Without(panes, source), destination, panes[source]))
  {
    var a := Shifted(panes, source, destination)[destination := Some(panes[source])];
    var b := Stored(Inserted(Without(panes, source), destination, panes[source]));
    assert a[0] == b[0] && a[1] == b[1] && a[2] == b[2];
  }

  lemma ShiftedFrom(panes: seq<Pane>, source: nat, destination: nat, p: nat)
    requires source < |panes| <= MAX_PANES && destination < |panes| && p < MAX_PANES
    requires Shifted(panes, source, destination)[p].Some?
    ensures exists i :: 0 <= i < |panes| && i != source && Shifted(panes, source, destination)[p].value == panes[i]
  {}

  /** After the shift only the destination is free, and filling it gives the list with the pane moved. */
  lemma MovedRows(panes: seq<Pane>, source: nat, destination: nat)
    requires ValidPanes(panes) && source < |panes| && destination < |panes|
    ensures var shifted := Shifted(panes, source, destination);
      && shifted[destination].None?
      && Find(shifted, panes[source].id) == FindContext(shifted, panes[source].context) == MAX_PANES
      && shifted[destination := Some(panes[source])] ==
        Stored(Inserted(Without(panes, source), destination, panes[source]))
  {
    ShiftedRows(panes, source, destination);
    var shifted := Shifted(panes, source, destination);
    forall p | 0 <= p < MAX_PANES && shifted[p].Some?
      ensures shifted[p].value.id != panes[source].id && shifted[p].value.context != panes[source].context
    {
      ShiftedFrom(panes, source, destination, p);
    }
  }

  /** DELETE the panes of the given contexts, one statement each. */
  method DeletePanes(rows: PaneTable, panes: seq<Pane>, gone: set<Id>) returns (kept: PaneTable)
    requires Holds(rows, panes)
    ensures forall p :: 0 <= p < MAX_PANES ==>
      kept[p] == if p < |panes| && panes[p].context !in gone then Some(panes[p]) else None
  {
    kept := rows;
    for k := 0 to |panes|
      invariant forall p :: 0 <= p < MAX_PANES ==>
        kept[p] == if p < k && panes[p].context in gone then None else rows[p]
    {
      if panes[k].context in gone {
        SlotsOf(rows, kept, panes, k);
        kept := Delete(kept, panes[k].id);
      }
    }
  }

  /** Set the positions 0, 1, ... in layout order, one statement each. */
  method Renumber(rows: PaneTable) returns (numbered: Option<PaneTable>)
    requires DistinctIds(LayoutOf(rows))
    ensures numbered == Some(Stored(LayoutOf(rows)))
  {
    var current, remaining := rows, LayoutOf(rows);
    for k := 0 to |remaining|
      invariant LayoutOf(current) == remaining
      invariant forall p :: 0 <= p < k ==> current[p].Some?
    {
      RenumberStep(current, k);
      var next := SetPosition(current, remaining[k].id, k);
      current := next.value;
    }
    FromLayout(current, remaining);
    numbered := Some(current);
  }

  /** Delete the panes of the given contexts, then widen and renumber the rest. */
  method ArchivePanes(rows: PaneTable, gone: set<Id>) returns (archived: PaneTable, focus: Option<Id>)
    requires Holds(rows, LayoutOf(rows))
    ensures var next := Archive(Layout(LayoutOf(rows), None), gone);
      archived == Stored(next.panes) && focus == next.focus
  {
    var panes := LayoutOf(rows);
    archived := DeletePanes(rows, panes, gone);
    KeptRows(panes, archived, gone);
    archived := Refill(archived);
    var remaining := LayoutOf(archived);
    var numbered := Renumber(archived);
    return numbered.value, if remaining == [] then None else Some(remaining[0].id);
  }

  lemma SlotsOf(rows: PaneTable, current: PaneTable, panes: seq<Pane>, k: nat)
    requires Holds(rows, panes) && k < |panes| && current[k] == rows[k]
    requires forall p :: 0 <= p < MAX_PANES ==> current[p] == rows[p] || current[p].None?
    ensures Find(current, panes[k].id) == k
  {
    assert forall p :: 0 <= p < MAX_PANES && p != k && current[p].Some? ==> current[p].value == panes[p];
  }

  lemma KeptRows(panes: seq<Pane>, kept: PaneTable, gone: set<Id>)
    requires ValidPanes(panes)
    requires forall p :: 0 <= p < MAX_PANES ==>
      kept[p] == if p < |panes| && panes[p].context !in gone then Some(panes[p]) else None
    ensures LayoutOf(kept) == Outside(panes, gone)
    ensures var rest := Outside(panes, gone);
      DistinctIds(rest) && Positive(Widths(rest)) && Sum(Widths(rest)) <= TOTAL
  {
    OutsideUnrolled(panes, gone);
    OutsideDistinct(panes, gone);
    OutsideTotal(panes, gone);
    OutsidePositive(panes, gone);
  }

  /** Moving the next row down to the first gap is legal and keeps the order. */
  lemma RenumberStep(rows: PaneTable, k: nat)
    requires k < |LayoutOf(rows)| && DistinctIds(LayoutOf(rows))
    requires forall p :: 0 <= p < k ==> rows[p].Some?
    ensures var next := SetPosition(rows, LayoutOf(rows)[k].id, k);
      next.Some? && LayoutOf(next.value) == LayoutOf(rows) && forall p :: 0 <= p <= k ==> next.value[p].Some?
  {
    var panes := LayoutOf(rows);
    var from := Find(rows, panes[k].id);
    assert forall p :: 0 <= p < k ==> panes[p] == rows[p].value;
    assert from >= k;
  }

  lemma OutsideUnrolled(panes: seq<Pane>, gone: set<Id>)
    requires |panes| <= 3
    ensures Outside(panes, gone) ==
      (if 0 < |panes| && panes[0].context !in gone then [panes[0]] else [])
      + (if 1 < |panes| && panes[1].context !in gone then [panes[1]] else [])
      + (if 2 < |panes| && panes[2].context !in gone then [panes[2]] else [])
  {
    hide Outside;
    OutsideNone(gone);
    if |panes| > 0 {
      OutsideFirst(panes, gone);
      var tail := panes[1..];
      if |tail| > 0 {
        OutsideFirst(tail, gone);
        var last := tail[1..];
        if |last| > 0 {
          OutsideFirst(last, gone);
        }
      }
    }
  }

  lemma OutsideNone(gone: set<Id>)
    ensures Outside([], gone) == []
  {}

  lemma OutsideFirst(panes: seq<Pane>, gone: set<Id>)
    requires panes != []
    ensures Outside(panes, gone) == (if panes[0].context in gone then [] else [panes[0]]) + Outside(panes[1..], gone)
  {}
}
