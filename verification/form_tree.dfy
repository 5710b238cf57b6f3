/**
 * The form tree as a value, and the effect of each structural operation on
 * it: dropping a field (reorder, insert from the palette, transfer between
 * rows), the auto-growth step that follows every drop, deleting a field or a
 * section, and restyling every field with the global font size.
 */
module FormTree {
  import opened Optional
  import opened FormModel
  import opened ArrayOps
  import opened GridBalancer
  import opened JsStrings
  import opened DropListIds

  predicate ValidRow(sections: seq<Section>, s: nat, r: nat)
  {
    s < |sections| && r < |sections[s].rows|
  }

  predicate ValidFieldPath(sections: seq<Section>, p: FieldPath)
  {
    ValidRow(sections, p.sectionIndex, p.rowIndex) &&
    p.fieldIndex < |sections[p.sectionIndex].rows[p.rowIndex].fields|
  }

  function FieldsAt(sections: seq<Section>, s: nat, r: nat): seq<Field>
    requires ValidRow(sections, s, r)
  {
    sections[s].rows[r].fields
  }

  /** Same sections with the same titles and the same number of rows each. */
  predicate SameShape(a: seq<Section>, b: seq<Section>)
  {
    |a| == |b| && forall k :: 0 <= k < |a| ==> a[k].title == b[k].title && |a[k].rows| == |b[k].rows|
  }

  /** `b` has the shape of `a`, and every row outside `changed` is as in `a`. */
  predicate OnlyRowsChanged(a: seq<Section>, b: seq<Section>, changed: set<RowRef>)
  {
    SameShape(a, b) &&
    forall k, j :: 0 <= k < |a| && 0 <= j < |a[k].rows| && RowRef(k, j) !in changed ==> b[k].rows[j] == a[k].rows[j]
  }

  /** The tree with the fields of row (s, r) replaced and nothing else touched. */
  function WithFields(sections: seq<Section>, s: nat, r: nat, fields: seq<Field>): (t: seq<Section>)
    requires ValidRow(sections, s, r)
    ensures ValidRow(t, s, r) && FieldsAt(t, s, r) == fields
    ensures OnlyRowsChanged(sections, t, {RowRef(s, r)})
    ensures forall k :: 0 <= k < |t| && k != s ==> t[k] == sections[k]
    ensures fields == FieldsAt(sections, s, r) ==> t == sections
  {
    var rows := sections[s].rows[r := Row(fields)];
    assert fields == FieldsAt(sections, s, r) ==> rows == sections[s].rows && sections[s].(rows := rows) == sections[s];
    sections[s := sections[s].(rows := rows)]
  }

  /** A tree whose changed rows all fit keeps every row within capacity. */
  lemma CapacityKept(a: seq<Section>, b: seq<Section>, changed: set<RowRef>)
    requires WithinCapacity(a) && OnlyRowsChanged(a, b, changed)
    requires forall ref :: ref in changed && ValidRow(b, ref.sectionIndex, ref.rowIndex) ==>
      |FieldsAt(b, ref.sectionIndex, ref.rowIndex)| <= GridColumns
    ensures WithinCapacity(b)
  {
    forall k, j | 0 <= k < |b| && 0 <= j < |b[k].rows|
      ensures |b[k].rows[j].fields| <= GridColumns
    {
      if RowRef(k, j) in changed {
        assert ValidRow(b, k, j);
      } else {
        assert |a[k].rows[j].fields| <= GridColumns;
      }
    }
  }

  /** No row holds more fields than the grid has columns. */
  predicate WithinCapacity(sections: seq<Section>)
  {
    forall k, j :: 0 <= k < |sections| && 0 <= j < |sections[k].rows| ==> |sections[k].rows[j].fields| <= GridColumns
  }

  // ---------------------------------------------------------------------------
  // Auto-growth

  /** The tree with an empty row appended to section `s`. */
  function AddRowTo(sections: seq<Section>, s: nat): seq<Section>
    requires s < |sections|
  {
    sections[s := sections[s].(rows := sections[s].rows + [EmptyRow])]
  }

  /** The section appended to a tree: titled "Section" followed by the tree's length minus one, with no rows. */
  function NewSection(sections: seq<Section>): Section
  {
    Section("Section" + IntToString(|sections| - 1), [])
  }

  /** Every row of the section holds a field (true of a section without rows). */
  predicate EveryRowFilled(section: Section)
  {
    forall j :: 0 <= j < |section.rows| ==> |section.rows[j].fields| > 0
  }

  /** Some row of the section holds a field. */
  predicate HasFilledRow(section: Section)
  {
    exists j :: 0 <= j < |section.rows| && |section.rows[j].fields| > 0
  }

  predicate AllSectionsFilled(sections: seq<Section>)
  {
    forall k :: 0 <= k < |sections| ==> HasFilledRow(sections[k])
  }

  predicate HasEmptyRow(section: Section)
  {
    exists j :: 0 <= j < |section.rows| && |section.rows[j].fields| == 0
  }

  /** The first growth step: section `s` with an empty row appended when all its rows hold fields. */
  function WithTrailingRow(sections: seq<Section>, s: nat): (t: seq<Section>)
    requires s < |sections|
    ensures |t| == |sections| && HasEmptyRow(t[s])
    ensures forall k :: 0 <= k < |t| && k != s ==> t[k] == sections[k]
    ensures t[s].title == sections[s].title
    ensures t[s].rows == sections[s].rows || t[s].rows == sections[s].rows + [EmptyRow]
    ensures |t[s].rows| == |sections[s].rows| + 1 <==> EveryRowFilled(sections[s])
  {
    if EveryRowFilled(sections[s]) then
      var t := AddRowTo(sections, s);
      assert t[s].rows[|sections[s].rows|] == EmptyRow;
      t
    else
      sections
  }

  /**
   * The growth step run after every drop into section `s`: an empty row is
   * appended to `s` when all its rows hold fields, then an empty section with
   * one empty row is appended when every section has content.
   */
  function Grown(sections: seq<Section>, s: nat): seq<Section>
    requires s < |sections|
  {
    var withRow := WithTrailingRow(sections, s);
    if AllSectionsFilled(withRow) then AddRowTo(withRow + [NewSection(withRow)], |withRow|) else withRow
  }

  /** After growth the active section offers an empty row, and some section has no content yet. */
  lemma GrowthLeavesDropTargets(sections: seq<Section>, s: nat)
    requires s < |sections|
    ensures HasEmptyRow(Grown(sections, s)[s])
    ensures exists k :: 0 <= k < |Grown(sections, s)| && !HasFilledRow(Grown(sections, s)[k])
  {
    var withRow := WithTrailingRow(sections, s);
    var t := Grown(sections, s);
    if AllSectionsFilled(withRow) {
      assert t[s] == withRow[s];
      assert t[|withRow|].rows == [EmptyRow];
      assert !HasFilledRow(t[|withRow|]);
    } else {
      var k :| 0 <= k < |withRow| && !HasFilledRow(withRow[k]);
      assert t[k] == withRow[k];
    }
  }

  /**
   * Growth only appends: section `s` may gain one empty row at its end, and
   * the tree may gain one last section, titled after the old length minus
   * one, holding a single empty row; every other section is untouched.
   */
  lemma GrowthOnlyAppends(sections: seq<Section>, s: nat)
    requires s < |sections|
    ensures var t := Grown(sections, s);
      |sections| <= |t| <= |sections| + 1 &&
      (forall k :: 0 <= k < |sections| && k != s ==> t[k] == sections[k]) &&
      t[s].title == sections[s].title &&
      (t[s].rows == sections[s].rows || t[s].rows == sections[s].rows + [EmptyRow]) &&
      (|t[s].rows| == |sections[s].rows| + 1 <==> EveryRowFilled(sections[s])) &&
      (|t| == |sections| + 1 <==> AllSectionsFilled(sections)) &&
      (|t| == |sections| + 1 ==> t[|sections|] == Section("Section" + IntToString(|sections| - 1), [EmptyRow]))
  {
    TrailingRowKeepsFilledSections(sections, s);
  }

  /** An appended empty row fills no section, so it does not decide whether a section is appended. */
  lemma TrailingRowKeepsFilledSections(sections: seq<Section>, s: nat)
    requires s < |sections|
    ensures AllSectionsFilled(WithTrailingRow(sections, s)) <==> AllSectionsFilled(sections)
  {
    var withRow := WithTrailingRow(sections, s);
    if HasFilledRow(sections[s]) {
      var j :| 0 <= j < |sections[s].rows| && |sections[s].rows[j].fields| > 0;
      assert withRow[s].rows[j] == sections[s].rows[j];
    }
    if HasFilledRow(withRow[s]) {
      var j :| 0 <= j < |withRow[s].rows| && |withRow[s].rows[j].fields| > 0;
      assert j < |sections[s].rows| && withRow[s].rows[j] == sections[s].rows[j];
    }
    assert HasFilledRow(withRow[s]) == HasFilledRow(sections[s]);
  }

  /** Growing twice is growing once: after growth the section has an empty row and some section is empty. */
  lemma GrowthIsIdempotent(sections: seq<Section>, s: nat)
    requires s < |sections|
    ensures Grown(Grown(sections, s), s) == Grown(sections, s)
  {
    var t := Grown(sections, s);
    GrowthLeavesDropTargets(sections, s);
    var j :| 0 <= j < |t[s].rows| && |t[s].rows[j].fields| == 0;
    assert !EveryRowFilled(t[s]);
    assert WithTrailingRow(t, s) == t;
    var k :| 0 <= k < |t| && !HasFilledRow(t[k]);
    assert !AllSectionsFilled(t);
  }

  /** Growth adds empty rows only, so it keeps every row within capacity. */
  lemma GrowthKeepsCapacity(sections: seq<Section>, s: nat)
    requires s < |sections| && WithinCapacity(sections)
    ensures WithinCapacity(Grown(sections, s))
  {
    var withRow := WithTrailingRow(sections, s);
    var t := Grown(sections, s);
    forall k, j | 0 <= k < |t| && 0 <= j < |t[k].rows|
      ensures |t[k].rows[j].fields| <= GridColumns
    {
      if k < |sections| && j < |sections[k].rows| {
        assert t[k].rows[j] == sections[k].rows[j];
      } else {
        assert t[k].rows[j] == EmptyRow;
      }
    }
  }

  /** The worked example: one section whose only row holds one field grows an empty row and an empty section. */
  lemma GrowthExample(f: Field)
    ensures Grown([Section("Section-1", [Row([f])])], 0) ==
      [Section("Section-1", [Row([f]), EmptyRow]), Section("Section0", [EmptyRow])]
  {
    var one := [Section("Section-1", [Row([f])])];
    assert EveryRowFilled(one[0]);
    var withRow := WithTrailingRow(one, 0);
    assert withRow == AddRowTo(one, 0);
    assert [Row([f])] + [EmptyRow] == [Row([f]), EmptyRow];
    assert withRow == [Section("Section-1", [Row([f]), EmptyRow])];
    assert HasFilledRow(withRow[0]) by {
      assert |withRow[0].rows[0].fields| > 0;
    }
    SmallNumbersText();
    assert "Section" + "0" == "Section0";
    assert NewSection(withRow) == Section("Section0", []);
    assert [] + [EmptyRow] == [EmptyRow];
  }

  // ---------------------------------------------------------------------------
  // Dropping a field

  /**
   * A finished drag onto a row's drop list: whether it started in that same
   * list, the id of the list it started in, and the item's index there and in
   * the destination.
   */
  datatype DropEvent = DropEvent(sameContainer: bool, previousContainerId: string, previousIndex: nat, currentIndex: nat)

  /** The row a transfer takes its field from. */
  function SourceRow(e: DropEvent): RowRef
    requires ParseRowId(e.previousContainerId).Some?
  {
    ParseRowId(e.previousContainerId).value
  }

  /**
   * What the drag-and-drop library guarantees of a drop onto row (s, r): the
   * indices name an item of the list it came from and a position in the
   * destination, and a transfer comes from another, existing row.
   */
  predicate DropIsWellFormed(sections: seq<Section>, palette: seq<Field>, e: DropEvent, s: nat, r: nat)
  {
    ValidRow(sections, s, r) &&
    if e.sameContainer then
      e.previousIndex < |FieldsAt(sections, s, r)| && e.currentIndex < |FieldsAt(sections, s, r)|
    else if e.previousContainerId == PaletteListId then
      e.previousIndex < |palette| && e.currentIndex <= |FieldsAt(sections, s, r)|
    else
      ParseRowId(e.previousContainerId).Some? &&
      ValidRow(sections, SourceRow(e).sectionIndex, SourceRow(e).rowIndex) &&
      SourceRow(e) != RowRef(s, r) &&
      e.previousIndex < |FieldsAt(sections, SourceRow(e).sectionIndex, SourceRow(e).rowIndex)| &&
      e.currentIndex <= |FieldsAt(sections, s, r)|
  }

  /** A drop from another list onto a row that already holds twelve fields is refused. */
  predicate IsRejected(sections: seq<Section>, e: DropEvent, s: nat, r: nat)
    requires ValidRow(sections, s, r)
  {
    !e.sameContainer && |FieldsAt(sections, s, r)| >= GridColumns
  }

  /** The tree after a drop onto row (s, r), before the growth step. */
  function AfterPlacement(sections: seq<Section>, palette: seq<Field>, fontSize: string, e: DropEvent, s: nat, r: nat): seq<Section>
    requires DropIsWellFormed(sections, palette, e, s, r)
  {
    var dst := FieldsAt(sections, s, r);
    if e.sameContainer then
      WithFields(sections, s, r, Rebalanced(MoveItem(dst, e.previousIndex, e.currentIndex)))
    else if |dst| >= GridColumns then
      sections
    else if e.previousContainerId == PaletteListId then
      var newField := NewFieldFrom(palette[e.previousIndex], fontSize);
      WithFields(sections, s, r, Rebalanced(InsertAt(dst, e.currentIndex, newField)))
    else
      var src := SourceRow(e);
      var from := FieldsAt(sections, src.sectionIndex, src.rowIndex);
      var moved := from[e.previousIndex];
      var t := WithFields(sections, src.sectionIndex, src.rowIndex, Rebalanced(RemoveAt(from, e.previousIndex)));
      WithFields(t, s, r, Rebalanced(InsertAt(dst, e.currentIndex, moved)))
  }

  lemma ErasedInsertAt(fields: seq<Field>, i: nat, x: Field)
    requires i <= |fields|
    ensures Erased(InsertAt(fields, i, x)) == InsertAt(Erased(fields), i, x.(colSpan := 0))
  {
    var a, b := Erased(InsertAt(fields, i, x)), InsertAt(Erased(fields), i, x.(colSpan := 0));
    assert |a| == |b|;
    forall k | 0 <= k < |a|
      ensures a[k] == b[k]
    {
      if k > i {
        assert a[k] == fields[k - 1].(colSpan := 0);
      }
    }
  }

  lemma ErasedRemoveAt(fields: seq<Field>, i: nat)
    requires i < |fields|
    ensures Erased(RemoveAt(fields, i)) == RemoveAt(Erased(fields), i)
  {
    var a, b := Erased(RemoveAt(fields, i)), RemoveAt(Erased(fields), i);
    assert |a| == |b|;
    forall k | 0 <= k < |a|
      ensures a[k] == b[k]
    {
      if k >= i {
        assert a[k] == fields[k + 1].(colSpan := 0);
      }
    }
  }

  /**
   * Reordering within a row keeps the row's fields, only in a new order with
   * the dragged field at its new index, and rebalances the row; no other row
   * changes.
   */
  lemma ReorderKeepsRowFields(sections: seq<Section>, palette: seq<Field>, fontSize: string, e: DropEvent, s: nat, r: nat)
    requires DropIsWellFormed(sections, palette, e, s, r) && e.sameContainer
    ensures var t := AfterPlacement(sections, palette, fontSize, e, s, r);
      var before := FieldsAt(sections, s, r);
      ValidRow(t, s, r) &&
      OnlyRowsChanged(sections, t, {RowRef(s, r)}) &&
      |FieldsAt(t, s, r)| == |before| &&
      multiset(Erased(FieldsAt(t, s, r))) == multiset(Erased(before)) &&
      Erased(FieldsAt(t, s, r))[e.currentIndex] == Erased(before)[e.previousIndex] &&
      BalancedSpans(FieldsAt(t, s, r))
  {
    var before := FieldsAt(sections, s, r);
    var p, c := e.previousIndex, e.currentIndex;
    var moved := MoveItem(before, p, c);
    ErasedRemoveAt(before, p);
    ErasedInsertAt(RemoveAt(before, p), c, before[p]);
    assert Erased(moved) == MoveItem(Erased(before), p, c);
  }

  /**
   * Inserting from the palette into a full row changes nothing; otherwise the
   * row gains one field at the drop index, a copy of the template carrying the
   * global font size, and is rebalanced; no other row changes.
   */
  lemma PaletteInsertAddsOneField(sections: seq<Section>, palette: seq<Field>, fontSize: string, e: DropEvent, s: nat, r: nat)
    requires DropIsWellFormed(sections, palette, e, s, r)
    requires !e.sameContainer && e.previousContainerId == PaletteListId
    ensures var t := AfterPlacement(sections, palette, fontSize, e, s, r);
      var before := FieldsAt(sections, s, r);
      var template := palette[e.previousIndex];
      (|before| >= GridColumns ==> t == sections) &&
      (|before| < GridColumns ==>
        ValidRow(t, s, r) &&
        OnlyRowsChanged(sections, t, {RowRef(s, r)}) &&
        |FieldsAt(t, s, r)| == |before| + 1 &&
        Erased(FieldsAt(t, s, r)) == InsertAt(Erased(before), e.currentIndex, FieldsAt(t, s, r)[e.currentIndex].(colSpan := 0)) &&
        FieldsAt(t, s, r)[e.currentIndex].fontSize == Some(fontSize) &&
        FieldsAt(t, s, r)[e.currentIndex].(fontSize := template.fontSize, colSpan := template.colSpan) == template &&
        BalancedSpans(FieldsAt(t, s, r)) &&
        SumSpans(FieldsAt(t, s, r)) == GridColumns)
  {
    var before := FieldsAt(sections, s, r);
    if |before| < GridColumns {
      var t := AfterPlacement(sections, palette, fontSize, e, s, r);
      var newField := NewFieldFrom(palette[e.previousIndex], fontSize);
      var inserted := InsertAt(before, e.currentIndex, newField);
      ErasedInsertAt(before, e.currentIndex, newField);
      assert Erased(FieldsAt(t, s, r)) == Erased(inserted);
      assert Erased(FieldsAt(t, s, r))[e.currentIndex] == newField.(colSpan := 0);
      BalancedRowFillsGrid(FieldsAt(t, s, r));
    }
  }

  /**
   * A transfer between rows is all or nothing. Onto a full row it changes
   * nothing, the source row included. Otherwise the source row loses exactly
   * the field at the drag index, the destination gains that same field at the
   * drop index, both rows are rebalanced, and no other row changes.
   */
  lemma TransferIsAtomic(sections: seq<Section>, palette: seq<Field>, fontSize: string, e: DropEvent, s: nat, r: nat)
    requires DropIsWellFormed(sections, palette, e, s, r)
    requires !e.sameContainer && e.previousContainerId != PaletteListId
    ensures var t := AfterPlacement(sections, palette, fontSize, e, s, r);
      var src := SourceRow(e);
      var from := FieldsAt(sections, src.sectionIndex, src.rowIndex);
      var before := FieldsAt(sections, s, r);
      (|before| >= GridColumns ==> t == sections) &&
      (|before| < GridColumns ==>
        ValidRow(t, s, r) && ValidRow(t, src.sectionIndex, src.rowIndex) &&
        OnlyRowsChanged(sections, t, {src, RowRef(s, r)}) &&
        Erased(FieldsAt(t, src.sectionIndex, src.rowIndex)) == RemoveAt(Erased(from), e.previousIndex) &&
        Erased(FieldsAt(t, s, r)) == InsertAt(Erased(before), e.currentIndex, from[e.previousIndex].(colSpan := 0)) &&
        multiset(Erased(FieldsAt(t, src.sectionIndex, src.rowIndex))) + multiset(Erased(FieldsAt(t, s, r))) ==
          multiset(Erased(from)) + multiset(Erased(before)) &&
        BalancedSpans(FieldsAt(t, src.sectionIndex, src.rowIndex)) &&
        BalancedSpans(FieldsAt(t, s, r)))
  {
    var before := FieldsAt(sections, s, r);
    if |before| < GridColumns {
      var src := SourceRow(e);
      var from := FieldsAt(sections, src.sectionIndex, src.rowIndex);
      var p, c := e.previousIndex, e.currentIndex;
      var t1 := WithFields(sections, src.sectionIndex, src.rowIndex, Rebalanced(RemoveAt(from, p)));
      var t := AfterPlacement(sections, palette, fontSize, e, s, r);
      assert t == WithFields(t1, s, r, Rebalanced(InsertAt(before, c, from[p])));
      assert FieldsAt(t1, s, r) == before;
      assert FieldsAt(t, src.sectionIndex, src.rowIndex) == Rebalanced(RemoveAt(from, p));
      ErasedRemoveAt(from, p);
      ErasedInsertAt(before, c, from[p]);
      assert Erased(from)[p] == from[p].(colSpan := 0);
    }
  }

  /** An accepted transfer shortens its source row and fills its destination to at most twelve fields. */
  lemma TransferKeepsCapacity(sections: seq<Section>, palette: seq<Field>, fontSize: string, e: DropEvent, s: nat, r: nat)
    requires DropIsWellFormed(sections, palette, e, s, r) && WithinCapacity(sections)
    requires !e.sameContainer && e.previousContainerId != PaletteListId
    requires |FieldsAt(sections, s, r)| < GridColumns
    ensures WithinCapacity(AfterPlacement(sections, palette, fontSize, e, s, r))
  {
    var src := SourceRow(e);
    var from := FieldsAt(sections, src.sectionIndex, src.rowIndex);
    var before := FieldsAt(sections, s, r);
    var t1 := WithFields(sections, src.sectionIndex, src.rowIndex, Rebalanced(RemoveAt(from, e.previousIndex)));
    CapacityKept(sections, t1, {src});
    assert FieldsAt(t1, s, r) == before;
    var t := WithFields(t1, s, r, Rebalanced(InsertAt(before, e.currentIndex, from[e.previousIndex])));
    assert t == AfterPlacement(sections, palette, fontSize, e, s, r);
    CapacityKept(t1, t, {RowRef(s, r)});
  }

  /** A drop never leaves a row with more than twelve fields. */
  lemma PlacementKeepsCapacity(sections: seq<Section>, palette: seq<Field>, fontSize: string, e: DropEvent, s: nat, r: nat)
    requires DropIsWellFormed(sections, palette, e, s, r) && WithinCapacity(sections)
    ensures WithinCapacity(AfterPlacement(sections, palette, fontSize, e, s, r))
  {
    var t := AfterPlacement(sections, palette, fontSize, e, s, r);
    var before := FieldsAt(sections, s, r);
    if e.sameContainer {
      CapacityKept(sections, t, {RowRef(s, r)});
    } else if |before| >= GridColumns {
    } else if e.previousContainerId == PaletteListId {
      CapacityKept(sections, t, {RowRef(s, r)});
    } else {
      TransferKeepsCapacity(sections, palette, fontSize, e, s, r);
    }
  }

  // ---------------------------------------------------------------------------
  // Selections that outlive their field

  /**
   * Dragging a section moves rows out from under a recorded selection: a path
   * naming a field before the move names no row afterwards.
   */
  lemma SectionDropCanLeaveSelectionStale(f: Field)
    ensures var before := [Section("A", [EmptyRow, EmptyRow, Row([f])]), Section("B", [EmptyRow])];
      ValidFieldPath(before, FieldPath(0, 2, 0)) && !ValidRow(MoveItem(before, 0, 1), 0, 2)
  {
    var before := [Section("A", [EmptyRow, EmptyRow, Row([f])]), Section("B", [EmptyRow])];
    assert RemoveAt(before, 0)[0] == before[1];
    assert MoveItem(before, 0, 1)[0] == before[1];
  }

  /**
   * Transferring the selected field away leaves its path pointing past the
   * end of its row, which the transfer keeps.
   */
  lemma TransferCanLeaveSelectionStale(f: Field)
    ensures var before := [Section("A", [Row([f]), EmptyRow])];
      var e := DropEvent(false, RowId(0, 0), 0, 0);
      DropIsWellFormed(before, [], e, 0, 1) &&
      ValidFieldPath(before, FieldPath(0, 0, 0)) &&
      var after := AfterPlacement(before, [], DefaultFontSize, e, 0, 1);
      ValidRow(after, 0, 0) && !ValidFieldPath(after, FieldPath(0, 0, 0))
  {
    var before := [Section("A", [Row([f]), EmptyRow])];
    var e := DropEvent(false, RowId(0, 0), 0, 0);
    PaletteIdIsNoRowId();
    ParseRowIdOfRowId(0, 0);
    assert SourceRow(e) == RowRef(0, 0);
    var after := AfterPlacement(before, [], DefaultFontSize, e, 0, 1);
    var t1 := WithFields(before, 0, 0, Rebalanced(RemoveAt([f], 0)));
    assert FieldsAt(t1, 0, 0) == [];
    assert FieldsAt(after, 0, 0) == FieldsAt(t1, 0, 0);
  }

  // ---------------------------------------------------------------------------
  // Deleting a field or a section

  /**
   * The tree after deleting the field at path `p`: the field is spliced out
   * (an index past the row's end removes nothing); a row left without fields
   * is removed from its section, any other row is rebalanced.
   */
  function AfterFieldDeletion(sections: seq<Section>, p: FieldPath): seq<Section>
    requires ValidRow(sections, p.sectionIndex, p.rowIndex)
  {
    var s, r := p.sectionIndex, p.rowIndex;
    var fields := FieldsAt(sections, s, r);
    var remaining := if p.fieldIndex < |fields| then RemoveAt(fields, p.fieldIndex) else fields;
    if |remaining| == 0 then sections[s := sections[s].(rows := RemoveAt(sections[s].rows, r))]
    else WithFields(sections, s, r, Rebalanced(remaining))
  }

  /**
   * Deleting an existing field removes exactly that field: a row it was the
   * last field of disappears from its section, otherwise the row keeps its
   * other fields in order and is rebalanced. Other sections never change.
   */
  lemma FieldDeletionRemovesExactlyOne(sections: seq<Section>, p: FieldPath)
    requires ValidFieldPath(sections, p)
    ensures var t := AfterFieldDeletion(sections, p);
      var s, r := p.sectionIndex, p.rowIndex;
      var fields := FieldsAt(sections, s, r);
      |t| == |sections| &&
      (forall k :: 0 <= k < |t| && k != s ==> t[k] == sections[k]) &&
      t[s].title == sections[s].title &&
      (|fields| == 1 ==> t[s].rows == RemoveAt(sections[s].rows, r)) &&
      (|fields| > 1 ==>
        ValidRow(t, s, r) &&
        OnlyRowsChanged(sections, t, {RowRef(s, r)}) &&
        Erased(FieldsAt(t, s, r)) == RemoveAt(Erased(fields), p.fieldIndex) &&
        BalancedSpans(FieldsAt(t, s, r)) &&
        SumSpans(FieldsAt(t, s, r)) == GridColumns)
  {
    var s, r := p.sectionIndex, p.rowIndex;
    var fields := FieldsAt(sections, s, r);
    if |fields| > 1 {
      var t := AfterFieldDeletion(sections, p);
      ErasedRemoveAt(fields, p.fieldIndex);
      BalancedRowFillsGrid(FieldsAt(t, s, r));
    }
  }

  /**
   * A stale path whose field index is past the end of its row removes no
   * field: an empty row is still dropped, any other row is only rebalanced.
   */
  lemma StaleFieldDeletionRemovesNoField(sections: seq<Section>, p: FieldPath)
    requires ValidRow(sections, p.sectionIndex, p.rowIndex)
    requires p.fieldIndex >= |FieldsAt(sections, p.sectionIndex, p.rowIndex)|
    ensures var t := AfterFieldDeletion(sections, p);
      var s, r := p.sectionIndex, p.rowIndex;
      var fields := FieldsAt(sections, s, r);
      (fields == [] ==> t[s].rows == RemoveAt(sections[s].rows, r)) &&
      (fields != [] ==> t == WithFields(sections, s, r, Rebalanced(fields)) && SameExceptSpans(FieldsAt(t, s, r), fields))
  {
  }

  lemma FieldDeletionKeepsCapacity(sections: seq<Section>, p: FieldPath)
    requires ValidRow(sections, p.sectionIndex, p.rowIndex) && WithinCapacity(sections)
    ensures WithinCapacity(AfterFieldDeletion(sections, p))
  {
    var s, r := p.sectionIndex, p.rowIndex;
    var fields := FieldsAt(sections, s, r);
    var remaining := if p.fieldIndex < |fields| then RemoveAt(fields, p.fieldIndex) else fields;
    if |remaining| == 0 {
      RowRemovalKeepsCapacity(sections, s, r);
    } else {
      ShorterRowKeepsCapacity(sections, s, r, Rebalanced(remaining));
    }
  }

  /** Giving a row no more fields than it had keeps the tree within capacity. */
  lemma ShorterRowKeepsCapacity(sections: seq<Section>, s: nat, r: nat, fields: seq<Field>)
    requires ValidRow(sections, s, r) && WithinCapacity(sections)
    requires |fields| <= |FieldsAt(sections, s, r)|
    ensures WithinCapacity(WithFields(sections, s, r, fields))
  {
    CapacityKept(sections, WithFields(sections, s, r, fields), {RowRef(s, r)});
  }

  /** Removing a row from its section keeps every other row as it was, so within capacity. */
  lemma RowRemovalKeepsCapacity(sections: seq<Section>, s: nat, r: nat)
    requires ValidRow(sections, s, r) && WithinCapacity(sections)
    ensures WithinCapacity(sections[s := sections[s].(rows := RemoveAt(sections[s].rows, r))])
  {
    var t := sections[s := sections[s].(rows := RemoveAt(sections[s].rows, r))];
    forall k, j | 0 <= k < |t| && 0 <= j < |t[k].rows|
      ensures |t[k].rows[j].fields| <= GridColumns
    {
      if k == s && j >= r {
        assert t[k].rows[j] == sections[s].rows[j + 1];
      } else {
        assert t[k].rows[j] == sections[k].rows[j];
      }
    }
  }

  /** The form a component starts with, and re-seeds itself with: one section "Section-1" holding one empty row. */
  function SeedForm(): seq<Section>
  {
    AddRowTo([NewSection([])], 0)
  }

  lemma SeedFormIsOneEmptySection()
    ensures SeedForm() == [Section("Section-1", [EmptyRow])]
  {
    SmallNumbersText();
    assert "Section" + "-1" == "Section-1";
    assert NewSection([]) == Section("Section-1", []);
    assert [] + [EmptyRow] == [EmptyRow];
  }

  /**
   * The tree after deleting section `i`: the section is spliced out (an index
   * past the end removes nothing), and a tree left without sections is
   * re-seeded with one empty section holding one empty row.
   */
  function AfterSectionDeletion(sections: seq<Section>, i: nat): (t: seq<Section>)
    ensures |t| >= 1
    ensures i < |sections| && |sections| > 1 ==> t == RemoveAt(sections, i)
    ensures i >= |sections| && sections != [] ==> t == sections
    ensures (|sections| == 1 && i == 0) || sections == [] ==> t == [Section("Section-1", [EmptyRow])]
  {
    SeedFormIsOneEmptySection();
    var remaining := if i < |sections| then RemoveAt(sections, i) else sections;
    if remaining == [] then SeedForm() else remaining
  }

  lemma SectionDeletionKeepsCapacity(sections: seq<Section>, i: nat)
    requires WithinCapacity(sections)
    ensures WithinCapacity(AfterSectionDeletion(sections, i))
  {
    var t := AfterSectionDeletion(sections, i);
    if i < |sections| && |sections| > 1 {
      forall k, j | 0 <= k < |t| && 0 <= j < |t[k].rows|
        ensures |t[k].rows[j].fields| <= GridColumns
      {
        if k >= i {
          assert t[k] == sections[k + 1];
        }
      }
    }
  }

  // ---------------------------------------------------------------------------
  // Global font size

  function RestyledRow(row: Row, fontSize: string): Row
  {
    Row(seq(|row.fields|, i requires 0 <= i < |row.fields| => row.fields[i].(fontSize := Some(fontSize))))
  }

  function RestyledSection(section: Section, fontSize: string): Section
  {
    section.(rows := seq(|section.rows|, j requires 0 <= j < |section.rows| => RestyledRow(section.rows[j], fontSize)))
  }

  /** Every field of the tree with its font size set to `fontSize`. */
  function Restyled(sections: seq<Section>, fontSize: string): seq<Section>
  {
    seq(|sections|, k requires 0 <= k < |sections| => RestyledSection(sections[k], fontSize))
  }

  /**
   * Restyling touches fonts only: the tree keeps its shape, every row keeps
   * its fields and spans, every field gets the new font size, and rows stay
   * within capacity.
   */
  lemma RestyleKeepsLayout(sections: seq<Section>, fontSize: string)
    ensures var t := Restyled(sections, fontSize);
      SameShape(sections, t) &&
      (forall k, j :: 0 <= k < |t| && 0 <= j < |t[k].rows| ==>
        |t[k].rows[j].fields| == |sections[k].rows[j].fields| &&
        forall i :: 0 <= i < |t[k].rows[j].fields| ==>
          t[k].rows[j].fields[i] == sections[k].rows[j].fields[i].(fontSize := Some(fontSize))) &&
      (WithinCapacity(sections) ==> WithinCapacity(t))
  {
  }

  /** Restyling twice is restyling with the later font size: the last global font size applied wins. */
  lemma RestyleLastWins(sections: seq<Section>, first: string, second: string)
    ensures Restyled(Restyled(sections, first), second) == Restyled(sections, second)
  {
    var a, b := Restyled(Restyled(sections, first), second), Restyled(sections, second);
    forall k | 0 <= k < |b|
      ensures a[k] == b[k]
    {
      var ra, rb := a[k].rows, b[k].rows;
      forall j | 0 <= j < |rb|
        ensures ra[j] == rb[j]
      {
        assert ra[j].fields == rb[j].fields;
      }
      assert ra == rb;
    }
  }

  // ---------------------------------------------------------------------------
  // Editing one field

  function FieldAt(sections: seq<Section>, p: FieldPath): Field
    requires ValidFieldPath(sections, p)
  {
    sections[p.sectionIndex].rows[p.rowIndex].fields[p.fieldIndex]
  }

  /** The tree with the field at `p` replaced, and nothing else touched. */
  function WithField(sections: seq<Section>, p: FieldPath, field: Field): (t: seq<Section>)
    requires ValidFieldPath(sections, p)
    ensures ValidFieldPath(t, p) && FieldAt(t, p) == field
    ensures OnlyRowsChanged(sections, t, {RowRef(p.sectionIndex, p.rowIndex)})
    ensures var fields := FieldsAt(sections, p.sectionIndex, p.rowIndex);
      |FieldsAt(t, p.sectionIndex, p.rowIndex)| == |fields| &&
      forall i :: 0 <= i < |fields| && i != p.fieldIndex ==> FieldsAt(t, p.sectionIndex, p.rowIndex)[i] == fields[i]
  {
    var fields := FieldsAt(sections, p.sectionIndex, p.rowIndex);
    WithFields(sections, p.sectionIndex, p.rowIndex, fields[p.fieldIndex := field])
  }
}
