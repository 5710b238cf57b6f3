/**
 * The form-builder component: the palette, the form tree, the selection and
 * the global font size, changed in place by the drop, click, delete and
 * inspector handlers.
 */
module App {
  import opened Optional
  import opened FormModel
  import opened ArrayOps
  import opened GridBalancer
  import opened DropListIds
  import opened FormTree

  class AppComponent {
    var availableFields: seq<Field>
    var formSections: seq<Section>
    var selectedField: Option<FieldPath>
    var globalFontSize: string
    var selectedSection: Option<nat>

    /** The invariant the handlers keep: no row holds more than twelve fields. */
    ghost predicate Valid()
      reads this
    {
      WithinCapacity(formSections)
    }

    constructor ()
      ensures availableFields == AvailableFields() && formSections == []
      ensures selectedField == None && selectedSection == None
      ensures globalFontSize == DefaultFontSize
      ensures Valid()
    {
      availableFields := AvailableFields();
      formSections := [];
      selectedField := None;
      globalFontSize := DefaultFontSize;
      selectedSection := None;
    }

    /** Start-up: a first section and a first row in section 0. */
    method NgOnInit()
      modifies this`formSections
      ensures formSections == AddRowTo(old(formSections) + [NewSection(old(formSections))], 0)
      ensures old(formSections) == [] ==> formSections == [Section("Section-1", [EmptyRow])]
      ensures old(Valid()) ==> Valid()
    {
      AddSection();
      AddRow(0);
      SeedFormIsOneEmptySection();
    }

    /** A click anywhere: one outside every section and the inspector clears both selections. */
    method OnDocumentClick(outside: bool)
      modifies this`selectedField, this`selectedSection
      ensures outside ==> selectedField == None && selectedSection == None
      ensures !outside ==> selectedField == old(selectedField) && selectedSection == old(selectedSection)
    {
      if outside {
        selectedSection := None;
        selectedField := None;
      }
    }

    /** Dragging a section to a new position in the form. */
    method DropSection(previousIndex: nat, currentIndex: nat)
      requires previousIndex < |formSections| && currentIndex < |formSections|
      modifies this`formSections
      ensures formSections == MoveItem(old(formSections), previousIndex, currentIndex)
      ensures multiset(formSections) == multiset(old(formSections))
      ensures formSections[currentIndex] == old(formSections)[previousIndex]
      ensures old(Valid()) ==> Valid()
    {
      formSections := MoveItem(formSections, previousIndex, currentIndex);
      forall k, j | 0 <= k < |formSections| && 0 <= j < |formSections[k].rows|
        ensures old(Valid()) ==> |formSections[k].rows[j].fields| <= GridColumns
      {
        if old(Valid()) {
          assert formSections[k] in multiset(old(formSections));
          var m :| 0 <= m < |old(formSections)| && old(formSections)[m] == formSections[k];
          assert |old(formSections)[m].rows[j].fields| <= GridColumns;
        }
      }
    }

    /**
     * A field dropped onto row (sectionIndex, rowIndex): reordered within the
     * row, copied in from the palette, or transferred from another row, then
     * the growth step. Returns whether the drop was refused because the row
     * already holds twelve fields (the component alerts the user then).
     */
    method DropField(event: DropEvent, sectionIndex: nat, rowIndex: nat) returns (rejected: bool)
      requires DropIsWellFormed(formSections, availableFields, event, sectionIndex, rowIndex)
      modifies this`formSections, this`selectedSection
      ensures selectedSection == Some(sectionIndex)
      ensures rejected == IsRejected(old(formSections), event, sectionIndex, rowIndex)
      ensures formSections ==
        Grown(AfterPlacement(old(formSections), availableFields, globalFontSize, event, sectionIndex, rowIndex), sectionIndex)
      ensures HasEmptyRow(formSections[sectionIndex])
      ensures exists k :: 0 <= k < |formSections| && !HasFilledRow(formSections[k])
      ensures old(Valid()) ==> Valid()
    {
      selectedSection := Some(sectionIndex);
      ghost var before := formSections;
      rejected := false;
      if event.sameContainer {
        MoveFieldWithinRow(sectionIndex, rowIndex, event.previousIndex, event.currentIndex);
      } else if event.previousContainerId == PaletteListId {
        rejected := InsertFieldFromPalette(sectionIndex, rowIndex, event.previousIndex, event.currentIndex);
      } else {
        var previous := ParseRowId(event.previousContainerId).value;
        rejected := TransferField(previous.sectionIndex, previous.rowIndex, sectionIndex, rowIndex, event.previousIndex, event.currentIndex);
      }
      if old(Valid()) {
        PlacementKeepsCapacity(before, availableFields, globalFontSize, event, sectionIndex, rowIndex);
      }
      AutoGrow(sectionIndex);
    }

    /** The reorder case of a drop: the field at `from` moves to `to` within row (s, r), which is rebalanced. */
    method MoveFieldWithinRow(s: nat, r: nat, from: nat, to: nat)
      requires ValidRow(formSections, s, r)
      requires from < |FieldsAt(formSections, s, r)| && to < |FieldsAt(formSections, s, r)|
      modifies this`formSections
      ensures formSections == WithFields(old(formSections), s, r, Rebalanced(MoveItem(FieldsAt(old(formSections), s, r), from, to)))
    {
      var row := formSections[s].rows[r];
      var balanced := AdjustColSpans(MoveItem(row.fields, from, to));
      formSections := WithFields(formSections, s, r, balanced);
    }

    /**
     * The palette case of a drop: a copy of template `templateIndex`, with the
     * global font size, is inserted at `at` in row (s, r), which is
     * rebalanced; refused, changing nothing, when the row holds twelve fields.
     */
    method InsertFieldFromPalette(s: nat, r: nat, templateIndex: nat, at: nat) returns (rejected: bool)
      requires ValidRow(formSections, s, r)
      requires templateIndex < |availableFields| && at <= |FieldsAt(formSections, s, r)|
      modifies this`formSections
      ensures rejected == (|FieldsAt(old(formSections), s, r)| >= GridColumns)
      ensures rejected ==> formSections == old(formSections)
      ensures !rejected ==> formSections == WithFields(old(formSections), s, r,
        Rebalanced(InsertAt(FieldsAt(old(formSections), s, r), at, NewFieldFrom(availableFields[templateIndex], globalFontSize))))
    {
      var row := formSections[s].rows[r];
      var newField := NewFieldFrom(availableFields[templateIndex], globalFontSize);
      rejected := |row.fields| >= GridColumns;
      if !rejected {
        var balanced := AdjustColSpans(InsertAt(row.fields, at, newField));
        formSections := WithFields(formSections, s, r, balanced);
      }
    }

    /**
     * The transfer case of a drop: the field at `from` in row (fromSection,
     * fromRow) moves to index `to` of row (s, r), and both rows are
     * rebalanced; refused, changing nothing, when the destination holds twelve
     * fields.
     */
    method TransferField(fromSection: nat, fromRow: nat, s: nat, r: nat, from: nat, to: nat) returns (rejected: bool)
      requires ValidRow(formSections, fromSection, fromRow) && ValidRow(formSections, s, r)
      requires RowRef(fromSection, fromRow) != RowRef(s, r)
      requires from < |FieldsAt(formSections, fromSection, fromRow)| && to <= |FieldsAt(formSections, s, r)|
      modifies this`formSections
      ensures rejected == (|FieldsAt(old(formSections), s, r)| >= GridColumns)
      ensures rejected ==> formSections == old(formSections)
      ensures !rejected ==>
        var source := FieldsAt(old(formSections), fromSection, fromRow);
        var emptied := WithFields(old(formSections), fromSection, fromRow, Rebalanced(RemoveAt(source, from)));
        formSections == WithFields(emptied, s, r, Rebalanced(InsertAt(FieldsAt(old(formSections), s, r), to, source[from])))
    {
      var row := formSections[s].rows[r];
      var previousRow := formSections[fromSection].rows[fromRow];
      rejected := |row.fields| >= GridColumns;
      if !rejected {
        var field := previousRow.fields[from];
        var target := AdjustColSpans(InsertAt(row.fields, to, field));
        var source := AdjustColSpans(RemoveAt(previousRow.fields, from));
        formSections := WithFields(formSections, fromSection, fromRow, source);
        assert FieldsAt(formSections, s, r) == row.fields;
        formSections := WithFields(formSections, s, r, target);
      }
    }

    /**
     * The growth step closing every field drop into section `sectionIndex`:
     * an empty row for that section when all its rows hold fields, then an
     * empty section with one empty row when every section has content.
     */
    method AutoGrow(sectionIndex: nat)
      requires sectionIndex < |formSections|
      modifies this`formSections
      ensures formSections == Grown(old(formSections), sectionIndex)
      ensures HasEmptyRow(formSections[sectionIndex])
      ensures exists k :: 0 <= k < |formSections| && !HasFilledRow(formSections[k])
      ensures old(Valid()) ==> Valid()
    {
      if EveryRowFilled(formSections[sectionIndex]) {
        AddRow(sectionIndex);
      }
      assert formSections == WithTrailingRow(old(formSections), sectionIndex);
      if AllSectionsFilled(formSections) {
        AddSection();
        AddRow(|formSections| - 1);
      }
      GrowthLeavesDropTargets(old(formSections), sectionIndex);
      if old(Valid()) {
        GrowthKeepsCapacity(old(formSections), sectionIndex);
      }
    }

    /** A click on a field selects it. */
    method SelectField(sectionIndex: nat, rowIndex: nat, fieldIndex: nat)
      modifies this`selectedField
      ensures selectedField == Some(FieldPath(sectionIndex, rowIndex, fieldIndex))
    {
      selectedField := Some(FieldPath(sectionIndex, rowIndex, fieldIndex));
    }

    /** A click on a section selects it. */
    method SelectSection(sectionIndex: nat)
      modifies this`selectedSection
      ensures selectedSection == Some(sectionIndex)
    {
      selectedSection := Some(sectionIndex);
    }

    /** Appends a section without rows, titled after the form's length minus one. */
    method AddSection()
      modifies this`formSections
      ensures formSections == old(formSections) + [NewSection(old(formSections))]
      ensures old(Valid()) ==> Valid()
    {
      formSections := formSections + [NewSection(formSections)];
    }

    /** Appends an empty row to section `sectionIndex`. */
    method AddRow(sectionIndex: nat)
      requires sectionIndex < |formSections|
      modifies this`formSections
      ensures formSections == AddRowTo(old(formSections), sectionIndex)
      ensures old(Valid()) ==> Valid()
    {
      formSections := AddRowTo(formSections, sectionIndex);
      forall k, j | 0 <= k < |formSections| && 0 <= j < |formSections[k].rows|
        ensures old(Valid()) ==> |formSections[k].rows[j].fields| <= GridColumns
      {
        if k == sectionIndex && j == |old(formSections)[k].rows| {
          assert formSections[k].rows[j] == EmptyRow;
        } else {
          assert formSections[k].rows[j] == old(formSections)[k].rows[j];
        }
      }
    }

    /**
     * Deletes the selected field, if any, and clears the field selection. A
     * row left without fields is removed, any other row is rebalanced.
     */
    method DeleteField()
      requires selectedField.Some? ==> ValidRow(formSections, selectedField.value.sectionIndex, selectedField.value.rowIndex)
      modifies this`formSections, this`selectedField
      ensures selectedField == None
      ensures old(selectedField).None? ==> formSections == old(formSections)
      ensures old(selectedField).Some? ==> formSections == AfterFieldDeletion(old(formSections), old(selectedField).value)
      ensures old(Valid()) ==> Valid()
    {
      if selectedField.Some? {
        var path := selectedField.value;
        var s, r := path.sectionIndex, path.rowIndex;
        var row := formSections[s].rows[r];
        var fields := row.fields;
        if path.fieldIndex < |fields| {
          fields := RemoveAt(fields, path.fieldIndex);
        }
        if |fields| == 0 {
          formSections := formSections[s := formSections[s].(rows := RemoveAt(formSections[s].rows, r))];
        } else {
          var balanced := AdjustColSpans(fields);
          formSections := WithFields(formSections, s, r, balanced);
        }
        selectedField := None;
        if old(Valid()) {
          FieldDeletionKeepsCapacity(old(formSections), path);
        }
      }
    }

    /**
     * Deletes the section of the selected field, if a field is selected, and
     * clears the field selection; a form left without sections is re-seeded
     * with one section holding one empty row.
     */
    method DeleteSection()
      modifies this`formSections, this`selectedField
      ensures old(selectedField).None? ==> formSections == old(formSections) && selectedField == None
      ensures old(selectedField).Some? ==>
        selectedField == None &&
        formSections == AfterSectionDeletion(old(formSections), old(selectedField).value.sectionIndex) &&
        formSections != []
      ensures old(Valid()) ==> Valid()
    {
      if selectedField.Some? {
        var sectionIndex := selectedField.value.sectionIndex;
        if sectionIndex < |formSections| {
          formSections := RemoveAt(formSections, sectionIndex);
        }
        selectedField := None;
        if |formSections| == 0 {
          AddSection();
          AddRow(0);
          assert formSections == SeedForm();
        }
        if old(Valid()) {
          SectionDeletionKeepsCapacity(old(formSections), sectionIndex);
        }
      }
    }

    /**
     * The overflow check run after a manual span edit in row (sectionIndex,
     * rowIndex): a row measuring more than twelve columns is rebalanced.
     * Returns whether it was (the component alerts the user then).
     */
    method ValidateColSpan(sectionIndex: nat, rowIndex: nat) returns (adjusted: bool)
      requires ValidRow(formSections, sectionIndex, rowIndex)
      modifies this`formSections
      ensures adjusted == (TotalColSpan(FieldsAt(old(formSections), sectionIndex, rowIndex)) > GridColumns)
      ensures formSections == WithFields(old(formSections), sectionIndex, rowIndex, Validated(FieldsAt(old(formSections), sectionIndex, rowIndex)))
      ensures old(Valid()) ==> Valid()
    {
      var row := formSections[sectionIndex].rows[rowIndex];
      var total := TotalColSpan(row.fields);
      adjusted := total > GridColumns;
      if adjusted {
        var balanced := AdjustColSpans(row.fields);
        formSections := WithFields(formSections, sectionIndex, rowIndex, balanced);
      }
      if old(Valid()) {
        CapacityKept(old(formSections), formSections, {RowRef(sectionIndex, rowIndex)});
      }
    }

    /** Gives every field of the form the global font size, field by field. */
    method ApplyGlobalFontSize()
      modifies this`formSections
      ensures formSections == Restyled(old(formSections), globalFontSize)
      ensures old(Valid()) ==> Valid()
    {
      var sections := formSections;
      var k := 0;
      while k < |sections|
        invariant 0 <= k <= |sections| == |formSections|
        invariant forall m :: 0 <= m < k ==> sections[m] == RestyledSection(formSections[m], globalFontSize)
        invariant forall m :: k <= m < |sections| ==> sections[m] == formSections[m]
      {
        var rows := sections[k].rows;
        var j := 0;
        while j < |rows|
          invariant 0 <= j <= |rows| == |formSections[k].rows|
          invariant forall m :: 0 <= m < j ==> rows[m] == RestyledRow(formSections[k].rows[m], globalFontSize)
          invariant forall m :: j <= m < |rows| ==> rows[m] == formSections[k].rows[m]
        {
          var fields := rows[j].fields;
          var i := 0;
          while i < |fields|
            invariant 0 <= i <= |fields| == |formSections[k].rows[j].fields|
            invariant forall m :: 0 <= m < i ==> fields[m] == formSections[k].rows[j].fields[m].(fontSize := Some(globalFontSize))
            invariant forall m :: i <= m < |fields| ==> fields[m] == formSections[k].rows[j].fields[m]
          {
            fields := fields[i := fields[i].(fontSize := Some(globalFontSize))];
            i := i + 1;
          }
          rows := rows[j := Row(fields)];
          j := j + 1;
        }
        sections := sections[k := sections[k].(rows := rows)];
        k := k + 1;
      }
      RestyleKeepsLayout(formSections, globalFontSize);
      formSections := sections;
    }

    /** "Add Option": appends "New Option" to the selected field's options, creating the list if it has none. */
    method AddOption()
      requires selectedField.Some? ==> ValidFieldPath(formSections, selectedField.value)
      modifies this`formSections
      ensures selectedField.None? ==> formSections == old(formSections)
      ensures selectedField.Some? ==>
        formSections == WithField(old(formSections), selectedField.value, WithOptionAdded(FieldAt(old(formSections), selectedField.value)))
      ensures old(Valid()) ==> Valid()
    {
      if selectedField.Some? {
        var path := selectedField.value;
        var field := formSections[path.sectionIndex].rows[path.rowIndex].fields[path.fieldIndex];
        field := WithOptionAdded(field);
        formSections := WithField(formSections, path, field);
        if old(Valid()) {
          CapacityKept(old(formSections), formSections, {RowRef(path.sectionIndex, path.rowIndex)});
        }
      }
    }
  }
}
