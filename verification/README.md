# Form builder: a verified model of the form-tree store

This project models the state and handlers of `AppComponent` in an Angular drag-and-drop form builder.

**The form tree.** A form is a list of sections. Each section has a title and a list of rows. Each row holds fields laid out on a twelve-column grid, and every field has a kind, a caption, optional attributes and a column span. The tree is kept together with:
- a palette of nine field templates;
- the selected field, given by its path through the tree;
- the selected section;
- the global font size.

**What the model covers.**
- Dropping a field onto a row:
  - as a reorder within the row;
  - as a copy of a palette template;
  - as a transfer from another row.

  A drop from outside the row is refused when the row already holds twelve fields. Every drop is followed by an auto-growth step, which keeps an empty row and an empty section available as drop targets.
- Dragging sections into a new order.
- Deleting the selected field. A row left empty is removed.
- Deleting the section of the selected field. A form left without sections is re-seeded.
- The span balancer, which shares the twelve columns out over a row's fields.
- The span overflow check.
- Applying the global font size to every field.
- Adding an option to the selected field.
- The ids of the drop lists, `row-<section>-<row>`, and how a transfer parses them back with `split('-')` and `parseInt`.

**How it is built.** Fields, rows and sections are values (datatypes). The component is a class whose methods update its fields in place. Each method is proved against a function on the tree, and the lemmas beside those functions state what the operations guarantee. The invariant kept throughout is that no row holds more than twelve fields (`WithinCapacity`).

**Files.**
- `optional.dfy`: the `Option` type. `None` stands for JavaScript's `null`, `undefined` and `NaN`.
- `form_model.dfy`: the entities, the palette and the constants.
- `array_ops.dfy`: the list operations of the drag-and-drop library: insert, remove and move.
- `grid_balancer.dfy`: the span balancer, the total-span measure and the overflow check.
- `js_strings.dfy`: the JavaScript conversions the component relies on: number to string, `parseInt` and `split`.
- `drop_list_ids.dfy`: the drop-list ids and how they are parsed back.
- `form_tree.dfy`: the effect of each structural operation on the tree.
- `app_component.dfy`: the component class.

Behaviour of the code the model keeps:
- `deleteSection` is keyed on the section of the selected *field*. It does nothing when no field is selected, and it clears only the field selection. `selectedSection` keeps its value, which may now point past the end of the form or at a different section.
- A field is one record whose attributes are optional, as in the `FormField` interface.
- The first section is titled `Section-1`, because the title is computed from the form's length minus one before the push.
- The growth step runs even after a refused drop.
- The capacity check counts fields, not spans.
- A source row emptied by a transfer stays in its section.
- The total span counts a zero span as one column.
- A field index past the end of its row deletes no field.
- A section index past the end of the form deletes nothing.

## Model

| member | source | states |
|---|---|---|
| FormModel.AvailableFields | src/app/app.component.ts:330-340 | The palette holds nine templates, one per distinct kind, each one column wide |
| FormModel.NewFieldFrom | src/app/app.component.ts:391 | A field dropped from the palette is the template with span 1 and the global font size, every other attribute copied |
| FormModel.WithOptionAdded | src/app/app.component.ts:516-519 | Add Option gives the field an options list if it has none and appends "New Option" to it; no other attribute changes |
| ArrayOps.InsertAt | src/app/app.component.ts:395 | Splice-insert: the item sits at the index, earlier items keep their index, later ones shift up by one, and the multiset gains exactly the item |
| ArrayOps.RemoveAt | src/app/app.component.ts:454 | Splice-remove: items after the index shift down by one, earlier ones stay, and the multiset loses exactly the removed item |
| ArrayOps.MoveItem | src/app/app.component.ts:379-381 | moveItemInArray: same length, same multiset, and the moved item ends at the target index |
| ArrayOps.MoveItemInPlace | src/app/app.component.ts:387 | Moving an item onto its own index changes nothing |
| ArrayOps.MoveItemKeepsOutside | src/app/app.component.ts:387 | Items outside the range between source and target index keep their position |
| GridBalancer.SpanFor | src/app/app.component.ts:496-499 | The span of field i among n: floor(12/n), plus one when i < 12 mod n; BalancedSpansNearlyEqual and BalancedRowFillsGrid state what these spans add up to |
| GridBalancer.Rebalanced | src/app/app.component.ts:493-501 | Balancing keeps the number, order and all non-span attributes of the fields; field i gets floor(12/n) plus one exactly when i < 12 mod n; an empty row stays empty |
| GridBalancer.AdjustColSpans | src/app/app.component.ts:493-501 | The in-place loop over the fields computes exactly the balanced row |
| GridBalancer.BalancedPrefixSum | src/app/app.component.ts:496-500 | The first k balanced spans sum to k*floor(12/n) + min(k, 12 mod n) |
| GridBalancer.DivisionOfTheGrid | src/app/app.component.ts:496-497 | n*floor(12/n) + min(n, 12 mod n) is 12 |
| GridBalancer.BalancedRowFillsGrid | src/app/app.component.ts:493-501 | The spans of a balanced non-empty row sum to exactly 12 |
| GridBalancer.BalancedSpansNearlyEqual | src/app/app.component.ts:496-500 | Balanced spans differ by at most one |
| GridBalancer.BalancedSpansWithinGrid | src/app/app.component.ts:496-500 | With at most 12 fields every balanced span is between 1 and 12; with more, the fields from index 12 on get span 0 |
| GridBalancer.RebalancedDeterminedByFields | src/app/app.component.ts:498-500 | The balanced row is the only row with the same fields and balanced spans, so balancing twice is balancing once |
| GridBalancer.FiveFieldSpans | src/app/app.component.ts:496-500 | Five fields are given spans 3, 3, 2, 2, 2 |
| GridBalancer.TotalColSpan | src/app/app.component.ts:480-482 | getTotalColSpan: with no negative span, every field counts for at least one column; TotalColSpanCountsZeroAsOne relates it to the true sum |
| GridBalancer.TotalColSpanCountsZeroAsOne | src/app/app.component.ts:480-482 | The total span is the sum of the spans plus one for every zero span |
| GridBalancer.NoZeroSpans | src/app/app.component.ts:481 | A row without zero spans adds no correction to its total |
| GridBalancer.RebalancedRowMeasuresTwelve | src/app/app.component.ts:480-501 | A balanced row of 1 to 12 fields has a total span of exactly 12 |
| GridBalancer.Validated | src/app/app.component.ts:484-491 | The overflow check leaves a row with total span at most 12 unchanged, otherwise balances it; only spans change, and a row of at most 12 fields ends at total span at most 12 |
| JsStrings.NatToString | src/app/app.component.ts:362 | A number's decimal text is a non-empty digit string without leading zero |
| JsStrings.IntToString | src/app/app.component.ts:440 | A number's text starts with '-' exactly when the number is negative |
| JsStrings.SmallNumbersText | src/app/app.component.ts:440 | 0 and -1 are written "0" and "-1" |
| JsStrings.DigitsValueOfNatToString | src/app/app.component.ts:362 | Reading the decimal text of a number gives the number back |
| JsStrings.DigitPrefixLength | src/app/app.component.ts:400-401 | parseInt reads the longest prefix of digits |
| JsStrings.ParseInt | src/app/app.component.ts:400-401 | parseInt is NaN exactly when the text is empty or does not start with a digit |
| JsStrings.DigitPrefixOfDigits | src/app/app.component.ts:400-401 | An all-digit text is read in full |
| JsStrings.ParseIntOfNatToString | src/app/app.component.ts:400-401 | parseInt of a number's text is that number |
| JsStrings.Split | src/app/app.component.ts:399 | split yields at least one part and no part contains the separator |
| JsStrings.JoinSplit | src/app/app.component.ts:399 | Joining the parts with the separator gives back the text |
| JsStrings.SplitAtFirstSeparator | src/app/app.component.ts:399 | split cuts at the first separator and splits the rest |
| JsStrings.SplitWithoutSeparator | src/app/app.component.ts:399 | A text without separator splits into itself |
| DropListIds.RowId | src/app/app.component.ts:362 | A row's drop-list id; ParseRowIdOfRowId and RowIdInjective show it names exactly that row |
| DropListIds.ParseRowId | src/app/app.component.ts:399-401 | The row a transfer's source id names, pieces 1 and 2 after split('-') read with parseInt; None when either is NaN or there are fewer than three pieces; PaletteIdIsNoRowId and ParseRowIdOfRowId pin it down |
| DropListIds.RowDropListIds | src/app/app.component.ts:360-364 | rowDropListIds: one id per row, section by section; the lemmas below state it is complete, exact and duplicate-free |
| DropListIds.AllDropListIds | src/app/app.component.ts:366-368 | allDropListIds: the palette's id followed by the row ids; DropListIdsDistinct states no two coincide |
| DropListIds.ParseRowIdOfRowId | src/app/app.component.ts:399-401 | Parsing a row's drop-list id gives back its section and row index |
| DropListIds.RowIdInjective | src/app/app.component.ts:362 | Distinct rows have distinct drop-list ids |
| DropListIds.PaletteIdIsNoRowId | src/app/app.component.ts:367 | The palette's id is no row's id and does not parse as one |
| DropListIds.RowRefsUpToValid | src/app/app.component.ts:360-364 | The listing of rows names only existing rows |
| DropListIds.RowRefsUpToComplete | src/app/app.component.ts:360-364 | The listing names every row of the form |
| DropListIds.RowRefsUpToDistinct | src/app/app.component.ts:360-364 | The listing names no row twice |
| DropListIds.RowDropListIdsAt | src/app/app.component.ts:360-364 | The i-th row drop-list id is the id of the i-th listed row, an existing row |
| DropListIds.EveryRowHasDropTarget | src/app/app.component.ts:360-368 | Every row's id is among the row ids and among all drop-list ids |
| DropListIds.RowTargetsNameRows | src/app/app.component.ts:360-364 | Every row drop-list id parses to an existing row |
| DropListIds.RowDropListIdsDistinct | src/app/app.component.ts:360-364 | No two rows share a drop-list id |
| DropListIds.DropListIdsDistinct | src/app/app.component.ts:366-368 | All drop-list ids, the palette's included, are distinct |
| FormTree.WithFields | src/app/app.component.ts:385-388 | Updating a row's fields changes that row only and keeps the tree's shape |
| FormTree.CapacityKept | src/app/app.component.ts:392-405 | If only rows that end with at most twelve fields change, the tree stays within capacity |
| FormTree.AddRowTo | src/app/app.component.ts:443-445 | addRow on the tree: one empty row appended to the section; GrowthKeepsCapacity and AddRow use it |
| FormTree.NewSection | src/app/app.component.ts:439-441 | addSection's section: no rows, titled "Section" followed by the form's length minus one; SeedFormIsOneEmptySection and GrowthExample fix the first titles |
| FormTree.WithTrailingRow | src/app/app.component.ts:419-421 | The first growth step appends one empty row exactly when every row of the section holds a field, leaving the section with an empty row and touching nothing else |
| FormTree.Grown | src/app/app.component.ts:418-427 | The growth step; GrowthOnlyAppends, GrowthLeavesDropTargets and GrowthIsIdempotent state what it appends, when, and that it leaves drop targets |
| FormTree.TrailingRowKeepsFilledSections | src/app/app.component.ts:419-424 | Appending an empty row does not change whether every section has a filled row, so the section step sees the same answer as before the row step |
| FormTree.GrowthIsIdempotent | src/app/app.component.ts:418-427 | Growing a grown form again changes nothing |
| FormTree.GrowthLeavesDropTargets | src/app/app.component.ts:418-427 | After growth the active section has an empty row and some section has no filled row |
| FormTree.GrowthOnlyAppends | src/app/app.component.ts:418-427 | Growth only appends: one empty row to the active section exactly when all its rows hold fields, and one last section holding exactly one empty row exactly when every section has a filled row; nothing else changes |
| FormTree.GrowthKeepsCapacity | src/app/app.component.ts:418-427 | Growth keeps every row within capacity |
| FormTree.GrowthExample | src/app/app.component.ts:418-427 | A one-section form with one filled row grows an empty row and a section "Section0" with one empty row |
| FormTree.IsRejected | src/app/app.component.ts:392-405 | A drop is refused exactly when it comes from another list and the row already holds twelve fields, whatever the spans; DropField reports it |
| FormTree.AfterPlacement | src/app/app.component.ts:386-416 | The tree after the three drop branches; ReorderKeepsRowFields, PaletteInsertAddsOneField, TransferIsAtomic and PlacementKeepsCapacity state its effect |
| FormTree.ReorderKeepsRowFields | src/app/app.component.ts:386-388 | A reorder keeps the row's length and multiset of fields, puts the dragged field at the drop index, rebalances the row, and changes no other row |
| FormTree.PaletteInsertAddsOneField | src/app/app.component.ts:389-397 | Onto a full row nothing changes; otherwise the row gains exactly one field at the drop index, a copy of the template with the global font size, the row is balanced to 12 columns, and no other row changes |
| FormTree.TransferIsAtomic | src/app/app.component.ts:398-415 | Onto a full row nothing changes; otherwise the source row loses exactly the dragged field, the destination gains it at the drop index, the fields of both rows together are conserved, both rows are balanced, and no other row changes |
| FormTree.TransferKeepsCapacity | src/app/app.component.ts:404-415 | An accepted transfer keeps every row within capacity |
| FormTree.PlacementKeepsCapacity | src/app/app.component.ts:386-416 | No drop makes a row hold more than twelve fields |
| FormTree.SectionDropCanLeaveSelectionStale | src/app/app.component.ts:379-381 | Dragging a section keeps the selected path, which can then name no row: the component reaches a stale selection on its own |
| FormTree.TransferCanLeaveSelectionStale | src/app/app.component.ts:398-415 | Transferring the selected field away leaves its path past the end of the kept source row |
| FormTree.AfterFieldDeletion | src/app/app.component.ts:451-461 | The tree after deleteField; FieldDeletionRemovesExactlyOne, StaleFieldDeletionRemovesNoField and FieldDeletionKeepsCapacity state its effect |
| FormTree.FieldDeletionRemovesExactlyOne | src/app/app.component.ts:451-461 | Deleting a field removes exactly that field; its row is removed when it was the last field, otherwise it keeps its other fields in order and is balanced to 12 columns; other sections are untouched |
| FormTree.StaleFieldDeletionRemovesNoField | src/app/app.component.ts:453-459 | A field index past the end of the row deletes no field: an empty row is still removed, any other row only rebalanced |
| FormTree.FieldDeletionKeepsCapacity | src/app/app.component.ts:451-461 | Deleting a field keeps every row within capacity |
| FormTree.ShorterRowKeepsCapacity | src/app/app.component.ts:454-458 | A row that keeps at most its old number of fields stays within capacity |
| FormTree.RowRemovalKeepsCapacity | src/app/app.component.ts:455-456 | Removing a row keeps every other row, so capacity is kept |
| FormTree.SeedForm | src/app/app.component.ts:370-373 | The form ngOnInit and deleteSection start from: a new section with one empty row; SeedFormIsOneEmptySection gives it exactly |
| FormTree.SeedFormIsOneEmptySection | src/app/app.component.ts:370-373 | The seed form is one section "Section-1" holding one empty row |
| FormTree.AfterSectionDeletion | src/app/app.component.ts:468-476 | Deleting a section leaves at least one section: it removes exactly that section, nothing for an index past the end, and re-seeds a form it would empty |
| FormTree.SectionDeletionKeepsCapacity | src/app/app.component.ts:468-476 | Deleting a section keeps every row within capacity |
| FormTree.Restyled | src/app/app.component.ts:503-511 | Every field of the tree with the given font size; RestyleKeepsLayout and RestyleLastWins state its effect |
| FormTree.RestyleKeepsLayout | src/app/app.component.ts:503-511 | Restyling keeps the tree's shape and every field except its font size, which becomes the global one |
| FormTree.RestyleLastWins | src/app/app.component.ts:503-511 | Applying two font sizes in turn is applying the later one |
| FormTree.WithField | src/app/app.component.ts:515-519 | Updating one field changes that field only and keeps its row's length |
| App.AppComponent.constructor | src/app/app.component.ts:330-348 | The component starts with the palette, an empty form, no selection and font size 16px |
| App.AppComponent.NgOnInit | src/app/app.component.ts:370-373 | Start-up appends a section and a row to section 0; from an empty form that is the seed form |
| App.AppComponent.OnDocumentClick | src/app/app.component.ts:352-358 | A click outside the sections and the inspector clears both selections; any other click changes nothing |
| App.AppComponent.DropSection | src/app/app.component.ts:379-381 | Dragging a section moves it to the drop index and keeps the multiset of sections and the capacity invariant |
| App.AppComponent.DropField | src/app/app.component.ts:383-429 | A drop selects the section, reports refusal exactly when a foreign field meets a full row, places the field, grows the form, leaves an empty row in the section and an empty section, and keeps the capacity invariant |
| App.AppComponent.MoveFieldWithinRow | src/app/app.component.ts:386-388 | The reorder branch moves the field and balances the row |
| App.AppComponent.InsertFieldFromPalette | src/app/app.component.ts:389-397 | The palette branch is refused exactly on a full row, changing nothing; otherwise it inserts the new field and balances the row |
| App.AppComponent.TransferField | src/app/app.component.ts:398-415 | The transfer branch is refused exactly on a full destination, changing nothing; otherwise it moves the field and balances both rows |
| App.AppComponent.AutoGrow | src/app/app.component.ts:418-427 | The growth step leaves an empty row in the section and an empty section, and keeps the capacity invariant |
| App.AppComponent.SelectField | src/app/app.component.ts:431-433 | Selecting a field records its path |
| App.AppComponent.SelectSection | src/app/app.component.ts:435-437 | Selecting a section records its index |
| App.AppComponent.AddSection | src/app/app.component.ts:439-441 | Appends one section without rows, titled after the old length minus one |
| App.AppComponent.AddRow | src/app/app.component.ts:443-445 | Appends one empty row to the section and keeps the capacity invariant |
| App.AppComponent.DeleteField | src/app/app.component.ts:447-462 | Without a selection nothing changes; otherwise the selected field is deleted as above; the field selection is cleared and capacity is kept |
| App.AppComponent.DeleteSection | src/app/app.component.ts:464-477 | Without a selected field nothing changes; otherwise that field's section is deleted, the form is never left empty, the field selection is cleared and capacity is kept |
| App.AppComponent.ValidateColSpan | src/app/app.component.ts:484-491 | Reports overflow exactly when the row's total span exceeds 12, and then balances the row; otherwise the row is unchanged |
| App.AppComponent.ApplyGlobalFontSize | src/app/app.component.ts:503-511 | The nested loops give every field the global font size and change nothing else |
| App.AppComponent.AddOption | src/app/app.component.ts:513-521 | Without a selection nothing changes; otherwise the selected field gains "New Option" at the end of its options and the rest of the tree is unchanged |

## Left out

- The Angular template, the styles, the decorators and the module wiring are not modelled. This includes the `ngModel` bindings through which the inspector edits captions, spans and the font size; those edits appear only as the state the handlers read.
- The DOM walk of `onDocumentClick` is left out. It becomes a boolean parameter saying whether the click landed outside every section and the inspector.
- The `alert` calls are browser I/O. The two refusals and the overflow are returned as flags instead.
- `event.stopPropagation()` in the delete handlers is browser event plumbing and is not modelled.
- `preventDropToAvailable` (always false) is not a member. The palette accepts no drop, so the destination of `DropField` is always a row.
- The JSON deep copy of a palette template becomes a value copy, because the model has no object identity. For the same reason, aliasing between a template and a field, or between rows, is not modelled.
- The open index signature on a field is left out. The model has only the named attributes.
- A span that is `NaN`, `null` or fractional is left out. Spans are integers. `getTotalColSpan` counts a zero span as one column, as the `||` does.
- `parseInt` is modelled only for what drop-list ids contain. Leading whitespace, signs and radix prefixes are not modelled.
- App.AppComponent.DropField: requires indices inside the lists, where the drag-and-drop library would clamp them. It requires a transfer's source id to name an existing row, because the code throws on a missing one. A source equal to the destination is the library's same-container case, the reorder branch.
- App.AppComponent.DropSection: requires both indices inside the form, where the drag-and-drop library would clamp them.
- App.AppComponent.DeleteField: requires the selected row to exist, because the code throws on a missing section or row. The component's own handlers reach that state: dragging a section keeps the selected path (FormTree.SectionDropCanLeaveSelectionStale), so the throw is not modelled. A field index past the end is modelled.
- App.AppComponent.AddOption: requires the selected field to exist, because the code throws on a missing one. The component's own handlers reach that state: a section drag (FormTree.SectionDropCanLeaveSelectionStale) or a transfer of the selected field (FormTree.TransferCanLeaveSelectionStale) leaves the path stale, so the throw is not modelled.
- App.AppComponent.ValidateColSpan: requires the row to exist, because the code throws on a missing one.
- App.AppComponent.AddRow: requires the section to exist, because the code throws on a missing one.
