/**
 * The entities of the form builder: fields, rows and sections, the palette of
 * field templates, and the constants the component works with.
 */
module FormModel {
  import opened Optional

  /** The closed set of control kinds a field can have. */
  datatype FieldKind = Text | Checkbox | Select | Textarea | Date | Number | Radio | Input | Spacer

  datatype Appearance = Fill | Outline | Standard | Legacy

  /**
   * One form control (`caption` is the component's `label`, a reserved word here). The optional attributes are None when the field does
   * not carry them; colSpan is the number of grid columns the field occupies.
   */
  datatype Field = Field(
    kind: FieldKind,
    caption: string,
    placeholder: Option<string>,
    fontSize: Option<string>,
    options: Option<seq<string>>,
    appearance: Option<Appearance>,
    colSpan: int)

  datatype Row = Row(fields: seq<Field>)

  datatype Section = Section(title: string, rows: seq<Row>)

  /** The selected field, addressed by its path through the tree. */
  datatype FieldPath = FieldPath(sectionIndex: nat, rowIndex: nat, fieldIndex: nat)

  /** A row addressed by its section and its position in that section. */
  datatype RowRef = RowRef(sectionIndex: nat, rowIndex: nat)

  /** Width of the layout grid, and the most fields a row accepts. */
  const GridColumns: nat := 12

  const DefaultFontSize: string := "16px"

  /** The text of an option appended by the inspector's "Add Option" button. */
  const NewOptionLabel: string := "New Option"

  const EmptyRow: Row := Row([])

  /** The palette of templates, one per kind, each one column wide. */
  function AvailableFields(): (palette: seq<Field>)
    ensures |palette| == 9
    ensures forall i :: 0 <= i < |palette| ==> palette[i].colSpan == 1
    ensures forall i, j :: 0 <= i < j < |palette| ==> palette[i].kind != palette[j].kind
  {
    [ Field(Text, "Static Text", None, Some(DefaultFontSize), None, Some(Outline), 1),
      Field(Input, "Input Field", Some("Enter text"), Some(DefaultFontSize), None, Some(Outline), 1),
      Field(Textarea, "Text Area", Some("Enter more..."), Some(DefaultFontSize), None, Some(Outline), 1),
      Field(Number, "Number Field", Some("0"), Some(DefaultFontSize), None, Some(Outline), 1),
      Field(Date, "Date Picker", None, Some(DefaultFontSize), None, Some(Outline), 1),
      Field(Checkbox, "Check Option", None, Some(DefaultFontSize), None, None, 1),
      Field(Select, "Select Option", None, Some(DefaultFontSize), Some(["Option 1", "Option 2"]), Some(Outline), 1),
      Field(Radio, "Choose One", None, Some(DefaultFontSize), Some(["Yes", "No"]), None, 1),
      Field(Spacer, "Spacer", None, None, None, None, 1) ]
  }

  /**
   * A fresh field instantiated from a palette template: an independent copy
   * of the template with a one-column span and the given font size.
   */
  function NewFieldFrom(template: Field, fontSize: string): (field: Field)
    ensures field.colSpan == 1 && field.fontSize == Some(fontSize)
    ensures field.(colSpan := template.colSpan, fontSize := template.fontSize) == template
  {
    template.(colSpan := 1, fontSize := Some(fontSize))
  }

  /** The options a field lists, the empty list when it has none. */
  function OptionsOf(field: Field): seq<string>
  {
    if field.options.Some? then field.options.value else []
  }

  /**
   * The field after "Add Option": a field without an options list gets one,
   * and "New Option" is appended to it.
   */
  function WithOptionAdded(field: Field): (added: Field)
    ensures added.options.Some?
    ensures added.options.value == OptionsOf(field) + [NewOptionLabel]
    ensures added.(options := field.options) == field
  {
    field.(options := Some(OptionsOf(field) + [NewOptionLabel]))
  }
}
