/** The records the component works on: the columns of an instructor's
    dossier list, the active filters on them, and what rendering can raise. */
module FilterTypes {

  /** Which of the column predicates holds, in the order the formatter tests
      them: `type_de_champ?` (a column backed by a form field, identified
      across revisions by its stable id), `dossier_state?`,
      `groupe_instructeur?`, `dossier_labels?`, or none of these. */
  datatype ColumnKind =
    | TypeDeChampColumn(stableId: int)
    | DossierStateColumn
    | GroupeInstructeurColumn
    | DossierLabelsColumn
    | OtherColumn

  /** A filterable column: its id (unique within a list view), its label, its
      kind, and `column.type`, the name of its value type (`"date"`,
      `"text"`, ...). The value type is kept apart from the kind because a
      field-backed column has one too; the formatter only looks at it when
      no kind predicate holds. */
  datatype Column = Column(id: string, columnLabel: string, kind: ColumnKind, valueType: string)

  /** An active filter: a column and the raw value submitted for it. Several
      filters may share a column. */
  datatype Filter = Filter(column: Column, value: string)

  /** The column value type the formatter sends through the date parser. */
  const DateType: string := "date"

  /** What formatting a filter's value can raise. `TypeDeChampNotFound`: no
      field definition with the column's stable id is attached to the
      procedure, so the formatter calls `dynamic_type` on nil.
      `LabelNotFound`: `Label.find` found no label for the raw value. */
  datatype RenderError =
    | TypeDeChampNotFound(stableId: int)
    | LabelNotFound(id: string)

  /** Two filters are equal when they name the same column id and the same
      raw value. */
  predicate SameFilter(a: Filter, b: Filter) {
    a.column.id == b.column.id && a.value == b.value
  }
}
