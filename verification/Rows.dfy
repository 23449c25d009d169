/** The rows of the values table (service/values_types.go). */
module Rows {
  datatype RowKind = LeafRow | SectionRow | CommentRow

  datatype Row = Row(key: string, value: string, typ: string, comment: string, kind: RowKind) {
    predicate IsComment() {
      kind == CommentRow
    }

    predicate IsSection() {
      kind == SectionRow || (value == "" && (typ == "map" || typ == "list"))
    }

    predicate IsFocusable() {
      !IsSection() && !IsComment()
    }
  }
}
