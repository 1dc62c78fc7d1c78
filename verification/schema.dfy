/** The question schema shared by the editor, the public form and the
    storefront renderer. */
module Schema {

  /** One field definition of a form. `kind` is the source's `type`
      ("short", "paragraph", "multiple", "checkboxes", "select", "email", ...);
      it stays a string because the renderer passes unknown kinds through. */
  datatype Question = Question(
    id: string,
    text: string,
    kind: string,
    options: seq<string>,
    required: bool,
    visible: bool,
    placeholder: string)

  /** No two questions share an id. */
  predicate UniqueIds(qs: seq<Question>) {
    forall i, j :: 0 <= i < j < |qs| ==> qs[i].id != qs[j].id
  }
}
