/** The unscoped response listing (app/routes/responses.jsx): every stored
    response of every shop, newest first. */
module ResponsesRoute {
  import opened Wrappers
  import opened Json
  import opened Ordering
  import opened Store
  import opened ResponseRows

  datatype Reply =
    | Rows(rows: seq<Row>)  // 200
    | Failed                // 500 { error: "Failed to fetch responses" }

  /** One response shaped for the page: its form's title (a response
      without its form throws) and `Email` before `email`. */
  function RowOf(fs: seq<Form>, x: Response): (r: Option<Row>)
    ensures r.None? <==> FindForm(fs, x.formId).None?
    ensures r.Some? ==>
      && r.value.id == x.id && r.value.formId == x.formId && r.value.answers == x.answers
      && r.value.createdAt == x.createdAt
      && r.value.formTitle == FindForm(fs, x.formId).value.title
      && r.value.email == Email(x.answers, "Email", "email")
  {
    match OwnerOf(fs, x)
    case None => None
    case Some(f) => Some(Row(x.id, x.formId, f.title, x.answers, Email(x.answers, "Email", "email"), x.createdAt))
  }

  /** `responses.map(...)`, which throws at the first response without a form. */
  function AllRows(fs: seq<Form>, xs: seq<Response>): (r: Option<seq<Row>>)
    ensures r.Some? <==> forall x :: x in xs ==> FindForm(fs, x.formId).Some?
    ensures r.Some? ==> |r.value| == |xs| && forall i :: 0 <= i < |xs| ==> Some(r.value[i]) == RowOf(fs, xs[i])
  {
    if xs == [] then Some([])
    else
      var head, tail := RowOf(fs, xs[0]), AllRows(fs, xs[1..]);
      assert forall x :: x in xs <==> x == xs[0] || x in xs[1..];
      if head.None? || tail.None? then None else Some([head.value] + tail.value)
  }

  /** The loader: all responses, newest first (database call 0), one row
      each. With the foreign key in place no response lacks its form, so
      the listing only fails when the database does. */
  method Loader(db: Database, fault: Fault) returns (reply: Reply)
    requires db.Valid()
    ensures FailsOn(fault, 0) <==> reply == Failed
    ensures reply.Rows? ==>
      var listed := SortNewestFirst(db.responses, ResponseCreatedAt);
      && |reply.rows| == |listed| == |db.responses|
      && NewestFirst(reply.rows, RowCreatedAt)
      && forall i :: 0 <= i < |listed| ==> Some(reply.rows[i]) == RowOf(db.forms, listed[i])
  {
    var found := db.ListResponses(FailsOn(fault, 0));
    if found.Failure? {
      return Failed;
    }
    forall x | x in found.value ensures FindForm(db.forms, x.formId).Some? {
      assert x in multiset(found.value);
    }
    var rows := AllRows(db.forms, found.value);
    assert |found.value| == |db.responses| by {
      assert |multiset(found.value)| == |multiset(db.responses)|;
    }
    forall i, j | 0 <= i < j < |rows.value| ensures RowCreatedAt(rows.value[i]) >= RowCreatedAt(rows.value[j]) {
      assert ResponseCreatedAt(found.value[i]) >= ResponseCreatedAt(found.value[j]);
    }
    return Rows(rows.value);
  }
}
