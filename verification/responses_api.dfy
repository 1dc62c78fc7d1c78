/** The admin listing of one shop's responses (app/routes/api.responses.jsx). */
module ResponsesApi {
  import opened Wrappers
  import opened Json
  import opened Http
  import opened Ordering
  import opened Store
  import opened ResponseRows

  datatype Reply =
    | Rows(rows: seq<Row>, headers: seq<(string, string)>)  // 200
    | Failed                          // 500 { error: "Failed to fetch responses" }

  const NoStore: seq<(string, string)> := [("Cache-Control", "no-store")]

  /** One response shaped for the page: the joined form's title, or
      "Untitled Form" without a form, and `email` before `Email`. */
  function ShopRow(fs: seq<Form>, x: Response): (r: Row)
    ensures r.id == x.id && r.formId == x.formId && r.answers == x.answers && r.createdAt == x.createdAt
    ensures FindForm(fs, x.formId).Some? ==> r.formTitle == FindForm(fs, x.formId).value.title
    ensures FindForm(fs, x.formId).None? ==> r.formTitle == "Untitled Form"
    ensures r.email == Email(x.answers, "email", "Email")
  {
    var title := match OwnerOf(fs, x) case Some(f) => f.title case None => "Untitled Form";
    Row(x.id, x.formId, title, x.answers, Email(x.answers, "email", "Email"), x.createdAt)
  }

  /** `responses.map(...)`: one row per response, in the same order. */
  function ShopRows(fs: seq<Form>, xs: seq<Response>): (r: seq<Row>)
    ensures |r| == |xs|
    ensures forall i :: 0 <= i < |xs| ==> r[i] == ShopRow(fs, xs[i])
  {
    if xs == [] then [] else [ShopRow(fs, xs[0])] + ShopRows(fs, xs[1..])
  }

  /** Shaping keeps the order of the responses' timestamps. */
  lemma ShopRowsKeepOrder(fs: seq<Form>, xs: seq<Response>)
    requires NewestFirst(xs, ResponseCreatedAt)
    ensures NewestFirst(ShopRows(fs, xs), RowCreatedAt)
  {
    var r := ShopRows(fs, xs);
    forall i, j | 0 <= i < j < |r| ensures RowCreatedAt(r[i]) >= RowCreatedAt(r[j]) {
      assert ResponseCreatedAt(xs[i]) >= ResponseCreatedAt(xs[j]);
    }
  }

  /** The loader for the signed-in shop (`None` when the session or its
      shop is missing, which throws inside the `try`). Only responses to the
      shop's forms are listed, newest first (database call 0); every listed
      row names its own form's title. */
  method Loader(db: Database, shop: Option<string>, fault: Fault) returns (reply: Reply)
    ensures !Given(shop) || FailsOn(fault, 0) ==> reply == Failed
    ensures Given(shop) && !FailsOn(fault, 0) ==>
      var listed := SortNewestFirst(ResponsesOfShop(db.forms, db.responses, shop.value), ResponseCreatedAt);
      && reply.Rows? && reply.headers == NoStore
      && reply.rows == ShopRows(db.forms, listed)
      && NewestFirst(reply.rows, RowCreatedAt)
      && (forall x :: x in listed <==> x in db.responses && OwnerOf(db.forms, x).Some? && OwnerOf(db.forms, x).value.shop == shop)
      && (forall i :: 0 <= i < |reply.rows| ==>
            FindForm(db.forms, reply.rows[i].formId).Some?
            && FindForm(db.forms, reply.rows[i].formId).value.shop == shop
            && reply.rows[i].formTitle == FindForm(db.forms, reply.rows[i].formId).value.title)
  {
    if !Given(shop) {
      return Failed;
    }
    var found := db.ListResponsesOfShop(shop.value, FailsOn(fault, 0));
    if found.Failure? {
      return Failed;
    }
    ShopRowsKeepOrder(db.forms, found.value);
    var rows := ShopRows(db.forms, found.value);
    assert forall i :: 0 <= i < |rows| ==> found.value[i] in found.value;
    return Rows(rows, NoStore);
  }
}
