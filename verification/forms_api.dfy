/** The admin JSON API for forms (app/routes/api.forms.jsx): list every form,
    newest first, and create one. Questions are stored as JSON text and
    handed back parsed. */
module FormsApi {
  import opened Wrappers
  import opened Json
  import opened Http
  import opened Ordering
  import opened Store

  datatype Reply =
    | Listed(forms: seq<Form>)  // 200
    | Created(form: Form)       // 201
    | BadRequest                // 400 { error: "Missing title or questions" }
    | Crashed(cause: Cause)     // 500 { error: err.message }

  function Status(r: Reply): nat {
    match r
    case Listed(_) => 200
    case Created(_) => 201
    case BadRequest => 400
    case Crashed(_) => 500
  }

  /** A form as the API hands it out: its questions parsed when they are JSON text. */
  function WithParsedQuestions(c: Codec, f: Form): (r: Form)
    ensures r.id == f.id && r.shop == f.shop && r.title == f.title && r.settings == f.settings
    ensures r.status == f.status && r.createdAt == f.createdAt
    ensures !f.questions.JStr? ==> r == f
  {
    f.(questions := ParseIfString(c, f.questions))
  }

  /** `forms.map(...)` with the normalisation above. */
  function ParsedListing(c: Codec, fs: seq<Form>): (r: seq<Form>)
    ensures |r| == |fs|
    ensures forall i :: 0 <= i < |fs| ==> r[i] == WithParsedQuestions(c, fs[i])
  {
    if fs == [] then [] else [WithParsedQuestions(c, fs[0])] + ParsedListing(c, fs[1..])
  }

  /** GET: every stored form, newest first, questions parsed; a failing
      database call (call 0) is a 500. */
  method Loader(db: Database, c: Codec, fault: Fault) returns (reply: Reply)
    ensures FailsOn(fault, 0) ==> reply == Crashed(Db(Unavailable))
    ensures !FailsOn(fault, 0) ==>
      && reply.Listed?
      && |reply.forms| == |db.forms|
      && NewestFirst(reply.forms, FormCreatedAt)
      && reply.forms == ParsedListing(c, SortNewestFirst(db.forms, FormCreatedAt))
  {
    var all := db.ListForms(FailsOn(fault, 0));
    if all.Failure? {
      return Crashed(Db(all.error));
    }
    reply := Listed(ParsedListing(c, all.value));
    assert |all.value| == |db.forms| by {
      assert |multiset(all.value)| == |multiset(db.forms)|;
    }
  }

  /** Every stored form is in the listing, in its parsed form. */
  lemma {:induction false} ListingShowsEveryForm(c: Codec, fs: seq<Form>, f: Form)
    requires f in fs
    ensures WithParsedQuestions(c, f) in ParsedListing(c, SortNewestFirst(fs, FormCreatedAt))
  {
    var sorted := SortNewestFirst(fs, FormCreatedAt);
    SortedHasSameRows(fs, FormCreatedAt, f);
    var i :| 0 <= i < |sorted| && sorted[i] == f;
    assert ParsedListing(c, sorted)[i] == WithParsedQuestions(c, f);
  }

  /** What the create call stores for `questions`: JSON text as given, any
      other value stringified. */
  function StoredQuestions(c: Codec, q: Json): (r: Json)
    ensures r.JStr?
    ensures q.JStr? ==> r == q
  {
    if q.JStr? then q else JStr(c.stringify(q))
  }

  /** Storing questions and handing them back parsed returns what the client
      sent, unless it sent JSON text, which comes back parsed. */
  lemma StoredQuestionsRoundTrip(c: Codec, q: Json)
    requires Lawful(c)
    ensures ParseIfString(c, StoredQuestions(c, q)) == if q.JStr? then ParseIfString(c, q) else q
  {
    if !q.JStr? {
      ParseStringified(c, q);
    }
  }

  /** The form row that POST creates, or the reply when the request is
      refused before or by the create call's argument checks. `title` must be
      a string, `shop` a string or missing or null, `status` a string or
      missing or null (then "Active"). */
  function NewForm(c: Codec, req: Request, freshId: string, now: int): (r: Result<Form, Reply>)
    ensures req.jsonBody.None? ==> r == Failure(Crashed(Unreadable))
    ensures req.jsonBody.Some? ==>
      var d := req.jsonBody.value;
      (r == Failure(BadRequest) <==> !Truthy(Some(d)) || !Truthy(Get(d, "title")) || !Truthy(Get(d, "questions")))
    ensures r.Failure? ==> r.error in {BadRequest, Crashed(Unreadable), Crashed(Db(InvalidArgument))}
    ensures req.jsonBody.Some? && r != Failure(BadRequest) ==>
      var d := req.jsonBody.value;
      var shop, status := Coalesce(Get(d, "shop"), JNull), Coalesce(Get(d, "status"), JStr("Active"));
      (r.Success? <==>
        Get(d, "title").Some? && Get(d, "title").value.JStr? && (shop.JNull? || shop.JStr?) && status.JStr?)
    ensures r.Success? ==>
      var d := req.jsonBody.value;
      && Get(d, "title") == Some(JStr(r.value.title)) && r.value.title != ""
      && r.value.questions == StoredQuestions(c, Get(d, "questions").value)
      && (r.value.shop.None? <==> Coalesce(Get(d, "shop"), JNull) == JNull)
      && (r.value.shop.Some? ==> Get(d, "shop") == Some(JStr(r.value.shop.value)))
      && (Coalesce(Get(d, "status"), JNull) == JNull ==> r.value.status == "Active")
      && (Coalesce(Get(d, "status"), JNull) != JNull ==> Get(d, "status") == Some(JStr(r.value.status)))
      && r.value.id == freshId && r.value.createdAt == now && r.value.settings.None?
  {
    if req.jsonBody.None? then Failure(Crashed(Unreadable))
    else
      var d := req.jsonBody.value;
      var title, questions := Get(d, "title"), Get(d, "questions");
      if !Truthy(Some(d)) || !Truthy(title) || !Truthy(questions) then Failure(BadRequest)
      else
        var shop, status := Coalesce(Get(d, "shop"), JNull), Coalesce(Get(d, "status"), JStr("Active"));
        if !title.value.JStr? || !(shop.JNull? || shop.JStr?) || !status.JStr? then
          Failure(Crashed(Db(InvalidArgument)))
        else
          Success(Form(
            id := freshId,
            shop := if shop.JStr? then Some(shop.s) else None,
            title := title.value.s,
            questions := StoredQuestions(c, questions.value),
            settings := None,
            status := status.s,
            createdAt := now))
  }

  /** POST: create the form (database call 0) and hand it back with its
      questions parsed. */
  method Action(db: Database, c: Codec, req: Request, fault: Fault, freshId: string, now: int) returns (reply: Reply)
    requires db.Valid()
    modifies db
    ensures db.Valid()
    ensures db.responses == old(db.responses)
    ensures NewForm(c, req, freshId, now).Failure? ==> reply == NewForm(c, req, freshId, now).error && unchanged(db)
    ensures NewForm(c, req, freshId, now).Success? ==>
      var f := NewForm(c, req, freshId, now).value;
      && (reply.Created? <==> !FailsOn(fault, 0) && FindForm(old(db.forms), freshId).None?)
      && (reply.Created? ==> reply.form == WithParsedQuestions(c, f) && db.forms == old(db.forms) + [f])
      && (!reply.Created? ==> reply.Crashed? && db.forms == old(db.forms))
  {
    var made := NewForm(c, req, freshId, now);
    if made.Failure? {
      return made.error;
    }
    var created := db.CreateForm(made.value, FailsOn(fault, 0));
    if created.Failure? {
      return Crashed(Db(created.error));
    }
    return Created(WithParsedQuestions(c, created.value));
  }

  /** Under a lawful codec a created form is handed back with the questions
      the client sent, parsed once more only when they were JSON text. */
  lemma CreatedEchoesQuestions(c: Codec, req: Request, freshId: string, now: int)
    requires Lawful(c)
    requires NewForm(c, req, freshId, now).Success?
    ensures
      var q := Get(req.jsonBody.value, "questions").value;
      WithParsedQuestions(c, NewForm(c, req, freshId, now).value).questions == if q.JStr? then ParseIfString(c, q) else q
  {
    StoredQuestionsRoundTrip(c, Get(req.jsonBody.value, "questions").value);
  }
}
