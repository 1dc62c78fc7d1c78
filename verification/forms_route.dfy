/** The storefront-facing form listing and the editor's save endpoint
    (app/routes/forms.jsx). Neither handler catches: a failure propagates to
    the framework, which answers with its error page. */
module FormsRoute {
  import opened Wrappers
  import opened Json
  import opened Http
  import opened Ordering
  import opened Store

  datatype Reply =
    | Forms(forms: seq<Form>)  // the JSON list
    | Saved(form: Form)        // the upserted row
    | Thrown(cause: Cause)     // escapes the handler

  /** GET `?shop=`: no shop gives the empty list without touching the
      database; otherwise the shop's forms, newest first (database call 0). */
  method Loader(db: Database, req: Request, fault: Fault) returns (reply: Reply)
    ensures !Given(QueryParam(req, "shop")) ==> reply == Forms([])
    ensures Given(QueryParam(req, "shop")) && FailsOn(fault, 0) ==> reply == Thrown(Db(Unavailable))
    ensures Given(QueryParam(req, "shop")) && !FailsOn(fault, 0) ==>
      var shop := QueryParam(req, "shop").value;
      && reply.Forms?
      && NewestFirst(reply.forms, FormCreatedAt)
      && (forall f :: f in reply.forms <==> f in db.forms && f.shop == Some(shop))
      && reply.forms == SortNewestFirst(FormsOfShop(db.forms, shop), FormCreatedAt)
  {
    var shop := QueryParam(req, "shop");
    if !Given(shop) {
      return Forms([]);
    }
    var found := db.ListFormsOfShop(shop.value, FailsOn(fault, 0));
    if found.Failure? {
      return Thrown(Db(found.error));
    }
    return Forms(found.value);
  }

  /** The arguments of the upsert: the lookup key `data.id ?? ""`, the
      fields of the update, and the row a create would insert. */
  datatype SaveArgs = SaveArgs(key: string, title: string, questions: Json, settings: Option<Json>, create: Form)

  /** A JSON field that Prisma accepts: `undefined` leaves it out, a JSON
      `null` is refused. */
  predicate JsonArg(v: Option<Json>) {
    v.None? || v.value != JNull
  }

  /** Reading the request into upsert arguments. An unreadable or `null`
      body throws at `data.id`. The create branch is checked even when the
      update branch applies, so `title` must be a string and `questions`
      present; `shop` is a string, `null` or absent; `id` a string or absent.
      A new row gets a fresh id, the "Active" status and the current time. */
  function ReadSave(req: Request, freshId: string, now: int): (r: Result<SaveArgs, Cause>)
    ensures req.jsonBody.None? || req.jsonBody == Some(JNull) ==> r == Failure(Unreadable)
    ensures r.Failure? ==> r.error in {Unreadable, Db(InvalidArgument)}
    ensures r.Success? ==>
      var d := req.jsonBody.value;
      && (r.value.key == "" <==> Coalesce(Get(d, "id"), JNull) == JNull || Get(d, "id") == Some(JStr("")))
      && (r.value.key != "" ==> Get(d, "id") == Some(JStr(r.value.key)))
      && Get(d, "title") == Some(JStr(r.value.title))
      && Get(d, "questions") == Some(r.value.questions) && r.value.questions != JNull
      && r.value.settings == Get(d, "settings")
      && r.value.create == Form(freshId, if Get(d, "shop").Some? && Get(d, "shop").value.JStr? then Some(Get(d, "shop").value.s) else None,
                                r.value.title, r.value.questions, r.value.settings, "Active", now)
  {
    if req.jsonBody.None? || req.jsonBody.value == JNull then Failure(Unreadable)
    else
      var d := req.jsonBody.value;
      var id, title, questions, settings, shop :=
        Coalesce(Get(d, "id"), JStr("")), Get(d, "title"), Get(d, "questions"), Get(d, "settings"), Get(d, "shop");
      if !id.JStr? || title.None? || !title.value.JStr? || questions.None? || !JsonArg(questions) || !JsonArg(settings)
         || !(shop.None? || shop.value.JNull? || shop.value.JStr?)
      then Failure(Db(InvalidArgument))
      else
        var owner := if shop.Some? && shop.value.JStr? then Some(shop.value.s) else None;
        Success(SaveArgs(id.s, title.value.s, questions.value, settings,
                         Form(freshId, owner, title.value.s, questions.value, settings, "Active", now)))
  }

  /** POST: upsert by `data.id ?? ""` (database call 0). An existing row
      changes only its title, questions and settings; otherwise one row is
      created. Either way exactly one row is written and handed back. */
  method Action(db: Database, req: Request, fault: Fault, freshId: string, now: int) returns (reply: Reply)
    requires db.Valid()
    modifies db
    ensures db.Valid()
    ensures db.responses == old(db.responses)
    ensures ReadSave(req, freshId, now).Failure? ==> reply == Thrown(ReadSave(req, freshId, now).error) && unchanged(db)
    ensures ReadSave(req, freshId, now).Success? ==>
      var a := ReadSave(req, freshId, now).value;
      && (FailsOn(fault, 0) ==> reply == Thrown(Db(Unavailable)) && db.forms == old(db.forms))
      && (!FailsOn(fault, 0) && FindForm(old(db.forms), a.key).Some? ==>
            var f := FindForm(old(db.forms), a.key).value;
            && reply.Saved?
            && reply.form.id == f.id && reply.form.shop == f.shop
            && reply.form.status == f.status && reply.form.createdAt == f.createdAt
            && reply.form.title == a.title && reply.form.questions == a.questions
            && reply.form.settings == (if a.settings.Some? then a.settings else f.settings)
            && |db.forms| == |old(db.forms)|
            && forall k :: 0 <= k < |db.forms| ==> db.forms[k] == if old(db.forms)[k].id == a.key then reply.form else old(db.forms)[k])
      && (!FailsOn(fault, 0) && FindForm(old(db.forms), a.key).None? && FindForm(old(db.forms), freshId).None? ==>
            reply == Saved(a.create) && db.forms == old(db.forms) + [a.create])
      && (reply.Saved? ==> (|db.forms| == |old(db.forms)| + 1 <==> FindForm(old(db.forms), a.key).None?))
      && (!reply.Saved? ==> db.forms == old(db.forms))
  {
    var read := ReadSave(req, freshId, now);
    if read.Failure? {
      return Thrown(read.error);
    }
    var a := read.value;
    var saved := db.Upsert(a.key, a.title, a.questions, a.settings, a.create, FailsOn(fault, 0));
    if saved.Failure? {
      return Thrown(Db(saved.error));
    }
    return Saved(saved.value);
  }
}
