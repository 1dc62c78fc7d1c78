/** The public single-form endpoint (app/routes/server.js): fetch a form by
    id for display, and store a submission for it. */
module ServerRoute {
  import opened Wrappers
  import opened Json
  import opened Http
  import opened Store

  /** What the loader exposes of a form: no shop, status or settings. */
  datatype FormView = FormView(id: string, title: string, questions: Json, createdAt: int)

  datatype Reply =
    | Found(view: FormView)          // 200
    | Accepted(response: Response)   // 200 { success: true, response }
    | NotFound                       // 404 { error: "Form not found" }
    | InvalidPayload                 // 400 { error: "Invalid payload" }
    | Crashed(cause: Cause)          // 500 { error: err.message }

  /** The projection the loader returns, with questions parsed when they are
      JSON text (kept as text when that parse fails). */
  function View(c: Codec, f: Form): (v: FormView)
    ensures v.id == f.id && v.title == f.title && v.createdAt == f.createdAt
    ensures v.questions == ParseIfString(c, f.questions)
  {
    FormView(f.id, f.title, ParseIfString(c, f.questions), f.createdAt)
  }

  /** GET `/:id`: the form with that id, whatever its shop or status; 404
      when there is none. A missing id is an argument the database refuses. */
  method Loader(db: Database, c: Codec, id: Option<string>, fault: Fault) returns (reply: Reply)
    ensures id.None? ==> reply == Crashed(Db(InvalidArgument))
    ensures id.Some? && FailsOn(fault, 0) ==> reply == Crashed(Db(Unavailable))
    ensures id.Some? && !FailsOn(fault, 0) ==>
      && (reply == NotFound <==> forall f :: f in db.forms ==> f.id != id.value)
      && (reply != NotFound ==> exists f :: f in db.forms && f.id == id.value && reply == Found(View(c, f)))
  {
    if id.None? {
      return Crashed(Db(InvalidArgument));
    }
    var found := db.FindUnique(id.value, FailsOn(fault, 0));
    if found.Failure? {
      return Crashed(Db(found.error));
    }
    if found.value.None? {
      return NotFound;
    }
    return Found(View(c, found.value.value));
  }

  /** The answers as the action stores them: JSON text. */
  function StoredAnswers(c: Codec, answers: Json): (r: Json)
    ensures r.JStr?
  {
    JStr(c.stringify(answers))
  }

  /** Reading the stored answers back gives what was submitted. */
  lemma StoredAnswersRoundTrip(c: Codec, answers: Json)
    requires Lawful(c)
    ensures ParseIfString(c, StoredAnswers(c, answers)) == answers
  {
    ParseStringified(c, answers);
  }

  /** POST: `formId` and `answers` must be truthy (400 otherwise); the form
      must exist (database call 0, 404 otherwise); then the answers are
      stored as JSON text (call 1). An unreadable or `null` body throws. */
  method Action(db: Database, c: Codec, req: Request, fault: Fault, freshId: string, now: int) returns (reply: Reply)
    requires db.Valid()
    modifies db
    ensures db.Valid()
    ensures db.forms == old(db.forms)
    ensures !reply.Accepted? ==> db.responses == old(db.responses)
    ensures !reply.Found?
    ensures req.jsonBody.None? || req.jsonBody == Some(JNull) ==> reply == Crashed(Unreadable)
    ensures req.jsonBody.Some? && req.jsonBody.value != JNull ==>
      var formId, answers := Get(req.jsonBody.value, "formId"), Get(req.jsonBody.value, "answers");
      && (reply == InvalidPayload <==> !Truthy(formId) || !Truthy(answers))
      && (Truthy(formId) && Truthy(answers) && formId.value.JStr? && !FailsOn(fault, 0) ==>
            (reply == NotFound <==> FindForm(old(db.forms), formId.value.s).None?))
      && (Truthy(formId) && Truthy(answers) && (!formId.value.JStr? || FailsOn(fault, 0)) ==> reply.Crashed?)
      && (&& Truthy(formId) && Truthy(answers) && formId.value.JStr? && !FailsOn(fault, 0)
          && FindForm(old(db.forms), formId.value.s).Some? && !reply.Accepted?
          ==> reply.Crashed?)
      && (reply.Accepted? <==>
            && Truthy(formId) && Truthy(answers) && formId.value.JStr?
            && !FailsOn(fault, 0) && !FailsOn(fault, 1)
            && FindForm(old(db.forms), formId.value.s).Some?
            && forall y :: y in old(db.responses) ==> y.id != freshId)
      && (reply.Accepted? ==>
            && reply.response == Response(freshId, formId.value.s, StoredAnswers(c, answers.value), now)
            && db.responses == old(db.responses) + [reply.response])
  {
    if req.jsonBody.None? || req.jsonBody.value == JNull {
      return Crashed(Unreadable);
    }
    var formId, answers := Get(req.jsonBody.value, "formId"), Get(req.jsonBody.value, "answers");
    if !Truthy(formId) || !Truthy(answers) {
      return InvalidPayload;
    }
    if !formId.value.JStr? {
      return Crashed(Db(InvalidArgument));
    }
    var found := db.FindUnique(formId.value.s, FailsOn(fault, 0));
    if found.Failure? {
      return Crashed(Db(found.error));
    }
    if found.value.None? {
      return NotFound;
    }
    var created := db.CreateResponse(Response(freshId, formId.value.s, StoredAnswers(c, answers.value), now), FailsOn(fault, 1));
    if created.Failure? {
      return Crashed(Db(created.error));
    }
    return Accepted(created.value);
  }
}
