/** The cross-origin submission endpoint the storefront renderer posts to
    (app/routes/api.public.submit.jsx). Every reply carries the same CORS
    headers. */
module PublicSubmitApi {
  import opened Wrappers
  import opened Json
  import opened Http
  import opened Store

  const CorsHeaders: seq<(string, string)> := [
    ("Access-Control-Allow-Origin", "*"),
    ("Access-Control-Allow-Methods", "POST, OPTIONS"),
    ("Access-Control-Allow-Headers", "Content-Type")
  ]

  datatype Body =
    | NoContent                  // the pre-flight reply
    | Message(error: string)     // { error }
    | Failed(details: Cause)     // { error: "Database error", details }
    | Stored                     // { success: true }

  datatype Reply = Reply(status: nat, headers: seq<(string, string)>, body: Body)

  /** The `{ formId, answers }` of a readable, non-null body. */
  function Fields(body: Json): (Option<Json>, Option<Json>) {
    (Get(body, "formId"), Get(body, "answers"))
  }

  /** OPTIONS is answered with 204 and nothing else is done; any other method
      but POST is a 405. A POST body must carry a truthy `formId` and truthy
      `answers`, which are stored as a new response (database call 0) without
      checking first that the form exists: the foreign key refuses an unknown
      form, and every failure is a 500 that says why. */
  method Action(db: Database, req: Request, fault: Fault, freshId: string, now: int) returns (reply: Reply)
    requires db.Valid()
    modifies db
    ensures db.Valid()
    ensures reply.headers == CorsHeaders
    ensures db.forms == old(db.forms)
    ensures reply.status != 200 ==> db.responses == old(db.responses)
    ensures req.verb == "OPTIONS" ==> reply.status == 204 && reply.body == NoContent
    ensures req.verb != "OPTIONS" && req.verb != "POST" ==> reply.status == 405 && reply.body == Message("Method not allowed")
    ensures req.verb == "POST" && (req.jsonBody.None? || req.jsonBody == Some(JNull)) ==>
      reply.status == 500 && reply.body == Failed(Unreadable)
    ensures req.verb == "POST" && req.jsonBody.Some? && req.jsonBody.value != JNull ==>
      var (formId, answers) := Fields(req.jsonBody.value);
      && (!Truthy(formId) || !Truthy(answers) <==> reply.status == 400)
      && (reply.status == 400 ==> reply.body == Message("Missing required fields"))
      && (Truthy(formId) && Truthy(answers) && !formId.value.JStr? ==> reply.body == Failed(Db(InvalidArgument)))
      && (Truthy(formId) && Truthy(answers) && formId.value.JStr? && !FailsOn(fault, 0) && FindForm(old(db.forms), formId.value.s).None? ==>
            reply.status == 500 && reply.body == Failed(Db(ForeignKeyViolation)))
    ensures reply.status == 200 <==>
      && req.verb == "POST" && req.jsonBody.Some? && req.jsonBody.value != JNull
      && Truthy(Fields(req.jsonBody.value).0) && Truthy(Fields(req.jsonBody.value).1)
      && Fields(req.jsonBody.value).0.value.JStr?
      && !FailsOn(fault, 0)
      && FindForm(old(db.forms), Fields(req.jsonBody.value).0.value.s).Some?
      && forall y :: y in old(db.responses) ==> y.id != freshId
    ensures reply.status == 200 ==>
      && reply.body == Stored
      && db.responses == old(db.responses) + [Response(freshId, Fields(req.jsonBody.value).0.value.s, Fields(req.jsonBody.value).1.value, now)]
    ensures reply.status in {200, 204, 400, 405, 500}
  {
    if req.verb == "OPTIONS" {
      return Reply(204, CorsHeaders, NoContent);
    }
    if req.verb != "POST" {
      return Reply(405, CorsHeaders, Message("Method not allowed"));
    }
    if req.jsonBody.None? || req.jsonBody.value == JNull {
      return Reply(500, CorsHeaders, Failed(Unreadable));
    }
    var (formId, answers) := Fields(req.jsonBody.value);
    if !Truthy(formId) || !Truthy(answers) {
      return Reply(400, CorsHeaders, Message("Missing required fields"));
    }
    if !formId.value.JStr? {
      return Reply(500, CorsHeaders, Failed(Db(InvalidArgument)));
    }
    var created := db.CreateResponse(Response(freshId, formId.value.s, answers.value, now), FailsOn(fault, 0));
    if created.Failure? {
      return Reply(500, CorsHeaders, Failed(Db(created.error)));
    }
    return Reply(200, CorsHeaders, Stored);
  }
}
