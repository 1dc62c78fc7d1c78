/** The storefront submission endpoint and the form deletion endpoint
    (app/routes/api.submit-form.jsx). */
module SubmitFormApi {
  import opened Wrappers
  import opened Json
  import opened Text
  import opened Http
  import opened Store

  /** The JSON reply. An error reply carries its status, its `error` text and,
      for a failed deletion, the database error behind its `details`. */
  datatype Reply =
    | Error(status: nat, error: string, details: Option<DbError>)
    | Deleted                    // { success: true, message: "Form and responses deleted" }
    | Accepted(responseId: string)  // { success: true, message, responseId }

  const MethodNotAllowed := Error(405, "Method not allowed", None)
  const MissingId := Error(400, "Missing form ID", None)
  const MissingFields := Error(400, "Missing formId or shop domain", None)
  const NotVerified := Error(404, "Form verification failed.", None)
  const SubmitFailed := Error(500, "Failed to submit form", None)

  /** What the POST body reads as: the JSON body when the content type says
      JSON, otherwise the form fields as an object; `None` where reading throws. */
  function Payload(req: Request): Option<Json> {
    if IsJson(req) then req.jsonBody
    else if req.formBody.Some? then Some(JObj(FromEntries(req.formBody.value)))
    else None
  }

  /** The checked part of a submission: `formId` and `shop` as the body
      gives them (truthy, of any JSON type); `answers` is `None` where it
      is `undefined`. */
  datatype Submission = Submission(formId: Json, shop: Json, answers: Option<Json>)

  /** Reading the submission out of the body, up to the first database call.
      An unreadable or `null` body throws while it is destructured; a falsy
      `formId` or `shop` is a 400. A JSON body carries its answers in
      `answers`; a form body's answers are all its other fields. */
  function ReadSubmission(req: Request): (r: Result<Submission, Reply>)
    ensures Payload(req).None? || Payload(req) == Some(JNull) ==> r == Failure(SubmitFailed)
    ensures Payload(req).Some? && Payload(req).value != JNull ==>
      var p := Payload(req).value;
      (r == Failure(MissingFields) <==> !Truthy(Get(p, "formId")) || !Truthy(Get(p, "shop")))
    ensures r.Failure? ==> r.error == SubmitFailed || r.error == MissingFields
    ensures r.Success? ==>
      && Payload(req).Some?
      && Get(Payload(req).value, "formId") == Some(r.value.formId) && Truthy(Some(r.value.formId))
      && Get(Payload(req).value, "shop") == Some(r.value.shop) && Truthy(Some(r.value.shop))
    ensures r.Success? && IsJson(req) ==> r.value.answers == Get(Payload(req).value, "answers")
    ensures r.Success? && !IsJson(req) ==>
      r.value.answers == Some(JObj(FromEntries(req.formBody.value) - {"formId", "shop"}))
  {
    var payload := Payload(req);
    if payload.None? || payload.value == JNull then Failure(SubmitFailed)
    else
      var p := payload.value;
      var formId, shop := Get(p, "formId"), Get(p, "shop");
      if !Truthy(formId) || !Truthy(shop) then Failure(MissingFields)
      else
        var answers := if IsJson(req) then Get(p, "answers") else Some(JObj(p.fields - {"formId", "shop"}));
        Success(Submission(formId.value, shop.value, answers))
  }

  /** What DELETE `?id=` does: without an id, a 400 and no change;
      otherwise the form's responses are deleted (database call 0), then
      the form (call 1). The two calls are not one transaction: when the
      second fails the responses stay deleted. */
  twostate predicate DeleteOutcome(db: Database, req: Request, fault: Fault, reply: Reply)
    reads db
  {
    && (!Given(QueryParam(req, "id")) ==>
          reply == MissingId && db.forms == old(db.forms) && db.responses == old(db.responses))
    && (Given(QueryParam(req, "id")) ==>
          var id := QueryParam(req, "id").value;
          && (reply == Deleted <==> !FailsOn(fault, 0) && !FailsOn(fault, 1) && FindForm(old(db.forms), id).Some?)
          && (reply != Deleted ==> reply.Error? && reply.status == 500 && reply.error == "Database error")
          && (reply != Deleted ==> reply.details.Some? && reply.details != Some(ForeignKeyViolation))
          && db.responses == (if FailsOn(fault, 0) then old(db.responses) else ResponsesNotOf(old(db.responses), id))
          && db.forms == (if reply == Deleted then FormsWithout(old(db.forms), id) else old(db.forms)))
  }

  /** DELETE `?id=`, as `DeleteOutcome` describes it. */
  method Delete(db: Database, req: Request, fault: Fault) returns (reply: Reply)
    requires db.Valid()
    modifies db
    ensures db.Valid()
    ensures DeleteOutcome(db, req, fault, reply)
  {
    var id := QueryParam(req, "id");
    if !Given(id) {
      return MissingId;
    }
    var a := db.DeleteManyResponses(id.value, FailsOn(fault, 0));
    if a.Failure? {
      return Error(500, "Database error", Some(a.error));
    }
    assert forall x :: x in db.responses ==> x.formId != id.value;
    var b := db.DeleteForm(id.value, FailsOn(fault, 1));
    if b.Failure? {
      return Error(500, "Database error", Some(b.error));
    }
    return Deleted;
  }

  /** Whether POST, as written, stores a response: the submission reads,
      Prisma takes both `where` values, a form meets both (database call 0),
      and the create call (call 1) takes the string `formId`, the answers
      and the fresh id. */
  ghost predicate PostAccepts(forms: seq<Form>, responses: seq<Response>, req: Request,
                              fault: Fault, freshId: string, filters: FilterReading)
  {
    && ReadSubmission(req).Success?
    && var s := ReadSubmission(req).value;
       var id, shop := ReadWhere(s.formId, filters), ReadWhere(s.shop, filters);
       && !id.Refused? && !shop.Refused? && !FailsOn(fault, 0)
       && FirstWhere(forms, id, shop).Some?
       && s.formId.JStr? && s.answers.Some? && s.answers.value != JNull
       && !FailsOn(fault, 1) && forall y :: y in responses ==> y.id != freshId
  }

  /** What POST, as written, does: the database keeps its forms; a refused
      submission changes nothing; a `where` value Prisma refuses or an
      outage is the 500, no form meeting the filter the 404; and a response
      is appended exactly when `PostAccepts` holds. */
  twostate predicate PostOutcome(db: Database, req: Request, fault: Fault, freshId: string, now: int,
                                 filters: FilterReading, reply: Reply)
    reads db
  {
    && db.forms == old(db.forms)
    && (ReadSubmission(req).Failure? ==>
          reply == ReadSubmission(req).error && db.responses == old(db.responses))
    && (ReadSubmission(req).Success? ==>
          var s := ReadSubmission(req).value;
          var id, shop := ReadWhere(s.formId, filters), ReadWhere(s.shop, filters);
          && (FailsOn(fault, 0) || id.Refused? || shop.Refused? ==> reply == SubmitFailed)
          && (!FailsOn(fault, 0) && !id.Refused? && !shop.Refused? && FirstWhere(old(db.forms), id, shop).None? ==>
                reply == NotVerified)
          && (reply.Accepted? <==> PostAccepts(old(db.forms), old(db.responses), req, fault, freshId, filters))
          && (reply.Accepted? ==>
                && reply.responseId == freshId
                && db.responses == old(db.responses) + [Response(freshId, s.formId.s, s.answers.value, now)])
          && (!reply.Accepted? ==> reply in {SubmitFailed, NotVerified} && db.responses == old(db.responses)))
  }

  /** POST as written: `formId` and `shop` go into the `findFirst` filter
      unchecked (database call 0), then the answers are stored as a new
      response (call 1). A `where` value Prisma refuses, a non-string
      `formId` in the create call, and `undefined` or `null` answers all
      throw, which is the 500. */
  method Post(db: Database, req: Request, fault: Fault, freshId: string, now: int, filters: FilterReading)
    returns (reply: Reply)
    requires db.Valid()
    modifies db
    ensures db.Valid()
    ensures ReadSubmission(req).Failure? ==> unchanged(db)
    ensures PostOutcome(db, req, fault, freshId, now, filters, reply)
  {
    var read := ReadSubmission(req);
    if read.Failure? {
      return read.error;
    }
    var s := read.value;
    var found := db.FindFirst(ReadWhere(s.formId, filters), ReadWhere(s.shop, filters), FailsOn(fault, 0));
    if found.Failure? {
      return SubmitFailed;
    }
    if found.value.None? {
      return NotVerified;
    }
    if !s.formId.JStr? || s.answers.None? || s.answers.value == JNull {
      return SubmitFailed;
    }
    var created := db.CreateResponse(Response(freshId, s.formId.s, s.answers.value, now), FailsOn(fault, 1));
    if created.Failure? {
      return SubmitFailed;
    }
    return Accepted(created.value.id);
  }

  /** `{ not: "" }`, Prisma's filter for a non-empty value. */
  const NotEmpty: map<string, Json> := map["not" := JStr("")]

  /** Prisma lets every non-empty value pass `{ not: "" }`. */
  ghost predicate ReadsNotEmpty(filters: FilterReading) {
    filters(NotEmpty).Some? && forall s: string :: s != "" ==> filters(NotEmpty).value(Some(s))
  }

  /** A form of the shop `a.myshopify.com`. */
  const ShopForm := Form("f1", Some("a.myshopify.com"), "Contact", JArr([]), None, "Active", 0)

  /** A JSON body naming that form, with `{ not: "" }` as its `shop`. */
  const FilterBody := JObj(map["formId" := JStr("f1"), "shop" := JObj(NotEmpty), "answers" := JObj(map[])])

  const FilterRequest := Request("POST", map[], Some("application/json"), Some(FilterBody), None)

  /** The filter body passes the field check with the object as its shop. */
  lemma FilterRequestReads()
    ensures Get(FilterBody, "shop") == Some(JObj(NotEmpty))
    ensures ReadSubmission(FilterRequest) == Success(Submission(JStr("f1"), JObj(NotEmpty), Some(JObj(map[]))))
  {
    assert Contains("application/json", "application/json");
    assert Get(FilterBody, "formId") == Some(JStr("f1"));
    assert Get(FilterBody, "answers") == Some(JObj(map[]));
  }

  /** As written, the verification step does not tie the response to the
      shop that sent it: a JSON body with `shop: { not: "" }` stores a
      response for a form of a shop it never names. */
  lemma ShopFilterSkipsVerification(filters: FilterReading)
    requires ReadsNotEmpty(filters)
    ensures PostAccepts([ShopForm], [], FilterRequest, Healthy, "r1", filters)
    ensures !exists shop: string :: Get(FilterBody, "shop") == Some(JStr(shop))
  {
    FilterRequestReads();
    assert Meets(ReadWhere(JObj(NotEmpty), filters), ShopForm.shop);
  }

  /** What the corrected POST does: the submission must name its form and
      shop as strings, and a response is stored exactly when a form with
      that id belongs to that shop, the answers are present and no call
      fails. */
  twostate predicate VerifiedPostOutcome(db: Database, req: Request, fault: Fault, freshId: string, now: int, reply: Reply)
    reads db
  {
    && db.forms == old(db.forms)
    && (ReadSubmission(req).Failure? ==>
          reply == ReadSubmission(req).error && db.responses == old(db.responses))
    && (ReadSubmission(req).Success? ==>
          var s := ReadSubmission(req).value;
          && (!s.formId.JStr? || !s.shop.JStr? ==> reply == MissingFields && db.responses == old(db.responses))
          && (s.formId.JStr? && s.shop.JStr? ==>
                var form := FindFormOfShop(old(db.forms), s.formId.s, s.shop.s);
                && (FailsOn(fault, 0) ==> reply == SubmitFailed)
                && (!FailsOn(fault, 0) && form.None? ==> reply == NotVerified)
                && (reply.Accepted? <==>
                      && !FailsOn(fault, 0) && !FailsOn(fault, 1) && form.Some?
                      && s.answers.Some? && s.answers.value != JNull
                      && forall y :: y in old(db.responses) ==> y.id != freshId)
                && (reply.Accepted? ==>
                      && reply.responseId == freshId
                      && (exists f :: f in old(db.forms) && f.id == s.formId.s && f.shop == Some(s.shop.s))
                      && db.responses == old(db.responses) + [Response(freshId, s.formId.s, s.answers.value, now)])
                && (!reply.Accepted? ==> reply in {SubmitFailed, NotVerified} && db.responses == old(db.responses))))
  }

  /** POST with the check the verification step needs: a `formId` or `shop`
      that is not a string is refused with the 400, so `findFirst` only
      ever compares plain strings. */
  method VerifiedPost(db: Database, req: Request, fault: Fault, freshId: string, now: int) returns (reply: Reply)
    requires db.Valid()
    modifies db
    ensures db.Valid()
    ensures VerifiedPostOutcome(db, req, fault, freshId, now, reply)
  {
    var read := ReadSubmission(req);
    if read.Failure? {
      return read.error;
    }
    var s := read.value;
    if !s.formId.JStr? || !s.shop.JStr? {
      return MissingFields;
    }
    FirstWhereOfStrings(db.forms, s.formId.s, s.shop.s);
    var found := db.FindFirst(Equals(s.formId.s), Equals(s.shop.s), FailsOn(fault, 0));
    if found.Failure? {
      return SubmitFailed;
    }
    if found.value.None? {
      return NotVerified;
    }
    if s.answers.None? || s.answers.value == JNull {
      return SubmitFailed;
    }
    var created := db.CreateResponse(Response(freshId, s.formId.s, s.answers.value, now), FailsOn(fault, 1));
    if created.Failure? {
      return SubmitFailed;
    }
    return Accepted(created.value.id);
  }

  /** The route's action as written: DELETE and POST as above, any other
      method 405. How Prisma reads a filter object is the `filters`
      parameter. */
  method Action(db: Database, req: Request, fault: Fault, freshId: string, now: int, filters: FilterReading)
    returns (reply: Reply)
    requires db.Valid()
    modifies db
    ensures db.Valid()
    ensures req.verb == "DELETE" ==> DeleteOutcome(db, req, fault, reply)
    ensures req.verb == "POST" ==> PostOutcome(db, req, fault, freshId, now, filters, reply)
    ensures req.verb != "DELETE" && req.verb != "POST" ==> reply == MethodNotAllowed && unchanged(db)
  {
    if req.verb == "DELETE" {
      reply := Delete(db, req, fault);
    } else if req.verb == "POST" {
      reply := Post(db, req, fault, freshId, now, filters);
    } else {
      reply := MethodNotAllowed;
    }
  }

  /** The route's action with the corrected verification: POST goes to
      `VerifiedPost`, so Prisma's filter reading no longer matters. */
  method VerifiedAction(db: Database, req: Request, fault: Fault, freshId: string, now: int) returns (reply: Reply)
    requires db.Valid()
    modifies db
    ensures db.Valid()
    ensures req.verb == "DELETE" ==> DeleteOutcome(db, req, fault, reply)
    ensures req.verb == "POST" ==> VerifiedPostOutcome(db, req, fault, freshId, now, reply)
    ensures req.verb != "DELETE" && req.verb != "POST" ==> reply == MethodNotAllowed && unchanged(db)
  {
    if req.verb == "DELETE" {
      reply := Delete(db, req, fault);
    } else if req.verb == "POST" {
      reply := VerifiedPost(db, req, fault, freshId, now);
    } else {
      reply := MethodNotAllowed;
    }
  }
}
