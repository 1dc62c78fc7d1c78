/** The row shape both response listings hand to the admin pages. */
module ResponseRows {
  import opened Wrappers
  import opened Json
  import opened Store

  /** `{ id, formId, formTitle, answers, email, createdAt }`; `email` is a
      JSON value or `null`. */
  datatype Row = Row(id: string, formId: string, formTitle: string, answers: Json, email: Json, createdAt: int)

  function RowCreatedAt(r: Row): int { r.createdAt }

  /** `answers?.[first] || answers?.[second] || null`. */
  function Email(answers: Json, first: string, second: string): (e: Json)
    ensures Truthy(Get(answers, first)) ==> e == answers.fields[first]
    ensures !Truthy(Get(answers, first)) && Truthy(Get(answers, second)) ==> e == answers.fields[second]
    ensures !Truthy(Get(answers, first)) && !Truthy(Get(answers, second)) ==> e == JNull
  {
    var o := Or(Get(answers, first), Get(answers, second));
    if Truthy(o) then o.value else JNull
  }

  /** Answers stored as JSON text have no properties, so they carry no email. */
  lemma TextAnswersHaveNoEmail(s: string, first: string, second: string)
    ensures Email(JStr(s), first, second) == JNull
  {
  }

  /** The two precedences agree unless both spellings are filled in. */
  lemma EmailPrecedenceMattersOnlyForBoth(answers: Json)
    ensures !(Truthy(Get(answers, "email")) && Truthy(Get(answers, "Email"))) ==>
      Email(answers, "email", "Email") == Email(answers, "Email", "email")
    ensures
      var both := JObj(map["email" := JStr("a@x"), "Email" := JStr("b@x")]);
      Email(both, "email", "Email") != Email(both, "Email", "email")
  {
    var both := JObj(map["email" := JStr("a@x"), "Email" := JStr("b@x")]);
    assert Get(both, "email") == Some(JStr("a@x"));
    assert Get(both, "Email") == Some(JStr("b@x"));
  }
}
