/** The two database tables behind every route (Prisma models `form` and
    `response`), the calls the routes make on them, and the integrity the
    database keeps: unique ids and every response pointing at an existing
    form (the foreign key that api.submit-form.jsx deletes around). Rows are
    kept in insertion order; a listing sorts them. */
module Store {
  import opened Wrappers
  import opened Json
  import opened Seqs
  import opened Ordering

  /** A stored form. `shop` may be null; `questions` holds either a JSON
      string or structured JSON, depending on the route that wrote it;
      `createdAt` is an abstract, ordered timestamp. */
  datatype Form = Form(
    id: string,
    shop: Option<string>,
    title: string,
    questions: Json,
    settings: Option<Json>,
    status: string,
    createdAt: int)

  /** A stored response of form `formId`. */
  datatype Response = Response(id: string, formId: string, answers: Json, createdAt: int)

  function FormId(f: Form): string { f.id }
  function FormCreatedAt(f: Form): int { f.createdAt }
  function ResponseId(r: Response): string { r.id }
  function ResponseCreatedAt(r: Response): int { r.createdAt }

  /** Why a database call throws. */
  datatype DbError =
    | RecordNotFound       // `delete` of a missing row
    | UniqueViolation      // a second row with the same id
    | ForeignKeyViolation  // a response without its form, or a form still referenced
    | InvalidArgument      // an argument of the wrong type, or a required one missing
    | Unavailable          // the connection or the engine failed

  /** Which database call of one request fails (0 is the first), if any.
      Stands for the outages that the routes' `catch` blocks handle. */
  datatype Fault = Healthy | FailsAt(call: nat)

  predicate FailsOn(fault: Fault, call: nat) {
    fault.FailsAt? && fault.call == call
  }

  /** `findUnique({ where: { id } })` over rows with unique ids. */
  function FindForm(fs: seq<Form>, id: string): (r: Option<Form>)
    ensures r.Some? ==> r.value in fs && r.value.id == id
    ensures r.None? <==> forall f :: f in fs ==> f.id != id
  {
    if fs == [] then None
    else if fs[0].id == id then Some(fs[0])
    else FindForm(fs[1..], id)
  }

  /** `findFirst({ where: { id, shop } })`. */
  function FindFormOfShop(fs: seq<Form>, id: string, shop: string): (r: Option<Form>)
    ensures r.Some? ==> r.value in fs && r.value.id == id && r.value.shop == Some(shop)
    ensures r.None? <==> forall f :: f in fs ==> !(f.id == id && f.shop == Some(shop))
  {
    if fs == [] then None
    else if fs[0].id == id && fs[0].shop == Some(shop) then Some(fs[0])
    else FindFormOfShop(fs[1..], id, shop)
  }

  /** How Prisma reads the value given for a string column in a `where`:
      a string must equal the column; an object is a filter such as
      `{ not: "" }` or `{ startsWith: "a" }` that some column values pass;
      any other value is refused before the query runs. */
  datatype Condition = Refused | Equals(s: string) | Passes(test: Option<string> -> bool)

  /** The meaning Prisma gives a filter object, or `None` where it refuses
      the object. The filter language is not modelled: this is a parameter. */
  type FilterReading = map<string, Json> -> Option<Option<string> -> bool>

  /** The condition a `where` value sets on a string column. */
  function ReadWhere(v: Json, filters: FilterReading): (c: Condition)
    ensures v.JStr? <==> c.Equals?
    ensures v.JStr? ==> c.s == v.s
    ensures v.JObj? ==> (c.Passes? <==> filters(v.fields).Some?)
    ensures !v.JStr? && !v.JObj? ==> c.Refused?
  {
    match v
    case JStr(s) => Equals(s)
    case JObj(fields) => if filters(fields).Some? then Passes(filters(fields).value) else Refused
    case _ => Refused
  }

  /** Whether a column value meets a condition. */
  predicate Meets(c: Condition, x: Option<string>) {
    match c
    case Refused => false
    case Equals(s) => x == Some(s)
    case Passes(test) => test(x)
  }

  /** `findFirst({ where: { id, shop } })` for the conditions read from the
      two values: the first row meeting both. */
  function FirstWhere(fs: seq<Form>, id: Condition, shop: Condition): (r: Option<Form>)
    ensures r.Some? ==> r.value in fs && Meets(id, Some(r.value.id)) && Meets(shop, r.value.shop)
    ensures r.None? <==> forall f :: f in fs ==> !(Meets(id, Some(f.id)) && Meets(shop, f.shop))
  {
    if fs == [] then None
    else if Meets(id, Some(fs[0].id)) && Meets(shop, fs[0].shop) then Some(fs[0])
    else FirstWhere(fs[1..], id, shop)
  }

  /** With a plain string for both columns the lookup is the exact one. */
  lemma {:induction false} FirstWhereOfStrings(fs: seq<Form>, id: string, shop: string)
    ensures FirstWhere(fs, Equals(id), Equals(shop)) == FindFormOfShop(fs, id, shop)
  {
    if fs != [] {
      FirstWhereOfStrings(fs[1..], id, shop);
    }
  }

  /** The form of a response, as Prisma's `include: { form }` joins it. */
  function OwnerOf(fs: seq<Form>, r: Response): Option<Form> {
    FindForm(fs, r.formId)
  }

  /** Every response refers to a stored form. */
  predicate Referenced(fs: seq<Form>, rs: seq<Response>) {
    forall r :: r in rs ==> FindForm(fs, r.formId).Some?
  }

  /** `deleteMany({ where: { formId } })` leaves these rows. */
  function ResponsesNotOf(rs: seq<Response>, formId: string): seq<Response> {
    Filter(rs, (r: Response) => r.formId != formId)
  }

  /** The rows of `findMany({ where: { shop } })`, in storage order. */
  function FormsOfShop(fs: seq<Form>, shop: string): seq<Form> {
    Filter(fs, (f: Form) => f.shop == Some(shop))
  }

  /** The rows of `response.findMany({ where: { form: { shop } } })`, in
      storage order: responses whose form belongs to `shop`. */
  function ResponsesOfShop(fs: seq<Form>, rs: seq<Response>, shop: string): seq<Response> {
    Filter(rs, (x: Response) => OwnerOf(fs, x).Some? && OwnerOf(fs, x).value.shop == Some(shop))
  }

  /** `delete({ where: { id } })` leaves these rows. */
  function FormsWithout(fs: seq<Form>, id: string): seq<Form> {
    Filter(fs, (f: Form) => f.id != id)
  }

  /** Deleting all responses of a form and then the form keeps every
      remaining response pointing at a remaining form. */
  lemma CascadeKeepsReferences(fs: seq<Form>, rs: seq<Response>, id: string)
    requires Referenced(fs, rs)
    ensures Referenced(FormsWithout(fs, id), ResponsesNotOf(rs, id))
  {
    var fs', rs' := FormsWithout(fs, id), ResponsesNotOf(rs, id);
    forall r | r in rs' ensures FindForm(fs', r.formId).Some? {
      var f := FindForm(fs, r.formId).value;
      assert f in fs';
    }
  }

  /** Replacing a row by one with the same id keeps the set of ids. */
  lemma ReplaceKeepsIds(fs: seq<Form>, i: nat, g: Form, id: string)
    requires i < |fs| && g.id == fs[i].id
    ensures FindForm(fs[i := g], id).Some? <==> FindForm(fs, id).Some?
  {
    if FindForm(fs, id).Some? {
      var k :| 0 <= k < |fs| && fs[k].id == id;
      assert fs[i := g][k].id == id;
    }
    if FindForm(fs[i := g], id).Some? {
      var k :| 0 <= k < |fs| && fs[i := g][k].id == id;
      assert fs[k].id == id;
    }
  }

  /** The index of the row with `id`, when there is one. */
  function IndexOfForm(fs: seq<Form>, id: string): (i: int)
    ensures -1 <= i < |fs|
    ensures i == -1 <==> FindForm(fs, id).None?
    ensures i >= 0 ==> fs[i].id == id && FindForm(fs, id) == Some(fs[i])
  {
    if fs == [] then -1
    else if fs[0].id == id then 0
    else
      var j := IndexOfForm(fs[1..], id);
      if j == -1 then -1 else j + 1
  }

  class Database {
    var forms: seq<Form>
    var responses: seq<Response>

    /** Primary keys are unique and every response's form exists. */
    ghost predicate Valid()
      reads this
    {
      UniqueBy(forms, FormId) && UniqueBy(responses, ResponseId) && Referenced(forms, responses)
    }

    constructor ()
      ensures Valid() && forms == [] && responses == []
    {
      forms, responses := [], [];
    }

    /** `form.findUnique({ where: { id } })`. */
    method FindUnique(id: string, fails: bool) returns (r: Result<Option<Form>, DbError>)
      ensures fails ==> r == Failure(Unavailable)
      ensures !fails ==> r == Success(FindForm(forms, id))
    {
      if fails { return Failure(Unavailable); }
      return Success(FindForm(forms, id));
    }

    /** `form.findMany({ orderBy: { createdAt: "desc" } })`. */
    method ListForms(fails: bool) returns (r: Result<seq<Form>, DbError>)
      ensures fails ==> r == Failure(Unavailable)
      ensures !fails ==> r.Success? && multiset(r.value) == multiset(forms) && NewestFirst(r.value, FormCreatedAt)
      ensures !fails ==> r.value == SortNewestFirst(forms, FormCreatedAt)
    {
      if fails { return Failure(Unavailable); }
      return Success(SortNewestFirst(forms, FormCreatedAt));
    }

    /** `response.findMany({ orderBy: { createdAt: "desc" } })`. */
    method ListResponses(fails: bool) returns (r: Result<seq<Response>, DbError>)
      ensures fails ==> r == Failure(Unavailable)
      ensures !fails ==> r.Success? && multiset(r.value) == multiset(responses) && NewestFirst(r.value, ResponseCreatedAt)
      ensures !fails ==> r.value == SortNewestFirst(responses, ResponseCreatedAt)
    {
      if fails { return Failure(Unavailable); }
      return Success(SortNewestFirst(responses, ResponseCreatedAt));
    }

    /** `form.findMany({ where: { shop }, orderBy: { createdAt: "desc" } })`. */
    method ListFormsOfShop(shop: string, fails: bool) returns (r: Result<seq<Form>, DbError>)
      ensures fails ==> r == Failure(Unavailable)
      ensures !fails ==> r.Success? && NewestFirst(r.value, FormCreatedAt)
      ensures !fails ==> forall f :: f in r.value <==> f in forms && f.shop == Some(shop)
      ensures !fails ==> r.value == SortNewestFirst(FormsOfShop(forms, shop), FormCreatedAt)
    {
      if fails { return Failure(Unavailable); }
      var rows := FormsOfShop(forms, shop);
      forall f ensures f in SortNewestFirst(rows, FormCreatedAt) <==> f in rows {
        SortedHasSameRows(rows, FormCreatedAt, f);
      }
      return Success(SortNewestFirst(rows, FormCreatedAt));
    }

    /** `response.findMany({ where: { form: { shop } }, orderBy: { createdAt: "desc" } })`. */
    method ListResponsesOfShop(shop: string, fails: bool) returns (r: Result<seq<Response>, DbError>)
      ensures fails ==> r == Failure(Unavailable)
      ensures !fails ==> r.Success? && NewestFirst(r.value, ResponseCreatedAt)
      ensures !fails ==> forall x :: x in r.value <==>
        x in responses && OwnerOf(forms, x).Some? && OwnerOf(forms, x).value.shop == Some(shop)
      ensures !fails ==> r.value == SortNewestFirst(ResponsesOfShop(forms, responses, shop), ResponseCreatedAt)
    {
      if fails { return Failure(Unavailable); }
      var rows := ResponsesOfShop(forms, responses, shop);
      forall x ensures x in SortNewestFirst(rows, ResponseCreatedAt) <==> x in rows {
        SortedHasSameRows(rows, ResponseCreatedAt, x);
      }
      return Success(SortNewestFirst(rows, ResponseCreatedAt));
    }

    /** `form.findFirst({ where: { id, shop } })`: a refused `where` value
        throws before the query runs. */
    method FindFirst(id: Condition, shop: Condition, fails: bool) returns (r: Result<Option<Form>, DbError>)
      ensures id.Refused? || shop.Refused? ==> r == Failure(InvalidArgument)
      ensures !id.Refused? && !shop.Refused? && fails ==> r == Failure(Unavailable)
      ensures !id.Refused? && !shop.Refused? && !fails ==> r.Success?
      ensures r.Success? && r.value.Some? ==>
        r.value.value in forms && Meets(id, Some(r.value.value.id)) && Meets(shop, r.value.value.shop)
      ensures r.Success? && r.value.None? ==> forall f :: f in forms ==> !(Meets(id, Some(f.id)) && Meets(shop, f.shop))
      ensures r.Success? ==> r.value == FirstWhere(forms, id, shop)
    {
      if id.Refused? || shop.Refused? { return Failure(InvalidArgument); }
      if fails { return Failure(Unavailable); }
      return Success(FirstWhere(forms, id, shop));
    }

    /** `form.create({ data: f })`. */
    method CreateForm(f: Form, fails: bool) returns (r: Result<Form, DbError>)
      requires Valid()
      modifies this
      ensures Valid()
      ensures fails ==> r == Failure(Unavailable)
      ensures !fails && FindForm(old(forms), f.id).Some? ==> r == Failure(UniqueViolation)
      ensures !fails && FindForm(old(forms), f.id).None? ==> r == Success(f)
      ensures r.Success? ==> forms == old(forms) + [f]
      ensures r.Failure? ==> forms == old(forms)
      ensures responses == old(responses)
    {
      if fails { return Failure(Unavailable); }
      if FindForm(forms, f.id).Some? { return Failure(UniqueViolation); }
      forms := forms + [f];
      assert forall g :: g in old(forms) ==> g in forms;
      return Success(f);
    }

    /** The `update` branch of `form.upsert`: the row with `id` gets the given
        fields, where given, and keeps everything else. */
    method UpdateForm(id: string, title: Option<string>, questions: Option<Json>, settings: Option<Json>, fails: bool)
      returns (r: Result<Form, DbError>)
      requires Valid()
      modifies this
      ensures Valid()
      ensures fails ==> r == Failure(Unavailable)
      ensures !fails && FindForm(old(forms), id).None? ==> r == Failure(RecordNotFound)
      ensures !fails && FindForm(old(forms), id).Some? ==>
        var f := FindForm(old(forms), id).value;
        r == Success(f.(title := title.GetOr(f.title),
                        questions := questions.GetOr(f.questions),
                        settings := if settings.Some? then settings else f.settings))
      ensures r.Success? ==>
                && |forms| == |old(forms)|
                && forall k :: 0 <= k < |forms| ==> forms[k] == if old(forms)[k].id == id then r.value else old(forms)[k]
      ensures r.Failure? ==> forms == old(forms)
      ensures responses == old(responses)
    {
      if fails { return Failure(Unavailable); }
      var i := IndexOfForm(forms, id);
      if i == -1 { return Failure(RecordNotFound); }
      var f := forms[i];
      var g := f.(title := title.GetOr(f.title),
                  questions := questions.GetOr(f.questions),
                  settings := if settings.Some? then settings else f.settings);
      ghost var before := forms;
      forms := forms[i := g];
      forall k | 0 <= k < |forms| ensures forms[k] == if before[k].id == id then g else before[k] {
        if k != i { assert FormId(before[k]) != FormId(before[i]); }
      }
      assert UniqueBy(forms, FormId) by {
        forall a, b | 0 <= a < b < |forms| ensures FormId(forms[a]) != FormId(forms[b]) {
          assert FormId(forms[a]) == FormId(before[a]) && FormId(forms[b]) == FormId(before[b]);
        }
      }
      forall x | x in responses ensures FindForm(forms, x.formId).Some? {
        ReplaceKeepsIds(before, i, g, x.formId);
      }
      return Success(g);
    }

    /** `form.upsert({ where: { id }, update, create })`: the row with `id`
        gets the new title, questions and settings (settings only when
        given); without such a row, `create` is inserted. */
    method Upsert(id: string, title: string, questions: Json, settings: Option<Json>, create: Form, fails: bool)
      returns (r: Result<Form, DbError>)
      requires Valid()
      modifies this
      ensures Valid()
      ensures responses == old(responses)
      ensures fails ==> r == Failure(Unavailable) && forms == old(forms)
      ensures !fails && FindForm(old(forms), id).Some? ==>
        var f := FindForm(old(forms), id).value;
        && r == Success(f.(title := title, questions := questions,
                           settings := if settings.Some? then settings else f.settings))
        && |forms| == |old(forms)|
        && forall k :: 0 <= k < |forms| ==> forms[k] == if old(forms)[k].id == id then r.value else old(forms)[k]
      ensures !fails && FindForm(old(forms), id).None? && FindForm(old(forms), create.id).None? ==>
        r == Success(create) && forms == old(forms) + [create]
      ensures !fails && FindForm(old(forms), id).None? && FindForm(old(forms), create.id).Some? ==>
        r == Failure(UniqueViolation) && forms == old(forms)
    {
      if fails { return Failure(Unavailable); }
      if FindForm(forms, id).Some? {
        r := UpdateForm(id, Some(title), Some(questions), settings, false);
      } else {
        r := CreateForm(create, false);
      }
    }

    /** `form.delete({ where: { id } })`: throws when the row is missing or a
        response still refers to it. */
    method DeleteForm(id: string, fails: bool) returns (r: Result<Form, DbError>)
      requires Valid()
      modifies this
      ensures Valid()
      ensures fails ==> r == Failure(Unavailable)
      ensures !fails && FindForm(old(forms), id).None? ==> r == Failure(RecordNotFound)
      ensures !fails && FindForm(old(forms), id).Some? && (exists x :: x in old(responses) && x.formId == id) ==>
        r == Failure(ForeignKeyViolation)
      ensures !fails && FindForm(old(forms), id).Some? && (forall x :: x in old(responses) ==> x.formId != id) ==>
        r == Success(FindForm(old(forms), id).value)
      ensures r.Success? ==> forms == FormsWithout(old(forms), id)
      ensures r.Failure? ==> forms == old(forms)
      ensures responses == old(responses)
    {
      if fails { return Failure(Unavailable); }
      var f := FindForm(forms, id);
      if f.None? { return Failure(RecordNotFound); }
      if exists x :: x in responses && x.formId == id { return Failure(ForeignKeyViolation); }
      assert ResponsesNotOf(responses, id) == responses by {
        assert forall x :: x in responses ==> x.formId != id;
        FilterIdentity(responses, (x: Response) => x.formId != id);
      }
      CascadeKeepsReferences(forms, responses, id);
      FilterKeepsUnique(forms, (g: Form) => g.id != id, FormId);
      forms := FormsWithout(forms, id);
      return Success(f.value);
    }

    /** `response.deleteMany({ where: { formId } })`, returning the count. */
    method DeleteManyResponses(formId: string, fails: bool) returns (r: Result<nat, DbError>)
      requires Valid()
      modifies this
      ensures Valid()
      ensures fails ==> r == Failure(Unavailable) && responses == old(responses)
      ensures !fails ==>
                && r.Success? && responses == ResponsesNotOf(old(responses), formId)
                && r.value == |old(responses)| - |responses|
      ensures forms == old(forms)
    {
      if fails { return Failure(Unavailable); }
      var before := responses;
      FilterKeepsUnique(responses, (x: Response) => x.formId != formId, ResponseId);
      responses := ResponsesNotOf(responses, formId);
      return Success(|before| - |responses|);
    }

    /** `response.create({ data: x })`: the form must exist. */
    method CreateResponse(x: Response, fails: bool) returns (r: Result<Response, DbError>)
      requires Valid()
      modifies this
      ensures Valid()
      ensures fails ==> r == Failure(Unavailable)
      ensures !fails && FindForm(old(forms), x.formId).None? ==> r == Failure(ForeignKeyViolation)
      ensures !fails && FindForm(old(forms), x.formId).Some? && (exists y :: y in old(responses) && y.id == x.id) ==>
        r == Failure(UniqueViolation)
      ensures !fails && FindForm(old(forms), x.formId).Some? && (forall y :: y in old(responses) ==> y.id != x.id) ==>
        r == Success(x)
      ensures r.Success? ==> responses == old(responses) + [x]
      ensures r.Failure? ==> responses == old(responses)
      ensures forms == old(forms)
    {
      if fails { return Failure(Unavailable); }
      if FindForm(forms, x.formId).None? { return Failure(ForeignKeyViolation); }
      if exists y :: y in responses && y.id == x.id { return Failure(UniqueViolation); }
      responses := responses + [x];
      assert UniqueBy(responses, ResponseId) by {
        forall a, b | 0 <= a < b < |responses| ensures ResponseId(responses[a]) != ResponseId(responses[b]) {
          if b == |responses| - 1 { assert responses[a] in old(responses); }
        }
      }
      return Success(x);
    }
  }
}
