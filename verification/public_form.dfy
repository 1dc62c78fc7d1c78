/** The respondent-side form of the dashboard page (`PublicForm` in
    app/routes/app._index.jsx): the initial answer values and the client-side
    required-answer check that runs before anything is submitted. */
module PublicForm {
  import opened Wrappers
  import opened Text
  import opened Schema

  /** What the page holds for one question: a string, or the array of
      checked options. A question without an entry reads as `undefined`. */
  datatype AnswerValue = Plain(s: string) | Checked(items: seq<string>)

  /** `{questionId, value}` of the submitted list; `value` may be `undefined`. */
  datatype AnswerEntry = AnswerEntry(questionId: string, value: Option<AnswerValue>)

  /** The loaded form; `questions` may be absent. */
  datatype LoadedForm = LoadedForm(title: string, questions: Option<seq<Question>>)

  datatype SubmitOutcome =
    | NotLoaded                            // `if (!form) return;`
    | Rejected(index: nat)                 // alert "Please answer: ..." for this question
    | Submitted(answers: seq<AnswerEntry>) // handed to the submit request

  /** The starting value: `[]` for checkboxes, `''` otherwise. */
  function InitialValue(q: Question): AnswerValue {
    if q.kind == "checkboxes" then Checked([]) else Plain("")
  }

  /** No question of `qs` after `i` and before `n` has the id of `qs[i]`. */
  predicate IsLastWithIdBefore(qs: seq<Question>, i: nat, n: nat)
    requires i < |qs| && n <= |qs|
  {
    forall j :: i < j < n ==> qs[j].id != qs[i].id
  }

  /** What the loop has built after the first `n` questions. */
  ghost predicate InitialisedUpTo(qs: seq<Question>, n: nat, init: map<string, AnswerValue>)
    requires n <= |qs|
  {
    && (forall k :: 0 <= k < n ==> qs[k].id in init)
    && (forall id :: id in init ==> exists k :: 0 <= k < n && qs[k].id == id)
    && (forall i :: 0 <= i < n && IsLastWithIdBefore(qs, i, n) ==> init[qs[i].id] == InitialValue(qs[i]))
  }

  /** Every entry of `init` belongs to one of the first `n` questions. */
  lemma StepKeepsOrigins(qs: seq<Question>, n: nat, init: map<string, AnswerValue>)
    requires n < |qs|
    requires forall id :: id in init ==> exists k :: 0 <= k < n && qs[k].id == id
    ensures forall id :: id in init || id == qs[n].id ==> exists k :: 0 <= k < n + 1 && qs[k].id == id
  {
    forall id | id in init || id == qs[n].id
      ensures exists k :: 0 <= k < n + 1 && qs[k].id == id
    {
      if id != qs[n].id {
        var k :| 0 <= k < n && qs[k].id == id;
        assert 0 <= k < n + 1;
      }
    }
  }

  /** The last question with an id so far holds that id's entry. */
  lemma StepKeepsLastValues(qs: seq<Question>, n: nat, init: map<string, AnswerValue>)
    requires n < |qs|
    requires forall k :: 0 <= k < n ==> qs[k].id in init
    requires forall i :: 0 <= i < n && IsLastWithIdBefore(qs, i, n) ==> init[qs[i].id] == InitialValue(qs[i])
    ensures forall i :: 0 <= i < n + 1 && IsLastWithIdBefore(qs, i, n + 1) ==>
      init[qs[n].id := InitialValue(qs[n])][qs[i].id] == InitialValue(qs[i])
  {
    forall i | 0 <= i < n + 1 && IsLastWithIdBefore(qs, i, n + 1)
      ensures init[qs[n].id := InitialValue(qs[n])][qs[i].id] == InitialValue(qs[i])
    {
      if i < n {
        assert qs[i].id != qs[n].id;
        assert IsLastWithIdBefore(qs, i, n);
      }
    }
  }

  /** One iteration: setting `init[q.id]` for the next question. */
  lemma InitialValuesStep(qs: seq<Question>, n: nat, init: map<string, AnswerValue>)
    requires n < |qs| && InitialisedUpTo(qs, n, init)
    ensures InitialisedUpTo(qs, n + 1, init[qs[n].id := InitialValue(qs[n])])
  {
    StepKeepsOrigins(qs, n, init);
    StepKeepsLastValues(qs, n, init);
  }

  /** `(questions || []).forEach(q => init[q.id] = ...)`: one entry per id,
      and where ids repeat the last question's value stays. */
  method InitialValues(qs: seq<Question>) returns (init: map<string, AnswerValue>)
    ensures forall k :: 0 <= k < |qs| ==> qs[k].id in init
    ensures forall id :: id in init ==> exists k :: 0 <= k < |qs| && qs[k].id == id
    ensures forall i :: 0 <= i < |qs| && IsLastWithIdBefore(qs, i, |qs|) ==> init[qs[i].id] == InitialValue(qs[i])
  {
    init := map[];
    for n := 0 to |qs|
      invariant InitialisedUpTo(qs, n, init)
    {
      InitialValuesStep(qs, n, init);
      init := init[qs[n].id := InitialValue(qs[n])];
    }
  }

  /** `String(val)`: an array prints as its items joined with ",". */
  function AsString(v: AnswerValue): string {
    match v
    case Plain(s) => s
    case Checked(items) => Join(items, ",")
  }

  /** The validation loop's test for one question: hidden questions and
      optional ones pass; a required checkboxes question needs a non-empty
      array; any other required question needs a value whose `trim()` is not
      empty. */
  predicate Fails(q: Question, values: map<string, AnswerValue>) {
    q.visible && q.required &&
    if q.kind == "checkboxes" then
      !(q.id in values && values[q.id].Checked? && values[q.id].items != [])
    else
      q.id !in values || (values[q.id].Plain? && values[q.id].s == "") || Trim(AsString(values[q.id])) == ""
  }

  /** `values[id]`, `undefined` when there is no entry. */
  function Lookup(values: map<string, AnswerValue>, id: string): Option<AnswerValue> {
    if id in values then Some(values[id]) else None
  }

  /** `handleSubmit`: the first failing question in schema order stops the
      submission; otherwise every question, hidden ones included, yields one
      answer entry in schema order. */
  method HandleSubmit(form: Option<LoadedForm>, values: map<string, AnswerValue>) returns (o: SubmitOutcome)
    ensures form.None? <==> o == NotLoaded
    ensures form.Some? ==>
      var qs := form.value.questions.GetOr([]);
      && (o.Rejected? ==>
            o.index < |qs| && Fails(qs[o.index], values)
            && forall k :: 0 <= k < o.index ==> !Fails(qs[k], values))
      && (o.Submitted? <==> forall k :: 0 <= k < |qs| ==> !Fails(qs[k], values))
      && (o.Submitted? ==>
            |o.answers| == |qs|
            && forall k :: 0 <= k < |qs| ==> o.answers[k] == AnswerEntry(qs[k].id, Lookup(values, qs[k].id)))
  {
    if form.None? {
      return NotLoaded;
    }
    var qs := form.value.questions.GetOr([]);
    for n := 0 to |qs|
      invariant forall k :: 0 <= k < n ==> !Fails(qs[k], values)
    {
      var q := qs[n];
      if !q.visible {
        continue;
      }
      if q.required {
        if q.kind == "checkboxes" {
          if !(q.id in values && values[q.id].Checked?) || values[q.id].items == [] {
            return Rejected(n);
          }
        } else {
          if q.id !in values || (values[q.id].Plain? && values[q.id].s == "") || Trim(AsString(values[q.id])) == "" {
            return Rejected(n);
          }
        }
      }
    }
    var answers := seq(|qs|, k requires 0 <= k < |qs| => AnswerEntry(qs[k].id, Lookup(values, qs[k].id)));
    return Submitted(answers);
  }

  /** A required, visible question still holding its initial value fails the
      check: for a text field `''` is blank, for checkboxes `[]` is empty. */
  lemma UntouchedRequiredQuestionFails(q: Question, values: map<string, AnswerValue>)
    requires q.visible && q.required
    requires q.id in values && values[q.id] == InitialValue(q)
    ensures Fails(q, values)
  {
  }

  /** For a required, visible text question with an entry, the check fails
      exactly when the entry prints as a blank string. */
  lemma TextQuestionFailsIffBlank(q: Question, values: map<string, AnswerValue>)
    requires q.visible && q.required && q.kind != "checkboxes" && q.id in values
    ensures Fails(q, values) <==> IsBlank(AsString(values[q.id]))
  {
    TrimEmptyIffBlank(AsString(values[q.id]));
  }
}
