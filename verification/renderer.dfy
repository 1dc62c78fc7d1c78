/** The storefront script that mounts a form into a theme block
    (extensions/forms/assets/form-renderer.js): the form-id guard, the
    fields it draws for each question, the answers it collects on submit
    and the state of the submit button. Markup, styling and the alert are
    not modelled. */
module Renderer {
  import opened Wrappers
  import opened Json
  import opened Text
  import opened Schema
  import PublicSubmitApi

  const AppUrl := "https://shop-form-nu.vercel.app"

  /** The parts of `form.settings` the logic reads; an absent
      `successMessage` is the empty string. */
  datatype Settings = Settings(buttonText: string, successMessage: string)

  /** `form.questions` as `/api/public/form/:id` returns it. The endpoint
      hands back the stored column unchanged, so besides a list it can be
      the JSON text a form was saved as. `Absent` stands for every other
      falsy value (`null`, `undefined`, `0`, `false`), which `|| []`
      replaces by the empty list. */
  datatype FetchedQuestions = Absent | Listed(items: seq<Question>) | Encoded(text: string)

  /** The form as `/api/public/form/:id` returns it. */
  datatype PublicForm = PublicForm(id: string, title: string, settings: Option<Settings>, questions: FetchedQuestions)

  /** One question's markup: its label, the asterisk, and the control. */
  datatype Control =
    | SelectBox(name: string, required: bool, prompt: string, options: seq<string>)
    | CheckboxGroup(name: string, values: seq<string>)
    | TextArea(name: string, placeholder: string, required: bool)
    | InputBox(inputType: string, name: string, placeholder: string, required: bool)

  datatype Field = Field(caption: string, asterisk: bool, control: Control)

  /** What a container shows. */
  datatype Container =
    | MissingFormId                           // "Missing Form ID. Please set it in Theme Editor."
    | LoadError                               // "Error loading form."
    | Showing(form: PublicForm, fields: seq<Field>)

  /** A container's `data-form-id` is missing when absent, empty or only whitespace. */
  predicate MissingId(formId: Option<string>) {
    formId.None? || Trim(formId.value) == ""
  }

  /** Missing means absent or made of whitespace only. */
  lemma MissingIdIffBlank(formId: Option<string>)
    ensures MissingId(formId) <==> formId.None? || IsBlank(formId.value)
  {
    if formId.Some? { TrimEmptyIffBlank(formId.value); }
  }

  /** The address fetched for a container, if any. */
  function FormUrl(formId: Option<string>): (r: Option<string>)
    ensures r.None? <==> MissingId(formId)
    ensures r.Some? ==> r.value == AppUrl + "/api/public/form/" + formId.value
  {
    if MissingId(formId) then None else Some(AppUrl + "/api/public/form/" + formId.value)
  }

  /** `form.questions || []`, as far as `.map` takes it: absent questions and
      the empty text are falsy and read as no questions; a non-empty text
      has no `map`, so rendering throws (`None`). */
  function QuestionsOf(form: PublicForm): (qs: Option<seq<Question>>)
    ensures qs.None? <==> form.questions.Encoded? && form.questions.text != ""
    ensures form.questions.Listed? ==> qs == Some(form.questions.items)
    ensures !form.questions.Listed? && qs.Some? ==> qs == Some([])
  {
    match form.questions
    case Absent => Some([])
    case Listed(items) => Some(items)
    case Encoded(text) => if text == "" then Some([]) else None
  }

  function OrDefault(s: string, default: string): string {
    if s == "" then default else s
  }

  /** `renderField`: the control is chosen by `q.type`; every control is
      named after the question id. */
  function RenderField(q: Question): (f: Field)
    ensures f.caption == q.text && f.asterisk == q.required
    ensures f.control.name == q.id
    ensures q.kind == "select" <==> f.control.SelectBox?
    ensures q.kind == "checkboxes" <==> f.control.CheckboxGroup?
    ensures q.kind == "paragraph" <==> f.control.TextArea?
    ensures f.control.InputBox? ==> f.control.inputType == q.kind
    ensures f.control.SelectBox? ==>
      && f.control.options == q.options
      && f.control.prompt == (if q.placeholder == "" then "Select an option..." else q.placeholder)
    ensures f.control.CheckboxGroup? ==> f.control.values == q.options
    ensures (f.control.TextArea? || f.control.InputBox?) ==> f.control.placeholder == q.placeholder
  {
    var control :=
      if q.kind == "select" then SelectBox(q.id, q.required, OrDefault(q.placeholder, "Select an option..."), q.options)
      else if q.kind == "checkboxes" then CheckboxGroup(q.id, q.options)
      else if q.kind == "paragraph" then TextArea(q.id, q.placeholder, q.required)
      else InputBox(q.kind, q.id, q.placeholder, q.required);
    Field(q.text, q.required, control)
  }

  /** Whether the control carries the `required` attribute. */
  predicate HasRequiredAttr(c: Control) {
    match c
    case SelectBox(_, r, _, _) => r
    case CheckboxGroup(_, _) => false
    case TextArea(_, _, r) => r
    case InputBox(_, _, _, r) => r
  }

  /** The browser enforces a question exactly when it is required and not
      a checkbox group, while the label's asterisk follows `required` alone. */
  lemma RequiredAttrIff(q: Question)
    ensures HasRequiredAttr(RenderField(q).control) <==> q.required && q.kind != "checkboxes"
    ensures RenderField(q).asterisk <==> q.required
  {
  }

  /** `questions.map(renderField)`: every question, hidden or not, in order. */
  function RenderFields(qs: seq<Question>): (r: seq<Field>)
    ensures |r| == |qs| && forall i :: 0 <= i < |qs| ==> r[i] == RenderField(qs[i])
  {
    if qs == [] then [] else [RenderField(qs[0])] + RenderFields(qs[1..])
  }

  /** A container after loading: a missing id shows the message and fetches
      nothing; a failed fetch (`fetched` is `None`), a form without
      settings or one whose questions came back as text, each of which
      throws while rendering, shows the load error. */
  function InitContainer(formId: Option<string>, fetched: Option<PublicForm>): (c: Container)
    ensures c == MissingFormId <==> FormUrl(formId).None?
    ensures FormUrl(formId).Some? && (fetched.None? || fetched.value.settings.None?) ==> c == LoadError
    ensures FormUrl(formId).Some? && fetched.Some? && fetched.value.questions.Encoded? && fetched.value.questions.text != "" ==>
      c == LoadError
    ensures c.Showing? ==>
      && fetched == Some(c.form) && c.form.settings.Some? && QuestionsOf(c.form).Some?
      && c.fields == RenderFields(QuestionsOf(c.form).value)
    ensures FormUrl(formId).Some? && fetched.Some? && fetched.value.settings.Some? && fetched.value.questions.Listed? ==>
      c == Showing(fetched.value, RenderFields(fetched.value.questions.items))
  {
    if MissingId(formId) then MissingFormId
    else if fetched.None? || fetched.value.settings.None? then LoadError
    else match QuestionsOf(fetched.value)
      case None => LoadError
      case Some(qs) => Showing(fetched.value, RenderFields(qs))
  }

  /** Without a form id, whatever the server would have answered does not matter. */
  lemma MissingIdFetchesNothing(formId: Option<string>, a: Option<PublicForm>, b: Option<PublicForm>)
    requires formId.None? || IsBlank(formId.value)
    ensures InitContainer(formId, a) == InitContainer(formId, b) == MissingFormId
  {
    MissingIdIffBlank(formId);
  }

  /** The submitted fields, `(name, value)` in document order; an unchecked
      checkbox contributes nothing. */
  type FormData = seq<(string, string)>

  /** `formData.get(name)`: the first value of that name. */
  function FirstValue(data: FormData, name: string): (r: Option<string>)
    ensures r.None? <==> forall i :: 0 <= i < |data| ==> data[i].0 != name
    ensures r.Some? ==> exists i :: 0 <= i < |data| && data[i] == (name, r.value) && forall j :: 0 <= j < i ==> data[j].0 != name
  {
    if data == [] then None
    else if data[0].0 == name then Some(data[0].1)
    else
      var r := FirstValue(data[1..], name);
      assert forall i :: 0 < i < |data| ==> data[i] == data[1..][i - 1];
      r
  }

  /** `formData.getAll(name)`: every value of that name, in order. */
  function AllValues(data: FormData, name: string): (r: seq<string>)
    ensures |r| <= |data|
    ensures forall v :: v in r <==> (name, v) in data
  {
    if data == [] then []
    else (if data[0].0 == name then [data[0].1] else []) + AllValues(data[1..], name)
  }

  /** `getAll` reads the fields in document order: a later field's value
      comes after the earlier ones, repeats included. */
  lemma {:induction false} AllValuesSnoc(data: FormData, e: (string, string), name: string)
    ensures AllValues(data + [e], name) == AllValues(data, name) + (if e.0 == name then [e.1] else [])
  {
    if data == [] {
      assert [] + [e] == [e];
    } else {
      assert (data + [e])[1..] == data[1..] + [e];
      AllValuesSnoc(data[1..], e, name);
    }
  }

  /** One question's answer: a checkbox group gives its checked values
      joined with ", ", any other question its value or `null`. */
  function AnswerFor(q: Question, data: FormData): (a: Json)
    ensures q.kind == "checkboxes" ==> a == JStr(Join(AllValues(data, q.id), ", "))
    ensures q.kind != "checkboxes" && FirstValue(data, q.id).None? ==> a == JNull
    ensures q.kind != "checkboxes" && FirstValue(data, q.id).Some? ==> a == JStr(FirstValue(data, q.id).value)
  {
    if q.kind == "checkboxes" then JStr(Join(AllValues(data, q.id), ", "))
    else match FirstValue(data, q.id)
      case Some(v) => JStr(v)
      case None => JNull
  }

  /** No question of `qs` after `i` and before `n` has the text of `qs[i]`. */
  predicate IsLastWithTextBefore(qs: seq<Question>, i: nat, n: nat)
    requires i < |qs| && n <= |qs|
  {
    forall j :: i < j < n ==> qs[j].text != qs[i].text
  }

  /** The texts of the first `n` questions. */
  ghost function Texts(qs: seq<Question>, n: nat): set<string>
    requires n <= |qs|
  {
    if n == 0 then {} else Texts(qs, n - 1) + {qs[n - 1].text}
  }

  /** `Texts` holds exactly the texts of the first `n` questions. */
  lemma {:induction false} TextsAreQuestionTexts(qs: seq<Question>, n: nat)
    requires n <= |qs|
    ensures forall t :: t in Texts(qs, n) ==> exists k :: 0 <= k < n && qs[k].text == t
  {
    if n > 0 {
      TextsAreQuestionTexts(qs, n - 1);
    }
  }

  /** `answers` is what the first `n` questions wrote: a key per question
      text and no other, each holding the answer of the last question
      with that text. */
  ghost predicate CollectedUpTo(qs: seq<Question>, data: FormData, n: nat, answers: map<string, Json>)
    requires n <= |qs|
  {
    && (forall k :: 0 <= k < n ==> qs[k].text in answers)
    && answers.Keys <= Texts(qs, n)
    && (forall i :: 0 <= i < n && IsLastWithTextBefore(qs, i, n) ==> answers[qs[i].text] == AnswerFor(qs[i], data))
  }

  /** Writing question `n`'s answer keeps each last question's answer. */
  lemma CollectStepValues(qs: seq<Question>, data: FormData, n: nat, answers: map<string, Json>)
    requires n < |qs|
    requires forall k :: 0 <= k < n ==> qs[k].text in answers
    requires forall i :: 0 <= i < n && IsLastWithTextBefore(qs, i, n) ==> answers[qs[i].text] == AnswerFor(qs[i], data)
    ensures var next := answers[qs[n].text := AnswerFor(qs[n], data)];
      forall i :: 0 <= i < n + 1 && IsLastWithTextBefore(qs, i, n + 1) ==> next[qs[i].text] == AnswerFor(qs[i], data)
  {
    var next := answers[qs[n].text := AnswerFor(qs[n], data)];
    forall i | 0 <= i < n + 1 && IsLastWithTextBefore(qs, i, n + 1)
      ensures next[qs[i].text] == AnswerFor(qs[i], data)
    {
      if i < n {
        assert qs[i].text != qs[n].text;
        assert IsLastWithTextBefore(qs, i, n);
      }
    }
  }

  /** Writing question `n`'s answer extends what the first `n` wrote. */
  lemma CollectStep(qs: seq<Question>, data: FormData, n: nat, answers: map<string, Json>)
    requires n < |qs| && CollectedUpTo(qs, data, n, answers)
    ensures CollectedUpTo(qs, data, n + 1, answers[qs[n].text := AnswerFor(qs[n], data)])
  {
    CollectStepValues(qs, data, n, answers);
  }

  /** The submit handler's `questions.forEach`: the answers are keyed by
      question text, and where texts repeat the later question wins. */
  method CollectAnswers(qs: seq<Question>, data: FormData) returns (answers: map<string, Json>)
    ensures forall k :: 0 <= k < |qs| ==> qs[k].text in answers
    ensures forall t :: t in answers ==> exists k :: 0 <= k < |qs| && qs[k].text == t
    ensures forall i :: 0 <= i < |qs| && IsLastWithTextBefore(qs, i, |qs|) ==> answers[qs[i].text] == AnswerFor(qs[i], data)
  {
    answers := map[];
    for n := 0 to |qs|
      invariant CollectedUpTo(qs, data, n, answers)
    {
      CollectStep(qs, data, n, answers);
      answers := answers[qs[n].text := AnswerFor(qs[n], data)];
    }
    TextsAreQuestionTexts(qs, |qs|);
  }

  /** The JSON body posted to the public submit endpoint. */
  function SubmitBody(formId: string, answers: map<string, Json>): Json {
    JObj(map["formId" := JStr(formId), "answers" := JObj(answers)])
  }

  /** The endpoint's field check passes the renderer's body exactly when the
      form has an id: the answers object is always truthy, even when empty. */
  lemma SubmitBodyPassesFieldCheck(formId: string, answers: map<string, Json>)
    ensures
      var (id, a) := PublicSubmitApi.Fields(SubmitBody(formId, answers));
      Truthy(id) && Truthy(a) <==> formId != ""
  {
    var body := SubmitBody(formId, answers);
    assert Get(body, "formId") == Some(JStr(formId));
    assert Get(body, "answers") == Some(JObj(answers));
  }

  /** `res.ok`: a reply arrived with a 2xx status. */
  predicate Ok(status: Option<int>) {
    status.Some? && 200 <= status.value <= 299
  }

  /** `s.successMessage || "Submission Successful!"`. */
  function SuccessText(message: string): (r: string)
    ensures r != ""
    ensures message != "" ==> r == message
  {
    OrDefault(message, "Submission Successful!")
  }

  datatype Content = Fields | Thanks(message: string)

  /** The submit button and the form body of one rendered form. */
  class SubmitState {
    var disabled: bool
    var buttonLabel: string
    var content: Content
    const formId: string
    const settings: Settings

    /** Ready for a submission: the button is live and shows its text. */
    predicate Ready()
      reads this
    {
      !disabled && buttonLabel == settings.buttonText && content == Fields
    }

    constructor (formId: string, settings: Settings)
      ensures this.formId == formId && this.settings == settings && Ready()
    {
      this.formId, this.settings := formId, settings;
      disabled, buttonLabel, content := false, settings.buttonText, Fields;
    }

    /** Pressing submit disables the button and says so. */
    method Begin()
      modifies this
      ensures disabled && buttonLabel == "Submitting..." && content == old(content)
    {
      disabled, buttonLabel := true, "Submitting...";
    }

    /** The reply arrives (`status` is `None` when the request itself
        failed): success replaces the fields by the thank-you text; any
        failure brings the button back as it was. */
    method Finish(status: Option<int>)
      modifies this
      ensures Ok(status) ==> content == Thanks(SuccessText(settings.successMessage))
      ensures Ok(status) ==> disabled == old(disabled) && buttonLabel == old(buttonLabel)
      ensures !Ok(status) ==> !disabled && buttonLabel == settings.buttonText && content == old(content)
    {
      if Ok(status) {
        content := Thanks(SuccessText(settings.successMessage));
      } else {
        disabled, buttonLabel := false, settings.buttonText;
      }
    }

    /** One submission from a ready form: a failed one leaves the form ready
        to try again; a successful one shows the thank-you text. */
    method Submit(qs: seq<Question>, data: FormData, status: Option<int>) returns (body: Json)
      requires Ready()
      modifies this
      ensures !Ok(status) ==> Ready()
      ensures Ok(status) ==> content == Thanks(SuccessText(settings.successMessage)) && disabled
      ensures body.JObj? && body.fields.Keys == {"formId", "answers"}
      ensures body.fields["formId"] == JStr(formId) && body.fields["answers"].JObj?
      ensures forall k :: 0 <= k < |qs| ==> qs[k].text in body.fields["answers"].fields
      ensures forall t :: t in body.fields["answers"].fields ==> exists k :: 0 <= k < |qs| && qs[k].text == t
      ensures forall i :: 0 <= i < |qs| && IsLastWithTextBefore(qs, i, |qs|) ==>
        body.fields["answers"].fields[qs[i].text] == AnswerFor(qs[i], data)
    {
      Begin();
      var answers := CollectAnswers(qs, data);
      body := SubmitBody(formId, answers);
      Finish(status);
    }
  }
}
