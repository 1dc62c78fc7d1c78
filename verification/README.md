# Formify — a verified model of the form builder's logic

Formify is a Shopify app. Merchants build forms (a title and an ordered list
of questions) in an admin editor and publish them. A storefront script then
renders a form in a theme block and posts shoppers' answers back. The admin
pages list responses and group them per form.

This project models that logic in Dafny:

- the question-list editor and the client-side required-answer check;
- the analytics page's grouping fold, title filter and numbering;
- the storefront renderer's field dispatch, answer collection and button state;
- every handler of the core routes, run against an abstract database.

The database (`Store.Database`) is a class with two tables, `forms` and
`responses`. Each table is a sequence in insertion order. Its invariant
`Valid()` has two parts:

- ids are unique in each table;
- every response refers to a stored form.

The foreign key is the one that app/routes/api.submit-form.jsx deletes
around. Each Prisma call the routes make is a method of that class. Each of
these methods says:

- exactly which rows it adds, replaces or removes;
- which `DbError` it throws: a missing row, a duplicate id, a foreign-key
  violation, an argument the client refuses, or an outage.

The model leaves three things to the caller as parameters:

- **Outages.** Outages are a `Fault` parameter that names which database call
  of a request fails.
- **Generated ids and timestamps.** These are parameters (`freshId`, `now`).
- **`JSON.parse` / `JSON.stringify`.** These are a `Codec` parameter. The one
  law assumed is `Lawful`: parsing what was stringified gives it back.

Each route handler is a method on a `Database`. It is specified by:

- the reply it returns for every input, including error replies;
- the new contents of the database.

The pure parts (request decoding, row shaping, projections) are functions
with their own contracts. Each file is modelled as written: the variants of
submit, fetch and listing disagree with each other, and the model keeps
those disagreements. The storefront submit route's action
(`SubmitFormApi.Action`) is modelled as written too. Beside it,
`SubmitFormApi.VerifiedAction` is the same route with the corrected
`VerifiedPost` of "## Findings".

Some behaviours of the code are easy to miss, and the model keeps them:

- The storefront renderer draws every question, hidden ones included:
  extensions/forms/assets/form-renderer.js:41 maps `renderField` over the
  whole list without looking at `visible`.
- The public single-form loader (app/routes/server.js:14-35) looks the form
  up by id alone, so it returns any stored form whatever its status or shop.
- app/routes/forms.jsx has no `try` (lines 4-34), so its failures escape the
  handler (`FormsRoute.Reply.Thrown`) instead of becoming a 500 reply.
- app/routes/api.responses.jsx answers a missing session with 500 "Failed to
  fetch responses", because its 401 is thrown inside the `try` (lines 7-12,
  54-56).
- The public submit endpoint (app/routes/api.public.submit.jsx:25-34) does not
  check that the form exists. An unknown form is refused only by the foreign
  key, with a 500.
- The storefront submit route checks a submission against the database by
  passing `formId` and `shop` straight into Prisma's filter
  (app/routes/api.submit-form.jsx:60-66). A `shop` that is a filter object
  rather than a string skips the check; see "## Findings".

## Model

| member | source | states |
|---|---|---|
| Text.TrimStart | app/routes/app._index.jsx:376 | the result is a suffix of the input and only whitespace was removed; it does not start with whitespace |
| Text.TrimEnd | app/routes/app._index.jsx:376 | the result is a prefix of the input and only whitespace was removed; it does not end with whitespace |
| Text.TrimEmptyIffBlank | extensions/forms/assets/form-renderer.js:13 | `trim()` gives the empty string exactly when every character is JavaScript whitespace |
| Text.ToLower | app/routes/app.additional.jsx:55 | same length, each character lower-cased (ASCII letters) |
| Text.NatToString | app/routes/app._index.jsx:194 | the decimal numeral of a count is non-empty and made of digits |
| Text.NatToStringValue | app/routes/app._index.jsx:194 | the numeral reads back in decimal as the count itself, with no leading zero |
| Json.Get | app/routes/api.submit-form.jsx:52-53 | a property read yields a value exactly when the value is an object holding that key, and then it is the stored field |
| Json.Coalesce | app/routes/api.forms.jsx:42-44 | `??` replaces only `undefined` and `null` by the default and keeps every other value |
| Json.Or | app/routes/api.responses.jsx:45 | `a \|\| b` keeps a truthy left operand and otherwise yields the right one |
| Json.ParseIfString | app/routes/api.forms.jsx:19-20 | non-strings are kept; a string is replaced by its parse when that succeeds and kept when the parse fails |
| Json.ParseStringified | app/routes/api.forms.jsx:43-50 | under a lawful codec, parsing a stringified value gives the value back |
| Http.FromEntries | app/routes/api.submit-form.jsx:48-49 | the last form field becomes a string property, and every property holds a string |
| Http.FromEntriesLastWins | app/routes/api.submit-form.jsx:49 | a field with no later field of the same name gives its property its value (later duplicates win) |
| Http.FromEntriesKeys | app/routes/api.submit-form.jsx:49 | every property name occurs among the form fields |
| Seqs.Filter | app/routes/app._index.jsx:191 | the result holds exactly the elements that pass the test and is no longer than the input |
| Seqs.FilterDistributes | app/routes/app._index.jsx:191 | filtering a concatenation filters each part, so relative order is kept |
| Seqs.FilterKeepsUnique | app/routes/api.submit-form.jsx:22-29 | filtering keeps distinct keys distinct |
| Seqs.FilterIdentity | app/routes/api.submit-form.jsx:22-29 | a filter that every element passes returns the input |
| Ordering.Insert | app/routes/api.forms.jsx:13-15 | inserting into a newest-first list keeps it newest-first and adds exactly that element |
| Ordering.SortNewestFirst | app/routes/api.forms.jsx:13-15 | `orderBy createdAt desc` yields a permutation of the rows ordered newest first |
| Ordering.SortedHasSameRows | app/routes/forms.jsx:8-11 | sorting neither adds nor drops a row |
| Store.FindForm | app/routes/server.js:14-16 | `findUnique` finds a stored form with that id, and finds none exactly when no form has it |
| Store.FindFormOfShop | app/routes/api.submit-form.jsx:60-62 | `findFirst` finds a stored form with that id and shop, and none exactly when no form has both |
| Store.CascadeKeepsReferences | app/routes/api.submit-form.jsx:20-29 | deleting a form's responses and then the form keeps every remaining response pointing at a remaining form |
| Store.ReplaceKeepsIds | app/routes/forms.jsx:20-24 | replacing a row by one with the same id keeps the set of ids |
| Store.Database.constructor | app/routes/api.forms.jsx:3 | an empty database satisfies the integrity invariant |
| Store.Database.FindUnique | app/routes/server.js:14-16 | returns the form with the id, if any, or throws on an outage |
| Store.Database.ListForms | app/routes/api.forms.jsx:13-15 | returns all forms, as a permutation, newest first |
| Store.Database.ListResponses | app/routes/responses.jsx:6-7 | returns all responses, as a permutation, newest first |
| Store.Database.ListFormsOfShop | app/routes/forms.jsx:8-11 | returns exactly the forms of that shop, newest first |
| Store.Database.ListResponsesOfShop | app/routes/api.responses.jsx:19-35 | returns exactly the responses whose form belongs to the shop, newest first |
| Store.ReadWhere | app/routes/api.submit-form.jsx:61 | a string `where` value is an equality test on it, a filter object is the test Prisma reads it as (or refused), any other value is refused |
| Store.FirstWhere | app/routes/api.submit-form.jsx:60-62 | the first form meeting both conditions, or none exactly when no form meets them |
| Store.FirstWhereOfStrings | app/routes/api.submit-form.jsx:60-62 | with two plain strings, `findFirst` finds exactly the form of that id and shop |
| Store.Database.FindFirst | app/routes/api.submit-form.jsx:60-62 | a refused `where` value throws an invalid-argument error and an outage an outage error; otherwise it returns the first form meeting both conditions, or none exactly when no form does |
| Store.Database.CreateForm | app/routes/api.forms.jsx:39-46 | appends the form, or throws on a duplicate id or an outage and changes nothing; the invariant is kept |
| Store.Database.UpdateForm | app/routes/forms.jsx:20-24 | the row with the id gets the given fields and keeps all others; every other row is unchanged; a missing row throws |
| Store.Database.Upsert | app/routes/forms.jsx:18-31 | an existing row changes only title, questions and settings; otherwise the create row is appended; the invariant is kept |
| Store.Database.DeleteForm | app/routes/api.submit-form.jsx:27-29 | removes the form, and throws when it is missing or a response still refers to it |
| Store.Database.DeleteManyResponses | app/routes/api.submit-form.jsx:22-24 | removes exactly the responses of the form, keeps the others in order, and returns how many were removed |
| Store.Database.CreateResponse | app/routes/api.submit-form.jsx:69-74 | appends the response, and throws when its form is missing (foreign key) or its id is taken |
| Editor.IndexOf | app/routes/app._index.jsx:192 | `findIndex` gives the first index carrying the id, or -1 exactly when none does |
| Editor.RemoveAt | app/routes/app._index.jsx:196 | `splice(i, 1)` drops exactly element i and keeps the rest in order |
| Editor.InsertAt | app/routes/app._index.jsx:196 | `splice(i, 0, x)` puts x at i, keeps the rest in order, and is undone by removing index i |
| Editor.RemoveAtKeepsIdsUnique | app/routes/app._index.jsx:196 | removing an element keeps ids unique and removes its id |
| Editor.InsertAtKeepsIdsUnique | app/routes/app._index.jsx:192 | inserting a question with an unused id keeps ids unique |
| Editor.AddQuestion | app/routes/app._index.jsx:189-190 | exactly one blank short-answer question is appended, with default options, optional and visible; earlier ones are unchanged |
| Editor.AddQuestionKeepsIdsUnique | app/routes/app._index.jsx:190 | adding with a fresh id keeps ids unique |
| Editor.CountId | app/routes/app._index.jsx:191 | the number of questions with the id is zero exactly when the id is absent |
| Editor.RemoveQuestion | app/routes/app._index.jsx:191 | every question with the id is dropped, all others are kept, and the length shrinks by their count |
| Editor.RemoveQuestionDistributes | app/routes/app._index.jsx:191 | removal works element by element, so the survivors keep their relative order |
| Editor.RemoveAbsentQuestion | app/routes/app._index.jsx:191 | removing an absent id changes nothing |
| Editor.RemoveQuestionKeepsIdsUnique | app/routes/app._index.jsx:191 | removal keeps ids unique |
| Editor.DuplicateQuestion | app/routes/app._index.jsx:192 | without the id nothing changes; otherwise a copy with the fresh id is inserted right after the original and everything else is kept |
| Editor.DuplicateQuestionKeepsIdsUnique | app/routes/app._index.jsx:192 | duplicating with a fresh id keeps ids unique |
| Editor.MoveQuestion | app/routes/app._index.jsx:196 | a missing id or an out-of-range target is a no-op; otherwise the item lands at i+dir, the list is a permutation, and the others keep their order |
| Editor.MoveQuestionKeepsIdsUnique | app/routes/app._index.jsx:196 | moving keeps ids unique |
| Editor.UpdateQuestion | app/routes/app._index.jsx:193 | only questions carrying the id are patched; all others and the length are unchanged |
| Editor.UpdateQuestionKeepsIdsUnique | app/routes/app._index.jsx:193 | a patch that keeps ids keeps them unique |
| Editor.ToggleVisible | app/routes/app._index.jsx:197 | only the matching question changes, and only its `visible` flag is negated |
| Editor.ToggleVisibleTwice | app/routes/app._index.jsx:197 | toggling twice restores the list |
| Editor.AddOption | app/routes/app._index.jsx:194 | the matching question gains "Option n+1" after its n options; nothing else changes |
| Editor.WithoutIndex | app/routes/app._index.jsx:195 | exactly index idx is removed and the remaining options keep their order; an out-of-range idx removes nothing |
| Editor.RemoveOption | app/routes/app._index.jsx:195 | only the matching question loses exactly its option at idx |
| Editor.AddThenRemoveOption | app/routes/app._index.jsx:194-195 | removing the option just added restores the list |
| Editor.Publish | app/routes/app._index.jsx:199-204 | an empty title is refused first, then an empty list; otherwise the payload is exactly the title and the questions |
| PublicForm.InitialValues | app/routes/app._index.jsx:352-353 | every question id gets an entry and only those; where ids repeat, the last question's initial value (`[]` or `''`) stays |
| PublicForm.HandleSubmit | app/routes/app._index.jsx:366-381 | nothing happens without a form; the first failing visible required question stops the submission; otherwise one entry per question, hidden ones included, in schema order |
| PublicForm.UntouchedRequiredQuestionFails | app/routes/app._index.jsx:371-377 | a visible required question still holding its initial value fails the check |
| PublicForm.TextQuestionFailsIffBlank | app/routes/app._index.jsx:376 | a visible required text answer fails exactly when it is blank |
| SubmitFormApi.ReadSubmission | app/routes/api.submit-form.jsx:42-57 | an unreadable or null body is a 500; a falsy formId or shop is the 400, and exactly then; otherwise formId and shop are the body's values, of whatever JSON type; answers come from `answers` (JSON) or all other fields (form data) |
| SubmitFormApi.Delete | app/routes/api.submit-form.jsx:9-37 | no id gives 400 and no change; otherwise the form's responses go, then the form; success iff the form exists and both calls succeed; a failure is a 500 with details, never a foreign-key one, and step A stays applied |
| SubmitFormApi.Post | app/routes/api.submit-form.jsx:40-86 | as written: a `where` value Prisma refuses or an outage is the 500; no form meeting the filter is the 404; a response is created iff a form meets the filter, formId is a string, the answers are present and no call fails, and it is then appended with the fresh id; anything refused leaves the database unchanged |
| SubmitFormApi.ShopFilterSkipsVerification | app/routes/api.submit-form.jsx:55-66 | a JSON body whose `shop` is `{ not: "" }`, not a string, passes verification and stores a response for the form of a shop it never names |
| SubmitFormApi.VerifiedPost | app/routes/api.submit-form.jsx:40-86 | corrected: a non-string formId or shop is the 400; otherwise a response is created iff a form of that id belongs to that shop, the answers are present and no call fails, and every accepted response names such a form |
| SubmitFormApi.Action | app/routes/api.submit-form.jsx:4-89 | DELETE has exactly the effect and reply `Delete` states, POST exactly those the as-written `Post` states (a response stored iff `PostAccepts`); every other method is a 405 that changes nothing |
| SubmitFormApi.VerifiedAction | app/routes/api.submit-form.jsx:4-89 | the corrected route: DELETE as in `Delete`, POST exactly as `VerifiedPost` states, so a stored response always names a form of that id and shop; every other method is a 405 that changes nothing |
| PublicSubmitApi.Action | app/routes/api.public.submit.jsx:5-41 | every reply carries the three CORS headers; OPTIONS gives 204 and changes nothing; other non-POST methods give 405; falsy fields give 400; exactly one response is inserted iff the reply is 200 |
| FormsApi.WithParsedQuestions | app/routes/api.forms.jsx:18-22 | a listed form differs from the stored row only in parsed questions |
| FormsApi.ParsedListing | app/routes/api.forms.jsx:18-22 | one normalised form per stored form, in the same order |
| FormsApi.Loader | app/routes/api.forms.jsx:11-29 | all forms, newest first, with questions parsed; an outage is a 500 |
| FormsApi.ListingShowsEveryForm | app/routes/api.forms.jsx:13-22 | every stored form appears in the listing |
| FormsApi.StoredQuestions | app/routes/api.forms.jsx:43 | stored questions are always text, and text input is stored verbatim |
| FormsApi.StoredQuestionsRoundTrip | app/routes/api.forms.jsx:43-50 | storing questions and parsing them back gives what the client sent (text comes back parsed) |
| FormsApi.NewForm | app/routes/api.forms.jsx:33-46 | a missing body, title or questions is the 400, and exactly then; past that check the row is made exactly when title is a string, shop (after `?? null`) null or a string and status (after `?? "Active"`) a string, and otherwise the create call refuses it; shop defaults to null and status to "Active" |
| FormsApi.Action | app/routes/api.forms.jsx:31-57 | a valid request appends exactly the new form and returns it with parsed questions (201); anything else changes nothing |
| FormsApi.CreatedEchoesQuestions | app/routes/api.forms.jsx:43-52 | under a lawful codec, the created form comes back with the questions the client sent |
| FormsRoute.Loader | app/routes/forms.jsx:4-13 | no shop gives []; otherwise exactly the shop's forms, newest first |
| FormsRoute.ReadSave | app/routes/forms.jsx:16-31 | the lookup key is `data.id ?? ""`; the create row carries `data.shop`, a fresh id and the "Active" default |
| FormsRoute.Action | app/routes/forms.jsx:15-34 | an existing id changes only title, questions and settings (shop kept); otherwise one form is created; the count grows by one iff no id matched |
| ServerRoute.View | app/routes/server.js:22-35 | the projection keeps id, title and createdAt, and parses the questions when they are text |
| ServerRoute.Loader | app/routes/server.js:12-39 | 404 exactly when no form has the id; otherwise the view of that form, whatever its shop or status |
| ServerRoute.StoredAnswers | app/routes/server.js:63 | answers are stored as JSON text |
| ServerRoute.StoredAnswersRoundTrip | app/routes/server.js:63 | the stored answers parse back to what was submitted |
| ServerRoute.Action | app/routes/server.js:42-71 | an unreadable or null body is a 500; falsy fields give 400 exactly then; a non-string formId or an outage of the lookup is a 500; an unknown form gives 404 and no insert; for a found form exactly one response with stringified answers is appended and returned, or the create fails with a 500 and nothing changes; the reply is never a form |
| ResponseRows.Email | app/routes/api.responses.jsx:45 | the first truthy of the two spellings, else null |
| ResponseRows.TextAnswersHaveNoEmail | app/routes/server.js:63 | answers stored as text never yield an email |
| ResponseRows.EmailPrecedenceMattersOnlyForBoth | app/routes/responses.jsx:23 | the two routes' precedences agree unless both spellings are filled, and then they differ |
| ResponsesApi.ShopRow | app/routes/api.responses.jsx:40-47 | a row copies id, formId, answers and time, takes its form's title or "Untitled Form", and prefers `email` to `Email` |
| ResponsesApi.ShopRows | app/routes/api.responses.jsx:40-47 | one row per response, in the same order |
| ResponsesApi.ShopRowsKeepOrder | app/routes/api.responses.jsx:25-27 | shaping keeps the newest-first order |
| ResponsesApi.Loader | app/routes/api.responses.jsx:6-57 | no session shop or an outage gives 500; otherwise exactly the shop's responses, newest first, each naming its own form's title |
| ResponsesRoute.RowOf | app/routes/responses.jsx:18-25 | a row exists iff the response's form exists; it prefers `Email` to `email` |
| ResponsesRoute.AllRows | app/routes/responses.jsx:18-25 | all rows in order iff every response has its form |
| ResponsesRoute.Loader | app/routes/responses.jsx:4-31 | with the foreign key in place it fails only on an outage, and lists every response newest first |
| Analytics.ParseAnswers | app/routes/app.additional.jsx:15-22 | non-strings are kept; a string is parsed; a parse failure gives the one-entry error object instead of throwing |
| Analytics.ParseAnswersRoundTrip | app/routes/app.additional.jsx:15-22 | answers stored as JSON text read back as stored |
| Analytics.DistinctIds | app/routes/app.additional.jsx:39-52 | the form ids of the rows, each once, and no others |
| Analytics.DistinctIdsInFirstAppearanceOrder | app/routes/app.additional.jsx:39-52 | the ids stand in the order of their first rows |
| Analytics.RowsForSnoc | app/routes/app.additional.jsx:49-50 | a new row joins only its own form's rows, at the end |
| Analytics.RowsForAbsent | app/routes/app.additional.jsx:41-48 | a form with no rows has an empty submission list |
| Analytics.Accumulate | app/routes/app.additional.jsx:39-52 | after the callback, the current row's form has a group |
| Analytics.AccumulateKeepsSummary | app/routes/app.additional.jsx:39-52 | one step of the reduce keeps the groups equal to the grouping of the rows seen so far |
| Analytics.GroupByForm | app/routes/app.additional.jsx:39-52 | one group per distinct form id (as many groups as ids); each group has its first row's title, counts exactly its rows and keeps them in input order |
| Analytics.CountSumSnoc | app/routes/app.additional.jsx:49 | a new row adds one to the sum of counts over distinct ids that include its form |
| Analytics.GroupCountsAddUp | app/routes/app.additional.jsx:187-194 | the group counts add up to the number of responses |
| Analytics.FilterByTitle | app/routes/app.additional.jsx:54-56 | exactly the groups whose lower-cased title contains the lower-cased term |
| Analytics.EmptySearchKeepsAll | app/routes/app.additional.jsx:54-56 | an empty search keeps every group, in order |
| Analytics.SubmissionNumbers | app/routes/app.additional.jsx:150 | the numbers run from the count down to 1, strictly decreasing, so they are distinct |
| Analytics.KeyLabel | app/routes/app.additional.jsx:161 | every underscore becomes a space and nothing else changes |
| Renderer.MissingIdIffBlank | extensions/forms/assets/form-renderer.js:13 | the id counts as missing exactly when it is absent or whitespace only |
| Renderer.FormUrl | extensions/forms/assets/form-renderer.js:13-19 | no address exactly when the id is missing; otherwise the public form address of that id |
| Renderer.QuestionsOf | extensions/forms/assets/form-renderer.js:33 | absent questions or an empty text read as the empty list, a list as itself; questions that came back as non-empty text make rendering throw |
| Renderer.RenderField | extensions/forms/assets/form-renderer.js:91-134 | select, checkboxes and paragraph get their own controls and any other type an input of that type; every control is named by the id; the select prompt defaults to "Select an option..." |
| Renderer.RequiredAttrIff | extensions/forms/assets/form-renderer.js:96-129 | the `required` attribute is set iff the question is required and not checkboxes; the asterisk iff required |
| Renderer.RenderFields | extensions/forms/assets/form-renderer.js:41 | one field per question, hidden ones included, in order |
| Renderer.InitContainer | extensions/forms/assets/form-renderer.js:9-41 | a missing id shows the message; a failed fetch, missing settings or questions stored as text show the load error; a shown form has settings and one field per question of its list |
| Renderer.MissingIdFetchesNothing | extensions/forms/assets/form-renderer.js:13-16 | with a missing id the server's answer does not matter |
| Renderer.FirstValue | extensions/forms/assets/form-renderer.js:63 | `get` gives the first value of the name, or null exactly when there is none |
| Renderer.AllValues | extensions/forms/assets/form-renderer.js:62 | `getAll` gives exactly the values of the name |
| Renderer.AllValuesSnoc | extensions/forms/assets/form-renderer.js:62 | the values come in document order, repeats included: a later field's value follows the earlier ones |
| Renderer.AnswerFor | extensions/forms/assets/form-renderer.js:61-63 | checkboxes give their values joined with ", "; any other type its single value or null |
| Renderer.CollectAnswers | extensions/forms/assets/form-renderer.js:58-64 | every question text is a key and only those; where texts repeat, the later question's answer wins |
| Renderer.SubmitBodyPassesFieldCheck | extensions/forms/assets/form-renderer.js:70 | the public endpoint's field check passes the posted body exactly when the form has an id |
| Renderer.SuccessText | extensions/forms/assets/form-renderer.js:78 | the success message, or "Submission Successful!" when it is empty |
| Renderer.SubmitState.constructor | extensions/forms/assets/form-renderer.js:42-50 | a rendered form starts ready: button live and showing its text |
| Renderer.SubmitState.Begin | extensions/forms/assets/form-renderer.js:54-55 | the button is disabled and reads "Submitting..." |
| Renderer.SubmitState.Finish | extensions/forms/assets/form-renderer.js:73-87 | a 2xx reply shows the thank-you text; any other outcome re-enables the button with its text |
| Renderer.SubmitState.Submit | extensions/forms/assets/form-renderer.js:52-88 | a failed submission leaves the form ready to retry; a successful one shows the thank-you text; the body holds the form id and the collected answers: a key for every question text and no other, each the answer of the last question with that text |

## Left out

- The React pages, CSS, alerts, hash routing and the page-level fetch helpers of app/routes/app._index.jsx and app/routes/app.additional.jsx are not modelled.
- The network is left out. `fetch` results become parameters: the fetched form, or the reply status.
- The JSON grammar and number formatting are not modelled. `JSON.parse` and `JSON.stringify` are a `Codec` parameter with the single law `Lawful`, and JSON numbers are integers.
- Ids from `uid` and Prisma's generated ids are parameters (`freshId`), and so is the clock (`now`).
- `createdAt` is an abstract ordered integer. `toISOString`, locale formatting and the "New Today" figure (clock dependent) are not modelled.
- The database schema file is not part of this model. Four assumptions stand in for it:
  - the created form's default status is "Active";
  - `title` is a required string and `questions` a required JSON column;
  - `answers` of a response is a required JSON column, which is why the store refuses `undefined` or `null` answers;
  - Prisma validates the create arguments of an upsert even when the update branch applies.
- Prisma's error messages are represented by the `DbError` behind them, not by their text. So are `err.message` bodies.
- `Store.Database.ListForms` and the other listings: the database leaves the order of rows with equal `createdAt` open, but the model fixes one. `SortNewestFirst` is a stable sort, so such rows keep their insertion order.
- `Text.ToLower` lower-cases ASCII letters only; JavaScript's full Unicode case mapping is not modelled.
- `Analytics.GroupByForm` uses a map from id to group, with creation order kept separately. Two JavaScript object behaviours are not modelled:
  - integer-like keys are listed first by `Object.values`;
  - ids such as "constructor" collide with inherited properties.
- `String(value)` of an answer value on the analytics detail view (app/routes/app.additional.jsx:164) is not modelled, because it depends on JavaScript's number and object printing.
- Authentication (`authenticate.admin`) is not modelled. The signed-in shop is an input of `ResponsesApi.Loader`.
- The renderer's HTML templating, styling, DOM wiring and `alert` are not modelled. Settings other than `buttonText` and `successMessage` are not modelled. An undefined `buttonText` printing as "undefined" is not modelled.
- extensions/forms/blocks/form-renderer.js, the webhooks and app/root.jsx are not part of this model. app/routes/api.public.form.$id.jsx is represented only by what the renderer receives from it (`Renderer.PublicForm`): the stored form, its `questions` column unchanged.
- `Store.ReadWhere`: Prisma's filter language is not modelled. How Prisma reads a filter object (`{ not: "" }`, `{ contains: … }` and the like) is a `FilterReading` parameter, and the counterexample assumes only that `{ not: "" }` lets every non-empty string pass.
- `Schema.Question`: `options` and `visible` are always present. A select or checkboxes question without `options` throws in the renderer (extensions/forms/assets/form-renderer.js:100, 107). A question without `visible` counts as visible on the dashboard (app/routes/app._index.jsx:372 tests `=== false`). Neither case is modelled.
- `Renderer.InitContainer`: truthy questions that are neither a list nor text (a non-zero number, `true`, an object) are not represented. In the source `.map` throws on them, which is the load error. The falsy values `0` and `false` read as no questions, and `Absent` covers them.
- `Renderer.CollectAnswers`: a question whose text is `__proto__` sets the answers object's prototype instead of adding a key (extensions/forms/assets/form-renderer.js:61). The model adds an ordinary key.
- Concurrency and transactions are not modelled. Each request runs alone against the database. The non-atomic delete is modelled by letting its second call fail after the first has taken effect.

## Findings

| source | as written | input that shows it | evidently intended | confidence | as-written member | corrected member |
|---|---|---|---|---|---|---|
| app/routes/api.submit-form.jsx:55-66 | `formId` and `shop` only have to be truthy, then go unchecked into `findFirst`'s `where`, where an object is read as a Prisma filter | the JSON body `{"formId":"f1","shop":{"not":""},"answers":{}}` against a form `f1` of shop `a.myshopify.com`: the filter matches and the response is stored although the body names no shop | a response is stored only for a form that belongs to the shop the body names as a string | not executed | SubmitFormApi.Post, SubmitFormApi.ShopFilterSkipsVerification | SubmitFormApi.VerifiedPost, SubmitFormApi.VerifiedAction |
