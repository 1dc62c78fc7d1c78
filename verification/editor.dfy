/** The form builder's question-list operations (`ShopifyFormBuilder` in
    app/routes/app._index.jsx). Each React state update `setQuestions(prev => ...)`
    is a pure function from the old list to the new one; a fresh id from `uid`
    is a parameter. */
module Editor {
  import opened Wrappers
  import opened Text
  import opened Schema
  import opened Seqs

  /** Some question in `qs` has id `id`. */
  predicate HasId(qs: seq<Question>, id: string) {
    exists k :: 0 <= k < |qs| && qs[k].id == id
  }

  /** `prev.findIndex(x => x.id === id)` */
  function IndexOf(qs: seq<Question>, id: string): (i: int)
    ensures -1 <= i < |qs|
    ensures i == -1 <==> !HasId(qs, id)
    ensures i >= 0 ==> qs[i].id == id && forall k :: 0 <= k < i ==> qs[k].id != id
  {
    if qs == [] then -1
    else if qs[0].id == id then 0
    else
      var j := IndexOf(qs[1..], id);
      assert forall k :: 1 <= k < |qs| ==> qs[k] == qs[1..][k - 1];
      if j == -1 then -1 else j + 1
  }

  /** `s` without its element at `i` (`next.splice(i, 1)`). */
  function RemoveAt<T>(s: seq<T>, i: nat): (r: seq<T>)
    requires i < |s|
    ensures |r| == |s| - 1
    ensures multiset(r) + multiset{s[i]} == multiset(s)
    ensures forall k :: 0 <= k < i ==> r[k] == s[k]
    ensures forall k :: i <= k < |r| ==> r[k] == s[k + 1]
  {
    assert s == s[..i] + [s[i]] + s[i + 1..];
    s[..i] + s[i + 1..]
  }

  /** `s` with `x` inserted before position `i` (`next.splice(i, 0, x)`). */
  function InsertAt<T>(s: seq<T>, i: nat, x: T): (r: seq<T>)
    requires i <= |s|
    ensures |r| == |s| + 1 && r[i] == x
    ensures multiset(r) == multiset(s) + multiset{x}
    ensures RemoveAt(r, i) == s
    ensures r[..i] == s[..i] && r[i + 1..] == s[i..]
  {
    var r := s[..i] + [x] + s[i..];
    assert s == s[..i] + s[i..];
    assert r[..i] == s[..i] && r[i + 1..] == s[i..];
    r
  }

  lemma RemoveAtKeepsIdsUnique(qs: seq<Question>, i: nat)
    requires i < |qs| && UniqueIds(qs)
    ensures UniqueIds(RemoveAt(qs, i)) && !HasId(RemoveAt(qs, i), qs[i].id)
  {
    var r := RemoveAt(qs, i);
    forall a, b | 0 <= a < b < |r| ensures r[a].id != r[b].id {
      var a', b' := if a < i then a else a + 1, if b < i then b else b + 1;
      assert r[a] == qs[a'] && r[b] == qs[b'];
    }
    forall k | 0 <= k < |r| ensures r[k].id != qs[i].id {
      assert r[k] == qs[if k < i then k else k + 1];
    }
  }

  lemma InsertAtKeepsIdsUnique(qs: seq<Question>, i: nat, q: Question)
    requires i <= |qs| && UniqueIds(qs) && !HasId(qs, q.id)
    ensures UniqueIds(InsertAt(qs, i, q))
  {
    var r := InsertAt(qs, i, q);
    forall a, b | 0 <= a < b < |r| ensures r[a].id != r[b].id {
      if b > i {
        assert r[b] == r[i + 1..][b - i - 1] == qs[b - 1];
      } else if b < i {
        assert r[b] == r[..i][b] == qs[b];
      }
      if a > i {
        assert r[a] == r[i + 1..][a - i - 1] == qs[a - 1];
      } else if a < i {
        assert r[a] == r[..i][a] == qs[a];
      }
    }
  }

  /** The question `addQuestion` appends. */
  function EmptyQuestion(id: string): Question {
    Question(id, "", "short", ["Option 1", "Option 2"], false, true, "")
  }

  /** `addQuestion`: exactly one new blank short-answer question at the end. */
  function AddQuestion(qs: seq<Question>, freshId: string): (r: seq<Question>)
    ensures |r| == |qs| + 1 && r[..|qs|] == qs
    ensures var q := r[|qs|];
      q.id == freshId && q.kind == "short" && q.options == ["Option 1", "Option 2"]
      && !q.required && q.visible && q.text == "" && q.placeholder == ""
  {
    qs + [EmptyQuestion(freshId)]
  }

  lemma AddQuestionKeepsIdsUnique(qs: seq<Question>, freshId: string)
    requires UniqueIds(qs) && !HasId(qs, freshId)
    ensures UniqueIds(AddQuestion(qs, freshId))
  {
    InsertAtKeepsIdsUnique(qs, |qs|, EmptyQuestion(freshId));
    assert AddQuestion(qs, freshId) == InsertAt(qs, |qs|, EmptyQuestion(freshId));
  }

  /** How many questions of `qs` carry `id`. */
  function CountId(qs: seq<Question>, id: string): (n: nat)
    ensures n <= |qs|
    ensures n == 0 <==> !HasId(qs, id)
  {
    if qs == [] then 0
    else
      assert forall k :: 1 <= k < |qs| ==> qs[k] == qs[1..][k - 1];
      (if qs[0].id == id then 1 else 0) + CountId(qs[1..], id)
  }

  /** `removeQuestion`: `prev.filter(x => x.id !== id)`. */
  function RemoveQuestion(qs: seq<Question>, id: string): (r: seq<Question>)
    ensures |r| == |qs| - CountId(qs, id)
    ensures forall q :: q in r <==> q in qs && q.id != id
  {
    FilterNotIdCount(qs, id);
    Filter(qs, NotId(id))
  }

  /** The test `removeQuestion` filters by: any other id survives. */
  function NotId(id: string): Question -> bool {
    (q: Question) => q.id != id
  }

  /** Filtering out `id` drops exactly its occurrences. */
  lemma {:induction false} FilterNotIdCount(qs: seq<Question>, id: string)
    ensures |Filter(qs, NotId(id))| == |qs| - CountId(qs, id)
  {
    if qs != [] {
      FilterNotIdCount(qs[1..], id);
    }
  }

  /** Removal works element by element, so the survivors keep their order. */
  lemma RemoveQuestionDistributes(a: seq<Question>, b: seq<Question>, id: string)
    ensures RemoveQuestion(a + b, id) == RemoveQuestion(a, id) + RemoveQuestion(b, id)
  {
    FilterDistributes(a, b, NotId(id));
  }

  /** Removing an id that is not there changes nothing. */
  lemma {:induction false} RemoveAbsentQuestion(qs: seq<Question>, id: string)
    requires !HasId(qs, id)
    ensures RemoveQuestion(qs, id) == qs
  {
    if qs != [] {
      assert forall k :: 1 <= k < |qs| ==> qs[k] == qs[1..][k - 1];
      RemoveAbsentQuestion(qs[1..], id);
    }
  }

  lemma {:induction false} RemoveQuestionKeepsIdsUnique(qs: seq<Question>, id: string)
    requires UniqueIds(qs)
    ensures UniqueIds(RemoveQuestion(qs, id))
  {
    if qs != [] {
      var tail := RemoveQuestion(qs[1..], id);
      RemoveQuestionKeepsIdsUnique(qs[1..], id);
      if qs[0].id != id {
        forall q | q in tail ensures q.id != qs[0].id {
          var k :| 0 <= k < |qs[1..]| && qs[1..][k] == q;
          assert q == qs[k + 1];
        }
        InsertAtKeepsIdsUnique(tail, 0, qs[0]);
        assert [qs[0]] + tail == InsertAt(tail, 0, qs[0]);
      } else {
        assert [] + tail == tail;
      }
    }
  }

  /** `duplicateQuestion`: a copy with a fresh id right after the first
      question carrying `id`; nothing happens when there is none. */
  function DuplicateQuestion(qs: seq<Question>, id: string, freshId: string): (r: seq<Question>)
    ensures !HasId(qs, id) ==> r == qs
    ensures HasId(qs, id) ==>
      var i := IndexOf(qs, id);
      |r| == |qs| + 1 && r[..i + 1] == qs[..i + 1] && r[i + 1] == qs[i].(id := freshId)
      && r[i + 2..] == qs[i + 1..]
  {
    var i := IndexOf(qs, id);
    if i == -1 then qs else InsertAt(qs, i + 1, qs[i].(id := freshId))
  }

  lemma DuplicateQuestionKeepsIdsUnique(qs: seq<Question>, id: string, freshId: string)
    requires UniqueIds(qs) && !HasId(qs, freshId)
    ensures UniqueIds(DuplicateQuestion(qs, id, freshId))
  {
    var i := IndexOf(qs, id);
    if i != -1 {
      InsertAtKeepsIdsUnique(qs, i + 1, qs[i].(id := freshId));
    }
  }

  /** `moveQuestion`: the first question with `id` moves from its index `i`
      to `i + dir`; nothing happens when the id is missing or the target is
      out of range. The list is permuted and the other questions keep their order. */
  function MoveQuestion(qs: seq<Question>, id: string, dir: int): (r: seq<Question>)
    ensures |r| == |qs| && multiset(r) == multiset(qs)
    ensures var i := IndexOf(qs, id);
      i == -1 || i + dir < 0 || i + dir >= |qs| ==> r == qs
    ensures var i := IndexOf(qs, id);
      i != -1 && 0 <= i + dir < |qs| ==> r[i + dir] == qs[i] && RemoveAt(r, i + dir) == RemoveAt(qs, i)
  {
    var i := IndexOf(qs, id);
    if i == -1 || i + dir < 0 || i + dir >= |qs| then qs
    else InsertAt(RemoveAt(qs, i), i + dir, qs[i])
  }

  lemma MoveQuestionKeepsIdsUnique(qs: seq<Question>, id: string, dir: int)
    requires UniqueIds(qs)
    ensures UniqueIds(MoveQuestion(qs, id, dir))
  {
    var i := IndexOf(qs, id);
    if i != -1 && 0 <= i + dir < |qs| {
      RemoveAtKeepsIdsUnique(qs, i);
      InsertAtKeepsIdsUnique(RemoveAt(qs, i), i + dir, qs[i]);
    }
  }

  /** `updateQuestion`: `patch` (the function form, or `{...x, ...patch}` for
      the object form) replaces every question carrying `id`. */
  function UpdateQuestion(qs: seq<Question>, id: string, patch: Question -> Question): (r: seq<Question>)
    ensures |r| == |qs|
    ensures forall k :: 0 <= k < |qs| && qs[k].id != id ==> r[k] == qs[k]
    ensures forall k :: 0 <= k < |qs| && qs[k].id == id ==> r[k] == patch(qs[k])
  {
    seq(|qs|, k requires 0 <= k < |qs| => if qs[k].id == id then patch(qs[k]) else qs[k])
  }

  lemma UpdateQuestionKeepsIdsUnique(qs: seq<Question>, id: string, patch: Question -> Question)
    requires UniqueIds(qs)
    requires forall q :: patch(q).id == q.id
    ensures UniqueIds(UpdateQuestion(qs, id, patch))
  {
    var r := UpdateQuestion(qs, id, patch);
    assert forall k :: 0 <= k < |qs| ==> r[k].id == qs[k].id;
  }

  /** `toggleVisible`: negates `visible` of the matching question, nothing else. */
  function ToggleVisible(qs: seq<Question>, id: string): (r: seq<Question>)
    ensures |r| == |qs|
    ensures forall k :: 0 <= k < |qs| ==>
      r[k] == if qs[k].id == id then qs[k].(visible := !qs[k].visible) else qs[k]
  {
    UpdateQuestion(qs, id, (q: Question) => q.(visible := !q.visible))
  }

  /** Toggling twice restores the list. */
  lemma ToggleVisibleTwice(qs: seq<Question>, id: string)
    ensures ToggleVisible(ToggleVisible(qs, id), id) == qs
  {
    var once := ToggleVisible(qs, id);
    var twice := ToggleVisible(once, id);
    assert forall k :: 0 <= k < |qs| ==> once[k].id == qs[k].id;
    assert forall k :: 0 <= k < |qs| ==> twice[k] == qs[k];
  }

  /** The label `Option ${n}`. */
  function OptionLabel(n: nat): string {
    "Option " + NatToString(n)
  }

  /** `addOption`: appends `Option ${n + 1}` to the matching question's `n` options. */
  function AddOption(qs: seq<Question>, id: string): (r: seq<Question>)
    ensures |r| == |qs|
    ensures forall k :: 0 <= k < |qs| && qs[k].id != id ==> r[k] == qs[k]
    ensures forall k :: 0 <= k < |qs| && qs[k].id == id ==>
      r[k] == qs[k].(options := qs[k].options + [OptionLabel(|qs[k].options| + 1)])
  {
    UpdateQuestion(qs, id, (q: Question) => q.(options := q.options + [OptionLabel(|q.options| + 1)]))
  }

  /** `options.filter((_, i) => i !== idx)` */
  function WithoutIndex(opts: seq<string>, idx: int): (r: seq<string>)
    ensures !(0 <= idx < |opts|) ==> r == opts
    ensures 0 <= idx < |opts| ==> |r| == |opts| - 1 && r[..idx] == opts[..idx] && r[idx..] == opts[idx + 1..]
  {
    if 0 <= idx < |opts| then opts[..idx] + opts[idx + 1..] else opts
  }

  /** `removeOption`: drops exactly the option at `idx` of the matching question. */
  function RemoveOption(qs: seq<Question>, id: string, idx: int): (r: seq<Question>)
    ensures |r| == |qs|
    ensures forall k :: 0 <= k < |qs| && qs[k].id != id ==> r[k] == qs[k]
    ensures forall k :: 0 <= k < |qs| && qs[k].id == id ==>
      r[k] == qs[k].(options := WithoutIndex(qs[k].options, idx))
  {
    UpdateQuestion(qs, id, (q: Question) => q.(options := WithoutIndex(q.options, idx)))
  }

  /** Removing the option just added restores the list (ids unique). */
  lemma AddThenRemoveOption(qs: seq<Question>, id: string)
    requires UniqueIds(qs) && HasId(qs, id)
    ensures RemoveOption(AddOption(qs, id), id, |qs[IndexOf(qs, id)].options|) == qs
  {
    var i := IndexOf(qs, id);
    var added := AddOption(qs, id);
    var n := |qs[i].options|;
    var back := RemoveOption(added, id, n);
    forall k | 0 <= k < |qs| ensures back[k] == qs[k] {
      if qs[k].id == id {
        assert k == i;
        assert added[k].options[..n] == qs[k].options;
      }
    }
  }

  datatype PublishError = MissingTitle | NoQuestions

  /** What `publish` hands to `onPublish`. */
  datatype Payload = Payload(title: string, questions: seq<Question>)

  /** `publish`: a title is checked first, then that there is a question. */
  function Publish(title: string, qs: seq<Question>): (r: Result<Payload, PublishError>)
    ensures r.Success? <==> title != "" && qs != []
    ensures title == "" ==> r == Failure(MissingTitle)
    ensures title != "" && qs == [] ==> r == Failure(NoQuestions)
    ensures r.Success? ==> r.value.title == title && r.value.questions == qs
  {
    if title == "" then Failure(MissingTitle)
    else if qs == [] then Failure(NoQuestions)
    else Success(Payload(title, qs))
  }
}
