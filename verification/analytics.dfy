/** The analytics page's logic (app/routes/app.additional.jsx): reading
    stored answers, grouping the shop's responses by form, filtering the
    groups by title, and numbering a form's submissions. The page itself,
    its fetch and its styling are not modelled. */
module Analytics {
  import opened Wrappers
  import opened Json
  import opened Text
  import opened Seqs
  import opened ResponseRows

  const UnreadableAnswers: Json := JObj(map["Error" := JStr("Could not read response data")])

  /** `parseAnswers`: JSON text is parsed, anything else is kept; text that
      does not parse becomes a one-entry error object instead of throwing. */
  function ParseAnswers(c: Codec, answers: Json): (r: Json)
    ensures !answers.JStr? ==> r == answers
    ensures answers.JStr? && c.parse(answers.s).Some? ==> r == c.parse(answers.s).value
    ensures answers.JStr? && c.parse(answers.s).None? ==> r == UnreadableAnswers
  {
    if !answers.JStr? then answers
    else match c.parse(answers.s)
      case Some(v) => v
      case None => UnreadableAnswers
  }

  /** Answers stored as JSON text read back as what was stored. */
  lemma ParseAnswersRoundTrip(c: Codec, v: Json)
    requires Lawful(c)
    ensures ParseAnswers(c, JStr(c.stringify(v))) == v
  {
    assert c.parse(c.stringify(v)) == Some(v);
  }

  /** One entry of `groupedForms`. */
  datatype Group = Group(formId: string, formTitle: string, count: nat, submissions: seq<Row>)

  /** The rows of form `id`, in input order. */
  function RowsFor(rows: seq<Row>, id: string): seq<Row> {
    Filter(rows, (r: Row) => r.formId == id)
  }

  predicate NoDuplicates(ids: seq<string>) {
    forall i, j :: 0 <= i < j < |ids| ==> ids[i] != ids[j]
  }

  /** The form ids of `rows`, each once, in order of first appearance: the
      order in which the fold creates groups. */
  function DistinctIds(rows: seq<Row>): (ids: seq<string>)
    ensures NoDuplicates(ids)
    ensures forall id :: id in ids <==> exists i :: 0 <= i < |rows| && rows[i].formId == id
  {
    if rows == [] then []
    else
      var prefix := DistinctIds(rows[..|rows| - 1]);
      var x := rows[|rows| - 1];
      assert forall i :: 0 <= i < |rows| - 1 ==> rows[..|rows| - 1][i] == rows[i];
      if x.formId in prefix then prefix else prefix + [x.formId]
  }

  /** Where `id`'s first row stands, `|rows|` when it has none. */
  function FirstIndex(rows: seq<Row>, id: string): (k: nat)
    ensures k <= |rows|
    ensures k < |rows| ==> rows[k].formId == id
    ensures forall i :: 0 <= i < k ==> rows[i].formId != id
  {
    if rows == [] then 0
    else if rows[0].formId == id then 0
    else
      var k := FirstIndex(rows[1..], id);
      assert forall i :: 0 < i <= k ==> rows[i] == rows[1..][i - 1];
      1 + k
  }

  /** Appending a row leaves every present id's first row where it was, and
      puts a new id's first row at the end. */
  lemma FirstIndexSnoc(rows: seq<Row>, x: Row, id: string)
    ensures FirstIndex(rows, id) < |rows| ==> FirstIndex(rows + [x], id) == FirstIndex(rows, id)
    ensures FirstIndex(rows, id) == |rows| && x.formId == id ==> FirstIndex(rows + [x], id) == |rows|
  {
    var all := rows + [x];
    var a, b := FirstIndex(rows, id), FirstIndex(all, id);
    assert forall i :: 0 <= i < |rows| ==> all[i] == rows[i];
    if a < |rows| {
      assert all[a] == rows[a];
    } else if x.formId == id {
      assert all[|rows|] == x;
    }
  }

  /** The ids of `DistinctIds` stand in the order of their first rows. */
  lemma {:induction false} DistinctIdsInFirstAppearanceOrder(rows: seq<Row>)
    ensures var ids := DistinctIds(rows);
      forall i, j :: 0 <= i < j < |ids| ==> FirstIndex(rows, ids[i]) < FirstIndex(rows, ids[j])
    ensures forall id :: id in DistinctIds(rows) ==> FirstIndex(rows, id) < |rows|
  {
    if rows != [] {
      var p, x := rows[..|rows| - 1], rows[|rows| - 1];
      assert rows == p + [x];
      DistinctIdsInFirstAppearanceOrder(p);
      DistinctIdsSnoc(p, x);
      var before, ids := DistinctIds(p), DistinctIds(rows);
      forall id | id in before
        ensures FirstIndex(rows, id) == FirstIndex(p, id) < |p|
      {
        FirstIndexSnoc(p, x, id);
      }
      if x.formId !in before {
        assert forall i :: 0 <= i < |p| ==> p[i].formId != x.formId;
        FirstIndexSnoc(p, x, x.formId);
        assert ids == before + [x.formId];
      }
      forall i, j | 0 <= i < j < |ids|
        ensures FirstIndex(rows, ids[i]) < FirstIndex(rows, ids[j])
      {
        assert ids[i] == before[i];
        if j < |before| {
          assert ids[j] == before[j];
        }
      }
    }
  }

  /** Appending a row adds it to its own form's rows only. */
  lemma RowsForSnoc(rows: seq<Row>, x: Row, id: string)
    ensures RowsFor(rows + [x], id) == RowsFor(rows, id) + (if x.formId == id then [x] else [])
  {
    FilterDistributes(rows, [x], (r: Row) => r.formId == id);
    assert [x][1..] == [];
  }

  /** A form none of whose rows are present has no rows. */
  lemma {:induction false} RowsForAbsent(rows: seq<Row>, id: string)
    requires forall i :: 0 <= i < |rows| ==> rows[i].formId != id
    ensures RowsFor(rows, id) == []
  {
    if rows != [] {
      RowsForAbsent(rows[1..], id);
    }
  }

  /** `acc[id]` of the fold after `rows`. */
  function GroupOf(rows: seq<Row>, id: string): Group
    requires RowsFor(rows, id) != []
  {
    var mine := RowsFor(rows, id);
    Group(id, mine[0].formTitle, |mine|, mine)
  }

  /** What the fold has built after `rows`: exactly the groups above, and
      the ids in creation order. */
  ghost predicate Summarises(rows: seq<Row>, groups: map<string, Group>, order: seq<string>) {
    && order == DistinctIds(rows)
    && (forall id :: id in groups <==> id in order)
    && |groups| == |order|
    && forall id :: id in groups ==> RowsFor(rows, id) != [] && groups[id] == GroupOf(rows, id)
  }

  /** The reduce callback: create the group of `x`'s form if it is new, then
      count `x` and append it. `order` records creation order. */
  function Accumulate(groups: map<string, Group>, order: seq<string>, x: Row): (r: (map<string, Group>, seq<string>))
    ensures x.formId in r.0
  {
    var g := if x.formId in groups then groups[x.formId] else Group(x.formId, x.formTitle, 0, []);
    (groups[x.formId := g.(count := g.count + 1, submissions := g.submissions + [x])],
     if x.formId in groups then order else order + [x.formId])
  }

  /** Appending a row adds its form id at the end when it is new. */
  lemma DistinctIdsSnoc(rows: seq<Row>, x: Row)
    ensures DistinctIds(rows + [x]) ==
      if x.formId in DistinctIds(rows) then DistinctIds(rows) else DistinctIds(rows) + [x.formId]
  {
    var all := rows + [x];
    assert all[..|all| - 1] == rows;
  }

  /** A form id the rows do not produce has no rows. */
  lemma NotYetSeen(rows: seq<Row>, id: string)
    requires id !in DistinctIds(rows)
    ensures RowsFor(rows, id) == []
  {
    assert forall i :: 0 <= i < |rows| ==> rows[i].formId != id;
    RowsForAbsent(rows, id);
  }

  /** Appending a row starts its form's group or extends it by one. */
  lemma GroupOfSnoc(rows: seq<Row>, x: Row, id: string)
    requires RowsFor(rows, id) != [] || id == x.formId
    ensures RowsFor(rows + [x], id) != []
    ensures RowsFor(rows, id) == [] ==> GroupOf(rows + [x], id) == Group(id, x.formTitle, 1, [x])
    ensures RowsFor(rows, id) != [] ==>
      GroupOf(rows + [x], id) == (var g := GroupOf(rows, id);
        if id == x.formId then g.(count := g.count + 1, submissions := g.submissions + [x]) else g)
  {
    RowsForSnoc(rows, x, id);
  }

  /** A row of a form already grouped extends that group by one. */
  lemma AccumulateExisting(rows: seq<Row>, groups: map<string, Group>, order: seq<string>, x: Row)
    requires Summarises(rows, groups, order)
    requires x.formId in groups
    ensures Summarises(rows + [x], Accumulate(groups, order, x).0, Accumulate(groups, order, x).1)
  {
    var all := rows + [x];
    var g := groups[x.formId];
    var g1 := groups[x.formId := g.(count := g.count + 1, submissions := g.submissions + [x])];
    assert Accumulate(groups, order, x) == (g1, order);
    assert DistinctIds(all) == order by {
      DistinctIdsSnoc(rows, x);
    }
    assert forall id :: id in g1 ==> RowsFor(all, id) != [] && g1[id] == GroupOf(all, id) by {
      forall id | id in g1
        ensures RowsFor(all, id) != [] && g1[id] == GroupOf(all, id)
      {
        GroupOfSnoc(rows, x, id);
      }
    }
  }

  /** After the first row of a new form, every group, old or new, is the
      grouping of the longer rows. */
  lemma NewGroupMatches(rows: seq<Row>, groups: map<string, Group>, order: seq<string>, x: Row)
    requires Summarises(rows, groups, order)
    requires x.formId !in groups
    ensures var g1 := groups[x.formId := Group(x.formId, x.formTitle, 1, [x])];
      forall id :: id in g1 ==> RowsFor(rows + [x], id) != [] && g1[id] == GroupOf(rows + [x], id)
  {
    var g1 := groups[x.formId := Group(x.formId, x.formTitle, 1, [x])];
    NotYetSeen(rows, x.formId);
    forall id | id in g1
      ensures RowsFor(rows + [x], id) != [] && g1[id] == GroupOf(rows + [x], id)
    {
      GroupOfSnoc(rows, x, id);
    }
  }

  /** The first row of a form creates its group with a count of one. */
  lemma AccumulateNew(rows: seq<Row>, groups: map<string, Group>, order: seq<string>, x: Row)
    requires Summarises(rows, groups, order)
    requires x.formId !in groups
    ensures Summarises(rows + [x], Accumulate(groups, order, x).0, Accumulate(groups, order, x).1)
  {
    var all := rows + [x];
    var g1 := groups[x.formId := Group(x.formId, x.formTitle, 1, [x])];
    var order1 := order + [x.formId];
    assert Accumulate(groups, order, x) == (g1, order1) by {
      assert [] + [x] == [x];
    }
    assert DistinctIds(all) == order1 by {
      DistinctIdsSnoc(rows, x);
    }
    assert |g1| == |order1| by {
      assert |g1| == |groups| + 1;
    }
    assert forall id :: id in g1 <==> id in order1;
    NewGroupMatches(rows, groups, order, x);
  }

  /** One step of the fold keeps its result equal to the grouping of the rows seen. */
  lemma AccumulateKeepsSummary(rows: seq<Row>, groups: map<string, Group>, order: seq<string>, x: Row)
    requires Summarises(rows, groups, order)
    ensures Summarises(rows + [x], Accumulate(groups, order, x).0, Accumulate(groups, order, x).1)
  {
    if x.formId in groups {
      AccumulateExisting(rows, groups, order, x);
    } else {
      AccumulateNew(rows, groups, order, x);
    }
  }

  /** The loop form of one step: the fold over a longer prefix. */
  lemma AccumulatePrefix(rows: seq<Row>, n: nat, groups: map<string, Group>, order: seq<string>)
    requires n < |rows|
    requires Summarises(rows[..n], groups, order)
    ensures Summarises(rows[..n + 1], Accumulate(groups, order, rows[n]).0, Accumulate(groups, order, rows[n]).1)
  {
    assert rows[..n + 1] == rows[..n] + [rows[n]];
    AccumulateKeepsSummary(rows[..n], groups, order, rows[n]);
  }

  /** The `groupedForms` reduce: one group per distinct form id, created at
      its first row with that row's title, counting and collecting the rows
      in input order. `order` is the order in which groups were created. */
  method GroupByForm(rows: seq<Row>) returns (groups: map<string, Group>, order: seq<string>)
    ensures order == DistinctIds(rows)
    ensures forall id :: id in groups <==> id in order
    ensures |groups| == |order|
    ensures forall id :: id in groups ==> RowsFor(rows, id) != [] && groups[id] == GroupOf(rows, id)
  {
    groups, order := map[], [];
    for n := 0 to |rows|
      invariant Summarises(rows[..n], groups, order)
    {
      AccumulatePrefix(rows, n, groups, order);
      var next := Accumulate(groups, order, rows[n]);
      groups, order := next.0, next.1;
    }
    assert rows[..|rows|] == rows;
  }

  /** The sum of |RowsFor(rows, id)| over `ids`. */
  function CountSum(rows: seq<Row>, ids: seq<string>): nat {
    if ids == [] then 0 else CountSum(rows, ids[..|ids| - 1]) + |RowsFor(rows, ids[|ids| - 1])|
  }

  /** A new row adds one to the sum over any list of distinct ids holding its form. */
  lemma {:induction false} CountSumSnoc(rows: seq<Row>, x: Row, ids: seq<string>)
    requires NoDuplicates(ids)
    ensures CountSum(rows + [x], ids) == CountSum(rows, ids) + (if x.formId in ids then 1 else 0)
  {
    if ids != [] {
      var init, last := ids[..|ids| - 1], ids[|ids| - 1];
      assert ids == init + [last];
      CountSumSnoc(rows, x, init);
      RowsForSnoc(rows, x, last);
      assert x.formId in ids <==> x.formId in init || x.formId == last;
      assert x.formId == last ==> x.formId !in init;
    }
  }

  /** The group counts add up to the number of responses: the page's
      "Total Submissions" is the sum over its "Active Forms". */
  lemma {:induction false} GroupCountsAddUp(rows: seq<Row>)
    ensures CountSum(rows, DistinctIds(rows)) == |rows|
  {
    if rows != [] {
      var p, x := rows[..|rows| - 1], rows[|rows| - 1];
      assert rows == p + [x];
      GroupCountsAddUp(p);
      var ids := DistinctIds(p);
      CountSumSnoc(p, x, ids);
      if x.formId !in ids {
        assert forall i :: 0 <= i < |p| ==> p[i].formId != x.formId;
        RowsForAbsent(p, x.formId);
        RowsForSnoc(p, x, x.formId);
        assert (ids + [x.formId])[..|ids|] == ids;
      }
    }
  }

  /** The `formList` filter over `Object.values(groupedForms)`: the groups
      whose lower-cased title contains the lower-cased search term, in order. */
  function FilterByTitle(groups: seq<Group>, term: string): (r: seq<Group>)
    ensures forall g :: g in r <==> g in groups && Contains(ToLower(g.formTitle), ToLower(term))
  {
    Filter(groups, (g: Group) => Contains(ToLower(g.formTitle), ToLower(term)))
  }

  /** An empty search keeps every group, in order. */
  lemma EmptySearchKeepsAll(groups: seq<Group>)
    ensures FilterByTitle(groups, "") == groups
  {
    FilterIdentity(groups, (g: Group) => Contains(ToLower(g.formTitle), ToLower("")));
  }

  /** `Submission #{length - index}` for each of `n` submissions. */
  function SubmissionNumbers(n: nat): (r: seq<nat>)
    ensures |r| == n
    ensures forall i :: 0 <= i < n ==> 1 <= r[i] <= n
    ensures forall i, j :: 0 <= i < j < n ==> r[i] > r[j]
    ensures n > 0 ==> r[0] == n && r[n - 1] == 1
  {
    seq(n, i requires 0 <= i < n => n - i)
  }

  /** `key.replace(/_/g, " ")`. */
  function KeyLabel(key: string): (r: string)
    ensures |r| == |key|
    ensures forall i :: 0 <= i < |key| ==> r[i] == if key[i] == '_' then ' ' else key[i]
    ensures '_' !in r
  {
    if key == [] then [] else [if key[0] == '_' then ' ' else key[0]] + KeyLabel(key[1..])
  }
}
