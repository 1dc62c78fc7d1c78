/** What a route handler reads of an HTTP request. */
module Http {
  import opened Wrappers
  import opened Json
  import opened Text
  import opened Store

  /** A request. `query` holds the first value of each search parameter.
      The body is given as what `request.json()` and `request.formData()`
      would produce; `None` where that call throws. */
  datatype Request = Request(
    verb: string,
    query: map<string, string>,
    contentType: Option<string>,
    jsonBody: Option<Json>,
    formBody: Option<seq<(string, string)>>)

  /** Why a handler's `try` block throws: the body is not what the handler
      reads (`request.json()` fails, or destructuring meets `null`), or a
      database call fails. */
  datatype Cause = Unreadable | Db(error: DbError)

  /** `url.searchParams.get(name)`; `None` is `null`. */
  function QueryParam(req: Request, name: string): Option<string> {
    if name in req.query then Some(req.query[name]) else None
  }

  /** A truthy string parameter: present and not empty. */
  predicate Given(p: Option<string>) {
    p.Some? && p.value != ""
  }

  /** `contentType?.includes("application/json")` */
  predicate IsJson(req: Request) {
    req.contentType.Some? && Contains(req.contentType.value, "application/json")
  }

  /** `Object.fromEntries(formData.entries())`: every field becomes a string
      property, and a later field overwrites an earlier one of the same name. */
  function FromEntries(entries: seq<(string, string)>): (m: map<string, Json>)
    ensures entries != [] ==> entries[|entries| - 1].0 in m && m[entries[|entries| - 1].0] == JStr(entries[|entries| - 1].1)
    ensures forall k :: k in m ==> m[k].JStr?
  {
    if entries == [] then map[]
    else
      var last := entries[|entries| - 1];
      FromEntries(entries[..|entries| - 1])[last.0 := JStr(last.1)]
  }

  /** The property a field ends with is the value of its last occurrence. */
  lemma {:induction false} FromEntriesLastWins(entries: seq<(string, string)>, i: nat)
    requires i < |entries|
    requires forall j :: i < j < |entries| ==> entries[j].0 != entries[i].0
    ensures entries[i].0 in FromEntries(entries)
    ensures FromEntries(entries)[entries[i].0] == JStr(entries[i].1)
  {
    if i < |entries| - 1 {
      FromEntriesLastWins(entries[..|entries| - 1], i);
    }
  }

  /** Only names that occur among the fields become properties. */
  lemma {:induction false} FromEntriesKeys(entries: seq<(string, string)>, k: string)
    requires k in FromEntries(entries)
    ensures exists i :: 0 <= i < |entries| && entries[i].0 == k
  {
    var last := entries[|entries| - 1];
    if k == last.0 {
      assert entries[|entries| - 1].0 == k;
    } else {
      FromEntriesKeys(entries[..|entries| - 1], k);
      var i :| 0 <= i < |entries| - 1 && entries[..|entries| - 1][i].0 == k;
      assert entries[i].0 == k;
    }
  }
}
