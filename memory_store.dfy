/** A reference repository: the stored rows in insertion order, with the
    answers a TaskRepository gives from them and the state each call leaves.
    It stands in for the SQL repository to state what becomes of the calls
    the service makes: every stored title is trimmed and non-blank and every
    stored status belongs to the enumeration, because the service only makes
    well-formed calls; ids are unique, because the store refuses a Create
    under an id it already holds. */
module MemoryStore {
  import opened Text
  import opened Domain
  import opened TaskService

  /** A stored task; the description column is nullable. */
  datatype Row = Row(id: Uuid, title: string, description: Option<string>, status: string)

  /** The domain.Task read from a row: its description is a plain string, so
      an absent description is read as "". */
  function AsTask(row: Row): Task {
    Task(row.id, row.title, if row.description.Some? then row.description.value else "", row.status)
  }

  type Store = seq<Row>

  function Ids(s: Store): set<Uuid> {
    if s == [] then {} else {s[0].id} + Ids(s[1..])
  }

  predicate Unique(s: Store) {
    s == [] || (s[0].id !in Ids(s[1..]) && Unique(s[1..]))
  }

  predicate Persistable(row: Row) {
    PersistableTitle(row.title) && IsValidStatus(row.status)
  }

  /** The persisted-state invariant. */
  predicate Valid(s: Store) {
    Unique(s) && forall row | row in s :: Persistable(row)
  }

  /** The row stored under id, if any. */
  function Find(s: Store, id: Uuid): (r: Option<Row>)
    ensures r.None? <==> id !in Ids(s)
    ensures r.Some? ==> r.value.id == id && r.value in s
  {
    if s == [] then None
    else if s[0].id == id then Some(s[0])
    else Find(s[1..], id)
  }

  /** A row after an update: new title and status, and the new description
      only when one is given. */
  function Revised(row: Row, title: string, description: Option<string>, status: string): Row {
    Row(row.id, title, if description.Some? then description else row.description, status)
  }

  /** The store with the row under id revised; every other row as it was. */
  function Replace(s: Store, id: Uuid, title: string, description: Option<string>, status: string): (r: Store)
    ensures |r| == |s|
    ensures forall i | 0 <= i < |s| :: r[i] == if s[i].id == id then Revised(s[i], title, description, status) else s[i]
  {
    if s == [] then
      []
    else
      [if s[0].id == id then Revised(s[0], title, description, status) else s[0]]
      + Replace(s[1..], id, title, description, status)
  }

  /** The store without the row under id: every other row is kept, and
      RemoveAppend says in their order. */
  function Remove(s: Store, id: Uuid): (r: Store)
    ensures |r| <= |s|
    ensures forall row | row in r :: row in s && row.id != id
    ensures forall row | row in s && row.id != id :: row in r
  {
    if s == [] then []
    else if s[0].id == id then Remove(s[1..], id)
    else [s[0]] + Remove(s[1..], id)
  }

  /** Remove works row by row, so it keeps the order of the rows it keeps. */
  lemma {:induction false} RemoveAppend(s: Store, u: Store, id: Uuid)
    ensures Remove(s + u, id) == Remove(s, id) + Remove(u, id)
  {
    if s != [] {
      assert (s + u)[1..] == s[1..] + u;
      RemoveAppend(s[1..], u, id);
    } else {
      assert s + u == u;
    }
  }

  /** A row passes the status filter ("" passes all). */
  predicate Passes(row: Row, filter: string) {
    filter == "" || row.status == filter
  }

  /** The list items of the rows that pass the filter: one for each such
      row and none other, and MatchingAppend says in the store's order. */
  function Matching(s: Store, filter: string): (m: seq<TaskListItem>)
    ensures |m| <= |s|
    ensures forall i | 0 <= i < |m| :: filter == "" || m[i].status == filter
    ensures forall row | row in s && Passes(row, filter) :: ListItem(AsTask(row)) in m
    ensures forall item | item in m :: exists row | row in s :: Passes(row, filter) && item == ListItem(AsTask(row))
  {
    if s == [] then
      []
    else
      (if Passes(s[0], filter) then [ListItem(AsTask(s[0]))] else [])
      + Matching(s[1..], filter)
  }

  /** Matching works row by row, so it keeps the order of the store. */
  lemma {:induction false} MatchingAppend(s: Store, u: Store, filter: string)
    ensures Matching(s + u, filter) == Matching(s, filter) + Matching(u, filter)
  {
    if s != [] {
      assert (s + u)[1..] == s[1..] + u;
      MatchingAppend(s[1..], u, filter);
    } else {
      assert s + u == u;
    }
  }

  /** One page of the matching items: for a positive limit and a
      non-negative offset, the matching items from offset on, as many as
      limit allows and as remain; an empty page otherwise. */
  function Select(s: Store, filter: string, limit: int, offset: int): (r: seq<TaskListItem>)
    ensures var m := Matching(s, filter);
      limit > 0 && offset >= 0 ==>
        && |r| == (if offset >= |m| then 0 else if |m| - offset < limit then |m| - offset else limit)
        && forall i | 0 <= i < |r| :: r[i] == m[offset + i]
    ensures limit <= 0 || offset < 0 ==> r == []
  {
    var m := Matching(s, filter);
    if limit <= 0 || offset < 0 || offset >= |m| then []
    else m[offset..if offset + limit < |m| then offset + limit else |m|]
  }

  /** The repository answering from s: Create fails on an id already stored,
      GetByID reads the row as a task, Update reports whether a row had the
      id, Delete and List never fail. */
  function Backed(s: Store): Repository {
    Repository(
      (id: Uuid, title: string, description: Option<string>, status: string) =>
        if id in Ids(s) then Some(StorageError("duplicate id")) else None,
      (id: Uuid) => (if Find(s, id).Some? then Some(AsTask(Find(s, id).value)) else None, None),
      (id: Uuid, title: string, description: Option<string>, status: string) => (id in Ids(s), None),
      (id: Uuid) => None,
      (filter: string, limit: int, offset: int) => (Select(s, filter, limit, offset), None))
  }

  /** The store a repository call leaves behind. */
  function Apply(s: Store, c: RepoCall): Store {
    match c
    case CreateCall(id, title, description, status) =>
      if id in Ids(s) then s else s + [Row(id, title, description, status)]
    case UpdateCall(id, title, description, status) => Replace(s, id, title, description, status)
    case DeleteCall(id) => Remove(s, id)
    case GetCall(_) => s
    case ListCall(_, _, _) => s
  }

  lemma {:induction false} IdsAppend(s: Store, row: Row)
    ensures Ids(s + [row]) == Ids(s) + {row.id}
    ensures row.id !in Ids(s) && Unique(s) ==> Unique(s + [row])
    ensures row.id !in Ids(s) ==> Find(s + [row], row.id) == Some(row)
  {
    if s != [] {
      assert (s + [row])[1..] == s[1..] + [row];
      IdsAppend(s[1..], row);
    } else {
      assert [] + [row] == [row];
    }
  }

  lemma IdsReplace(s: Store, id: Uuid, title: string, description: Option<string>, status: string)
    ensures Ids(Replace(s, id, title, description, status)) == Ids(s)
    ensures Unique(s) ==> Unique(Replace(s, id, title, description, status))
    ensures Find(s, id).Some? ==>
      Find(Replace(s, id, title, description, status), id) == Some(Revised(Find(s, id).value, title, description, status))
  {
    ReplaceKeepsIds(s, id, title, description, status);
    ReplaceRevisesFound(s, id, title, description, status);
  }

  lemma {:induction false} ReplaceKeepsIds(s: Store, id: Uuid, title: string, description: Option<string>, status: string)
    ensures Ids(Replace(s, id, title, description, status)) == Ids(s)
    ensures Unique(s) ==> Unique(Replace(s, id, title, description, status))
  {
    if s != [] {
      var r := Replace(s, id, title, description, status);
      assert r[0].id == s[0].id;
      assert r[1..] == Replace(s[1..], id, title, description, status);
      ReplaceKeepsIds(s[1..], id, title, description, status);
    }
  }

  lemma {:induction false} ReplaceRevisesFound(s: Store, id: Uuid, title: string, description: Option<string>, status: string)
    ensures Find(s, id).Some? ==>
      Find(Replace(s, id, title, description, status), id) == Some(Revised(Find(s, id).value, title, description, status))
  {
    if s != [] {
      var r := Replace(s, id, title, description, status);
      assert r[0].id == s[0].id;
      assert r[1..] == Replace(s[1..], id, title, description, status);
      ReplaceRevisesFound(s[1..], id, title, description, status);
    }
  }

  lemma {:induction false} IdsRemove(s: Store, id: Uuid)
    ensures Ids(Remove(s, id)) == Ids(s) - {id}
    ensures Unique(s) ==> Unique(Remove(s, id))
  {
    if s != [] {
      IdsRemove(s[1..], id);
      if s[0].id != id {
        assert Remove(s, id)[1..] == Remove(s[1..], id);
      }
    }
  }

  /** Every well-formed call leaves a valid store valid. */
  lemma ApplyPreservesValid(s: Store, c: RepoCall)
    requires Valid(s) && WellFormedCall(c)
    ensures Valid(Apply(s, c))
  {
    match c
    case CreateCall(id, title, description, status) =>
      if id !in Ids(s) {
        var row := Row(id, title, description, status);
        assert Persistable(row);
        AppendPreservesValid(s, row);
        assert Apply(s, c) == s + [row];
      } else {
        assert Apply(s, c) == s;
      }
    case UpdateCall(id, title, description, status) =>
      ReplacePreservesValid(s, id, title, description, status);
      assert Apply(s, c) == Replace(s, id, title, description, status);
    case DeleteCall(id) =>
      RemovePreservesValid(s, id);
      assert Apply(s, c) == Remove(s, id);
    case GetCall(_) =>
      assert Apply(s, c) == s;
    case ListCall(_, _, _) =>
      assert Apply(s, c) == s;
  }

  lemma AppendPreservesValid(s: Store, row: Row)
    requires Valid(s) && Persistable(row) && row.id !in Ids(s)
    ensures Valid(s + [row])
  {
    IdsAppend(s, row);
  }

  lemma ReplacePreservesValid(s: Store, id: Uuid, title: string, description: Option<string>, status: string)
    requires Valid(s) && PersistableTitle(title) && IsValidStatus(status)
    ensures Valid(Replace(s, id, title, description, status))
  {
    IdsReplace(s, id, title, description, status);
  }

  lemma RemovePreservesValid(s: Store, id: Uuid)
    requires Valid(s)
    ensures Valid(Remove(s, id))
  {
    IdsRemove(s, id);
  }

  /** Whatever the caller passes, the calls the service makes never leave
      the store's rows invalid. */
  lemma ServiceKeepsStoreValid(
    s: Store, title: string, description: string, newId: Uuid,
    id: Uuid, optDescription: Option<string>, status: string)
    requires Valid(s)
    ensures var o := Create(Backed(s), title, description, newId);
      o.call.Some? ==> Valid(Apply(s, o.call.value))
    ensures var o := Update(Backed(s), id, title, optDescription, status);
      o.call.Some? ==> Valid(Apply(s, o.call.value))
    ensures var o := Delete(Backed(s), id);
      o.call.Some? ==> Valid(Apply(s, o.call.value))
  {
    IssuedCallsAreWellFormed(Backed(s), title, description, newId, id, optDescription, status, 0, 0);
    var o1 := Create(Backed(s), title, description, newId);
    if o1.call.Some? { ApplyPreservesValid(s, o1.call.value); }
    var o2 := Update(Backed(s), id, title, optDescription, status);
    if o2.call.Some? { ApplyPreservesValid(s, o2.call.value); }
    ApplyPreservesValid(s, DeleteCall(id));
  }

  /** A task created under a fresh id is stored with the trimmed title, the
      normalized description and status "new", and GetByID then reads it
      back with the description trimmed ("" for a blank one). */
  lemma CreateThenGet(s: Store, title: string, description: string, newId: Uuid)
    requires !AllSpace(title) && newId !in Ids(s)
    ensures var o := Create(Backed(s), title, description, newId);
      && o.result == Ok(newId)
      && Find(Apply(s, o.call.value), newId) == Some(Row(newId, Trim(title), NormalizeDescription(description), "new"))
      && GetByID(Backed(Apply(s, o.call.value)), newId).result
         == Ok(Task(newId, Trim(title), Trim(description), "new"))
  {
    IdsAppend(s, Row(newId, Trim(title), NormalizeDescription(description), "new"));
  }

  /** Updating a stored task replaces its title and status; an absent
      description leaves the stored one as it was, a present one (even "")
      replaces it verbatim. */
  lemma UpdateThenGet(s: Store, id: Uuid, title: string, description: Option<string>, status: string)
    requires !AllSpace(title) && IsValidStatus(status) && id in Ids(s)
    ensures var o := Update(Backed(s), id, title, description, status);
      && o.result == Ok(())
      && var after := GetByID(Backed(Apply(s, o.call.value)), id).result;
      && after.Ok?
      && after.value.title == Trim(title) && after.value.status == status
      && after.value.description
         == if description.Some? then description.value else AsTask(Find(s, id).value).description
  {
    IdsReplace(s, id, Trim(title), description, status);
  }

  /** Updating an id that is not stored yields TaskNotFound and changes
      nothing. */
  lemma {:induction false} UpdateMissingIsNotFound(s: Store, id: Uuid, title: string, description: Option<string>, status: string)
    requires !AllSpace(title) && IsValidStatus(status) && id !in Ids(s)
    ensures var o := Update(Backed(s), id, title, description, status);
      o.result == Err(TaskNotFound) && Apply(s, o.call.value) == s
  {
    NoIdNoChange(s, id, Trim(title), description, status);
  }

  lemma {:induction false} NoIdNoChange(s: Store, id: Uuid, title: string, description: Option<string>, status: string)
    requires id !in Ids(s)
    ensures Replace(s, id, title, description, status) == s
  {
    if s != [] {
      NoIdNoChange(s[1..], id, title, description, status);
    }
  }

  /** After Delete, GetByID of the same id yields TaskNotFound. */
  lemma DeleteThenGet(s: Store, id: Uuid)
    ensures var o := Delete(Backed(s), id);
      o.result == Ok(()) && GetByID(Backed(Apply(s, o.call.value)), id).result == Err(TaskNotFound)
  {
    IdsRemove(s, id);
  }

  /** A successful List returns the page of the matching items that starts
      at the offset and holds at most the effective limit of them. */
  lemma ListHonoursFilterAndLimit(s: Store, status: string, limit: int, offset: int)
    ensures var o := List(Backed(s), status, limit, offset);
      o.result.Ok? ==>
        && limit >= 0 && offset >= 0
        && |o.result.value| <= EffectiveLimit(limit)
        && (offset < |Matching(s, status)| ==> |o.result.value| > 0)
        && forall i | 0 <= i < |o.result.value| :: o.result.value[i] == Matching(s, status)[offset + i]
  {
  }
}
