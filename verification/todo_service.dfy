/** The todo store and its operations (src/services/todo_service.py). The
    `todos` table becomes a map from id to row; every operation is a pure
    function from the store (and its arguments) to the new store and the
    operation's result. The clock reading `now` and the UUID drawn by the
    factory are parameters. */
module TodoService {
  import opened Wrappers
  import opened Strings
  import opened Sqlite
  import opened TodoModel

  /** A row of the `todos` table as the service reads and writes it: the
      columns after `id`, which is the row's key in the store. */
  datatype Row = Row(
    title: string,
    description: string,
    completedAt: Option<string>,
    createdAt: string,
    updatedAt: string)

  type Store = map<string, Row>

  /** The store after an operation, with the operation's result. */
  datatype Step<T> = Step(store: Store, value: T)

  /** The values the INSERT statement writes for a todo. */
  function TodoToRow(t: Todo): Row {
    Row(t.title, t.description, t.completedAt, t.createdAt, t.updatedAt)
  }

  /** `_row_to_todo`: `completed` is computed from `completedAt`. */
  function RowToTodo(id: string, row: Row): (t: Todo)
    ensures t.id == id && TodoToRow(t) == row
    ensures t.completed <==> row.completedAt.Some?
    ensures Consistent(t)
  {
    Todo(id, row.title, row.description, row.completedAt.Some?, row.completedAt, row.createdAt, row.updatedAt)
  }

  /** Writing a consistent todo and reading its row back gives the same todo. */
  lemma RowRoundTrip(t: Todo)
    requires Consistent(t)
    ensures RowToTodo(t.id, TodoToRow(t)) == t
  {
  }

  /** Every entry other than `id` is the same in both stores. */
  predicate Unchanged(s: Store, s': Store, id: string) {
    && s.Keys - {id} == s'.Keys - {id}
    && forall k :: k in s && k != id ==> k in s' && s'[k] == s[k]
  }

  /** What every reachable store satisfies when the tools validate their
      arguments: ids have the UUID shape, titles and descriptions are non-empty. */
  predicate Invariant(s: Store) {
    forall id :: id in s ==> IsTodoId(id) && NonEmpty(s[id].title) && NonEmpty(s[id].description)
  }

  // ---------------------------------------------------------------------------
  // Point operations

  /** `get_todo`: the stored record, or `None` exactly when there is none. */
  function GetTodo(store: Store, id: string): (r: Option<Todo>)
    ensures r.None? <==> id !in store
    ensures r.Some? ==> r.value.id == id && TodoToRow(r.value) == store[id] && Consistent(r.value)
  {
    if id in store then Some(RowToTodo(id, store[id])) else None
  }

  /** `create_todo`: build the todo with the factory and INSERT it. The new id
      is a primary key, so if it is already taken the INSERT fails and the
      store is left as it was. */
  function CreateTodo(store: Store, data: CreateTodoInput, uuid: UuidValue, now: string): (s: Step<Result<Todo, DbError>>)
    ensures s.value.Failure? <==> UuidString(uuid) in store
    ensures s.value.Failure? ==> s.store == store && s.value.error == IntegrityError(UuidString(uuid))
    ensures s.value.Success? ==>
      var t := s.value.value;
      && t.id == UuidString(uuid) && t.id !in store
      && s.store.Keys == store.Keys + {t.id}
      && |s.store| == |store| + 1
      && GetTodo(s.store, t.id) == Some(t)
      && Unchanged(store, s.store, t.id)
      && t.title == data.title && t.description == data.description
      && !t.completed && t.createdAt == now && t.updatedAt == now
  {
    var t := TodoModel.CreateTodo(data, uuid, now);
    if t.id in store then
      Step(store, Failure(IntegrityError(t.id)))
    else
      RowRoundTrip(t);
      Step(store[t.id := TodoToRow(t)], Success(t))
  }

  /** `update_todo`: on an existing id, replace title and description where
      new values are given, keep them otherwise, and restamp `updatedAt`;
      on a missing id, report `None` and change nothing. */
  function UpdateTodo(store: Store, data: UpdateTodoInput, now: string): (s: Step<Option<Todo>>)
    ensures s.value.None? <==> data.id !in store
    ensures data.id !in store ==> s.store == store
    ensures data.id in store ==>
      var before := store[data.id];
      && data.id in s.store
      && s.store.Keys == store.Keys
      && Unchanged(store, s.store, data.id)
      && s.store[data.id].title == (if Truthy(data.title) then data.title.value else before.title)
      && s.store[data.id].description == (if Truthy(data.description) then data.description.value else before.description)
      && s.store[data.id].completedAt == before.completedAt
      && s.store[data.id].createdAt == before.createdAt
      && s.store[data.id].updatedAt == now
      && s.value == GetTodo(s.store, data.id)
  {
    match GetTodo(store, data.id)
    case None => Step(store, None)
    case Some(todo) =>
      var row := store[todo.id].(
        title := if Truthy(data.title) then data.title.value else todo.title,
        description := if Truthy(data.description) then data.description.value else todo.description,
        updatedAt := now);
      var store' := store[todo.id := row];
      Step(store', GetTodo(store', todo.id))
  }

  /** `complete_todo`: on an existing id, stamp `completedAt` and `updatedAt`
      with `now`, so the returned todo reads as completed; on a missing id,
      report `None` and change nothing. */
  function CompleteTodo(store: Store, id: string, now: string): (s: Step<Option<Todo>>)
    ensures s.value.None? <==> id !in store
    ensures id !in store ==> s.store == store
    ensures id in store ==>
      var t := s.value.value;
      && s.store.Keys == store.Keys
      && Unchanged(store, s.store, id)
      && t.completed && t.completedAt == Some(now) && t.updatedAt == now
      && t.title == store[id].title && t.description == store[id].description
      && t.createdAt == store[id].createdAt
      && GetTodo(s.store, id) == Some(t)
  {
    match GetTodo(store, id)
    case None => Step(store, None)
    case Some(_) =>
      var store' := store[id := store[id].(completedAt := Some(now), updatedAt := now)];
      Step(store', GetTodo(store', id))
  }

  /** `delete_todo`: true exactly when a row with the id existed; afterwards
      there is none, and nothing else changed. */
  function DeleteTodo(store: Store, id: string): (s: Step<bool>)
    ensures s.value <==> id in store
    ensures GetTodo(s.store, id) == None
    ensures Unchanged(store, s.store, id)
    ensures |s.store| == if s.value then |store| - 1 else |store|
  {
    Step(store - {id}, id in store)
  }

  // ---------------------------------------------------------------------------
  // Relations between the point operations

  /** Deleting what was just created gives back the store from before. */
  lemma CreateThenDelete(store: Store, data: CreateTodoInput, uuid: UuidValue, now: string)
    requires UuidString(uuid) !in store
    ensures var c := CreateTodo(store, data, uuid, now);
      c.value.Success? && DeleteTodo(c.store, c.value.value.id) == Step(store, true)
  {
    var c := CreateTodo(store, data, uuid, now);
    var id := UuidString(uuid);
    assert c.value.Success? && c.value.value.id == id;
    var after := c.store - {id};
    assert after.Keys == store.Keys;
    assert forall k :: k in store ==> after[k] == store[k];
    assert after == store;
  }

  /** Repeating an update with the same arguments at the same instant changes
      nothing further. */
  lemma UpdateIdempotent(store: Store, data: UpdateTodoInput, now: string)
    ensures var u := UpdateTodo(store, data, now);
      UpdateTodo(u.store, data, now) == u
  {
  }

  /** Completing twice at the same instant is the same as completing once. */
  lemma CompleteIdempotent(store: Store, id: string, now: string)
    ensures var c := CompleteTodo(store, id, now);
      CompleteTodo(c.store, id, now) == c
  {
  }

  /** For arguments the update schema accepts, an optional field counts as
      given exactly when it is present: the truthiness test in the SQL
      parameters never discards a supplied value. */
  lemma ValidUpdateProvided(data: UpdateTodoInput)
    requires ValidUpdate(data)
    ensures Truthy(data.title) <==> data.title.Some?
    ensures Truthy(data.description) <==> data.description.Some?
  {
  }

  /** The update schema accepts exactly an id that `str(uuid)` can produce
      together with optional title and description that are truthy
      whenever present. */
  lemma UpdateSchemaAccepts(data: UpdateTodoInput)
    ensures ValidUpdate(data) <==>
      && (exists n: UuidValue :: UuidString(n) == data.id)
      && (data.title.Some? ==> Truthy(data.title))
      && (data.description.Some? ==> Truthy(data.description))
  {
    IdSchemasAcceptRenderedIds(data.id);
  }

  /** Writing one entry keeps the invariant exactly when that entry meets it. */
  lemma InvariantPut(store: Store, id: string, row: Row)
    requires Invariant(store)
    ensures Invariant(store[id := row]) <==> IsTodoId(id) && NonEmpty(row.title) && NonEmpty(row.description)
  {
    assert id in store[id := row] && store[id := row][id] == row;
  }

  /** Creating keeps the store invariant: the new id has the UUID shape and
      the schema has made title and description non-empty. */
  lemma CreatePreservesInvariant(store: Store, data: CreateTodoInput, uuid: UuidValue, now: string)
    requires Invariant(store) && ValidCreate(data)
    ensures Invariant(CreateTodo(store, data, uuid, now).store)
  {
    CreateSchemaExact(store, data, uuid, now);
  }

  /** When the new id is free, the create schema accepts exactly the inputs
      whose todo keeps the invariant: an empty title or description is the
      only way a create could break it. */
  lemma CreateSchemaExact(store: Store, data: CreateTodoInput, uuid: UuidValue, now: string)
    requires Invariant(store)
    ensures UuidString(uuid) !in store ==>
      (Invariant(CreateTodo(store, data, uuid, now).store) <==> ValidCreate(data))
  {
    var t := TodoModel.CreateTodo(data, uuid, now);
    if t.id !in store {
      assert CreateTodo(store, data, uuid, now).store == store[t.id := TodoToRow(t)];
      InvariantPut(store, t.id, TodoToRow(t));
      UuidStringIsTodoId(uuid);
    }
  }

  /** Updating keeps the invariant whatever the arguments: a new title or
      description is written only when it is non-empty, and the id must
      already be stored. */
  lemma UpdatePreservesInvariant(store: Store, data: UpdateTodoInput, now: string)
    requires Invariant(store)
    ensures Invariant(UpdateTodo(store, data, now).store)
  {
  }

  /** Completing keeps the invariant for any id. */
  lemma CompletePreservesInvariant(store: Store, id: string, now: string)
    requires Invariant(store)
    ensures Invariant(CompleteTodo(store, id, now).store)
  {
    var after := CompleteTodo(store, id, now).store;
    forall k | k in after
      ensures IsTodoId(k) && NonEmpty(after[k].title) && NonEmpty(after[k].description)
    {
      assert k in store && after[k].title == store[k].title && after[k].description == store[k].description;
    }
  }

  /** Deleting keeps the invariant for any id. */
  lemma DeletePreservesInvariant(store: Store, id: string)
    requires Invariant(store)
    ensures Invariant(DeleteTodo(store, id).store)
  {
    var after := DeleteTodo(store, id).store;
    assert forall k :: k in after ==> k in store && after[k] == store[k];
  }

  // ---------------------------------------------------------------------------
  // The active filter

  /** Ids whose `completedAt` is NULL. */
  function ActiveIds(store: Store): (ids: set<string>)
    ensures ids <= store.Keys
  {
    set id | id in store && store[id].completedAt.None?
  }

  /** Ids whose `completedAt` is set. */
  function CompletedIds(store: Store): (ids: set<string>)
    ensures ids <= store.Keys
  {
    set id | id in store && store[id].completedAt.Some?
  }

  /** Every todo is either active or completed, never both. */
  lemma ActivePartition(store: Store)
    ensures ActiveIds(store) !! CompletedIds(store)
    ensures ActiveIds(store) + CompletedIds(store) == store.Keys
    ensures |ActiveIds(store)| + |CompletedIds(store)| == |store|
  {
    assert ActiveIds(store) + CompletedIds(store) == store.Keys;
  }

  /** Completing an active todo takes exactly it off the active list;
      completing anything else leaves the active list as it was. */
  lemma CompleteShrinksActive(store: Store, id: string, now: string)
    ensures ActiveIds(CompleteTodo(store, id, now).store) == ActiveIds(store) - {id}
  {
    var after := CompleteTodo(store, id, now).store;
    forall k
      ensures k in ActiveIds(after) <==> k in ActiveIds(store) - {id}
    {
      if k != id && k in store {
        assert k in after && after[k] == store[k];
      }
    }
  }

  /** So the active count drops by one exactly when the todo was active. */
  lemma CompleteActiveCount(store: Store, id: string, now: string)
    ensures |ActiveIds(CompleteTodo(store, id, now).store)| ==
      if id in ActiveIds(store) then |ActiveIds(store)| - 1 else |ActiveIds(store)|
  {
    CompleteShrinksActive(store, id, now);
  }

  // ---------------------------------------------------------------------------
  // Listings. The queries carry no ORDER BY, so the listings below promise
  // which todos appear and that each appears once, not in which order.

  /** The ids a listing holds. */
  function Ids(r: seq<Todo>): set<string> {
    set i | 0 <= i < |r| :: r[i].id
  }

  lemma IdsAppend(r: seq<Todo>, t: Todo)
    ensures Ids(r + [t]) == Ids(r) + {t.id}
  {
    var r' := r + [t];
    forall x | x in Ids(r) + {t.id}
      ensures x in Ids(r')
    {
      if x == t.id {
        assert r'[|r|].id == x;
      } else {
        var i :| 0 <= i < |r| && r[i].id == x;
        assert r'[i].id == x;
      }
    }
  }

  predicate DistinctIds(r: seq<Todo>) {
    forall i, j :: 0 <= i < j < |r| ==> r[i].id != r[j].id
  }

  /** A listing with distinct ids has as many entries as ids. */
  lemma {:induction false} DistinctIdsCount(r: seq<Todo>)
    requires DistinctIds(r)
    ensures |Ids(r)| == |r|
  {
    if |r| > 0 {
      var init := r[..|r| - 1];
      DistinctIdsCount(init);
      assert Ids(r) == Ids(init) + {r[|r| - 1].id};
      assert r[|r| - 1].id !in Ids(init);
    }
  }

  /** The ids of the rows a WHERE clause `keep` selects. */
  function Selected(store: Store, keep: (string, Row) -> bool): (ids: set<string>)
    ensures ids <= store.Keys
  {
    set id | id in store && keep(id, store[id])
  }

  /** `r` is the result of `SELECT * FROM todos WHERE keep` in some order:
      each selected row converted by `_row_to_todo`, each exactly once. */
  predicate IsListing(store: Store, keep: (string, Row) -> bool, r: seq<Todo>) {
    && (forall i :: 0 <= i < |r| ==> r[i].id in store && r[i] == RowToTodo(r[i].id, store[r[i].id]))
    && DistinctIds(r)
    && Ids(r) == Selected(store, keep)
  }

  /** The state of a table scan: `r` lists exactly the selected rows among
      those already visited, that is, those not in `remaining`. */
  predicate Scanned(store: Store, keep: (string, Row) -> bool, r: seq<Todo>, remaining: set<string>) {
    && remaining <= store.Keys
    && (forall i :: 0 <= i < |r| ==> r[i].id in store && r[i].id !in remaining && r[i] == RowToTodo(r[i].id, store[r[i].id]))
    && DistinctIds(r)
    && Ids(r) == Selected(store, keep) - remaining
  }

  /** Visiting one more row keeps the scan state. */
  lemma ScanStep(store: Store, keep: (string, Row) -> bool, r: seq<Todo>, remaining: set<string>, id: string)
    requires Scanned(store, keep, r, remaining) && id in remaining
    ensures keep(id, store[id]) ==> Scanned(store, keep, r + [RowToTodo(id, store[id])], remaining - {id})
    ensures !keep(id, store[id]) ==> Scanned(store, keep, r, remaining - {id})
  {
    var rest := remaining - {id};
    if keep(id, store[id]) {
      var r' := r + [RowToTodo(id, store[id])];
      IdsAppend(r, RowToTodo(id, store[id]));
      assert Ids(r') == Selected(store, keep) - rest;
      forall i | 0 <= i < |r'|
        ensures r'[i].id in store && r'[i].id !in rest && r'[i] == RowToTodo(r'[i].id, store[r'[i].id])
      {
        if i < |r| {
          assert r'[i] == r[i];
        }
      }
      forall i, j | 0 <= i < j < |r'|
        ensures r'[i].id != r'[j].id
      {
        assert r'[i] == r[i];
        if j < |r| {
          assert r'[j] == r[j];
        }
      }
    } else {
      assert Ids(r) == Selected(store, keep) - rest;
    }
  }

  /** Scan the table, converting each row the WHERE clause keeps. */
  method Select(store: Store, keep: (string, Row) -> bool) returns (r: seq<Todo>)
    ensures IsListing(store, keep, r)
    ensures |r| == |Selected(store, keep)|
  {
    var remaining := store.Keys;
    r := [];
    while remaining != {}
      invariant Scanned(store, keep, r, remaining)
      decreases remaining
    {
      var id :| id in remaining;
      ScanStep(store, keep, r, remaining, id);
      if keep(id, store[id]) {
        r := r + [RowToTodo(id, store[id])];
      }
      remaining := remaining - {id};
    }
    DistinctIdsCount(r);
  }

  /** `get_all_todos`: every todo exactly once. */
  method GetAllTodos(store: Store) returns (r: seq<Todo>)
    ensures |r| == |store| && DistinctIds(r) && Ids(r) == store.Keys
    ensures forall i :: 0 <= i < |r| ==> r[i].id in store && r[i] == RowToTodo(r[i].id, store[r[i].id])
  {
    r := Select(store, (id, row) => true);
    assert Selected(store, (id, row) => true) == store.Keys;
  }

  /** The WHERE clause of the active queries: `completedAt IS NULL`. */
  predicate IsActiveRow(id: string, row: Row) {
    row.completedAt.None?
  }

  /** `get_active_todos`: exactly the todos whose `completedAt` is NULL. */
  method GetActiveTodos(store: Store) returns (r: seq<Todo>)
    ensures IsListing(store, IsActiveRow, r)
    ensures DistinctIds(r) && Ids(r) == ActiveIds(store) && |r| == |ActiveIds(store)|
    ensures forall i :: 0 <= i < |r| ==> !r[i].completed && r[i].id in store && r[i] == RowToTodo(r[i].id, store[r[i].id])
  {
    r := Select(store, IsActiveRow);
    assert Selected(store, IsActiveRow) == ActiveIds(store);
    forall i | 0 <= i < |r|
      ensures !r[i].completed
    {
      assert r[i].id in Ids(r);
    }
  }

  /** `search_by_title`: the todos whose title contains the term, ignoring
      ASCII case (`title LIKE '%term%' COLLATE NOCASE`). */
  method SearchByTitle(store: Store, term: string) returns (r: seq<Todo>)
    ensures DistinctIds(r)
    ensures Ids(r) == set id | id in store && LikeContains(store[id].title, term)
    ensures forall i :: 0 <= i < |r| ==> LikeContains(r[i].title, term) && r[i].id in store && r[i] == RowToTodo(r[i].id, store[r[i].id])
  {
    r := Select(store, (id, row: Row) => LikeContains(row.title, term));
    assert Selected(store, (id, row: Row) => LikeContains(row.title, term)) == set id | id in store && LikeContains(store[id].title, term);
    forall i | 0 <= i < |r|
      ensures LikeContains(r[i].title, term)
    {
      assert r[i].id in Ids(r);
    }
  }

  /** The title schema rejects exactly the terms for which the literal,
      ASCII-case-folded substring test `LikeContains` holds of every title:
      the empty term occurs in any title, and a non-empty term does not
      occur in the empty title. */
  lemma TitleSchemaRejectsMatchAll(term: string)
    ensures !ValidTitleSearch(term) <==> forall title :: LikeContains(title, term)
  {
    if ValidTitleSearch(term) {
      assert !LikeContains("", term) by {
        forall i
          ensures !OccursAt(Lower(""), Lower(term), i)
        {
        }
      }
    } else {
      forall title
        ensures LikeContains(title, term)
      {
        assert OccursAt(Lower(title), Lower(term), 0);
      }
    }
  }

  /** `search_by_date`: the todos whose `createdAt` begins with the given
      text (`createdAt LIKE 'date%'`). */
  method SearchByDate(store: Store, date: string) returns (r: seq<Todo>)
    ensures DistinctIds(r)
    ensures Ids(r) == set id | id in store && LikePrefix(store[id].createdAt, date)
    ensures forall i :: 0 <= i < |r| ==> LikePrefix(r[i].createdAt, date) && r[i].id in store && r[i] == RowToTodo(r[i].id, store[r[i].id])
  {
    r := Select(store, (id, row: Row) => LikePrefix(row.createdAt, date));
    assert Selected(store, (id, row: Row) => LikePrefix(row.createdAt, date)) == set id | id in store && LikePrefix(store[id].createdAt, date);
    forall i | 0 <= i < |r|
      ensures LikePrefix(r[i].createdAt, date)
    {
      assert r[i].id in Ids(r);
    }
  }

  /** A date the search schema accepts contains no letter and no wildcard, so searching by it
      is a plain prefix test on `createdAt`: a todo created at `now` is found
      exactly when `now` starts with the date. */
  lemma DateSearchIsPrefix(createdAt: string, date: string)
    requires IsDate(date)
    ensures LikePrefix(createdAt, date) <==> IsPrefix(date, createdAt)
  {
    assert Plain(date) by {
      forall i | 0 <= i < |date|
        ensures PlainChar(date[i])
      {
        assert i == 4 || i == 7 || IsDigit(date[i]);
      }
    }
    LikePrefixPlain(createdAt, date);
  }

  // ---------------------------------------------------------------------------
  // The active summary

  const NoActiveMessage := "No active todos found."

  /** The lines before the bullet list, stating how many todos are active. */
  function SummaryHeader(n: nat): string {
    "# Active Todos Summary\n\nThere are " + NatToString(n) + " active todos:\n\n"
  }

  function Bullet(t: Todo): string {
    "- " + t.title
  }

  function Bullets(todos: seq<Todo>): (lines: seq<string>)
    ensures |lines| == |todos|
    ensures forall i :: 0 <= i < |todos| ==> lines[i] == Bullet(todos[i])
  {
    seq(|todos|, i requires 0 <= i < |todos| => Bullet(todos[i]))
  }

  /** The summary text of a listing of active todos. */
  function SummaryText(active: seq<Todo>): (text: string)
    ensures text == NoActiveMessage <==> |active| == 0
    ensures |active| > 0 ==> IsPrefix(SummaryHeader(|active|), text)
  {
    if |active| == 0 then NoActiveMessage
    else
      var text := SummaryHeader(|active|) + Join("\n", Bullets(active));
      assert text[0] == '#' != NoActiveMessage[0];
      assert text[..|SummaryHeader(|active|)|] == SummaryHeader(|active|);
      text
  }

  /** Where the `i`-th bullet starts in a non-empty summary. */
  function SummaryOffset(active: seq<Todo>, i: nat): nat
    requires i < |active|
  {
    |SummaryHeader(|active|)| + JoinOffset("\n", Bullets(active), i)
  }

  /** The bullets of a non-empty summary follow the header in listing order:
      the first starts right after the header, each one is followed by a
      newline and then by the next, so every todo has a "- title" line of
      its own. */
  lemma SummaryListsEach(active: seq<Todo>, i: nat)
    requires i < |active|
    ensures i == 0 ==> SummaryOffset(active, i) == |SummaryHeader(|active|)|
    ensures OccursAt(SummaryText(active), Bullet(active[i]), SummaryOffset(active, i))
    ensures i + 1 < |active| ==>
      && OccursAt(SummaryText(active), "\n", SummaryOffset(active, i) + |Bullet(active[i])|)
      && SummaryOffset(active, i + 1) == SummaryOffset(active, i) + |Bullet(active[i])| + 1
    ensures Contains(SummaryText(active), Bullet(active[i]))
  {
    var lines := Bullets(active);
    var o := SummaryOffset(active, i);
    JoinAfterHeader(SummaryText(active), SummaryHeader(|active|), "\n", lines, i, Bullet(active[i]), o);
  }

  /** A non-empty summary ends right after its last bullet: no line follows
      the last todo. */
  lemma SummaryEndsWithLastBullet(active: seq<Todo>)
    requires |active| > 0
    ensures |SummaryText(active)| == SummaryOffset(active, |active| - 1) + |Bullet(active[|active| - 1])|
  {
    var lines := Bullets(active);
    JoinEndAfterHeader(SummaryText(active), SummaryHeader(|active|), "\n", lines);
  }

  /** `summarize_active_todos`: the fixed message when no todo is active;
      otherwise a header that states the number of active todos and one
      "- title" line per active todo. The text is the summary of a listing
      of exactly the active todos, whose layout `SummaryListsEach` and
      `SummaryEndsWithLastBullet` pin down line by line. */
  method SummarizeActiveTodos(store: Store) returns (text: string)
    ensures exists r :: IsListing(store, IsActiveRow, r) && text == SummaryText(r)
    ensures text == NoActiveMessage <==> ActiveIds(store) == {}
    ensures ActiveIds(store) != {} ==> IsPrefix(SummaryHeader(|ActiveIds(store)|), text)
    ensures forall id :: id in ActiveIds(store) ==> Contains(text, "- " + store[id].title)
  {
    var active := GetActiveTodos(store);
    text := SummaryText(active);
    forall id | id in ActiveIds(store)
      ensures Contains(text, "- " + store[id].title)
    {
      assert id in Ids(active);
      var i :| 0 <= i < |active| && active[i].id == id;
      SummaryListsEach(active, i);
    }
  }
}
