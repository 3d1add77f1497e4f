/** The row mapping of the one-off migration from the old `todos` table
    (title, description, timestamps) to the current one (task_name,
    completed, skipped, order), in src/services/database_service.py. Each
    old row becomes one new row; the new table's id is a PRIMARY KEY. */
module Migration {
  import opened Wrappers
  import opened Strings
  import opened Sqlite

  /** The columns the migration SELECTs from an old row; a SQL NULL is `None`. */
  datatype LegacyRow = LegacyRow(
    id: string,
    title: Option<string>,
    description: Option<string>,
    completedAt: Option<string>,
    skippedAt: Option<string>,
    order: Option<int>)

  /** A row of the current table; the flags are SQLite integers 0 or 1. */
  datatype MigratedRow = MigratedRow(id: string, taskName: string, completed: int, skipped: int, order: int)

  /** The f-string rendering `f"{v}"` of a nullable text column: NULL
      arrives as Python `None` and renders as the word "None". */
  function Render(v: Option<string>): string {
    match v
    case Some(s) => s
    case None => "None"
  }

  /** `task_name`: the title, widened to "title: description" when there is
      a description; the description alone when the title is empty. */
  function TaskName(title: Option<string>, description: Option<string>): (name: string)
    ensures !Truthy(description) ==> name == Render(title)
    ensures Truthy(description) && Truthy(title) ==>
      IsPrefix(title.value + ": ", name) && IsSuffix(description.value, name)
      && |name| == |title.value| + 2 + |description.value|
    ensures Truthy(description) && !Truthy(title) ==> name == description.value
    ensures Truthy(title) || Truthy(description) ==> |name| > 0
  {
    var name := Render(title);
    if Truthy(description) then
      if Truthy(title) then
        var joined := title.value + ": " + description.value;
        assert joined[..|title.value| + 2] == title.value + ": ";
        assert joined[|joined| - |description.value|..] == description.value;
        joined
      else
        description.value
    else
      name
  }

  /** Index of the first occurrence of `c` in `s`, if any. */
  function FirstIndex(s: string, c: char): (r: Option<nat>)
    ensures r.Some? ==> r.value < |s| && s[r.value] == c && forall j :: 0 <= j < r.value ==> s[j] != c
    ensures r.None? ==> forall j :: 0 <= j < |s| ==> s[j] != c
  {
    if |s| == 0 then None
    else if s[0] == c then Some(0)
    else match FirstIndex(s[1..], c)
      case None => None
      case Some(k) => Some(k + 1)
  }

  /** When the title holds no colon, the combined name can be split back:
      the title is everything before the first colon and the description
      everything after the following ": ". */
  lemma {:induction false} TaskNameSplits(title: string, description: string)
    requires title != "" && description != ""
    requires forall j :: 0 <= j < |title| ==> title[j] != ':'
    ensures var name := TaskName(Some(title), Some(description));
      FirstIndex(name, ':') == Some(|title|)
      && name[..|title|] == title && name[|title| + 2..] == description
  {
    var name := TaskName(Some(title), Some(description));
    assert name == title + ": " + description;
    assert name[|title|] == ':';
    assert forall j :: 0 <= j < |title| ==> name[j] == title[j];
    var k := FirstIndex(name, ':');
    assert k.Some?;
    assert k.value == |title|;
  }

  /** SQL `CASE WHEN x IS NOT NULL THEN 1 ELSE 0 END`. */
  function NotNullFlag<T>(v: Option<T>): (flag: int)
    ensures flag == 0 || flag == 1
    ensures flag == 1 <==> v.Some?
  {
    if v.Some? then 1 else 0
  }

  /** Python `order or 0`: NULL and 0 both become 0, anything else is kept. */
  function OrderOrZero(order: Option<int>): (r: int)
    ensures order.None? ==> r == 0
    ensures order.Some? ==> r == order.value
  {
    if order.Some? && order.value != 0 then order.value else 0
  }

  /** The INSERT values for one old row. */
  function MigrateRow(row: LegacyRow): (m: MigratedRow)
    ensures m.id == row.id
    ensures m.completed == 1 <==> row.completedAt.Some?
    ensures m.skipped == 1 <==> row.skippedAt.Some?
    ensures m.completed in {0, 1} && m.skipped in {0, 1}
    ensures m.order == OrderOrZero(row.order)
    ensures m.taskName == TaskName(row.title, row.description)
  {
    MigratedRow(row.id, TaskName(row.title, row.description),
      NotNullFlag(row.completedAt), NotNullFlag(row.skippedAt), OrderOrZero(row.order))
  }

  /** The ids of a run of old rows. */
  function RowIds(rows: seq<LegacyRow>): set<string> {
    set i | 0 <= i < |rows| :: rows[i].id
  }

  predicate DistinctIds(rows: seq<LegacyRow>) {
    forall i, j :: 0 <= i < j < |rows| ==> rows[i].id != rows[j].id
  }

  /** The ids of a non-empty run are the first id and those of the rest. */
  lemma RowIdsCons(rows: seq<LegacyRow>)
    requires |rows| > 0
    ensures RowIds(rows) == {rows[0].id} + RowIds(rows[1..])
  {
    var tail := rows[1..];
    forall x | x in RowIds(rows)
      ensures x in {rows[0].id} + RowIds(tail)
    {
      var i :| 0 <= i < |rows| && rows[i].id == x;
      if i > 0 {
        assert tail[i - 1].id == x;
      }
    }
    forall x | x in RowIds(tail)
      ensures x in RowIds(rows)
    {
      var i :| 0 <= i < |tail| && tail[i].id == x;
      assert rows[i + 1].id == x;
    }
  }

  /** A non-empty run has distinct ids exactly when the rest does and the
      first id does not recur. */
  lemma DistinctIdsCons(rows: seq<LegacyRow>)
    requires |rows| > 0
    ensures DistinctIds(rows) <==> DistinctIds(rows[1..]) && rows[0].id !in RowIds(rows[1..])
  {
    var tail := rows[1..];
    if DistinctIds(tail) && rows[0].id !in RowIds(tail) {
      forall i, j | 0 <= i < j < |rows|
        ensures rows[i].id != rows[j].id
      {
        assert rows[j] == tail[j - 1];
        if i > 0 {
          assert rows[i] == tail[i - 1];
        }
      }
    }
    if DistinctIds(rows) {
      forall i, j | 0 <= i < j < |tail|
        ensures tail[i].id != tail[j].id
      {
        assert tail[i] == rows[i + 1] && tail[j] == rows[j + 1];
      }
      forall x | x in RowIds(tail)
        ensures x != rows[0].id
      {
        var i :| 0 <= i < |tail| && tail[i].id == x;
        assert tail[i] == rows[i + 1];
      }
    }
  }

  /** The INSERT loop: each old row in turn goes into the new table, keyed
      by its id; reusing an id, whether one already in the table or one of
      an earlier row, fails the run with an integrity error. */
  function InsertAll(table: map<string, MigratedRow>, rows: seq<LegacyRow>): (r: Result<map<string, MigratedRow>, DbError>)
    ensures r.Success? <==> DistinctIds(rows) && RowIds(rows) !! table.Keys
    ensures r.Success? ==> r.value.Keys == table.Keys + RowIds(rows)
    decreases |rows|
  {
    if |rows| == 0 then
      assert RowIds(rows) == {};
      Success(table)
    else
      var head := rows[0];
      RowIdsCons(rows);
      DistinctIdsCons(rows);
      if head.id in table then
        Failure(IntegrityError(head.id))
      else
        var table' := table[head.id := MigrateRow(head)];
        assert table'.Keys == table.Keys + {head.id};
        InsertAll(table', rows[1..])
  }

  /** A successful run keeps what the table held and stores each old row,
      migrated, under its id. */
  lemma {:induction false} InsertAllContents(table: map<string, MigratedRow>, rows: seq<LegacyRow>)
    requires InsertAll(table, rows).Success?
    ensures var m := InsertAll(table, rows).value;
      && (forall k :: k in table ==> m[k] == table[k])
      && (forall i :: 0 <= i < |rows| ==> m[rows[i].id] == MigrateRow(rows[i]))
    decreases |rows|
  {
    if |rows| > 0 {
      var head, tail := rows[0], rows[1..];
      var table' := table[head.id := MigrateRow(head)];
      assert InsertAll(table, rows) == InsertAll(table', tail);
      InsertAllContents(table', tail);
      var m := InsertAll(table, rows).value;
      forall k | k in table
        ensures m[k] == table[k]
      {
        DistinctIdsCons(rows);
        RowIdsCons(rows);
        assert k != head.id;
      }
      forall i | 0 <= i < |rows|
        ensures m[rows[i].id] == MigrateRow(rows[i])
      {
        if i > 0 {
          assert rows[i] == tail[i - 1];
        }
      }
    }
  }

  /** Distinct ids are as many as the rows carrying them. */
  lemma {:induction false} DistinctIdsCount(rows: seq<LegacyRow>)
    requires DistinctIds(rows)
    ensures |RowIds(rows)| == |rows|
  {
    if |rows| == 0 {
      assert RowIds(rows) == {};
    } else {
      RowIdsCons(rows);
      DistinctIdsCons(rows);
      DistinctIdsCount(rows[1..]);
    }
  }

  /** `_migrate_to_new_schema`'s copy step: every old row lands as exactly one
      new row under the same id, so the row count is preserved; the only way
      it fails is two old rows sharing an id. */
  function Migrate(rows: seq<LegacyRow>): (r: Result<map<string, MigratedRow>, DbError>)
    ensures r.Success? <==> DistinctIds(rows)
    ensures r.Success? ==>
      && r.value.Keys == RowIds(rows)
      && |r.value| == |rows|
      && (forall i :: 0 <= i < |rows| ==> r.value[rows[i].id] == MigrateRow(rows[i]))
  {
    var r := InsertAll(map[], rows);
    if r.Success? then
      InsertAllContents(map[], rows);
      DistinctIdsCount(rows);
      assert |r.value.Keys| == |rows|;
      r
    else
      r
  }
}
