# Todo list MCP server: a verified model of its core

This project models the core of a small todo-list server. The server is an
MCP tool server: a language-model client calls tools such as `create-todo`
or `complete-todo` over stdio. The core is:

- the todo service (`src/services/todo_service.py`), with the SQLite
  `todos` table as a map from id to row;
- the todo record, its input schemas and its factory (`src/models/todo.py`);
- the markdown formatters and the MCP response envelopes
  (`src/utils/formatters.py`);
- the per-row mapping of the one-off legacy migration
  (`src/services/database_service.py`, `_migrate_to_new_schema`).

Every operation is a pure function or a method over immutable values. A
service operation takes the store and its arguments and returns a
`Step(store', result)`. The clock reading `now` and the 128-bit value drawn
by `uuid4()` are parameters.

Modules, one per file:

| file | module | what it holds |
|---|---|---|
| `wrappers.dfy` | `Wrappers` | `Option` and `Result` |
| `strings.dfy` | `Strings` | the Python string operations the core uses: `startswith`, `in`, `join`, `str(int)`, `strip()` |
| `sqlite.dfy` | `Sqlite` | primary-key clashes (`IntegrityError`) and `LIKE` as the queries use it |
| `todo_model.dfy` | `TodoModel` | `Todo`, the schemas as predicates, the UUID rendering, the factory |
| `todo_service.dfy` | `TodoService` | the store, the point operations, the listings, the active summary |
| `formatters.dfy` | `Formatters` | `format_todo`, `format_todo_list`, the response envelopes |
| `migration.dfy` | `Migration` | legacy row to new row, and the INSERT loop |

## Inconsistencies in the code

- The service's SQL reads and writes the old columns (`title`,
  `description`, `completedAt`, `createdAt`, `updatedAt`). The schema set-up
  in `database_service.py` creates a table with `task_name`, `completed`,
  `skipped` and `order` instead. The model of the service follows the
  service's SQL.
- `format_todo` reads `task_name`, `skipped` and `order`, which the `Todo`
  record does not have. The formatter therefore takes its own record,
  `Formatters.TodoView`, with exactly the fields it reads.

## Model

| member | source | states |
|---|---|---|
| TodoService.RowToTodo | src/services/todo_service.py:318-326 | the todo keeps the row's id and columns, and `completed` holds exactly when `completedAt` is set |
| TodoService.RowRoundTrip | src/services/todo_service.py:318-326 | writing a consistent todo as a row and reading the row back gives the same todo |
| TodoService.GetTodo | src/services/todo_service.py:88-96 | `None` exactly when no row has the id; otherwise the stored row as a consistent todo with that id |
| TodoService.CreateTodo | src/services/todo_service.py:49-69 | a taken id fails with an integrity error and changes nothing; otherwise exactly one new entry, keyed by the new id, reads back as the returned todo, and every other entry is unchanged |
| TodoService.CreateThenDelete | src/services/todo_service.py:49-69 | deleting the todo just created succeeds and restores the store from before |
| TodoService.UpdateTodo | src/services/todo_service.py:147-171 | a missing id gives `None` and the same store; otherwise title and description change only where a non-empty value is given, `completedAt` and `createdAt` stay, `updatedAt` becomes `now`, no other entry changes, and the result is the stored todo |
| TodoService.UpdateIdempotent | src/services/todo_service.py:158-167 | repeating an update with the same arguments at the same instant changes nothing more |
| TodoService.ValidUpdateProvided | src/services/todo_service.py:163-164 | for arguments the update schema accepts, a field counts as given exactly when it is present |
| TodoService.CompleteTodo | src/services/todo_service.py:189-208 | a missing id gives `None` and the same store; otherwise the todo reads back completed at `now` with title, description and `createdAt` kept, and no other entry changes |
| TodoService.CompleteIdempotent | src/services/todo_service.py:200-208 | completing twice at the same instant equals completing once |
| TodoService.DeleteTodo | src/services/todo_service.py:222-227 | the result is true exactly when the id was present; afterwards the id is gone, nothing else changes, and the size drops by one exactly on success |
| TodoService.CreatePreservesInvariant | src/services/todo_service.py:55-65 | with schema-valid input, every stored id keeps the UUID shape and every title and description stays non-empty |
| TodoService.CreateSchemaExact | src/models/todo.py:54-56 | when the new id is free, the create schema accepts exactly the inputs whose new todo keeps the invariant |
| TodoService.UpdatePreservesInvariant | src/services/todo_service.py:158-167 | the same invariant survives any update, since empty values are never written |
| TodoService.UpdateSchemaAccepts | src/models/todo.py:60-64 | the update schema accepts exactly an id that is the rendering of some 128-bit value, with a title and a description that are non-empty whenever present |
| TodoService.TitleSchemaRejectsMatchAll | src/models/todo.py:80-81 | the title-search schema rejects exactly the terms whose literal, ASCII-case-folded substring test matches every title |
| TodoService.CompletePreservesInvariant | src/services/todo_service.py:200-204 | the same invariant survives completing any id |
| TodoService.DeletePreservesInvariant | src/services/todo_service.py:223 | the same invariant survives deleting any id |
| TodoService.ActivePartition | src/services/todo_service.py:125 | every todo is active or completed and never both, so the two counts add up to the store size |
| TodoService.CompleteShrinksActive | src/services/todo_service.py:200-204 | completing takes exactly that id off the active set |
| TodoService.CompleteActiveCount | src/services/todo_service.py:200-204 | the active count drops by one exactly when the completed todo was active |
| TodoService.Select | src/services/todo_service.py:108-112 | a table scan lists each row the WHERE clause keeps exactly once, converted by `_row_to_todo`, so its length is the number of kept rows |
| TodoService.GetAllTodos | src/services/todo_service.py:107-112 | every stored todo exactly once, as its row reads back |
| TodoService.GetActiveTodos | src/services/todo_service.py:124-129 | exactly the todos whose `completedAt` is NULL, each once and none completed |
| TodoService.SearchByTitle | src/services/todo_service.py:243-251 | exactly the todos whose title contains the term ignoring ASCII case, each once |
| TodoService.SearchByDate | src/services/todo_service.py:267-273 | exactly the todos whose `createdAt` starts with the pattern ignoring ASCII case, each once |
| TodoService.DateSearchIsPrefix | src/services/todo_service.py:267-270 | for a date the schema accepts, the case-insensitive `LIKE 'date%'` is exactly a plain prefix test |
| TodoService.SummaryText | src/services/todo_service.py:292-297 | the fixed message exactly for an empty listing; otherwise the text opens with the header that states the count |
| TodoService.SummaryListsEach | src/services/todo_service.py:296-297 | the i-th todo's "- title" line sits at its own offset: the first right after the header, each next one right after the previous line and a newline |
| TodoService.SummaryEndsWithLastBullet | src/services/todo_service.py:296-297 | the summary ends exactly with the last todo's line, so header, lines and newlines make up the whole text |
| TodoService.SummarizeActiveTodos | src/services/todo_service.py:289-297 | the text is the summary of a listing of exactly the active todos, each once; "No active todos found." exactly when no todo is active; otherwise the header states the number of active todos and every active title appears as a "- title" line |
| Sqlite.LikeContainsProperties | src/services/todo_service.py:243-248 | the title search ignores the case of both the title and the term, and finds every exact occurrence |
| Sqlite.LikePrefixPlain | src/services/todo_service.py:267-270 | for a pattern with no letter and no `%` or `_` wildcard, `LIKE 'p%'` is exactly a prefix test |
| TodoModel.CreateTodo | src/models/todo.py:105-114 | the new todo's id is the dashed rendering of the drawn UUID, title and description are copied, it is not completed, and `createdAt` equals `updatedAt` equals the one clock reading |
| TodoModel.UuidStringIsTodoId | src/models/todo.py:107 | `str(uuid4())` always passes the id pattern, and reading the id back gives the drawn value |
| TodoModel.TodoIdIsUuidString | src/models/todo.py:61-62 | every id the pattern accepts is the rendering of exactly one 128-bit value |
| TodoModel.IdSchemasAcceptRenderedIds | src/models/todo.py:68-76 | the complete and delete schemas accept the same ids, exactly the renderings of 128-bit values |
| TodoModel.DateGroups | src/models/todo.py:86 | the date pattern accepts exactly four digits, a dash, two digits, a dash and two digits |
| Formatters.StatusEmoji | src/utils/formatters.py:37-42 | the completed mark exactly when completed; the skipped mark exactly when skipped and not completed; the open mark otherwise |
| Formatters.StatusLine | src/utils/formatters.py:44-50 | the status text follows the same precedence: Completed, then Skipped, then Not completed |
| Formatters.StatusViewsAgree | src/utils/formatters.py:37-50 | the mark and the status text each determine the status, so they always agree |
| Formatters.TemplateStrips | src/utils/formatters.py:52-58 | `.strip()` removes exactly the template's leading and trailing newline |
| Formatters.FormatTodo | src/utils/formatters.py:52-58 | the formatted todo is the heading, the order and id lines and the status line, with no surrounding whitespace |
| Formatters.HeadingDeterminesOrder | src/utils/formatters.py:53 | the heading determines the order: the digits before the first `.` read back as `order`, sign included |
| Formatters.FormatTodoShape | src/utils/formatters.py:52-58 | the output opens with `## {order}. {task_name} {mark}`, the order and id lines follow right after it, and it ends with the status line |
| Formatters.FormatTodoList | src/utils/formatters.py:74-78 | "No todos found." exactly for an empty list |
| Formatters.ListStartsWithHeader | src/utils/formatters.py:78 | a non-empty list opens with `# Todo List (n items)`, `n` its length |
| Formatters.ListShowsEach | src/utils/formatters.py:77-78 | the i-th formatted block sits at its own offset: the first right after the header, each next one right after the previous block and the separator `\n\n---\n\n` |
| Formatters.ListEndsWithLastBlock | src/utils/formatters.py:77-78 | the list ends exactly with the last block, so header, blocks and separators make up the whole text |
| Formatters.ListHeaderInjective | src/utils/formatters.py:78 | the header determines the count |
| Formatters.SuccessResponse | src/utils/formatters.py:99-106 | the message is the one text item, unchanged, and there is no `isError` key |
| Formatters.ErrorResponse | src/utils/formatters.py:122-130 | the message is the one text item, unchanged, and `isError` is true |
| Formatters.EnvelopesDistinct | src/utils/formatters.py:99-130 | a success is never an error response, and each envelope determines its message |
| Migration.TaskName | src/services/database_service.py:109-111 | the title alone when the description is empty or NULL; "title: description" when both are given; the description alone when only it is given |
| Migration.TaskNameSplits | src/services/database_service.py:111 | when the title holds no colon, the title and the description can be read back from "title: description" |
| Migration.NotNullFlag | src/services/database_service.py:100-101 | the flag is 0 or 1, and 1 exactly when the column is not NULL |
| Migration.OrderOrZero | src/services/database_service.py:116 | `order or 0` maps NULL to 0 and keeps every other value, 0 included |
| Migration.MigrateRow | src/services/database_service.py:106-116 | the new row keeps the id, flags completion and skipping exactly by their timestamps, and takes the combined name and the defaulted order |
| Migration.InsertAll | src/services/database_service.py:106-116 | the INSERT loop succeeds exactly when the ids are distinct and new to the table; on success the table's keys grow by exactly those ids |
| Migration.InsertAllContents | src/services/database_service.py:113-116 | after a successful loop, earlier rows are kept and each old row is stored, migrated, under its id |
| Migration.Migrate | src/services/database_service.py:98-116 | every old row becomes exactly one new row under its id, so the row count is preserved, and the only failure is a repeated id |

## Left out

- `server.py` (tool dispatch, argument validation calls, `safe_execute`,
  signal handling, the event loop), `client.py` and `src/config.py`: I/O,
  process and protocol glue over libraries that are not part of this model.
- Database plumbing: the connection, pragmas, commits, the table-existence
  and column checks in `_init_schema`, `DROP TABLE`/`RENAME`, and the
  `OperationalError` rollback path of the migration. Only the per-row mapping
  and the INSERT loop are modelled. The migration's SELECT names the unquoted
  columns `title`, `description`, `completedAt` and `skippedAt`; if the old
  table lacks one of them, SQLite raises `OperationalError` and the rollback
  path runs. That case is not modelled.
- The clock and UUID generation: `now` is an opaque string and the UUID is a
  parameter.
- TodoModel.CreateTodo: the id is the rendering of any 128-bit value; the
  version and variant bits that `uuid4()` fixes are not modelled.
- TodoService.CreateTodo: the service does not catch an id clash; the
  model returns the SQLite `IntegrityError` as a `Failure` and keeps the
  store unchanged.
- TodoService.SearchByDate: `%` and `_` in the pattern would act as
  `LIKE` wildcards; the model treats them literally. The date schema
  (`src/models/todo.py:86`) admits only digits and dashes, so no wildcard
  reaches the query from a validated call; `DateSearchIsPrefix` relies on it.
- TodoService.SearchByTitle: `%` and `_` inside the user's term act as
  `LIKE` wildcards in SQLite; the model treats the term literally. Case is
  folded for ASCII letters only, as SQLite does by default.
- TodoService.TitleSchemaRejectsMatchAll: the equivalence holds for the
  literal-term model of `LIKE` only. In SQLite a term made of `%` signs, such
  as `"%"`, passes the schema and still matches every title.
- TodoService.GetAllTodos, TodoService.GetActiveTodos,
  TodoService.SearchByTitle, TodoService.SearchByDate: the queries have no
  ORDER BY, so the contracts state which todos are listed, once each, and
  not in which order.
- TodoModel.DateGroups: Pydantic's `\d` also matches non-ASCII decimal
  digits; the model accepts ASCII digits only.
- Migration.MigrateRow: the SELECT writes `"order"` in double quotes, and
  SQLite by default reads a double-quoted name with no matching column as a
  string literal. An old table without an `order` column therefore migrates
  without error, and every new row's order is the text `'order'`. The
  model's `order` is an integer or NULL and does not cover this case.
- Migration.TaskName: a NULL title with no description renders as the text
  "None", as the f-string does; this is modelled as written.
- `skipped` and `order` exist in the schema
  (`src/services/database_service.py:70-78`) and the formatter reads them,
  but no service operation sets or changes them.
