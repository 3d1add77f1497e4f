/** Rendering of todos and tool responses (src/utils/formatters.py). The
    formatter reads `task_name`, `skipped` and `order`, which the `Todo`
    record does not carry, so it takes its own input record holding exactly
    the fields it reads. */
module Formatters {
  import opened Wrappers
  import opened Strings

  /** The fields `format_todo` reads. */
  datatype TodoView = TodoView(id: string, taskName: string, completed: bool, skipped: bool, order: int)

  /** The three states a rendered todo can show. */
  datatype Status = Completed | Skipped | NotCompleted

  /** Reference reading of the two flags: completion takes precedence over
      skipping. */
  function StatusOf(t: TodoView): Status {
    if t.completed then Completed else if t.skipped then Skipped else NotCompleted
  }

  const CompletedMark: char := '\U{2713}'
  const SkippedMark: char := '\U{2049}'
  const OpenMark: char := '\U{2717}'

  /** The status emoji at the end of the heading line. */
  function StatusEmoji(t: TodoView): (c: char)
    ensures c == CompletedMark <==> t.completed
    ensures c == SkippedMark <==> !t.completed && t.skipped
    ensures c == OpenMark <==> !t.completed && !t.skipped
  {
    if t.completed then CompletedMark
    else if t.skipped then SkippedMark
    else OpenMark
  }

  /** The status line at the end of the block. */
  function StatusLine(t: TodoView): (s: string)
    ensures s == "Status: Completed" <==> t.completed
    ensures s == "Status: Skipped" <==> !t.completed && t.skipped
    ensures s == "Status: Not completed" <==> !t.completed && !t.skipped
  {
    if t.completed then "Status: Completed"
    else if t.skipped then "Status: Skipped"
    else "Status: Not completed"
  }

  /** The emoji and the status line always tell the same story, and each of
      them determines the status: two todos show the same emoji exactly when
      they show the same status line, exactly when their status agrees. */
  lemma StatusViewsAgree(a: TodoView, b: TodoView)
    ensures StatusEmoji(a) == StatusEmoji(b) <==> StatusOf(a) == StatusOf(b)
    ensures StatusLine(a) == StatusLine(b) <==> StatusOf(a) == StatusOf(b)
  {
  }

  /** The heading line: `## {order}. {task_name} {emoji}`. */
  function Heading(t: TodoView): string {
    "## " + IntToString(t.order) + ". " + t.taskName + " " + [StatusEmoji(t)]
  }

  /** What follows the order in the heading. */
  function HeadingTail(t: TodoView): string {
    ". " + t.taskName + " " + [StatusEmoji(t)]
  }

  lemma HeadingSplits(t: TodoView)
    ensures Heading(t)[3..] == IntToString(t.order) + HeadingTail(t)
  {
    assert Heading(t) == "## " + (IntToString(t.order) + HeadingTail(t));
  }

  /** The heading shows the order so that it can be read back: the digits
      end at the first `.`, and `int()` of them is the order. */
  lemma HeadingDeterminesOrder(a: TodoView, b: TodoView)
    requires Heading(a) == Heading(b)
    ensures a.order == b.order
  {
    var x, y := IntToString(a.order), IntToString(b.order);
    var u, v := HeadingTail(a), HeadingTail(b);
    HeadingSplits(a);
    HeadingSplits(b);
    PrefixBeforeMark(x, y, u, v, '.');
    IntRoundTrip(a.order);
    IntRoundTrip(b.order);
  }

  /** The lines after the heading and before the status line. */
  function Details(t: TodoView): string {
    "\n\nOrder: " + IntToString(t.order) + "\nID: " + t.id + "\n"
  }

  /** The block as it stands once stripped. */
  function TodoBlock(t: TodoView): string {
    Heading(t) + Details(t) + StatusLine(t)
  }

  /** The triple-quoted template before `.strip()`: the block between a
      leading and a trailing newline. */
  function TodoTemplate(t: TodoView): string {
    "\n" + Heading(t) + Details(t) + StatusLine(t) + "\n"
  }

  /** The block starts with `#` and ends with the last letter of the status
      line, so stripping the template removes exactly its two newlines. */
  lemma TemplateStrips(t: TodoView)
    ensures Strip(TodoTemplate(t)) == TodoBlock(t)
  {
    var block := TodoBlock(t);
    var line := StatusLine(t);
    assert TodoTemplate(t) == "\n" + block + "\n";
    assert block[0] == Heading(t)[0] == '#';
    assert block[|block| - 1] == line[|line| - 1] == 'd';
    StripWrapped("\n", block, "\n");
  }

  /** `format_todo`: the stripped template, which is the block itself. */
  function FormatTodo(t: TodoView): (s: string)
    ensures s == TodoBlock(t)
  {
    TemplateStrips(t);
    Strip(TodoTemplate(t))
  }

  /** The formatted todo opens with the heading line
      `## {order}. {task_name} {emoji}`, continues right after it with a
      blank line and the order and id lines, and closes with the status
      line. */
  lemma FormatTodoShape(t: TodoView)
    ensures IsPrefix(Heading(t), FormatTodo(t))
    ensures OccursAt(FormatTodo(t), Details(t), |Heading(t)|)
    ensures IsSuffix(StatusLine(t), FormatTodo(t))
  {
    var heading, details, status := Heading(t), Details(t), StatusLine(t);
    var block := TodoBlock(t);
    assert block == (heading + details) + status;
    assert block[..|heading|] == heading;
    assert block[|heading|..][..|details|] == details;
    assert block[|block| - |status|..] == status;
  }

  const NoTodosMessage := "No todos found."

  /** What goes between two formatted todos. */
  const Separator := "\n\n---\n\n"

  /** The first lines of a non-empty list, stating the number of items. */
  function ListHeader(n: nat): string {
    "# Todo List (" + NatToString(n) + " items)\n\n"
  }

  function Blocks(todos: seq<TodoView>): (blocks: seq<string>)
    ensures |blocks| == |todos|
    ensures forall i :: 0 <= i < |todos| ==> blocks[i] == FormatTodo(todos[i])
  {
    seq(|todos|, i requires 0 <= i < |todos| => FormatTodo(todos[i]))
  }

  /** `format_todo_list`: the fixed message exactly for an empty list;
      otherwise the header, then the formatted todos separated by a
      horizontal rule (see `ListStartsWithHeader` and `ListShowsEach`). */
  function FormatTodoList(todos: seq<TodoView>): (s: string)
    ensures s == NoTodosMessage <==> |todos| == 0
  {
    if |todos| == 0 then NoTodosMessage
    else
      var s := ListHeader(|todos|) + Join(Separator, Blocks(todos));
      assert s[0] == '#' != NoTodosMessage[0];
      s
  }

  /** A non-empty list is the header followed by the joined blocks. */
  lemma ListUnfolds(todos: seq<TodoView>)
    requires |todos| > 0
    ensures FormatTodoList(todos) == ListHeader(|todos|) + Join(Separator, Blocks(todos))
  {
  }

  /** A non-empty list opens with `# Todo List (n items)`, `n` its length. */
  lemma ListStartsWithHeader(todos: seq<TodoView>)
    requires |todos| > 0
    ensures IsPrefix(ListHeader(|todos|), FormatTodoList(todos))
  {
    ListUnfolds(todos);
    var header := ListHeader(|todos|);
    assert (header + Join(Separator, Blocks(todos)))[..|header|] == header;
  }

  /** Where the `i`-th todo's block starts in a formatted list. */
  function ListOffset(todos: seq<TodoView>, i: nat): nat
    requires i < |todos|
  {
    |ListHeader(|todos|)| + JoinOffset(Separator, Blocks(todos), i)
  }

  /** In a non-empty list every todo's formatted block appears, in list
      order, and each one but the last is followed by the separator. */
  lemma ListShowsEach(todos: seq<TodoView>, i: nat)
    requires i < |todos|
    ensures OccursAt(FormatTodoList(todos), FormatTodo(todos[i]), ListOffset(todos, i))
    ensures i == 0 ==> ListOffset(todos, i) == |ListHeader(|todos|)|
    ensures i + 1 < |todos| ==>
      && OccursAt(FormatTodoList(todos), Separator, ListOffset(todos, i) + |FormatTodo(todos[i])|)
      && ListOffset(todos, i + 1) == ListOffset(todos, i) + |FormatTodo(todos[i])| + |Separator|
  {
    var blocks := Blocks(todos);
    ListUnfolds(todos);
    JoinAfterHeader(FormatTodoList(todos), ListHeader(|todos|), Separator, blocks, i,
      FormatTodo(todos[i]), ListOffset(todos, i));
  }

  /** A non-empty list ends right after its last block: nothing follows
      the last todo. */
  lemma ListEndsWithLastBlock(todos: seq<TodoView>)
    requires |todos| > 0
    ensures |FormatTodoList(todos)| == ListOffset(todos, |todos| - 1) + |FormatTodo(todos[|todos| - 1])|
  {
    var blocks := Blocks(todos);
    ListUnfolds(todos);
    JoinEndAfterHeader(FormatTodoList(todos), ListHeader(|todos|), Separator, blocks);
  }

  /** The header determines the count: two lists with the same header have
      the same number of items. */
  lemma ListHeaderInjective(n: nat, m: nat)
    requires ListHeader(n) == ListHeader(m)
    ensures n == m
  {
    var a := NatToString(n);
    var b := NatToString(m);
    assert |a| == |b|;
    assert a == ListHeader(n)[13..13 + |a|];
    assert b == ListHeader(m)[13..13 + |b|];
    DecimalRoundTrip(n);
    DecimalRoundTrip(m);
  }

  // ---------------------------------------------------------------------------
  // Tool responses

  /** One item of a response's `content` list (`{"type": ..., "text": ...}`). */
  datatype Content = Content(kind: string, text: string)

  /** A tool response. `isError` is `None` when the dictionary has no such key. */
  datatype Response = Response(content: seq<Content>, isError: Option<bool>)

  /** The text a response carries, when it is a single text item. */
  function MessageOf(r: Response): Option<string> {
    if |r.content| == 1 && r.content[0].kind == "text" then Some(r.content[0].text) else None
  }

  /** Whether a client reads the response as a failure. */
  predicate IsError(r: Response) {
    r.isError == Some(true)
  }

  /** `create_success_response`: the message as the one text item, and no
      `isError` key. */
  function SuccessResponse(message: string): (r: Response)
    ensures MessageOf(r) == Some(message)
    ensures r.isError.None? && !IsError(r)
  {
    Response([Content("text", message)], None)
  }

  /** `create_error_response`: the message as the one text item, flagged as
      an error. */
  function ErrorResponse(message: string): (r: Response)
    ensures MessageOf(r) == Some(message)
    ensures IsError(r)
  {
    Response([Content("text", message)], Some(true))
  }

  /** A success and an error are never the same response, and each
      envelope gives back the message it wraps. */
  lemma EnvelopesDistinct(m: string, m': string)
    ensures SuccessResponse(m) != ErrorResponse(m')
    ensures SuccessResponse(m) == SuccessResponse(m') <==> m == m'
    ensures ErrorResponse(m) == ErrorResponse(m') <==> m == m'
  {
  }
}
