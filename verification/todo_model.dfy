/** The todo record, the input schemas that guard each operation, and the
    factory that builds a new record (src/models/todo.py). */
module TodoModel {
  import opened Wrappers
  import opened Strings

  /** A todo as the application sees it. `completed` is a cached view of
      `completedAt` kept for older clients. */
  datatype Todo = Todo(
    id: string,
    title: string,
    description: string,
    completed: bool,
    completedAt: Option<string>,
    createdAt: string,
    updatedAt: string)

  /** The cached flag agrees with the timestamp it is computed from. */
  predicate Consistent(t: Todo) {
    t.completed <==> t.completedAt.Some?
  }

  /** Arguments of `create-todo`. */
  datatype CreateTodoInput = CreateTodoInput(title: string, description: string)

  /** Arguments of `update-todo`: each of title and description may be absent. */
  datatype UpdateTodoInput = UpdateTodoInput(id: string, title: Option<string>, description: Option<string>)

  // ---------------------------------------------------------------------------
  // Identifiers: lower-case hexadecimal in groups 8-4-4-4-12

  predicate IsLowerHex(c: char) {
    '0' <= c <= '9' || 'a' <= c <= 'f'
  }

  predicate AllLowerHex(s: string) {
    forall i :: 0 <= i < |s| ==> IsLowerHex(s[i])
  }

  /** Positions of the four dashes in an identifier. */
  predicate IsDashPosition(i: int) {
    i == 8 || i == 13 || i == 18 || i == 23
  }

  /** The id pattern `^[0-9a-f]{8}-[0-9a-f]{4}-[0-9a-f]{4}-[0-9a-f]{4}-[0-9a-f]{12}$`. */
  predicate IsTodoId(s: string) {
    |s| == 36 &&
    forall i :: 0 <= i < 36 ==> if IsDashPosition(i) then s[i] == '-' else IsLowerHex(s[i])
  }

  function Pow16(w: nat): (p: nat)
    ensures p >= 1
  {
    if w == 0 then 1 else 16 * Pow16(w - 1)
  }

  /** The numbers a UUID can carry: 128 bits. */
  type UuidValue = n: nat | n < Pow16(32)

  function HexDigit(d: nat): (c: char)
    requires d < 16
    ensures IsLowerHex(c)
  {
    if d < 10 then (d + '0' as int) as char else (d - 10 + 'a' as int) as char
  }

  function HexDigitValue(c: char): (d: nat)
    requires IsLowerHex(c)
    ensures d < 16 && HexDigit(d) == c
  {
    if c <= '9' then c as int - '0' as int else c as int - 'a' as int + 10
  }

  /** `n` written in exactly `w` lower-case hex digits, zero padded (`'%0*x'`). */
  function Hex(n: nat, w: nat): (s: string)
    requires n < Pow16(w)
    ensures |s| == w && AllLowerHex(s)
  {
    if w == 0 then "" else Hex(n / 16, w - 1) + [HexDigit(n % 16)]
  }

  /** The number a hex string denotes. */
  function HexValue(s: string): (n: nat)
    requires AllLowerHex(s)
    ensures n < Pow16(|s|)
  {
    if |s| == 0 then 0 else HexValue(s[..|s| - 1]) * 16 + HexDigitValue(s[|s| - 1])
  }

  lemma {:induction false} HexRoundTrip(n: nat, w: nat)
    requires n < Pow16(w)
    ensures HexValue(Hex(n, w)) == n
  {
    if w > 0 {
      var s := Hex(n, w);
      var q, d := n / 16, n % 16;
      assert s[..|s| - 1] == Hex(q, w - 1);
      assert HexDigitValue(s[|s| - 1]) == d;
      HexRoundTrip(q, w - 1);
      assert HexValue(s) == q * 16 + d;
    }
  }

  lemma {:induction false} HexRoundTripBack(s: string)
    requires AllLowerHex(s)
    ensures Hex(HexValue(s), |s|) == s
  {
    if |s| > 0 {
      var init := s[..|s| - 1];
      var n := HexValue(s);
      assert n / 16 == HexValue(init) && n % 16 == HexDigitValue(s[|s| - 1]);
      HexRoundTripBack(init);
      assert s == init + [s[|s| - 1]];
    }
  }

  /** How many dashes precede position `i` of an identifier. */
  function DashesBefore(i: int): nat {
    if i <= 8 then 0 else if i <= 13 then 1 else if i <= 18 then 2 else if i <= 23 then 3 else 4
  }

  /** Where hex digit `j` of the 32 lands once dashed 8-4-4-4-12. */
  function DigitPosition(j: nat): (i: nat)
    requires j < 32
    ensures i < 36 && !IsDashPosition(i) && i - DashesBefore(i) == j
  {
    if j < 8 then j else if j < 12 then j + 1 else if j < 16 then j + 2 else if j < 20 then j + 3 else j + 4
  }

  /** The 32 hex digits `h` with a dash before digits 8, 12, 16 and 20. */
  function Dashed(h: string): (s: string)
    requires |h| == 32 && AllLowerHex(h)
    ensures IsTodoId(s)
    ensures forall i :: 0 <= i < 36 && !IsDashPosition(i) ==> s[i] == h[i - DashesBefore(i)]
  {
    seq(36, i requires 0 <= i < 36 =>
      if IsDashPosition(i) then '-' else h[i - DashesBefore(i)])
  }

  /** `str(uuid)`: the 32 hex digits of the 128-bit value, dashed 8-4-4-4-12. */
  function UuidString(n: UuidValue): string {
    Dashed(Hex(n, 32))
  }

  /** The hex digits of an identifier with its dashes removed. */
  function IdDigits(s: string): (h: string)
    requires IsTodoId(s)
    ensures |h| == 32 && AllLowerHex(h)
    ensures forall j :: 0 <= j < 32 ==> h[j] == s[DigitPosition(j)]
  {
    seq(32, j requires 0 <= j < 32 => s[DigitPosition(j)])
  }

  /** The 128-bit value an identifier spells. */
  function IdValue(s: string): UuidValue
    requires IsTodoId(s)
  {
    HexValue(IdDigits(s))
  }

  /** Rendering a UUID gives an identifier the id validators accept, and
      reading it back gives the same value. */
  lemma UuidStringIsTodoId(n: UuidValue)
    ensures IsTodoId(UuidString(n))
    ensures IdValue(UuidString(n)) == n
  {
    var h := Hex(n, 32);
    var s := Dashed(h);
    forall j | 0 <= j < 32
      ensures IdDigits(s)[j] == h[j]
    {
      var p := DigitPosition(j);
      assert IdDigits(s)[j] == s[p];
      assert s[p] == h[p - DashesBefore(p)];
    }
    assert IdDigits(s) == h;
    HexRoundTrip(n, 32);
  }

  /** Every identifier the validators accept is the rendering of exactly one
      128-bit value: the pattern admits nothing `str(uuid)` cannot produce. */
  lemma TodoIdIsUuidString(s: string)
    requires IsTodoId(s)
    ensures UuidString(IdValue(s)) == s
  {
    var h := IdDigits(s);
    HexRoundTripBack(h);
    forall i | 0 <= i < 36 && !IsDashPosition(i)
      ensures Dashed(h)[i] == s[i]
    {
      assert DigitPosition(i - DashesBefore(i)) == i;
    }
  }

  // ---------------------------------------------------------------------------
  // Input schemas (each one a predicate over the arguments it accepts)

  /** `min_length=1`. */
  predicate NonEmpty(s: string) {
    |s| >= 1
  }

  /** `CreateTodoSchema`: title and description both required and non-empty. */
  predicate ValidCreate(data: CreateTodoInput) {
    NonEmpty(data.title) && NonEmpty(data.description)
  }

  /** `UpdateTodoSchema`: a well-formed id; title and description optional,
      but non-empty whenever given. */
  predicate ValidUpdate(data: UpdateTodoInput) {
    && IsTodoId(data.id)
    && (data.title.Some? ==> NonEmpty(data.title.value))
    && (data.description.Some? ==> NonEmpty(data.description.value))
  }

  /** `CompleteTodoSchema`: only a well-formed id. */
  predicate ValidComplete(id: string) {
    IsTodoId(id)
  }

  /** `DeleteTodoSchema`: only a well-formed id. */
  predicate ValidDelete(id: string) {
    IsTodoId(id)
  }

  /** The id schemas of `complete-todo` and `delete-todo` accept the same
      strings, and these are exactly the renderings `str(uuid)` can produce. */
  lemma IdSchemasAcceptRenderedIds(id: string)
    ensures ValidComplete(id) <==> exists n: UuidValue :: UuidString(n) == id
    ensures ValidDelete(id) <==> ValidComplete(id)
  {
    if ValidComplete(id) {
      TodoIdIsUuidString(id);
    }
    forall n: UuidValue | UuidString(n) == id
      ensures IsTodoId(id)
    {
      UuidStringIsTodoId(n);
    }
  }

  /** `SearchTodosByTitleSchema`: a non-empty search term. */
  predicate ValidTitleSearch(term: string) {
    NonEmpty(term)
  }

  /** `SearchTodosByDateSchema`: `^\d{4}-\d{2}-\d{2}$`. */
  predicate IsDate(s: string) {
    |s| == 10 &&
    forall i :: 0 <= i < 10 ==> if i == 4 || i == 7 then s[i] == '-' else IsDigit(s[i])
  }

  /** The date pattern read group by group: four digits, a dash, two
      digits, a dash, two digits, and nothing else. */
  lemma DateGroups(s: string)
    ensures IsDate(s) <==>
      && |s| == 10
      && |s[..4]| == 4 && AllDigits(s[..4]) && s[4] == '-'
      && |s[5..7]| == 2 && AllDigits(s[5..7]) && s[7] == '-'
      && |s[8..]| == 2 && AllDigits(s[8..])
  {
    if |s| == 10 && AllDigits(s[..4]) && s[4] == '-' && AllDigits(s[5..7]) && s[7] == '-' && AllDigits(s[8..]) {
      forall i | 0 <= i < 10 && i != 4 && i != 7
        ensures IsDigit(s[i])
      {
        if i < 4 { assert s[..4][i] == s[i]; }
        else if i < 7 { assert s[5..7][i - 5] == s[i]; }
        else { assert s[8..][i - 8] == s[i]; }
      }
    }
  }

  // ---------------------------------------------------------------------------
  // The factory

  /** `create_todo`: a fresh, not yet completed todo whose id is the rendering
      of `uuid` and whose two timestamps are the same instant `now`. The
      UUID and the clock are parameters. */
  function CreateTodo(data: CreateTodoInput, uuid: UuidValue, now: string): (t: Todo)
    ensures IsTodoId(t.id) && IdValue(t.id) == uuid
    ensures t.title == data.title && t.description == data.description
    ensures !t.completed && t.completedAt.None? && Consistent(t)
    ensures t.createdAt == now && t.updatedAt == t.createdAt
  {
    UuidStringIsTodoId(uuid);
    Todo(UuidString(uuid), data.title, data.description, false, None, now, now)
  }
}
