/** Python string behaviour the rest of the model relies on: prefixes and
    substrings, ASCII case folding, `str.join`, `str(int)` and `str.strip()`.
    A Python `str` is a sequence of code points, modelled as `seq<char>`. */
module Strings {
  import opened Wrappers

  /** Python truthiness of an optional string, such as a nullable column or
      an omitted argument: present and not empty. */
  predicate Truthy(v: Option<string>) {
    v.Some? && v.value != ""
  }

  // ---------------------------------------------------------------------------
  // Prefixes, suffixes and occurrences

  /** `p` is an initial segment of `s` (Python `s.startswith(p)`). */
  predicate IsPrefix(p: string, s: string) {
    |p| <= |s| && s[..|p|] == p
  }

  /** `p` is a final segment of `s` (Python `s.endswith(p)`). */
  predicate IsSuffix(p: string, s: string) {
    |p| <= |s| && s[|s| - |p|..] == p
  }

  /** `t` occurs in `s` starting at index `i`. */
  predicate OccursAt(s: string, t: string, i: int) {
    0 <= i <= |s| && IsPrefix(t, s[i..])
  }

  /** Moving one character into `s` moves every occurrence one index right. */
  lemma OccursAtShift(s: string, t: string, i: int)
    requires |s| > 0 && 0 <= i
    ensures OccursAt(s[1..], t, i) <==> OccursAt(s, t, i + 1)
  {
    if i <= |s| - 1 {
      assert s[1..][i..] == s[i + 1..];
    }
  }

  /** An occurrence in a non-empty `s` is either at the front or an occurrence
      in the tail shifted by one. */
  lemma OccursAtCases(s: string, t: string, i: int)
    requires |s| > 0
    ensures OccursAt(s, t, i) <==> (i == 0 && IsPrefix(t, s)) || (i >= 1 && OccursAt(s[1..], t, i - 1))
  {
    if i >= 1 {
      OccursAtShift(s, t, i - 1);
    }
  }

  /** An occurrence in `b` is an occurrence in `a + b`, `|a|` further right. */
  lemma OccursAtAppend(a: string, b: string, t: string, o: int)
    requires OccursAt(b, t, o)
    ensures OccursAt(a + b, t, |a| + o)
  {
    assert (a + b)[|a| + o..] == b[o..];
  }

  /** Python `t in s` for strings: is `t` a substring of `s`? */
  function Contains(s: string, t: string): (r: bool)
    ensures r <==> exists i :: OccursAt(s, t, i)
    decreases |s|
  {
    if IsPrefix(t, s) then
      assert OccursAt(s, t, 0);
      true
    else if |s| == 0 then
      false
    else
      var r := Contains(s[1..], t);
      if r then
        var i :| OccursAt(s[1..], t, i);
        OccursAtShift(s, t, i);
        true
      else
        assert forall i :: !OccursAt(s, t, i) by {
          forall i
            ensures !OccursAt(s, t, i)
          {
            OccursAtCases(s, t, i);
          }
        }
        false
  }

  // ---------------------------------------------------------------------------
  // ASCII case folding (SQLite's NOCASE and LIKE fold only A-Z)

  function LowerChar(c: char): char {
    if 'A' <= c <= 'Z' then (c as int + 32) as char else c
  }

  /** Every character folded by `LowerChar`. */
  function Lower(s: string): (r: string)
    ensures |r| == |s|
    ensures forall i :: 0 <= i < |s| ==> r[i] == LowerChar(s[i])
  {
    seq(|s|, i requires 0 <= i < |s| => LowerChar(s[i]))
  }

  // ---------------------------------------------------------------------------
  // `sep.join(parts)`

  function Join(sep: string, parts: seq<string>): string
    decreases |parts|
  {
    if |parts| == 0 then ""
    else if |parts| == 1 then parts[0]
    else parts[0] + sep + Join(sep, parts[1..])
  }

  /** Where part `i` starts in `Join(sep, parts)`: every earlier part is
      followed by one separator. */
  function JoinOffset(sep: string, parts: seq<string>, i: nat): nat
    requires i <= |parts|
  {
    if i == 0 then 0 else JoinOffset(sep, parts, i - 1) + |parts[i - 1]| + |sep|
  }

  lemma {:induction false} JoinOffsetTail(sep: string, parts: seq<string>, i: nat)
    requires 0 < |parts| && i < |parts|
    ensures JoinOffset(sep, parts, i + 1) == |parts[0]| + |sep| + JoinOffset(sep, parts[1..], i)
  {
    if i > 0 {
      JoinOffsetTail(sep, parts, i - 1);
    }
  }

  /** The joined length counts every part and one separator fewer than
      there are parts. */
  lemma {:induction false} JoinLength(sep: string, parts: seq<string>)
    requires |parts| > 0
    ensures |Join(sep, parts)| + |sep| == JoinOffset(sep, parts, |parts|)
    decreases |parts|
  {
    if |parts| > 1 {
      JoinLength(sep, parts[1..]);
      JoinOffsetTail(sep, parts, |parts| - 1);
    }
  }

  /** A join of two or more parts is the first part, a separator, and the
      join of the rest. */
  lemma JoinCons(sep: string, parts: seq<string>)
    requires |parts| > 1
    ensures Join(sep, parts) == (parts[0] + sep) + Join(sep, parts[1..])
  {
  }

  /** In `head + sep + rest` the separator sits right after `head`. */
  lemma SeparatorAfterHead(head: string, sep: string, rest: string)
    ensures OccursAt((head + sep) + rest, sep, |head|)
  {
    assert ((head + sep) + rest)[|head|..][..|sep|] == sep;
  }

  /** In `head + sep + rest`, `head` sits at the front. */
  lemma HeadBeforeSeparator(head: string, sep: string, rest: string)
    ensures OccursAt((head + sep) + rest, head, 0)
  {
    assert ((head + sep) + rest)[0..][..|head|] == head;
  }

  /** Part `i` of the joined string sits at `JoinOffset(sep, parts, i)`. */
  lemma {:induction false} JoinPart(sep: string, parts: seq<string>, i: nat)
    requires i < |parts|
    ensures OccursAt(Join(sep, parts), parts[i], JoinOffset(sep, parts, i))
    decreases |parts|
  {
    if |parts| == 1 {
      assert Join(sep, parts)[0..] == parts[0];
    } else {
      var tail := parts[1..];
      JoinCons(sep, parts);
      if i == 0 {
        HeadBeforeSeparator(parts[0], sep, Join(sep, tail));
      } else {
        JoinPart(sep, tail, i - 1);
        JoinOffsetTail(sep, parts, i - 1);
        assert tail[i - 1] == parts[i];
        OccursAtAppend(parts[0] + sep, Join(sep, tail), parts[i], JoinOffset(sep, tail, i - 1));
      }
    }
  }

  /** Every part but the last is followed by one separator. */
  lemma {:induction false} JoinSeparator(sep: string, parts: seq<string>, i: nat)
    requires i + 1 < |parts|
    ensures OccursAt(Join(sep, parts), sep, JoinOffset(sep, parts, i) + |parts[i]|)
    decreases |parts|
  {
    var tail := parts[1..];
    JoinCons(sep, parts);
    if i == 0 {
      SeparatorAfterHead(parts[0], sep, Join(sep, tail));
    } else {
      JoinSeparator(sep, tail, i - 1);
      JoinOffsetTail(sep, parts, i - 1);
      assert tail[i - 1] == parts[i];
      OccursAtAppend(parts[0] + sep, Join(sep, tail), sep, JoinOffset(sep, tail, i - 1) + |parts[i]|);
    }
  }

  /** The layout of `Join` survives a header placed in front of it: part
      `i` (here `t`) starts at offset `o`, and a separator follows it unless
      it is the last part. */
  lemma JoinAfterHeader(s: string, header: string, sep: string, parts: seq<string>, i: nat, t: string, o: int)
    requires s == header + Join(sep, parts)
    requires i < |parts| && t == parts[i] && o == |header| + JoinOffset(sep, parts, i)
    ensures OccursAt(s, t, o)
    ensures i + 1 < |parts| ==> OccursAt(s, sep, o + |t|)
  {
    JoinPart(sep, parts, i);
    OccursAtAppend(header, Join(sep, parts), parts[i], JoinOffset(sep, parts, i));
    if i + 1 < |parts| {
      JoinSeparator(sep, parts, i);
      OccursAtAppend(header, Join(sep, parts), sep, JoinOffset(sep, parts, i) + |parts[i]|);
    }
  }

  /** With a header in front, the joined text ends right after its last
      part: nothing follows the last part. */
  lemma JoinEndAfterHeader(s: string, header: string, sep: string, parts: seq<string>)
    requires s == header + Join(sep, parts)
    requires |parts| > 0
    ensures |s| == |header| + JoinOffset(sep, parts, |parts| - 1) + |parts[|parts| - 1]|
  {
    JoinLength(sep, parts);
  }

  /** Two strings that end where the same mark first appears, and are
      followed by the same text up to that mark, are equal. */
  lemma PrefixBeforeMark(x: string, y: string, u: string, v: string, mark: char)
    requires x + u == y + v
    requires |u| > 0 && u[0] == mark && |v| > 0 && v[0] == mark
    requires forall k :: 0 <= k < |x| ==> x[k] != mark
    requires forall k :: 0 <= k < |y| ==> y[k] != mark
    ensures x == y
  {
    var s := x + u;
    assert s[|x|] == mark && s[|y|] == mark;
    assert x == s[..|x|] && y == s[..|y|];
  }

  // ---------------------------------------------------------------------------
  // Decimal rendering, as Python's `str(n)` and f-string `{n}` do for an int

  predicate IsDigit(c: char) {
    '0' <= c <= '9'
  }

  predicate AllDigits(s: string) {
    forall i :: 0 <= i < |s| ==> IsDigit(s[i])
  }

  function DigitChar(d: nat): (c: char)
    requires d < 10
    ensures IsDigit(c)
  {
    (d + '0' as int) as char
  }

  function DigitValue(c: char): (d: nat)
    requires IsDigit(c)
    ensures d < 10 && DigitChar(d) == c
  {
    c as int - '0' as int
  }

  /** Canonical decimal digits of `n`: at least one digit and no leading
      zero unless `n` is zero itself. */
  function NatToString(n: nat): (s: string)
    ensures 1 <= |s| && AllDigits(s)
    ensures s[0] == '0' <==> n == 0
    ensures |s| == 1 <==> n < 10
  {
    if n < 10 then [DigitChar(n)] else NatToString(n / 10) + [DigitChar(n % 10)]
  }

  /** The number a digit string denotes (Python `int(s)`). */
  function DecimalValue(s: string): nat
    requires AllDigits(s)
  {
    if |s| == 0 then 0 else DecimalValue(s[..|s| - 1]) * 10 + DigitValue(s[|s| - 1])
  }

  /** Reading back the decimal rendering gives the number rendered. */
  lemma {:induction false} DecimalRoundTrip(n: nat)
    ensures DecimalValue(NatToString(n)) == n
  {
    var s := NatToString(n);
    if n >= 10 {
      DecimalRoundTrip(n / 10);
      assert s[..|s| - 1] == NatToString(n / 10);
    }
  }

  /** `str(i)` for any int: a minus sign before the digits of a negative. */
  function IntToString(i: int): (s: string)
    ensures 1 <= |s|
    ensures s[0] == '-' <==> i < 0
    ensures forall k :: 0 <= k < |s| ==> s[k] == '-' || IsDigit(s[k])
  {
    if i < 0 then "-" + NatToString(-i) else NatToString(i)
  }

  /** Python `int(s)` on the output of `IntToString`. */
  function SignedValue(s: string): int
    requires 1 <= |s|
    requires s[0] == '-' ==> AllDigits(s[1..])
    requires s[0] != '-' ==> AllDigits(s)
  {
    if s[0] == '-' then -(DecimalValue(s[1..]) as int) else DecimalValue(s)
  }

  /** Reading back `str(i)` gives `i`, sign included. */
  lemma {:induction false} IntRoundTrip(i: int)
    ensures SignedValue(IntToString(i)) == i
  {
    var s := IntToString(i);
    if i < 0 {
      var digits := NatToString(-i);
      assert s == "-" + digits;
      assert s[1..] == digits;
      DecimalRoundTrip(-i);
    } else {
      DecimalRoundTrip(i);
    }
  }

  // ---------------------------------------------------------------------------
  // `str.strip()` with no arguments

  /** Python's `str.isspace()` for one code point. */
  predicate IsSpace(c: char) {
    || c == ' ' || c == '\t' || c == '\n' || c == '\r'
    || c == '\U{000B}' || c == '\U{000C}'
    || ('\U{001C}' <= c <= '\U{001F}')
    || c == '\U{0085}' || c == '\U{00A0}' || c == '\U{1680}'
    || ('\U{2000}' <= c <= '\U{200A}')
    || c == '\U{2028}' || c == '\U{2029}' || c == '\U{202F}'
    || c == '\U{205F}' || c == '\U{3000}'
  }

  function StripLeading(s: string): string
    decreases |s|
  {
    if |s| > 0 && IsSpace(s[0]) then StripLeading(s[1..]) else s
  }

  function StripTrailing(s: string): string
    decreases |s|
  {
    if |s| > 0 && IsSpace(s[|s| - 1]) then StripTrailing(s[..|s| - 1]) else s
  }

  function Strip(s: string): string {
    StripTrailing(StripLeading(s))
  }

  /** Stripping a text that is wrapped in whitespace but itself starts and
      ends with a visible character gives back exactly that text. */
  lemma {:induction false} StripWrapped(lead: string, body: string, trail: string)
    requires forall i :: 0 <= i < |lead| ==> IsSpace(lead[i])
    requires forall i :: 0 <= i < |trail| ==> IsSpace(trail[i])
    requires |body| > 0 && !IsSpace(body[0]) && !IsSpace(body[|body| - 1])
    ensures Strip(lead + body + trail) == body
    decreases |lead| + |trail|
  {
    if |lead| > 0 {
      assert (lead + body + trail)[1..] == lead[1..] + body + trail;
      StripWrapped(lead[1..], body, trail);
    } else if |trail| > 0 {
      var t := trail[..|trail| - 1];
      assert lead + body + trail == body + trail;
      assert (body + trail)[..|body + trail| - 1] == body + t;
      assert StripLeading(body + trail) == body + trail;
      assert StripLeading(body + t) == body + t;
      StripWrapped(lead, body, t);
      assert lead + body + t == body + t;
    } else {
      assert lead + body + trail == body;
    }
  }
}
