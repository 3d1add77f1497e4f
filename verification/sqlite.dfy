/** The two pieces of SQLite behaviour the todo store depends on: the
    uniqueness of a PRIMARY KEY and the `LIKE` operator as the queries use it
    (a pattern with `%` only at its ends, compared with ASCII case folding). */
module Sqlite {
  import opened Strings

  /** `sqlite3.IntegrityError`: an INSERT reused an existing primary key. */
  datatype DbError = IntegrityError(key: string)

  /** `value LIKE '%' || term || '%'`: an ASCII-case-insensitive substring test. */
  predicate LikeContains(value: string, term: string) {
    Contains(Lower(value), Lower(term))
  }

  /** `value LIKE pattern || '%'`: an ASCII-case-insensitive prefix test. */
  predicate LikePrefix(value: string, pattern: string) {
    IsPrefix(Lower(pattern), Lower(value))
  }

  /** Folding is idempotent, so the case of either side does not matter. */
  lemma LowerIdempotent(s: string)
    ensures Lower(Lower(s)) == Lower(s)
  {
  }

  /** `LIKE '%t%'` does not see the case of the stored value or of the term,
      and it finds every exact occurrence. */
  lemma LikeContainsProperties(value: string, term: string)
    ensures LikeContains(Lower(value), term) == LikeContains(value, term)
    ensures LikeContains(value, Lower(term)) == LikeContains(value, term)
    ensures Contains(value, term) ==> LikeContains(value, term)
  {
    LowerIdempotent(value);
    LowerIdempotent(term);
    if Contains(value, term) {
      var i :| OccursAt(value, term, i);
      assert Lower(value)[i..i + |term|] == Lower(term);
      assert OccursAt(Lower(value), Lower(term), i);
    }
  }

  /** A pattern character that `LIKE` matches only against itself, up to
      case, and that case folding leaves alone: no ASCII letter and neither
      of the wildcards `%` and `_`. */
  predicate PlainChar(c: char) {
    !('A' <= c <= 'Z') && !('a' <= c <= 'z') && c != '%' && c != '_'
  }

  predicate Plain(s: string) {
    forall i :: 0 <= i < |s| ==> PlainChar(s[i])
  }

  /** For a pattern with no letter and no wildcard (a date such as
      `2024-05-01`), the case-insensitive `LIKE 'p%'` is exactly a plain
      prefix test. */
  lemma {:induction false} LikePrefixPlain(value: string, pattern: string)
    requires Plain(pattern)
    ensures LikePrefix(value, pattern) <==> IsPrefix(pattern, value)
  {
    assert Lower(pattern) == pattern;
    if |pattern| <= |value| {
      if Lower(value)[..|pattern|] == pattern {
        forall i | 0 <= i < |pattern|
          ensures value[i] == pattern[i]
        {
          assert LowerChar(value[i]) == pattern[i];
        }
      }
      if value[..|pattern|] == pattern {
        forall i | 0 <= i < |pattern|
          ensures Lower(value)[i] == pattern[i]
        {
          assert value[i] == pattern[i];
        }
      }
    }
  }
}
