/** Pieces of SQL text the SQLite filter compiler emits, and placeholder counting. */
module SqlText {

  /** Occurrences of `c` in `s`. */
  function CountChar(c: char, s: string): nat {
    if |s| == 0 then 0 else (if s[0] == c then 1 else 0) + CountChar(c, s[1..])
  }

  lemma {:induction false} CountCharAppend(c: char, a: string, b: string)
    ensures CountChar(c, a + b) == CountChar(c, a) + CountChar(c, b)
  {
    if |a| > 0 {
      assert (a + b)[1..] == a[1..] + b;
      CountCharAppend(c, a[1..], b);
    } else {
      assert a + b == b;
    }
  }

  lemma {:induction false} CountCharAbsent(c: char, s: string)
    ensures CountChar(c, s) == 0 <==> c !in s
  {
    if |s| > 0 {
      CountCharAbsent(c, s[1..]);
      assert c in s <==> s[0] == c || c in s[1..] by {
        assert s == [s[0]] + s[1..];
      }
    }
  }

  /** `ifnull(<column>, '')`: SQLite's NULL-to-empty-string coalescing of a column. */
  function IfNullEmpty(column: string): string {
    "ifnull(" + column + ", '')"
  }

  /**
   The placeholder list for `n` bound values: one `?` per value, separated by
   commas. This is the assumed behaviour of the base class's
   `createSqlPlaceholders`, whose source is not part of this model.
   */
  function Placeholders(n: nat): (r: string)
    ensures CountChar('?', r) == n
    ensures |r| == (if n == 0 then 0 else 2 * n - 1)
    ensures forall i :: 0 <= i < |r| ==> r[i] == (if i % 2 == 0 then '?' else ',')
  {
    if n == 0 then ""
    else if n == 1 then "?"
    else
      var rest := Placeholders(n - 1);
      CountCharAppend('?', "?,", rest);
      "?," + rest
  }

  lemma IfNullEmptyHasNoPlaceholder(column: string)
    requires '?' !in column
    ensures CountChar('?', IfNullEmpty(column)) == 0
  {
    CountCharAbsent('?', column);
    CountCharAppend('?', "ifnull(", column);
    CountCharAppend('?', "ifnull(" + column, ", '')");
  }
}
