/**
 SQLite's built-in `LIKE` without an `ESCAPE` clause: `%` matches any run of
 characters, `_` exactly one, and the 26 ASCII letters compare without regard
 to case. Nothing in a pattern can be escaped.
 */
module LikeMatching {

  function FoldAscii(c: char): char {
    if 'A' <= c <= 'Z' then (c as int + 32) as char else c
  }

  predicate SameFolded(a: char, b: char) {
    FoldAscii(a) == FoldAscii(b)
  }

  /** `text LIKE pattern`. */
  predicate Like(pattern: string, text: string)
    decreases |pattern| + |text|
  {
    if |pattern| == 0 then |text| == 0
    else if pattern[0] == '%' then Like(pattern[1..], text) || (|text| > 0 && Like(pattern, text[1..]))
    else |text| > 0 && (pattern[0] == '_' || SameFolded(pattern[0], text[0])) && Like(pattern[1..], text[1..])
  }

  predicate NoWildcards(q: string) {
    forall i :: 0 <= i < |q| ==> q[i] != '%' && q[i] != '_'
  }

  predicate FoldedEqual(a: string, b: string) {
    |a| == |b| && forall i :: 0 <= i < |a| ==> SameFolded(a[i], b[i])
  }

  /** `q` occurs in `text` as a substring, ASCII letters compared without case. */
  predicate ContainsFolded(text: string, q: string) {
    exists k :: 0 <= k <= |text| - |q| && OccursAt(text, q, k)
  }

  /** `q` occurs in `text` starting at position `k`. */
  predicate OccursAt(text: string, q: string, k: int) {
    0 <= k <= |text| - |q| && FoldedEqual(q, text[k..k + |q|])
  }

  /** The empty text matches exactly the patterns made only of `%`. */
  lemma {:induction false} LikeEmptyText(p: string)
    ensures Like(p, "") <==> forall i :: 0 <= i < |p| ==> p[i] == '%'
  {
    if |p| > 0 {
      LikeEmptyText(p[1..]);
      assert (forall i :: 0 <= i < |p| ==> p[i] == '%') <==>
             p[0] == '%' && forall i :: 0 <= i < |p[1..]| ==> p[1..][i] == '%' by {
        if p[0] == '%' && forall i :: 0 <= i < |p[1..]| ==> p[1..][i] == '%' {
          forall i | 0 <= i < |p| ensures p[i] == '%' {
            if i > 0 { assert p[i] == p[1..][i - 1]; }
          }
        }
      }
    }
  }

  /** A pattern made only of `%` (and at least one) matches every text. */
  lemma {:induction false} AllPercentMatches(p: string, s: string)
    requires |p| > 0
    requires forall i :: 0 <= i < |p| ==> p[i] == '%'
    ensures Like(p, s)
  {
    if |s| > 0 {
      AllPercentMatches(p, s[1..]);
    } else {
      LikeEmptyText(p);
    }
  }

  /** A lone `%` matches every text. */
  lemma {:induction false} PercentMatchesAll(s: string)
    ensures Like("%", s)
  {
    if |s| > 0 {
      PercentMatchesAll(s[1..]);
    }
  }

  /** `q%` with a wildcard-free `q` matches the texts that start with `q`. */
  lemma {:induction false} LikePrefix(q: string, s: string)
    requires NoWildcards(q)
    ensures Like(q + "%", s) <==> |q| <= |s| && FoldedEqual(q, s[..|q|])
  {
    if |q| == 0 {
      assert q + "%" == "%";
      PercentMatchesAll(s);
    } else {
      var p := q + "%";
      assert p[1..] == q[1..] + "%";
      if |s| > 0 {
        LikePrefix(q[1..], s[1..]);
        if |q| <= |s| && SameFolded(q[0], s[0]) && FoldedEqual(q[1..], s[1..][..|q| - 1]) {
          forall i | 0 <= i < |q| ensures SameFolded(q[i], s[..|q|][i]) {
            if i > 0 { assert q[i] == q[1..][i - 1] && s[..|q|][i] == s[1..][..|q| - 1][i - 1]; }
          }
        }
        if |q| <= |s| && FoldedEqual(q, s[..|q|]) {
          assert SameFolded(q[0], s[0]);
          forall i | 0 <= i < |q| - 1 ensures SameFolded(q[1..][i], s[1..][..|q| - 1][i]) {
            assert q[1..][i] == q[i + 1] && s[1..][..|q| - 1][i] == s[..|q|][i + 1];
          }
        }
      }
    }
  }

  /** A leading `%` lets the rest of the pattern match any suffix of the text. */
  lemma {:induction false} LikeLeadingPercent(r: string, s: string)
    ensures Like("%" + r, s) <==> exists k :: 0 <= k <= |s| && Like(r, s[k..])
  {
    var p := "%" + r;
    assert p[1..] == r;
    assert s[0..] == s;
    if |s| > 0 {
      LikeLeadingPercent(r, s[1..]);
      if exists k :: 0 <= k <= |s| && Like(r, s[k..]) {
        var k :| 0 <= k <= |s| && Like(r, s[k..]);
        if k > 0 {
          assert s[1..][k - 1..] == s[k..];
        }
      }
      if exists k :: 0 <= k <= |s[1..]| && Like(r, s[1..][k..]) {
        var k :| 0 <= k <= |s[1..]| && Like(r, s[1..][k..]);
        assert s[1..][k..] == s[k + 1..];
      }
    }
  }

  /** `LIKE '%q%'` with a wildcard-free `q` is case-insensitive substring search. */
  lemma WildcardWrapIsSubstring(q: string, s: string)
    requires NoWildcards(q)
    ensures Like("%" + q + "%", s) <==> ContainsFolded(s, q)
  {
    assert "%" + q + "%" == "%" + (q + "%");
    LikeLeadingPercent(q + "%", s);
    if Like("%" + q + "%", s) {
      var k :| 0 <= k <= |s| && Like(q + "%", s[k..]);
      LikePrefix(q, s[k..]);
      assert s[k..][..|q|] == s[k..k + |q|];
      assert OccursAt(s, q, k);
    }
    if ContainsFolded(s, q) {
      var k :| 0 <= k <= |s| - |q| && OccursAt(s, q, k);
      LikePrefix(q, s[k..]);
      assert s[k..][..|q|] == s[k..k + |q|];
      assert Like(q + "%", s[k..]);
    }
  }

  /**
   A text a pattern matches literally: every `%` dropped and every `_` read
   as `x`. When the pattern has a wildcard, the pattern itself does not occur
   in this text.
   */
  function WildcardWitness(v: string): (t: string)
    ensures |t| <= |v|
    ensures '%' in v ==> |t| < |v|
    ensures '%' !in v ==> |t| == |v| && forall j :: 0 <= j < |v| ==> t[j] == (if v[j] == '_' then 'x' else v[j])
  {
    if |v| == 0 then ""
    else if v[0] == '%' then WildcardWitness(v[1..])
    else
      var rest := WildcardWitness(v[1..]);
      assert '%' in v ==> '%' in v[1..] by {
        if '%' in v { var i :| 0 <= i < |v| && v[i] == '%'; assert v[1..][i - 1] == '%'; }
      }
      [if v[0] == '_' then 'x' else v[0]] + rest
  }

  /** Every pattern followed by `%` matches its own witness text. */
  lemma {:induction false} LikeWitness(v: string)
    ensures Like(v + "%", WildcardWitness(v))
  {
    var t := WildcardWitness(v);
    if |v| == 0 {
      assert v + "%" == "%";
      PercentMatchesAll(t);
    } else {
      assert (v + "%")[1..] == v[1..] + "%";
      LikeWitness(v[1..]);
      if v[0] != '%' {
        assert t[1..] == WildcardWitness(v[1..]);
      }
    }
  }

  /**
   A pattern with a wildcard, wrapped in `%`, matches a text that does not
   contain the pattern as a substring.
   */
  lemma WildcardOperandOverMatches(v: string)
    requires !NoWildcards(v)
    ensures Like("%" + v + "%", WildcardWitness(v))
    ensures !ContainsFolded(WildcardWitness(v), v)
  {
    var t := WildcardWitness(v);
    assert "%" + v + "%" == "%" + (v + "%");
    LikeWitness(v);
    assert ("%" + (v + "%"))[1..] == v + "%";
    if '%' !in v {
      var i :| 0 <= i < |v| && (v[i] == '%' || v[i] == '_');
      assert v[i] == '_' && t[i] == 'x';
      forall k | 0 <= k <= |t| - |v| ensures !OccursAt(t, v, k) {
        assert k == 0 && t[k..k + |v|] == t;
        assert !SameFolded(v[i], t[i]);
      }
    }
  }

}
