/**
 * SQLite's built-in LIKE operator, as the store's search uses it: no ESCAPE
 * clause, `%` matches any run of characters, `_` matches exactly one, and
 * the comparison of other characters ignores case for the ASCII letters
 * only (the default, with case_sensitive_like off).
 */
module Like {

  /** SQLite folds A-Z to a-z and leaves every other character alone. */
  function Fold(c: char): (f: char)
    ensures 'A' <= c <= 'Z' ==> f as int == c as int + 32
    ensures !('A' <= c <= 'Z') ==> f == c
  {
    if 'A' <= c <= 'Z' then (c as int + 32) as char else c
  }

  /** Two texts of equal length that agree character by character up to case folding. */
  predicate FoldedEqual(a: string, b: string) {
    |a| == |b| && forall k :: 0 <= k < |a| ==> Fold(a[k]) == Fold(b[k])
  }

  /** `q` occurs in `s` starting at index `i`, ignoring the case of ASCII letters. */
  predicate OccursAt(s: string, q: string, i: nat) {
    i + |q| <= |s| && FoldedEqual(s[i..i + |q|], q)
  }

  /** `q` occurs somewhere in `s`, ignoring the case of ASCII letters. */
  predicate Contains(s: string, q: string) {
    exists i: nat :: i <= |s| && OccursAt(s, q, i)
  }

  predicate IsWildcard(c: char) {
    c == '%' || c == '_'
  }

  predicate NoWildcards(q: string) {
    forall k :: 0 <= k < |q| ==> !IsWildcard(q[k])
  }

  /** `s LIKE p`. */
  predicate Like(s: string, p: string)
    decreases |s| + |p|
  {
    if p == [] then s == []
    else if p[0] == '%' then Like(s, p[1..]) || (s != [] && Like(s[1..], p))
    else if p[0] == '_' then s != [] && Like(s[1..], p[1..])
    else s != [] && Fold(s[0]) == Fold(p[0]) && Like(s[1..], p[1..])
  }

  /** A pattern that starts with `%` matches when its rest matches some suffix. */
  lemma {:induction false} LikeLeadingPercent(s: string, p: string)
    ensures Like(s, ['%'] + p) <==> exists i :: 0 <= i <= |s| && Like(s[i..], p)
    decreases |s|
  {
    var pp := ['%'] + p;
    assert pp[1..] == p;
    if s == [] {
      assert Like(s, pp) == Like(s, p);
      assert s[0..] == s;
      if exists i :: 0 <= i <= |s| && Like(s[i..], p) {
        var i :| 0 <= i <= |s| && Like(s[i..], p);
        assert s[i..] == s;
      }
    } else {
      assert Like(s, pp) == (Like(s, p) || Like(s[1..], pp));
      LikeLeadingPercent(s[1..], p);
      if Like(s, pp) {
        if Like(s, p) {
          assert s[0..] == s;
        } else {
          var i :| 0 <= i <= |s[1..]| && Like(s[1..][i..], p);
          assert s[1..][i..] == s[i + 1..];
        }
      }
      if exists i :: 0 <= i <= |s| && Like(s[i..], p) {
        var i :| 0 <= i <= |s| && Like(s[i..], p);
        if i == 0 {
          assert s[0..] == s;
          assert Like(s, p);
        } else {
          assert s[1..][i - 1..] == s[i..];
          assert 0 <= i - 1 <= |s[1..]| && Like(s[1..][i - 1..], p);
          assert Like(s[1..], pp);
        }
        assert Like(s, pp);
      }
    }
  }

  /** A wildcard-free pattern prefix must match the text's prefix of the same length. */
  lemma {:induction false} LikeLiteralPrefix(s: string, q: string, rest: string)
    requires NoWildcards(q)
    ensures Like(s, q + rest) <==>
            |q| <= |s| && FoldedEqual(s[..|q|], q) && Like(s[|q|..], rest)
  {
    if q != [] {
      var p := q + rest;
      assert p[0] == q[0] && p[1..] == q[1..] + rest;
      if s != [] {
        LikeLiteralPrefix(s[1..], q[1..], rest);
        if |q| <= |s| {
          assert s[1..][|q| - 1..] == s[|q|..];
          assert FoldedEqual(s[..|q|], q) <==>
                 Fold(s[0]) == Fold(q[0]) && FoldedEqual(s[1..][..|q| - 1], q[1..]) by {
            assert s[1..][..|q| - 1] == s[1..|q|];
          }
        }
      }
    } else {
      assert q + rest == rest;
      assert s[0..] == s;
    }
  }

  /** `%` alone matches every text. */
  lemma {:induction false} LikePercent(s: string)
    ensures Like(s, "%")
  {
    assert "%"[1..] == [];
    if s != [] {
      LikePercent(s[1..]);
    }
  }

  /**
   * The pattern the search binds, `%q%`, matches exactly the texts containing
   * `q` when `q` itself holds no wildcard.
   */
  lemma LikeInfix(s: string, q: string)
    requires NoWildcards(q)
    ensures Like(s, "%" + q + "%") <==> Contains(s, q)
  {
    var p := "%" + q + "%";
    assert p == ['%'] + (q + "%");
    LikeLeadingPercent(s, q + "%");
    if Like(s, p) {
      var i :| 0 <= i <= |s| && Like(s[i..], q + "%");
      LikeLiteralPrefix(s[i..], q, "%");
      assert s[i..][..|q|] == s[i..i + |q|];
      assert OccursAt(s, q, i);
    }
    if Contains(s, q) {
      var i: nat :| i <= |s| && OccursAt(s, q, i);
      LikeLiteralPrefix(s[i..], q, "%");
      assert s[i..][..|q|] == s[i..i + |q|];
      LikePercent(s[i..][|q|..]);
      assert Like(s[i..], q + "%");
    }
  }
}
