/**
 * MySQL `title LIKE pattern` under a case- and accent-insensitive collation.
 * The collation is abstract: `fold` maps each character to its collation key,
 * and LIKE compares pattern and text one character at a time by that key.
 * `%` matches any run of characters, `_` any single character, and `\` makes
 * the next pattern character literal.
 */
module SqlLike {

  /** The collation keys of a string, character by character. */
  function Folded(s: string, fold: char -> char): (r: string)
    ensures |r| == |s|
    ensures forall i :: 0 <= i < |s| ==> r[i] == fold(s[i])
  {
    seq(|s|, i requires 0 <= i < |s| => fold(s[i]))
  }

  /** `t LIKE p` with the default escape character. A `\` that ends the pattern stands for itself. */
  predicate Like(t: string, p: string, fold: char -> char)
    decreases |t| + |p|
  {
    if p == [] then t == []
    else if p[0] == '%' then Like(t, p[1..], fold) || (t != [] && Like(t[1..], p, fold))
    else if p[0] == '_' then t != [] && Like(t[1..], p[1..], fold)
    else if p[0] == '\\' && |p| >= 2 then t != [] && fold(t[0]) == fold(p[1]) && Like(t[1..], p[2..], fold)
    else t != [] && fold(t[0]) == fold(p[0]) && Like(t[1..], p[1..], fold)
  }

  /** A character LIKE does not take literally. */
  predicate Special(c: char) {
    c == '%' || c == '_' || c == '\\'
  }

  /** A pattern with no special character: it can only match texts of its own length. */
  predicate Literal(p: string) {
    forall i :: 0 <= i < |p| ==> !Special(p[i])
  }

  /** `q` occurs in `t` at position k, compared by collation key. */
  predicate OccursAt(t: string, q: string, k: nat, fold: char -> char) {
    k + |q| <= |t| && Folded(t[k..k + |q|], fold) == Folded(q, fold)
  }

  /** Case- and accent-insensitive substring containment. */
  predicate ContainsFolded(t: string, q: string, fold: char -> char) {
    exists k: nat :: k <= |t| && OccursAt(t, q, k, fold)
  }

  /** `q` with every special character preceded by the escape character. */
  function Escape(q: string): (r: string)
    ensures |q| <= |r|
  {
    if q == [] then []
    else (if Special(q[0]) then ['\\', q[0]] else [q[0]]) + Escape(q[1..])
  }

  /** The pattern `%q%` for a query with its special characters escaped. */
  function ContainsPattern(q: string): string {
    "%" + Escape(q) + "%"
  }

  /** A pattern without special characters matches exactly the texts of its length
      that equal it by collation key. */
  lemma {:induction false} LikeLiteral(t: string, p: string, fold: char -> char)
    requires Literal(p)
    ensures Like(t, p, fold) <==> |t| == |p| && Folded(t, fold) == Folded(p, fold)
    decreases |p|
  {
    if p != [] && t != [] {
      assert Literal(p[1..]);
      LikeLiteral(t[1..], p[1..], fold);
      if |t| == |p| {
        FoldedCons(t, p, fold);
      }
    }
  }

  /** A trailing `%` matches whatever is left of the text. */
  lemma {:induction false} PercentMatchesAll(t: string, fold: char -> char)
    ensures Like(t, "%", fold)
  {
    if t != [] {
      PercentMatchesAll(t[1..], fold);
    }
  }

  /** A leading `%` skips any number of characters of the text. */
  lemma {:induction false} LeadingPercent(t: string, rest: string, fold: char -> char)
    ensures Like(t, "%" + rest, fold) <==> exists k :: 0 <= k <= |t| && Like(t[k..], rest, fold)
  {
    var p := "%" + rest;
    assert p[1..] == rest;
    if t == [] {
      assert t[0..] == t;
    } else {
      LeadingPercent(t[1..], rest, fold);
      if Like(t, p, fold) {
        if Like(t, rest, fold) {
          assert t[0..] == t;
        } else {
          var k :| 0 <= k <= |t[1..]| && Like(t[1..][k..], rest, fold);
          assert t[1..][k..] == t[k + 1..];
        }
      }
      if exists k :: 0 <= k <= |t| && Like(t[k..], rest, fold) {
        var k :| 0 <= k <= |t| && Like(t[k..], rest, fold);
        if k == 0 {
          assert t[0..] == t;
        } else {
          assert t[1..][k - 1..] == t[k..];
        }
      }
    }
  }

  /** Two strings of equal length agree by collation key exactly when their first
      characters and their remainders do. */
  lemma FoldedCons(a: string, b: string, fold: char -> char)
    requires |a| == |b| && a != []
    ensures Folded(a, fold) == Folded(b, fold)
        <==> fold(a[0]) == fold(b[0]) && Folded(a[1..], fold) == Folded(b[1..], fold)
  {
    if fold(a[0]) == fold(b[0]) && Folded(a[1..], fold) == Folded(b[1..], fold) {
      forall i | 0 <= i < |a|
        ensures Folded(a, fold)[i] == Folded(b, fold)[i]
      {
        if i > 0 {
          assert Folded(a[1..], fold)[i - 1] == Folded(b[1..], fold)[i - 1];
        }
      }
    }
    if Folded(a, fold) == Folded(b, fold) {
      forall i | 0 <= i < |a| - 1
        ensures Folded(a[1..], fold)[i] == Folded(b[1..], fold)[i]
      {
        assert Folded(a, fold)[i + 1] == Folded(b, fold)[i + 1];
      }
    }
  }

  /** An escaped query followed by `%` matches exactly the texts that start with the
      query, compared by collation key. */
  lemma {:induction false} EscapedPrefix(t: string, q: string, fold: char -> char)
    ensures Like(t, Escape(q) + "%", fold) <==> |q| <= |t| && Folded(t[..|q|], fold) == Folded(q, fold)
  {
    if q == [] {
      assert Escape(q) + "%" == "%";
      PercentMatchesAll(t, fold);
    } else {
      var head := if Special(q[0]) then ['\\', q[0]] else [q[0]];
      var p := Escape(q) + "%";
      assert p == head + (Escape(q[1..]) + "%");
      EscapedPrefix(if t == [] then [] else t[1..], q[1..], fold);
      if Special(q[0]) {
        assert p[0] == '\\' && p[1] == q[0] && p[2..] == Escape(q[1..]) + "%";
      } else {
        assert p[0] == q[0] && p[1..] == Escape(q[1..]) + "%";
      }
      if t != [] && |q| <= |t| {
        assert t[..|q|][1..] == t[1..][..|q[1..]|];
        FoldedCons(t[..|q|], q, fold);
      }
    }
  }

  /** The escaped pattern `%q%` is substring containment by collation key. */
  lemma ContainsPatternMeaning(t: string, q: string, fold: char -> char)
    ensures Like(t, ContainsPattern(q), fold) <==> ContainsFolded(t, q, fold)
  {
    var rest := Escape(q) + "%";
    assert ContainsPattern(q) == "%" + rest;
    LeadingPercent(t, rest, fold);
    if Like(t, ContainsPattern(q), fold) {
      var k :| 0 <= k <= |t| && Like(t[k..], rest, fold);
      EscapedPrefix(t[k..], q, fold);
      assert t[k..][..|q|] == t[k..k + |q|];
      assert OccursAt(t, q, k, fold);
    }
    if ContainsFolded(t, q, fold) {
      var k: nat :| k <= |t| && OccursAt(t, q, k, fold);
      EscapedPrefix(t[k..], q, fold);
      assert t[k..][..|q|] == t[k..k + |q|];
      assert Like(t[k..], rest, fold);
    }
  }

  lemma ContainsPatternMeaningAll(q: string, fold: char -> char)
    ensures forall t :: Like(t, ContainsPattern(q), fold) <==> ContainsFolded(t, q, fold)
  {
    forall t ensures Like(t, ContainsPattern(q), fold) <==> ContainsFolded(t, q, fold) {
      ContainsPatternMeaning(t, q, fold);
    }
  }

  /** A query without special characters needs no escaping. */
  lemma {:induction false} EscapeOfPlain(q: string)
    requires forall i :: 0 <= i < |q| ==> !Special(q[i])
    ensures Escape(q) == q
  {
    if q != [] {
      EscapeOfPlain(q[1..]);
    }
  }

  /** `%_%` matches every non-empty text, whatever it contains. */
  lemma UnderscoreMatchesNonEmpty(t: string, fold: char -> char)
    requires t != []
    ensures Like(t, "%_%", fold)
  {
    LeadingPercent(t, "_%", fold);
    assert "_%"[1..] == "%";
    PercentMatchesAll(t[1..], fold);
    assert Like(t[0..], "_%", fold);
  }
}
