/** The `ilike` pattern match of the author search, with the case folding of
    the database kept abstract as a `fold` function on characters. */
module Search {

  /** SQL LIKE: `%` matches any run of characters, `_` matches exactly one,
      and every other pattern character matches one text character that is
      equal to it after folding. A pattern without `%` matches exactly the
      texts of its own length that agree with it, up to folding, at every
      position that is not `_`. */
  function Like(t: string, p: string, fold: char -> char): (r: bool)
    ensures '%' !in p ==>
      (r <==> |t| == |p| && forall k :: 0 <= k < |p| ==> p[k] == '_' || fold(t[k]) == fold(p[k]))
    decreases |t| + |p|
  {
    if p == [] then t == []
    else if p[0] == '%' then Like(t, p[1..], fold) || (t != [] && Like(t[1..], p, fold))
    else
      assert '%' !in p ==> '%' !in p[1..];
      t != [] && (p[0] == '_' || fold(t[0]) == fold(p[0])) && Like(t[1..], p[1..], fold)
  }

  /** The pattern `'%' || ? || '%'` built around the search term. */
  function ContainsPattern(s: string): string {
    "%" + s + "%"
  }

  /** A search term without LIKE wildcards. */
  predicate Literal(s: string) {
    '%' !in s && '_' !in s
  }

  /** `t` starts with `s`, up to folding. */
  ghost predicate FoldedPrefix(s: string, t: string, fold: char -> char) {
    |s| <= |t| && forall k :: 0 <= k < |s| ==> fold(t[k]) == fold(s[k])
  }

  /** `t` contains `s` as a substring, up to folding. */
  ghost predicate ContainsFolded(t: string, s: string, fold: char -> char) {
    exists i :: 0 <= i <= |t| && FoldedPrefix(s, t[i..], fold)
  }

  /** A lone `%` matches every text. */
  lemma {:induction false} PercentMatchesAll(t: string, fold: char -> char)
    ensures Like(t, "%", fold)
  {
    if t != [] {
      PercentMatchesAll(t[1..], fold);
    }
  }

  lemma FoldedPrefixCons(s: string, t: string, fold: char -> char)
    requires s != [] && t != []
    ensures FoldedPrefix(s, t, fold) <==> fold(t[0]) == fold(s[0]) && FoldedPrefix(s[1..], t[1..], fold)
  {
  }

  /** For a literal `s`, the pattern `s%` matches exactly the texts that start with `s`. */
  lemma {:induction false} LikeLiteralPrefix(t: string, s: string, fold: char -> char)
    requires Literal(s)
    ensures Like(t, s + "%", fold) <==> FoldedPrefix(s, t, fold)
  {
    if s == [] {
      assert s + "%" == "%";
      PercentMatchesAll(t, fold);
    } else {
      var p := s + "%";
      assert p[0] == s[0];
      assert p[1..] == s[1..] + "%";
      assert s[0] in s;
      assert Literal(s[1..]) by {
        forall c | c in s[1..] ensures c in s {
          var k :| 0 <= k < |s[1..]| && s[1..][k] == c;
          assert s[k + 1] == c;
        }
      }
      if t != [] {
        LikeLiteralPrefix(t[1..], s[1..], fold);
        FoldedPrefixCons(s, t, fold);
      }
    }
  }

  /** A leading `%` lets the rest of the pattern match any suffix of the text. */
  lemma {:induction false} LikeLeadingPercent(t: string, q: string, fold: char -> char)
    ensures Like(t, "%" + q, fold) <==> exists i :: 0 <= i <= |t| && Like(t[i..], q, fold)
  {
    var p := "%" + q;
    assert p[0] == '%' && p[1..] == q;
    assert t[0..] == t;
    if t != [] {
      LikeLeadingPercent(t[1..], q, fold);
      if Like(t, p, fold) && !Like(t, q, fold) {
        var i :| 0 <= i <= |t| - 1 && Like(t[1..][i..], q, fold);
        assert t[1..][i..] == t[i + 1..];
      }
      if exists i :: 0 <= i <= |t| && Like(t[i..], q, fold) {
        var i :| 0 <= i <= |t| && Like(t[i..], q, fold);
        if i > 0 {
          assert t[1..][i - 1..] == t[i..];
        }
      }
    }
  }

  /** For a search term without wildcards, `author ilike '%' || s || '%'` is
      a case-insensitive substring test. */
  lemma ILikeIsFoldedSubstring(t: string, s: string, fold: char -> char)
    requires Literal(s)
    ensures Like(t, ContainsPattern(s), fold) <==> ContainsFolded(t, s, fold)
  {
    assert ContainsPattern(s) == "%" + (s + "%");
    LikeLeadingPercent(t, s + "%", fold);
    forall i | 0 <= i <= |t|
      ensures Like(t[i..], s + "%", fold) <==> FoldedPrefix(s, t[i..], fold)
    {
      LikeLiteralPrefix(t[i..], s, fold);
    }
  }

  /** The search term is not escaped: the term `%` matches every author. */
  lemma PercentTermMatchesAll(t: string, fold: char -> char)
    ensures Like(t, ContainsPattern("%"), fold)
  {
    assert ContainsPattern("%") == "%" + ("%" + "%");
    LikeLeadingPercent(t, "%%", fold);
    assert t[0..] == t;
    PercentMatchesAll(t, fold);
    assert Like(t, "%%", fold);
  }
}
