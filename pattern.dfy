/**
 * The `ILIKE` pattern match that the search filter asks the database for.
 * Case folding is modelled as ASCII lower-casing on both operands; the
 * escape character is the default backslash.
 */
module Pattern {

  const Escape: char := '\\'

  function Lower(c: char): char {
    if 'A' <= c <= 'Z' then (c as int - 'A' as int + 'a' as int) as char else c
  }

  function Fold(s: string): (r: string)
    ensures |r| == |s|
  {
    seq(|s|, i requires 0 <= i < |s| => Lower(s[i]))
  }

  /** `%`, `_` and the escape character are the characters LIKE gives a meaning. */
  predicate IsMeta(c: char) {
    c == '%' || c == '_' || c == Escape
  }

  predicate Plain(q: string) {
    forall i :: 0 <= i < |q| ==> !IsMeta(q[i])
  }

  /** `s LIKE p`: `%` matches any run, `_` any one character, an escaped character itself. */
  function Like(s: string, p: string): (r: bool)
    ensures Plain(p) ==> (r <==> s == p)
    decreases |s| + |p|
  {
    if p == [] then s == []
    else if p[0] == '%' then Like(s, p[1..]) || (s != [] && Like(s[1..], p))
    else if p[0] == '_' then s != [] && Like(s[1..], p[1..])
    else if p[0] == Escape then |p| >= 2 && s != [] && s[0] == p[1] && Like(s[1..], p[2..])
    else s != [] && s[0] == p[0] && Like(s[1..], p[1..])
  }

  /** `s ILIKE p`. */
  predicate ILike(s: string, p: string)
    ensures Plain(p) ==> (ILike(s, p) <==> Fold(s) == Fold(p))
  {
    FoldKeepsPlain(p);
    Like(Fold(s), Fold(p))
  }

  lemma FoldKeepsPlain(p: string)
    ensures Plain(p) ==> Plain(Fold(p))
  {
    if Plain(p) {
      forall i | 0 <= i < |p| ensures !IsMeta(Fold(p)[i]) {
        assert !IsMeta(p[i]);
      }
    }
  }

  /** `q` occurs in `s` as a contiguous piece. */
  predicate Contains(s: string, q: string) {
    exists i :: 0 <= i <= |s| && q <= s[i..]
  }

  lemma {:induction false} PercentMatchesAll(s: string)
    ensures Like(s, "%")
  {
    assert "%"[1..] == [];
    if s != [] {
      PercentMatchesAll(s[1..]);
    }
  }

  /** A plain pattern followed by `%` matches exactly the strings it is a prefix of. */
  lemma {:induction false} PlainThenPercent(s: string, q: string)
    requires Plain(q)
    ensures Like(s, q + "%") <==> q <= s
  {
    if q == [] {
      assert q + "%" == "%";
      PercentMatchesAll(s);
    } else {
      assert (q + "%")[0] == q[0] && (q + "%")[1..] == q[1..] + "%";
      assert !IsMeta(q[0]);
      if s != [] {
        PlainThenPercent(s[1..], q[1..]);
        assert q <= s <==> s[0] == q[0] && q[1..] <= s[1..];
      }
    }
  }

  /** A leading `%` matches when the rest matches some suffix. */
  lemma {:induction false} LeadingPercent(s: string, r: string)
    ensures Like(s, "%" + r) <==> exists i :: 0 <= i <= |s| && Like(s[i..], r)
  {
    var p := "%" + r;
    assert p[0] == '%' && p[1..] == r;
    if s == [] {
      assert s[0..] == s;
    } else {
      LeadingPercent(s[1..], r);
      if Like(s, p) {
        if Like(s, r) {
          assert s[0..] == s;
        } else {
          var i :| 0 <= i <= |s| - 1 && Like(s[1..][i..], r);
          assert s[1..][i..] == s[i + 1..];
        }
      }
      if exists i :: 0 <= i <= |s| && Like(s[i..], r) {
        var i :| 0 <= i <= |s| && Like(s[i..], r);
        if i == 0 {
          assert s[0..] == s;
        } else {
          assert s[1..][i - 1..] == s[i..];
        }
      }
    }
  }

  /**
   * For a search text without LIKE metacharacters, `title ILIKE '%q%'` holds
   * exactly when `q` occurs in the title, ignoring case.
   */
  lemma SearchIsSubstring(s: string, q: string)
    requires Plain(q)
    ensures ILike(s, "%" + q + "%") <==> Contains(Fold(s), Fold(q))
  {
    var fs, fq := Fold(s), Fold(q);
    assert Fold("%" + q + "%") == "%" + (fq + "%");
    assert Plain(fq) by {
      forall i | 0 <= i < |fq| ensures !IsMeta(fq[i]) {
        assert !IsMeta(q[i]);
      }
    }
    LeadingPercent(fs, fq + "%");
    forall i | 0 <= i <= |fs|
      ensures Like(fs[i..], fq + "%") <==> fq <= fs[i..]
    {
      PlainThenPercent(fs[i..], fq);
    }
  }

  /** A text without the escape character, followed by `%`, matches itself as a pattern. */
  lemma {:induction false} SelfThenPercent(s: string)
    requires Escape !in s
    ensures Like(s, s + "%")
  {
    var p := s + "%";
    if s == [] {
      assert p == "%";
      PercentMatchesAll(s);
    } else {
      assert p[0] == s[0] && p[1..] == s[1..] + "%";
      assert forall c :: c in s[1..] ==> c in s;
      SelfThenPercent(s[1..]);
      if s[0] == '%' {
        assert Like(s[1..], p);
      }
    }
  }

  /** Searching for a text without the escape character finds every title equal to it up to case. */
  lemma SearchFindsOwnTitle(s: string)
    requires Escape !in s
    ensures ILike(s, "%" + s + "%")
  {
    var fs := Fold(s);
    assert Fold("%" + s + "%") == "%" + (fs + "%");
    assert Escape !in fs by {
      forall i | 0 <= i < |fs| ensures fs[i] != Escape {
        assert s[i] in s;
      }
    }
    SelfThenPercent(fs);
    assert fs[0..] == fs;
    LeadingPercent(fs, fs + "%");
  }

  /** A backslash in the search text escapes the next character: `a\b` does not find itself. */
  lemma BackslashTitleNotFound()
    ensures !ILike("a\\b", "%a\\b%")
  {
    var s := "a\\b";
    var r := "a\\b%";
    assert Fold(s) == s;
    assert Fold("%" + r) == "%" + r;
    assert "%a\\b%" == "%" + r;
    LeadingPercent(s, r);
    forall i | 0 <= i <= |s| ensures !Like(s[i..], r) {
      if i == 0 {
        assert r[0] == s[0] && r[1..] == "\\b%" && s[1..] == "\\b";
        assert !Like("\\b", "\\b%");
      }
    }
  }

  /** Because the query is not escaped, a search for `_` matches every non-empty title. */
  lemma UnderscoreSearchMatchesAnyTitle(s: string)
    ensures ILike(s, "%_%") <==> s != []
  {
    var fs := Fold(s);
    assert Fold("%_%") == "%" + "_%";
    LeadingPercent(fs, "_%");
    if s != [] {
      assert fs[0..] == fs;
      assert "_%"[1..] == "%";
      PercentMatchesAll(fs[1..]);
    }
  }

  /** ... and a search for `%` matches every title, the empty one included. */
  lemma PercentSearchMatchesEveryTitle(s: string)
    ensures ILike(s, "%%%")
  {
    var fs := Fold(s);
    assert Fold("%%%") == "%" + "%%";
    assert fs[0..] == fs;
    LeadingPercent(fs, "%%");
    assert "%%" == "%" + "%";
    LeadingPercent(fs, "%");
    assert fs[|fs|..] == [];
    PercentMatchesAll(fs[|fs|..]);
  }
}
