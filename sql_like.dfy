/** The SQL `LIKE` pattern language as PostgreSQL reads it with its default
    escape character: `%` matches any run of characters, `_` any single
    character, `\` makes the next character literal; `ILIKE` folds case. */
module SqlLike {
  import opened Text

  predicate Like(p: string, s: string)
    decreases |p|, |s|
  {
    if p == [] then s == []
    else if p[0] == '%' then Like(p[1..], s) || (s != [] && Like(p, s[1..]))
    else if p[0] == '\\' && |p| >= 2 then s != [] && s[0] == p[1] && Like(p[2..], s[1..])
    else if p[0] == '_' then s != [] && Like(p[1..], s[1..])
    else s != [] && s[0] == p[0] && Like(p[1..], s[1..])
  }

  predicate ILike(p: string, s: string) {
    Like(FoldAll(p), FoldAll(s))
  }

  /** Text with none of the pattern metacharacters. */
  predicate Plain(f: string) {
    forall i :: 0 <= i < |f| ==> f[i] !in {'%', '_', '\\'}
  }

  lemma {:induction false} PercentMatchesAll(s: string)
    ensures Like("%", s)
    decreases |s|
  {
    assert "%"[1..] == [];
    if s != [] {
      PercentMatchesAll(s[1..]);
    }
  }

  /** Plain text matches only itself. */
  lemma {:induction false} PlainIsExact(f: string, s: string)
    requires Plain(f)
    ensures Like(f, s) <==> s == f
    decreases |f|
  {
    if f != [] {
      assert f[0] !in {'%', '_', '\\'};
      if s != [] {
        PlainIsExact(f[1..], s[1..]);
        if s[0] == f[0] && s[1..] == f[1..] {
          assert s == [s[0]] + s[1..] && f == [f[0]] + f[1..];
        }
      }
    }
  }

  /** `f%` matches exactly the strings starting with f. */
  lemma {:induction false} PrefixPattern(f: string, s: string)
    requires Plain(f)
    ensures Like(f + "%", s) <==> HasPrefix(s, f)
    decreases |f|
  {
    if f == [] {
      assert f + "%" == "%";
      PercentMatchesAll(s);
    } else {
      assert f[0] !in {'%', '_', '\\'};
      assert (f + "%")[0] == f[0];
      assert (f + "%")[1..] == f[1..] + "%";
      if s != [] {
        PrefixPattern(f[1..], s[1..]);
        assert HasPrefix(s, f) <==> s[0] == f[0] && HasPrefix(s[1..], f[1..]) by {
          if HasPrefix(s, f) {
            assert s[1..][..|f| - 1] == s[..|f|][1..];
          }
          if s[0] == f[0] && HasPrefix(s[1..], f[1..]) {
            assert s[..|f|] == [s[0]] + s[1..][..|f| - 1];
            assert f == [f[0]] + f[1..];
          }
        }
      }
    }
  }

  /** A suffix test peels the first character off a longer string. */
  lemma SuffixStep(s: string, f: string)
    ensures HasSuffix(s, f) <==> s == f || (s != [] && HasSuffix(s[1..], f))
  {
    if s != [] && HasSuffix(s[1..], f) {
      assert s[1..][|s| - 1 - |f|..] == s[|s| - |f|..];
    }
    if HasSuffix(s, f) && s != f {
      assert |f| < |s|;
      assert s[1..][|s| - 1 - |f|..] == s[|s| - |f|..];
    }
  }

  /** `%f` matches exactly the strings ending with f. */
  lemma {:induction false} SuffixPattern(f: string, s: string)
    requires Plain(f)
    ensures Like("%" + f, s) <==> HasSuffix(s, f)
    decreases |s|
  {
    assert ("%" + f)[0] == '%' && ("%" + f)[1..] == f;
    PlainIsExact(f, s);
    SuffixStep(s, f);
    if s != [] {
      SuffixPattern(f, s[1..]);
    }
  }

  /** An infix test peels the first character off. */
  lemma InfixStep(s: string, f: string)
    ensures HasInfix(s, f) <==> HasPrefix(s, f) || (s != [] && HasInfix(s[1..], f))
  {
    if HasPrefix(s, f) {
      assert OccursAt(s, f, 0);
    }
    if s != [] {
      InfixOfTail(s, f);
    }
    if HasInfix(s, f) && !HasPrefix(s, f) {
      var i :| 0 <= i <= |s| - |f| && OccursAt(s, f, i);
      assert i != 0;
      assert s[1..][i - 1..i - 1 + |f|] == s[i..i + |f|];
      assert OccursAt(s[1..], f, i - 1);
    }
  }

  /** `%f%` matches exactly the strings containing f. */
  lemma {:induction false} InfixPattern(f: string, s: string)
    requires Plain(f)
    ensures Like("%" + f + "%", s) <==> HasInfix(s, f)
    decreases |s|
  {
    var p := "%" + f + "%";
    assert p[0] == '%' && p[1..] == f + "%";
    PrefixPattern(f, s);
    InfixStep(s, f);
    if s != [] {
      InfixPattern(f, s[1..]);
    }
  }

  /** Folding case keeps text plain, and commutes with building patterns. */
  lemma FoldPlain(f: string)
    requires Plain(f)
    ensures Plain(FoldAll(f))
    ensures FoldAll(f + "%") == FoldAll(f) + "%"
    ensures FoldAll("%" + f) == "%" + FoldAll(f)
    ensures FoldAll("%" + f + "%") == "%" + FoldAll(f) + "%"
  {
    forall i | 0 <= i < |f|
      ensures FoldAll(f)[i] !in {'%', '_', '\\'}
    {
      assert f[i] !in {'%', '_', '\\'};
    }
  }
}
