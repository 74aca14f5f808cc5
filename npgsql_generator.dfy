/** `NpgsqlGenerator.AddStringPropertyExpression`: a case-insensitive match
    becomes a PostgreSQL `ILIKE` call on a pattern built from the filter; a
    case-sensitive one calls the string method directly. Neither is guarded
    by `!= null`. */
module NpgsqlGenerator {
  import opened Text
  import opened Predicates
  import opened SqlLike
  import PolicyExtensions

  /** The expression built: an `ILIKE` call (evaluated by the database), or
      a string method call evaluated like any other predicate. */
  datatype NpgsqlFilter = ILikeCall(member: string, pattern: string) | MethodCall(pred: Pred)

  /** The pattern a match kind turns the filter into, the filter spliced in
      verbatim. */
  function ILikePattern(filter: string, kind: MatchKind): string {
    match kind
    case StartsWith => filter + "%"
    case EndsWith => "%" + filter
    case Contains => "%" + filter + "%"
    case Equals => filter
  }

  function NpgsqlFor(m: string, filter: string, kind: MatchKind, ignoreCase: bool): NpgsqlFilter {
    if ignoreCase then ILikeCall(m, ILikePattern(filter, kind))
    else MethodCall(StrMatch(kind, m, filter, false))
  }

  method AddStringPropertyExpression(m: string, filter: string, kind: MatchKind, ignoreCase: bool) returns (r: NpgsqlFilter)
    ensures r == NpgsqlFor(m, filter, kind, ignoreCase)
  {
    var f := filter;
    if ignoreCase {
      match kind {
        case StartsWith => f := f + "%";
        case EndsWith => f := "%" + f;
        case Contains => f := "%" + f + "%";
        case Equals =>
      }
      return ILikeCall(m, f);
    }
    return MethodCall(StrMatch(kind, m, f, false));
  }

  /** How the database decides an `ILIKE` call on a row: a null column
      never matches. */
  predicate ILikeAccepts(r: NpgsqlFilter, x: Record)
    requires r.ILikeCall?
  {
    r.member in x && x[r.member].Str? && ILike(r.pattern, x[r.member].s)
  }

  /** On a filter without `%`, `_` or `\` the `ILIKE` pattern accepts
      exactly the strings the case-folded in-memory test accepts. */
  lemma ILikeMatchesFoldedTest(m: string, filter: string, kind: MatchKind, x: Record)
    requires Plain(filter)
    ensures var r := NpgsqlFor(m, filter, kind, true);
      r.ILikeCall? && r.pattern == ILikePattern(filter, kind) &&
      (ILikeAccepts(r, x) <==> m in x && x[m].Str? && TextTest(kind, x[m].s, filter, true))
  {
    FoldPlain(filter);
    if m in x && x[m].Str? {
      var s := FoldAll(x[m].s);
      var f := FoldAll(filter);
      match kind
      case StartsWith => PrefixPattern(f, s);
      case EndsWith => SuffixPattern(f, s);
      case Contains => InfixPattern(f, s);
      case Equals => PlainIsExact(f, s);
    }
  }

  /** The filter is not escaped: `a_c` as an Equals filter matches `abc`,
      which the in-memory test rejects. */
  lemma UnescapedUnderscore()
    ensures ILike(ILikePattern("a_c", Equals), "abc")
    ensures !TextTest(Equals, "abc", "a_c", true)
  {
    assert FoldAll("a_c") == "a_c";
    assert FoldAll("abc") == "abc";
    assert "a_c"[1..] == "_c" && "_c"[1..] == "c" && "c"[1..] == [];
    assert "abc"[1..] == "bc" && "bc"[1..] == "c";
    assert Like("c", "c");
    assert Like("_c", "bc");
    assert "abc"[1] != "a_c"[1];
  }

  /** The case-sensitive call carries no null guard: on a null member it
      throws where the guarded in-memory match rejects, and on a string
      member the two agree. */
  lemma CaseSensitiveIsUnguarded(m: string, filter: string, kind: MatchKind, x: Record)
    requires m in x
    ensures var r := NpgsqlFor(m, filter, kind, false);
      var guarded := PolicyExtensions.AddStringPropertyExpression(m, filter, kind, false);
      r.MethodCall? &&
      (x[m].Null? ==> Eval(r.pred, x) == Throws && Refutes(guarded, x)) &&
      (x[m].Str? ==> Eval(r.pred, x) == Eval(guarded, x))
  {
  }
}
