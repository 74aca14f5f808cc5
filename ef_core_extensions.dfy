/** `McRule.EF.CoreExtensions.AddStringPropertyExpression`: the string
    match of the Entity Framework backend, `x.m != null && x.m.<call>(arg)`,
    where StartsWith and EndsWith are sent to `String.Contains` with a `%`
    spliced into the argument. */
module EfCoreExtensions {
  import opened Text
  import opened Predicates
  import PolicyExtensions

  /** The characters trimmed from the filter: space and `*`. */
  const Edge: set<char> := {' ', '*'}

  /** The string method called and its argument, as written. */
  function EfCallAsWritten(filter: string, kind: MatchKind): (MatchKind, string) {
    match kind
    case Contains => (Contains, TrimAny(filter, Edge))
    case StartsWith => (Contains, "%" + TrimAny(filter, Edge))
    case EndsWith => (Contains, TrimAny(filter, Edge) + "%")
    case Equals => (Equals, filter)
  }

  /** The predicate as written: always `x.m != null && <call>`. */
  function EfPredicateAsWritten(m: string, filter: string, kind: MatchKind): (r: Pred)
    ensures r.AndAlso? && r.left == NotNull(m)
    ensures forall x: Record :: m in x ==>
      (Holds(r, x) <==> x[m].Str? && TextTest(EfCallAsWritten(filter, kind).0, x[m].s, EfCallAsWritten(filter, kind).1, false))
    ensures forall x: Record :: m in x && x[m].Null? ==> Refutes(r, x)
  {
    var (called, argument) := EfCallAsWritten(filter, kind);
    PolicyExtensions.AddStringPropertyExpression(m, argument, called, false)
  }

  /** The five-argument overload; `ignoreCase` and `supportEF` are not read. */
  method AddStringPropertyExpressionWithEF(m: string, filter: string, kind: MatchKind, ignoreCase: bool, supportEF: bool)
    returns (r: Pred)
    ensures r == EfPredicateAsWritten(m, filter, kind)
  {
    var methodInfo := Contains;
    var filterString := filter;
    match kind {
      case Contains => filterString := TrimAny(filter, Edge);
      case StartsWith => filterString := "%" + TrimAny(filter, Edge);
      case EndsWith => filterString := TrimAny(filter, Edge) + "%";
      case Equals => methodInfo := kind;
    }
    r := AndAlso(NotNull(m), StrMatch(methodInfo, m, filterString, false));
  }

  /** The four-argument overload: the five-argument one with `supportEF`
      false. */
  method AddStringPropertyExpression(m: string, filter: string, kind: MatchKind, ignoreCase: bool) returns (r: Pred)
    ensures r == EfPredicateAsWritten(m, filter, kind)
  {
    r := AddStringPropertyExpressionWithEF(m, filter, kind, ignoreCase, false);
  }

  /** The call StartsWith `ab` turns into. */
  lemma StartsWithCall()
    ensures EfCallAsWritten("ab", StartsWith) == (Contains, "%ab")
  {
    assert "ab"[0] !in Edge && "ab"[1] !in Edge;
    assert TrimStartAny("ab", Edge) == "ab";
    assert TrimEndAny("ab", Edge) == "ab";
    assert TrimAny("ab", Edge) == "ab";
    assert "%" + "ab" == "%ab";
  }

  lemma PercentNotInAbc()
    ensures !HasInfix("abc", "%ab")
  {
    forall i | 0 <= i <= 0
      ensures !OccursAt("abc", "%ab", i)
    {
      assert "abc"[0] != '%';
    }
  }

  /** As written, StartsWith `ab` rejects `abc`: the call is
      `"abc".Contains("%ab")`. */
  lemma StartsWithAsWritten(x: Record)
    requires "name" in x && x["name"] == Str("abc")
    ensures TextTest(StartsWith, "abc", "ab", false)
    ensures Refutes(EfPredicateAsWritten("name", "ab", StartsWith), x)
  {
    StartsWithCall();
    PercentNotInAbc();
    assert "abc"[..2] == "ab";
  }

  /** The call as evidently intended: the method the kind names, on the
      trimmed filter (Equals on the filter as given). */
  function EfPredicate(m: string, filter: string, kind: MatchKind): (r: Pred)
    ensures r.AndAlso? && r.left == NotNull(m)
    ensures forall x: Record :: m in x ==>
      (Holds(r, x) <==> x[m].Str? && TextTest(kind, x[m].s, if kind == Equals then filter else TrimAny(filter, Edge), false))
    ensures forall x: Record :: m in x && x[m].Null? ==> Refutes(r, x)
  {
    PolicyExtensions.AddStringPropertyExpression(m, if kind == Equals then filter else TrimAny(filter, Edge), kind, false)
  }

  /** A filter with no space or `*` at its ends is trimmed to itself, so the
      intended call is the in-memory grammar's case-sensitive match. */
  lemma EfPredicateAgrees(m: string, filter: string, kind: MatchKind)
    requires filter == [] || (filter[0] !in Edge && filter[|filter| - 1] !in Edge)
    ensures EfPredicate(m, filter, kind) == PolicyExtensions.AddStringPropertyExpression(m, filter, kind, false)
  {
    assert TrimStartAny(filter, Edge) == filter;
    assert TrimEndAny(filter, Edge) == filter;
  }
}
