/** The oldest grammar (`Ruler.FilterPolicyExtensions`): only `*`
    wildcards, case-sensitive, with no `~` and no `!`; and a policy that is
    a list of (property, value) pairs with no target-type filtering. */
module Ruler {
  import opened Results
  import opened Text
  import opened Predicates
  import opened Combinators
  import opened PolicyExtensions

  /** A policy: (property, value) pairs joined by an operator, And by default.
      `properties` and `scope` are reference-typed and may be null. */
  datatype FilterPolicy = FilterPolicy(name: string, properties: Option<seq<string>>,
    scope: Option<seq<(string, string)>>, ruleOperator: RuleOperator)

  /** A policy as the object initializer leaves it: properties and scope
      null and the operator And, so filtering with it throws at the loop. */
  function NewFilterPolicy(name: string): (p: FilterPolicy)
    ensures p.name == name && p.ruleOperator == And && p.properties.None? && p.scope.None?
    ensures forall t :: PolicyFilter(t, p) == Fail(NullEnumeration)
  {
    FilterPolicy(name, None, None, And)
  }

  /** `x.m != null && x.m.<kind>(filter)`, case-sensitive. */
  function AddFilterToStringProperty(m: string, filter: string, kind: MatchKind): (r: Pred)
    ensures forall x: Record :: m in x ==> (Holds(r, x) <==> x[m].Str? && TextTest(kind, x[m].s, filter, false))
    ensures forall x: Record :: m in x && (x[m].Null? || x[m].Str?) ==> Total(r, x)
  {
    AddStringPropertyExpression(m, filter, kind, false)
  }

  /** `GetFilterForType`: `x.m == value` is built first, which .NET refuses
      for an integral or collection member compared with a string; a string
      member with wildcards gets a guarded string method instead. */
  function GetFilterForType(t: TypeDesc, m: string, value: string): (r: Result<Pred>)
    ensures m !in t.members ==> r == Fail(MemberNotFound(m))
    ensures m in t.members ==> (r.Fail? <==> t.members[m].IntKind? || t.members[m] == CollectionKind)
  {
    if m !in t.members then Fail(MemberNotFound(m))
    else
      match t.members[m]
      case IntKind(_, _) => Fail(OperatorUndefined)
      case CollectionKind => Fail(OperatorUndefined)
      case OtherKind => Ok(EqualsText(m, value))
      case StringKind =>
        if HasPrefix(value, "*") && HasSuffix(value, "*") then Ok(AddFilterToStringProperty(m, Trim(value, '*'), Contains))
        else if HasPrefix(value, "*") then Ok(AddFilterToStringProperty(m, TrimStart(value, '*'), EndsWith))
        else if HasSuffix(value, "*") then Ok(AddFilterToStringProperty(m, TrimEnd(value, '*'), StartsWith))
        else Ok(EqualsText(m, value))
  }

  /** A string value with wildcards, and no `!` or `~` in front, is read as
      the newest grammar reads it. */
  lemma WildcardsAgree(t: TypeDesc, m: string, value: string)
    requires m in t.members && t.members[m] == StringKind
    requires !HasPrefix(value, "!") && !HasPrefix(value, "~")
    requires HasPrefix(value, "*") || HasSuffix(value, "*")
    ensures GetFilterForType(t, m, value) == PredicateFor(t, m, value)
  {
  }

  /** Without wildcards the match is an unguarded `==`; on a null or string
      member it decides exactly as the newest grammar's guarded Equals. */
  lemma UnguardedEqualsAgrees(t: TypeDesc, m: string, value: string, x: Record)
    requires m in t.members && t.members[m] == StringKind
    requires !HasPrefix(value, "!") && !HasPrefix(value, "~")
    requires !HasPrefix(value, "*") && !HasSuffix(value, "*")
    requires m in x && (x[m].Null? || x[m].Str?)
    ensures GetFilterForType(t, m, value) == Ok(EqualsText(m, value))
    ensures Eval(GetFilterForType(t, m, value).value, x) == Eval(PredicateFor(t, m, value).value, x)
  {
  }

  /** `~` and `!` have no meaning here: a value starting with either and not
      ending with `*` is matched as it is, case-sensitively. */
  lemma SigilsAreLiteral(t: TypeDesc, m: string, value: string, x: Record)
    requires m in t.members && t.members[m] == StringKind
    requires HasPrefix(value, "!") || HasPrefix(value, "~")
    requires !HasSuffix(value, "*")
    requires m in x
    ensures GetFilterForType(t, m, value).Ok?
    ensures Holds(GetFilterForType(t, m, value).value, x) <==> x[m] == Str(value)
  {
    assert value[0] != '*';
    assert !HasPrefix(value, "*");
  }

  /** One predicate per pair of the first n pairs of the scope, in order,
      or the first failure. */
  function ScopePredicates(t: TypeDesc, scope: seq<(string, string)>): (r: Result<seq<Pred>>)
    ensures r.Ok? ==> |r.value| == |scope|
    ensures r.Ok? ==> forall i {:trigger scope[i]} :: 0 <= i < |scope| ==> GetFilterForType(t, scope[i].0, scope[i].1) == Ok(r.value[i])
  {
    if scope == [] then Ok([])
    else
      var last := scope[|scope| - 1];
      match ScopePredicates(t, scope[..|scope| - 1])
      case Fail(e) => Fail(e)
      case Ok(ps) =>
        match GetFilterForType(t, last.0, last.1)
        case Fail(e) => Fail(e)
        case Ok(p) => Ok(ps + [p])
  }

  /** What `GetFilterExpression` yields for a policy. */
  function PolicyFilter(t: TypeDesc, policy: FilterPolicy): Result<Option<Pred>> {
    match policy.scope
    case None => Fail(NullEnumeration)
    case Some(scope) =>
      match ScopePredicates(t, scope)
      case Fail(e) => Fail(e)
      case Ok(ps) => Ok(Combined(ps, policy.ruleOperator))
  }

  lemma {:induction false} ScopeFailurePersists(t: TypeDesc, scope: seq<(string, string)>, n: nat)
    requires n <= |scope| && ScopePredicates(t, scope[..n]).Fail?
    ensures ScopePredicates(t, scope) == ScopePredicates(t, scope[..n])
    decreases |scope| - n
  {
    if n < |scope| {
      assert scope[..n + 1][..n] == scope[..n];
      ScopeFailurePersists(t, scope, n + 1);
    } else {
      assert scope[..n] == scope;
    }
  }

  method GetFilterExpression(t: TypeDesc, policy: FilterPolicy) returns (r: Result<Option<Pred>>)
    ensures r == PolicyFilter(t, policy)
  {
    if policy.scope.None? {
      return Fail(NullEnumeration);
    }
    var scope := policy.scope.value;
    var predicates: seq<Pred> := [];
    for i := 0 to |scope|
      invariant ScopePredicates(t, scope[..i]) == Ok(predicates)
    {
      assert scope[..i + 1][..i] == scope[..i];
      var constraints := scope[i];
      var p := GetFilterForType(t, constraints.0, constraints.1);
      if p.Fail? {
        ScopeFailurePersists(t, scope, i + 1);
        return Fail(p.error);
      }
      predicates := predicates + [p.value];
    }
    assert scope[..|scope|] == scope;
    var combined := CombinePredicates(predicates, policy.ruleOperator);
    return Ok(combined);
  }

  /** A policy that compiles has a scope; its filter is null exactly for an
      empty scope; under And it accepts exactly what every pair's predicate
      accepts, and under Or, on records where none throws, what some pair's
      predicate accepts. */
  lemma PolicyFilterMeaning(t: TypeDesc, policy: FilterPolicy, x: Record)
    requires PolicyFilter(t, policy).Ok?
    ensures policy.scope.Some? && ScopePredicates(t, policy.scope.value).Ok?
    ensures var r := PolicyFilter(t, policy).value;
      var ps := ScopePredicates(t, policy.scope.value).value;
      (r.None? <==> policy.scope.value == []) &&
      (r.Some? && policy.ruleOperator == And ==>
        (Holds(r.value, x) <==> forall i :: 0 <= i < |ps| ==> Holds(ps[i], x))) &&
      (r.Some? && policy.ruleOperator == Or && (forall i :: 0 <= i < |ps| ==> Total(ps[i], x)) ==>
        (Holds(r.value, x) <==> exists i :: 0 <= i < |ps| && Holds(ps[i], x)))
  {
    var scope := policy.scope.value;
    var ps := ScopePredicates(t, scope).value;
    assert |ps| == |scope|;
    assert PolicyFilter(t, policy).value == Combined(ps, policy.ruleOperator);
    CombinedMeaning(ps, policy.ruleOperator, x);
  }
}
