/** The middle grammar (`McRule.FilterPolicyExtensions`): a leaf compiler
    without `!` negation, the two-argument `CombinePredicates`, and the
    policy compiler over `FilterRuleCollection` with its nested `Rule`.

    `AddFilterToStringProperty`, `AddNullCheck`, `GetComparer`,
    `GetArrayContainsExpression`, `CombineAnd`, `CombineOr` and the list
    `CombinePredicates` of this grammar are the same as in the newest one
    and are modelled once, in `PolicyExtensions` and `Combinators`. */
module FilterPolicies {
  import opened Results
  import opened Text
  import opened Predicates
  import opened Combinators
  import opened RuleCache
  import opened FilterRules
  import opened PolicyExtensions
  import PredicateBuilder
  import PolicyLaws

  // ----- the leaf compiler -----

  /** The string sigils of this grammar: `~` then the wildcards; a `!` is
      part of the literal. */
  function LegacyStringPattern(value: string): (pat: StringPattern)
    ensures !pat.negate
  {
    var ignoreCase := HasPrefix(value, "~");
    var body := if ignoreCase then TrimStart(value, '~') else value;
    var (kind, literal) := WildcardKind(body);
    StringPattern(false, ignoreCase, kind, literal)
  }

  /** `GetFilterExpressionForType`: the newest grammar except on string
      members, where `!` is not recognised. */
  function LegacyPredicateFor(t: TypeDesc, m: string, value: string): Result<Pred> {
    if m in t.members && t.members[m] == StringKind then Ok(StringRule(m, LegacyStringPattern(value)))
    else PredicateFor(t, m, value)
  }

  method GetFilterExpressionForType(t: TypeDesc, property: string, value: string) returns (r: Result<Pred>)
    ensures r == LegacyPredicateFor(t, property, value)
  {
    if property !in t.members {
      return Fail(MemberNotFound(property));
    }
    var kind := t.members[property];
    var isNullable := kind.IntKind? && kind.nullable;
    var comparison: Option<Pred> := None;

    if kind == StringKind {
      var v := value;
      var ignoreCase := false;
      if HasPrefix(v, "~") {
        ignoreCase := true;
        v := TrimStart(v, '~');
      }
      if HasPrefix(v, "*") && HasSuffix(v, "*") {
        return Ok(AddStringPropertyExpression(property, Trim(v, '*'), Contains, ignoreCase));
      } else if HasPrefix(v, "*") {
        return Ok(AddStringPropertyExpression(property, TrimStart(v, '*'), EndsWith, ignoreCase));
      } else if HasSuffix(v, "*") {
        return Ok(AddStringPropertyExpression(property, TrimEnd(v, '*'), StartsWith, ignoreCase));
      } else {
        return Ok(AddStringPropertyExpression(property, v, Equals, ignoreCase));
      }
    } else if kind.IntKind? {
      var built := CompileComparison(kind.width, property, value);
      if built.Fail? {
        return Fail(built.error);
      }
      comparison := built.value;
    } else if kind == CollectionKind {
      return Ok(GetArrayContainsExpression(property, value));
    } else {
      comparison := Some(EqualsText(property, value));
    }

    return Ok(FinishComparison(isNullable, property, comparison));
  }

  /** Without a leading `!` both grammars read a string pattern alike. */
  lemma LegacyAgreesWithoutBang(t: TypeDesc, m: string, value: string)
    requires !HasPrefix(value, "!")
    ensures LegacyStringPattern(value) == ParseStringPattern(value)
    ensures LegacyPredicateFor(t, m, value) == PredicateFor(t, m, value)
  {
  }

  /** In this grammar a value starting with `!` and not ending with `*` is
      an exact, case-sensitive match of the whole text, `!` included, while
      the newest grammar negates the match of the rest. */
  lemma BangIsLiteral(m: string, value: string, x: Record)
    requires HasPrefix(value, "!") && !HasSuffix(value, "*")
    requires m in x
    ensures LegacyStringPattern(value) == StringPattern(false, false, Equals, value)
    ensures Holds(StringRule(m, LegacyStringPattern(value)), x) <==> x[m] == Str(value)
    ensures ParseStringPattern(value).negate
  {
    assert value[0] == '!';
  }

  /** How the newest grammar reads `"!Sean"`: a negated, case-sensitive
      exact match of `Sean`. */
  lemma BangSeanPattern()
    ensures ParseStringPattern("!Sean") == StringPattern(true, false, Equals, "Sean")
  {
    PolicyLaws.BangPattern("!Sean");
    assert TrimStart("!Sean", '!') == "Sean" by {
      assert "!Sean"[1..] == "Sean";
      assert "Sean"[0] !in {'!'};
    }
    PolicyLaws.PlainPattern("Sean");
  }

  /** The rule `"!Sean"` of the tests, in the older grammar: it accepts
      only the name `!Sean`. */
  lemma BangSeanLegacy(t: TypeDesc, x: Record)
    requires "name" in t.members && t.members["name"] == StringKind
    requires "name" in x
    ensures LegacyPredicateFor(t, "name", "!Sean").Ok?
    ensures Holds(LegacyPredicateFor(t, "name", "!Sean").value, x) <==> x["name"] == Str("!Sean")
  {
    BangIsLiteral("name", "!Sean", x);
  }

  /** The same rule in the newest grammar: it accepts every name but
      `Sean`, a null name included. */
  lemma BangSean(t: TypeDesc, x: Record)
    requires "name" in t.members && t.members["name"] == StringKind
    requires "name" in x && (x["name"].Null? || x["name"].Str?)
    ensures PredicateFor(t, "name", "!Sean").Ok?
    ensures Holds(PredicateFor(t, "name", "!Sean").value, x) <==> x["name"] != Str("Sean")
  {
    var pat := StringPattern(true, false, Equals, "Sean");
    BangSeanPattern();
    assert PredicateFor(t, "name", "!Sean") == Ok(StringRule("name", pat));
    PolicyLaws.StringRuleEval("name", pat, x);
  }

  // ----- combining -----

  /** The arguments that are not null, in order. */
  function Present(first: Option<Pred>, second: Option<Pred>): (ps: seq<Pred>)
    ensures |ps| == (if first.Some? then 1 else 0) + (if second.Some? then 1 else 0)
  {
    (if first.Some? then [first.value] else []) + (if second.Some? then [second.value] else [])
  }

  /** The two-argument `CombinePredicates`: drop null arguments, then
      combine what is left (null when both are null). */
  function CombinePair(first: Option<Pred>, second: Option<Pred>, op: RuleOperator): (r: Option<Pred>)
    ensures r.None? <==> first.None? && second.None?
    ensures first.None? ==> r == second
    ensures second.None? ==> r == first
    ensures first.Some? && second.Some? && op == And ==> forall x ::
      (Holds(r.value, x) <==> Holds(first.value, x) && Holds(second.value, x)) &&
      (Refutes(first.value, x) ==> Refutes(r.value, x))
    ensures first.Some? && second.Some? && op == Or ==> forall x ::
      (Holds(r.value, x) <==> Holds(first.value, x) || (Refutes(first.value, x) && Holds(second.value, x))) &&
      (Holds(first.value, x) ==> Holds(r.value, x))
  {
    var ps := Present(first, second);
    assert first.Some? && second.Some? ==> ps == [first.value, second.value] && ps[..1] == [first.value];
    Combined(ps, op)
  }

  /** The last step of `GetFilterExpression`: always-false when neither the
      nested collection nor the rules give an expression, the one that
      exists when only one does, and both combined otherwise. */
  function FinishPolicy(first: Option<Pred>, second: Option<Pred>, op: RuleOperator): (r: Pred)
    ensures first.None? && second.None? ==> forall x :: Refutes(r, x)
    ensures first.Some? != second.Some? ==> Some(r) == CombinePair(first, second, op)
    ensures first.Some? && second.Some? ==> Some(r) == CombinePair(first, second, op)
  {
    if first.None? && second.None? then PredicateBuilder.False()
    else if first.Some? && second.None? then first.value
    else if first.None? && second.Some? then second.value
    else CombinePair(first, second, op).value
  }

  // ----- the policy compiler -----

  /** The expressions of the rules whose TargetType names t, in order, or
      the first failure; null expressions are dropped. */
  function RuleExpressions(rules: seq<FilterRule>, env: FilterEnv, t: TypeDesc): Result<seq<Pred>>
    requires forall q :: q in rules ==> q in env
  {
    if rules == [] then Ok([])
    else
      var last := rules[|rules| - 1];
      match RuleExpressions(rules[..|rules| - 1], env, t)
      case Fail(e) => Fail(e)
      case Ok(ps) =>
        if !SameTypeName(t.name, env[last].targetType) then Ok(ps)
        else
          match env[last].outcome
          case Fail(e) => Fail(e)
          case Ok(o) => Ok(if o.Some? then ps + [o.value] else ps)
  }

  /** What `GetFilterExpression` yields, given each rule's view: the rules
      first, then the nested collection. */
  function FilterOutcome(policy: FilterRuleCollection, env: FilterEnv, t: TypeDesc): Result<Pred>
    requires AllRules(policy) <= env.Keys
    decreases policy
  {
    match RuleExpressions(policy.rules, env, t)
    case Fail(e) => Fail(e)
    case Ok(ps) =>
      var second := Combined(ps, policy.ruleOperator);
      if policy.rule.None? then Ok(FinishPolicy(None, second, policy.ruleOperator))
      else
        match FilterOutcome(policy.rule.value, env, t)
        case Fail(e) => Fail(e)
        case Ok(f) => Ok(FinishPolicy(Some(f), second, policy.ruleOperator))
  }

  lemma {:induction false} RuleFailurePersists(rules: seq<FilterRule>, n: nat, env: FilterEnv, t: TypeDesc)
    requires n <= |rules| && forall q :: q in rules ==> q in env
    requires RuleExpressions(rules[..n], env, t).Fail?
    ensures RuleExpressions(rules, env, t) == RuleExpressions(rules[..n], env, t)
    decreases |rules| - n
  {
    if n < |rules| {
      assert rules[..n + 1][..n] == rules[..n];
      RuleFailurePersists(rules, n + 1, env, t);
    } else {
      assert rules[..n] == rules;
    }
  }

  /** The loop of `GetFilterExpression`: ask every rule whose TargetType
      names t, in order, and keep the expressions that are not null. */
  method CollectRuleExpressions(rules: seq<FilterRule>, t: TypeDesc, ghost all: set<FilterRule>, ghost env: FilterEnv)
    returns (r: Result<seq<Pred>>)
    requires (set q | q in rules) <= all && FilterMirrors(all, env, t)
    modifies all
    ensures FilterMirrors(all, env, t)
    ensures forall q :: q in rules ==> q in env
    ensures r == RuleExpressions(rules, env, t)
  {
    var predicates: seq<Pred> := [];
    for i := 0 to |rules|
      invariant FilterMirrors(all, env, t)
      invariant RuleExpressions(rules[..i], env, t) == Ok(predicates)
    {
      var rule := rules[i];
      assert rules[..i + 1][..i] == rules[..i];
      if rule.targetType.None? || !SameTypeName(t.name, rule.targetType) {
        continue;
      }
      var expression := rule.GetFilterExpression(t);
      if expression.Fail? {
        RuleFailurePersists(rules, i + 1, env, t);
        return Fail(expression.error);
      }
      if expression.value.Some? {
        predicates := predicates + [expression.value.value];
      }
    }
    assert rules[..|rules|] == rules;
    return Ok(predicates);
  }

  method GetFilterExpression(policy: FilterRuleCollection, t: TypeDesc, ghost env: FilterEnv) returns (r: Result<Pred>)
    requires FilterMirrors(AllRules(policy), env, t)
    modifies AllRules(policy)
    ensures FilterMirrors(AllRules(policy), env, t)
    ensures r == FilterOutcome(policy, env, t)
    decreases policy
  {
    var collected := CollectRuleExpressions(policy.rules, t, AllRules(policy), env);
    if collected.Fail? {
      return Fail(collected.error);
    }
    var predicates := collected.value;

    var first: Option<Pred> := None;
    if policy.rule.Some? {
      var nested := GetFilterExpression(policy.rule.value, t, env);
      if nested.Fail? {
        return Fail(nested.error);
      }
      first := Some(nested.value);
    }
    var second := CombinePredicates(predicates, policy.ruleOperator);

    if first.None? && second.None? {
      return Ok(PredicateBuilder.False());
    } else if first.Some? && second.None? {
      return Ok(first.value);
    } else if first.None? && second.Some? {
      return Ok(second.value);
    } else {
      return Ok(CombinePair(first, second, policy.ruleOperator).value);
    }
  }

  /** A rule whose TargetType is null or names another type contributes
      nothing. */
  lemma MismatchedRuleIgnored(rules: seq<FilterRule>, q: FilterRule, env: FilterEnv, t: TypeDesc)
    requires forall p :: p in rules ==> p in env
    requires q in env && !SameTypeName(t.name, env[q].targetType)
    ensures RuleExpressions(rules + [q], env, t) == RuleExpressions(rules, env, t)
  {
    assert (rules + [q])[..|rules|] == rules;
  }

  /** A collection none of whose rules applies, and with no nested
      collection, compiles to always-false. */
  lemma NothingApplicableIsFalse(c: FilterRuleCollection, env: FilterEnv, t: TypeDesc)
    requires AllRules(c) <= env.Keys
    requires c.rule.None? && RuleExpressions(c.rules, env, t) == Ok([])
    ensures FilterOutcome(c, env, t).Ok?
    ensures forall x :: Refutes(FilterOutcome(c, env, t).value, x)
  {
  }

  /** Under And, whatever the nested collection rejects the policy rejects:
      a nested collection with nothing applicable is always-false, not
      "nothing", so the whole policy then rejects everything. */
  lemma NestedRejectsUnderAnd(policy: FilterRuleCollection, env: FilterEnv, t: TypeDesc, x: Record)
    requires AllRules(policy) <= env.Keys
    requires policy.ruleOperator == And && policy.rule.Some?
    requires FilterOutcome(policy.rule.value, env, t).Ok?
    requires Refutes(FilterOutcome(policy.rule.value, env, t).value, x)
    requires FilterOutcome(policy, env, t).Ok?
    ensures Refutes(FilterOutcome(policy, env, t).value, x)
  {
  }

  /** The compiled policy under And accepts exactly what the nested
      collection (if any) and every applicable rule accept. */
  lemma FilterPolicyMeaningAnd(policy: FilterRuleCollection, env: FilterEnv, t: TypeDesc, x: Record)
    requires AllRules(policy) <= env.Keys && policy.ruleOperator == And
    requires FilterOutcome(policy, env, t).Ok?
    ensures var ps := RuleExpressions(policy.rules, env, t).value;
      var p := FilterOutcome(policy, env, t).value;
      Holds(p, x) <==>
        (ps != [] || policy.rule.Some?) &&
        (policy.rule.Some? ==> Holds(FilterOutcome(policy.rule.value, env, t).value, x)) &&
        (forall i :: 0 <= i < |ps| ==> Holds(ps[i], x))
  {
  }
}
