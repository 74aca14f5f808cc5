/** `GetPredicateExpression(ExpressionRuleCollection)`: compile a policy for
    a type, keeping only the children whose target type names it, and fall
    back to the always-false predicate when nothing applies. */
module PolicyCompiler {
  import opened Results
  import opened Predicates
  import opened Combinators
  import opened RuleCache
  import opened ExpressionRules
  import PredicateBuilder

  /** A child's TargetType: a rule's own field, or a nested collection's. */
  function NodeTarget(n: RuleNode, env: Env): Option<string>
    requires n.Leaf? ==> n.rule in env
  {
    match n
    case Leaf(r) => env[r].targetType
    case Group(g) => g.targetType
  }

  /** The expressions of the applicable children among the first n, in
      order, or the first failure; null expressions are dropped. */
  function Applicable(c: ExpressionRuleCollection, n: nat, env: Env, t: TypeDesc): Result<seq<Pred>>
    requires n <= |c.rules| && LeavesUpTo(c, n) <= env.Keys
    decreases n
  {
    if n == 0 then Ok([])
    else
      LeavesOfChild(c, n - 1, n);
      match Applicable(c, n - 1, env, t)
      case Fail(e) => Fail(e)
      case Ok(ps) =>
        if !SameTypeName(t.name, NodeTarget(c.rules[n - 1], env)) then Ok(ps)
        else
          match ChildOutcome(c, n - 1, env)
          case Fail(e) => Fail(e)
          case Ok(o) => Ok(if o.Some? then ps + [o.value] else ps)
  }

  /** What the policy compiler yields, given each rule's view. */
  function PolicyOutcome(policy: ExpressionRuleCollection, env: Env, t: TypeDesc): Result<Pred>
    requires Leaves(policy) <= env.Keys
  {
    match Applicable(policy, |policy.rules|, env, t)
    case Fail(e) => Fail(e)
    case Ok(ps) => Ok(if ps == [] then PredicateBuilder.False() else Combined(ps, policy.ruleOperator).value)
  }

  lemma {:induction false} ApplicableFailurePersists(c: ExpressionRuleCollection, i: nat, n: nat, env: Env, t: TypeDesc)
    requires i <= n <= |c.rules| && LeavesUpTo(c, n) <= env.Keys
    requires LeavesUpTo(c, i) <= env.Keys
    requires Applicable(c, i, env, t).Fail?
    ensures Applicable(c, n, env, t) == Applicable(c, i, env, t)
    decreases n
  {
    if i < n {
      LeavesOfChild(c, n - 1, n);
      ApplicableFailurePersists(c, i, n - 1, env, t);
    }
  }

  method GetPredicateExpression(policy: ExpressionRuleCollection, t: TypeDesc, ghost env: Env) returns (r: Result<Pred>)
    requires Mirrors(Leaves(policy), env, t, None)
    modifies Leaves(policy)
    ensures Mirrors(Leaves(policy), env, t, None)
    ensures r == PolicyOutcome(policy, env, t)
  {
    var predicates: seq<Pred> := [];
    for i := 0 to |policy.rules|
      invariant Mirrors(Leaves(policy), env, t, None)
      invariant LeavesUpTo(policy, i) <= env.Keys
      invariant Applicable(policy, i, env, t) == Ok(predicates)
    {
      LeavesOfChild(policy, i, |policy.rules|);
      LeavesOfChild(policy, i, i + 1);
      var target := match policy.rules[i]
        case Leaf(rule) => rule.targetType
        case Group(g) => g.targetType;
      if target.None? || !SameTypeName(t.name, target) {
        continue;
      }
      var expression := AskChild(policy, i, t, None, env);
      if expression.Fail? {
        ApplicableFailurePersists(policy, i + 1, |policy.rules|, env, t);
        return Fail(expression.error);
      }
      if expression.value.Some? {
        predicates := predicates + [expression.value.value];
      }
    }
    var expressions := CombinePredicates(predicates, policy.ruleOperator);
    if expressions.None? {
      return Ok(PredicateBuilder.False());
    }
    return Ok(expressions.value);
  }

  /** The compiled policy rejects everything when nothing applies, and
      otherwise is the conjunction (under And) or, on records where no
      expression throws, the disjunction (under Or) of the applicable
      children's expressions. */
  lemma PolicyMeaning(policy: ExpressionRuleCollection, env: Env, t: TypeDesc, x: Record)
    requires Leaves(policy) <= env.Keys
    requires PolicyOutcome(policy, env, t).Ok?
    ensures var ps := Applicable(policy, |policy.rules|, env, t).value;
      var p := PolicyOutcome(policy, env, t).value;
      (ps == [] ==> Refutes(p, x)) &&
      (ps != [] && policy.ruleOperator == And ==>
        (Holds(p, x) <==> forall i :: 0 <= i < |ps| ==> Holds(ps[i], x))) &&
      (ps != [] && policy.ruleOperator == Or && (forall i :: 0 <= i < |ps| ==> Total(ps[i], x)) ==>
        (Holds(p, x) <==> exists i :: 0 <= i < |ps| && Holds(ps[i], x)))
  {
    var ps := Applicable(policy, |policy.rules|, env, t).value;
    if ps != [] && policy.ruleOperator == Or && (forall i :: 0 <= i < |ps| ==> Total(ps[i], x)) {
      OrAllWhenTotal(ps, x);
    }
  }

  /** `Applicable` reads only the first n children. */
  lemma {:induction false} ApplicablePrefix(c: ExpressionRuleCollection, d: ExpressionRuleCollection, n: nat, env: Env, t: TypeDesc)
    requires n <= |c.rules| && n <= |d.rules| && c.rules[..n] == d.rules[..n]
    requires LeavesUpTo(c, n) <= env.Keys
    ensures LeavesUpTo(d, n) == LeavesUpTo(c, n)
    ensures Applicable(d, n, env, t) == Applicable(c, n, env, t)
    decreases n
  {
    if n > 0 {
      assert c.rules[..n - 1] == c.rules[..n][..n - 1];
      assert d.rules[..n - 1] == d.rules[..n][..n - 1];
      assert c.rules[n - 1] == c.rules[..n][n - 1];
      assert d.rules[n - 1] == d.rules[..n][n - 1];
      ApplicablePrefix(c, d, n - 1, env, t);
    }
  }

  /** A child whose TargetType is null or names another type contributes
      nothing: appending it leaves the compiled policy unchanged. */
  lemma MismatchContributesNothing(policy: ExpressionRuleCollection, n: RuleNode, env: Env, t: TypeDesc)
    requires Leaves(policy) <= env.Keys
    requires n.Leaf? ==> n.rule in env
    requires n.Group? ==> Leaves(n.collection) <= env.Keys
    requires !SameTypeName(t.name, NodeTarget(n, env))
    ensures Leaves(policy.(rules := policy.rules + [n])) <= env.Keys
    ensures PolicyOutcome(policy.(rules := policy.rules + [n]), env, t) == PolicyOutcome(policy, env, t)
  {
    var bigger := policy.(rules := policy.rules + [n]);
    var k := |policy.rules|;
    assert bigger.rules[..k] == policy.rules[..k];
    ApplicablePrefix(policy, bigger, k, env, t);
    assert bigger.rules[k] == n;
  }

  /** Where the two compilers part: with one rule for t and one rule for
      no type, the collection getter passes the second rule's null on to
      the combinator, which raises, while the policy compiler skips it. */
  lemma NullChildSkippedOnlyByPolicy(c: ExpressionRuleCollection, a: ExpressionRule, b: ExpressionRule, p: Pred,
                                     env: Env, t: TypeDesc)
    requires c.rules == [Leaf(a), Leaf(b)]
    requires a in env && env[a] == RuleView(Some(t.name), Ok(Some(p)))
    requires b in env && env[b] == RuleView(None, Ok(None))
    ensures Leaves(c) <= env.Keys
    ensures CollectionOutcome(c, env) == Fail(NullPredicate)
    ensures PolicyOutcome(c, env, t) == Ok(p)
  {
    assert LeavesUpTo(c, 1) == {a};
    assert Leaves(c) == {a, b};
    assert c.rules[0] == Leaf(a) && c.rules[1] == Leaf(b);
    assert ChildOutcome(c, 0, env) == Ok(Some(p));
    assert ChildOutcome(c, 1, env) == Ok(None);
    assert ChildOutcomes(c, 0, env) == Ok([]);
    assert [] + [Some(p)] == [Some(p)];
    assert [] + [p] == [p];
    assert ChildOutcomes(c, 1, env) == Ok([] + [Some(p)]);
    assert ChildOutcomes(c, 2, env) == Ok([Some(p)] + [None]);
    assert SameTypeName(t.name, Some(t.name));
    assert !SameTypeName(t.name, None);
    assert Applicable(c, 0, env, t) == Ok([]);
    assert Applicable(c, 1, env, t) == Ok([] + [p]);
    assert Applicable(c, 2, env, t) == Ok([p]);
  }
}
