/** `ExpressionRule` (a rule object with a cached compiled predicate) and
    `ExpressionRuleCollection` (rules and nested collections joined by an
    operator). */
module ExpressionRules {
  import opened Results
  import opened Predicates
  import opened Combinators
  import opened RuleCache

  /** The options of the second getter; only `NoCache` is read. */
  datatype ExpressionOptions = ExpressionOptions(noCache: bool)

  class ExpressionRule {
    var targetType: Option<string>
    var property: Option<string>
    var value: Option<string>
    var cached: Option<Compiled>

    function Fields(): RuleFields
      reads this
    {
      RuleFields(targetType, property, value)
    }

    /** What a collection sees of this rule for type t, through the plain
        getter (no options) or the getter taking options. */
    function View(t: TypeDesc, options: Option<ExpressionOptions>): RuleView
      reads this
    {
      RuleView(targetType, if options.None? then Outcome(Fields(), cached, t) else Fresh(Fields(), t))
    }

    constructor Empty()
      ensures Fields() == RuleFields(None, None, None) && cached.None?
    {
      targetType, property, value, cached := None, None, None, None;
    }

    constructor (targetType: Option<string>, property: Option<string>, value: Option<string>)
      ensures Fields() == RuleFields(targetType, property, value) && cached.None?
    {
      this.targetType := targetType;
      this.property := property;
      this.value := value;
      cached := None;
    }

    /** The tuple constructor: (TargetType, Property, Value) in that order. */
    constructor FromTuple(input: (Option<string>, Option<string>, Option<string>))
      ensures Fields() == RuleFields(input.0, input.1, input.2) && cached.None?
    {
      targetType := input.0;
      property := input.1;
      value := input.2;
      cached := None;
    }

    /** The cached getter: null for another type name; otherwise the cached
        expression, compiling and caching it on first use. */
    method GetExpression(t: TypeDesc) returns (r: Result<Option<Pred>>)
      modifies this`cached
      ensures r == Outcome(Fields(), old(cached), t)
      ensures cached == Refill(Fields(), old(cached), t)
      ensures View(t, None) == old(View(t, None))
    {
      RefillKeepsOutcome(Fields(), cached, t);
      if !SameTypeName(t.name, targetType) {
        return Ok(None);
      }
      if cached.None? {
        var compiled := CompileRule(t, property, value);
        if compiled.Fail? {
          return Fail(compiled.error);
        }
        cached := Some(Compiled(t, compiled.value));
      }
      if cached.value.forType != t {
        return Fail(InvalidCast);
      }
      return Ok(Some(cached.value.pred));
    }

    /** The getter taking options: fills an empty cache unless `NoCache` is
        set, but always returns a freshly compiled expression. */
    method GetExpressionWith(t: TypeDesc, options: ExpressionOptions) returns (r: Result<Option<Pred>>)
      modifies this`cached
      ensures r == Fresh(Fields(), t)
      ensures cached == RefillUnlessNoCache(Fields(), old(cached), t, options.noCache)
      ensures Outcome(Fields(), cached, t) == old(Outcome(Fields(), cached, t))
    {
      OptionsRefillKeepsOutcome(Fields(), cached, t, options.noCache);
      if !SameTypeName(t.name, targetType) {
        return Ok(None);
      }
      if cached.None? && !options.noCache {
        var compiled := CompileRule(t, property, value);
        if compiled.Fail? {
          return Fail(compiled.error);
        }
        cached := Some(Compiled(t, compiled.value));
      }
      var recompiled := CompileRule(t, property, value);
      if recompiled.Fail? {
        return Fail(recompiled.error);
      }
      return Ok(Some(recompiled.value));
    }

    /** `[T]P='V']`, from which the fields can be read back. */
    function ToString(): (s: string)
      reads this
      ensures ']' !in Show(targetType) && '=' !in Show(property) ==>
        ParseRuleText(s) == Some((Show(targetType), Show(property), Show(value)))
    {
      RuleTextRoundTrip(Fields());
      RuleText(Fields())
    }

    /** The text of the cached getter's expression, or the empty string when
        the rule does not apply. */
    method GetFilterString(t: TypeDesc) returns (s: Result<string>)
      modifies this`cached
      ensures s.Ok? <==> old(Outcome(Fields(), cached, t)).Ok?
      ensures s == Ok("") <==> old(Outcome(Fields(), cached, t)) == Ok(None)
      ensures cached == Refill(Fields(), old(cached), t)
    {
      var e := GetExpression(t);
      match e
      case Fail(err) => return Fail(err);
      case Ok(None) => return Ok("");
      case Ok(Some(p)) => return Ok(Render(p));
    }
  }

  datatype RuleNode = Leaf(rule: ExpressionRule) | Group(collection: ExpressionRuleCollection)

  /** Rules and nested collections joined by an operator (And by default). */
  datatype ExpressionRuleCollection = ExpressionRuleCollection(
    ruleOperator: RuleOperator, rules: seq<RuleNode>, targetType: Option<string>)

  /** A collection as the parameterless constructor leaves it (with an empty
      rule list): operator And, no target type. */
  function NewExpressionRuleCollection(): (c: ExpressionRuleCollection)
    ensures c.ruleOperator == And && c.rules == [] && c.targetType.None?
  {
    ExpressionRuleCollection(And, [], None)
  }

  /** Every rule object reachable from the first n children of c, nested
      collections included. */
  function LeavesUpTo(c: ExpressionRuleCollection, n: nat): set<ExpressionRule>
    requires n <= |c.rules|
    decreases c, n
  {
    if n == 0 then {}
    else
      LeavesUpTo(c, n - 1) +
      match c.rules[n - 1]
      case Leaf(r) => {r}
      case Group(g) => LeavesUpTo(g, |g.rules|)
  }

  function Leaves(c: ExpressionRuleCollection): set<ExpressionRule> {
    LeavesUpTo(c, |c.rules|)
  }

  /** A child's rule objects are among the collection's. */
  lemma {:induction false} LeavesOfChild(c: ExpressionRuleCollection, i: nat, n: nat)
    requires i < n <= |c.rules|
    ensures LeavesUpTo(c, i) <= LeavesUpTo(c, n)
    ensures c.rules[i].Leaf? ==> c.rules[i].rule in LeavesUpTo(c, n)
    ensures c.rules[i].Group? ==> Leaves(c.rules[i].collection) <= LeavesUpTo(c, n)
    decreases n
  {
    if i < n - 1 {
      LeavesOfChild(c, i, n - 1);
    }
  }

  type Env = map<ExpressionRule, RuleView>

  /** Each rule's view in the environment is what asking it would give now. */
  ghost predicate Mirrors(rules: set<ExpressionRule>, env: Env, t: TypeDesc, options: Option<ExpressionOptions>)
    reads rules
  {
    forall q :: q in rules ==> q in env && env[q] == q.View(t, options)
  }

  /** The outcomes of the first n children in order, or the first failure. */
  function ChildOutcomes(c: ExpressionRuleCollection, n: nat, env: Env): Result<seq<Option<Pred>>>
    requires n <= |c.rules| && LeavesUpTo(c, n) <= env.Keys
    decreases c, n, 1
  {
    if n == 0 then Ok([])
    else
      LeavesOfChild(c, n - 1, n);
      match ChildOutcomes(c, n - 1, env)
      case Fail(e) => Fail(e)
      case Ok(rs) =>
        match ChildOutcome(c, n - 1, env)
        case Fail(e) => Fail(e)
        case Ok(o) => Ok(rs + [o])
  }

  /** The outcome of child i: a rule's view, or a nested collection's
      combined outcome. */
  function ChildOutcome(c: ExpressionRuleCollection, i: nat, env: Env): Result<Option<Pred>>
    requires i < |c.rules| && LeavesUpTo(c, i + 1) <= env.Keys
    decreases c, i + 1, 0
  {
    match c.rules[i]
    case Leaf(r) => env[r].outcome
    case Group(g) =>
      match ChildOutcomes(g, |g.rules|, env)
      case Fail(e) => Fail(e)
      case Ok(gs) => CombineChildren(gs, g.ruleOperator)
  }

  function Values(rs: seq<Option<Pred>>): (ps: seq<Pred>)
    requires forall i :: 0 <= i < |rs| ==> rs[i].Some?
    ensures |ps| == |rs| && forall i :: 0 <= i < |rs| ==> ps[i] == rs[i].value
  {
    seq(|rs|, i requires 0 <= i < |rs| => rs[i].value)
  }

  /** `CombineOr`/`CombineAnd` over the children's expressions, nulls
      included: none gives null, one is returned as it is (null or not), and
      with two or more a null one makes `PredicateBuilder` raise. */
  function CombineChildren(rs: seq<Option<Pred>>, op: RuleOperator): Result<Option<Pred>> {
    if |rs| == 0 then Ok(None)
    else if |rs| == 1 then Ok(rs[0])
    else if exists i :: 0 <= i < |rs| && rs[i].None? then Fail(NullPredicate)
    else Ok(Combined(Values(rs), if op == Or then Or else And))
  }

  /** When every child gives an expression, the collection's expression
      accepts what all of them accept (under And) or, on records where none
      throws, what some of them accepts (under Or). */
  lemma CombineChildrenMeaning(rs: seq<Option<Pred>>, op: RuleOperator, x: Record)
    requires |rs| > 0 && forall i :: 0 <= i < |rs| ==> rs[i].Some?
    ensures CombineChildren(rs, op).Ok? && CombineChildren(rs, op).value.Some?
    ensures op == And ==>
      (Holds(CombineChildren(rs, op).value.value, x) <==> forall i :: 0 <= i < |rs| ==> Holds(rs[i].value, x))
    ensures op == Or && (forall i :: 0 <= i < |rs| ==> Total(rs[i].value, x)) ==>
      (Holds(CombineChildren(rs, op).value.value, x) <==> exists i :: 0 <= i < |rs| && Holds(rs[i].value, x))
  {
    var ps := Values(rs);
    CombinedMeaning(ps, op, x);
    if |rs| > 1 {
      assert CombineChildren(rs, op) == Ok(Combined(ps, op));
    }
  }

  /** What `GetExpression` on the collection yields, given each rule's view. */
  function CollectionOutcome(c: ExpressionRuleCollection, env: Env): Result<Option<Pred>>
    requires Leaves(c) <= env.Keys
  {
    match ChildOutcomes(c, |c.rules|, env)
    case Fail(e) => Fail(e)
    case Ok(rs) => CombineChildren(rs, c.ruleOperator)
  }

  /** A failure among the first children is the failure of all of them. */
  lemma {:induction false} FailurePersists(c: ExpressionRuleCollection, i: nat, n: nat, env: Env)
    requires i <= n <= |c.rules| && LeavesUpTo(c, n) <= env.Keys
    requires LeavesUpTo(c, i) <= env.Keys
    requires ChildOutcomes(c, i, env).Fail?
    ensures ChildOutcomes(c, n, env) == ChildOutcomes(c, i, env)
    decreases n
  {
    if i < n {
      LeavesOfChild(c, n - 1, n);
      FailurePersists(c, i, n - 1, env);
    }
  }

  /** `ExpressionRuleCollection.GetExpression`, with and without options:
      ask every child in order (a failure stops the walk), then combine. */
  method GetExpression(c: ExpressionRuleCollection, t: TypeDesc, options: Option<ExpressionOptions>, ghost env: Env)
    returns (r: Result<Option<Pred>>)
    requires Mirrors(Leaves(c), env, t, options)
    modifies Leaves(c)
    ensures Mirrors(Leaves(c), env, t, options)
    ensures r == CollectionOutcome(c, env)
    decreases c, 2
  {
    var outcomes := AskChildren(c, t, options, env);
    if outcomes.Fail? {
      return Fail(outcomes.error);
    }
    r := CombineResults(outcomes.value, c.ruleOperator);
  }

  /** The walk over the children: their outcomes in order, or the first
      failure. */
  method AskChildren(c: ExpressionRuleCollection, t: TypeDesc, options: Option<ExpressionOptions>, ghost env: Env)
    returns (outcomes: Result<seq<Option<Pred>>>)
    requires Mirrors(Leaves(c), env, t, options)
    modifies Leaves(c)
    ensures Mirrors(Leaves(c), env, t, options)
    ensures Leaves(c) <= env.Keys && outcomes == ChildOutcomes(c, |c.rules|, env)
    decreases c, 1
  {
    var rs: seq<Option<Pred>> := [];
    var i := 0;
    while i < |c.rules|
      invariant 0 <= i <= |c.rules|
      invariant Mirrors(Leaves(c), env, t, options)
      invariant LeavesUpTo(c, i) <= env.Keys
      invariant ChildOutcomes(c, i, env) == Ok(rs)
    {
      var o := AskChild(c, i, t, options, env);
      ChildOutcomesStep(c, i, env);
      if o.Fail? {
        FailurePersists(c, i + 1, |c.rules|, env);
        return Fail(o.error);
      }
      rs := rs + [o.value];
      i := i + 1;
    }
    return Ok(rs);
  }

  /** One more child extends the outcomes by its own, or stops at its
      failure. */
  lemma ChildOutcomesStep(c: ExpressionRuleCollection, i: nat, env: Env)
    requires i < |c.rules| && LeavesUpTo(c, i + 1) <= env.Keys && LeavesUpTo(c, i) <= env.Keys
    requires ChildOutcomes(c, i, env).Ok?
    ensures ChildOutcome(c, i, env).Fail? ==> ChildOutcomes(c, i + 1, env) == Fail(ChildOutcome(c, i, env).error)
    ensures ChildOutcome(c, i, env).Ok? ==>
      ChildOutcomes(c, i + 1, env) == Ok(ChildOutcomes(c, i, env).value + [ChildOutcome(c, i, env).value])
  {
  }

  /** Ask child i of c, through the getter the options select. */
  method AskChild(c: ExpressionRuleCollection, i: nat, t: TypeDesc, options: Option<ExpressionOptions>, ghost env: Env)
    returns (o: Result<Option<Pred>>)
    requires i < |c.rules| && Mirrors(Leaves(c), env, t, options)
    modifies Leaves(c)
    ensures Mirrors(Leaves(c), env, t, options)
    ensures LeavesUpTo(c, i + 1) <= env.Keys
    ensures o == ChildOutcome(c, i, env)
    decreases c, 0
  {
    LeavesOfChild(c, i, |c.rules|);
    LeavesOfChild(c, i, i + 1);
    match c.rules[i]
    case Leaf(rule) =>
      if options.None? {
        o := rule.GetExpression(t);
      } else {
        o := rule.GetExpressionWith(t, options.value);
      }
    case Group(inner) =>
      o := GetExpression(inner, t, options, env);
  }

  /** The combining step of the collection getter. */
  method CombineResults(rs: seq<Option<Pred>>, op: RuleOperator) returns (r: Result<Option<Pred>>)
    ensures r == CombineChildren(rs, op)
  {
    if |rs| == 0 {
      return Ok(None);
    }
    if |rs| == 1 {
      return Ok(rs[0]);
    }
    if exists j :: 0 <= j < |rs| && rs[j].None? {
      return Fail(NullPredicate);
    }
    var combined;
    if op == Or {
      combined := CombineOr(Values(rs));
    } else {
      combined := CombineAnd(Values(rs));
    }
    return Ok(combined);
  }
}
