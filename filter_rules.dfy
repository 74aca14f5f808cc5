/** `FilterRule` (a rule object with a cached compiled predicate, compiled
    by the negation-aware grammar) and `FilterRuleCollection` (rules, an
    operator and an optional nested collection). */
module FilterRules {
  import opened Results
  import opened Predicates
  import opened Combinators
  import opened RuleCache

  class FilterRule {
    var targetType: Option<string>
    var property: Option<string>
    var value: Option<string>
    var cached: Option<Compiled>

    function Fields(): RuleFields
      reads this
    {
      RuleFields(targetType, property, value)
    }

    /** What a policy sees of this rule for type t. */
    function View(t: TypeDesc): RuleView
      reads this
    {
      RuleView(targetType, Outcome(Fields(), cached, t))
    }

    constructor Empty()
      ensures Fields() == RuleFields(None, None, None) && cached.None?
    {
      targetType, property, value, cached := None, None, None, None;
    }

    constructor (targetType: Option<string>, property: Option<string>, value: Option<string>)
      ensures Fields() == RuleFields(targetType, property, value) && cached.None?
    {
      this.targetType := targetType;
      this.property := property;
      this.value := value;
      cached := None;
    }

    /** The tuple constructor: (TargetType, Property, Value) in that order. */
    constructor FromTuple(input: (Option<string>, Option<string>, Option<string>))
      ensures Fields() == RuleFields(input.0, input.1, input.2) && cached.None?
    {
      targetType := input.0;
      property := input.1;
      value := input.2;
      cached := None;
    }

    /** Null for another type name; otherwise the cached expression,
        compiled by `GetPredicateExpressionForType` and cached on first use. */
    method GetFilterExpression(t: TypeDesc) returns (r: Result<Option<Pred>>)
      modifies this`cached
      ensures r == Outcome(Fields(), old(cached), t)
      ensures cached == Refill(Fields(), old(cached), t)
      ensures View(t) == old(View(t))
    {
      RefillKeepsOutcome(Fields(), cached, t);
      if !SameTypeName(t.name, targetType) {
        return Ok(None);
      }
      if cached.None? {
        var compiled := CompileRule(t, property, value);
        if compiled.Fail? {
          return Fail(compiled.error);
        }
        cached := Some(Compiled(t, compiled.value));
      }
      if cached.value.forType != t {
        return Fail(InvalidCast);
      }
      return Ok(Some(cached.value.pred));
    }

    /** `[T]P='V']`, from which the fields can be read back. */
    function ToString(): (s: string)
      reads this
      ensures ']' !in Show(targetType) && '=' !in Show(property) ==>
        ParseRuleText(s) == Some((Show(targetType), Show(property), Show(value)))
    {
      RuleTextRoundTrip(Fields());
      RuleText(Fields())
    }

    /** The text of the expression, or the empty string when the rule does
        not apply. */
    method GetFilterString(t: TypeDesc) returns (s: Result<string>)
      modifies this`cached
      ensures s.Ok? <==> old(Outcome(Fields(), cached, t)).Ok?
      ensures s == Ok("") <==> old(Outcome(Fields(), cached, t)) == Ok(None)
      ensures cached == Refill(Fields(), old(cached), t)
    {
      var e := GetFilterExpression(t);
      match e
      case Fail(err) => return Fail(err);
      case Ok(None) => return Ok("");
      case Ok(Some(p)) => return Ok(Render(p));
    }
  }

  /** Rules joined by an operator, plus an optional nested collection. */
  datatype FilterRuleCollection = FilterRuleCollection(
    rule: Option<FilterRuleCollection>, ruleOperator: RuleOperator, rules: seq<FilterRule>)

  /** A collection as the parameterless constructor leaves it (with an empty
      rule list): no nested collection, operator And. */
  function NewFilterRuleCollection(): (c: FilterRuleCollection)
    ensures c.rule.None? && c.ruleOperator == And && c.rules == []
  {
    FilterRuleCollection(None, And, [])
  }

  /** Every rule object of the collection, nested collections included. */
  function AllRules(c: FilterRuleCollection): set<FilterRule>
    decreases c
  {
    (set q | q in c.rules) + (if c.rule.Some? then AllRules(c.rule.value) else {})
  }

  type FilterEnv = map<FilterRule, RuleView>

  /** Each rule's view in the environment is what asking it would give now. */
  ghost predicate FilterMirrors(rules: set<FilterRule>, env: FilterEnv, t: TypeDesc)
    reads rules
  {
    forall q :: q in rules ==> q in env && env[q] == q.View(t)
  }
}
