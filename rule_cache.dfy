/** The per-rule cache shared by `ExpressionRule` and `FilterRule`: which
    outcome a call yields from the rule's fields and cache, and what the
    cache holds afterwards. */
module RuleCache {
  import opened Results
  import opened Text
  import opened Predicates
  import PolicyExtensions

  /** The public fields of a rule; each may be null. */
  datatype RuleFields = RuleFields(targetType: Option<string>, property: Option<string>, value: Option<string>)

  /** A cached expression, remembering the type it was built for. */
  datatype Compiled = Compiled(forType: TypeDesc, pred: Pred)

  /** What a collection sees of a rule for a given type: its target type and
      the outcome of asking it for an expression. */
  datatype RuleView = RuleView(targetType: Option<string>, outcome: Result<Option<Pred>>)

  /** `typeof(T).Name.Equals(target, CurrentCultureIgnoreCase)`; false for a
      null target. */
  predicate SameTypeName(name: string, target: Option<string>) {
    target.Some? && FoldAll(name) == FoldAll(target.value)
  }

  /** `GetPredicateExpressionForType<T>(Property, Value)` with possibly null
      arguments: a null property is rejected by `Expression.Property`, and a
      null value fails on its first use, except on a member of another
      reference type, where it compiles to `x.m == null`. */
  function CompileRule(t: TypeDesc, property: Option<string>, value: Option<string>): (r: Result<Pred>)
    ensures property.None? ==> r == Fail(NullArgument)
    ensures property.Some? && value.Some? ==> r == PolicyExtensions.PredicateFor(t, property.value, value.value)
    ensures property.Some? && value.None? && property.value in t.members && t.members[property.value] == OtherKind ==>
      r.Ok? && forall x: Record :: property.value in x ==> Eval(r.value, x) == Known(x[property.value].Null?)
  {
    match property
    case None => Fail(NullArgument)
    case Some(m) =>
      if m !in t.members then Fail(MemberNotFound(m))
      else
        match value
        case Some(v) => PolicyExtensions.PredicateFor(t, m, v)
        case None => if t.members[m] == OtherKind then Ok(PolicyExtensions.Negate(NotNull(m))) else Fail(NullArgument)
  }

  function Lift(r: Result<Pred>): Result<Option<Pred>> {
    match r
    case Fail(e) => Fail(e)
    case Ok(p) => Ok(Some(p))
  }

  /** What the cached getter returns: null when the type name differs from
      the target; else the cached expression (an invalid cast when it was
      built for another type of the same name), or a fresh compile. */
  function Outcome(f: RuleFields, cache: Option<Compiled>, t: TypeDesc): Result<Option<Pred>> {
    if !SameTypeName(t.name, f.targetType) then Ok(None)
    else
      match cache
      case Some(c) => if c.forType == t then Ok(Some(c.pred)) else Fail(InvalidCast)
      case None => Lift(CompileRule(t, f.property, f.value))
  }

  /** The cache after the cached getter: filled by the first applicable call
      that compiles, and never changed afterwards. */
  function Refill(f: RuleFields, cache: Option<Compiled>, t: TypeDesc): (c: Option<Compiled>)
    ensures cache.Some? ==> c == cache
    ensures !SameTypeName(t.name, f.targetType) ==> c == cache
  {
    if SameTypeName(t.name, f.targetType) && cache.None? && CompileRule(t, f.property, f.value).Ok? then
      Some(Compiled(t, CompileRule(t, f.property, f.value).value))
    else cache
  }

  /** What the getter taking options returns: always a fresh compile. */
  function Fresh(f: RuleFields, t: TypeDesc): Result<Option<Pred>> {
    if !SameTypeName(t.name, f.targetType) then Ok(None)
    else Lift(CompileRule(t, f.property, f.value))
  }

  /** The cache after the getter taking options: filled as by the cached
      getter unless `NoCache` is set. */
  function RefillUnlessNoCache(f: RuleFields, cache: Option<Compiled>, t: TypeDesc, noCache: bool): (c: Option<Compiled>)
    ensures noCache ==> c == cache
  {
    if noCache then cache else Refill(f, cache, t)
  }

  /** Refilling is idempotent and does not change what the cached getter
      returns: asking twice gives the same answer as asking once. */
  lemma RefillKeepsOutcome(f: RuleFields, cache: Option<Compiled>, t: TypeDesc)
    ensures Refill(f, Refill(f, cache, t), t) == Refill(f, cache, t)
    ensures Outcome(f, Refill(f, cache, t), t) == Outcome(f, cache, t)
  {
  }

  /** Once the first applicable call has filled the cache, edits to Property
      and Value no longer change what the cached getter returns. */
  lemma CacheIgnoresLaterEdits(f: RuleFields, g: RuleFields, t: TypeDesc)
    requires Refill(f, None, t).Some?
    requires g.targetType == f.targetType
    ensures Outcome(g, Refill(f, None, t), t) == Outcome(f, None, t)
  {
  }

  /** The getter taking options ignores the cache: on an empty cache it agrees
      with the cached getter, and whatever the cache holds it recompiles from
      the current fields. */
  lemma FreshIsFirstCall(f: RuleFields, t: TypeDesc)
    ensures Fresh(f, t) == Outcome(f, None, t)
  {
  }

  /** The options path keeps the cached getter's answer too. */
  lemma OptionsRefillKeepsOutcome(f: RuleFields, cache: Option<Compiled>, t: TypeDesc, noCache: bool)
    ensures Outcome(f, RefillUnlessNoCache(f, cache, t, noCache), t) == Outcome(f, cache, t)
    ensures RefillUnlessNoCache(f, RefillUnlessNoCache(f, cache, t, noCache), t, noCache) == RefillUnlessNoCache(f, cache, t, noCache)
  {
  }

  /** Two types whose names differ only in case both match a target, so a
      cache filled for one makes the other fail with an invalid cast. */
  lemma SameNameOtherType(f: RuleFields, t: TypeDesc, u: TypeDesc)
    requires Refill(f, None, t).Some?
    requires SameTypeName(u.name, f.targetType) && u != t
    ensures Outcome(f, Refill(f, None, t), u) == Fail(InvalidCast)
  {
  }

  // ----- the rule's text -----

  function Show(s: Option<string>): string {
    if s.Some? then s.value else ""
  }

  /** `$"[{TargetType}]{Property}='{Value}']"`; a null field prints as empty. */
  function RuleText(f: RuleFields): string {
    "[" + Show(f.targetType) + "]" + Show(f.property) + "='" + Show(f.value) + "']"
  }

  /** Read the three fields back from a rule's text: the target runs to the
      first `]`, the property to the first `=`. */
  function ParseRuleText(s: string): Option<(string, string, string)> {
    if |s| < 1 || s[0] != '[' || ']' !in s then None
    else
      var k := IndexOf(s, ']');
      match ParseAssignment(s[k + 1..])
      case None => None
      case Some(pv) => Some((s[1..k], pv.0, pv.1))
  }

  /** Read `P='V']` back into its property and value. */
  function ParseAssignment(rest: string): Option<(string, string)> {
    if '=' !in rest then None
    else
      var j := IndexOf(rest, '=');
      var tail := rest[j + 1..];
      if |tail| >= 3 && tail[0] == '\'' && tail[|tail| - 2..] == "']" then
        Some((rest[..j], tail[1..|tail| - 2]))
      else None
  }

  /** The rule's text determines its fields when the target has no `]` and
      the property has no `=`. */
  lemma RuleTextRoundTrip(f: RuleFields)
    ensures ']' !in Show(f.targetType) && '=' !in Show(f.property) ==>
      ParseRuleText(RuleText(f)) == Some((Show(f.targetType), Show(f.property), Show(f.value)))
  {
    if ']' in Show(f.targetType) || '=' in Show(f.property) {
      return;
    }
    var target, property, value := Show(f.targetType), Show(f.property), Show(f.value);
    var s := RuleText(f);
    var rest := property + "='" + value + "']";
    assert s == ("[" + target) + [']'] + rest;
    IndexOfAfterPrefix("[" + target, ']', rest);
    assert s[|target| + 2..] == rest;
    assert s[1..|target| + 1] == target;
    AssignmentRoundTrip(property, value);
  }

  lemma AssignmentRoundTrip(property: string, value: string)
    requires '=' !in property
    ensures ParseAssignment(property + "='" + value + "']") == Some((property, value))
  {
    var rest := property + "='" + value + "']";
    var tail := "'" + value + "']";
    assert rest == property + ['='] + tail;
    IndexOfAfterPrefix(property, '=', tail);
    assert rest[..|property|] == property;
    assert rest[|property| + 1..] == tail;
    assert tail[1..|tail| - 2] == value;
    assert tail[|tail| - 2..] == "']";
  }

  /** The first c in `p + [c] + q` is right after p when c does not occur in p. */
  lemma IndexOfAfterPrefix(p: string, c: char, q: string)
    requires c !in p
    ensures c in p + [c] + q && IndexOf(p + [c] + q, c) == |p|
  {
    var s := p + [c] + q;
    assert s[|p|] == c;
    assert forall j :: 0 <= j < |p| ==> s[j] == p[j];
  }
}
