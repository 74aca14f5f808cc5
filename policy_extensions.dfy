/** The leaf compiler of the newest grammar (`PredicateExpressionPolicyExtensions`):
    from a member of a target type and a value pattern to a predicate.

    String members: a leading run of `!` negates, then a leading run of `~`
    makes the match ignore case, then `*` at either end selects Contains,
    EndsWith or StartsWith (none: Equals); the match is guarded by `!= null`.
    Integral members: a leading run of `!<>=` on the trimmed value picks the
    comparison, the rest is the operand (a decimal operand is rounded to even
    first); a nullable member is guarded by `!= null`.
    Collection members: `!= null && Contains(value)`, the value taken verbatim.
    Other members: `== value`. */
module PolicyExtensions {
  import opened Results
  import opened Text
  import opened Numbers
  import opened Predicates
  import PredicateBuilder

  /** `x.m != null && x.m.<kind>(filter, comparison)`. */
  function AddStringPropertyExpression(m: string, filter: string, kind: MatchKind, ignoreCase: bool): (r: Pred)
    ensures forall x: Record :: m in x ==> (Holds(r, x) <==> x[m].Str? && TextTest(kind, x[m].s, filter, ignoreCase))
    ensures forall x: Record :: m in x && (x[m].Null? || x[m].Str?) ==> Total(r, x)
  {
    GuardedEval(m, StrMatch(kind, m, filter, ignoreCase));
    AndAlso(NotNull(m), StrMatch(kind, m, filter, ignoreCase))
  }

  /** `x.m != null && e`: a null member rejects without evaluating e. */
  function AddNullCheck(m: string, e: Pred): (r: Pred)
    ensures forall x: Record :: m in x && x[m].Null? ==> Refutes(r, x)
    ensures forall x: Record :: m in x && !x[m].Null? ==> Eval(r, x) == Eval(e, x)
  {
    GuardedEval(m, e);
    AndAlso(NotNull(m), e)
  }

  /** `Expression.IsFalse(body)`: accepts what the body rejects and rejects
      what it accepts; throws where the body throws. */
  function Negate(p: Pred): (r: Pred)
    ensures forall x :: Holds(r, x) <==> Refutes(p, x)
    ensures forall x :: Refutes(r, x) <==> Holds(p, x)
    ensures forall x :: Total(r, x) <==> Total(p, x)
  {
    IsFalse(p)
  }

  /** The operator runs `GetComparer` recognises. */
  const Recognised: set<string> := {">", ">=", "<", "<=", "<>", "!=", "!"}

  /** The comparison a leading operator run selects: the four orderings,
      inequality for `<>`, `!=` and `!`, and equality for anything else. */
  function GetComparer(run: string): (op: CmpOp)
    ensures run !in Recognised ==> op == Eq
    ensures op == Ne <==> run in {"<>", "!=", "!"}
    ensures op == Gt <==> run == ">"
    ensures op == Ge <==> run == ">="
    ensures op == Lt <==> run == "<"
    ensures op == Le <==> run == "<="
  {
    if run == ">" then Gt
    else if run == ">=" then Ge
    else if run == "<" then Lt
    else if run == "<=" then Le
    else if run == "<>" || run == "!=" || run == "!" then Ne
    else Eq
  }

  /** `x.m != null && Enumerable.Contains(x.m, value)`. */
  function GetArrayContainsExpression(m: string, value: string): (r: Pred)
    ensures forall x: Record :: m in x && (x[m].Null? || x[m].Items?) ==>
      Total(r, x) && (Holds(r, x) <==> x[m].Items? && value in x[m].xs)
  {
    AddNullCheck(m, ListContains(m, value))
  }

  // ----- string patterns -----

  /** What the sigils of a string rule select. */
  datatype StringPattern = StringPattern(negate: bool, ignoreCase: bool, kind: MatchKind, literal: string)

  /** The wildcard dispatch on a pattern stripped of `!` and `~`. */
  function WildcardKind(body: string): (MatchKind, string) {
    if HasPrefix(body, "*") && HasSuffix(body, "*") then (Contains, Trim(body, '*'))
    else if HasPrefix(body, "*") then (EndsWith, TrimStart(body, '*'))
    else if HasSuffix(body, "*") then (StartsWith, TrimEnd(body, '*'))
    else (Equals, body)
  }

  function ParseStringPattern(value: string): StringPattern {
    var negate := HasPrefix(value, "!");
    var rest := if negate then TrimStart(value, '!') else value;
    var ignoreCase := HasPrefix(rest, "~");
    var body := if ignoreCase then TrimStart(rest, '~') else rest;
    var (kind, literal) := WildcardKind(body);
    StringPattern(negate, ignoreCase, kind, literal)
  }

  function StringRule(m: string, pat: StringPattern): Pred {
    var core := AddStringPropertyExpression(m, pat.literal, pat.kind, pat.ignoreCase);
    if pat.negate then Negate(core) else core
  }

  // ----- comparisons -----

  const OperatorChars: set<char> := {'!', '<', '>', '='}

  /** The operator run (matched on the trimmed value) and the operand: the
      value with every occurrence of the run removed, then trimmed. */
  function SplitOperator(value: string): (string, string) {
    var run := LeadingRun(TrimWhite(value), OperatorChars);
    (run, TrimWhite(if run != [] then RemoveAll(value, run) else value))
  }

  /** Parse an operand for an integral member of width w; an operand with a
      decimal point is first parsed as a decimal and rounded half to even. */
  function IntegralOperand(w: IntType, operand: string): Result<int> {
    if '.' in operand then
      match ParseDecimal(operand)
      case None => Fail(MalformedOperand(operand))
      case Some(d) => ParseIntegral(w, IntToString(RoundHalfEven(d)))
    else ParseIntegral(w, operand)
  }

  /** The comparison built for an integral member, or None when the operand is empty. */
  function ComparisonFor(w: IntType, m: string, value: string): Result<Option<Pred>> {
    var (run, operand) := SplitOperator(value);
    if operand == [] then Ok(None)
    else
      match IntegralOperand(w, operand)
      case Fail(e) => Fail(e)
      case Ok(n) => Ok(Some(Compare(GetComparer(run), m, n)))
  }

  /** The tail of the compiler as written: with no comparison the body of the
      returned lambda is itself the lambda `x => false`, whose type is not
      bool, so building it raises (`Expression.Lambda` rejects the body, and
      `AndAlso` with the null check is undefined on it). */
  function FinishComparisonAsWritten(nullable: bool, m: string, comparison: Option<Pred>): (r: Result<Pred>)
    ensures r.Fail? <==> comparison.None?
  {
    match comparison
    case None => Fail(OperatorUndefined)
    case Some(c) => Ok(if nullable then AddNullCheck(m, c) else c)
  }

  /** The tail of the compiler as its comment intends: with no comparison,
      defer to the false literal; guard a nullable member with `!= null`. */
  function FinishComparison(nullable: bool, m: string, comparison: Option<Pred>): (r: Pred)
    ensures comparison.None? ==> forall x: Record :: m in x ==> Refutes(r, x)
    ensures nullable ==> forall x: Record :: m in x && x[m].Null? ==> Refutes(r, x)
    ensures forall x: Record :: m in x && (nullable || !x[m].Null?) && comparison.Some? ==>
      Eval(r, x) == if x[m].Null? then Known(false) else Eval(comparison.value, x)
  {
    var c := if comparison.None? then PredicateBuilder.False() else comparison.value;
    if nullable then AddNullCheck(m, c) else c
  }

  /** The predicate `GetPredicateExpressionForType` builds for member m of t
      and a value pattern. */
  function PredicateFor(t: TypeDesc, m: string, value: string): (r: Result<Pred>)
    ensures m !in t.members ==> r == Fail(MemberNotFound(m))
    ensures r.Fail? ==> m !in t.members || t.members[m].IntKind?
  {
    if m !in t.members then Fail(MemberNotFound(m))
    else
      match t.members[m]
      case StringKind => Ok(StringRule(m, ParseStringPattern(value)))
      case IntKind(w, nullable) =>
        (match ComparisonFor(w, m, value)
         case Fail(e) => Fail(e)
         case Ok(c) => Ok(FinishComparison(nullable, m, c)))
      case CollectionKind => Ok(GetArrayContainsExpression(m, value))
      case OtherKind => Ok(FinishComparison(false, m, Some(EqualsText(m, value))))
  }

  /** The string branch: strip `!` (negate), then `~` (ignore case), then
      dispatch on the wildcards. */
  method CompileStringRule(property: string, value: string) returns (result: Pred)
    ensures result == StringRule(property, ParseStringPattern(value))
  {
    var v := value;
    var negateResult := false;
    if HasPrefix(v, "!") {
      negateResult := true;
      v := TrimStart(v, '!');
    }
    var ignoreCase := false;
    if HasPrefix(v, "~") {
      ignoreCase := true;
      v := TrimStart(v, '~');
    }
    if HasPrefix(v, "*") && HasSuffix(v, "*") {
      result := AddStringPropertyExpression(property, Trim(v, '*'), Contains, ignoreCase);
    } else if HasPrefix(v, "*") {
      result := AddStringPropertyExpression(property, TrimStart(v, '*'), EndsWith, ignoreCase);
    } else if HasSuffix(v, "*") {
      result := AddStringPropertyExpression(property, TrimEnd(v, '*'), StartsWith, ignoreCase);
    } else {
      result := AddStringPropertyExpression(property, v, Equals, ignoreCase);
    }
    if negateResult {
      result := Negate(result);
    }
  }

  /** The comparable branch for an integral member: split off the operator
      run, round a decimal operand, parse it; no comparison when the operand
      is empty. */
  method CompileComparison(w: IntType, property: string, value: string) returns (comparison: Result<Option<Pred>>)
    ensures comparison == ComparisonFor(w, property, value)
  {
    var run := LeadingRun(TrimWhite(value), OperatorChars);
    var operand := TrimWhite(if run != [] then RemoveAll(value, run) else value);
    if operand == [] {
      return Ok(None);
    }
    var literal := operand;
    if '.' in operand {
      var d := ParseDecimal(operand);
      if d.None? {
        return Fail(MalformedOperand(operand));
      }
      literal := IntToString(RoundHalfEven(d.value));
    }
    var parsed := ParseIntegral(w, literal);
    if parsed.Fail? {
      return Fail(parsed.error);
    }
    return Ok(Some(Compare(GetComparer(run), property, parsed.value)));
  }

  method GetPredicateExpressionForType(t: TypeDesc, property: string, value: string) returns (r: Result<Pred>)
    ensures r == PredicateFor(t, property, value)
  {
    if property !in t.members {
      return Fail(MemberNotFound(property));
    }
    var kind := t.members[property];
    var isNullable := kind.IntKind? && kind.nullable;
    var comparison: Option<Pred> := None;

    if kind == StringKind {
      var result := CompileStringRule(property, value);
      return Ok(result);
    } else if kind.IntKind? {
      var built := CompileComparison(kind.width, property, value);
      if built.Fail? {
        return Fail(built.error);
      }
      comparison := built.value;
    } else if kind == CollectionKind {
      return Ok(GetArrayContainsExpression(property, value));
    } else {
      comparison := Some(EqualsText(property, value));
    }

    return Ok(FinishComparison(isNullable, property, comparison));
  }
}
