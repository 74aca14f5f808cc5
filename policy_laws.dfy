/** What the rules of the newest grammar mean, stated against independent
    definitions: a glob over the member's text for string rules, an ordering
    against the parsed operand for comparisons, membership for collections. */
module PolicyLaws {
  import opened Results
  import opened Text
  import opened Numbers
  import opened Predicates
  import opened PolicyExtensions

  /** s matches the glob `[*]core[*]`: core is a slice of s, anchored at the
      start unless lead is set and at the end unless trail is set. */
  ghost predicate Glob(lead: bool, trail: bool, core: string, s: string) {
    exists i, j :: 0 <= i <= j <= |s| && (lead || i == 0) && (trail || j == |s|) && s[i..j] == core
  }

  function Canon(fold: bool, s: string): string {
    if fold then FoldAll(s) else s
  }

  /** The meaning of a string rule's value on a member's datum: after a run of
      `!` (negate) and a run of `~` (fold case), a leading `*` frees the start
      and a trailing `*` frees the end of the glob. */
  ghost predicate PatternAccepts(value: string, d: Datum) {
    var negate := HasPrefix(value, "!");
    var rest := TrimStart(value, '!');
    var fold := HasPrefix(rest, "~");
    var body := TrimStart(rest, '~');
    var lead := HasPrefix(body, "*");
    var trail := HasSuffix(body, "*");
    var unled := if lead then TrimStart(body, '*') else body;
    var core := if trail then TrimEnd(unled, '*') else unled;
    var matched := d.Str? && Glob(lead, trail, Canon(fold, core), Canon(fold, d.s));
    matched != negate
  }

  /** Each string primitive is the glob with the matching free ends. */
  lemma TextTestIsGlob(kind: MatchKind, s: string, core: string)
    ensures TextTest(kind, s, core, false) <==>
      Glob(kind == EndsWith || kind == Contains, kind == StartsWith || kind == Contains, core, s)
  {
    var lead := kind == EndsWith || kind == Contains;
    var trail := kind == StartsWith || kind == Contains;
    match kind
    case Equals =>
      if s == core {
        assert s[0..|s|] == core;
      }
      if Glob(lead, trail, core, s) {
        assert s[0..|s|] == s;
      }
    case StartsWith =>
      if HasPrefix(s, core) {
        assert s[0..|core|] == core;
      }
      if Glob(lead, trail, core, s) {
        var i, j :| 0 <= i <= j <= |s| && i == 0 && s[i..j] == core;
        assert s[..|core|] == core;
      }
    case EndsWith =>
      if HasSuffix(s, core) {
        assert s[|s| - |core|..|s|] == core;
      }
      if Glob(lead, trail, core, s) {
        var i, j :| 0 <= i <= j <= |s| && j == |s| && s[i..j] == core;
        assert s[|s| - |core|..] == core;
      }
    case Contains =>
      if HasInfix(s, core) {
        var i :| 0 <= i <= |s| - |core| && OccursAt(s, core, i);
        assert s[i..i + |core|] == core;
      }
      if Glob(lead, trail, core, s) {
        var i, j :| 0 <= i <= j <= |s| && s[i..j] == core;
        assert OccursAt(s, core, i);
      }
  }

  /** A value that does not start with c is its own TrimStart. */
  lemma TrimStartNoop(s: string, c: char)
    requires !HasPrefix(s, [c])
    ensures TrimStart(s, c) == s
  {
    if |s| > 0 {
      assert s[..1] == [s[0]];
    }
  }

  /** The wildcard dispatch frees the start of the glob exactly when the
      body starts with `*`, the end exactly when it ends with `*`, and keeps
      the body without those edge stars as the literal. */
  lemma WildcardIsGlob(body: string)
    ensures var (kind, literal) := WildcardKind(body);
      var lead := HasPrefix(body, "*");
      var trail := HasSuffix(body, "*");
      var unled := if lead then TrimStart(body, '*') else body;
      (kind == EndsWith || kind == Contains) == lead &&
      (kind == StartsWith || kind == Contains) == trail &&
      literal == (if trail then TrimEnd(unled, '*') else unled)
  {
  }

  /** The strip-and-dispatch front end reads the value's sigils as
      `PatternAccepts` does. */
  lemma PatternFields(value: string)
    ensures var pat := ParseStringPattern(value);
      var rest := TrimStart(value, '!');
      pat.negate == HasPrefix(value, "!") &&
      pat.ignoreCase == HasPrefix(rest, "~") &&
      (pat.kind, pat.literal) == WildcardKind(TrimStart(rest, '~'))
  {
    if !HasPrefix(value, "!") {
      TrimStartNoop(value, '!');
    }
    var rest := TrimStart(value, '!');
    if !HasPrefix(rest, "~") {
      TrimStartNoop(rest, '~');
    }
  }

  /** A string rule on a string member never throws, and accepts exactly the
      data its pattern accepts. */
  lemma StringRuleMeaning(t: TypeDesc, m: string, value: string, x: Record)
    requires m in t.members && t.members[m] == StringKind
    requires m in x && (x[m].Null? || x[m].Str?)
    ensures PredicateFor(t, m, value).Ok?
    ensures Total(PredicateFor(t, m, value).value, x)
    ensures Holds(PredicateFor(t, m, value).value, x) <==> PatternAccepts(value, x[m])
  {
    var pat := ParseStringPattern(value);
    assert PredicateFor(t, m, value) == Ok(StringRule(m, pat));
    StringRuleEval(m, pat, x);
    PatternFields(value);
    WildcardIsGlob(TrimStart(TrimStart(value, '!'), '~'));
    if x[m].Str? {
      FoldedGlob(pat.kind, x[m].s, pat.literal, pat.ignoreCase);
    }
  }

  /** A compiled string pattern on a string datum: the primitive's verdict,
      flipped when the pattern is negated. */
  lemma StringRuleEval(m: string, pat: StringPattern, x: Record)
    requires m in x && (x[m].Null? || x[m].Str?)
    ensures Total(StringRule(m, pat), x)
    ensures Holds(StringRule(m, pat), x) <==>
      (x[m].Str? && TextTest(pat.kind, x[m].s, pat.literal, pat.ignoreCase)) != pat.negate
  {
  }

  /** A match under either comparison is the glob over the canonical forms. */
  lemma FoldedGlob(kind: MatchKind, s: string, literal: string, fold: bool)
    ensures TextTest(kind, s, literal, fold) <==>
      Glob(kind == EndsWith || kind == Contains, kind == StartsWith || kind == Contains,
           Canon(fold, literal), Canon(fold, s))
  {
    assert TextTest(kind, s, literal, fold) == TextTest(kind, Canon(fold, s), Canon(fold, literal), false);
    TextTestIsGlob(kind, Canon(fold, s), Canon(fold, literal));
  }

  /** A value starting with `!` compiles to the negation of the rule for the
      value with every leading `!` removed. */
  lemma NegationLaw(t: TypeDesc, m: string, value: string)
    requires m in t.members && t.members[m] == StringKind
    requires HasPrefix(value, "!")
    ensures PredicateFor(t, m, value).Ok? && PredicateFor(t, m, TrimStart(value, '!')).Ok?
    ensures forall x: Record ::
      (Holds(PredicateFor(t, m, value).value, x) <==> Refutes(PredicateFor(t, m, TrimStart(value, '!')).value, x)) &&
      (Refutes(PredicateFor(t, m, value).value, x) <==> Holds(PredicateFor(t, m, TrimStart(value, '!')).value, x))
  {
    var stripped := TrimStart(value, '!');
    var p := ParseStringPattern(stripped);
    BangPattern(value);
    StringMemberRule(t, m, value);
    StringMemberRule(t, m, stripped);
    assert StringRule(m, p.(negate := true)) == Negate(StringRule(m, p));
  }

  /** A leading `!` run sets the negation flag of the pattern of the rest. */
  lemma BangPattern(value: string)
    requires HasPrefix(value, "!")
    ensures var p := ParseStringPattern(TrimStart(value, '!'));
      !p.negate && ParseStringPattern(value) == p.(negate := true)
  {
    var stripped := TrimStart(value, '!');
    assert !HasPrefix(stripped, "!");
    TrimStartNoop(stripped, '!');
  }

  /** A value with no sigil at the front and no `*` at either end is an
      exact, case-sensitive match of itself. */
  lemma PlainPattern(value: string)
    requires value != [] && value[0] !in {'!', '~', '*'} && value[|value| - 1] != '*'
    ensures ParseStringPattern(value) == StringPattern(false, false, Equals, value)
  {
    assert !HasPrefix(value, "!") && !HasPrefix(value, "~");
    assert !HasPrefix(value, "*") && !HasSuffix(value, "*");
  }

  /** A string member compiles to the string rule of its pattern. */
  lemma StringMemberRule(t: TypeDesc, m: string, value: string)
    requires m in t.members && t.members[m] == StringKind
    ensures PredicateFor(t, m, value) == Ok(StringRule(m, ParseStringPattern(value)))
  {
  }

  /** Negation does not cancel: `!!v` means the same as `!v`. */
  lemma DoubleBangIsSingle(t: TypeDesc, m: string, v: string)
    requires m in t.members && t.members[m] == StringKind
    ensures PredicateFor(t, m, "!!" + v) == PredicateFor(t, m, "!" + v)
  {
    assert ("!!" + v)[1..] == "!" + v;
  }

  /** `~` counts only after the `!` run: in `~!v` the `!` is part of the text. */
  lemma TildeBeforeBang(v: string)
    requires !HasSuffix("!" + v, "*")
    ensures ParseStringPattern("~!" + v) == StringPattern(false, true, Equals, "!" + v)
  {
    assert ("~!" + v)[1..] == "!" + v;
    TrimStartNoop("!" + v, '~');
    assert !HasPrefix("!" + v, "*");
  }

  /** On a null member an un-negated string rule rejects and a negated one
      accepts. */
  lemma NullStringMember(t: TypeDesc, m: string, value: string, x: Record)
    requires m in t.members && t.members[m] == StringKind
    requires m in x && x[m].Null?
    ensures PredicateFor(t, m, value).Ok?
    ensures Eval(PredicateFor(t, m, value).value, x) == Known(HasPrefix(value, "!"))
  {
    var pat := ParseStringPattern(value);
    assert PredicateFor(t, m, value) == Ok(StringRule(m, pat));
    assert pat.negate == HasPrefix(value, "!");
    StringRuleEval(m, pat, x);
  }

  /** On an integral member a compiled rule never throws, and accepts exactly
      when the operand is present and the member's value stands in the
      selected ordering to the parsed operand. */
  lemma ComparisonMeaning(t: TypeDesc, m: string, w: IntType, nullable: bool, value: string, x: Record)
    requires m in t.members && t.members[m] == IntKind(w, nullable)
    requires PredicateFor(t, m, value).Ok?
    requires m in x && Fits(x[m], IntKind(w, nullable))
    ensures Total(PredicateFor(t, m, value).value, x)
    ensures SplitOperator(value).1 != [] ==> IntegralOperand(w, SplitOperator(value).1).Ok?
    ensures Holds(PredicateFor(t, m, value).value, x) <==>
      SplitOperator(value).1 != [] && x[m].Num? &&
      Ordered(GetComparer(SplitOperator(value).0), x[m].n, IntegralOperand(w, SplitOperator(value).1).value)
  {
    IntMemberRule(t, m, w, nullable, value);
    if SplitOperator(value).1 == [] {
      EmptyOperandRejects(t, m, w, nullable, value, x);
    } else {
      var (run, operand) := SplitOperator(value);
      var n := IntegralOperand(w, operand).value;
      assert ComparisonFor(w, m, value) == Ok(Some(Compare(GetComparer(run), m, n)));
      CompiledComparison(m, nullable, GetComparer(run), n, x);
    }
  }

  /** An integral member compiles iff its comparison does, and then to the
      finished comparison. */
  lemma IntMemberRule(t: TypeDesc, m: string, w: IntType, nullable: bool, value: string)
    requires m in t.members && t.members[m] == IntKind(w, nullable)
    ensures PredicateFor(t, m, value).Ok? <==> ComparisonFor(w, m, value).Ok?
    ensures ComparisonFor(w, m, value).Ok? ==>
      PredicateFor(t, m, value) == Ok(FinishComparison(nullable, m, ComparisonFor(w, m, value).value))
  {
  }

  /** The guarded comparison on a datum of the member's kind. */
  lemma CompiledComparison(m: string, nullable: bool, op: CmpOp, n: int, x: Record)
    requires m in x && (x[m].Num? || (nullable && x[m].Null?))
    ensures Total(FinishComparison(nullable, m, Some(Compare(op, m, n))), x)
    ensures Holds(FinishComparison(nullable, m, Some(Compare(op, m, n))), x) <==>
      x[m].Num? && Ordered(op, x[m].n, n)
  {
  }

  /** A null nullable member matches no comparison, whatever the operator,
      `!=` included. */
  lemma NullNeverCompares(t: TypeDesc, m: string, w: IntType, value: string, x: Record)
    requires m in t.members && t.members[m] == IntKind(w, true)
    requires PredicateFor(t, m, value).Ok?
    requires m in x && x[m].Null?
    ensures Refutes(PredicateFor(t, m, value).value, x)
  {
  }

  /** An operator with no operand compiles to a predicate that rejects
      everything. */
  lemma EmptyOperandRejects(t: TypeDesc, m: string, w: IntType, nullable: bool, value: string, x: Record)
    requires m in t.members && t.members[m] == IntKind(w, nullable)
    requires SplitOperator(value).1 == []
    requires m in x
    ensures PredicateFor(t, m, value).Ok?
    ensures Refutes(PredicateFor(t, m, value).value, x)
  {
  }

  /** The value `>=` is all operator: the operand is empty. */
  lemma OperatorOnlyValue(value: string)
    requires value == ">="
    ensures SplitOperator(value) == (value, "")
  {
    assert '>' !in WhiteSpace && '=' !in WhiteSpace;
    assert TrimStartAny(value, WhiteSpace) == value;
    assert TrimEndAny(value, WhiteSpace) == value;
    assert LeadingRun(value, OperatorChars) == value by {
      assert value[1..] == "=";
      assert LeadingRun("=", OperatorChars) == "=";
    }
    assert RemoveAll(value, value) == "";
    assert TrimWhite("") == "";
  }

  /** As written, the same rule does not compile: a value that is all
      operator (such as `>=`, see OperatorOnlyValue) on an integral member,
      nullable or not, raises instead of yielding the false literal. */
  lemma EmptyOperandAsWritten(w: IntType, nullable: bool, m: string, value: string)
    requires SplitOperator(value).1 == []
    ensures ComparisonFor(w, m, value) == Ok(None)
    ensures FinishComparisonAsWritten(nullable, m, ComparisonFor(w, m, value).value).Fail?
  {
  }

  /** An operand with a decimal point compiles to the integer nearest to it,
      a tie going to the even one. */
  lemma RoundedOperand(w: IntType, operand: string, d: Decimal)
    requires '.' in operand && ParseDecimal(operand) == Some(d)
    requires InRange(w, RoundHalfEven(d))
    ensures IntegralOperand(w, operand) == Ok(RoundHalfEven(d))
  {
    ParseIntRoundTrip(RoundHalfEven(d));
  }

  /** A collection member tests membership of the raw value: no `!`, `~` or
      `*` processing. */
  lemma CollectionRuleIsVerbatim(t: TypeDesc, m: string, value: string, x: Record)
    requires m in t.members && t.members[m] == CollectionKind
    requires m in x && (x[m].Null? || x[m].Items?)
    ensures PredicateFor(t, m, value).Ok?
    ensures Total(PredicateFor(t, m, value).value, x)
    ensures Holds(PredicateFor(t, m, value).value, x) <==> x[m].Items? && value in x[m].xs
  {
  }

  /** A rule that compiles never throws on an instance of its target type. */
  lemma LeafNeverThrows(t: TypeDesc, m: string, value: string, x: Record)
    requires WellTyped(t, x)
    requires PredicateFor(t, m, value).Ok?
    ensures Total(PredicateFor(t, m, value).value, x)
  {
    assert m in t.members && m in x && Fits(x[m], t.members[m]);
    match t.members[m]
    case StringKind => StringRuleMeaning(t, m, value, x);
    case IntKind(w, nullable) => ComparisonMeaning(t, m, w, nullable, value, x);
    case CollectionKind =>
    case OtherKind =>
  }
}
