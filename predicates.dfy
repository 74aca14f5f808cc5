/** The expression trees the compilers build, modelled as a predicate AST
    over records whose members have declared kinds. `Eval` plays the part of
    `Compile()` followed by invoking the delegate: a member access on a null
    value or on a value of the wrong shape throws, and `AndAlso`/`OrElse`
    short-circuit left to right. */
module Predicates {
  import opened Text
  import opened Numbers

  /** The shape of a member's declared type, as the leaf compiler sees it. */
  datatype Kind =
    | StringKind                                  // System.String
    | IntKind(width: IntType, nullable: bool)     // an integral type, or Nullable<> of one
    | CollectionKind                              // an ICollection of strings (string[], List<string>)
    | OtherKind                                   // a reference type comparable to a string with ==

  /** A target type: its simple name (`typeof(T).Name`) and its members. */
  datatype TypeDesc = TypeDesc(name: string, members: map<string, Kind>)

  /** A member's value in one instance. */
  datatype Datum = Null | Str(s: string) | Num(n: int) | Items(xs: seq<string>)

  type Record = map<string, Datum>

  predicate Fits(d: Datum, k: Kind) {
    match k
    case StringKind => d.Null? || d.Str?
    case IntKind(w, nullable) => (nullable && d.Null?) || (d.Num? && InRange(w, d.n))
    case CollectionKind => d.Null? || d.Items?
    case OtherKind => true
  }

  /** x is an instance of t: every declared member is present with a value of its kind. */
  predicate WellTyped(t: TypeDesc, x: Record) {
    forall m :: m in t.members ==> m in x && Fits(x[m], t.members[m])
  }

  /** The string method a match calls: `filterType` in the source. */
  datatype MatchKind = StartsWith | EndsWith | Contains | Equals

  /** The binary expression `GetComparer` builds. */
  datatype CmpOp = Gt | Ge | Lt | Le | Ne | Eq

  datatype Pred =
    | Constant(b: bool)                                                 // x => true, x => false
    | NotNull(member: string)                                           // x.m != null
    | StrMatch(kind: MatchKind, member: string, literal: string, ignoreCase: bool)  // x.m.StartsWith(lit, cmp) ...
    | Compare(op: CmpOp, member: string, operand: int)                  // x.m > n ...
    | ListContains(member: string, element: string)                     // Enumerable.Contains(x.m, e)
    | EqualsText(member: string, text: string)                          // x.m == "text"
    | IsFalse(inner: Pred)                                              // Expression.IsFalse
    | AndAlso(left: Pred, right: Pred)
    | OrElse(left: Pred, right: Pred)

  /** The outcome of invoking a compiled predicate. */
  datatype Truth = Known(b: bool) | Throws

  /** The string primitive, under an ordinal or a case-folded comparison. */
  predicate TextTest(kind: MatchKind, s: string, literal: string, ignoreCase: bool) {
    var a := if ignoreCase then FoldAll(s) else s;
    var b := if ignoreCase then FoldAll(literal) else literal;
    match kind
    case StartsWith => HasPrefix(a, b)
    case EndsWith => HasSuffix(a, b)
    case Contains => HasInfix(a, b)
    case Equals => a == b
  }

  predicate Ordered(op: CmpOp, a: int, b: int) {
    match op
    case Gt => a > b
    case Ge => a >= b
    case Lt => a < b
    case Le => a <= b
    case Ne => a != b
    case Eq => a == b
  }

  function Eval(p: Pred, x: Record): Truth {
    match p
    case Constant(b) => Known(b)
    case NotNull(m) => if m in x then Known(!x[m].Null?) else Throws
    case StrMatch(k, m, lit, ci) =>
      if m in x && x[m].Str? then Known(TextTest(k, x[m].s, lit, ci)) else Throws
    case Compare(op, m, n) =>
      if m in x && x[m].Num? then Known(Ordered(op, x[m].n, n)) else Throws
    case ListContains(m, e) =>
      if m in x && x[m].Items? then Known(e in x[m].xs) else Throws
    case EqualsText(m, s) => if m in x then Known(x[m] == Str(s)) else Throws
    case IsFalse(q) =>
      (match Eval(q, x)
       case Known(b) => Known(!b)
       case Throws => Throws)
    case AndAlso(l, r) =>
      (match Eval(l, x)
       case Known(b) => if b then Eval(r, x) else Known(false)
       case Throws => Throws)
    case OrElse(l, r) =>
      (match Eval(l, x)
       case Known(b) => if b then Known(true) else Eval(r, x)
       case Throws => Throws)
  }

  /** The predicate accepts x. */
  predicate Holds(p: Pred, x: Record) { Eval(p, x) == Known(true) }

  /** The predicate rejects x. */
  predicate Refutes(p: Pred, x: Record) { Eval(p, x) == Known(false) }

  /** Invoking the predicate on x does not throw. */
  predicate Total(p: Pred, x: Record) { Eval(p, x) != Throws }

  /** A member guarded by `!= null` rejects when the member is null and
      otherwise behaves as the guarded predicate. */
  lemma GuardedEval(m: string, e: Pred)
    ensures forall x: Record :: m in x ==>
      Eval(AndAlso(NotNull(m), e), x) == if x[m].Null? then Known(false) else Eval(e, x)
  {
  }

  function KindName(k: MatchKind): string {
    match k
    case StartsWith => "StartsWith"
    case EndsWith => "EndsWith"
    case Contains => "Contains"
    case Equals => "Equals"
  }

  function OpText(op: CmpOp): string {
    match op
    case Gt => " > "
    case Ge => " >= "
    case Lt => " < "
    case Le => " <= "
    case Ne => " != "
    case Eq => " == "
  }

  /** A readable rendering of a predicate's body, in the spirit of
      `Expression.ToString()`; never empty. */
  function Render(p: Pred): (s: string)
    ensures s != []
  {
    match p
    case Constant(b) => if b then "True" else "False"
    case NotNull(m) => "(x." + m + " != null)"
    case StrMatch(k, m, lit, ci) =>
      "x." + m + "." + KindName(k) + "(\"" + lit + "\", " +
      (if ci then "CurrentCultureIgnoreCase" else "CurrentCulture") + ")"
    case Compare(op, m, n) => "(x." + m + OpText(op) + Numbers.IntToString(n) + ")"
    case ListContains(m, e) => "x." + m + ".Contains(\"" + e + "\")"
    case EqualsText(m, s) => "(x." + m + " == \"" + s + "\")"
    case IsFalse(q) => "IsFalse(" + Render(q) + ")"
    case AndAlso(l, r) => "(" + Render(l) + " AndAlso " + Render(r) + ")"
    case OrElse(l, r) => "(" + Render(l) + " OrElse " + Render(r) + ")"
  }
}
