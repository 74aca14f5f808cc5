/** `PredicateBuilder` (after LINQKit): the constant predicates and the
    binary combinators every fold in the repository is built from. */
module PredicateBuilder {
  import opened Predicates

  function True(): (r: Pred)
    ensures forall x :: Holds(r, x)
  {
    Constant(true)
  }

  function False(): (r: Pred)
    ensures forall x :: Refutes(r, x)
  {
    Constant(false)
  }

  /** `expr1 && expr2`: accepts exactly when both accept; a rejecting left
      operand decides the result without evaluating the right one. */
  function And(e1: Pred, e2: Pred): (r: Pred)
    ensures forall x :: Holds(r, x) <==> Holds(e1, x) && Holds(e2, x)
    ensures forall x :: Refutes(e1, x) ==> Refutes(r, x)
    ensures forall x :: Total(e1, x) && Total(e2, x) ==> Total(r, x)
  {
    AndAlso(e1, e2)
  }

  /** `expr1 || expr2`: an accepting left operand decides the result without
      evaluating the right one; otherwise the right one decides. */
  function Or(e1: Pred, e2: Pred): (r: Pred)
    ensures forall x :: Holds(r, x) <==> Holds(e1, x) || (Refutes(e1, x) && Holds(e2, x))
    ensures forall x :: Holds(e1, x) ==> Holds(r, x)
    ensures forall x :: Total(e1, x) && Total(e2, x) ==> Total(r, x)
  {
    OrElse(e1, e2)
  }
}
