/** Folding a list of predicates into one with `&&` or `||`: the
    `CombineAnd`, `CombineOr` and `CombinePredicates` helpers, which the
    three compilers each carry a copy of and which behave identically. */
module Combinators {
  import opened Results
  import opened Predicates
  import PredicateBuilder

  /** How the rules of a collection are joined; `And` unless stated otherwise. */
  datatype RuleOperator = And | Or

  /** The left fold `((p0 && p1) && p2) && ...`: accepts exactly when every
      operand accepts, and never throws when no operand does. */
  function AndAll(ps: seq<Pred>): (r: Pred)
    requires |ps| > 0
    ensures forall x :: Holds(r, x) <==> forall i :: 0 <= i < |ps| ==> Holds(ps[i], x)
    ensures forall x :: Refutes(r, x) <==>
      exists i :: 0 <= i < |ps| && Refutes(ps[i], x) && forall j :: 0 <= j < i ==> Holds(ps[j], x)
    ensures forall x :: (forall i :: 0 <= i < |ps| ==> Total(ps[i], x)) ==> Total(r, x)
  {
    if |ps| == 1 then ps[0]
    else
      var prev := AndAll(ps[..|ps| - 1]);
      var r := PredicateBuilder.And(prev, ps[|ps| - 1]);
      AndStep(ps, prev, r);
      r
  }

  /** One step of the `&&` fold: the contract of the fold over all but the
      last operand carries over to the fold over all of them. */
  lemma AndStep(ps: seq<Pred>, prev: Pred, r: Pred)
    requires |ps| > 1
    requires r == AndAlso(prev, ps[|ps| - 1])
    requires var front := ps[..|ps| - 1];
      (forall x :: Holds(prev, x) <==> forall i :: 0 <= i < |front| ==> Holds(front[i], x)) &&
      (forall x :: Refutes(prev, x) <==>
        exists i :: 0 <= i < |front| && Refutes(front[i], x) && forall j :: 0 <= j < i ==> Holds(front[j], x)) &&
      (forall x :: (forall i :: 0 <= i < |front| ==> Total(front[i], x)) ==> Total(prev, x))
    ensures forall x :: Holds(r, x) <==> forall i :: 0 <= i < |ps| ==> Holds(ps[i], x)
    ensures forall x :: Refutes(r, x) <==>
      exists i :: 0 <= i < |ps| && Refutes(ps[i], x) && forall j :: 0 <= j < i ==> Holds(ps[j], x)
    ensures forall x :: (forall i :: 0 <= i < |ps| ==> Total(ps[i], x)) ==> Total(r, x)
  {
    var n := |ps| - 1;
    assert forall i :: 0 <= i < n ==> ps[..n][i] == ps[i];
    forall x
      ensures Refutes(r, x) <==>
        exists i :: 0 <= i < |ps| && Refutes(ps[i], x) && forall j :: 0 <= j < i ==> Holds(ps[j], x)
    {
      if Refutes(r, x) {
        if Refutes(prev, x) {
          var i :| 0 <= i < n && Refutes(ps[i], x) && forall j :: 0 <= j < i ==> Holds(ps[j], x);
        } else {
          assert Holds(prev, x);
          assert Refutes(ps[n], x) && forall j :: 0 <= j < n ==> Holds(ps[j], x);
        }
      }
      if exists i :: 0 <= i < |ps| && Refutes(ps[i], x) && forall j :: 0 <= j < i ==> Holds(ps[j], x) {
        var i :| 0 <= i < |ps| && Refutes(ps[i], x) && forall j :: 0 <= j < i ==> Holds(ps[j], x);
        if i < n {
          assert Refutes(prev, x);
        } else {
          assert Holds(prev, x);
        }
      }
    }
    forall x
      ensures Holds(r, x) <==> forall i :: 0 <= i < |ps| ==> Holds(ps[i], x)
    {
      assert Holds(r, x) <==> Holds(prev, x) && Holds(ps[n], x);
    }
    forall x | forall i :: 0 <= i < |ps| ==> Total(ps[i], x)
      ensures Total(r, x)
    {
      assert Total(prev, x);
    }
  }

  /** The left fold `((p0 || p1) || p2) || ...`: accepts exactly when some
      operand accepts after every earlier one has rejected, and never throws
      when no operand does. */
  function OrAll(ps: seq<Pred>): (r: Pred)
    requires |ps| > 0
    ensures forall x :: Holds(r, x) <==>
      exists i :: 0 <= i < |ps| && Holds(ps[i], x) && forall j :: 0 <= j < i ==> Refutes(ps[j], x)
    ensures forall x :: Refutes(r, x) <==> forall i :: 0 <= i < |ps| ==> Refutes(ps[i], x)
    ensures forall x :: (forall i :: 0 <= i < |ps| ==> Total(ps[i], x)) ==> Total(r, x)
  {
    if |ps| == 1 then ps[0]
    else
      var prev := OrAll(ps[..|ps| - 1]);
      var r := PredicateBuilder.Or(prev, ps[|ps| - 1]);
      OrStep(ps, prev, r);
      r
  }

  /** One step of the `||` fold, dual to `AndStep`. */
  lemma OrStep(ps: seq<Pred>, prev: Pred, r: Pred)
    requires |ps| > 1
    requires r == OrElse(prev, ps[|ps| - 1])
    requires forall x :: Holds(prev, x) <==>
      exists i :: 0 <= i < |ps| - 1 && Holds(ps[i], x) && forall j :: 0 <= j < i ==> Refutes(ps[j], x)
    requires forall x :: Refutes(prev, x) <==> forall i :: 0 <= i < |ps| - 1 ==> Refutes(ps[i], x)
    ensures forall x :: Holds(r, x) <==>
      exists i :: 0 <= i < |ps| && Holds(ps[i], x) && forall j :: 0 <= j < i ==> Refutes(ps[j], x)
    ensures forall x :: Refutes(r, x) <==> forall i :: 0 <= i < |ps| ==> Refutes(ps[i], x)
  {
    var n := |ps| - 1;
    forall x
      ensures Holds(r, x) <==>
        exists i :: 0 <= i < |ps| && Holds(ps[i], x) && forall j :: 0 <= j < i ==> Refutes(ps[j], x)
    {
      if Holds(r, x) {
        if Holds(prev, x) {
          var i :| 0 <= i < n && Holds(ps[i], x) && forall j :: 0 <= j < i ==> Refutes(ps[j], x);
        } else {
          assert Refutes(prev, x);
          assert Holds(ps[n], x) && forall j :: 0 <= j < n ==> Refutes(ps[j], x);
        }
      }
      if exists i :: 0 <= i < |ps| && Holds(ps[i], x) && forall j :: 0 <= j < i ==> Refutes(ps[j], x) {
        var i :| 0 <= i < |ps| && Holds(ps[i], x) && forall j :: 0 <= j < i ==> Refutes(ps[j], x);
        if i < n {
          assert Holds(prev, x);
        } else {
          assert Refutes(prev, x);
        }
      }
    }
    forall x
      ensures Refutes(r, x) <==> forall i :: 0 <= i < |ps| ==> Refutes(ps[i], x)
    {
      if forall i :: 0 <= i < |ps| ==> Refutes(ps[i], x) {
        assert Refutes(prev, x);
      }
      if Refutes(r, x) {
        assert Refutes(prev, x) && Refutes(ps[n], x);
        assert forall i :: 0 <= i < n ==> Refutes(ps[i], x);
      }
    }
  }

  /** What `CombinePredicates` yields: nothing for an empty list, otherwise
      the fold its operator selects. */
  function Combined(ps: seq<Pred>, op: RuleOperator): Option<Pred> {
    if ps == [] then None
    else if op == And then Some(AndAll(ps))
    else Some(OrAll(ps))
  }

  /** On records where no operand throws, the `||` fold accepts exactly when
      some operand accepts. */
  lemma OrAllWhenTotal(ps: seq<Pred>, x: Record)
    requires |ps| > 0
    requires forall i :: 0 <= i < |ps| ==> Total(ps[i], x)
    ensures Total(OrAll(ps), x)
    ensures Holds(OrAll(ps), x) <==> exists i :: 0 <= i < |ps| && Holds(ps[i], x)
  {
    var r := OrAll(ps);
    if exists i :: 0 <= i < |ps| && Holds(ps[i], x) {
      var k :| 0 <= k < |ps| && Holds(ps[k], x);
      assert !Refutes(ps[k], x);
      assert !Refutes(r, x);
    }
    if Holds(r, x) {
      var k :| 0 <= k < |ps| && Holds(ps[k], x) && forall j :: 0 <= j < k ==> Refutes(ps[j], x);
    }
  }

  /** `CombinePredicates` is null exactly for an empty list; otherwise its
      result accepts what every operand accepts (under And) or, on records
      where no operand throws, what some operand accepts (under Or). */
  lemma CombinedMeaning(ps: seq<Pred>, op: RuleOperator, x: Record)
    ensures Combined(ps, op).None? <==> ps == []
    ensures ps != [] && op == And ==>
      (Holds(Combined(ps, op).value, x) <==> forall i :: 0 <= i < |ps| ==> Holds(ps[i], x))
    ensures ps != [] && op == Or && (forall i :: 0 <= i < |ps| ==> Total(ps[i], x)) ==>
      (Holds(Combined(ps, op).value, x) <==> exists i :: 0 <= i < |ps| && Holds(ps[i], x))
  {
    if ps != [] && op == Or && (forall i :: 0 <= i < |ps| ==> Total(ps[i], x)) {
      OrAllWhenTotal(ps, x);
    }
  }

  method CombineAnd(ps: seq<Pred>) returns (r: Option<Pred>)
    ensures r == if ps == [] then None else Some(AndAll(ps))
  {
    if |ps| == 0 {
      return None;
    }
    var acc := ps[0];
    var i := 1;
    while i < |ps|
      invariant 1 <= i <= |ps|
      invariant acc == AndAll(ps[..i])
    {
      assert ps[..i + 1][..i] == ps[..i];
      acc := PredicateBuilder.And(acc, ps[i]);
      i := i + 1;
    }
    assert ps[..|ps|] == ps;
    return Some(acc);
  }

  method CombineOr(ps: seq<Pred>) returns (r: Option<Pred>)
    ensures r == if ps == [] then None else Some(OrAll(ps))
  {
    if |ps| == 0 {
      return None;
    }
    var acc := ps[0];
    var i := 1;
    while i < |ps|
      invariant 1 <= i <= |ps|
      invariant acc == OrAll(ps[..i])
    {
      assert ps[..i + 1][..i] == ps[..i];
      acc := PredicateBuilder.Or(acc, ps[i]);
      i := i + 1;
    }
    assert ps[..|ps|] == ps;
    return Some(acc);
  }

  method CombinePredicates(ps: seq<Pred>, op: RuleOperator) returns (r: Option<Pred>)
    ensures r == Combined(ps, op)
  {
    if |ps| == 0 {
      return None;
    }
    if op == And {
      r := CombineAnd(ps);
    } else {
      r := CombineOr(ps);
    }
  }
}
