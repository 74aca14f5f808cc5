/** Option and Result values standing in for the C# `null` return and for
    the exceptions that compiling a rule can raise. */
module Results {

  datatype Option<+T> = None | Some(value: T)

  /** Why compiling (or combining) predicates raised an exception. */
  datatype CompileError =
    | MemberNotFound(member: string)     // Expression.Property: no such field or property
    | NullArgument                       // a rule whose Property or Value is null
    | MalformedOperand(operand: string)  // Parse: FormatException
    | OperandOverflow(operand: string)   // Parse: OverflowException
    | OperatorUndefined                  // an expression node applied to operands of the wrong type
    | NullPredicate                      // PredicateBuilder.And/Or given a null predicate
    | InvalidCast                        // a cached expression built for another type
    | NullEnumeration                    // `foreach` over a null collection: NullReferenceException

  datatype Result<+T> = Ok(value: T) | Fail(error: CompileError)
}
