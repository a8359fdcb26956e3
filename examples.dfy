/**
 Concrete reductions: the demonstration term of the program and a few
 others that show the order of reduction and the fault path.
 */
module Examples {
  import opened Terms
  import opened Reducer

  /** The first step of `if true then 5 else (3 + 4)` already drops the
      else branch without reducing it. */
  lemma DemoTerm()
    ensures Step(IfElse(BoolValue(true), Value(5), Add(Value(3), Value(4)))) == Ok(Value(5))
  {
  }

  /** `1 + (2 + 3)` is 6: the right operand is reduced while the left one is final. */
  lemma NestedSum()
    ensures Step(Add(Value(1), Add(Value(2), Value(3)))) == Ok(Add(Value(1), Value(5)))
    ensures Normalize(Add(Value(1), Add(Value(2), Value(3)))) == Ok(Value(6))
  {
  }

  /** `if false then 5 else (3 + 4)` is 7. */
  lemma ElseBranch()
    ensures Normalize(IfElse(BoolValue(false), Value(5), Add(Value(3), Value(4)))) == Ok(Value(7))
  {
  }

  /** `true + 1` is a fault naming the boolean addend, not an integer. */
  lemma BooleanAddend()
    ensures Normalize(Add(BoolValue(true), Value(1))) == Err(TypeMismatch(IntType, BoolValue(true)))
  {
  }

  /** `(1 + 2) + (true + 4)`: the left operand is reduced first, so the
      fault in the right operand surfaces only after the left one is final. */
  lemma LeftBeforeRight()
    ensures Step(Add(Add(Value(1), Value(2)), Add(BoolValue(true), Value(4))))
         == Ok(Add(Value(3), Add(BoolValue(true), Value(4))))
    ensures Normalize(Add(Add(Value(1), Value(2)), Add(BoolValue(true), Value(4))))
         == Err(TypeMismatch(IntType, BoolValue(true)))
  {
  }
}
