/**
 A type discipline under which the reducer never meets an operand of the
 wrong kind: additions of integers, conditions that are booleans, and two
 branches of the same type. For such terms the fault results of Step are
 unreachable (progress) and each step keeps the type (preservation), so the
 evaluation loop always ends in a value of the term's type.
 */
module Typing {
  import opened Terms
  import opened Reducer

  function TypeOf(e: Expression): Option<Ty> {
    match e
    case Value(_) => Some(IntType)
    case BoolValue(_) => Some(BoolType)
    case Add(l, r) =>
      if TypeOf(l) == Some(IntType) && TypeOf(r) == Some(IntType) then Some(IntType) else None
    case IfElse(c, t, f) =>
      if TypeOf(c) == Some(BoolType) && TypeOf(t) == TypeOf(f) then TypeOf(t) else None
  }

  /** A final term of type int is an integer literal, of type bool a boolean one. */
  lemma CanonicalForms(v: Expression, t: Ty)
    requires IsValue(v) && TypeOf(v) == Some(t)
    ensures t == IntType <==> v.Value?
    ensures t == BoolType <==> v.BoolValue?
  {
  }

  /** A well-typed term that is not final can always take a step without a fault. */
  lemma {:induction false} Progress(e: Expression, t: Ty)
    requires TypeOf(e) == Some(t) && !IsValue(e)
    ensures Step(e).Ok?
  {
    match e
    case Add(l, r) =>
      if !IsValue(l) {
        Progress(l, IntType);
      } else if !IsValue(r) {
        Progress(r, IntType);
      } else {
        CanonicalForms(l, IntType);
        CanonicalForms(r, IntType);
      }
    case IfElse(c, _, _) =>
      if !IsValue(c) {
        Progress(c, BoolType);
      } else {
        CanonicalForms(c, BoolType);
      }
  }

  /** A step keeps the type of the term. */
  lemma {:induction false} Preservation(e: Expression, t: Ty)
    requires TypeOf(e) == Some(t) && !IsValue(e)
    requires Step(e).Ok?
    ensures TypeOf(Step(e).value) == Some(t)
  {
    match e
    case Add(l, r) =>
      if !IsValue(l) {
        Preservation(l, IntType);
      } else if !IsValue(r) {
        Preservation(r, IntType);
      }
    case IfElse(c, _, _) =>
      if !IsValue(c) {
        Preservation(c, BoolType);
      }
  }

  /** Evaluating a well-typed term never faults and yields a value of its type. */
  lemma {:induction false} WellTypedTermsEvaluate(e: Expression, t: Ty)
    requires TypeOf(e) == Some(t)
    ensures Normalize(e).Ok?
    ensures TypeOf(Normalize(e).value) == Some(t)
    decreases Size(e)
  {
    if !IsValue(e) {
      Progress(e, t);
      Preservation(e, t);
      WellTypedTermsEvaluate(Step(e).value, t);
    }
  }

  /** Only ill-typed terms fault. */
  lemma FaultingTermsAreIllTyped(e: Expression)
    requires Normalize(e).Err?
    ensures TypeOf(e) == None
  {
    if TypeOf(e).Some? {
      WellTypedTermsEvaluate(e, TypeOf(e).get);
    }
  }

  /** The converse fails. This conditional is ill-typed because its
      branches differ in type and the unselected one would fault. It still
      evaluates to 5, because the unselected branch is never reduced. */
  lemma IllTypedTermMayEvaluate()
    ensures TypeOf(IfElse(BoolValue(true), Value(5), Add(BoolValue(true), Value(1)))) == None
    ensures Normalize(IfElse(BoolValue(true), Value(5), Add(BoolValue(true), Value(1)))) == Ok(Value(5))
  {
  }
}
