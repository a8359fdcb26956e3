/**
 A big-step reference evaluator, written as direct recursion over the term,
 and the proof that the small-step evaluation loop computes exactly it,
 faults included.
 */
module BigStep {
  import opened Terms
  import opened Reducer

  /** The value of a term: operands left to right, the condition before
      the one branch it selects. */
  function Eval(e: Expression): (r: Result<Expression>)
    ensures r.Ok? ==> IsValue(r.value)
  {
    match e
    case Value(_) => Ok(e)
    case BoolValue(_) => Ok(e)
    case Add(l, rt) =>
      (match Eval(l)
       case Err(f) => Err(f)
       case Ok(a) =>
         match Eval(rt)
         case Err(f) => Err(f)
         case Ok(b) =>
           if !a.Value? then Err(TypeMismatch(IntType, a))
           else if !b.Value? then Err(TypeMismatch(IntType, b))
           else Ok(Value(a.number + b.number)))
    case IfElse(c, t, f) =>
      match Eval(c)
      case Err(fault) => Err(fault)
      case Ok(v) =>
        if !v.BoolValue? then Err(TypeMismatch(BoolType, v))
        else if v.truth then Eval(t)
        else Eval(f)
  }

  /** A successful step keeps the value of the term; a faulting step
      reports the same fault as the reference evaluator. */
  lemma {:induction false} StepPreservesEval(e: Expression)
    requires !IsValue(e)
    ensures Step(e).Ok? ==> Eval(Step(e).value) == Eval(e)
    ensures Step(e).Err? ==> Eval(e) == Err(Step(e).fault)
  {
    match e
    case Add(l, r) =>
      if !IsValue(l) {
        StepPreservesEval(l);
      } else if !IsValue(r) {
        StepPreservesEval(r);
      }
    case IfElse(c, _, _) =>
      if !IsValue(c) {
        StepPreservesEval(c);
      }
  }

  /** The evaluation loop and the reference evaluator agree on every term. */
  lemma {:induction false} NormalizeAgreesWithEval(e: Expression)
    ensures Normalize(e) == Eval(e)
    decreases Size(e)
  {
    if !IsValue(e) {
      StepPreservesEval(e);
      if Step(e).Ok? {
        NormalizeAgreesWithEval(Step(e).value);
      }
    }
  }

  /** Sum of two integer literals. */
  lemma ArithmeticSoundness(a: int, b: int)
    ensures Normalize(Add(Value(a), Value(b))) == Ok(Value(a + b))
  {
  }

  /** A conditional on a literal evaluates like the branch it selects,
      whatever the other branch is. */
  lemma ConditionalSoundness(b: bool, t: Expression, f: Expression)
    ensures Normalize(IfElse(BoolValue(b), t, f)) == Normalize(if b then t else f)
  {
  }
}
