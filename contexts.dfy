/**
 An independent description of the reduction strategy by evaluation
 contexts: a non-final term is uniquely a context with a redex in its hole,
 and one step contracts that redex and leaves the context alone. The shape
 of the contexts is what "left to right, call by value, branches untouched"
 means: the hole may sit in the left operand of an addition, in its right
 operand once the left one is final, or in the condition of a conditional,
 and never in a branch.
 */
module Contexts {
  import opened Terms
  import opened Reducer

  datatype Context =
    | Hole
    | AddLeft(inner: Context, rightOperand: Expression)
    | AddRight(leftOperand: Expression, inner: Context)
    | IfCondition(inner: Context, thenBranch: Expression, elseBranch: Expression)

  /** The right operand of an addition is entered only once the left one is final. */
  predicate Valid(c: Context) {
    match c
    case Hole => true
    case AddLeft(k, _) => Valid(k)
    case AddRight(v, k) => IsValue(v) && Valid(k)
    case IfCondition(k, _, _) => Valid(k)
  }

  /** The term obtained by putting `e` into the hole of `c`. */
  function Plug(c: Context, e: Expression): Expression {
    match c
    case Hole => e
    case AddLeft(k, r) => Add(Plug(k, e), r)
    case AddRight(v, k) => Add(v, Plug(k, e))
    case IfCondition(k, t, f) => IfElse(Plug(k, e), t, f)
  }

  /** A term whose operands are all final, so that it rewrites at the root. */
  predicate IsRedex(e: Expression) {
    match e
    case Add(l, r) => IsValue(l) && IsValue(r)
    case IfElse(c, _, _) => IsValue(c)
    case _ => false
  }

  /** The rewrite of a redex at the root: the sum of two integers, the
      selected branch as it stands, or a fault naming the final operand of
      the wrong kind (the left addend is examined before the right one). */
  function Contract(e: Expression): Result<Expression>
    requires IsRedex(e)
  {
    match e
    case Add(l, r) =>
      if l.Value? && r.Value? then Ok(Value(l.number + r.number))
      else Err(TypeMismatch(IntType, if l.Value? then r else l))
    case IfElse(c, t, f) =>
      if c.BoolValue? then Ok(if c.truth then t else f)
      else Err(TypeMismatch(BoolType, c))
  }

  /** Puts a successful contraction back into the context; a fault passes through. */
  function Lift(c: Context, r: Result<Expression>): Result<Expression> {
    match r
    case Ok(e) => Ok(Plug(c, e))
    case Err(f) => Err(f)
  }

  /** A term with a redex in a hole is never final. */
  lemma PlugRedexIsNotValue(c: Context, r: Expression)
    requires IsRedex(r)
    ensures !IsValue(Plug(c, r))
  {
  }

  /** Splits a non-final term into the context and the redex that the next
      step rewrites, following the same descent as Step. */
  function Decompose(e: Expression): (d: (Context, Expression))
    requires !IsValue(e)
    ensures Valid(d.0) && IsRedex(d.1) && Plug(d.0, d.1) == e
  {
    match e
    case Add(l, r) =>
      if !IsValue(l) then
        var (k, x) := Decompose(l);
        (AddLeft(k, r), x)
      else if !IsValue(r) then
        var (k, x) := Decompose(r);
        (AddRight(l, k), x)
      else
        (Hole, e)
    case IfElse(c, t, f) =>
      if !IsValue(c) then
        var (k, x) := Decompose(c);
        (IfCondition(k, t, f), x)
      else
        (Hole, e)
  }

  /** The strategy is deterministic: a term has at most one decomposition. */
  lemma {:induction false} UniqueDecomposition(c1: Context, r1: Expression, c2: Context, r2: Expression)
    requires Valid(c1) && IsRedex(r1)
    requires Valid(c2) && IsRedex(r2)
    requires Plug(c1, r1) == Plug(c2, r2)
    ensures c1 == c2 && r1 == r2
  {
    if c1.Hole? || c2.Hole? {
      if !c1.Hole? {
        PlugRedexIsNotValue(c1.inner, r1);
      }
      if !c2.Hole? {
        PlugRedexIsNotValue(c2.inner, r2);
      }
    } else {
      PlugRedexIsNotValue(c1.inner, r1);
      PlugRedexIsNotValue(c2.inner, r2);
      match (c1, c2)
      case (AddLeft(k1, _), AddLeft(k2, _)) =>
        UniqueDecomposition(k1, r1, k2, r2);
      case (AddRight(_, k1), AddRight(_, k2)) =>
        UniqueDecomposition(k1, r1, k2, r2);
      case (IfCondition(k1, _, _), IfCondition(k2, _, _)) =>
        UniqueDecomposition(k1, r1, k2, r2);
      case _ =>
    }
  }

  /** One step contracts the redex in the hole of a valid context and
      rebuilds the context around the result, untouched; a fault of the
      redex is the fault of the whole step. */
  lemma {:induction false} StepInContext(c: Context, r: Expression)
    requires Valid(c) && IsRedex(r)
    ensures !IsValue(Plug(c, r))
    ensures Step(Plug(c, r)) == Lift(c, Contract(r))
  {
    PlugRedexIsNotValue(c, r);
    match c
    case Hole =>
    case AddLeft(k, _) =>
      StepInContext(k, r);
    case AddRight(_, k) =>
      StepInContext(k, r);
    case IfCondition(k, _, _) =>
      StepInContext(k, r);
  }

  /** Step is exactly context reduction: it rewrites the redex that
      Decompose finds and nothing else. */
  lemma StepIsContextReduction(e: Expression)
    requires !IsValue(e)
    ensures Step(e) == Lift(Decompose(e).0, Contract(Decompose(e).1))
  {
    var (c, r) := Decompose(e);
    StepInContext(c, r);
  }

  /** The final terms are exactly the terms that contain no redex. */
  lemma FinalIffNoRedex(e: Expression)
    ensures IsValue(e) <==> !exists c, r :: Valid(c) && IsRedex(r) && Plug(c, r) == e
  {
    if !IsValue(e) {
      var (c, r) := Decompose(e);
      assert Valid(c) && IsRedex(r) && Plug(c, r) == e;
      assert exists c', r' :: Valid(c') && IsRedex(r') && Plug(c', r') == e;
    } else {
      forall c, r | Valid(c) && IsRedex(r)
        ensures Plug(c, r) != e
      {
        PlugRedexIsNotValue(c, r);
      }
    }
  }
}
