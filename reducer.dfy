/**
 The reducer proper: one left-to-right, call-by-value reduction step, and
 the loop that repeats it until the term is final.
 */
module Reducer {
  import opened Terms

  /** One reduction step of a term that is not final. Add reduces its left
      operand first, then its right one, then adds two integers; IfElse
      reduces its condition, then selects a branch without reducing it.
      A final operand of the wrong kind is reported as a fault instead of
      being reinterpreted. Every successful step shrinks the tree. */
  function Step(e: Expression): (r: Result<Expression>)
    requires !IsValue(e)
    ensures r.Ok? ==> Size(r.value) < Size(e)
  {
    match e
    case Add(l, rt) =>
      if !IsValue(l) then
        match Step(l)
        case Ok(l') => Ok(Add(l', Clone(rt)))
        case Err(f) => Err(f)
      else if !IsValue(rt) then
        match Step(rt)
        case Ok(rt') => Ok(Add(Clone(l), rt'))
        case Err(f) => Err(f)
      else if !l.Value? then
        Err(TypeMismatch(IntType, l))
      else if !rt.Value? then
        Err(TypeMismatch(IntType, rt))
      else
        Ok(Value(l.number + rt.number))
    case IfElse(c, t, f) =>
      if !IsValue(c) then
        match Step(c)
        case Ok(c') => Ok(IfElse(c', Clone(t), Clone(f)))
        case Err(fault) => Err(fault)
      else if !c.BoolValue? then
        Err(TypeMismatch(BoolType, c))
      else if c.truth then
        Ok(Clone(t))
      else
        Ok(Clone(f))
  }

  /** The outcome of stepping `e` until it is final: the final value, or the
      first fault a step reports. */
  function Normalize(e: Expression): (r: Result<Expression>)
    ensures r.Ok? ==> IsValue(r.value)
    ensures IsValue(e) ==> r == Ok(e)
    decreases Size(e)
  {
    if IsValue(e) then Ok(e)
    else
      match Step(e)
      case Ok(e') => Normalize(e')
      case Err(f) => Err(f)
  }

  /** The evaluation loop: overwrite the current term with its successor
      while it is not final. Returns only a final value, or the fault that
      stopped the reduction. */
  method Evaluate(e: Expression) returns (r: Result<Expression>)
    ensures r == Normalize(e)
    ensures r.Ok? ==> IsValue(r.value)
  {
    var expr := e;
    while !IsValue(expr)
      invariant Normalize(expr) == Normalize(e)
      decreases Size(expr)
    {
      var next := Step(expr);
      if next.Err? {
        return Err(next.fault);
      }
      expr := next.value;
    }
    return Ok(expr);
  }

  /** The demonstration program: `if true then 5 else (3 + 4)` is evaluated
      and the integer of its result is read off. */
  method ExampleProgram() returns (result: int)
    ensures result == 5
  {
    var expr := IfElse(BoolValue(true), Value(5), Add(Value(3), Value(4)));
    var r := Evaluate(expr);
    assert Step(expr) == Ok(Value(5));
    result := r.value.number;
  }
}
