/**
 The term language of the small-step reducer: integer and boolean values,
 addition and a two-way conditional. The four term kinds of main.cpp
 (Value, BoolValue, Add, IfElse) become the constructors of one datatype;
 each subterm is owned by exactly one parent, so terms are plain trees.
 */
module Terms {

  /** The two kinds of final values an operand position can demand. */
  datatype Ty = IntType | BoolType

  datatype Expression =
    | Value(number: int)
    | BoolValue(truth: bool)
    | Add(left: Expression, right: Expression)
    | IfElse(condition: Expression, trueBranch: Expression, falseBranch: Expression)

  /** A final operand of the wrong kind: `found` sits where a value of type
      `expected` is needed (an addend that is not an integer, a condition
      that is not a boolean). */
  datatype Fault = TypeMismatch(expected: Ty, found: Expression)

  datatype Result<T> = Ok(value: T) | Err(fault: Fault)

  datatype Option<T> = None | Some(get: T)

  /** Final terms: only the two literal kinds; Add and IfElse keep the
      default answer `false` of the base class. The final terms are exactly
      the leaves of the tree. */
  predicate IsValue(e: Expression)
    ensures IsValue(e) <==> Size(e) == 1
  {
    match e
    case Value(_) => true
    case BoolValue(_) => true
    case _ => false
  }

  /** Number of nodes of the tree; every reduction step makes it smaller. */
  function Size(e: Expression): nat {
    match e
    case Value(_) => 1
    case BoolValue(_) => 1
    case Add(l, r) => 1 + Size(l) + Size(r)
    case IfElse(c, t, f) => 1 + Size(c) + Size(t) + Size(f)
  }

  /** A deep copy, rebuilt node by node from copies of the subterms. */
  function Clone(e: Expression): (copy: Expression)
    ensures copy == e
  {
    match e
    case Value(n) => Value(n)
    case BoolValue(b) => BoolValue(b)
    case Add(l, r) => Add(Clone(l), Clone(r))
    case IfElse(c, t, f) => IfElse(Clone(c), Clone(t), Clone(f))
  }
}
