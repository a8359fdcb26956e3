# Small-step reducer for a tiny expression language

This project models the reducer in `main.cpp`. The language has integer
literals (`Value`), boolean literals (`BoolValue`), addition (`Add`) and a
conditional (`IfElse`). `Step` performs one reduction step. It works left
to right, call by value:

- `Add` reduces its left operand, then its right operand, then adds two
  integers.
- `IfElse` reduces its condition, then returns the branch it selects as it
  stands.

`evaluate` repeats `step` until the term is final. `clone` copies a term.

In the C++ code the term kinds are a virtual class hierarchy. Here they are
one datatype, `Terms.Expression`, and terms are immutable values.

The modules are:

- `Terms`: the term datatype, `IsValue`, `Clone`, the tree size, and the
  fault and result types.
- `Reducer`: `Step`, the evaluation loop `Evaluate` as a method with a
  `while` loop, the function `Normalize` that specifies the loop, and the
  demonstration program from `main`.
- `Contexts`: an independent description of the strategy by evaluation
  contexts. Every non-final term splits uniquely into a context and a
  redex. `Step` contracts that redex and leaves the rest of the term alone.
- `Typing`: a type discipline with progress and preservation. Well-typed
  terms never reach the fault paths.
- `BigStep`: a recursive big-step evaluator, proved to give the same
  result as the evaluation loop on every term, faults included.
- `Examples`: concrete reductions, including the term evaluated by `main`.

Ill-typed operands are handled differently from the C++ code. There,
`step` reads the final operands of an addition and the final condition
through unchecked `static_cast`s (`main.cpp:41`, `main.cpp:60`). On a
boolean addend or an integer condition this is undefined behaviour. The
model returns `Err(TypeMismatch(expected, found))` in those cases instead.
The left addend is checked before the right one. `Evaluate` stops at the
first such fault. The `Typing` module shows that well-typed terms never
produce these faults.

## Model

| member | source | states |
|---|---|---|
| Terms.Clone | main.cpp:68-70 | the copy of every term kind (literals at lines 17 and 26, `Add` at line 44, `IfElse` here) is structurally equal to the original |
| Reducer.Step | main.cpp:35-66 | a step is defined for every non-final term; a successful step makes the tree strictly smaller, which is the termination measure of the evaluation loop |
| Reducer.Normalize | main.cpp:74-79 | stepping until final ends in a final term, or in the fault that stopped it; a final term is its own result |
| Reducer.Evaluate | main.cpp:74-79 | the loop returns only a final term (the loop exits only when the term is final) or the fault a step reported, and its result is exactly `Normalize` of the input |
| Reducer.ExampleProgram | main.cpp:82-93 | evaluating `if true then 5 else (3 + 4)` and reading the integer of the result gives 5 |
| Contexts.Decompose | main.cpp:35-66 | every non-final term is a valid context with a redex in its hole: the hole lies in the left addend, in the right addend only when the left one is final, or in the condition, never in a branch |
| Contexts.UniqueDecomposition | main.cpp:35-66 | a term has at most one such decomposition, so the reduction order is deterministic |
| Contexts.StepInContext | main.cpp:35-66 | stepping a redex inside any valid context contracts the redex and rebuilds the context unchanged: the right addend is untouched while the left one is reduced (lines 36-37), the left addend is untouched while the right one is reduced (lines 38-39), both branches are untouched while the condition is reduced (lines 57-58), two integers are replaced by their sum (line 41), a boolean condition is replaced by the selected branch with no further reduction (lines 60-64), and an operand of the wrong kind is a fault |
| Contexts.StepIsContextReduction | main.cpp:35-66 | `Step` of any non-final term is the contraction of the redex that `Decompose` finds, put back into its context |
| Terms.IsValue | main.cpp:9-27 | a term is final exactly when it is a leaf of the tree: the literals `Value` and `BoolValue` are final, while `Add` and `IfElse`, which have subterms, keep the base class's `false` |
| Contexts.FinalIffNoRedex | main.cpp:9-27 | a term is final exactly when it contains no redex |
| Typing.CanonicalForms | main.cpp:41 | a final term of integer type is an integer literal and one of boolean type a boolean literal, which is what the casts at lines 41 and 60 take for granted; `Progress` uses it to rule out the fault branches |
| Typing.Progress | main.cpp:35-66 | a well-typed non-final term always steps without a fault, so the unchecked casts are never reached on an ill-kinded operand |
| Typing.Preservation | main.cpp:35-66 | a successful step keeps the type of a well-typed term |
| Typing.WellTypedTermsEvaluate | main.cpp:74-79 | evaluating a well-typed term never faults and ends in a value of its type |
| Typing.FaultingTermsAreIllTyped | main.cpp:74-79 | a term whose evaluation faults is ill-typed |
| Typing.IllTypedTermMayEvaluate | main.cpp:56-64 | the converse fails: a conditional whose unselected branch would fault is ill-typed, yet it evaluates to 5, because the unselected branch is never reduced |
| BigStep.Eval | main.cpp:35-66 | the reference evaluator returns only final terms or a fault |
| BigStep.StepPreservesEval | main.cpp:35-66 | a successful step keeps the big-step value of the term; a faulting step reports the fault the big-step evaluator reports |
| BigStep.NormalizeAgreesWithEval | main.cpp:74-79 | the evaluation loop and the big-step evaluator agree on every term |
| BigStep.ArithmeticSoundness | main.cpp:41 | the sum of two integer literals evaluates to the literal of their sum |
| BigStep.ConditionalSoundness | main.cpp:60-64 | a conditional on a boolean literal evaluates like the branch it selects, whatever the other branch is |
| Examples.DemoTerm | main.cpp:83-87 | the first step of `if true then 5 else (3 + 4)` gives 5 directly, without reducing the else branch |
| Examples.NestedSum | main.cpp:38-39 | `1 + (2 + 3)` first reduces its right operand and evaluates to 6 |
| Examples.ElseBranch | main.cpp:62-63 | `if false then 5 else (3 + 4)` evaluates to 7 |
| Examples.BooleanAddend | main.cpp:41 | `true + 1` is a type-mismatch fault naming the boolean addend |
| Examples.LeftBeforeRight | main.cpp:36-39 | in `(1 + 2) + (true + 4)` the left operand is reduced first, and the fault in the right operand appears only afterwards |

## Left out

- Ownership through `std::unique_ptr`, `std::move` and the virtual destructors are memory management. Terms are immutable values here, so `Terms.Clone` returns a term equal to its input instead of a fresh allocation.
- The `nullptr` that `step` returns for a final term (`main.cpp:16`, `main.cpp:25`) is not modelled. `Reducer.Step` requires a non-final term instead, and the evaluation loop only calls it on such terms.
- Reducer.Step: adds with unbounded integers. The C++ `int` addition at `main.cpp:41` can overflow, which is undefined behaviour; no 32-bit range is imposed or modelled.
- Reducer.Step: on an operand of the wrong kind it returns a fault. The C++ code has undefined behaviour there through an unchecked cast (`main.cpp:41`, `main.cpp:60`).
- The type discipline in `Typing` is not part of the C++ code. It is a sufficient condition: well-typed terms never reach the unchecked casts (`Typing.Progress`, `Typing.WellTypedTermsEvaluate`), and a term that faults is ill-typed (`Typing.FaultingTermsAreIllTyped`). It is not necessary: some ill-typed terms also evaluate without a fault, for example a conditional whose unselected branch has another type (`Typing.IllTypedTermMayEvaluate`).
- The console output of `main` (`main.cpp:93`) is I/O. `Reducer.ExampleProgram` returns the printed integer instead.
- There is no step bound ("fuel") on the evaluation loop, because the C++ loop has none. Termination is proved from the shrinking tree size instead.
