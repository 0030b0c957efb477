/** The recursive evaluator of ConcurrentEquationGenerator.operate: for one
    partition it tries, depth first, `+`, `-`, `*` and (when the guard allows)
    `/` before every operand after the first, and collects, in the order the
    walk reaches them, the texts of the equations whose running result equals
    the target. */
module Evaluator {
  import opened Decimal
  import opened JavaLong
  import opened Partitioning
  import opened Expressions

  /** The text built so far: on the first call the equation is empty and the
      running result (the first operand) starts it. */
  function EquationString(equation: string, result: int): string {
    if equation == [] then LongToString(result) else equation
  }

  /** 4^n: the leaves of a walk with n operands left, branching four ways. */
  function Pow4(n: nat): (p: nat)
    ensures p >= 1
  {
    if n == 0 then 1 else 4 * Pow4(n - 1)
  }

  /** Every equation text that operate(operands, result, equation) would try
      to commit, in the order it reaches them. The walk branches at most four
      ways per operand left, so it tries at most 4^n texts. */
  function Walk(operands: PartitionedInput, result: int, equation: string, target: int): (r: seq<string>)
    decreases |operands.operands|
    ensures |r| <= Pow4(|operands.operands|)
  {
    var equationString := EquationString(equation, result);
    if operands.operands == [] then
      if result == target then [equationString + " = " + LongToString(target)] else []
    else
      var nextOperand := operands.NextOperand();
      Walk(operands.RemoveNextOperand(), Wrap(result + nextOperand),
           equationString + " + " + LongToString(nextOperand), target)
      + Walk(operands.RemoveNextOperand(), Wrap(result - nextOperand),
             equationString + " - " + LongToString(nextOperand), target)
      + Walk(operands.RemoveNextOperand(), Wrap(result * nextOperand),
             equationString + " * " + LongToString(nextOperand), target)
      + (if nextOperand != 0 && Rem(result, nextOperand) == 0 then
           Walk(operands.RemoveNextOperand(), Div(result, nextOperand),
                equationString + " / " + LongToString(nextOperand), target)
         else [])
  }

  /** Walk unfolded once, in the shape of operate's four recursive calls. */
  lemma WalkOnce(operands: PartitionedInput, result: int, equation: string, target: int)
    requires operands.operands != []
    ensures var text, v, rest := EquationString(equation, result), operands.NextOperand(), operands.RemoveNextOperand();
      Walk(operands, result, equation, target)
      == Walk(rest, Wrap(result + v), text + " + " + LongToString(v), target)
         + Walk(rest, Wrap(result - v), text + " - " + LongToString(v), target)
         + Walk(rest, Wrap(result * v), text + " * " + LongToString(v), target)
         + (if v != 0 && Rem(result, v) == 0
            then Walk(rest, Div(result, v), text + " / " + LongToString(v), target) else [])
  {
    WalkUnfold(operands, result, equation, target);
    OperatorTexts(EquationString(equation, result), operands.NextOperand());
  }

  // ---------------------------------------------------------------------
  // The same search on structured steps

  /** The step sequences over ops that reach target from acc, depth first in
      the order `+`, `-`, `*`, `/`. */
  function Solutions(ops: seq<int>, acc: int, target: int): seq<seq<Step>>
    decreases |ops|, 1
  {
    if ops == [] then (if acc == target then [[]] else [])
    else
      Branch(ops, acc, target, Plus) + Branch(ops, acc, target, Minus)
      + Branch(ops, acc, target, Times) + Branch(ops, acc, target, Divide)
  }

  /** The solutions whose first step is op. */
  function Branch(ops: seq<int>, acc: int, target: int, op: Op): seq<seq<Step>>
    requires ops != []
    decreases |ops|, 0
  {
    if Legal(acc, op, ops[0]) then
      PrefixAll(Step(op, ops[0]), Solutions(ops[1..], Apply(acc, op, ops[0]), target))
    else []
  }

  /** sol uses exactly the operands ops, in order, and evaluates legally from
      acc to target. */
  predicate Solves(ops: seq<int>, acc: int, target: int, sol: seq<Step>) {
    Operands(sol) == ops && LegalFrom(acc, sol) && EvalFrom(acc, sol) == target
  }

  lemma BranchMembership(ops: seq<int>, acc: int, target: int, op: Op, sol: seq<Step>)
    requires ops != []
    ensures sol in Branch(ops, acc, target, op) <==>
      sol != [] && sol[0] == Step(op, ops[0]) && Legal(acc, op, ops[0]) &&
      sol[1..] in Solutions(ops[1..], Apply(acc, op, ops[0]), target)
  {
    if Legal(acc, op, ops[0]) {
      var subs := Solutions(ops[1..], Apply(acc, op, ops[0]), target);
      if sol in Branch(ops, acc, target, op) {
        var i :| 0 <= i < |subs| && PrefixAll(Step(op, ops[0]), subs)[i] == sol;
        assert sol[1..] == subs[i];
      }
      if sol != [] && sol[0] == Step(op, ops[0]) && sol[1..] in subs {
        var i :| 0 <= i < |subs| && subs[i] == sol[1..];
        assert PrefixAll(Step(op, ops[0]), subs)[i] == sol;
      }
    }
  }

  lemma SolvesStep(ops: seq<int>, acc: int, target: int, sol: seq<Step>)
    requires ops != []
    ensures Solves(ops, acc, target, sol) <==>
      sol != [] && sol[0].operand == ops[0] && Legal(acc, sol[0].op, ops[0]) &&
      Solves(ops[1..], Apply(acc, sol[0].op, ops[0]), target, sol[1..])
  {
    if sol != [] {
      assert Operands(sol) == [sol[0].operand] + Operands(sol[1..]);
    }
  }

  /** A step sequence is among the solutions exactly when it uses the operands
      in order and evaluates legally to the target. */
  lemma {:induction false} SolutionsExactly(ops: seq<int>, acc: int, target: int, sol: seq<Step>)
    decreases |ops|
    ensures sol in Solutions(ops, acc, target) <==> Solves(ops, acc, target, sol)
  {
    if ops == [] {
      if sol != [] {
        assert |Operands(sol)| != |ops|;
      }
    } else {
      SolvesStep(ops, acc, target, sol);
      BranchMembership(ops, acc, target, Plus, sol);
      BranchMembership(ops, acc, target, Minus, sol);
      BranchMembership(ops, acc, target, Times, sol);
      BranchMembership(ops, acc, target, Divide, sol);
      if sol != [] {
        var op := sol[0].op;
        if Legal(acc, op, ops[0]) {
          SolutionsExactly(ops[1..], Apply(acc, op, ops[0]), target, sol[1..]);
        }
        assert sol[0] == Step(op, sol[0].operand);
      }
    }
  }

  // ---------------------------------------------------------------------
  // The walk renders the solutions

  /** The equation texts of the solutions, each after the given start text. */
  function RenderAll(text: string, sols: seq<seq<Step>>, target: int): (r: seq<string>)
    ensures |r| == |sols|
    ensures forall i :: 0 <= i < |sols| ==> r[i] == text + RenderSteps(sols[i]) + " = " + LongToString(target)
  {
    seq(|sols|, i requires 0 <= i < |sols| => text + RenderSteps(sols[i]) + " = " + LongToString(target))
  }

  lemma RenderAllConcat(text: string, a: seq<seq<Step>>, b: seq<seq<Step>>, target: int)
    ensures RenderAll(text, a + b, target) == RenderAll(text, a, target) + RenderAll(text, b, target)
  {
  }

  lemma ConcatAssoc(a: string, b: string, c: string)
    ensures (a + b) + c == a + (b + c)
  {
  }

  lemma RenderStepsCons(st: Step, sol: seq<Step>)
    ensures RenderSteps([st] + sol) == StepText(st) + RenderSteps(sol)
  {
    assert ([st] + sol)[1..] == sol;
  }

  lemma RenderAllPrepend(text: string, st: Step, sols: seq<seq<Step>>, target: int)
    ensures RenderAll(text + StepText(st), sols, target) == RenderAll(text, PrefixAll(st, sols), target)
  {
    forall i | 0 <= i < |sols|
      ensures RenderAll(text + StepText(st), sols, target)[i] == RenderAll(text, PrefixAll(st, sols), target)[i]
    {
      RenderStepsCons(st, sols[i]);
      ConcatAssoc(text, StepText(st), RenderSteps(sols[i]));
    }
  }

  /** The operator texts appended by the recursive calls of operate. */
  lemma OperatorTexts(text: string, v: int)
    ensures text + " + " + LongToString(v) == text + StepText(Step(Plus, v))
    ensures text + " - " + LongToString(v) == text + StepText(Step(Minus, v))
    ensures text + " * " + LongToString(v) == text + StepText(Step(Times, v))
    ensures text + " / " + LongToString(v) == text + StepText(Step(Divide, v))
  {
    ConcatAssoc(text, " + ", LongToString(v));
    ConcatAssoc(text, " - ", LongToString(v));
    ConcatAssoc(text, " * ", LongToString(v));
    ConcatAssoc(text, " / ", LongToString(v));
  }

  lemma {:induction false} WalkBranch(operands: PartitionedInput, result: int, text: string, target: int, op: Op)
    requires operands.operands != [] && text != []
    requires Legal(result, op, operands.NextOperand())
    decreases |operands.operands|, 0
    ensures Walk(operands.RemoveNextOperand(), Apply(result, op, operands.NextOperand()),
                 text + StepText(Step(op, operands.NextOperand())), target)
      == RenderAll(text, Branch(operands.operands, result, target, op), target)
  {
    var v := operands.NextOperand();
    var rest := operands.RemoveNextOperand();
    assert rest.operands == operands.operands[1..];
    WalkRendersSolutions(rest, Apply(result, op, v), text + StepText(Step(op, v)), target);
    RenderAllPrepend(text, Step(op, v), Solutions(rest.operands, Apply(result, op, v), target), target);
  }

  /** One level of operate: the four recursive calls, in order. */
  lemma WalkUnfold(operands: PartitionedInput, result: int, equation: string, target: int)
    requires operands.operands != []
    ensures var text, v, rest := EquationString(equation, result), operands.NextOperand(), operands.RemoveNextOperand();
      Walk(operands, result, equation, target)
      == Walk(rest, Apply(result, Plus, v), text + StepText(Step(Plus, v)), target)
         + Walk(rest, Apply(result, Minus, v), text + StepText(Step(Minus, v)), target)
         + Walk(rest, Apply(result, Times, v), text + StepText(Step(Times, v)), target)
         + (if Legal(result, Divide, v)
            then Walk(rest, Apply(result, Divide, v), text + StepText(Step(Divide, v)), target) else [])
  {
    OperatorTexts(EquationString(equation, result), operands.NextOperand());
  }

  lemma RenderBranches(text: string, ops: seq<int>, acc: int, target: int)
    requires ops != []
    ensures RenderAll(text, Solutions(ops, acc, target), target)
      == RenderAll(text, Branch(ops, acc, target, Plus), target)
         + RenderAll(text, Branch(ops, acc, target, Minus), target)
         + RenderAll(text, Branch(ops, acc, target, Times), target)
         + RenderAll(text, Branch(ops, acc, target, Divide), target)
  {
    var bp, bm := Branch(ops, acc, target, Plus), Branch(ops, acc, target, Minus);
    var bt, bd := Branch(ops, acc, target, Times), Branch(ops, acc, target, Divide);
    RenderAllConcat(text, bp, bm, target);
    RenderAllConcat(text, bp + bm, bt, target);
    RenderAllConcat(text, bp + bm + bt, bd, target);
  }

  /** operate reaches exactly the solutions of its partition, in depth-first
      `+ - * /` order, each rendered after the text built so far. */
  lemma {:induction false} WalkRendersSolutions(operands: PartitionedInput, result: int, equation: string, target: int)
    decreases |operands.operands|, 2
    ensures Walk(operands, result, equation, target)
      == RenderAll(EquationString(equation, result), Solutions(operands.operands, result, target), target)
  {
    if operands.operands == [] {
      WalkLeaf(operands, result, equation, target);
    } else {
      WalkStep(operands, result, equation, target);
    }
  }

  /** With no operands left, operate commits its text exactly when the
      result is the target. */
  lemma WalkLeaf(operands: PartitionedInput, result: int, equation: string, target: int)
    requires operands.operands == []
    ensures Walk(operands, result, equation, target)
      == RenderAll(EquationString(equation, result), Solutions([], result, target), target)
  {
    var text := EquationString(equation, result);
    assert text + RenderSteps([]) + " = " + LongToString(target) == text + " = " + LongToString(target);
  }

  lemma {:induction false} WalkStep(operands: PartitionedInput, result: int, equation: string, target: int)
    requires operands.operands != []
    decreases |operands.operands|, 1
    ensures Walk(operands, result, equation, target)
      == RenderAll(EquationString(equation, result), Solutions(operands.operands, result, target), target)
  {
    var text, ops := EquationString(equation, result), operands.operands;
    var rp := RenderAll(text, Branch(ops, result, target, Plus), target);
    var rm := RenderAll(text, Branch(ops, result, target, Minus), target);
    var rt := RenderAll(text, Branch(ops, result, target, Times), target);
    var rd := RenderAll(text, Branch(ops, result, target, Divide), target);
    assert Walk(operands, result, equation, target) == rp + rm + rt + rd by {
      WalkUnfold(operands, result, equation, target);
      WalkBranch(operands, result, text, target, Plus);
      WalkBranch(operands, result, text, target, Minus);
      WalkBranch(operands, result, text, target, Times);
      if Legal(result, Divide, operands.NextOperand()) {
        WalkBranch(operands, result, text, target, Divide);
      }
    }
    RenderBranches(text, ops, result, target);
  }

  // ---------------------------------------------------------------------
  // Depth-first order is lexicographic order on operators

  /** x comes before y: at the first step where they differ, x's operator is
      tried earlier. */
  predicate Before(x: seq<Step>, y: seq<Step>)
    decreases |x|
  {
    x != [] && y != [] &&
    (Rank(x[0].op) < Rank(y[0].op) || (x[0] == y[0] && Before(x[1..], y[1..])))
  }

  lemma {:induction false} BeforeIrreflexive(x: seq<Step>)
    decreases |x|
    ensures !Before(x, x)
  {
    if x != [] {
      BeforeIrreflexive(x[1..]);
    }
  }

  lemma {:induction false} BeforeTransitive(x: seq<Step>, y: seq<Step>, z: seq<Step>)
    requires Before(x, y) && Before(y, z)
    decreases |x|
    ensures Before(x, z)
  {
    if x[0] == y[0] && y[0] == z[0] {
      BeforeTransitive(x[1..], y[1..], z[1..]);
    }
  }

  predicate Ascending(sols: seq<seq<Step>>) {
    forall i, j :: 0 <= i < j < |sols| ==> Before(sols[i], sols[j])
  }

  predicate AllBefore(a: seq<seq<Step>>, b: seq<seq<Step>>) {
    forall x, y :: x in a && y in b ==> Before(x, y)
  }

  lemma AscendingConcat(a: seq<seq<Step>>, b: seq<seq<Step>>)
    requires Ascending(a) && Ascending(b) && AllBefore(a, b)
    ensures Ascending(a + b)
  {
    forall i, j | 0 <= i < j < |a + b| ensures Before((a + b)[i], (a + b)[j]) {
      if j < |a| {
        assert (a + b)[i] == a[i] && (a + b)[j] == a[j];
      } else if i < |a| {
        assert (a + b)[i] in a && (a + b)[j] in b;
      } else {
        assert (a + b)[i] == b[i - |a|] && (a + b)[j] == b[j - |a|];
      }
    }
  }

  lemma AscendingPrepend(st: Step, sols: seq<seq<Step>>)
    requires Ascending(sols)
    ensures Ascending(PrefixAll(st, sols))
  {
    var r := PrefixAll(st, sols);
    forall i, j | 0 <= i < j < |r| ensures Before(r[i], r[j]) {
      assert r[i][1..] == sols[i] && r[j][1..] == sols[j];
    }
  }

  /** Every solution in the branch of op starts with op. */
  lemma BranchHeads(ops: seq<int>, acc: int, target: int, op: Op)
    requires ops != []
    ensures forall x: seq<Step> :: x in Branch(ops, acc, target, op) ==> x != [] && x[0].op == op
  {
    forall x: seq<Step> | x in Branch(ops, acc, target, op) ensures x != [] && x[0].op == op {
      BranchMembership(ops, acc, target, op, x);
    }
  }

  lemma {:induction false} BranchAscending(ops: seq<int>, acc: int, target: int, op: Op)
    requires ops != []
    decreases |ops|, 0
    ensures Ascending(Branch(ops, acc, target, op))
  {
    if Legal(acc, op, ops[0]) {
      SolutionsAscending(ops[1..], Apply(acc, op, ops[0]), target);
      AscendingPrepend(Step(op, ops[0]), Solutions(ops[1..], Apply(acc, op, ops[0]), target));
    }
  }

  /** The walk lists its solutions in strictly increasing lexicographic order
      of their operators, so the first one it reaches comes before every other. */
  lemma {:induction false} SolutionsAscending(ops: seq<int>, acc: int, target: int)
    decreases |ops|, 1
    ensures Ascending(Solutions(ops, acc, target))
  {
    if ops != [] {
      var bp, bm := Branch(ops, acc, target, Plus), Branch(ops, acc, target, Minus);
      var bt, bd := Branch(ops, acc, target, Times), Branch(ops, acc, target, Divide);
      BranchAscending(ops, acc, target, Plus);
      BranchAscending(ops, acc, target, Minus);
      BranchAscending(ops, acc, target, Times);
      BranchAscending(ops, acc, target, Divide);
      BranchHeads(ops, acc, target, Plus);
      BranchHeads(ops, acc, target, Minus);
      BranchHeads(ops, acc, target, Times);
      BranchHeads(ops, acc, target, Divide);
      AscendingConcat(bp, bm);
      AscendingConcat(bp + bm, bt);
      AscendingConcat(bp + bm + bt, bd);
    }
  }

  // ---------------------------------------------------------------------
  // One task: operate(p.removeNextOperand(), p.getNextOperand(), "")

  /** The equation texts partition p's task tries to commit. */
  function TaskEquations(p: PartitionedInput, target: int): (r: seq<string>)
    ensures |r| <= Pow4(if p.operands == [] then 0 else |p.operands| - 1)
  {
    Walk(p.RemoveNextOperand(), p.NextOperand(), "", target)
  }

  /** The solutions of p's task, as structured steps. */
  function TaskSolutions(p: PartitionedInput, target: int): seq<seq<Step>> {
    Solutions(p.RemoveNextOperand().operands, p.NextOperand(), target)
  }

  predicate NonNegative(p: PartitionedInput) {
    forall i :: 0 <= i < |p.operands| ==> p.operands[i] >= 0
  }

  /** A task's texts are the rendered equations of its solutions, in order;
      the first is lexicographically least. */
  lemma TaskEquationsAreSolutions(p: PartitionedInput, target: int)
    ensures |TaskEquations(p, target)| == |TaskSolutions(p, target)|
    ensures forall i :: 0 <= i < |TaskSolutions(p, target)| ==>
      TaskEquations(p, target)[i] == EquationText(Equation(p.NextOperand(), TaskSolutions(p, target)[i], target))
    ensures Ascending(TaskSolutions(p, target))
  {
    var rest := p.RemoveNextOperand();
    WalkRendersSolutions(rest, p.NextOperand(), "", target);
    SolutionsAscending(rest.operands, p.NextOperand(), target);
  }

  /** The i-th text of p's task is the rendering of its i-th solution,
      which uses p's operands, evaluates to the target and parses back. */
  lemma TaskEquationParses(p: PartitionedInput, target: int, i: nat)
    requires NonNegative(p)
    requires i < |TaskSolutions(p, target)|
    ensures Solves(p.RemoveNextOperand().operands, p.NextOperand(), target, TaskSolutions(p, target)[i])
    ensures i < |TaskEquations(p, target)|
    ensures TaskEquations(p, target)[i] == EquationText(Equation(p.NextOperand(), TaskSolutions(p, target)[i], target))
    ensures ParseEquation(TaskEquations(p, target)[i]) == Some(Equation(p.NextOperand(), TaskSolutions(p, target)[i], target))
  {
    TaskEquationsAreSolutions(p, target);
    var sols := TaskSolutions(p, target);
    var e := Equation(p.NextOperand(), sols[i], target);
    SolutionsExactly(p.RemoveNextOperand().operands, p.NextOperand(), target, sols[i]);
    assert NonNegativeOperands(e.steps) by {
      forall k | 0 <= k < |e.steps| ensures e.steps[k].operand >= 0 {
        assert e.steps[k].operand == Operands(e.steps)[k] == p.operands[k + 1];
      }
    }
    ParseEquationOfText(e);
  }

  /** Soundness: every text a task commits is the rendering of an equation
      over a task's operands, in order, that evaluates legally, left to
      right, to the target. */
  lemma TaskEquationSound(p: PartitionedInput, target: int, s: string)
    requires NonNegative(p)
    requires s in TaskEquations(p, target)
    ensures ParseEquation(s).Some?
    ensures s == EquationText(ParseEquation(s).value)
    ensures ParseEquation(s).value.target == target
    ensures ParseEquation(s).value.first == p.NextOperand()
    ensures Operands(ParseEquation(s).value.steps) == p.RemoveNextOperand().operands
    ensures Holds(ParseEquation(s).value)
  {
    TaskEquationsAreSolutions(p, target);
    var i :| 0 <= i < |TaskEquations(p, target)| && TaskEquations(p, target)[i] == s;
    TaskEquationParses(p, target, i);
  }

  /** Completeness: every equation over a task's operands that evaluates to
      the target is among the texts a task tries to commit. */
  lemma TaskEquationComplete(p: PartitionedInput, target: int, e: Equation)
    requires e.target == target && e.first == p.NextOperand()
    requires Operands(e.steps) == p.RemoveNextOperand().operands
    requires Holds(e)
    ensures EquationText(e) in TaskEquations(p, target)
  {
    TaskEquationsAreSolutions(p, target);
    var sols := TaskSolutions(p, target);
    SolutionsExactly(p.RemoveNextOperand().operands, p.NextOperand(), target, e.steps);
    var i :| 0 <= i < |sols| && sols[i] == e.steps;
    assert TaskEquations(p, target)[i] == EquationText(e);
  }
}
