/** Left-to-right equations over longs: the operators the search inserts, their
    Java semantics, the text the search renders ("5 + 9 * 1 = 14") and a
    parser that reads that text back. */
module Expressions {
  import opened Decimal
  import opened JavaLong

  datatype Op = Plus | Minus | Times | Divide

  /** Each operand after the first, with the operator written before it. */
  datatype Step = Step(op: Op, operand: int)

  /** An equation "first op1 v1 op2 v2 ... = target". */
  datatype Equation = Equation(first: int, steps: seq<Step>, target: int)

  function Symbol(op: Op): char {
    match op
    case Plus => '+'
    case Minus => '-'
    case Times => '*'
    case Divide => '/'
  }

  function OpOf(c: char): (r: Option<Op>)
    ensures r.Some? ==> Symbol(r.value) == c
    ensures forall op :: Symbol(op) == c ==> r == Some(op)
  {
    if c == '+' then Some(Plus)
    else if c == '-' then Some(Minus)
    else if c == '*' then Some(Times)
    else if c == '/' then Some(Divide)
    else None
  }

  /** Position of the operator in the order the search tries them. */
  function Rank(op: Op): nat {
    match op
    case Plus => 0
    case Minus => 1
    case Times => 2
    case Divide => 3
  }

  /** The search applies `/` only to a non-zero operand that divides the
      running result exactly (the guard `result % v == 0` on Java longs). */
  predicate Legal(acc: int, op: Op, v: int)
    ensures op != Divide ==> Legal(acc, op, v)
    ensures op == Divide ==> (Legal(acc, op, v) <==> v != 0 && acc % v == 0)
  {
    op == Divide ==> v != 0 && (ExactDivision(acc, v); Rem(acc, v) == 0)
  }

  /** One left-to-right step with Java long semantics. */
  function Apply(acc: int, op: Op, v: int): (r: int)
    requires Legal(acc, op, v)
    ensures InRange(r)
    ensures op == Plus ==> (acc + v - r) % MODULUS == 0
    ensures op == Minus ==> (acc - v - r) % MODULUS == 0
    ensures op == Times ==> (acc * v - r) % MODULUS == 0
    ensures op == Divide && InRange(acc) && v > 0 ==> r * v == acc
  {
    match op
    case Plus => Wrap(acc + v)
    case Minus => Wrap(acc - v)
    case Times => Wrap(acc * v)
    case Divide => ExactDivision(acc, v); Div(acc, v)
  }

  /** Every step, applied in order from acc, is legal. */
  predicate LegalFrom(acc: int, steps: seq<Step>)
    decreases |steps|
  {
    steps == [] ||
    (Legal(acc, steps[0].op, steps[0].operand) &&
     LegalFrom(Apply(acc, steps[0].op, steps[0].operand), steps[1..]))
  }

  /** Strict left-to-right evaluation, no operator precedence. */
  function EvalFrom(acc: int, steps: seq<Step>): int
    requires LegalFrom(acc, steps)
    decreases |steps|
  {
    if steps == [] then acc
    else EvalFrom(Apply(acc, steps[0].op, steps[0].operand), steps[1..])
  }

  /** The equation evaluates, left to right and legally, to its right-hand side. */
  predicate Holds(e: Equation) {
    LegalFrom(e.first, e.steps) && EvalFrom(e.first, e.steps) == e.target
  }

  function Operands(steps: seq<Step>): (r: seq<int>)
    ensures |r| == |steps|
    ensures forall i :: 0 <= i < |steps| ==> r[i] == steps[i].operand
  {
    seq(|steps|, i requires 0 <= i < |steps| => steps[i].operand)
  }

  // ---------------------------------------------------------------------
  // Text

  /** " op v": one operator and operand, as String.format("%s op %d") appends them. */
  function StepText(st: Step): string {
    " " + [Symbol(st.op)] + " " + LongToString(st.operand)
  }

  function RenderSteps(steps: seq<Step>): string
    decreases |steps|
  {
    if steps == [] then [] else StepText(steps[0]) + RenderSteps(steps[1..])
  }

  /** The committed text "<expr> = <target>". */
  function EquationText(e: Equation): string {
    LongToString(e.first) + RenderSteps(e.steps) + " = " + LongToString(e.target)
  }

  /** Reads " op v op v ... = t" back into steps and target. */
  function ParseTail(s: string): Option<(seq<Step>, int)>
    decreases |s|
  {
    if |s| >= 3 && s[..3] == " = " then
      match ParseLong(s[3..])
      case Some(t) => Some(([], t))
      case None => None
    else if |s| >= 4 && s[0] == ' ' && s[2] == ' ' && OpOf(s[1]).Some? then
      var rest := s[3..];
      var k := DigitPrefixLength(rest);
      if k == 0 then None
      else
        var step := Step(OpOf(s[1]).value, Value(rest[..k]));
        match ParseTail(rest[k..])
        case Some((steps, t)) => Some(([step] + steps, t))
        case None => None
    else None
  }

  /** Reads an equation text back: a leading number, then the tail. */
  function ParseEquation(s: string): Option<Equation> {
    var k := DigitPrefixLength(s);
    if k == 0 then None
    else
      match ParseTail(s[k..])
      case Some((steps, t)) => Some(Equation(Value(s[..k]), steps, t))
      case None => None
  }

  predicate NonNegativeOperands(steps: seq<Step>) {
    forall i :: 0 <= i < |steps| ==> steps[i].operand >= 0
  }

  /** The text after the leading operand always starts with a blank. */
  lemma TailStartsWithBlank(steps: seq<Step>, t: int)
    ensures (RenderSteps(steps) + " = " + LongToString(t))[0] == ' '
  {
    if steps != [] {
      assert (RenderSteps(steps) + " = " + LongToString(t))[0] == StepText(steps[0])[0];
    }
  }

  lemma ParseTailOfTarget(t: int)
    ensures ParseTail(" = " + LongToString(t)) == Some(([], t))
  {
    var s := " = " + LongToString(t);
    assert s[..3] == " = " && s[3..] == LongToString(t);
    ParseLongOfLongToString(t);
  }

  lemma ParseTailOfStep(st: Step, tail: string)
    requires st.operand >= 0
    requires tail != [] && tail[0] == ' '
    ensures ParseTail(StepText(st) + tail) ==
      match ParseTail(tail)
      case Some((steps, t)) => Some(([st] + steps, t))
      case None => None
  {
    var s := StepText(st) + tail;
    var digits := NatToString(st.operand);
    var pre := [' ', Symbol(st.op), ' '];
    assert StepText(st) == pre + digits;
    assert s == pre + (digits + tail);
    assert s[..3] == pre && s[3..] == digits + tail;
    assert s[..3] != " = " by {
      assert pre[1] != '=';
    }
    assert OpOf(s[1]) == Some(st.op);
    var rest := s[3..];
    DigitPrefixOfAppend(digits, tail);
    assert rest[..|digits|] == digits && rest[|digits|..] == tail;
    ValueOfNatToString(st.operand);
  }

  lemma {:induction false} ParseTailOfRender(steps: seq<Step>, t: int)
    requires NonNegativeOperands(steps)
    decreases |steps|
    ensures ParseTail(RenderSteps(steps) + " = " + LongToString(t)) == Some((steps, t))
  {
    if steps == [] {
      assert RenderSteps(steps) + " = " + LongToString(t) == " = " + LongToString(t);
      ParseTailOfTarget(t);
    } else {
      var rest := steps[1..];
      var tail := RenderSteps(rest) + " = " + LongToString(t);
      NonNegativeRest(steps);
      ParseTailOfRender(rest, t);
      ParseTailOfFirstStep(steps, tail, t);
    }
  }

  lemma NonNegativeRest(steps: seq<Step>)
    requires steps != [] && NonNegativeOperands(steps)
    ensures NonNegativeOperands(steps[1..]) && steps[0].operand >= 0
  {
    assert forall i :: 0 <= i < |steps| - 1 ==> steps[1..][i] == steps[i + 1];
  }

  lemma RenderFirstStep(steps: seq<Step>, t: int)
    requires steps != []
    ensures RenderSteps(steps) + " = " + LongToString(t)
         == StepText(steps[0]) + (RenderSteps(steps[1..]) + " = " + LongToString(t))
  {
  }

  /** One step of the induction: the first step is read off the front of the
      text, and the rest parses as tail does. */
  lemma ParseTailOfFirstStep(steps: seq<Step>, tail: string, t: int)
    requires steps != [] && steps[0].operand >= 0
    requires tail == RenderSteps(steps[1..]) + " = " + LongToString(t)
    requires ParseTail(tail) == Some((steps[1..], t))
    ensures ParseTail(RenderSteps(steps) + " = " + LongToString(t)) == Some((steps, t))
  {
    calc {
      ParseTail(RenderSteps(steps) + " = " + LongToString(t));
      { RenderFirstStep(steps, t); }
      ParseTail(StepText(steps[0]) + tail);
      { TailStartsWithBlank(steps[1..], t); ParseTailOfStep(steps[0], tail); }
      Some(([steps[0]] + steps[1..], t));
      { assert [steps[0]] + steps[1..] == steps; }
      Some((steps, t));
    }
  }

  /** Round trip: the rendered text of an equation with non-negative operands
      parses back to exactly that equation. */
  lemma ParseEquationOfText(e: Equation)
    requires e.first >= 0 && NonNegativeOperands(e.steps)
    ensures ParseEquation(EquationText(e)) == Some(e)
  {
    var s := EquationText(e);
    var digits := NatToString(e.first);
    var tail := RenderSteps(e.steps) + " = " + LongToString(e.target);
    TailStartsWithBlank(e.steps, e.target);
    assert s == digits + tail;
    DigitPrefixOfAppend(digits, tail);
    assert s[..|digits|] == digits && s[|digits|..] == tail;
    ValueOfNatToString(e.first);
    ParseTailOfRender(e.steps, e.target);
  }

  /** An equation text never starts like the search's failure message. */
  lemma EquationTextStartsWithDigit(e: Equation)
    requires e.first >= 0
    ensures IsDigit(EquationText(e)[0])
  {
    assert EquationText(e)[0] == NatToString(e.first)[0];
  }
}
