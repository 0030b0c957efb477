/** ConcurrentEquationGenerator: one task per partition of the input,
    dispatched in sorted order; each task walks operate over its partition,
    the first equation a task accepts is committed to the single output slot,
    and generate returns that slot. Tasks run one after another here, each to
    completion when it is submitted, so the winner is the first equation in
    dispatch order. */
module Generator {
  import opened Decimal
  import opened JavaLong
  import opened Partitioning
  import opened PartitionProperties
  import opened Expressions
  import opened Evaluator
  import opened Ordering

  /** The slot's text before any commit, as the constructor formats it. It
      never starts like an equation, so it cannot be mistaken for one. */
  function DefaultMessage(input: string, target: int): (r: string)
    ensures r != [] && !IsDigit(r[0])
    ensures r[|r| - 1] == '.'
  {
    "Unable to generate equation for " + input + ", " + LongToString(target) + "."
  }

  /** The slot after the candidates have been offered to the commit in
      order: sealed, it keeps its text; otherwise the first candidate wins. */
  function Settle(current: string, sealed: bool, candidates: seq<string>): (r: string)
    ensures r == current || r in candidates
    ensures sealed ==> r == current
    ensures !sealed && candidates != [] ==> r == candidates[0]
  {
    if sealed || candidates == [] then current else candidates[0]
  }

  /** Offering a then b is offering a + b: the slot is written at most once. */
  lemma SettleConcat(current: string, sealed: bool, a: seq<string>, b: seq<string>)
    ensures Settle(Settle(current, sealed, a), sealed || a != [], b) == Settle(current, sealed, a + b)
  {
    if a != [] {
      assert (a + b)[0] == a[0];
    } else {
      assert a + b == b;
    }
  }

  /** Offering four lists one after another is offering their concatenation,
      and the slot ends sealed exactly when it was or one of them is non-empty. */
  lemma SettleFour(current: string, sealed: bool, w1: seq<string>, w2: seq<string>,
                   w3: seq<string>, w4: seq<string>)
    ensures var s1 := sealed || w1 != [];
            var s2 := s1 || w2 != [];
            var s3 := s2 || w3 != [];
      Settle(Settle(Settle(Settle(current, sealed, w1), s1, w2), s2, w3), s3, w4)
        == Settle(current, sealed, w1 + w2 + w3 + w4)
      && (s3 || w4 != []) == (sealed || w1 + w2 + w3 + w4 != [])
  {
    SettleConcat(current, sealed, w1, w2);
    SettleConcat(current, sealed, w1 + w2, w3);
    SettleConcat(current, sealed, w1 + w2 + w3, w4);
  }

  /** The lists f gives for the elements of ps, one after another. */
  function FlatMap<T, U>(f: T -> seq<U>, ps: seq<T>): seq<U>
    decreases |ps|
  {
    if ps == [] then [] else f(ps[0]) + FlatMap(f, ps[1..])
  }

  lemma {:induction false} FlatMapAppend<T, U>(f: T -> seq<U>, a: seq<T>, b: seq<T>)
    decreases |a|
    ensures FlatMap(f, a + b) == FlatMap(f, a) + FlatMap(f, b)
  {
    if a == [] {
      assert a + b == b;
    } else {
      assert (a + b)[0] == a[0] && (a + b)[1..] == a[1..] + b;
      FlatMapAppend(f, a[1..], b);
      SeqAssoc(f(a[0]), FlatMap(f, a[1..]), FlatMap(f, b));
    }
  }

  lemma FlatMapOne<T, U>(f: T -> seq<U>, p: T)
    ensures FlatMap(f, [p]) == f(p)
  {
    assert [p][1..] == [];
    assert f(p) + [] == f(p);
  }

  /** FlatMap(f, ps) is empty exactly when f gives nothing for every element. */
  lemma {:induction false} FlatMapEmpty<T, U>(f: T -> seq<U>, ps: seq<T>)
    decreases |ps|
    ensures FlatMap(f, ps) == [] <==> forall i :: 0 <= i < |ps| ==> f(ps[i]) == []
  {
    if ps != [] {
      FlatMapEmpty(f, ps[1..]);
      assert forall i :: 1 <= i < |ps| ==> ps[i] == ps[1..][i - 1];
    }
  }

  /** The head of FlatMap(f, ps) is the head of the first non-empty list. */
  lemma {:induction false} FlatMapHead<T, U>(f: T -> seq<U>, ps: seq<T>) returns (i: nat)
    requires FlatMap(f, ps) != []
    decreases |ps|
    ensures i < |ps| && f(ps[i]) != [] && FlatMap(f, ps)[0] == f(ps[i])[0]
    ensures forall k :: 0 <= k < i ==> f(ps[k]) == []
  {
    if f(ps[0]) != [] {
      i := 0;
    } else {
      var k := FlatMapHead(f, ps[1..]);
      i := k + 1;
      assert forall m :: 1 <= m <= k ==> ps[m] == ps[1..][m - 1];
    }
  }

  /** The job run for a partition, as a function. */
  function Task(target: int): PartitionedInput -> seq<string> {
    p => TaskEquations(p, target)
  }

  /** Every equation text the jobs for ps try to commit, in dispatch order. */
  function AllMatches(ps: seq<PartitionedInput>, target: int): seq<string> {
    FlatMap(Task(target), ps)
  }

  /** The jobs for ps try nothing exactly when no single task does. */
  lemma NoMatches(ps: seq<PartitionedInput>, target: int)
    ensures AllMatches(ps, target) == [] <==> forall i :: 0 <= i < |ps| ==> TaskEquations(ps[i], target) == []
  {
    FlatMapEmpty(Task(target), ps);
  }

  /** The first text tried comes from the first task that tries any. */
  lemma FirstMatch(ps: seq<PartitionedInput>, target: int) returns (i: nat)
    requires AllMatches(ps, target) != []
    ensures i < |ps| && TaskEquations(ps[i], target) != []
    ensures AllMatches(ps, target)[0] == TaskEquations(ps[i], target)[0]
    ensures forall k :: 0 <= k < i ==> TaskEquations(ps[k], target) == []
  {
    i := FlatMapHead(Task(target), ps);
  }

  /** How many elements of ps the dispatch loop gets through: every one up to
      and including the first for which f gives something, or all of them. */
  function CountThroughFirst<T, U>(f: T -> seq<U>, ps: seq<T>): (n: nat)
    decreases |ps|
    ensures n <= |ps|
    ensures ps != [] ==> n >= 1
    ensures forall k :: 0 <= k < n - 1 ==> f(ps[k]) == []
    ensures n < |ps| ==> f(ps[n - 1]) != []
  {
    if ps == [] then 0
    else if f(ps[0]) != [] then 1
    else
      var n := 1 + CountThroughFirst(f, ps[1..]);
      assert forall k :: 1 <= k < |ps| ==> ps[k] == ps[1..][k - 1];
      n
  }

  /** CountThroughFirst is n when f gives nothing before the n-th element and
      something for it, or it is the last. */
  lemma {:induction false} CountThroughFirstIs<T, U>(f: T -> seq<U>, s: seq<T>, n: nat)
    requires 1 <= n <= |s|
    requires forall k :: 0 <= k < n - 1 ==> f(s[k]) == []
    requires n == |s| || f(s[n - 1]) != []
    decreases n
    ensures CountThroughFirst(f, s) == n
  {
    if f(s[0]) == [] && n > 1 {
      assert forall k :: 0 <= k < n - 2 ==> s[1..][k] == s[k + 1];
      CountThroughFirstIs(f, s[1..], n - 1);
    }
  }

  /** The number of tasks generate runs over ps from an unsealed slot. */
  function TasksRun(ps: seq<PartitionedInput>, target: int): (n: nat)
    ensures n <= |ps|
    ensures ps != [] ==> n >= 1
    ensures forall k :: 0 <= k < n - 1 ==> TaskEquations(ps[k], target) == []
    ensures n < |ps| ==> TaskEquations(ps[n - 1], target) != []
  {
    CountThroughFirst(Task(target), ps)
  }

  /** Where the dispatch loop stops from an unsealed slot: after all tasks,
      none having tried a text, or right after the first task that tried one. */
  lemma TasksRunAtExit(s: seq<PartitionedInput>, i: nat, target: int)
    requires i <= |s|
    requires (i == |s| && AllMatches(s[..i], target) == [])
      || (0 < i && AllMatches(s[..i - 1], target) == [] && AllMatches(s[..i], target) != [])
    ensures TasksRun(s, target) == i
  {
    CountAtExit(Task(target), s, i);
  }

  lemma CountAtExit<T, U>(f: T -> seq<U>, s: seq<T>, i: nat)
    requires i <= |s|
    requires (i == |s| && FlatMap(f, s[..i]) == [])
      || (0 < i && FlatMap(f, s[..i - 1]) == [] && FlatMap(f, s[..i]) != [])
    ensures CountThroughFirst(f, s) == i
  {
    if i > 0 {
      FlatMapStep(f, s, i - 1);
      assert FlatMap(f, s[..i - 1]) == [];
      assert i == |s| || f(s[i - 1]) != [];
      forall k | 0 <= k < i - 1
        ensures f(s[k]) == []
      {
        FlatMapEmpty(f, s[..i - 1]);
        assert s[..i - 1][k] == s[k];
      }
      CountThroughFirstIs(f, s, i);
    }
  }

  /** Running the job for s[i] after those before it. */
  lemma DispatchOne(s: seq<PartitionedInput>, i: nat, target: int)
    requires i < |s|
    ensures AllMatches(s[..i + 1], target) == AllMatches(s[..i], target) + TaskEquations(s[i], target)
  {
    FlatMapStep(Task(target), s, i);
  }

  /** The jobs for s are those before i followed by the rest. */
  lemma DispatchRest(s: seq<PartitionedInput>, i: nat, target: int)
    requires i <= |s|
    ensures AllMatches(s, target) == AllMatches(s[..i], target) + AllMatches(s[i..], target)
  {
    FlatMapSplit(Task(target), s, i);
  }

  lemma FlatMapStep<T, U>(f: T -> seq<U>, s: seq<T>, i: nat)
    requires i < |s|
    ensures FlatMap(f, s[..i + 1]) == FlatMap(f, s[..i]) + f(s[i])
  {
    assert s[..i + 1] == s[..i] + [s[i]];
    FlatMapAppend(f, s[..i], [s[i]]);
    FlatMapOne(f, s[i]);
  }

  lemma FlatMapSplit<T, U>(f: T -> seq<U>, s: seq<T>, i: nat)
    requires i <= |s|
    ensures FlatMap(f, s) == FlatMap(f, s[..i]) + FlatMap(f, s[i..])
  {
    calc {
      FlatMap(f, s);
      { assert s == s[..i] + s[i..]; }
      FlatMap(f, s[..i] + s[i..]);
      { FlatMapAppend(f, s[..i], s[i..]); }
      FlatMap(f, s[..i]) + FlatMap(f, s[i..]);
    }
  }

  /** What generate returns on a freshly constructed generator. */
  function SearchResult(input: string, target: int): string
    requires IsDigits(input)
  {
    Settle(DefaultMessage(input, target), false, AllMatches(SortByCount(Partitions(input)), target))
  }

  /** e is an equation over the operands of p, in order, that evaluates
      legally, left to right, to target. */
  predicate Answers(p: PartitionedInput, e: Equation, target: int) {
    e.target == target && e.first == p.NextOperand()
    && Operands(e.steps) == p.RemoveNextOperand().operands && Holds(e)
  }

  /** The search state of ConcurrentEquationGenerator: the output slot and
      whether it is sealed (the executor has been shut down). */
  class EquationGenerator {
    const input: string
    const target: int
    /** generatedEquation */
    var equation: string
    /** executorService.isShutdown() */
    var sealed: bool
    var tasksRemaining: nat

    constructor (input: string, target: int)
      requires InRange(target)
      ensures this.input == input && this.target == target
      ensures equation == DefaultMessage(input, target) && !sealed && tasksRemaining == 0
    {
      this.input := input;
      this.target := target;
      equation := DefaultMessage(input, target);
      sealed := false;
      tasksRemaining := 0;
    }

    /** The critical section under the output lock: an unsealed slot takes
        "<expr> = <target>" and is sealed; a sealed one is left alone. */
    method TryCommit(equationString: string)
      modifies this
      ensures sealed
      ensures equation == Settle(old(equation), old(sealed), [equationString + " = " + LongToString(target)])
      ensures tasksRemaining == old(tasksRemaining)
    {
      if !sealed {
        equation := equationString + " = " + LongToString(target);
        sealed := true;
      }
    }

    /** operate: offers the slot, in order, every text Walk lists. */
    method Operate(operands: PartitionedInput, result: int, eq: string)
      modifies this
      decreases |operands.operands|
      ensures sealed == (old(sealed) || Walk(operands, result, eq, target) != [])
      ensures equation == Settle(old(equation), old(sealed), Walk(operands, result, eq, target))
      ensures tasksRemaining == old(tasksRemaining)
    {
      var equationString := EquationString(eq, result);
      if operands.operands == [] {
        if result == target {
          TryCommit(equationString);
        }
      } else {
        var nextOperand := operands.NextOperand();
        var rest := operands.RemoveNextOperand();
        var plus := equationString + " + " + LongToString(nextOperand);
        var minus := equationString + " - " + LongToString(nextOperand);
        var times := equationString + " * " + LongToString(nextOperand);
        var divide := equationString + " / " + LongToString(nextOperand);
        ghost var c0, e0 := sealed, equation;
        ghost var w1 := Walk(rest, Wrap(result + nextOperand), plus, target);
        ghost var w2 := Walk(rest, Wrap(result - nextOperand), minus, target);
        ghost var w3 := Walk(rest, Wrap(result * nextOperand), times, target);
        ghost var w4 := if nextOperand != 0 && Rem(result, nextOperand) == 0 then
            Walk(rest, Div(result, nextOperand), divide, target)
          else [];
        assert Walk(operands, result, eq, target) == w1 + w2 + w3 + w4 by {
          WalkOnce(operands, result, eq, target);
        }
        Operate(rest, Wrap(result + nextOperand), plus);
        Operate(rest, Wrap(result - nextOperand), minus);
        Operate(rest, Wrap(result * nextOperand), times);
        if nextOperand != 0 && Rem(result, nextOperand) == 0 {
          Operate(rest, Div(result, nextOperand), divide);
        }
        SettleFour(e0, c0, w1, w2, w3, w4);
      }
    }

    /** generate: sorts the partitions, runs one task per partition until the
        slot is sealed, seals it and returns it. */
    method Generate() returns (r: string)
      requires IsDigits(input) && Value(input) <= LONG_MAX
      modifies this
      ensures sealed && r == equation
      ensures r == Settle(old(equation), old(sealed), AllMatches(SortByCount(Partitions(input)), target))
      ensures tasksRemaining <= |Partitions(input)|
      ensures !old(sealed) && AllMatches(SortByCount(Partitions(input)), target) == [] ==> tasksRemaining == 0
      ensures old(sealed) ==> tasksRemaining == |Partitions(input)|
      ensures !old(sealed) ==> tasksRemaining == |Partitions(input)| - TasksRun(SortByCount(Partitions(input)), target)
    {
      var operandsList := GetPossibleOperands(input);
      operandsList := SortByCount(operandsList);
      tasksRemaining := |operandsList|;
      var i := 0;
      while i < |operandsList|
        invariant 0 <= i <= |operandsList|
        invariant tasksRemaining == |operandsList| - i
        invariant sealed == (old(sealed) || AllMatches(operandsList[..i], target) != [])
        invariant equation == Settle(old(equation), old(sealed), AllMatches(operandsList[..i], target))
        invariant old(sealed) ==> tasksRemaining == |operandsList|
        invariant !old(sealed) && sealed ==> TasksRun(operandsList, target) == i
      {
        if sealed {
          break;
        }
        var p := operandsList[i];
        ghost var before := AllMatches(operandsList[..i], target);
        Operate(p.RemoveNextOperand(), p.NextOperand(), "");
        tasksRemaining := tasksRemaining - 1;
        DispatchOne(operandsList, i, target);
        SettleConcat(old(equation), old(sealed), before, TaskEquations(p, target));
        if sealed {
          TasksRunAtExit(operandsList, i + 1, target);
        }
        i := i + 1;
      }
      if !sealed {
        TasksRunAtExit(operandsList, i, target);
      }
      DispatchRest(operandsList, i, target);
      SettleConcat(old(equation), old(sealed), AllMatches(operandsList[..i], target), AllMatches(operandsList[i..], target));
      sealed := true;
      r := equation;
    }
  }

  /** A fresh generator's answer for input and target. */
  method GenerateEquation(input: string, target: int) returns (r: string)
    requires IsDigits(input) && Value(input) <= LONG_MAX && InRange(target)
    ensures r == SearchResult(input, target)
  {
    var g := new EquationGenerator(input, target);
    r := g.Generate();
  }

  // ---------------------------------------------------------------------
  // What the search finds

  /** Every partition of a digit string has non-negative operands, so every
      task starts from a non-negative first operand. */
  lemma PartitionsNonNegative(input: string, p: PartitionedInput)
    requires IsDigits(input) && p in Partitions(input)
    ensures NonNegative(p) && p.NextOperand() >= 0
  {
    var j :| 0 <= j < |Partitions(input)| && Partitions(input)[j] == p;
    forall i | 0 <= i < |p.operands| ensures p.operands[i] >= 0 {
      PartitionOperandBounds(input, j, i);
    }
  }

  /** Sorting neither adds nor drops a partition. */
  lemma SortedSame(input: string)
    requires IsDigits(input)
    ensures SortedByCount(SortByCount(Partitions(input)))
    ensures forall p :: p in SortByCount(Partitions(input)) <==> p in Partitions(input)
  {
    var ps := Partitions(input);
    SortSortsAndPermutes(ps);
    forall p ensures p in SortByCount(ps) <==> p in ps {
      assert p in SortByCount(ps) <==> p in multiset(SortByCount(ps));
      assert p in ps <==> p in multiset(ps);
    }
  }

  /** If some task tries an equation, the search returns the first one tried,
      which is the text of an answer over that task's partition. */
  lemma FirstMatchIsAnswer(input: string, target: int) returns (i: nat)
    requires IsDigits(input)
    requires AllMatches(SortByCount(Partitions(input)), target) != []
    ensures var sorted := SortByCount(Partitions(input));
      i < |sorted| && sorted[i] in Partitions(input) && NonNegative(sorted[i])
      && TaskEquations(sorted[i], target) != []
      && SearchResult(input, target) == TaskEquations(sorted[i], target)[0]
      && (forall k :: 0 <= k < i ==> TaskEquations(sorted[k], target) == [])
  {
    var sorted := SortByCount(Partitions(input));
    SortedSame(input);
    i := FirstMatch(sorted, target);
    assert sorted[i] in sorted;
    PartitionsNonNegative(input, sorted[i]);
  }

  /** The search reports failure exactly when no partition of the input has
      an equation, over its operands in order, that evaluates to the target. */
  lemma DefaultIffNoAnswer(input: string, target: int)
    requires IsDigits(input)
    ensures SearchResult(input, target) == DefaultMessage(input, target) <==>
      !exists p, e :: p in Partitions(input) && Answers(p, e, target)
  {
    var sorted := SortByCount(Partitions(input));
    SortedSame(input);
    NoMatches(sorted, target);
    if AllMatches(sorted, target) == [] {
      forall p, e | p in Partitions(input) && Answers(p, e, target)
        ensures TaskEquations(p, target) != [] && p in sorted
      {
        TaskEquationComplete(p, target, e);
      }
    } else {
      var i := FirstMatchIsAnswer(input, target);
      var s := SearchResult(input, target);
      assert s in TaskEquations(sorted[i], target);
      TaskEquationSound(sorted[i], target, s);
      var e := ParseEquation(s).value;
      assert Answers(sorted[i], e, target);
      EquationTextStartsWithDigit(e);
    }
  }

  /** No partition of the input with an answer has fewer operands than p. */
  ghost predicate Fewest(input: string, target: int, p: PartitionedInput)
    requires IsDigits(input)
  {
    forall q, e' :: q in Partitions(input) && Answers(q, e', target) ==> p.Count() <= q.Count()
  }

  /** p is enumerated at some index j, and every partition enumerated before
      j that has an answer has more operands than p. */
  ghost predicate FirstOfItsCount(input: string, target: int, p: PartitionedInput)
    requires IsDigits(input)
  {
    exists j :: (0 <= j < |Partitions(input)| && Partitions(input)[j] == p
      && forall k, e' :: 0 <= k < j && Answers(Partitions(input)[k], e', target) ==>
           Partitions(input)[k].Count() > p.Count())
  }

  /** Among p's answers, e comes first in the order operate tries them
      (`+`, `-`, `*`, `/` at the first difference). */
  ghost predicate FirstTried(p: PartitionedInput, e: Equation, target: int) {
    forall e' :: Answers(p, e', target) ==> e'.steps == e.steps || Before(e.steps, e'.steps)
  }

  /** e answered over p is what the search should report. */
  ghost predicate BestAnswer(input: string, target: int, p: PartitionedInput, e: Equation)
    requires IsDigits(input)
  {
    p in Partitions(input) && Answers(p, e, target)
    && Fewest(input, target, p) && FirstOfItsCount(input, target, p) && FirstTried(p, e, target)
  }

  /** Two fewest-operand partitions with answers, each first of its count,
      are the same. */
  lemma FirstOfItsCountUnique(input: string, target: int, p: PartitionedInput, e: Equation,
                              p': PartitionedInput, e': Equation)
    requires IsDigits(input)
    requires p in Partitions(input) && Answers(p, e, target) && Fewest(input, target, p)
    requires p' in Partitions(input) && Answers(p', e', target) && Fewest(input, target, p')
    requires FirstOfItsCount(input, target, p) && FirstOfItsCount(input, target, p')
    ensures p == p'
  {
    var ps := Partitions(input);
    assert p.Count() == p'.Count() by {
      assert p' in ps && Answers(p', e', target);
      assert p in ps && Answers(p, e, target);
    }
    var j :| 0 <= j < |ps| && ps[j] == p
      && forall k, e'' :: 0 <= k < j && Answers(ps[k], e'', target) ==> ps[k].Count() > p.Count();
    var j' :| 0 <= j' < |ps| && ps[j'] == p'
      && forall k, e'' :: 0 <= k < j' && Answers(ps[k], e'', target) ==> ps[k].Count() > p'.Count();
    FirstIndexUnique(ps, (q: PartitionedInput) => q.Count(),
                     (q: PartitionedInput, x: Equation) => Answers(q, x, target), j, j', e, e');
  }

  /** Two indices of ps, each holding an answered element of the same count
      and each preceded only by answered elements of larger count, coincide. */
  lemma FirstIndexUnique<T, E>(ps: seq<T>, count: T -> int, ans: (T, E) -> bool,
                               j: nat, j': nat, e: E, e': E)
    requires j < |ps| && j' < |ps|
    requires ans(ps[j], e) && ans(ps[j'], e') && count(ps[j]) == count(ps[j'])
    requires forall k, x :: 0 <= k < j && ans(ps[k], x) ==> count(ps[k]) > count(ps[j])
    requires forall k, x :: 0 <= k < j' && ans(ps[k], x) ==> count(ps[k]) > count(ps[j'])
    ensures j == j'
  {
  }

  /** Two answers over p that each come first are the same equation. */
  lemma FirstTriedUnique(p: PartitionedInput, e: Equation, e': Equation, target: int)
    requires Answers(p, e, target) && Answers(p, e', target)
    requires FirstTried(p, e, target) && FirstTried(p, e', target)
    ensures e == e'
  {
    if Before(e.steps, e'.steps) && Before(e'.steps, e.steps) {
      BeforeTransitive(e.steps, e'.steps, e.steps);
      BeforeIrreflexive(e.steps);
      assert false;
    }
  }

  /** There is at most one best answer. */
  lemma BestAnswerUnique(input: string, target: int, p: PartitionedInput, e: Equation,
                         p': PartitionedInput, e': Equation)
    requires IsDigits(input)
    requires BestAnswer(input, target, p, e) && BestAnswer(input, target, p', e')
    ensures p == p' && e == e'
  {
    FirstOfItsCountUnique(input, target, p, e, p', e');
    FirstTriedUnique(p, e, e', target);
  }

  /** When the search succeeds, the result is "<expr> = <target>" for the
      best answer. */
  lemma SearchResultIsBestAnswer(input: string, target: int)
    requires IsDigits(input)
    requires SearchResult(input, target) != DefaultMessage(input, target)
    ensures ParseEquation(SearchResult(input, target)).Some?
    ensures SearchResult(input, target) == EquationText(ParseEquation(SearchResult(input, target)).value)
    ensures exists p :: BestAnswer(input, target, p, ParseEquation(SearchResult(input, target)).value)
  {
    var sorted := SortByCount(Partitions(input));
    SortedSame(input);
    var i := FirstMatchIsAnswer(input, target);
    var p := sorted[i];
    FirstTextIsLeastAnswer(p, target);
    FewestOperands(input, target, i);
    EarliestAmongEqual(input, target, i);
    assert BestAnswer(input, target, p, ParseEquation(SearchResult(input, target)).value);
  }

  /** Collections.sort is stable: the first partition in sorted order whose
      task tries something comes, among the partitions with as many operands,
      after only partitions whose tasks try nothing. */
  lemma EarliestAmongEqual(input: string, target: int, i: nat)
    requires IsDigits(input)
    requires i < |SortByCount(Partitions(input))|
    requires forall k :: 0 <= k < i ==> TaskEquations(SortByCount(Partitions(input))[k], target) == []
    ensures exists j :: (0 <= j < |Partitions(input)| && Partitions(input)[j] == SortByCount(Partitions(input))[i]
      && forall k, e' :: 0 <= k < j && Answers(Partitions(input)[k], e', target) ==>
           Partitions(input)[k].Count() > SortByCount(Partitions(input))[i].Count())
  {
    var ps := Partitions(input);
    var sorted := SortByCount(ps);
    var c := sorted[i].Count();
    var j := StableIndex(ps, i);
    FewestOperands(input, target, i);
    forall k, e' | 0 <= k < j && Answers(ps[k], e', target) ensures ps[k].Count() > c {
      assert ps[k] in ps;
      TaskEquationComplete(ps[k], target, e');
    }
  }

  /** The first text a task tries renders an answer over its partition that
      precedes every other answer over it in the order operate tries them. */
  lemma FirstTextIsLeastAnswer(p: PartitionedInput, target: int)
    requires NonNegative(p) && TaskEquations(p, target) != []
    ensures ParseEquation(TaskEquations(p, target)[0]).Some?
    ensures var e := ParseEquation(TaskEquations(p, target)[0]).value;
      TaskEquations(p, target)[0] == EquationText(e) && Answers(p, e, target)
      && (forall e' :: Answers(p, e', target) ==> e'.steps == e.steps || Before(e.steps, e'.steps))
  {
    var sols := TaskSolutions(p, target);
    TaskEquationsAreSolutions(p, target);
    TaskEquationParses(p, target, 0);
    var e := Equation(p.NextOperand(), sols[0], target);
    forall e' | Answers(p, e', target) ensures e'.steps == e.steps || Before(e.steps, e'.steps) {
      SolutionsExactly(p.RemoveNextOperand().operands, p.NextOperand(), target, e'.steps);
      var m :| 0 <= m < |sols| && sols[m] == e'.steps;
    }
  }

  /** The first task with a match has no more operands than any partition
      with an answer. */
  lemma FewestOperands(input: string, target: int, i: nat)
    requires IsDigits(input)
    requires i < |SortByCount(Partitions(input))|
    requires forall k :: 0 <= k < i ==> TaskEquations(SortByCount(Partitions(input))[k], target) == []
    ensures forall q, e' :: q in Partitions(input) && Answers(q, e', target) ==>
      SortByCount(Partitions(input))[i].Count() <= q.Count()
  {
    var sorted := SortByCount(Partitions(input));
    SortedSame(input);
    forall q, e' | q in Partitions(input) && Answers(q, e', target)
      ensures sorted[i].Count() <= q.Count()
    {
      assert Task(target)(q) != [] by { TaskEquationComplete(q, target, e'); }
      forall k | 0 <= k < i ensures Task(target)(sorted[k]) == [] { }
      FirstNonEmptyIsLeast(sorted, i, Task(target), q);
    }
  }

  /** In a list sorted by operand count, the first element on which f is not
      empty has no more operands than any other such element. */
  lemma FirstNonEmptyIsLeast<U>(sorted: seq<PartitionedInput>, i: nat,
                                f: PartitionedInput -> seq<U>, q: PartitionedInput)
    requires SortedByCount(sorted) && i < |sorted|
    requires forall k :: 0 <= k < i ==> f(sorted[k]) == []
    requires q in sorted && f(q) != []
    ensures sorted[i].Count() <= q.Count()
  {
    var k :| 0 <= k < |sorted| && sorted[k] == q;
    if k > i {
      assert sorted[i].CompareTo(sorted[k]) <= 0;
    }
  }

  /** The result is fully determined: whenever e answered over p is the best
      answer, the search returns the text of e. */
  lemma SearchResultOfBestAnswer(input: string, target: int, p: PartitionedInput, e: Equation)
    requires IsDigits(input)
    requires BestAnswer(input, target, p, e)
    ensures SearchResult(input, target) == EquationText(e)
  {
    DefaultIffNoAnswer(input, target);
    SearchResultIsBestAnswer(input, target);
    var e' := ParseEquation(SearchResult(input, target)).value;
    var p' :| BestAnswer(input, target, p', e');
    BestAnswerUnique(input, target, p, e, p', e');
  }

  // ---------------------------------------------------------------------
  // Scenarios

  /** An equation with no steps evaluates to its first operand. */
  lemma NoStepAnswers(p: PartitionedInput, e: Equation, target: int)
    requires p.RemoveNextOperand().operands == []
    ensures Answers(p, e, target) ==> e.steps == [] && target == p.NextOperand()
  {
    assert |Operands(e.steps)| == |e.steps|;
  }

  /** An equation over two operands has exactly one step. */
  lemma OneStepAnswers(p: PartitionedInput, e: Equation, target: int)
    requires |p.operands| == 2
    ensures Answers(p, e, target) ==>
      |e.steps| == 1 && e.first == p.operands[0] && e.steps[0].operand == p.operands[1]
  {
    assert |Operands(e.steps)| == |e.steps|;
  }

  /** A one-digit input has the single partition holding its value. */
  lemma OneDigitPartitions(x: char)
    requires IsDigit(x)
    ensures Partitions([x]) == [PartitionedInput([DigitValue(x)])]
  {
    PartitionCounts([x]);
    PartitionsCount([x]);
    assert Pow2(0) == 1;
    assert Value([x]) == DigitValue(x) by {
      assert [x][..0] == [];
    }
  }

  /** For a one-digit input whose value is the target, the input alone is
      the best answer. */
  lemma OneDigitBest(x: char)
    requires IsDigit(x)
    ensures BestAnswer([x], DigitValue(x), PartitionedInput([DigitValue(x)]), Equation(DigitValue(x), [], DigitValue(x)))
  {
    var d := DigitValue(x);
    OneDigitPartitions(x);
    var ps := Partitions([x]);
    var p, e := PartitionedInput([d]), Equation(d, [], d);
    forall e' | Answers(p, e', d) ensures e'.steps == e.steps || Before(e.steps, e'.steps) {
      NoStepAnswers(p, e', d);
    }
    assert ps[0] == p;
  }

  /** The text of an equation without steps over single digits. */
  lemma NoStepText(a: nat, t: nat)
    requires a < 10 && t < 10
    ensures EquationText(Equation(a, [], t)) == [DigitChar(a), ' ', '=', ' ', DigitChar(t)]
  {
  }

  /** "1" with target 1 gives "1 = 1". */
  lemma SingleDigitMatch()
    ensures SearchResult("1", 1) == "1 = 1"
  {
    OneDigitBest('1');
    assert "1" == ['1'];
    SearchResultOfBestAnswer("1", 1, PartitionedInput([1]), Equation(1, [], 1));
    NoStepText(1, 1);
  }

  /** "1" with target 2 has no equation, so the failure message comes back. */
  lemma SingleDigitNoMatch()
    ensures SearchResult("1", 2) == "Unable to generate equation for 1, 2."
  {
    OneDigitPartitions('1');
    assert "1" == ['1'];
    var ps := Partitions("1");
    forall p, e | p in ps ensures !Answers(p, e, 2) {
      NoStepAnswers(p, e, 2);
    }
    DefaultIffNoAnswer("1", 2);
    assert LongToString(2) == "2";
  }

  /** The partitions of a two-digit input, in enumeration order: both
      digits apart, then the whole input. */
  lemma TwoDigitPartitions(x: char, y: char)
    requires IsDigit(x) && IsDigit(y)
    ensures Partitions([x, y]) == [PartitionedInput([DigitValue(x), DigitValue(y)]),
                                   PartitionedInput([10 * DigitValue(x) + DigitValue(y)])]
  {
    TwoDigitValue(x, y);
    assert [x, y][..1] == [x] && [x, y][1..] == [y];
    PairPartitions([x, y]);
  }

  /** The same for any two-character digit string. */
  lemma PairPartitions(s: string)
    requires IsDigits(s) && |s| == 2
    ensures Partitions(s) == [PartitionedInput([Value(s[..1]), Value(s[1..])]),
                              PartitionedInput([Value(s)])]
  {
    var a, b := s[..1], s[1..];
    assert IsDigits(a) && IsDigits(b) by {
      DigitsSlice(s, 0, 1);
      DigitsSlice(s, 1, 2);
      assert s[0..1] == a && s[1..2] == b;
    }
    PairCompositions(s);
    ExtendPair(a, b, s);
  }

  /** The partitions built from the cuts [a, b] and [s]. */
  lemma ExtendPair(a: string, b: string, s: string)
    requires IsDigits(a) && IsDigits(b) && IsDigits(s)
    ensures AllDigitPieces([[a, b], [s]])
    ensures Extend([], [[a, b], [s]]) == [PartitionedInput([Value(a), Value(b)]), PartitionedInput([Value(s)])]
  {
    var cs := [[a, b], [s]];
    assert AllDigits(cs[0]) && AllDigits(cs[1]);
    var ps := Extend([], cs);
    assert ps[0] == PartitionedInput([Value(a), Value(b)]) by {
      var v := Values(cs[0]);
      assert |v| == 2 && v[0] == Value(a) && v[1] == Value(b);
      assert [] + v == [Value(a), Value(b)];
    }
    assert ps[1] == PartitionedInput([Value(s)]) by {
      var v := Values(cs[1]);
      assert |v| == 1 && v[0] == Value(s);
      assert [] + v == [Value(s)];
    }
    assert ps == [ps[0], ps[1]];
  }

  /** The cuts of a two-character string: between the characters, then none. */
  lemma PairCompositions(s: string)
    requires |s| == 2
    ensures Compositions(s) == [[s[..1], s[1..]], [s]]
  {
    SingleCompositions(s[1..]);
    var first := PrefixAll(s[..1], Compositions(s[1..]));
    assert [s[..1]] + [s[1..]] == [s[..1], s[1..]];
    assert |first| == 1 && first[0] == [s[..1], s[1..]];
    assert s[..2] == s && s[2..] == [];
    var last := PrefixAll(s, Compositions(s[2..]));
    assert Compositions(s[2..]) == [[]];
    assert [s] + [] == [s];
    assert |last| == 1 && last[0] == [s];
    assert CompositionsFrom(s, 3) == [];
    assert CompositionsFrom(s, 2) == [[s]];
  }

  lemma SingleCompositions(t: string)
    requires |t| == 1
    ensures Compositions(t) == [[t]]
  {
    assert t[..1] == t && t[1..] == [];
    assert CompositionsFrom(t, 2) == [];
    var only := PrefixAll(t, Compositions(t[1..]));
    assert Compositions(t[1..]) == [[]];
    assert [t] + [] == [t];
    assert |only| == 1 && only[0] == [t];
  }

  lemma TwoDigitValue(x: char, y: char)
    requires IsDigit(x) && IsDigit(y)
    ensures Value([x]) == DigitValue(x) && Value([y]) == DigitValue(y)
    ensures Value([x, y]) == 10 * DigitValue(x) + DigitValue(y)
  {
    assert [x][..0] == [] && [y][..0] == [];
    assert [x, y][..1] == [x];
  }

  /** 2 + 2 over the partition 2, 2 is the best answer for "22" and 4. */
  lemma TwoDigitBest()
    ensures BestAnswer("22", 4, PartitionedInput([2, 2]), Equation(2, [Step(Plus, 2)], 4))
  {
    TwoDigitPartitions('2', '2');
    assert "22" == ['2', '2'];
    var ps := Partitions("22");
    var p, e := PartitionedInput([2, 2]), Equation(2, [Step(Plus, 2)], 4);
    assert Answers(p, e, 4) by {
      assert Operands(e.steps) == [2];
      assert LegalFrom(2, e.steps) && EvalFrom(2, e.steps) == 4 by {
        assert e.steps[1..] == [];
      }
    }
    forall q, e' | q in ps && Answers(q, e', 4) ensures p.Count() <= q.Count() {
      NoStepAnswers(ps[1], e', 4);
    }
    forall e' | Answers(p, e', 4) ensures e'.steps == e.steps || Before(e.steps, e'.steps) {
      OneStepAnswers(p, e', 4);
      if e'.steps[0].op == Plus {
        assert e'.steps == [e'.steps[0]];
      }
    }
    assert ps[0] == p;
  }

  /** The text of a one-step equation over single digits. */
  lemma OneStepText(a: nat, op: Op, b: nat, t: nat)
    requires a < 10 && b < 10 && t < 10
    ensures EquationText(Equation(a, [Step(op, b)], t))
      == [DigitChar(a), ' ', Symbol(op), ' ', DigitChar(b), ' ', '=', ' ', DigitChar(t)]
  {
    var steps := [Step(op, b)];
    assert RenderSteps(steps) == StepText(steps[0]) + RenderSteps([]);
    assert StepText(steps[0]) == [' ', Symbol(op), ' ', DigitChar(b)];
  }

  /** "22" with target 4: the whole input 22 is tried first and fails; over
      2, 2 both "2 + 2" and "2 * 2" reach 4, and operate tries `+` first. */
  lemma TwoDigitMatch()
    ensures SearchResult("22", 4) == "2 + 2 = 4"
  {
    TwoDigitBest();
    SearchResultOfBestAnswer("22", 4, PartitionedInput([2, 2]), Equation(2, [Step(Plus, 2)], 4));
    OneStepText(2, Plus, 2, 4);
  }
}
