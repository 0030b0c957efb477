# Equation generator, modelled in Dafny

The program takes a string of digits and a target, and looks for an
equation that reaches the target. Between the digits it inserts `+`, `-`,
`*` and `/`, and it evaluates strictly left to right on Java `long`s. For
example, "5913168" with target 32 has an answer whose text looks like
`5 + 9 - 1 ... = 32`.

The program works in three stages:

- `PartitionedInput.getPossibleOperands` enumerates every way to cut the
  digits into contiguous operands.
- `ConcurrentEquationGenerator.generate` sorts those partitions by operand
  count. It then submits one task per partition.
- Each task runs the recursive `operate`, which tries `+`, `-`, `*` and a
  guarded `/` before every operand after the first. The first equation that
  reaches the target is committed to a single output slot under a lock, and
  the executor is shut down. If nothing matches, the slot keeps the message
  "Unable to generate equation for <input>, <target>.".

The Dafny project follows that structure:

| file | module | contents |
|---|---|---|
| `decimal.dfy` | `Decimal` | digit strings and their values; `Long.valueOf` on digits; `String.valueOf(long)` and `%d` rendering in ASCII digits |
| `javalong.dfy` | `JavaLong` | 64-bit wrap-around for `+ - *`; Java's truncating `/` and `%` |
| `partitioning.dfy` | `Partitioning` | `PartitionedInput` and its list operations; `compareTo`; the imperative `partitionInput` (recursive method with a `for` loop appending to a list object); its reference enumeration `Compositions` |
| `partition_properties.dfy` | `PartitionProperties` | counting, completeness, distinctness and bounds of the partitions |
| `expressions.dfy` | `Expressions` | operators, left-to-right evaluation, the equation text and a parser for it |
| `evaluator.dfy` | `Evaluator` | `Walk`, the list of texts `operate` tries to commit, in order; `Solutions`, the reference search on structured steps; the lemmas tying them together |
| `sorting.dfy` | `Ordering` | `Collections.sort` by `compareTo` (a stable sort) and its properties |
| `generator.dfy` | `Generator` | the generator object as a class; its `operate`, the commit critical section and `generate` as methods; what the search returns |

`PartitionedInput` is a datatype. The Java class is immutable to its users:
`addOperand` and `removeNextOperand` copy the list, edit only the copy and
return it. The list that `partitionInput` appends to is mutated in place,
so it is the class `PartitionList`. `ConcurrentEquationGenerator` is the
class `EquationGenerator`. Its fields are the output slot (`equation`),
whether the executor has been shut down (`sealed`) and `tasksRemaining`.
`Operate` and `Generate` are methods that update those fields. Each is
specified by a pure function: `Walk`, and `AllMatches` over the sorted
partitions, combined through `Settle`, the state of the slot once a list
of candidate texts has been offered to the commit in order.

The main results:

- **Soundness.** Any text the search can commit parses back to an equation
  over one partition's operands, in order, that evaluates legally to the
  target.
- **Completeness.** Every such equation is among the texts tried.
- **Default message.** The search returns the failure message exactly when
  no partition has an answer (`Generator.DefaultIffNoAnswer`).
- **Which answer wins.** In the sequential model, where each task runs to
  completion before the next is submitted, the result is otherwise the text
  of the unique best answer (`Generator.SearchResultOfBestAnswer`). That
  answer:
  - uses the fewest operands;
  - among partitions with that many operands, comes from the first one in
    enumeration order;
  - within its partition, is the first answer in the order `+`, `-`, `*`,
    `/`.

  On the four-thread pool, a later task can commit first, so this holds
  for the model and not for every run of the program (see "Left out").

Java's `long` arithmetic is modelled explicitly:

- `+`, `-` and `*` wrap modulo 2^64.
- `%` and `/` truncate toward zero.
- The `/` branch is guarded as in the source: a non-zero operand whose
  Java remainder is zero.

Behaviours of the code worth knowing, where it differs from the prose
description of the program:

- **Leading zeros vanish.** Operands come from `Long.valueOf`, so "05" gives
  the operand 5, and the rendered equation no longer spells the input.
- **Value lists can repeat.** Different cuts can give equal operand lists:
  "001" gives [0, 1] twice, from "0|01" and "00|1". Distinctness therefore
  holds for the cuts (`PartitionProperties.PartitionsCount`), not for the
  value lists.
- **Empty input.** The empty input gives one partition with no operands.
  Its task starts from `getNextOperand()`, which is `Long.MAX_VALUE`, so
  the answer "9223372036854775807 = 9223372036854775807" is found exactly
  when that is the target. The model keeps this behaviour.

## Model

| member | source | states |
|---|---|---|
| Decimal.Value | src/PartitionedInput.java:51 | `Long.valueOf` of a digit string of length L is below 10^L |
| Decimal.LongToString | src/ConcurrentEquationGenerator.java:90 | the text of a long is non-empty, starts with '-' exactly when the long is negative, and is the natural number's digits after that sign |
| Decimal.ValueOfNatToString | src/ConcurrentEquationGenerator.java:90 | reading the decimal text of a natural number gives the number back |
| Decimal.ParseLongOfLongToString | src/ConcurrentEquationGenerator.java:102 | the `%d` text of any long, in ASCII digits, parses back to that long |
| JavaLong.Wrap | src/ConcurrentEquationGenerator.java:117-130 | the wrapped result is a long, differs from the exact result by a multiple of 2^64, and equals it when the exact result fits |
| JavaLong.Rem | src/ConcurrentEquationGenerator.java:133 | Java's `%`: abs(r) < abs(b), and r is zero or has the sign of a |
| JavaLong.RemIdentity | src/ConcurrentEquationGenerator.java:133 | the remainder completes the truncating quotient: a == b * quotient + a % b |
| JavaLong.Div | src/ConcurrentEquationGenerator.java:137 | Java's `/` always gives a long; for a long dividend it is the quotient truncated toward zero unless the dividend is Long.MIN_VALUE and the divisor -1 |
| JavaLong.ExactDivision | src/ConcurrentEquationGenerator.java:133-137 | the guard `result % v == 0` holds exactly when v divides result, and the quotient then times v gives result back |
| Partitioning.PartitionedInput.AddOperand | src/PartitionedInput.java:61-66 | the copy is the receiver's list with the value appended |
| Partitioning.PartitionedInput.RemoveNextOperand | src/PartitionedInput.java:68-78 | the copy is the receiver's list without its head; empty stays empty |
| Partitioning.PartitionedInput.NextOperand | src/PartitionedInput.java:80-83 | the head of the list, or Long.MAX_VALUE when empty |
| Partitioning.PartitionedInput.CompareTo | src/PartitionedInput.java:95-99 | negative, zero or positive exactly as the receiver has fewer, as many or more operands |
| Partitioning.NextThenRest | src/PartitionedInput.java:68-83 | head followed by the rest gives the list back |
| Partitioning.AddThenRemove | src/PartitionedInput.java:61-83 | appending commutes with dropping the head on a non-empty list; on an empty one the appended value becomes the head |
| Partitioning.CompareToIsTotalPreorder | src/PartitionedInput.java:95-99 | compareTo is reflexive, antisymmetric in sign and transitive |
| Partitioning.CompositionsCover | src/PartitionedInput.java:49-57 | every enumerated cut consists of non-empty pieces that concatenate to the input |
| Partitioning.PartitionList.constructor | src/PartitionedInput.java:33 | a new list is empty |
| Partitioning.PartitionList.Add | src/PartitionedInput.java:43 | adding appends exactly one partition |
| Partitioning.PartitionsBelowAreCuts | src/PartitionedInput.java:38-59 | the partitions the recursion adds below a prefix of operands are that prefix extended by every cut of the rest, in enumeration order |
| Partitioning.PartitionInput | src/PartitionedInput.java:38-59 | the recursive call appends to the shared list exactly the partitions below the operands so far, for the rest of the input |
| Partitioning.Partitions | src/PartitionedInput.java:31-36 | every digit input, the empty one included, has at least one partition |
| Partitioning.GetPossibleOperands | src/PartitionedInput.java:31-36 | the result is every partition of the input, in enumeration order |
| PartitionProperties.CompositionsCount | src/PartitionedInput.java:49-57 | a string of length L > 0 has 2^(L-1) cuts |
| PartitionProperties.CompositionsComplete | src/PartitionedInput.java:49-57 | every cut into non-empty pieces is enumerated |
| PartitionProperties.CompositionsDistinct | src/PartitionedInput.java:49-57 | no cut is enumerated twice |
| PartitionProperties.WholeInputComposition | src/PartitionedInput.java:49-57 | the last cut is the whole input, every other has at least two pieces, and every cut has 1 to L pieces |
| PartitionProperties.PartitionOperands | src/PartitionedInput.java:51-56 | the j-th partition's operands are the values of the j-th cut's pieces |
| PartitionProperties.PartitionsCount | src/PartitionedInput.java:31-59 | a non-empty digit input has 2^(L-1) partitions, from every cut, each cut once |
| PartitionProperties.PartitionCounts | src/PartitionedInput.java:31-59 | every partition has 1 to L operands, the last is the whole input alone, all others have at least two |
| PartitionProperties.PartitionOperandBounds | src/PartitionedInput.java:51 | every operand is between 0 and the value of the whole input |
| PartitionProperties.SingleOperandPartition | src/PartitionedInput.java:49-57 | the only partition with one operand is the last, holding the value of the whole input |
| Expressions.OpOf | src/ConcurrentEquationGenerator.java:120-138 | reads back exactly the symbol each operator is written with |
| Expressions.ParseEquationOfText | src/ConcurrentEquationGenerator.java:90-138 | the text "<first> op v ... = <target>" of an equation with non-negative operands parses back to that equation |
| Expressions.Legal | src/ConcurrentEquationGenerator.java:133 | `+`, `-` and `*` are always tried; `/` is tried exactly when the operand is non-zero and divides the running result |
| Expressions.Apply | src/ConcurrentEquationGenerator.java:117-139 | each step gives a long: the sum, difference or product modulo 2^64, and for a guarded `/` by a positive operand a quotient that times the operand gives the running result back |
| Expressions.EquationTextStartsWithDigit | src/ConcurrentEquationGenerator.java:90 | an equation text starts with a digit |
| Evaluator.Walk | src/ConcurrentEquationGenerator.java:87-141 | operate over n operands tries at most 4^n texts |
| Evaluator.SolutionsExactly | src/ConcurrentEquationGenerator.java:87-141 | a step sequence is among the reference solutions exactly when it uses the operands in order and evaluates legally to the target |
| Evaluator.WalkRendersSolutions | src/ConcurrentEquationGenerator.java:87-141 | the texts operate tries to commit are the renderings of the reference solutions, in the same order |
| Evaluator.SolutionsAscending | src/ConcurrentEquationGenerator.java:117-139 | solutions come in depth-first order: at the first differing step, `+` before `-` before `*` before `/` |
| Evaluator.TaskEquations | src/ConcurrentEquationGenerator.java:55 | a task over a partition of n >= 1 operands tries at most 4^(n-1) texts, and one over no operands at most one |
| Evaluator.TaskEquationsAreSolutions | src/ConcurrentEquationGenerator.java:55 | a task's texts are the rendered solutions over its partition, in ascending order |
| Evaluator.TaskEquationParses | src/ConcurrentEquationGenerator.java:55 | the i-th text of a task renders a solution over the partition and parses back to it |
| Evaluator.TaskEquationSound | src/ConcurrentEquationGenerator.java:93-108 | every text a task can commit is "<expr> = <target>" for an equation over the partition's operands that evaluates legally to the target |
| Evaluator.TaskEquationComplete | src/ConcurrentEquationGenerator.java:87-141 | every equation over the partition's operands that reaches the target is among that partition's texts |
| Ordering.SortByCount | src/ConcurrentEquationGenerator.java:38 | sorting neither adds nor drops an element |
| Ordering.SortSortsAndPermutes | src/ConcurrentEquationGenerator.java:38 | the sorted list is ordered by compareTo and is a permutation of the input list |
| Ordering.SortIsStable | src/ConcurrentEquationGenerator.java:38 | partitions with the same operand count keep their relative order |
| Ordering.SortedUnique | src/ConcurrentEquationGenerator.java:38 | a count-sorted list is determined by its elements of each count, so every stable sort gives the same list |
| Ordering.StableIndex | src/ConcurrentEquationGenerator.java:38 | entry i of the sorted list is some element j of the input, and the input's elements of that count before j sort before entry i |
| Ordering.SortedPartitions | src/ConcurrentEquationGenerator.java:35-38 | the sorted partitions are ordered, a permutation, 2^(L-1) many, and start with the whole input |
| Generator.DefaultMessage | src/ConcurrentEquationGenerator.java:29 | the failure message does not start with a digit and ends with a full stop, so it cannot be mistaken for an equation |
| Generator.Settle | src/ConcurrentEquationGenerator.java:99-107 | the slot ends holding its old text or one of the offered texts; a sealed slot keeps its text; an unsealed one takes the first text offered |
| Generator.TasksRun | src/ConcurrentEquationGenerator.java:41-58 | the number of tasks that run: all of them when none matches, otherwise those up to and including the first that matches, all earlier ones trying nothing |
| Generator.SettleConcat | src/ConcurrentEquationGenerator.java:99-107 | offering candidates a then b leaves the slot as offering a + b does: once sealed, the slot is never written again |
| Generator.EquationGenerator.constructor | src/ConcurrentEquationGenerator.java:25-30 | the slot starts as "Unable to generate equation for <input>, <target>." and is not sealed |
| Generator.EquationGenerator.TryCommit | src/ConcurrentEquationGenerator.java:95-108 | an unsealed slot takes "<expr> = <target>" and is sealed; a sealed slot is unchanged |
| Generator.EquationGenerator.Operate | src/ConcurrentEquationGenerator.java:87-141 | the slot ends as Walk's texts offered in order leave it, and is sealed exactly when it was or Walk finds a text |
| Generator.EquationGenerator.Generate | src/ConcurrentEquationGenerator.java:32-85 | the result is the slot after every task's texts, in sorted dispatch order, have been offered; the slot ends sealed; the counter ends at the number of partitions less the tasks run up to the first match, or at the number of partitions, with no task run, when the slot was already sealed |
| Generator.GenerateEquation | src/ConcurrentEquationGenerator.java:25-85 | a fresh generator returns the search result for its input and target |
| Generator.NoMatches | src/ConcurrentEquationGenerator.java:46-58 | the jobs together try nothing exactly when each task tries nothing |
| Generator.FirstMatch | src/ConcurrentEquationGenerator.java:46-58 | the first text tried comes from the first task that tries any, and all earlier tasks try none |
| Generator.PartitionsNonNegative | src/PartitionedInput.java:51 | every partition of a digit input has non-negative operands and a non-negative first operand |
| Generator.DefaultIffNoAnswer | src/ConcurrentEquationGenerator.java:29-84 | the search returns the failure message exactly when no partition has an equation over its operands that reaches the target |
| Generator.FewestOperands | src/ConcurrentEquationGenerator.java:38-58 | the first task with a match has no more operands than any partition with an answer |
| Generator.EarliestAmongEqual | src/ConcurrentEquationGenerator.java:38-58 | the first task with a match comes from a partition before which, in enumeration order, every partition with an answer has more operands |
| Generator.FirstTextIsLeastAnswer | src/ConcurrentEquationGenerator.java:114-139 | a task's first text is an answer over its partition that precedes all other answers over it in operator order |
| Generator.FirstOfItsCountUnique | src/ConcurrentEquationGenerator.java:38-58 | at most one partition is both fewest-operand and first of its count |
| Generator.FirstTriedUnique | src/ConcurrentEquationGenerator.java:114-139 | at most one answer over a partition comes first in operator order |
| Generator.BestAnswerUnique | src/ConcurrentEquationGenerator.java:32-141 | there is at most one best answer |
| Generator.SearchResultIsBestAnswer | src/ConcurrentEquationGenerator.java:32-141 | a result other than the failure message is the text of a best answer: fewest operands, first of its count in enumeration order, first in operator order |
| Generator.SearchResultOfBestAnswer | src/ConcurrentEquationGenerator.java:32-141 | whenever a best answer exists, the search returns its text |
| Generator.SingleDigitMatch | src/ConcurrentEquationGenerator.java:102 | "1" with target 1 gives "1 = 1" |
| Generator.SingleDigitNoMatch | src/ConcurrentEquationGenerator.java:29 | "1" with target 2 gives "Unable to generate equation for 1, 2." |
| Generator.PairPartitions | src/PartitionedInput.java:38-59 | a two-digit input has the partitions (first digit, second digit) then (both digits), in that order |
| Generator.TwoDigitPartitions | src/PartitionedInput.java:38-59 | a two-digit input has the partitions (d1, d2) then (d1d2), in that order |
| Generator.TwoDigitMatch | src/ConcurrentEquationGenerator.java:38-139 | "22" with target 4 gives "2 + 2 = 4": the whole input is tried first and fails, and `+` is tried before `*` |

## Left out

- Generator.EquationGenerator.Generate: the model runs each submitted task to completion before the next is submitted. It therefore returns the first match in sorted dispatch order. On the four-thread pool any task that finds a match can be the one that commits first, so the program can return a different equation than the model does.
- Thread pool, lock and atomic counter: `ExecutorService`, `ReentrantLock` and `AtomicInteger` become plain fields and sequential method calls. `shutdownNow` becomes sealing the slot. Tasks cancelled by the shutdown are those the loop never reaches after the slot is sealed.
- The polling loop with `Thread.sleep`: in the sequential model every task has finished when submission ends, so the loop has nothing to wait for.
- The `InterruptedException` branch, which appends " Error: ..." to the result: nothing in the model can interrupt.
- The `RejectedExecutionException` branch: the loop stops before submitting to a shut-down executor, so rejection cannot happen.
- Partitioning.GetPossibleOperands requires a string of ASCII digits whose value fits in a long. Otherwise `Long.valueOf` throws `NumberFormatException`: a sign or other non-digit chars form a one-character piece with no number, and an overlong input is itself one of the pieces. The exception path is not modelled. Neither is `Long.valueOf`'s acceptance of non-ASCII Unicode digits.
- Decimal.LongToString: writes ASCII digits. `String.format`'s `%d` (src/ConcurrentEquationGenerator.java:29, 102, 120-138) writes digits relative to the default locale's zero digit, so under a locale such as th_TH_TH the texts would use other digits. The model assumes a locale whose zero digit is '0', and the parse-back results hold for that case only.
- `toString` and `getOperands`: the unmodifiable view of the operand list is the datatype field `operands` itself.
- The three `PartitionedInput` constructors: a datatype value already has copy semantics.
- `MainDriver`: console I/O and the validation of what the user types.
- Collections.sort is modelled by an insertion sort with the same output. `Ordering.SortedUnique` shows that every stable sort by compareTo produces exactly that list. The merge sort inside the JDK is not modelled.
