/** The partitioner: PartitionedInput, its copy-on-write list operations, the
    recursive enumeration of every way to cut a digit string into contiguous
    non-empty operands, and the operand-count order used before dispatch. */
module Partitioning {
  import opened Decimal
  import opened JavaLong

  /** One candidate operand list. The Java class is immutable to its users:
      AddOperand and RemoveNextOperand copy the list, edit only the copy and
      return it, so a value captures it exactly. */
  datatype PartitionedInput = PartitionedInput(operands: seq<int>) {

    /** A copy of the receiver with value appended at the end. */
    function AddOperand(value: int): (r: PartitionedInput)
      ensures |r.operands| == |operands| + 1
      ensures r.operands[..|operands|] == operands && r.operands[|operands|] == value
    {
      PartitionedInput(operands + [value])
    }

    /** A copy of the receiver without its first operand; an empty receiver
        gives an empty copy. */
    function RemoveNextOperand(): (r: PartitionedInput)
      ensures operands == [] ==> r.operands == []
      ensures operands != [] ==> |r.operands| == |operands| - 1
      ensures forall i :: 0 <= i < |r.operands| ==> r.operands[i] == operands[i + 1]
    {
      if operands == [] then this else PartitionedInput(operands[1..])
    }

    /** The first operand, or Long.MAX_VALUE when there is none. */
    function NextOperand(): (r: int)
      ensures operands == [] ==> r == LONG_MAX
      ensures operands != [] ==> r == operands[0]
    {
      if operands == [] then LONG_MAX else operands[0]
    }

    function Count(): nat {
      |operands|
    }

    /** Integer.compare on the operand counts: negative, zero or positive as
        this list is shorter than, as long as, or longer than o. */
    function CompareTo(o: PartitionedInput): (c: int)
      ensures -1 <= c <= 1
      ensures c < 0 <==> Count() < o.Count()
      ensures c == 0 <==> Count() == o.Count()
    {
      if Count() < o.Count() then -1 else if Count() == o.Count() then 0 else 1
    }
  }

  /** Taking the next operand and the rest gives back the list. */
  lemma NextThenRest(p: PartitionedInput)
    requires p.operands != []
    ensures [p.NextOperand()] + p.RemoveNextOperand().operands == p.operands
  {
  }

  /** Appending and dropping the head commute on a non-empty list; on an
      empty list the appended value becomes the head. */
  lemma AddThenRemove(p: PartitionedInput, v: int)
    ensures p.operands != [] ==>
      p.AddOperand(v).RemoveNextOperand() == p.RemoveNextOperand().AddOperand(v)
      && p.AddOperand(v).NextOperand() == p.NextOperand()
    ensures p.operands == [] ==>
      p.AddOperand(v).NextOperand() == v && p.AddOperand(v).RemoveNextOperand() == p
  {
    if p.operands != [] {
      assert (p.operands + [v])[1..] == p.operands[1..] + [v];
    }
  }

  /** CompareTo is a total preorder, so sorting by it is well defined. */
  lemma CompareToIsTotalPreorder(a: PartitionedInput, b: PartitionedInput, c: PartitionedInput)
    ensures a.CompareTo(a) == 0
    ensures a.CompareTo(b) == -b.CompareTo(a)
    ensures a.CompareTo(b) <= 0 && b.CompareTo(c) <= 0 ==> a.CompareTo(c) <= 0
  {
  }

  // ---------------------------------------------------------------------
  // Cutting a string into pieces

  function Concat(c: seq<string>): string {
    if c == [] then [] else c[0] + Concat(c[1..])
  }

  predicate NonEmptyPieces(c: seq<string>) {
    forall i :: 0 <= i < |c| ==> c[i] != []
  }

  predicate AllDigits(c: seq<string>) {
    forall i :: 0 <= i < |c| ==> IsDigits(c[i])
  }

  predicate AllDigitPieces(cs: seq<seq<string>>) {
    forall i :: 0 <= i < |cs| ==> AllDigits(cs[i])
  }

  /** Puts p in front of every sequence of cs. */
  function PrefixAll<T>(p: T, cs: seq<seq<T>>): (r: seq<seq<T>>)
    ensures |r| == |cs|
    ensures forall i :: 0 <= i < |cs| ==> r[i] == [p] + cs[i]
  {
    seq(|cs|, i requires 0 <= i < |cs| => [p] + cs[i])
  }

  /** Every way to cut s into contiguous non-empty pieces, in the order the
      recursion of PartitionedInput.partitionInput visits them: first piece
      of length 1 first, and so on up to the whole string. */
  function Compositions(s: string): seq<seq<string>>
    decreases |s|, 1
  {
    if s == [] then [[]] else CompositionsFrom(s, 1)
  }

  /** The compositions of s whose first piece is at least k characters long. */
  function CompositionsFrom(s: string, k: nat): seq<seq<string>>
    requires 1 <= k <= |s| + 1
    decreases |s|, 0, |s| + 1 - k
  {
    if k == |s| + 1 then []
    else PrefixAll(s[..k], Compositions(s[k..])) + CompositionsFrom(s, k + 1)
  }

  /** Every enumerated composition cuts s into non-empty pieces. */
  lemma {:induction false} CompositionsCover(s: string)
    decreases |s|, 1
    ensures forall c :: c in Compositions(s) ==> Concat(c) == s && NonEmptyPieces(c)
  {
    if s != [] {
      CompositionsFromCover(s, 1);
    }
  }

  lemma {:induction false} CompositionsFromCover(s: string, k: nat)
    requires 1 <= k <= |s| + 1
    decreases |s|, 0, |s| + 1 - k
    ensures forall c :: c in CompositionsFrom(s, k) ==>
      Concat(c) == s && NonEmptyPieces(c) && c != [] && |c[0]| >= k
  {
    if k <= |s| {
      var tails := Compositions(s[k..]);
      var head := PrefixAll(s[..k], tails);
      CompositionsCover(s[k..]);
      CompositionsFromCover(s, k + 1);
      forall c | c in head
        ensures Concat(c) == s && NonEmptyPieces(c) && c != [] && |c[0]| >= k
      {
        var i :| 0 <= i < |head| && head[i] == c;
        assert tails[i] in tails;
        ConsPiece(s[..k], tails[i]);
        assert s[..k] + s[k..] == s;
      }
    }
  }

  /** Putting a non-empty piece in front of a composition of t gives a
      composition of piece + t. */
  lemma ConsPiece(piece: string, tail: seq<string>)
    requires piece != [] && NonEmptyPieces(tail)
    ensures Concat([piece] + tail) == piece + Concat(tail)
    ensures NonEmptyPieces([piece] + tail)
  {
    assert ([piece] + tail)[1..] == tail;
  }

  /** The compositions of a digit string have digit strings as pieces. */
  lemma DigitCompositions(s: string)
    requires IsDigits(s)
    ensures AllDigitPieces(Compositions(s))
  {
    CompositionsCover(s);
    DigitPieces(Compositions(s), s);
  }

  /** Pieces of a digit string are digit strings. */
  lemma {:induction false} PiecesOfDigits(c: seq<string>, s: string)
    requires Concat(c) == s && IsDigits(s)
    ensures AllDigits(c)
  {
    if c != [] {
      assert s == c[0] + Concat(c[1..]);
      DigitsSlice(s, 0, |c[0]|);
      assert s[..|c[0]|] == c[0];
      DigitsSlice(s, |c[0]|, |s|);
      assert s[|c[0]|..] == Concat(c[1..]);
      PiecesOfDigits(c[1..], Concat(c[1..]));
    }
  }

  /** Every composition of a digit string is made of digit strings. */
  lemma DigitPieces(cs: seq<seq<string>>, s: string)
    requires IsDigits(s)
    requires forall c :: c in cs ==> Concat(c) == s
    ensures AllDigitPieces(cs)
  {
    forall i | 0 <= i < |cs| ensures AllDigits(cs[i]) {
      assert cs[i] in cs;
      PiecesOfDigits(cs[i], s);
    }
  }

  /** The operand values of a composition: Long.valueOf of each piece. */
  function Values(c: seq<string>): (r: seq<int>)
    requires AllDigits(c)
    ensures |r| == |c|
    ensures forall i :: 0 <= i < |c| ==> r[i] == Value(c[i])
  {
    seq(|c|, i requires 0 <= i < |c| => Value(c[i]))
  }

  /** The partitions that the recursion adds below prefix for the given
      compositions of the rest of the input. */
  function Extend(prefix: seq<int>, cs: seq<seq<string>>): (r: seq<PartitionedInput>)
    requires AllDigitPieces(cs)
    ensures |r| == |cs|
    ensures forall i :: 0 <= i < |cs| ==> r[i] == PartitionedInput(prefix + Values(cs[i]))
  {
    seq(|cs|, i requires 0 <= i < |cs| => PartitionedInput(prefix + Values(cs[i])))
  }

  /** What getPossibleOperands returns for a validated digit string. */
  function Partitions(input: string): (r: seq<PartitionedInput>)
    requires IsDigits(input)
    ensures |r| >= 1
  {
    DigitCompositions(input);
    CompositionsNonEmpty(input);
    Extend([], Compositions(input))
  }

  /** Every string, the empty one included, has at least one cut. */
  lemma CompositionsNonEmpty(s: string)
    ensures |Compositions(s)| >= 1
  {
    if s != [] {
      CompositionsFromNonEmpty(s, 1);
    }
  }

  lemma {:induction false} CompositionsFromNonEmpty(s: string, k: nat)
    requires 1 <= k <= |s|
    decreases |s| + 1 - k
    ensures |CompositionsFrom(s, k)| >= 1
  {
    if k == |s| {
      assert |Compositions(s[k..])| == 1;
    } else {
      CompositionsFromNonEmpty(s, k + 1);
    }
  }

  lemma ExtendConcat(prefix: seq<int>, a: seq<seq<string>>, b: seq<seq<string>>)
    requires AllDigitPieces(a)
    requires AllDigitPieces(b)
    ensures AllDigitPieces(a + b)
    ensures Extend(prefix, a + b) == Extend(prefix, a) + Extend(prefix, b)
  {
    assert forall i :: 0 <= i < |a + b| ==> (a + b)[i] == if i < |a| then a[i] else b[i - |a|];
  }

  lemma ExtendPrefixAll(prefix: seq<int>, p: string, cs: seq<seq<string>>)
    requires IsDigits(p)
    requires AllDigitPieces(cs)
    ensures AllDigitPieces(PrefixAll(p, cs))
    ensures Extend(prefix, PrefixAll(p, cs)) == Extend(prefix + [Value(p)], cs)
  {
    var pcs := PrefixAll(p, cs);
    forall i | 0 <= i < |cs| ensures AllDigits(pcs[i]) {
      ValuesCons(p, cs[i]);
    }
    forall i | 0 <= i < |cs|
      ensures Extend(prefix, pcs)[i] == Extend(prefix + [Value(p)], cs)[i]
    {
      ValuesCons(p, cs[i]);
      SeqAssoc(prefix, [Value(p)], Values(cs[i]));
    }
  }

  lemma ValuesCons(p: string, c: seq<string>)
    requires IsDigits(p) && AllDigits(c)
    ensures AllDigits([p] + c)
    ensures Values([p] + c) == [Value(p)] + Values(c)
  {
    var pc := [p] + c;
    forall i | 0 < i < |pc| ensures pc[i] == c[i - 1] { }
    assert AllDigits(pc);
    var l, r := Values(pc), [Value(p)] + Values(c);
    forall i | 0 <= i < |l| ensures l[i] == r[i] {
      if i > 0 {
        assert pc[i] == c[i - 1] && r[i] == Values(c)[i - 1];
      }
    }
  }

  /** The output list of partitionInput: an ArrayList the recursion appends to. */
  class PartitionList {
    var items: seq<PartitionedInput>

    constructor ()
      ensures items == []
    {
      items := [];
    }

    method Add(p: PartitionedInput)
      modifies this
      ensures items == old(items) + [p]
    {
      items := items + [p];
    }
  }

  /** At the end of the input the recursion adds exactly the operands so far. */
  lemma EndOfInput(ops: seq<int>, t: string)
    requires t == []
    ensures AllDigitPieces(Compositions(t))
    ensures Extend(ops, Compositions(t)) == [PartitionedInput(ops)]
  {
    assert Compositions(t) == [[]];
    assert Values([]) == [];
    assert ops + [] == ops;
  }

  /** The compositions whose first piece has k characters are the partitions
      below ops + [value of that piece], in front of those with a longer first
      piece. */
  lemma CutStep(ops: seq<int>, t: string, k: nat)
    requires IsDigits(t) && 1 <= k <= |t|
    ensures IsDigits(t[..k]) && IsDigits(t[k..])
    ensures AllDigitPieces(CompositionsFrom(t, k)) && AllDigitPieces(CompositionsFrom(t, k + 1))
    ensures AllDigitPieces(Compositions(t[k..]))
    ensures Extend(ops, CompositionsFrom(t, k))
            == Extend(ops + [Value(t[..k])], Compositions(t[k..])) + Extend(ops, CompositionsFrom(t, k + 1))
  {
    DigitsSlice(t, 0, k);
    DigitsSlice(t, k, |t|);
    var blocks := Compositions(t[k..]);
    DigitCompositions(t[k..]);
    CompositionsFromCover(t, k + 1);
    DigitPieces(CompositionsFrom(t, k + 1), t);
    ExtendPrefixAll(ops, t[..k], blocks);
    ExtendConcat(ops, PrefixAll(t[..k], blocks), CompositionsFrom(t, k + 1));
  }

  // ---------------------------------------------------------------------
  // partitionInput

  /** What partitionInput(input, index, pi, list) appends, with t the rest
      input[index..] and ops the operands of pi. */
  function PartitionsBelow(ops: seq<int>, t: string): seq<PartitionedInput>
    requires IsDigits(t)
    decreases |t|, 1
  {
    if t == [] then [PartitionedInput(ops)] else CutsFrom(ops, t, 1)
  }

  /** What the loop of partitionInput appends from the turn that takes a first
      piece of k characters onwards. */
  function CutsFrom(ops: seq<int>, t: string, k: nat): seq<PartitionedInput>
    requires IsDigits(t) && 1 <= k <= |t| + 1
    decreases |t|, 0, |t| + 1 - k
  {
    if k == |t| + 1 then []
    else
      DigitsSlice(t, 0, k);
      DigitsSlice(t, k, |t|);
      PartitionsBelow(ops + [Value(t[..k])], t[k..]) + CutsFrom(ops, t, k + 1)
  }

  /** The recursion appends, below ops, exactly the enumerated cuts of the rest
      of the input, in enumeration order. */
  lemma {:induction false} PartitionsBelowAreCuts(ops: seq<int>, t: string)
    requires IsDigits(t)
    decreases |t|, 1
    ensures AllDigitPieces(Compositions(t))
    ensures PartitionsBelow(ops, t) == Extend(ops, Compositions(t))
  {
    if t == [] {
      EndOfInput(ops, t);
    } else {
      CutsFromAreCuts(ops, t, 1);
    }
  }

  lemma {:induction false} CutsFromAreCuts(ops: seq<int>, t: string, k: nat)
    requires IsDigits(t) && 1 <= k <= |t| + 1
    decreases |t|, 0, |t| + 1 - k
    ensures AllDigitPieces(CompositionsFrom(t, k))
    ensures CutsFrom(ops, t, k) == Extend(ops, CompositionsFrom(t, k))
  {
    if k <= |t| {
      CutStep(ops, t, k);
      PartitionsBelowAreCuts(ops + [Value(t[..k])], t[k..]);
      CutsFromAreCuts(ops, t, k + 1);
    }
  }

  /** The piece partitionInput parses in the turn for i is the first k
      characters of the rest, and the recursion continues on what follows it. */
  lemma NextPiece(input: string, index: nat, i: nat)
    requires IsDigits(input) && index <= i < |input|
    ensures IsDigits(input[index..]) && IsDigits(input[index..i + 1])
    ensures input[index..i + 1] == input[index..][..i + 1 - index]
    ensures input[i + 1..] == input[index..][i + 1 - index..]
  {
    DigitsSlice(input, index, |input|);
    DigitsSlice(input, index, i + 1);
    SliceOfSlice(input, index, i + 1);
  }

  lemma SliceOfSlice<T>(s: seq<T>, a: nat, b: nat)
    requires a <= b <= |s|
    ensures s[a..b] == s[a..][..b - a]
    ensures s[b..] == s[a..][b - a..]
  {
  }

  /** The loop invariant of partitionInput survives one turn. */
  lemma LoopStep(before: seq<PartitionedInput>, after: seq<PartitionedInput>, goal: seq<PartitionedInput>,
                 pi: PartitionedInput, value: int, t: string, k: nat)
    requires IsDigits(t) && 1 <= k <= |t|
    requires before + CutsFrom(pi.operands, t, k) == goal
    requires IsDigits(t[..k]) && IsDigits(t[k..]) && value == Value(t[..k])
    requires after == before + PartitionsBelow(pi.AddOperand(value).operands, t[k..])
    ensures after + CutsFrom(pi.operands, t, k + 1) == goal
  {
    assert pi.AddOperand(value).operands == pi.operands + [value];
    var here := PartitionsBelow(pi.operands + [value], t[k..]);
    assert CutsFrom(pi.operands, t, k) == here + CutsFrom(pi.operands, t, k + 1);
    SeqAssoc(before, here, CutsFrom(pi.operands, t, k + 1));
  }

  lemma SeqAssoc<T>(a: seq<T>, b: seq<T>, c: seq<T>)
    ensures (a + b) + c == a + (b + c)
  {
  }

  /** partitionInput: appends to out, below the operands already in pi, every
      way to cut input[index..] into operands. */
  method PartitionInput(input: string, index: nat, pi: PartitionedInput, out: PartitionList)
    requires IsDigits(input) && Value(input) <= LONG_MAX
    requires index <= |input|
    modifies out
    decreases |input| - index
    ensures IsDigits(input[index..])
    ensures out.items == old(out.items) + PartitionsBelow(pi.operands, input[index..])
  {
    ghost var t := input[index..];
    DigitsSlice(input, index, |input|);
    if index == |input| {
      out.Add(pi);
      return;
    }
    ghost var goal := out.items + PartitionsBelow(pi.operands, t);
    for i := index to |input|
      invariant out.items + CutsFrom(pi.operands, t, i - index + 1) == goal
    {
      ghost var before := out.items;
      NextPiece(input, index, i);
      var nextOperand := Value(input[index..i + 1]);
      // the piece's value fits in a long, so Long.valueOf cannot fail
      assert InRange(nextOperand) by { SubstringValueBound(input, index, i + 1); }
      PartitionInput(input, i + 1, pi.AddOperand(nextOperand), out);
      LoopStep(before, out.items, goal, pi, nextOperand, t, i + 1 - index);
    }
    assert out.items + [] == out.items;
  }

  /** getPossibleOperands: every partition of a validated input. */
  method GetPossibleOperands(input: string) returns (r: seq<PartitionedInput>)
    requires IsDigits(input) && Value(input) <= LONG_MAX
    ensures r == Partitions(input)
  {
    var out := new PartitionList();
    PartitionInput(input, 0, PartitionedInput([]), out);
    assert input[0..] == input;
    PartitionsBelowAreCuts([], input);
    r := out.items;
  }
}
