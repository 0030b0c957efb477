/** What the partitioner promises: for an input of length L there are 2^(L-1)
    partitions, one for every way to cut it; each covers the input left to
    right with non-empty pieces; exactly one is the whole input; and every
    operand is the value of its piece, between 0 and the value of the input. */
module PartitionProperties {
  import opened Decimal
  import opened JavaLong
  import opened Partitioning

  function Pow2(n: nat): (p: nat)
    ensures p >= 1
  {
    if n == 0 then 1 else 2 * Pow2(n - 1)
  }

  predicate Distinct<T(==)>(xs: seq<T>) {
    forall i, j :: 0 <= i < j < |xs| ==> xs[i] != xs[j]
  }

  // ---------------------------------------------------------------------
  // Counting

  lemma {:induction false} CompositionsCount(s: string)
    decreases |s|, 1
    ensures |Compositions(s)| == if s == [] then 1 else Pow2(|s| - 1)
  {
    if s != [] {
      CompositionsFromCount(s, 1);
    }
  }

  lemma {:induction false} CompositionsFromCount(s: string, k: nat)
    requires 1 <= k <= |s|
    decreases |s|, 0, |s| + 1 - k
    ensures |CompositionsFrom(s, k)| == Pow2(|s| - k)
  {
    CompositionsCount(s[k..]);
    if k < |s| {
      CompositionsFromCount(s, k + 1);
    }
  }

  // ---------------------------------------------------------------------
  // Completeness: every cut of the input is enumerated

  lemma ConcatParts(c: seq<string>, s: string)
    requires c != [] && Concat(c) == s
    ensures |c[0]| <= |s| && s[..|c[0]|] == c[0] && s[|c[0]|..] == Concat(c[1..])
  {
    assert s == c[0] + Concat(c[1..]);
  }

  lemma {:induction false} CompositionsComplete(s: string, c: seq<string>)
    requires NonEmptyPieces(c) && Concat(c) == s
    decreases |s|, 1
    ensures c in Compositions(s)
  {
    if s == [] {
      ConcatLength(c);
    } else {
      assert c != [];
      ConcatParts(c, s);
      assert c[0] != [];
      CompositionsFromComplete(s, 1, c);
    }
  }

  lemma {:induction false} CompositionsFromComplete(s: string, k: nat, c: seq<string>)
    requires NonEmptyPieces(c) && Concat(c) == s && c != []
    requires 1 <= k <= |c[0]|
    decreases |s|, 0, |s| + 1 - k
    ensures |c[0]| <= |s|
    ensures c in CompositionsFrom(s, k)
  {
    ConcatParts(c, s);
    var parts := CompositionsFrom(s, k);
    if |c[0]| == k {
      var rest := c[1..];
      assert NonEmptyPieces(rest) by {
        assert forall i :: 0 <= i < |rest| ==> rest[i] == c[i + 1];
      }
      CompositionsComplete(s[k..], rest);
      var idx :| 0 <= idx < |Compositions(s[k..])| && Compositions(s[k..])[idx] == rest;
      var head := PrefixAll(s[..k], Compositions(s[k..]));
      assert head[idx] == [s[..k]] + rest == c;
      assert parts == head + CompositionsFrom(s, k + 1);
      assert parts[idx] == c;
    } else {
      CompositionsFromComplete(s, k + 1, c);
      assert parts == PrefixAll(s[..k], Compositions(s[k..])) + CompositionsFrom(s, k + 1);
    }
  }

  // ---------------------------------------------------------------------
  // No cut is enumerated twice

  lemma DistinctConcat<T>(a: seq<T>, b: seq<T>)
    requires Distinct(a) && Distinct(b)
    requires forall x, y :: x in a && y in b ==> x != y
    ensures Distinct(a + b)
  {
    forall i, j | 0 <= i < j < |a + b| ensures (a + b)[i] != (a + b)[j] {
      if j >= |a| && i < |a| {
        assert (a + b)[i] in a && (a + b)[j] in b;
      } else if i >= |a| {
        assert (a + b)[i] == b[i - |a|] && (a + b)[j] == b[j - |a|];
      }
    }
  }

  lemma {:induction false} CompositionsDistinct(s: string)
    decreases |s|, 1
    ensures Distinct(Compositions(s))
  {
    if s != [] {
      CompositionsFromDistinct(s, 1);
    }
  }

  lemma {:induction false} CompositionsFromDistinct(s: string, k: nat)
    requires 1 <= k <= |s| + 1
    decreases |s|, 0, |s| + 1 - k
    ensures Distinct(CompositionsFrom(s, k))
  {
    if k <= |s| {
      var tails := Compositions(s[k..]);
      var head := PrefixAll(s[..k], tails);
      var rest := CompositionsFrom(s, k + 1);
      CompositionsDistinct(s[k..]);
      CompositionsFromDistinct(s, k + 1);
      CompositionsFromCover(s, k + 1);
      forall i, j | 0 <= i < j < |head| ensures head[i] != head[j] {
        assert head[i][1..] == tails[i] && head[j][1..] == tails[j];
      }
      forall x, y | x in head && y in rest ensures x != y {
        var i :| 0 <= i < |head| && head[i] == x;
        assert |x[0]| == k;
      }
      DistinctConcat(head, rest);
    }
  }

  // ---------------------------------------------------------------------
  // Operand counts and the one whole-input partition

  lemma {:induction false} ConcatLength(c: seq<string>)
    requires NonEmptyPieces(c)
    ensures |Concat(c)| >= |c|
    ensures c == [] ==> Concat(c) == []
  {
    if c != [] {
      assert NonEmptyPieces(c[1..]) by {
        assert forall i :: 0 <= i < |c[1..]| ==> c[1..][i] == c[i + 1];
      }
      ConcatLength(c[1..]);
    }
  }

  lemma {:induction false} LastComposition(s: string, k: nat)
    requires 1 <= k <= |s|
    decreases |s| + 1 - k
    ensures |CompositionsFrom(s, k)| >= 1
    ensures CompositionsFrom(s, k)[|CompositionsFrom(s, k)| - 1] == [s]
  {
    var head := PrefixAll(s[..k], Compositions(s[k..]));
    var rest := CompositionsFrom(s, k + 1);
    assert CompositionsFrom(s, k) == head + rest;
    if k == |s| {
      assert s[k..] == [] && s[..k] == s;
      assert Compositions(s[k..]) == [[]];
      assert head[0] == [s] + [] == [s];
      assert rest == [];
    } else {
      LastComposition(s, k + 1);
      assert (head + rest)[|head + rest| - 1] == rest[|rest| - 1];
    }
  }

  /** For a non-empty input: exactly one cut keeps the whole string as one piece,
      it comes last, and every other cut has at least two pieces; no cut has more
      pieces than the input has digits. */
  lemma WholeInputComposition(s: string)
    requires s != []
    ensures |Compositions(s)| >= 1
    ensures Compositions(s)[|Compositions(s)| - 1] == [s]
    ensures forall j :: 0 <= j < |Compositions(s)| - 1 ==> |Compositions(s)[j]| >= 2
    ensures forall j :: 0 <= j < |Compositions(s)| ==> 1 <= |Compositions(s)[j]| <= |s|
  {
    var cs := Compositions(s);
    LastComposition(s, 1);
    CompositionsDistinct(s);
    CompositionsCover(s);
    forall j | 0 <= j < |cs| ensures 1 <= |cs[j]| <= |s| && (j < |cs| - 1 ==> |cs[j]| >= 2) {
      assert cs[j] in cs;
      ConcatLength(cs[j]);
      if |cs[j]| == 1 {
        OnePieceIsWhole(cs[j], s);
        assert cs[j] == cs[|cs| - 1];
      }
    }
  }

  lemma OnePieceIsWhole(c: seq<string>, s: string)
    requires |c| == 1 && Concat(c) == s
    ensures c == [s]
  {
    assert c[1..] == [];
    assert Concat(c[1..]) == [];
    assert Concat(c) == c[0] + Concat(c[1..]) == c[0];
    assert c == [c[0]];
  }

  // ---------------------------------------------------------------------
  // Operand values

  lemma {:induction false} PieceValueBound(c: seq<string>, i: nat)
    requires AllDigits(c) && i < |c|
    ensures IsDigits(Concat(c)) && Value(c[i]) <= Value(Concat(c))
  {
    assert Concat(c) == c[0] + Concat(c[1..]);
    assert AllDigits(c[1..]) by {
      assert forall k :: 0 <= k < |c[1..]| ==> c[1..][k] == c[k + 1];
    }
    if i == 0 {
      if |c| > 1 {
        PieceValueBound(c[1..], 0);
      }
      DigitsOfConcat(c);
      ValueOfConcat(c[0], Concat(c[1..]));
      ScaleAtLeast(Value(c[0]), Pow10(|Concat(c[1..])|));
    } else {
      PieceValueBound(c[1..], i - 1);
      ValueOfConcat(c[0], Concat(c[1..]));
      ScaleAtLeast(Value(c[0]), Pow10(|Concat(c[1..])|));
    }
  }

  lemma {:induction false} DigitsOfConcat(c: seq<string>)
    requires AllDigits(c)
    ensures IsDigits(Concat(c))
  {
    if c != [] {
      assert AllDigits(c[1..]) by {
        assert forall k :: 0 <= k < |c[1..]| ==> c[1..][k] == c[k + 1];
      }
      DigitsOfConcat(c[1..]);
      ValueOfConcat(c[0], Concat(c[1..]));
    }
  }

  /** The j-th partition holds the values of the j-th enumerated cut. */
  lemma PartitionOperands(input: string, j: nat)
    requires IsDigits(input) && j < |Partitions(input)|
    ensures AllDigitPieces(Compositions(input)) && j < |Compositions(input)|
    ensures Partitions(input)[j].operands == Values(Compositions(input)[j])
  {
    DigitCompositions(input);
    assert [] + Values(Compositions(input)[j]) == Values(Compositions(input)[j]);
  }

  /** getPossibleOperands yields 2^(L-1) partitions for an input of L digits,
      one for every subset of the L-1 places between adjacent digits, and no
      cut twice. */
  lemma PartitionsCount(input: string)
    requires IsDigits(input) && input != []
    ensures |Partitions(input)| == Pow2(|input| - 1)
    ensures AllDigitPieces(Compositions(input))
    ensures forall c :: NonEmptyPieces(c) && Concat(c) == input ==> c in Compositions(input)
    ensures Distinct(Compositions(input))
  {
    CompositionsCount(input);
    DigitCompositions(input);
    CompositionsDistinct(input);
    forall c | NonEmptyPieces(c) && Concat(c) == input ensures c in Compositions(input) {
      CompositionsComplete(input, c);
    }
  }

  /** Every partition has between 1 and L operands, and exactly one -- the
      last -- holds the whole input as its single operand. */
  lemma PartitionCounts(input: string)
    requires IsDigits(input) && input != []
    ensures |Partitions(input)| >= 1
    ensures forall j :: 0 <= j < |Partitions(input)| ==> 1 <= Partitions(input)[j].Count() <= |input|
    ensures Partitions(input)[|Partitions(input)| - 1] == PartitionedInput([Value(input)])
    ensures forall j :: 0 <= j < |Partitions(input)| - 1 ==> Partitions(input)[j].Count() >= 2
  {
    var cs, ps := Compositions(input), Partitions(input);
    WholeInputComposition(input);
    forall j | 0 <= j < |ps| ensures ps[j].Count() == |cs[j]| {
      PartitionOperands(input, j);
    }
    PartitionOperands(input, |ps| - 1);
    assert Values([input]) == [Value(input)];
  }

  /** Every operand is the value of its piece, so it lies between 0 and the
      value of the whole input (Long.valueOf never fails on a validated input). */
  lemma PartitionOperandBounds(input: string, j: nat, i: nat)
    requires IsDigits(input)
    requires j < |Partitions(input)| && i < Partitions(input)[j].Count()
    ensures 0 <= Partitions(input)[j].operands[i] <= Value(input)
  {
    PartitionOperands(input, j);
    var cs := Compositions(input);
    CompositionsCover(input);
    assert cs[j] in cs;
    PieceValueBound(cs[j], i);
  }

  /** The whole-input partition is the only one with a single operand. */
  lemma SingleOperandPartition(input: string, j: nat)
    requires IsDigits(input) && input != []
    requires j < |Partitions(input)| && Partitions(input)[j].Count() == 1
    ensures j == |Partitions(input)| - 1
    ensures Partitions(input)[j].operands == [Value(input)]
  {
    PartitionCounts(input);
  }
}
