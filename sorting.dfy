/** Collections.sort(operandsList) in ConcurrentEquationGenerator.generate:
    a stable sort by PartitionedInput.compareTo, so partitions with fewer
    operands come first and partitions with equally many operands keep the
    order in which getPossibleOperands produced them. */
module Ordering {
  import opened Decimal
  import opened Partitioning
  import opened PartitionProperties

  /** Puts p in front of the first element it does not compare greater than. */
  function Insert(p: PartitionedInput, s: seq<PartitionedInput>): (r: seq<PartitionedInput>)
    decreases |s|
    ensures |r| == |s| + 1
  {
    if s == [] then [p]
    else if p.CompareTo(s[0]) <= 0 then [p] + s
    else [s[0]] + Insert(p, s[1..])
  }

  /** The order Collections.sort leaves the list in; the sort neither adds
      nor drops an element. */
  function SortByCount(ps: seq<PartitionedInput>): (r: seq<PartitionedInput>)
    decreases |ps|
    ensures |r| == |ps|
  {
    if ps == [] then [] else Insert(ps[0], SortByCount(ps[1..]))
  }

  predicate SortedByCount(s: seq<PartitionedInput>) {
    forall i, j :: 0 <= i < j < |s| ==> s[i].CompareTo(s[j]) <= 0
  }

  /** The elements of s with exactly n operands, in their order in s. */
  function WithCount(s: seq<PartitionedInput>, n: nat): seq<PartitionedInput>
    decreases |s|
  {
    if s == [] then []
    else (if s[0].Count() == n then [s[0]] else []) + WithCount(s[1..], n)
  }

  lemma WithCountCons(p: PartitionedInput, s: seq<PartitionedInput>, n: nat)
    ensures WithCount([p] + s, n) == (if p.Count() == n then [p] else []) + WithCount(s, n)
  {
    assert ([p] + s)[1..] == s;
  }

  // ---------------------------------------------------------------------
  // Insertion

  /** Insert adds p and keeps every element: a permutation of s plus p. */
  lemma {:induction false} InsertPermutes(p: PartitionedInput, s: seq<PartitionedInput>)
    decreases |s|
    ensures multiset(Insert(p, s)) == multiset(s) + multiset{p}
    ensures forall x :: x in Insert(p, s) <==> x == p || x in s
  {
    if s != [] && p.CompareTo(s[0]) > 0 {
      InsertPermutes(p, s[1..]);
      assert s == [s[0]] + s[1..];
    }
  }

  lemma SortedCons(x: PartitionedInput, r: seq<PartitionedInput>)
    requires SortedByCount(r)
    requires forall y :: y in r ==> x.CompareTo(y) <= 0
    ensures SortedByCount([x] + r)
  {
    forall i, j | 0 <= i < j < |[x] + r| ensures ([x] + r)[i].CompareTo(([x] + r)[j]) <= 0 {
      if i == 0 {
        assert ([x] + r)[j] in r;
      } else {
        assert ([x] + r)[i] == r[i - 1] && ([x] + r)[j] == r[j - 1];
      }
    }
  }

  lemma {:induction false} InsertSorted(p: PartitionedInput, s: seq<PartitionedInput>)
    requires SortedByCount(s)
    decreases |s|
    ensures SortedByCount(Insert(p, s))
  {
    if s == [] {
    } else if p.CompareTo(s[0]) <= 0 {
      forall y | y in s ensures p.CompareTo(y) <= 0 {
        var k :| 0 <= k < |s| && s[k] == y;
        if k > 0 {
          assert s[0].CompareTo(s[k]) <= 0;
        }
      }
      SortedCons(p, s);
    } else {
      SortedTail(s);
      InsertSorted(p, s[1..]);
      InsertPermutes(p, s[1..]);
      forall y | y in Insert(p, s[1..]) ensures s[0].CompareTo(y) <= 0 {
        if y != p {
          var k :| 0 <= k < |s[1..]| && s[1..][k] == y;
          assert s[k + 1] == y;
        }
      }
      SortedCons(s[0], Insert(p, s[1..]));
    }
  }

  lemma {:induction false} InsertStable(p: PartitionedInput, s: seq<PartitionedInput>, n: nat)
    requires SortedByCount(s)
    decreases |s|
    ensures WithCount(Insert(p, s), n) == (if p.Count() == n then [p] else []) + WithCount(s, n)
  {
    if s == [] {
      WithCountCons(p, [], n);
      assert [p] + [] == [p];
    } else if p.CompareTo(s[0]) <= 0 {
      WithCountCons(p, s, n);
    } else {
      assert SortedByCount(s[1..]) by {
        assert forall i :: 0 <= i < |s| - 1 ==> s[1..][i] == s[i + 1];
      }
      InsertStable(p, s[1..], n);
      WithCountCons(s[0], Insert(p, s[1..]), n);
    }
  }

  // ---------------------------------------------------------------------
  // The sort

  /** The sorted list is ordered by compareTo and holds the same partitions,
      each as often as before. */
  lemma SortSortsAndPermutes(ps: seq<PartitionedInput>)
    ensures SortedByCount(SortByCount(ps))
    ensures multiset(SortByCount(ps)) == multiset(ps)
  {
    SortSorts(ps);
    SortPermutes(ps);
  }

  lemma {:induction false} SortSorts(ps: seq<PartitionedInput>)
    decreases |ps|
    ensures SortedByCount(SortByCount(ps))
  {
    if ps != [] {
      SortSorts(ps[1..]);
      InsertSorted(ps[0], SortByCount(ps[1..]));
    }
  }

  lemma {:induction false} SortPermutes(ps: seq<PartitionedInput>)
    decreases |ps|
    ensures multiset(SortByCount(ps)) == multiset(ps)
  {
    if ps != [] {
      var rest := SortByCount(ps[1..]);
      assert multiset(rest) == multiset(ps[1..]) by { SortPermutes(ps[1..]); }
      assert multiset(Insert(ps[0], rest)) == multiset(rest) + multiset{ps[0]} by {
        InsertPermutes(ps[0], rest);
      }
      assert multiset(ps) == multiset(ps[1..]) + multiset{ps[0]} by {
        assert ps == [ps[0]] + ps[1..];
      }
    }
  }

  /** Stability: the partitions with any given number of operands keep their
      relative order. */
  lemma {:induction false} SortIsStable(ps: seq<PartitionedInput>, n: nat)
    decreases |ps|
    ensures WithCount(SortByCount(ps), n) == WithCount(ps, n)
  {
    if ps != [] {
      SortSortsAndPermutes(ps[1..]);
      SortIsStable(ps[1..], n);
      InsertStable(ps[0], SortByCount(ps[1..]), n);
    }
  }

  /** A list sorted by operand count is determined by its elements of each
      count, in order: so every stable sort by compareTo, Collections.sort
      included, leaves the list exactly as SortByCount does. */
  lemma {:induction false} SortedUnique(a: seq<PartitionedInput>, b: seq<PartitionedInput>)
    requires SortedByCount(a) && SortedByCount(b)
    requires forall n: nat :: WithCount(a, n) == WithCount(b, n)
    decreases |a| + |b|
    ensures a == b
  {
    if a == [] && b == [] {
    } else if a == [] || b == [] {
      // the non-empty one has an element of its head's count, the other none
      if a != [] {
        WithCountHead(a);
      } else {
        WithCountHead(b);
      }
      assert false;
    } else {
      var m, m' := a[0].Count(), b[0].Count();
      WithCountHead(a);
      WithCountHead(b);
      WithCountLowerBound(b, m);
      WithCountLowerBound(a, m');
      assert m == m';
      forall n: nat ensures WithCount(a[1..], n) == WithCount(b[1..], n) {
        TailsAgree(a, b, n);
      }
      assert a[0] == b[0] by {
        assert WithCount(a, m)[0] == a[0] && WithCount(b, m)[0] == b[0];
      }
      SortedTail(a);
      SortedTail(b);
      SortedUnique(a[1..], b[1..]);
      assert a == [a[0]] + a[1..] && b == [b[0]] + b[1..];
    }
  }

  /** Lists whose heads have the same count and whose count-n elements agree
      also agree after dropping the heads. */
  lemma TailsAgree(a: seq<PartitionedInput>, b: seq<PartitionedInput>, n: nat)
    requires a != [] && b != [] && a[0].Count() == b[0].Count()
    requires WithCount(a, n) == WithCount(b, n)
    ensures WithCount(a[1..], n) == WithCount(b[1..], n)
  {
    WithCountCons(a[0], a[1..], n);
    WithCountCons(b[0], b[1..], n);
    assert a == [a[0]] + a[1..] && b == [b[0]] + b[1..];
    var A, B := WithCount(a[1..], n), WithCount(b[1..], n);
    if a[0].Count() == n {
      assert WithCount(a, n) == [a[0]] + A && WithCount(b, n) == [b[0]] + B;
      assert ([a[0]] + A)[1..] == A && ([b[0]] + B)[1..] == B;
    } else {
      assert WithCount(a, n) == [] + A && WithCount(b, n) == [] + B;
      assert [] + A == A && [] + B == B;
    }
  }

  lemma SortedTail(s: seq<PartitionedInput>)
    requires SortedByCount(s) && s != []
    ensures SortedByCount(s[1..])
  {
    assert forall i :: 0 <= i < |s| - 1 ==> s[1..][i] == s[i + 1];
  }

  /** The first element of a non-empty list heads the list of its count. */
  lemma WithCountHead(s: seq<PartitionedInput>)
    requires s != []
    ensures WithCount(s, s[0].Count()) != []
    ensures WithCount(s, s[0].Count())[0] == s[0]
  {
    WithCountCons(s[0], s[1..], s[0].Count());
    assert s == [s[0]] + s[1..];
  }

  /** In a sorted list, an element of count n exists only if the head has at
      most n operands. */
  lemma WithCountLowerBound(s: seq<PartitionedInput>, n: nat)
    requires SortedByCount(s) && s != []
    requires WithCount(s, n) != []
    ensures s[0].Count() <= n
  {
    var j := WithCountMember(s, n);
    if j > 0 {
      assert s[0].CompareTo(s[j]) <= 0;
    }
  }

  /** Every element of WithCount(s, n) is an element of s with n operands. */
  lemma {:induction false} WithCountMember(s: seq<PartitionedInput>, n: nat) returns (j: nat)
    requires WithCount(s, n) != []
    decreases |s|
    ensures j < |s| && s[j].Count() == n
  {
    if s[0].Count() == n {
      j := 0;
    } else {
      var k := WithCountMember(s[1..], n);
      j := k + 1;
    }
  }

  /** Filtering by count distributes over concatenation. */
  lemma {:induction false} WithCountAppend(a: seq<PartitionedInput>, b: seq<PartitionedInput>, n: nat)
    decreases |a|
    ensures WithCount(a + b, n) == WithCount(a, n) + WithCount(b, n)
  {
    if a == [] {
      assert a + b == b;
    } else {
      assert a + b == [a[0]] + (a[1..] + b);
      WithCountCons(a[0], a[1..] + b, n);
      WithCountCons(a[0], a[1..], n);
      assert a == [a[0]] + a[1..];
      WithCountAppend(a[1..], b, n);
      SeqAssoc(if a[0].Count() == n then [a[0]] else [], WithCount(a[1..], n), WithCount(b, n));
    }
  }

  /** WithCount(s, n) holds exactly the elements of s with n operands. */
  lemma {:induction false} WithCountMembers(s: seq<PartitionedInput>, n: nat)
    decreases |s|
    ensures forall x :: x in WithCount(s, n) <==> x in s && x.Count() == n
  {
    if s != [] {
      WithCountMembers(s[1..], n);
      WithCountCons(s[0], s[1..], n);
      assert s == [s[0]] + s[1..];
    }
  }

  /** The m-th element of count n sits at some index j of s, and the
      elements of count n before j are the first m of them. */
  lemma {:induction false} WithCountIndex(s: seq<PartitionedInput>, n: nat, m: nat) returns (j: nat)
    requires m < |WithCount(s, n)|
    decreases |s|
    ensures j < |s| && s[j] == WithCount(s, n)[m]
    ensures WithCount(s[..j], n) == WithCount(s, n)[..m]
  {
    var w, w' := WithCount(s, n), WithCount(s[1..], n);
    if s[0].Count() == n && m == 0 {
      j := 0;
    } else {
      var m' := if s[0].Count() == n then m - 1 else m;
      assert w == (if s[0].Count() == n then [s[0]] else []) + w';
      var k := WithCountIndex(s[1..], n, m');
      j := k + 1;
      assert s[..j] == [s[0]] + s[1..][..k];
      WithCountCons(s[0], s[1..][..k], n);
      if s[0].Count() == n {
        assert w[..m] == [s[0]] + w'[..m'];
      } else {
        assert w == w';
      }
    }
  }

  /** Stability, entry by entry: entry i of the sorted list is element j of
      ps, and every element of ps before j with as many operands lands before
      entry i. */
  lemma StableIndex(ps: seq<PartitionedInput>, i: nat) returns (j: nat)
    requires i < |SortByCount(ps)|
    ensures j < |ps| && ps[j] == SortByCount(ps)[i]
    ensures forall k :: 0 <= k < j && ps[k].Count() == ps[j].Count() ==> ps[k] in SortByCount(ps)[..i]
  {
    var sorted := SortByCount(ps);
    var c := sorted[i].Count();
    var A, B := sorted[..i], sorted[i..];
    assert sorted == A + B;
    WithCountAppend(A, B, c);
    assert B[0] == sorted[i];
    WithCountHead(B);
    var m := |WithCount(A, c)|;
    var W := WithCount(sorted, c);
    assert W[m] == sorted[i];
    assert W[..m] == WithCount(A, c);
    SortIsStable(ps, c);
    j := WithCountIndex(ps, c, m);
    WithCountMembers(ps[..j], c);
    WithCountMembers(A, c);
    forall k | 0 <= k < j && ps[k].Count() == c ensures ps[k] in A {
      assert ps[k] == ps[..j][k];
    }
  }

  // ---------------------------------------------------------------------
  // The partitions of an input, sorted

  /** A list sorted by count, holding an element with one operand and none
      with fewer, starts with an element that has one operand. */
  lemma SingleOperandFirst(sorted: seq<PartitionedInput>, ps: seq<PartitionedInput>)
    requires SortedByCount(sorted) && multiset(sorted) == multiset(ps)
    requires ps != [] && ps[|ps| - 1].Count() == 1
    requires forall j :: 0 <= j < |ps| ==> ps[j].Count() >= 1
    ensures sorted != [] && sorted[0].Count() == 1 && sorted[0] in ps
  {
    var whole := ps[|ps| - 1];
    assert whole in multiset(sorted);
    var w :| 0 <= w < |sorted| && sorted[w] == whole;
    assert sorted[0] in multiset(ps);
    if w > 0 {
      assert sorted[0].CompareTo(sorted[w]) <= 0;
    }
  }

  /** After sorting, the whole-input partition -- the only one with a single
      operand -- comes first, every partition is still there, and counts never
      decrease. */
  lemma SortedPartitions(input: string)
    requires IsDigits(input) && input != []
    ensures SortedByCount(SortByCount(Partitions(input)))
    ensures multiset(SortByCount(Partitions(input))) == multiset(Partitions(input))
    ensures |SortByCount(Partitions(input))| == |Partitions(input)| == Pow2(|input| - 1)
    ensures SortByCount(Partitions(input))[0] == PartitionedInput([Value(input)])
  {
    var ps := Partitions(input);
    var sorted := SortByCount(ps);
    assert SortedByCount(sorted) && multiset(sorted) == multiset(ps) by { SortSortsAndPermutes(ps); }
    assert |ps| == Pow2(|input| - 1) by { PartitionsCount(input); }
    assert ps != [] && ps[|ps| - 1].Count() == 1 && forall j :: 0 <= j < |ps| ==> ps[j].Count() >= 1 by {
      PartitionCounts(input);
    }
    SingleOperandFirst(sorted, ps);
    var j :| 0 <= j < |ps| && ps[j] == sorted[0];
    assert ps[j].operands == [Value(input)] by { SingleOperandPartition(input, j); }
  }
}
