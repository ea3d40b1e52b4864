/** Which `uselistorder` directives are accepted: two checks that together say that the
indexes are a permutation which changes something. */
module UseLists {

  datatype Verdict = Accepted | NotDistinct | AlreadyInOrder | NoUses | OneUse | WrongCount | OutOfRange

  // -------------------------------------------------------------------- the checks

  function Insert(x: nat, xs: seq<nat>): seq<nat> {
    if xs == [] then [x] else if x <= xs[0] then [x] + xs else [xs[0]] + Insert(x, xs[1..])
  }

  function Sorted(xs: seq<nat>): seq<nat> {
    if xs == [] then [] else Insert(xs[0], Sorted(xs[1..]))
  }

  /** Neighbours that are the same become one. */
  function Dedup(xs: seq<nat>): seq<nat> {
    if |xs| <= 1 then xs
    else if xs[0] == xs[1] then Dedup(xs[1..])
    else [xs[0]] + Dedup(xs[1..])
  }

  predicate Ascends(xs: seq<nat>) {
    forall i :: 0 <= i < |xs| - 1 ==> xs[i] < xs[i + 1]
  }

  /** What is said where the indexes are read, before the uses can be counted. */
  function ReadIndexes(indexes: seq<nat>): Verdict {
    if |Dedup(Sorted(indexes))| != |indexes| then NotDistinct
    else if Ascends(indexes) then AlreadyInOrder
    else Accepted
  }

  /** What is said once the uses have been counted. */
  function UseListVerdict(uses: nat, indexes: seq<nat>): Verdict {
    if uses == 0 then NoUses
    else if uses == 1 then OneUse
    else if |indexes| != uses then WrongCount
    else if exists i :: 0 <= i < |indexes| && indexes[i] >= uses then OutOfRange
    else Accepted
  }

  function Checked(uses: nat, indexes: seq<nat>): Verdict {
    if ReadIndexes(indexes).Accepted? then UseListVerdict(uses, indexes) else ReadIndexes(indexes)
  }

  // --------------------------------------------------------------------- what they say

  predicate Distinct(xs: seq<nat>) {
    forall i, j :: 0 <= i < j < |xs| ==> xs[i] != xs[j]
  }

  predicate Ordered(xs: seq<nat>) {
    |xs| <= 1 || (xs[0] <= xs[1] && Ordered(xs[1..]))
  }

  /** Every position of a list of `n`, exactly once. */
  ghost predicate IsPermutation(n: nat, xs: seq<nat>) {
    && |xs| == n
    && (forall i :: 0 <= i < n ==> xs[i] < n)
    && (forall p: nat :: p < n ==> p in xs)
    && Distinct(xs)
  }

  predicate IsIdentity(xs: seq<nat>) {
    forall i :: 0 <= i < |xs| ==> xs[i] == i
  }

  ghost function Members(xs: seq<nat>): (s: set<nat>)
    ensures forall x :: x in s <==> x in xs
  {
    if xs == [] then {} else {xs[0]} + Members(xs[1..])
  }

  lemma {:induction false} InsertOrdered(x: nat, xs: seq<nat>)
    requires Ordered(xs)
    ensures Ordered(Insert(x, xs)) && |Insert(x, xs)| == |xs| + 1
    ensures Members(Insert(x, xs)) == {x} + Members(xs)
  {
    if xs != [] && x > xs[0] {
      InsertOrdered(x, xs[1..]);
      assert Insert(x, xs)[1..] == Insert(x, xs[1..]);
    } else {
      assert ([x] + xs)[1..] == xs;
    }
  }

  lemma {:induction false} SortedOrdered(xs: seq<nat>)
    ensures Ordered(Sorted(xs)) && |Sorted(xs)| == |xs| && Members(Sorted(xs)) == Members(xs)
  {
    if xs != [] {
      SortedOrdered(xs[1..]);
      InsertOrdered(xs[0], Sorted(xs[1..]));
    }
  }

  lemma {:induction false} HeadIsLeast(xs: seq<nat>, x: nat)
    requires Ordered(xs) && x in xs
    ensures xs[0] <= x
  {
    if x != xs[0] {
      assert xs == [xs[0]] + xs[1..];
      HeadIsLeast(xs[1..], x);
    }
  }

  lemma {:induction false} DedupCounts(xs: seq<nat>)
    requires Ordered(xs)
    ensures |Dedup(xs)| == |Members(xs)|
  {
    if |xs| == 1 {
      assert Members(xs) == {xs[0]};
    } else if |xs| > 1 {
      DedupCounts(xs[1..]);
      if xs[0] == xs[1] {
        assert xs[1..][0] in Members(xs[1..]);
        assert Members(xs) == Members(xs[1..]);
      } else if xs[0] in xs[1..] {
        HeadIsLeast(xs[1..], xs[0]);
      }
    }
  }

  lemma {:induction false} DistinctCounts(xs: seq<nat>)
    ensures |Members(xs)| <= |xs|
    ensures |Members(xs)| == |xs| <==> Distinct(xs)
  {
    if xs != [] {
      DistinctCounts(xs[1..]);
      DistinctTail(xs);
      if xs[0] in xs[1..] {
        assert Members(xs) == Members(xs[1..]);
      }
    }
  }

  lemma DistinctTail(xs: seq<nat>)
    requires xs != []
    ensures Distinct(xs) <==> xs[0] !in xs[1..] && Distinct(xs[1..])
  {
    var rest := xs[1..];
    if Distinct(xs) {
      forall i | 0 <= i < |rest| ensures rest[i] != xs[0] {}
    } else {
      var i, j :| 0 <= i < j < |xs| && xs[i] == xs[j];
      assert rest[j - 1] == xs[j];
      if i > 0 {
        assert rest[i - 1] == xs[i];
      }
    }
  }

  /** Sorting and dropping repeats keeps the count exactly when there are none. */
  lemma ReadingFindsRepeats(xs: seq<nat>)
    ensures |Dedup(Sorted(xs))| == |xs| <==> Distinct(xs)
  {
    SortedOrdered(xs);
    DedupCounts(Sorted(xs));
    DistinctCounts(xs);
  }

  ghost function Below(n: nat): (s: set<nat>)
    ensures |s| == n && forall x: nat :: x in s <==> x < n
  {
    if n == 0 then {} else Below(n - 1) + {n - 1}
  }

  lemma SubsetOfSameSize(a: set<nat>, b: set<nat>)
    requires a <= b && |a| == |b|
    ensures a == b
  {
    if exists x :: x in b && x !in a {
      var x :| x in b && x !in a;
      SubsetSize(a, b - {x});
    }
  }

  lemma {:induction false} SubsetSize(a: set<nat>, b: set<nat>)
    requires a <= b
    ensures |a| <= |b|
  {
    if a != {} {
      var x :| x in a;
      SubsetSize(a - {x}, b - {x});
    }
  }

  /** As many distinct positions as there are positions are all of them. */
  lemma DistinctInRangeCovers(n: nat, xs: seq<nat>)
    requires |xs| == n && Distinct(xs) && forall i :: 0 <= i < n ==> xs[i] < n
    ensures IsPermutation(n, xs)
  {
    DistinctCounts(xs);
    SubsetOfSameSize(Members(xs), Below(n));
    forall p: nat | p < n ensures p in xs {
      assert p in Below(n);
    }
  }

  lemma {:induction false} AscendingIsAtLeast(xs: seq<nat>, i: nat)
    requires Ascends(xs) && i < |xs|
    ensures xs[i] >= i
  {
    if i > 0 {
      AscendingIsAtLeast(xs, i - 1);
    }
  }

  lemma {:induction false} AscendingIsAtMost(xs: seq<nat>, i: nat)
    requires Ascends(xs) && i < |xs| && xs[|xs| - 1] < |xs|
    ensures xs[i] <= i
    decreases |xs| - i
  {
    if i < |xs| - 1 {
      AscendingIsAtMost(xs, i + 1);
    }
  }

  /** A permutation in ascending order is the one that changes nothing. */
  lemma AscendingIsIdentity(n: nat, xs: seq<nat>)
    requires IsPermutation(n, xs)
    ensures Ascends(xs) <==> IsIdentity(xs)
  {
    if Ascends(xs) {
      forall i | 0 <= i < n ensures xs[i] == i {
        AscendingIsAtLeast(xs, i);
        AscendingIsAtMost(xs, i);
      }
    }
  }

  /** The two checks let through exactly the permutations of at least two uses that change
  their order. */
  lemma AcceptedExactly(uses: nat, indexes: seq<nat>)
    ensures Checked(uses, indexes).Accepted? <==> uses >= 2 && IsPermutation(uses, indexes) && !IsIdentity(indexes)
  {
    ReadingFindsRepeats(indexes);
    if Distinct(indexes) && |indexes| == uses && forall i :: 0 <= i < uses ==> indexes[i] < uses {
      DistinctInRangeCovers(uses, indexes);
    }
    if IsPermutation(uses, indexes) {
      AscendingIsIdentity(uses, indexes);
    }
  }
}
