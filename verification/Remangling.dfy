/** Renaming intrinsic declarations to their canonical names, in place: some change names,
some swap them, and some turn out to be another's and are merged into it. */
module Remangling {
  import opened Wrappers

  // --------------------------------------------------------------- what is wanted

  /** The canonical name of a declaration that does not have it yet. */
  function Wanted(names: seq<string>, canonical: seq<Option<string>>, i: nat): Option<string>
    requires |names| == |canonical| && i < |names|
  {
    if canonical[i].Some? && canonical[i].value != names[i] then canonical[i] else None
  }

  /** The name a declaration is known by once all is done. */
  function Keeps(names: seq<string>, canonical: seq<Option<string>>, i: nat): string
    requires |names| == |canonical| && i < |names|
  {
    match Wanted(names, canonical, i) case Some(c) => c case None => names[i]
  }

  /** Another declaration has the name and keeps it. */
  predicate IsHolder(names: seq<string>, canonical: seq<Option<string>>, other: nat, name: string)
    requires |names| == |canonical| && other < |names|
  {
    Wanted(names, canonical, other).None? && names[other] == name
  }

  predicate IsClaimant(names: seq<string>, canonical: seq<Option<string>>, i: nat, other: nat)
    requires |names| == |canonical| && i < |names| && other < |names|
  {
    && Wanted(names, canonical, i).Some?
    && ((other != i && IsHolder(names, canonical, other, Keeps(names, canonical, i)))
        || (other < i && Keeps(names, canonical, other) == Keeps(names, canonical, i)))
  }

  predicate IsMerged(names: seq<string>, canonical: seq<Option<string>>, i: nat)
    requires |names| == |canonical| && i < |names|
  {
    exists other :: 0 <= other < |names| && IsClaimant(names, canonical, i, other)
  }

  /** A merged declaration keeps the name it was written with. */
  function NewName(names: seq<string>, canonical: seq<Option<string>>, i: nat): string
    requires |names| == |canonical| && i < |names|
  {
    if IsMerged(names, canonical, i) then names[i] else Keeps(names, canonical, i)
  }

  function NewNames(names: seq<string>, canonical: seq<Option<string>>): (r: seq<string>)
    requires |names| == |canonical|
    ensures |r| == |names|
  {
    seq(|names|, i requires 0 <= i < |names| => NewName(names, canonical, i))
  }

  predicate Distinct(names: seq<string>) {
    forall i, j :: 0 <= i < j < |names| ==> names[i] != names[j]
  }

  // ------------------------------------------------------------- who stands for whom

  /** The first declaration that will be known by a name. */
  function FirstKeeping(names: seq<string>, canonical: seq<Option<string>>, name: string, n: nat): (first: nat)
    requires |names| == |canonical| && n <= |names|
    requires exists i :: 0 <= i < n && Keeps(names, canonical, i) == name
    ensures first < n && Keeps(names, canonical, first) == name
    ensures forall i :: 0 <= i < first ==> Keeps(names, canonical, i) != name
    decreases n
  {
    if exists i :: 0 <= i < n - 1 && Keeps(names, canonical, i) == name
    then FirstKeeping(names, canonical, name, n - 1)
    else n - 1
  }

  /** Every name is printed: some declaration that stays bears it. */
  lemma SomeoneStays(names: seq<string>, canonical: seq<Option<string>>, i: nat) returns (r: nat)
    requires |names| == |canonical| && i < |names| && Distinct(names)
    ensures r < |names| && !IsMerged(names, canonical, r) && NewName(names, canonical, r) == Keeps(names, canonical, i)
    ensures IsMerged(names, canonical, i) ==> r < i || IsHolder(names, canonical, r, Keeps(names, canonical, i))
  {
    var name := Keeps(names, canonical, i);
    if !IsMerged(names, canonical, i) {
      r := i;
    } else if exists other :: 0 <= other < |names| && IsHolder(names, canonical, other, name) {
      r :| 0 <= r < |names| && IsHolder(names, canonical, r, name);
    } else {
      var other :| 0 <= other < |names| && IsClaimant(names, canonical, i, other);
      r := FirstKeeping(names, canonical, name, other + 1);
      FirstYieldsToHolder(names, canonical, r);
    }
  }

  lemma FirstYieldsToHolder(names: seq<string>, canonical: seq<Option<string>>, r: nat)
    requires |names| == |canonical| && r < |names|
    requires forall i :: 0 <= i < r ==> Keeps(names, canonical, i) != Keeps(names, canonical, r)
    ensures IsMerged(names, canonical, r) ==>
              exists other :: 0 <= other < |names| && IsHolder(names, canonical, other, Keeps(names, canonical, r))
  {
    if IsMerged(names, canonical, r) {
      var other :| 0 <= other < |names| && IsClaimant(names, canonical, r, other);
      assert IsHolder(names, canonical, other, Keeps(names, canonical, r));
    }
  }

  /** And only one: two declarations that stay are known by different names. */
  lemma StayingNamesDiffer(names: seq<string>, canonical: seq<Option<string>>, i: nat, j: nat)
    requires |names| == |canonical| && i < j < |names| && Distinct(names)
    ensures IsMerged(names, canonical, i) || IsMerged(names, canonical, j)
         || NewName(names, canonical, i) != NewName(names, canonical, j)
  {
    if Keeps(names, canonical, i) == Keeps(names, canonical, j) {
      if Wanted(names, canonical, j).Some? {
        assert IsClaimant(names, canonical, j, i);
      } else if Wanted(names, canonical, i).Some? {
        assert IsClaimant(names, canonical, i, j);
      }
    }
  }

  /** The first declaration with a name, which may itself have been merged away. */
  function Position(names: seq<string>, name: string): (r: Option<nat>)
    ensures r.Some? ==> r.value < |names| && names[r.value] == name
    ensures r.Some? ==> forall i :: 0 <= i < r.value ==> names[i] != name
    ensures r.None? ==> name !in names
  {
    if names == [] then None
    else if names[0] == name then Some(0)
    else match Position(names[1..], name) case Some(i) => Some(i + 1) case None => None
  }

  /** Where the calls of a merged declaration are sent is never a declaration whose own calls
  are still to be sent on: it stays, or it was merged before. */
  lemma TargetIsSettled(names: seq<string>, canonical: seq<Option<string>>, i: nat)
    requires |names| == |canonical| && i < |names| && Distinct(names) && IsMerged(names, canonical, i)
    ensures var to := Position(NewNames(names, canonical), Keeps(names, canonical, i));
            to.Some? && (to.value < i || !IsMerged(names, canonical, to.value))
  {
    var new_, name := NewNames(names, canonical), Keeps(names, canonical, i);
    var r := SomeoneStays(names, canonical, i);
    assert new_[r] == name;
    var to := Position(new_, name).value;
    assert to <= r;
    if to < r {
      assert new_[to] == NewName(names, canonical, to);
      StayingNamesDiffer(names, canonical, to, r);
    }
  }

  // -------------------------------------------------------------------- print order

  function Without(order: seq<nat>, gone: seq<nat>): seq<nat> {
    if order == [] then []
    else (if order[0] in gone then [] else [order[0]]) + Without(order[1..], gone)
  }

  function Numbers(n: nat): (r: seq<nat>)
    ensures |r| == n && forall i :: 0 <= i < n ==> r[i] == i
  {
    seq(n, i requires 0 <= i => i)
  }

  ghost predicate NoRepeats(xs: seq<nat>) {
    forall i, j :: 0 <= i < j < |xs| ==> xs[i] != xs[j]
  }

  lemma {:induction false} WithoutKeeps(order: seq<nat>, gone: seq<nat>)
    ensures forall x :: x in Without(order, gone) <==> x in order && x !in gone
    ensures NoRepeats(order) ==> NoRepeats(Without(order, gone))
  {
    if order != [] {
      WithoutKeeps(order[1..], gone);
      assert order == [order[0]] + order[1..];
      if NoRepeats(order) {
        var rest := Without(order[1..], gone);
        assert order[0] !in order[1..];
        forall j | 0 <= j < |rest| ensures rest[j] != order[0] {
          assert rest[j] in rest;
        }
      }
    }
  }

  // ------------------------------------------------------------------------- calls

  function Redirect(callees: seq<Option<nat>>, from: nat, to: nat): (r: seq<Option<nat>>)
    ensures |r| == |callees|
  {
    seq(|callees|, k requires 0 <= k < |callees| => if callees[k] == Some(from) then Some(to) else callees[k])
  }

  /** What a call names when the declarations before `n` have been merged. */
  ghost function CalleeAfter(
    names: seq<string>, canonical: seq<Option<string>>, callee: Option<nat>, n: nat): Option<nat>
    requires |names| == |canonical|
  {
    match callee
    case None => None
    case Some(f) =>
      if f < n && f < |names| && IsMerged(names, canonical, f)
      then Position(NewNames(names, canonical), Keeps(names, canonical, f))
      else callee
  }

  ghost predicate CalleesAfter(
    names: seq<string>, canonical: seq<Option<string>>, was: seq<Option<nat>>, callees: seq<Option<nat>>, n: nat)
    requires |names| == |canonical|
  {
    |callees| == |was| && forall k :: 0 <= k < |was| ==> callees[k] == CalleeAfter(names, canonical, was[k], n)
  }

  /** Merging one more declaration moves its own calls and no call already moved. */
  lemma MergeStep(
    names: seq<string>, canonical: seq<Option<string>>, was: seq<Option<nat>>, callees: seq<Option<nat>>, n: nat)
    requires |names| == |canonical| && Distinct(names) && n < |names|
    requires CalleesAfter(names, canonical, was, callees, n)
    ensures IsMerged(names, canonical, n) ==>
              var to := Position(NewNames(names, canonical), Keeps(names, canonical, n));
              to.Some? && CalleesAfter(names, canonical, was, Redirect(callees, n, to.value), n + 1)
    ensures !IsMerged(names, canonical, n) ==> CalleesAfter(names, canonical, was, callees, n + 1)
  {
    if IsMerged(names, canonical, n) {
      TargetIsSettled(names, canonical, n);
      var to := Position(NewNames(names, canonical), Keeps(names, canonical, n)).value;
      var new_ := Redirect(callees, n, to);
      forall k | 0 <= k < |was| ensures new_[k] == CalleeAfter(names, canonical, was[k], n + 1) {
        if was[k].Some? && was[k].value < n && IsMerged(names, canonical, was[k].value) {
          TargetIsSettled(names, canonical, was[k].value);
        }
      }
    }
  }

  /** Every call still names, by name, what it named: a declaration known by the canonical
  name of the one it was written with, and printed under that name exactly once. */
  lemma CallsKeepTheirNames(names: seq<string>, canonical: seq<Option<string>>, f: nat)
    requires |names| == |canonical| && Distinct(names) && f < |names|
    ensures var after, new_ := CalleeAfter(names, canonical, Some(f), |names|), NewNames(names, canonical);
            && after.Some? && after.value < |names| && new_[after.value] == Keeps(names, canonical, f)
            && exists p :: 0 <= p < |names| && IsTheOne(names, canonical, Keeps(names, canonical, f), p)
  {
    if IsMerged(names, canonical, f) {
      TargetIsSettled(names, canonical, f);
    }
    var p := SomeoneStays(names, canonical, f);
    forall q | 0 <= q < |names| && !IsMerged(names, canonical, q) && NewName(names, canonical, q) == Keeps(names, canonical, f)
      ensures q == p
    {
      if q < p {
        StayingNamesDiffer(names, canonical, q, p);
      } else if p < q {
        StayingNamesDiffer(names, canonical, p, q);
      }
    }
    assert IsTheOne(names, canonical, Keeps(names, canonical, f), p);
  }

  /** The one declaration printed under a name. */
  ghost predicate IsTheOne(names: seq<string>, canonical: seq<Option<string>>, name: string, p: nat)
    requires |names| == |canonical| && p < |names|
  {
    && !IsMerged(names, canonical, p) && NewName(names, canonical, p) == name
    && forall q :: 0 <= q < |names| && !IsMerged(names, canonical, q) && NewName(names, canonical, q) == name ==> q == p
  }

  // ----------------------------------------------------------------------- in place

  /** A module's functions: their names, what its calls name, and the order functions print
  in where that is not the order they are held in. */
  class Module {
    var names: seq<string>
    var callees: seq<Option<nat>>
    var order: seq<nat>

    constructor (names: seq<string>, callees: seq<Option<nat>>)
      ensures this.names == names && this.callees == callees && order == []
    {
      this.names, this.callees, order := names, callees, [];
    }

    function PrintOrder(): seq<nat>
      reads this
    {
      if order == [] then Numbers(|names|) else order
    }

    /** Renames what may be renamed, and says what was renamed and what has to be merged. */
    method Rename(canonical: seq<Option<string>>, rebuilt: set<nat>) returns (moved: seq<nat>, merged: seq<nat>)
      requires |names| == |canonical| && Distinct(names)
      modifies this`names
      ensures names == NewNames(old(names), canonical)
      ensures ListsMerged(old(names), canonical, merged, |names|)
      ensures ListsMoved(old(names), canonical, rebuilt, moved, |names|)
    {
      var was := names;
      moved, merged := [], [];
      var wanted := seq(|was|, i requires 0 <= i < |was| => Wanted(was, canonical, i));
      var keeps := AllKeep(was, canonical);
      for index := 0 to |names|
        invariant RenamedUpTo(was, canonical, names, index)
        invariant ListsMerged(was, canonical, merged, index)
        invariant ListsMoved(was, canonical, rebuilt, moved, index)
      {
        ListsOneMore(was, canonical, rebuilt, merged, moved, index);
        if wanted[index].Some? {
          var name := wanted[index].value;
          var claimed := ClaimedBy(wanted, keeps, index, name, was, canonical);
          if claimed {
            merged := merged + [index];
          } else {
            names := names[index := name];
            if index !in rebuilt {
              moved := moved + [index];
            }
          }
        } else {
          NotMerged(was, canonical, index);
        }
      }
    }

    /** Whether another declaration has the name and keeps it, or an earlier one wants it. */
    method ClaimedBy(
      wanted: seq<Option<string>>, keeps: seq<string>, index: nat, name: string, ghost was: seq<string>,
      ghost canonical: seq<Option<string>>)
      returns (claimed: bool)
      requires |names| == |was| == |canonical| == |wanted| == |keeps| && index < |names|
      requires forall i :: 0 <= i < |was| ==> wanted[i] == Wanted(was, canonical, i) && keeps[i] == Keeps(was, canonical, i)
      requires forall i :: 0 <= i < |was| && wanted[i].None? ==> names[i] == was[i]
      requires wanted[index] == Some(name)
      ensures claimed <==> IsMerged(was, canonical, index)
    {
      for other := 0 to |names|
        invariant forall i :: 0 <= i < other ==> !IsClaimant(was, canonical, index, i)
      {
        if (other != index && wanted[other].None? && names[other] == name) || (other < index && keeps[other] == name) {
          assert IsClaimant(was, canonical, index, other);
          return true;
        }
      }
      claimed := false;
    }

    /** Sends one declaration's calls to the first declaration with the name. */
    method MergeDeclaration(from: nat, name: string)
      modifies this`callees
      ensures Position(names, name).None? ==> callees == old(callees)
      ensures Position(names, name).Some? ==> callees == Redirect(old(callees), from, Position(names, name).value)
    {
      var to := Position(names, name);
      if to.None? {
        return;
      }
      for k := 0 to |callees|
        invariant |callees| == |old(callees)|
        invariant forall i :: 0 <= i < k ==> callees[i] == Redirect(old(callees), from, to.value)[i]
        invariant forall i :: k <= i < |callees| ==> callees[i] == old(callees)[i]
      {
        if callees[k] == Some(from) {
          callees := callees[k := Some(to.value)];
        }
      }
      assert callees == Redirect(old(callees), from, to.value);
    }

    /** Merges the declarations that are not to stay, the first of them first. */
    method MergeAll(merged: seq<nat>, keeps: seq<string>, ghost was: seq<string>, ghost canonical: seq<Option<string>>)
      requires |was| == |canonical| && Distinct(was)
      requires names == NewNames(was, canonical) && keeps == AllKeep(was, canonical)
      requires ListsMerged(was, canonical, merged, |was|)
      modifies this`callees
      ensures CalleesAfter(was, canonical, old(callees), callees, |was|)
    {
      ghost var called, done := callees, 0;
      for m := 0 to |merged|
        invariant done <= |was| && CalleesAfter(was, canonical, called, callees, done)
        invariant done == if m == 0 then 0 else merged[m - 1] + 1
      {
        var from := merged[m];
        assert merged[m] in merged;
        NoneBetween(was, canonical, merged, m);
        SkipUnmerged(was, canonical, called, callees, done, from);
        MergeStep(was, canonical, called, callees, from);
        MergeDeclaration(from, keeps[from]);
        done := from + 1;
      }
      NoneBetween(was, canonical, merged, |merged|);
      SkipUnmerged(was, canonical, called, callees, done, |was|);
    }

    method RemangleIntrinsics(canonical: seq<Option<string>>, rebuilt: set<nat>)
      requires |names| == |canonical| && Distinct(names) && NoRepeats(PrintOrder())
      modifies this
      ensures names == NewNames(old(names), canonical)
      ensures CalleesAfter(old(names), canonical, old(callees), callees, |names|)
      ensures NoRepeats(PrintOrder())
      ensures (forall i :: i in old(PrintOrder()) <==> 0 <= i < |old(names)|) ==>
                forall i :: i in PrintOrder() <==> 0 <= i < |names| && !IsMerged(old(names), canonical, i)
    {
      ghost var was := names;
      var before, keeps := PrintOrder(), AllKeep(names, canonical);
      var moved, merged := Rename(canonical, rebuilt);
      MergeAll(merged, keeps, was, canonical);
      if moved != [] || merged != [] {
        order := Without(before, moved + merged) + moved;
        OrderedAnew(was, canonical, rebuilt, before, moved, merged);
      } else {
        assert forall i :: 0 <= i < |was| ==> (IsMerged(was, canonical, i) ==> i in merged);
      }
    }
  }

  function AllKeep(names: seq<string>, canonical: seq<Option<string>>): (r: seq<string>)
    requires |names| == |canonical|
    ensures |r| == |names| && forall i :: 0 <= i < |names| ==> r[i] == Keeps(names, canonical, i)
  {
    seq(|names|, i requires 0 <= i < |names| => Keeps(names, canonical, i))
  }

  ghost predicate RenamedUpTo(was: seq<string>, canonical: seq<Option<string>>, names: seq<string>, n: nat)
    requires |was| == |canonical| && n <= |was|
  {
    && |names| == |was|
    && (forall i :: 0 <= i < n ==> names[i] == NewName(was, canonical, i))
    && forall i :: n <= i < |names| ==> names[i] == was[i]
  }

  ghost predicate Ascends(xs: seq<nat>) {
    forall a, b :: 0 <= a < b < |xs| ==> xs[a] < xs[b]
  }

  ghost predicate ListsMerged(was: seq<string>, canonical: seq<Option<string>>, merged: seq<nat>, n: nat)
    requires |was| == |canonical| && n <= |was|
  {
    && Ascends(merged)
    && forall i :: i in merged <==> 0 <= i < n && IsMerged(was, canonical, i)
  }

  /** A declaration prints last when it was renamed and not already built anew. */
  ghost predicate Moves(was: seq<string>, canonical: seq<Option<string>>, rebuilt: set<nat>, i: nat)
    requires |was| == |canonical| && i < |was|
  {
    !IsMerged(was, canonical, i) && Wanted(was, canonical, i).Some? && i !in rebuilt
  }

  ghost predicate ListsMoved(was: seq<string>, canonical: seq<Option<string>>, rebuilt: set<nat>, moved: seq<nat>, n: nat)
    requires |was| == |canonical| && n <= |was|
  {
    && Ascends(moved)
    && forall i :: i in moved <==> 0 <= i < n && Moves(was, canonical, rebuilt, i)
  }

  lemma ListsOneMore(
    was: seq<string>, canonical: seq<Option<string>>, rebuilt: set<nat>, merged: seq<nat>, moved: seq<nat>, n: nat)
    requires |was| == |canonical| && n < |was|
    requires ListsMerged(was, canonical, merged, n) && ListsMoved(was, canonical, rebuilt, moved, n)
    ensures ListsMerged(was, canonical, if IsMerged(was, canonical, n) then merged + [n] else merged, n + 1)
    ensures ListsMoved(was, canonical, rebuilt, if Moves(was, canonical, rebuilt, n) then moved + [n] else moved, n + 1)
  {
    Append(merged, n);
    Append(moved, n);
  }

  lemma Append(xs: seq<nat>, n: nat)
    requires Ascends(xs) && forall i :: i in xs ==> i < n
    ensures Ascends(xs + [n]) && forall i :: i in xs + [n] <==> i in xs || i == n
  {
    forall a, b | 0 <= a < b < |xs + [n]| ensures (xs + [n])[a] < (xs + [n])[b] {
      assert xs[a] in xs;
    }
  }

  lemma NotMerged(names: seq<string>, canonical: seq<Option<string>>, i: nat)
    requires |names| == |canonical| && i < |names| && Wanted(names, canonical, i).None?
    ensures !IsMerged(names, canonical, i)
  {
  }

  /** The list of merged declarations skips none. */
  lemma NoneBetween(names: seq<string>, canonical: seq<Option<string>>, merged: seq<nat>, m: nat)
    requires |names| == |canonical| && m <= |merged| && ListsMerged(names, canonical, merged, |names|)
    ensures var low := if m == 0 then 0 else merged[m - 1] + 1;
            var high := if m == |merged| then |names| else merged[m];
            low <= high <= |names| && forall i :: low <= i < high ==> !IsMerged(names, canonical, i)
  {
    assert forall a :: 0 <= a < |merged| ==> merged[a] in merged;
    var low := if m == 0 then 0 else merged[m - 1] + 1;
    var high := if m == |merged| then |names| else merged[m];
    assert forall a :: 0 <= a < |merged| ==> merged[a] < low || high <= merged[a];
  }

  lemma SkipUnmerged(
    names: seq<string>, canonical: seq<Option<string>>, was: seq<Option<nat>>, callees: seq<Option<nat>>, low: nat, high: nat)
    requires |names| == |canonical| && low <= high <= |names|
    requires forall i :: low <= i < high ==> !IsMerged(names, canonical, i)
    requires CalleesAfter(names, canonical, was, callees, low)
    ensures CalleesAfter(names, canonical, was, callees, high)
  {
    forall k | 0 <= k < |was| ensures callees[k] == CalleeAfter(names, canonical, was[k], high) {
      assert callees[k] == CalleeAfter(names, canonical, was[k], low);
    }
  }

  /** Renamed declarations print last and merged ones not at all; the order cannot come out
  empty, which would have stood for the order they are held in. */
  lemma OrderedAnew(
    names: seq<string>, canonical: seq<Option<string>>, rebuilt: set<nat>, before: seq<nat>, moved: seq<nat>,
    merged: seq<nat>)
    requires |names| == |canonical| && Distinct(names) && NoRepeats(before) && (moved != [] || merged != [])
    requires ListsMerged(names, canonical, merged, |names|) && ListsMoved(names, canonical, rebuilt, moved, |names|)
    ensures NoRepeats(Without(before, moved + merged) + moved)
    ensures (forall i :: i in before <==> 0 <= i < |names|) ==>
              var order := Without(before, moved + merged) + moved;
              order != [] && forall i :: i in order <==> 0 <= i < |names| && !IsMerged(names, canonical, i)
  {
    var gone := moved + merged;
    var kept := Without(before, gone);
    WithoutKeeps(before, gone);
    forall a, b | 0 <= a < |kept| && 0 <= b < |moved| ensures kept[a] != moved[b] {
      assert kept[a] in kept && moved[b] in moved;
    }
    if forall i :: i in before <==> 0 <= i < |names| {
      if moved == [] {
        assert merged[0] in merged;
        var r := SomeoneStays(names, canonical, merged[0]);
        assert r in kept;
      }
    }
  }
}
