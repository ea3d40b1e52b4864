/** More modules on which the structural pass ends, reference cycles or not.

The head of a group is never merged, and the next node of it only with the head, for good.
Only from the third node of a group on can a merge be taken back, so only such nodes have to
be ranked. */
module UniquingEnds {
  import opened MetadataNodes
  import opened Uniquing
  import opened UniquingScan

  /** A node with a lower one in its group that is not the head. */
  ghost predicate IsThird(g: Setting, id: MdId) {
    g.Participates(id) && exists s: MdId :: s < id && AlikeCongruent(g, id, s) && !HeadsGroup(g, s)
  }

  ghost function ThirdsBelow(g: Setting, rank: MdId -> nat, k: nat): MdId -> bool {
    (x: MdId) => IsThird(g, x) && x !in g.base ==> rank(x) < k
  }

  ghost predicate LowRefs(g: Setting, rank: MdId -> nat, k: nat, id: MdId) {
    g.Participates(id) && RefsAll(g.nodes[id].value, ThirdsBelow(g, rank, k))
  }

  /** A rank for groups: up to a third node, the nodes of a group refer to thirds of lower
  groups only. */
  ghost predicate GroupsRanked(g: Setting, rank: MdId -> nat, height: nat) {
    && (forall a: MdId, b: MdId :: AlikeCongruent(g, a, b) ==> rank(a) == rank(b))
    && (forall id: MdId, s: MdId :: IsThird(g, id) && s <= id && SameNode(g, id, s) ==>
          rank(id) <= height && LowRefs(g, rank, rank(id), s))
  }

  // ---------------------------------------------------------------- comparing maps

  ghost predicate SameEntry(c: Canonical, d: Canonical, id: MdId) {
    (id in c <==> id in d) && (id in c ==> c[id] == d[id])
  }

  ghost predicate Watched(g: Setting, rank: MdId -> nat, k: nat, id: MdId) {
    g.Participates(id) && (IsThird(g, id) ==> rank(id) < k)
  }

  /** The same entries but for thirds of rank `k` and above. */
  ghost predicate Agree(g: Setting, rank: MdId -> nat, k: nat, c: Canonical, d: Canonical) {
    forall id: MdId :: Watched(g, rank, k, id) ==> SameEntry(c, d, id)
  }

  /** A scan touches an entry at its node and nowhere else. */
  lemma {:induction false} EntryAtItsStep(g: Setting, c: Canonical, n: nat, id: MdId)
    ensures n <= id ==> SameEntry(c, ScanUpTo(g, c, n).canonical, id)
    ensures id < n ==> SameEntry(ScanUpTo(g, c, id + 1).canonical, ScanUpTo(g, c, n).canonical, id)
  {
    if n > 0 && id + 1 != n {
      EntryAtItsStep(g, c, n - 1, id);
    }
  }

  lemma MidScanAgrees(g: Setting, rank: MdId -> nat, k: nat, c: Canonical, n: nat)
    requires Agree(g, rank, k, c, FullScan(g, c).canonical) && n <= |g.nodes|
    ensures Agree(g, rank, k, c, ScanUpTo(g, c, n).canonical)
  {
    forall id: MdId | Watched(g, rank, k, id) ensures SameEntry(c, ScanUpTo(g, c, n).canonical, id) {
      EntryAtItsStep(g, c, n, id);
      EntryAtItsStep(g, c, |g.nodes|, id);
    }
  }

  /** A node's root is settled by the entries of its own group. */
  lemma {:induction false} RootsSteady(g: Setting, rank: MdId -> nat, height: nat, k: nat,
                                       c: Canonical, d: Canonical, x: MdId)
    requires g.Valid() && GroupsRanked(g, rank, height) && Sound(g, c) && Sound(g, d)
    requires Agree(g, rank, k, c, d) && ThirdsBelow(g, rank, k)(x)
    ensures ResolveIn(c, x) == ResolveIn(d, x)
  {
    if x in g.base {
      BaseKeepsRoot(g, c, x);
      BaseKeepsRoot(g, d, x);
    } else if !g.Participates(x) {
      SettledHasNoEntry(g, c, x);
      SettledHasNoEntry(g, d, x);
    } else {
      assert Watched(g, rank, k, x);
      if x in c {
        var next := c[x];
        AlikeInBase(g, x, next);
        if IsThird(g, next) {
          var s: MdId :| s < next && AlikeCongruent(g, next, s) && !HeadsGroup(g, s);
          AlikeTrans(g, x, next, s);
          assert IsThird(g, x);
        }
        RootsSteady(g, rank, height, k, c, d, next);
      }
    }
  }

  lemma KeysSteady(g: Setting, rank: MdId -> nat, height: nat, k: nat, c: Canonical, d: Canonical, id: MdId)
    requires g.Valid() && GroupsRanked(g, rank, height) && Sound(g, c) && Sound(g, d)
    requires Agree(g, rank, k, c, d) && LowRefs(g, rank, k, id)
    ensures KeyUnder(g, c, id) == KeyUnder(g, d, id)
  {
    var n, low, same := g.nodes[id].value, ThirdsBelow(g, rank, k), Same(Resolver(c), Resolver(d));
    forall x: MdId | low(x) ensures same(x, x) {
      RootsSteady(g, rank, height, k, c, d, x);
    }
    SimilarRefl(n, low, same);
    MapRefsEqual(n, n, Resolver(c), Resolver(d));
  }

  // --------------------------------------------------- one rank more settles each scan

  /** Three maps in a row, alike below rank `k`. */
  ghost predicate Steady(g: Setting, rank: MdId -> nat, height: nat, k: nat, c: Canonical) {
    var d := FullScan(g, c).canonical;
    && g.Valid() && GroupsRanked(g, rank, height) && Sound(g, c)
    && Agree(g, rank, k, c, d) && Agree(g, rank, k, d, FullScan(g, d).canonical)
  }

  /** Part way through either scan, at whatever node, low references give one key. */
  lemma KeysAcrossScans(g: Setting, rank: MdId -> nat, height: nat, k: nat, c: Canonical, n: nat, id: MdId)
    requires Steady(g, rank, height, k, c) && LowRefs(g, rank, k, id) && n <= |g.nodes|
    ensures var d := FullScan(g, c).canonical;
            && KeyUnder(g, ScanUpTo(g, c, n).canonical, id) == KeyUnder(g, c, id)
            && KeyUnder(g, ScanUpTo(g, d, n).canonical, id) == KeyUnder(g, c, id)
  {
    var d := FullScan(g, c).canonical;
    ScanIsSound(g, c, |g.nodes|);
    ScanIsSound(g, c, n);
    ScanIsSound(g, d, n);
    MidScanAgrees(g, rank, k, c, n);
    MidScanAgrees(g, rank, k, d, n);
    KeysSteady(g, rank, height, k, c, ScanUpTo(g, c, n).canonical, id);
    KeysSteady(g, rank, height, k, c, ScanUpTo(g, d, n).canonical, id);
  }

  lemma LowRefsHigher(g: Setting, rank: MdId -> nat, j: nat, k: nat, id: MdId)
    requires LowRefs(g, rank, j, id) && j <= k
    ensures LowRefs(g, rank, k, id)
  {
    RefsAllMono(g.nodes[id].value, ThirdsBelow(g, rank, j), ThirdsBelow(g, rank, k));
  }

  /** A node filed under the key of a third before it is in its group. */
  lemma FiledAlike(g: Setting, rank: MdId -> nat, height: nat, k: nat, c: Canonical, d: Canonical, id: MdId, m: MdId)
    requires g.Valid() && GroupsRanked(g, rank, height) && Sound(g, c) && Sound(g, d)
    requires IsThird(g, id) && rank(id) <= k && g.Participates(m) && m <= id
    requires KeyUnder(g, d, m) == KeyUnder(g, c, id)
    ensures LowRefs(g, rank, k, m)
  {
    KeysMeanAlike(g, c, d, id, m);
    LowRefsHigher(g, rank, rank(id), k, m);
  }

  ghost predicate SameFiled(s: Scan, t: Scan, key: Metadata) {
    && (key in s.representatives <==> key in t.representatives)
    && (key in s.representatives ==> s.representatives[key] == t.representatives[key])
  }

  lemma FiledStep(g: Setting, s: Scan, t: Scan, m: MdId, key: Metadata)
    requires SameFiled(s, t, key)
    requires g.Participates(m) ==> (KeyUnder(g, s.canonical, m) == key <==> KeyUnder(g, t.canonical, m) == key)
    ensures SameFiled(ScanNode(g, s, m), ScanNode(g, t, m), key)
  {
  }

  /** A node before a third has the key of the third in one scan exactly when it has it in
  the next. */
  lemma KeyedInBoth(g: Setting, rank: MdId -> nat, height: nat, k: nat, c: Canonical, id: MdId, m: MdId)
    requires Steady(g, rank, height, k, c) && IsThird(g, id) && rank(id) <= k && m < id && g.Participates(m)
    ensures var d, key := FullScan(g, c).canonical, KeyUnder(g, c, id);
            KeyUnder(g, ScanUpTo(g, c, m).canonical, m) == key <==> KeyUnder(g, ScanUpTo(g, d, m).canonical, m) == key
  {
    var d, key := FullScan(g, c).canonical, KeyUnder(g, c, id);
    ScanIsSound(g, c, |g.nodes|);
    ScanIsSound(g, c, m);
    ScanIsSound(g, d, m);
    var x, y := ScanUpTo(g, c, m).canonical, ScanUpTo(g, d, m).canonical;
    if KeyUnder(g, x, m) == key || KeyUnder(g, y, m) == key {
      FiledAlike(g, rank, height, k, c, if KeyUnder(g, x, m) == key then x else y, id, m);
      KeysAcrossScans(g, rank, height, k, c, m, m);
    }
  }

  /** Both scans find the same node, if any, under the key of a third. */
  lemma {:induction false} FiledSteady(g: Setting, rank: MdId -> nat, height: nat, k: nat, c: Canonical, id: MdId, n: nat)
    requires Steady(g, rank, height, k, c) && IsThird(g, id) && rank(id) <= k && n <= id
    ensures SameFiled(ScanUpTo(g, c, n), ScanUpTo(g, FullScan(g, c).canonical, n), KeyUnder(g, c, id))
  {
    if n > 0 {
      var d, m := FullScan(g, c).canonical, n - 1;
      FiledSteady(g, rank, height, k, c, id, m);
      if g.Participates(m) {
        KeyedInBoth(g, rank, height, k, c, id, m);
      }
      FiledStep(g, ScanUpTo(g, c, m), ScanUpTo(g, d, m), m, KeyUnder(g, c, id));
    }
  }

  lemma ThirdSteady(g: Setting, rank: MdId -> nat, height: nat, k: nat, c: Canonical, id: MdId)
    requires Steady(g, rank, height, k, c) && IsThird(g, id) && rank(id) <= k
    ensures var d := FullScan(g, c).canonical; SameEntry(d, FullScan(g, d).canonical, id)
  {
    var d := FullScan(g, c).canonical;
    var s, t := ScanUpTo(g, c, id), ScanUpTo(g, d, id);
    assert SameNode(g, id, id);
    LowRefsHigher(g, rank, rank(id), k, id);
    KeysAcrossScans(g, rank, height, k, c, id, id);
    FiledSteady(g, rank, height, k, c, id, id);
    assert ScanUpTo(g, c, id + 1) == ScanNode(g, s, id) && ScanUpTo(g, d, id + 1) == ScanNode(g, t, id);
    EntryAtItsStep(g, c, |g.nodes|, id);
    EntryAtItsStep(g, d, id, id);
    EntryAtItsStep(g, d, |g.nodes|, id);
  }

  lemma NextRankSteady(g: Setting, rank: MdId -> nat, height: nat, k: nat, c: Canonical)
    requires Steady(g, rank, height, k, c)
    ensures var d := FullScan(g, c).canonical; Agree(g, rank, k + 1, d, FullScan(g, d).canonical)
  {
    var d := FullScan(g, c).canonical;
    forall id: MdId | Watched(g, rank, k + 1, id) ensures SameEntry(d, FullScan(g, d).canonical, id) {
      if IsThird(g, id) {
        ThirdSteady(g, rank, height, k, c, id);
      } else {
        assert Watched(g, rank, k, id);
      }
    }
  }

  // -------------------------------------------------------------- seconds move once

  ghost predicate Merged(g: Setting, c: Canonical, id: MdId) {
    id in c && HeadsGroup(g, c[id])
  }

  /** The nodes below the third of a group that a scan may still merge with its head. */
  ghost function Loose(g: Setting, c: Canonical): set<MdId> {
    set id: MdId | id < |g.nodes| && g.Participates(id) && !HeadsGroup(g, id) && !IsThird(g, id) && !Merged(g, c, id)
  }

  lemma OneHead(g: Setting, id: MdId, a: MdId, b: MdId)
    requires g.Valid() && HeadsGroup(g, a) && HeadsGroup(g, b) && AlikeCongruent(g, id, a) && AlikeCongruent(g, id, b)
    ensures a == b
  {
    AlikeSym(g, id, a);
    AlikeTrans(g, a, id, b);
    AlikeSym(g, a, b);
  }

  /** What a scan merges a node with, when it is no third, is the head of its group, and
  it leaves a node so merged alone. */
  lemma SecondMovesOnce(g: Setting, c: Canonical, id: MdId)
    requires g.Valid() && Sound(g, c) && g.Participates(id) && !IsThird(g, id)
    ensures var d := FullScan(g, c).canonical;
            SameEntry(c, d, id) || (!HeadsGroup(g, id) && !Merged(g, c, id) && Merged(g, d, id))
  {
    var s, key := ScanUpTo(g, c, id), KeyUnder(g, ScanUpTo(g, c, id).canonical, id);
    ScanIsSound(g, c, id);
    EntryAtItsStep(g, c, id, id);
    EntryAtItsStep(g, c, |g.nodes|, id);
    assert ScanUpTo(g, c, id + 1) == ScanNode(g, s, id);
    if key in s.representatives {
      RepresentativeIsAlike(g, s, id, id);
      if Merged(g, c, id) {
        OneHead(g, id, c[id], s.representatives[key]);
      }
    }
  }

  lemma LooseShrinks(g: Setting, rank: MdId -> nat, c: Canonical)
    requires g.Valid() && Sound(g, c)
    ensures var d := FullScan(g, c).canonical;
            Loose(g, d) <= Loose(g, c) && (Agree(g, rank, 0, c, d) || Loose(g, d) < Loose(g, c))
  {
    var d := FullScan(g, c).canonical;
    forall id: MdId | id in Loose(g, d) ensures id in Loose(g, c) {
      SecondMovesOnce(g, c, id);
    }
    if !Agree(g, rank, 0, c, d) {
      var id: MdId :| Watched(g, rank, 0, id) && !SameEntry(c, d, id);
      SecondMovesOnce(g, c, id);
      assert id in Loose(g, c) && id !in Loose(g, d);
    }
  }

  lemma {:induction false} LooseLater(g: Setting, i: nat, j: nat)
    requires g.Valid() && i <= j
    ensures Loose(g, AfterScans(g, j)) <= Loose(g, AfterScans(g, i))
    decreases j
  {
    if i < j {
      LooseLater(g, i, j - 1);
      ScansAreSound(g, j - 1);
      LooseShrinks(g, id => 0, AfterScans(g, j - 1));
    }
  }

  // ---------------------------------------------------------------------- the end

  /** Scan `j` moves no node below the third of its group. */
  ghost predicate Calm(g: Setting, rank: MdId -> nat, j: nat) {
    Agree(g, rank, 0, AfterScans(g, j), AfterScans(g, j + 1))
  }

  /** Through calm scans one rank of thirds after another comes to rest. */
  lemma {:induction false} CalmSettles(g: Setting, rank: MdId -> nat, height: nat, i: nat, k: nat)
    requires g.Valid() && GroupsRanked(g, rank, height)
    requires forall j: nat :: i <= j <= i + k ==> Calm(g, rank, j)
    ensures Agree(g, rank, k, AfterScans(g, i + k), AfterScans(g, i + k + 1))
    decreases k
  {
    if k == 0 {
      assert Calm(g, rank, i);
    } else {
      CalmSettles(g, rank, height, i, k - 1);
      CalmSettles(g, rank, height, i + 1, k - 1);
      ScansAreSound(g, i + k - 1);
      NextRankSteady(g, rank, height, k - 1, AfterScans(g, i + k - 1));
    }
  }

  lemma {:induction false} ChangeShows(g: Setting, c: Canonical, n: nat) returns (id: MdId)
    requires ScanUpTo(g, c, n).changed && n <= |g.nodes|
    ensures g.Participates(id) && !SameEntry(c, FullScan(g, c).canonical, id)
  {
    id := n - 1;
    if ScanUpTo(g, c, id).changed {
      id := ChangeShows(g, c, id);
    } else {
      EntryAtItsStep(g, c, id, id);
      EntryAtItsStep(g, c, |g.nodes|, id);
    }
  }

  lemma AllAgreeIsQuiet(g: Setting, rank: MdId -> nat, height: nat, c: Canonical)
    requires GroupsRanked(g, rank, height) && Agree(g, rank, height + 1, c, FullScan(g, c).canonical)
    ensures !FullScan(g, c).changed
  {
    if FullScan(g, c).changed {
      var id := ChangeShows(g, c, |g.nodes|);
      RankedAreWatched(g, rank, height, id);
    }
  }

  lemma RankedAreWatched(g: Setting, rank: MdId -> nat, height: nat, id: MdId)
    requires GroupsRanked(g, rank, height) && g.Participates(id)
    ensures Watched(g, rank, height + 1, id)
  {
    assert SameNode(g, id, id);
  }

  lemma FewerLoose(g: Setting, rank: MdId -> nat, i: nat, j: nat)
    requires g.Valid() && i <= j && !Calm(g, rank, j)
    ensures |Loose(g, AfterScans(g, j + 1))| < |Loose(g, AfterScans(g, i))|
  {
    ScansAreSound(g, j);
    LooseLater(g, i, j);
    LooseShrinks(g, rank, AfterScans(g, j));
    SubsetIsSmaller(Loose(g, AfterScans(g, j + 1)), Loose(g, AfterScans(g, i)));
  }

  /** The pass ends: at the latest `height + 2` scans after the last merge of a second. */
  lemma {:induction false} RankedGroupsEnd(g: Setting, rank: MdId -> nat, height: nat, i: nat) returns (last: nat)
    requires g.Valid() && GroupsRanked(g, rank, height)
    ensures i <= last <= i + (|Loose(g, AfterScans(g, i))| + 1) * (height + 2)
    ensures !FullScan(g, AfterScans(g, last)).changed
    decreases |Loose(g, AfterScans(g, i))|
  {
    if j: nat :| i <= j <= i + height + 1 && !Calm(g, rank, j) {
      FewerLoose(g, rank, i, j);
      last := RankedGroupsEnd(g, rank, height, j + 1);
      MoreWindows(|Loose(g, AfterScans(g, j + 1))|, |Loose(g, AfterScans(g, i))|, height + 2);
    } else {
      last := i + height + 1;
      CalmSettles(g, rank, height, i, height + 1);
      AllAgreeIsQuiet(g, rank, height, AfterScans(g, last));
      MoreWindows(0, |Loose(g, AfterScans(g, i))| + 1, height + 2);
    }
  }

  lemma {:induction false} SubsetIsSmaller(a: set<MdId>, b: set<MdId>)
    requires a < b
    ensures |a| < |b|
  {
    var x :| x in b && x !in a;
    SubsetIsNoLarger(a, b - {x});
  }

  lemma {:induction false} SubsetIsNoLarger(a: set<MdId>, b: set<MdId>)
    requires a <= b
    ensures |a| <= |b|
  {
    if a != {} {
      var x :| x in a;
      SubsetIsNoLarger(a - {x}, b - {x});
    }
  }

  lemma MoreWindows(few: nat, many: nat, window: nat)
    requires few < many
    ensures window + (few + 1) * window <= (many + 1) * window && (few + 1) * window <= many * window
  {
    var more := many - few - 1;
    assert (many + 1) * window == (few + 1) * window + window + more * window;
    assert many * window == (few + 1) * window + more * window;
  }

  /** Nodes that are the same but for what they refer to. */
  ghost predicate LookAlike(g: Setting, s: set<MdId>) {
    forall a: MdId, b: MdId :: a in s && b in s ==> Alike(g, a, b, Anything())
  }

  ghost predicate LooksShared(g: Setting, most: nat) {
    forall s: set<MdId> :: LookAlike(g, s) ==> |s| <= most
  }

  ghost predicate Ends(g: Setting) {
    exists last: nat :: !FullScan(g, AfterScans(g, last)).changed
  }

  /** The pass ends on every module where no look is shared by three nodes, however its
  nodes refer to one another. */
  lemma FewLookAlikesEnd(g: Setting) returns (last: nat)
    requires g.Valid() && LooksShared(g, 2)
    ensures last <= (|Loose(g, g.base)| + 1) * 2
    ensures !FullScan(g, AfterScans(g, last)).changed
  {
    forall id: MdId ensures !IsThird(g, id) {
      if IsThird(g, id) {
        ThirdLooks(g, id);
      }
    }
    last := RankedGroupsEnd(g, id => 0, 0, 0);
  }

  lemma ThirdLooks(g: Setting, id: MdId)
    requires g.Valid() && IsThird(g, id)
    ensures !LooksShared(g, 2)
  {
    var s: MdId :| s < id && AlikeCongruent(g, id, s) && !HeadsGroup(g, s);
    var r: MdId :| r < s && AlikeCongruent(g, s, r);
    var look: set<MdId> := {id, s, r};
    forall a: MdId, b: MdId | a in look && b in look ensures Alike(g, a, b, Anything()) {
      AlikeTrans(g, id, s, r);
      AlikeSym(g, id, s);
      AlikeSym(g, s, r);
      AlikeSym(g, id, r);
      if a == b { AlikeTrans(g, a, if a == id then s else id, a); }
      AlikeLooks(g, a, b);
    }
    assert LookAlike(g, look) && |look| == 3;
  }

  lemma AlikeLooks(g: Setting, a: MdId, b: MdId)
    requires AlikeCongruent(g, a, b)
    ensures Alike(g, a, b, Anything())
  {
    var k: nat :| Alike(g, a, b, ByHeight(g, k));
    SimilarToAnything(g, a, b, ByHeight(g, k));
  }
}
