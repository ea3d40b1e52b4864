/** The structural pass need not end when references form a cycle: six nodes on which every
scan rewrites an entry, for ever. Three look one way and three another, which is as few as
can do it: with at most two nodes of a look the pass always ends. */
module UniquingCycles {
  import opened Wrappers
  import opened MetadataNodes
  import opened Uniquing
  import opened UniquingScan
  import opened UniquingEnds

  /** `!{!a, !b}`, or `!{null, !a, !b}`. */
  function Pair(odd: bool, a: MdId, b: MdId): Metadata {
    Metadata(Tuple(false), if odd then [Text("null"), Ref(a), Ref(b)] else [Ref(a), Ref(b)])
  }

  /** `!0 = !{!1, !5}`, `!1 = !{null, !0, !3}`, `!2 = !{!5, !3}`, `!3 = !{null, !4, !5}`,
  `!4 = !{!1, !3}`, `!5 = !{null, !4, !5}`. */
  const Restless: Setting := Setting([
    Some(Pair(false, 1, 5)), Some(Pair(true, 0, 3)), Some(Pair(false, 5, 3)),
    Some(Pair(true, 4, 5)), Some(Pair(false, 1, 3)), Some(Pair(true, 4, 5))], map[], {})

  lemma PairKey(odd: bool, a: MdId, b: MdId, c: Canonical)
    ensures Substitute(Pair(odd, a, b), c) == Pair(odd, ResolveIn(c, a), ResolveIn(c, b))
  {
    var n, f, skip := Pair(odd, a, b), Resolver(c), if odd then 1 else 0;
    assert n.items[skip] == Ref(a) && n.items[skip + 1] == Ref(b);
    assert f(a) == ResolveIn(c, a) && f(b) == ResolveIn(c, b);
    assert MapItem(Ref(a), f) == Ref(f(a)) && MapItem(Ref(b), f) == Ref(f(b));
    assert MapItem(Text("null"), f) == Text("null");
    assert Substitute(n, c).items == Pair(odd, f(a), f(b)).items;
  }

  lemma PairsEqual(o: bool, a: MdId, b: MdId, p: bool, c: MdId, d: MdId)
    ensures Pair(o, a, b) == Pair(p, c, d) <==> o == p && a == c && b == d
  {
    var m, n := Pair(o, a, b), Pair(p, c, d);
    assert |m.items| == |n.items| <==> o == p;
    if o == p {
      var skip := if o then 1 else 0;
      assert m.items[skip] == Ref(a) && m.items[skip + 1] == Ref(b);
      assert n.items[skip] == Ref(c) && n.items[skip + 1] == Ref(d);
    }
  }

  /** The step at one node, with its key worked out. */
  lemma StepAt(s: Scan, id: MdId, odd: bool, a: MdId, b: MdId) returns (key: Metadata)
    requires id < 6 && Restless.nodes[id] == Some(Pair(odd, a, b))
    ensures key == Pair(odd, ResolveIn(s.canonical, a), ResolveIn(s.canonical, b))
    ensures ScanNode(Restless, s, id) ==
            if key !in s.representatives then s.(representatives := s.representatives[key := id])
            else if id in s.canonical && s.canonical[id] == s.representatives[key] then s
            else s.(canonical := s.canonical[id := s.representatives[key]], changed := true)
  {
    key := Pair(odd, ResolveIn(s.canonical, a), ResolveIn(s.canonical, b));
    PairKey(odd, a, b, s.canonical);
    assert Restless.Participates(id);
  }

  // ---------------------------------------------------------------------- one scan

  /** A map that has entries for 4 and 5 only, with the roots they give. */
  ghost predicate Rooted(c: Canonical, four: MdId, five: MdId) {
    && c.Keys <= {4, 5}
    && four == ResolveIn(c, 4) && five == ResolveIn(c, 5)
    && (4 in c <==> four != 4) && (4 in c ==> c[4] == four)
    && (5 in c <==> five != 5) && (5 in c ==> c[5] == five)
    && (four == 4 || four == 0 || four == 2) && (five == 5 || five == 3 || five == 1)
    && !(four == 0 && five == 3)
  }

  ghost function Filed(four: MdId, five: MdId): map<Metadata, MdId> {
    map[Pair(false, 1, five) := 0, Pair(true, 0, 3) := 1, Pair(false, five, 3) := 2, Pair(true, four, five) := 3]
  }

  lemma FirstTwo(c: Canonical, four: MdId, five: MdId)
    requires Rooted(c, four, five)
    ensures ScanUpTo(Restless, c, 2) == Scan(c, map[Pair(false, 1, five) := 0, Pair(true, 0, 3) := 1], false)
  {
    var k0 := StepAt(ScanUpTo(Restless, c, 0), 0, false, 1, 5);
    assert ScanUpTo(Restless, c, 1) == Scan(c, map[k0 := 0], false);
    var k1 := StepAt(ScanUpTo(Restless, c, 1), 1, true, 0, 3);
    PairsEqual(false, 1, five, true, 0, 3);
  }

  lemma FirstThree(c: Canonical, four: MdId, five: MdId)
    requires Rooted(c, four, five)
    ensures ScanUpTo(Restless, c, 3) ==
            Scan(c, map[Pair(false, 1, five) := 0, Pair(true, 0, 3) := 1, Pair(false, five, 3) := 2], false)
  {
    FirstTwo(c, four, five);
    var k2 := StepAt(ScanUpTo(Restless, c, 2), 2, false, 5, 3);
    PairsEqual(false, five, 3, false, 1, five);
    PairsEqual(false, five, 3, true, 0, 3);
  }

  /** The first four nodes are never merged. */
  lemma FirstFour(c: Canonical, four: MdId, five: MdId)
    requires Rooted(c, four, five)
    ensures ScanUpTo(Restless, c, 4) == Scan(c, Filed(four, five), false)
  {
    FirstThree(c, four, five);
    var k3 := StepAt(ScanUpTo(Restless, c, 3), 3, true, 4, 5);
    PairsEqual(true, four, five, false, 1, five);
    PairsEqual(true, four, five, true, 0, 3);
    PairsEqual(true, four, five, false, five, 3);
  }

  ghost predicate FiledAs(filed: map<Metadata, MdId>, key: Metadata, id: MdId) {
    key in filed && filed[key] == id
  }

  /** Node 4 looks like 0 when 5 has gone to 3, and like 2 when 5 has gone to 1. */
  lemma FifthFiled(four: MdId, five: MdId)
    ensures var filed, key := Filed(four, five), Pair(false, 1, 3);
            && (five == 3 ==> FiledAs(filed, key, 0)) && (five == 1 ==> FiledAs(filed, key, 2))
            && (five == 5 ==> key !in filed)
  {
    PairsEqual(false, 1, 3, false, 1, five);
    PairsEqual(false, 1, 3, true, 0, 3);
    PairsEqual(false, 1, 3, false, five, 3);
    PairsEqual(false, 1, 3, true, four, five);
    PairsEqual(true, 0, 3, true, four, five);
  }

  /** Node 5 then looks like 1 if 4 has come to 0 with 5 at 3, and like 3 if 4 stayed. */
  lemma SixthFiled(now: MdId, four: MdId, five: MdId)
    requires !(four == 0 && five == 3)
    ensures var filed, key := Filed(four, five), Pair(true, now, five);
            && (now == 0 && five == 3 ==> FiledAs(filed, key, 1)) && (now == four ==> FiledAs(filed, key, 3))
            && (!(now == 0 && five == 3) && now != four ==> key !in filed)
            && key != Pair(false, 1, 3)
  {
    PairsEqual(true, now, five, false, 1, five);
    PairsEqual(true, now, five, true, 0, 3);
    PairsEqual(true, now, five, false, five, 3);
    PairsEqual(true, now, five, true, four, five);
    PairsEqual(true, now, five, false, 1, 3);
    PairsEqual(true, 0, 3, true, four, five);
  }

  lemma Fifth(c: Canonical, four: MdId, five: MdId)
    requires Rooted(c, four, five)
    ensures var s := ScanUpTo(Restless, c, 5);
            && s.canonical == (if five == 3 then c[4 := 0] else if five == 1 then c[4 := 2] else c)
            && s.representatives ==
               (if five == 5 then Filed(four, five)[Pair(false, 1, 3) := 4] else Filed(four, five))
            && (s.changed || s.canonical == c)
  {
    FirstFour(c, four, five);
    FifthFiled(four, five);
    FifthStep(c, four, five, Filed(four, five));
    assert ScanUpTo(Restless, c, 5) == ScanNode(Restless, ScanUpTo(Restless, c, 4), 4);
  }

  lemma FifthStep(c: Canonical, four: MdId, five: MdId, filed: map<Metadata, MdId>)
    requires Rooted(c, four, five)
    requires five == 3 ==> FiledAs(filed, Pair(false, 1, 3), 0)
    requires five == 1 ==> FiledAs(filed, Pair(false, 1, 3), 2)
    requires five == 5 ==> Pair(false, 1, 3) !in filed
    ensures var s := ScanNode(Restless, Scan(c, filed, false), 4);
            && s.canonical == (if five == 3 then c[4 := 0] else if five == 1 then c[4 := 2] else c)
            && s.representatives == (if five == 5 then filed[Pair(false, 1, 3) := 4] else filed)
            && (s.changed || s.canonical == c)
  {
    var k4 := StepAt(Scan(c, filed, false), 4, false, 1, 3);
  }

  lemma RootsAfterFifth(c: Canonical, four: MdId, five: MdId)
    requires Rooted(c, four, five)
    ensures var d := ScanUpTo(Restless, c, 5).canonical;
            && ResolveIn(d, 4) == (if five == 3 then 0 else if five == 1 then 2 else four)
            && ResolveIn(d, 5) == five
  {
    Fifth(c, four, five);
  }

  lemma Sixth(c: Canonical, four: MdId, five: MdId)
    requires Rooted(c, four, five)
    ensures var d := FullScan(Restless, c).canonical;
            && d == (if five == 3 then c[4 := 0][5 := 1]
                     else if five == 5 then c[5 := 3]
                     else if four == 2 then c[4 := 2][5 := 3] else c[4 := 2])
            && (FullScan(Restless, c).changed || d == c)
  {
    Fifth(c, four, five);
    RootsAfterFifth(c, four, five);
    var s := ScanUpTo(Restless, c, 5);
    var now := if five == 3 then 0 else if five == 1 then 2 else four;
    SixthFiled(now, four, five);
    var k5 := StepAt(s, 5, true, 4, 5);
    assert FullScan(Restless, c) == ScanNode(Restless, s, 5);
  }

  // -------------------------------------------------------------------- every scan

  /** The maps the loop goes through: from the third on they repeat every three. */
  function MapAt(k: nat): Canonical {
    if k == 0 then map[]
    else if k == 1 then map[5 := 3]
    else if k % 3 == 2 then map[4 := 0, 5 := 1]
    else if k % 3 == 0 then map[4 := 2, 5 := 1]
    else map[4 := 2, 5 := 3]
  }

  ghost predicate Moves(g: Setting, k: nat) {
    FullScan(g, MapAt(k)).canonical == MapAt(k + 1) && FullScan(g, MapAt(k)).changed
  }

  lemma ScanMoves(k: nat)
    ensures Moves(Restless, k)
  {
    var c := MapAt(k);
    var four, five := if 4 in c then c[4] else 4, if 5 in c then c[5] else 5;
    assert Rooted(c, four, five);
    Sixth(c, four, five);
    assert MapAt(k + 1) != c by {
      assert MapAt(k + 1)[5] != five || MapAt(k + 1)[4] != four;
    }
  }

  lemma {:induction false} MapsRepeat(g: Setting, k: nat)
    requires g.base == map[] && forall j: nat :: Moves(g, j)
    ensures AfterScans(g, k) == MapAt(k) && FullScan(g, AfterScans(g, k)).changed
  {
    if k > 0 {
      MapsRepeat(g, k - 1);
      assert Moves(g, k - 1);
    }
    assert Moves(g, k);
  }

  /** The loop never exits on these six nodes: every scan changes an entry. */
  lemma NeverExits(k: nat)
    ensures Restless.Valid() && FullScan(Restless, AfterScans(Restless, k)).changed
  {
    forall j: nat ensures Moves(Restless, j) {
      ScanMoves(j);
    }
    MapsRepeat(Restless, k);
  }

  // --------------------------------------------------------------- how few can do it

  lemma OneLook(s: set<MdId>)
    requires LookAlike(Restless, s)
    ensures |s| <= 3
  {
    if x: MdId :| x in s {
      var look: set<MdId> := if x % 2 == 0 then {0, 2, 4} else {1, 3, 5};
      forall y: MdId | y in s ensures y in look {
        if y != x {
          assert Alike(Restless, x, y, Anything());
          LooksDiffer(x, y);
        } else {
          assert Restless.Participates(x);
        }
      }
      SubsetIsNoLarger(s, look);
    }
  }

  lemma LooksDiffer(x: MdId, y: MdId)
    requires Alike(Restless, x, y, Anything())
    ensures x < 6 && y < 6 && x % 2 == y % 2
  {
    assert |Restless.nodes[x].value.items| == 2 + x % 2;
    assert |Restless.nodes[y].value.items| == 2 + y % 2;
  }

  /** A bound on how many nodes may look alike makes the pass end, whatever the references,
  exactly when the bound is at most two. */
  lemma TwoAlikeIsTheMost(most: nat)
    ensures (forall g: Setting :: g.Valid() && LooksShared(g, most) ==> Ends(g)) <==> most <= 2
  {
    if most <= 2 {
      forall g: Setting | g.Valid() && LooksShared(g, most) ensures Ends(g) {
        var last := FewLookAlikesEnd(g);
      }
    } else {
      forall s: set<MdId> | LookAlike(Restless, s) ensures |s| <= most {
        OneLook(s);
      }
      forall k: nat ensures FullScan(Restless, AfterScans(Restless, k)).changed {
        NeverExits(k);
      }
      NeverExits(0);
      assert Restless.Valid() && LooksShared(Restless, most) && !Ends(Restless);
    }
  }
}
