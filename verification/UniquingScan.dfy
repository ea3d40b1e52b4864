/** The scans of the structural pass, what they leave when one changes nothing, and
when that comes about. */
module UniquingScan {
  import opened MetadataNodes
  import opened Uniquing

  /** One scan part way through: the map being rewritten, the first node seen for
  each key, and whether an entry was rewritten. */
  datatype Scan = Scan(canonical: Canonical, representatives: map<Metadata, MdId>, changed: bool)

  function ScanNode(g: Setting, s: Scan, id: MdId): Scan {
    if !g.Participates(id) then s
    else
      var key := Substitute(g.nodes[id].value, s.canonical);
      if key in s.representatives then
        var representative := s.representatives[key];
        if id in s.canonical && s.canonical[id] == representative then s
        else s.(canonical := s.canonical[id := representative], changed := true)
      else s.(representatives := s.representatives[key := id])
  }

  /** The scan that starts from `c`, after its first `n` nodes. */
  function ScanUpTo(g: Setting, c: Canonical, n: nat): Scan {
    if n == 0 then Scan(c, map[], false) else ScanNode(g, ScanUpTo(g, c, n - 1), n - 1)
  }

  function FullScan(g: Setting, c: Canonical): Scan {
    ScanUpTo(g, c, |g.nodes|)
  }

  /** The map after `k` scans. */
  function AfterScans(g: Setting, k: nat): Canonical {
    if k == 0 then g.base else FullScan(g, AfterScans(g, k - 1)).canonical
  }

  /** The loop exits with `c`: some scan that starts from a sound map ends there
  having changed nothing. */
  ghost predicate Exits(g: Setting, c: Canonical) {
    Sound(g, c) && !FullScan(g, c).changed
  }

  // ------------------------------------------------------------------- soundness

  ghost predicate KeyedBy(g: Setting, id: MdId, key: Metadata) {
    && g.Participates(id)
    && exists c :: Sound(g, c) && key == Substitute(g.nodes[id].value, c)
  }

  ghost predicate SoundScan(g: Setting, s: Scan, n: nat) {
    && Sound(g, s.canonical)
    && forall key :: key in s.representatives ==>
         s.representatives[key] < n && KeyedBy(g, s.representatives[key], key)
  }

  lemma RepresentativeIsAlike(g: Setting, s: Scan, n: nat, id: MdId)
    requires g.Valid() && SoundScan(g, s, n) && g.Participates(id)
    requires Substitute(g.nodes[id].value, s.canonical) in s.representatives
    ensures AlikeCongruent(g, id, s.representatives[Substitute(g.nodes[id].value, s.canonical)])
  {
    var key := Substitute(g.nodes[id].value, s.canonical);
    var rep := s.representatives[key];
    var c :| Sound(g, c) && key == Substitute(g.nodes[rep].value, c);
    KeysMeanAlike(g, s.canonical, c, id, rep);
  }

  /** Every rewritten entry is sound, though the keys it was decided by may be stale. */
  lemma ScanNodeSound(g: Setting, s: Scan, n: nat)
    requires g.Valid() && SoundScan(g, s, n)
    ensures SoundScan(g, ScanNode(g, s, n), n + 1)
  {
    if g.Participates(n) {
      var key := Substitute(g.nodes[n].value, s.canonical);
      if key in s.representatives {
        RepresentativeIsAlike(g, s, n, n);
      } else {
        assert KeyedBy(g, n, key);
      }
    }
  }

  lemma {:induction false} ScanIsSound(g: Setting, c: Canonical, n: nat)
    requires g.Valid() && Sound(g, c)
    ensures SoundScan(g, ScanUpTo(g, c, n), n)
  {
    if n > 0 {
      ScanIsSound(g, c, n - 1);
      ScanNodeSound(g, ScanUpTo(g, c, n - 1), n - 1);
    }
  }

  lemma {:induction false} ScansAreSound(g: Setting, k: nat)
    requires g.Valid()
    ensures Sound(g, AfterScans(g, k))
  {
    if k > 0 {
      ScansAreSound(g, k - 1);
      ScanIsSound(g, AfterScans(g, k - 1), |g.nodes|);
    }
  }

  // ------------------------------------------------------------------ at the exit

  function KeyUnder(g: Setting, c: Canonical, id: MdId): Metadata
    requires g.Participates(id)
  {
    Substitute(g.nodes[id].value, c)
  }

  /** In a scan that changes nothing every key is taken under one map, and each node
  points at the first node with its key. */
  ghost predicate Grouped(g: Setting, c: Canonical, s: Scan, n: nat) {
    && s.canonical == c && !s.changed
    && (forall key :: key in s.representatives ==>
          s.representatives[key] < n && g.Participates(s.representatives[key])
          && KeyUnder(g, c, s.representatives[key]) == key)
    && (forall id: MdId :: id < n && g.Participates(id) ==>
          && KeyUnder(g, c, id) in s.representatives
          && var r := s.representatives[KeyUnder(g, c, id)];
             r <= id && (r == id || (id in c && c[id] == r)))
  }

  lemma ScanNodeGroups(g: Setting, c: Canonical, s: Scan, n: nat)
    requires Grouped(g, c, s, n) && !ScanNode(g, s, n).changed
    ensures Grouped(g, c, ScanNode(g, s, n), n + 1)
  {
    if g.Participates(n) && KeyUnder(g, c, n) !in s.representatives {
      var t := ScanNode(g, s, n);
      assert t.representatives == s.representatives[KeyUnder(g, c, n) := n];
      forall id: MdId | id < n + 1 && g.Participates(id)
        ensures KeyUnder(g, c, id) in t.representatives
        ensures t.representatives[KeyUnder(g, c, id)] == if id == n then n else s.representatives[KeyUnder(g, c, id)]
      {
      }
    }
  }

  lemma {:induction false} UnchangedScanGroups(g: Setting, c: Canonical, n: nat)
    requires !ScanUpTo(g, c, n).changed
    ensures Grouped(g, c, ScanUpTo(g, c, n), n)
  {
    if n > 0 {
      UnchangedScanGroups(g, c, n - 1);
      ScanNodeGroups(g, c, ScanUpTo(g, c, n - 1), n - 1);
    }
  }

  /** The first node with the key of `id` at the exit. */
  function GroupHead(g: Setting, c: Canonical, id: MdId): MdId
    requires g.Participates(id) && !FullScan(g, c).changed
  {
    UnchangedScanGroups(g, c, |g.nodes|);
    FullScan(g, c).representatives[KeyUnder(g, c, id)]
  }

  lemma GroupHeadFacts(g: Setting, c: Canonical, id: MdId)
    requires g.Participates(id) && !FullScan(g, c).changed
    ensures var r := GroupHead(g, c, id);
            && g.Participates(r) && r <= id && KeyUnder(g, c, r) == KeyUnder(g, c, id)
            && (r == id || (id in c && c[id] == r))
  {
    UnchangedScanGroups(g, c, |g.nodes|);
  }

  lemma {:induction false} CongruentHaveOneRoot(g: Setting, c: Canonical, k: nat, a: MdId, b: MdId)
    requires g.Valid() && Exits(g, c) && CongruentBy(g, k, a, b)
    ensures ResolveIn(c, a) == ResolveIn(c, b)
    decreases k, 1
  {
    if g.BaseRoot(a) == g.BaseRoot(b) {
      BaseRootsResolve(g, c, a, b);
    } else {
      AlikeShareKey(g, c, k - 1, a, b);
      GroupHeadFacts(g, c, a);
      GroupHeadFacts(g, c, b);
    }
  }

  lemma {:induction false} AlikeShareKey(g: Setting, c: Canonical, k: nat, a: MdId, b: MdId)
    requires g.Valid() && Exits(g, c) && Alike(g, a, b, ByHeight(g, k))
    ensures KeyUnder(g, c, a) == KeyUnder(g, c, b)
    decreases k, 2
  {
    var r, s := ByHeight(g, k), Same(Resolver(c), Resolver(c));
    forall x: MdId, y: MdId | r(x, y) ensures s(x, y) {
      CongruentHaveOneRoot(g, c, k, x, y);
    }
    SimilarMono(g.nodes[a].value, g.nodes[b].value, r, s);
    MapRefsEqual(g.nodes[a].value, g.nodes[b].value, Resolver(c), Resolver(c));
  }

  /** When the loop exits, two nodes have one root exactly when they are congruent. */
  lemma ExitDecidesCongruence(g: Setting, c: Canonical, a: MdId, b: MdId)
    requires g.Valid() && Exits(g, c)
    ensures ResolveIn(c, a) == ResolveIn(c, b) <==> Congruent(g, a, b)
  {
    if Congruent(g, a, b) {
      var k: nat :| CongruentBy(g, k, a, b);
      CongruentHaveOneRoot(g, c, k, a, b);
    }
    if ResolveIn(c, a) == ResolveIn(c, b) {
      RootIsCongruent(g, c, a);
      RootIsCongruent(g, c, b);
      CongruentIsEquivalence(g, b, ResolveIn(c, b), a);
      CongruentIsEquivalence(g, a, ResolveIn(c, a), b);
    }
  }

  /** No stale entry survives: a node that heads its group keeps at most its merge by
  identifier. */
  lemma HeadsAreNotMerged(g: Setting, c: Canonical, id: MdId)
    requires g.Valid() && Exits(g, c) && g.Participates(id) && GroupHead(g, c, id) == id && id in c
    ensures id in g.base && c[id] == g.base[id]
  {
    if !(id in g.base && c[id] == g.base[id]) {
      var k: nat :| Alike(g, id, c[id], ByHeight(g, k));
      AlikeShareKey(g, c, k, id, c[id]);
      GroupHeadFacts(g, c, c[id]);
    }
  }

  /** The root of a node is the lowest node congruent to it. */
  lemma RootIsLowest(g: Setting, c: Canonical, id: MdId, other: MdId)
    requires g.Valid() && Exits(g, c) && Congruent(g, id, other)
    ensures Congruent(g, id, ResolveIn(c, id)) && ResolveIn(c, id) <= other
  {
    ExitDecidesCongruence(g, c, id, other);
    RootIsCongruent(g, c, id);
  }

  /** Two nodes merged by identifier that also look alike. */
  ghost predicate Collide(g: Setting, a: MdId, b: MdId) {
    a != b && a in g.base && AlikeCongruent(g, a, b)
  }

  lemma ChainMeansCollision(g: Setting, c: Canonical, id: MdId)
    requires g.Valid() && Exits(g, c) && Resolve(c, id) != ResolveIn(c, id)
    ensures Collide(g, c[id], id)
  {
    var s := c[id];
    if id in g.base && s == g.base[id] {
      SettledHasNoEntry(g, c, s);
    } else {
      GroupHeadFacts(g, c, id);
      if GroupHead(g, c, id) == id {
        HeadsAreNotMerged(g, c, id);
      } else {
        GroupHeadFacts(g, c, s);
        HeadsAreNotMerged(g, c, s);
        AlikeSym(g, id, s);
      }
    }
  }

  lemma CollisionMeansChain(g: Setting, c: Canonical, a: MdId, b: MdId)
    requires g.Valid() && Exits(g, c) && Collide(g, a, b)
    ensures Resolve(c, a) != ResolveIn(c, a) || Resolve(c, b) != ResolveIn(c, b)
  {
    var k: nat :| Alike(g, a, b, ByHeight(g, k));
    AlikeShareKey(g, c, k, a, b);
    AlikeInBase(g, a, b);
    GroupHeadFacts(g, c, a);
    GroupHeadFacts(g, c, b);
    var r := GroupHead(g, c, a);
    var x := if a == r then b else a;
    KeysMeanAlike(g, c, c, x, r);
    AlikeInBase(g, x, r);
    BaseKeepsRoot(g, c, x);
  }

  /** Reading the finished map one step at a time is exact for every node if and only
  if no two nodes merged by identifier look alike. */
  lemma OneStepIsEnough(g: Setting, c: Canonical)
    requires g.Valid() && Exits(g, c)
    ensures (forall id: MdId :: Resolve(c, id) == ResolveIn(c, id)) <==> !(exists a: MdId, b: MdId :: Collide(g, a, b))
  {
    if id: MdId :| Resolve(c, id) != ResolveIn(c, id) {
      ChainMeansCollision(g, c, id);
    }
    if a: MdId, b: MdId :| Collide(g, a, b) {
      CollisionMeansChain(g, c, a, b);
    }
  }

  // ----------------------------------------------------------------- termination

  /** References among the nodes the pass looks at go down in rank. */
  ghost predicate Ranked(g: Setting, rank: MdId -> nat, height: nat) {
    forall id: MdId :: g.Participates(id) ==>
      rank(id) <= height && RefsAll(g.nodes[id].value, Lower(g, rank, rank(id)))
  }

  ghost function Lower(g: Setting, rank: MdId -> nat, k: nat): MdId -> bool {
    (x: MdId) => g.Participates(x) ==> rank(x) < k
  }

  ghost predicate SameNode(g: Setting, a: MdId, b: MdId) {
    a == b || AlikeCongruent(g, a, b)
  }

  /** Some node of the same group has rank below `k`. */
  ghost predicate Below(g: Setting, rank: MdId -> nat, k: nat, id: MdId) {
    g.Participates(id) && exists x: MdId :: g.Participates(x) && SameNode(g, x, id) && rank(x) < k
  }

  ghost predicate HeadsGroup(g: Setting, id: MdId) {
    g.Participates(id) && forall s: MdId :: s < id ==> !AlikeCongruent(g, id, s)
  }

  /** The entry of a node is the one it will keep. */
  ghost predicate Final(g: Setting, c: Canonical, id: MdId) {
    HeadsGroup(g, id) || (id in c && HeadsGroup(g, c[id]) && AlikeCongruent(g, id, c[id]))
  }

  ghost predicate Stable(g: Setting, rank: MdId -> nat, c: Canonical, k: nat) {
    forall id: MdId :: Below(g, rank, k, id) ==> Final(g, c, id)
  }

  lemma SameNodeMoves(g: Setting, rank: MdId -> nat, k: nat, a: MdId, b: MdId)
    requires g.Valid() && SameNode(g, a, b) && Below(g, rank, k, a)
    ensures Below(g, rank, k, b)
  {
    if a != b {
      var x: MdId :| g.Participates(x) && SameNode(g, x, a) && rank(x) < k;
      if x != a {
        AlikeTrans(g, x, a, b);
      }
      assert SameNode(g, x, b);
    }
  }

  /** Settled nodes of one group resolve alike under any two maps. */
  lemma FinalRootsAgree(g: Setting, c: Canonical, d: Canonical, a: MdId, b: MdId)
    requires g.Valid() && Sound(g, c) && Sound(g, d) && SameNode(g, a, b)
    requires g.Participates(a) && Final(g, c, a) && Final(g, d, b)
    ensures ResolveIn(c, a) == ResolveIn(d, b)
  {
    if a in g.base {
      BaseKeepsRoot(g, c, a);
      if a != b { AlikeInBase(g, a, b); }
      BaseKeepsRoot(g, d, b);
    } else {
      if a != b { AlikeInBase(g, a, b); AlikeSym(g, a, b); }
      FinalRoot(g, c, a);
      FinalRoot(g, d, b);
      var x, y := ResolveIn(c, a), ResolveIn(d, b);
      if x != y {
        if x != a { AlikeSym(g, a, x); }
        if x != a && a != b { AlikeTrans(g, x, a, b); }
        if b != y && x != b { AlikeTrans(g, x, b, y); }
        AlikeSym(g, x, y);
      }
    }
  }

  lemma FinalRoot(g: Setting, c: Canonical, a: MdId)
    requires g.Valid() && Sound(g, c) && g.Participates(a) && Final(g, c, a) && a !in g.base
    ensures HeadsGroup(g, ResolveIn(c, a)) && SameNode(g, a, ResolveIn(c, a))
  {
    if !HeadsGroup(g, a) {
      AlikeInBase(g, a, c[a]);
    }
  }

  ghost function SettledRef(g: Setting, rank: MdId -> nat, k: nat): MdId -> bool {
    (x: MdId) => g.Participates(x) ==> Below(g, rank, k, x)
  }

  /** Congruent references resolve alike under maps that are stable below them. */
  lemma StableRootsAgree(g: Setting, rank: MdId -> nat, k: nat, h: nat, c: Canonical, d: Canonical, x: MdId, y: MdId)
    requires g.Valid() && Sound(g, c) && Sound(g, d) && Stable(g, rank, c, k) && Stable(g, rank, d, k)
    requires CongruentBy(g, h, x, y) && SettledRef(g, rank, k)(x)
    ensures ResolveIn(c, x) == ResolveIn(d, y)
  {
    if g.BaseRoot(x) == g.BaseRoot(y) {
      BaseRootsResolve(g, c, x, y);
      if y in g.base {
        BaseKeepsRoot(g, c, y);
        BaseKeepsRoot(g, d, y);
      } else if g.Participates(y) {
        assert x == y;
        FinalRootsAgree(g, c, d, x, y);
      } else {
        SettledHasNoEntry(g, c, y);
        SettledHasNoEntry(g, d, y);
      }
    } else {
      assert SameNode(g, x, y);
      SameNodeMoves(g, rank, k, x, y);
      FinalRootsAgree(g, c, d, x, y);
    }
  }

  /** Where references are settled, nodes of one group have one key, whenever taken. */
  lemma SettledKeysAgree(g: Setting, rank: MdId -> nat, height: nat, k: nat, c: Canonical, d: Canonical, a: MdId, b: MdId)
    requires g.Valid() && Ranked(g, rank, height)
    requires Sound(g, c) && Sound(g, d) && Stable(g, rank, c, k) && Stable(g, rank, d, k)
    requires g.Participates(a) && rank(a) <= k && SameNode(g, a, b)
    ensures g.Participates(b) && KeyUnder(g, c, a) == KeyUnder(g, d, b)
  {
    var n := g.nodes[a].value;
    var low := Lower(g, rank, rank(a));
    var h: nat;
    if a == b {
      h := 0;
      SimilarRefl(n, low, ByHeight(g, 0));
    } else {
      h :| Alike(g, a, b, ByHeight(g, h));
    }
    var m := g.nodes[b].value;
    var r, s := ByHeight(g, h), Same(Resolver(c), Resolver(d));
    forall x: MdId, y: MdId | r(x, y) && low(x) ensures s(x, y) {
      if g.Participates(x) {
        assert SameNode(g, x, x);
      }
      StableRootsAgree(g, rank, k, h, c, d, x, y);
    }
    SimilarRefine(n, m, r, low, s);
    MapRefsEqual(n, m, Resolver(c), Resolver(d));
  }

  lemma BelowKeysAgree(g: Setting, rank: MdId -> nat, height: nat, k: nat, c: Canonical, d: Canonical, a: MdId, b: MdId)
    requires g.Valid() && Ranked(g, rank, height)
    requires Sound(g, c) && Sound(g, d) && Stable(g, rank, c, k) && Stable(g, rank, d, k)
    requires Below(g, rank, k + 1, a) && SameNode(g, a, b)
    ensures g.Participates(b) && KeyUnder(g, c, a) == KeyUnder(g, d, b)
  {
    var x: MdId :| g.Participates(x) && SameNode(g, x, a) && rank(x) < k + 1;
    SettledKeysAgree(g, rank, height, k, c, c, x, a);
    if x != a && a != b { AlikeTrans(g, x, a, b); }
    SettledKeysAgree(g, rank, height, k, c, d, x, b);
  }

  /** A scan that starts stable below `k` has, after `n` nodes, settled those of them
  below `k + 1`, and holds each of their keys. */
  ghost predicate Settling(g: Setting, rank: MdId -> nat, k: nat, s: Scan, n: nat) {
    && SoundScan(g, s, n) && Stable(g, rank, s.canonical, k)
    && forall id: MdId :: id < n && Below(g, rank, k + 1, id) ==>
         && Final(g, s.canonical, id)
         && KeyUnder(g, s.canonical, id) in s.representatives
         && s.representatives[KeyUnder(g, s.canonical, id)] <= id
  }

  /** The lowest node of a group. */
  lemma GroupHasHead(g: Setting, id: MdId) returns (head: MdId)
    requires g.Valid() && g.Participates(id)
    ensures HeadsGroup(g, head) && SameNode(g, id, head) && head <= id
    decreases id
  {
    if HeadsGroup(g, id) {
      head := id;
    } else {
      var s: MdId :| s < id && AlikeCongruent(g, id, s);
      head := GroupHasHead(g, s);
      if head != s { AlikeTrans(g, id, s, head); }
    }
  }

  /** A node whose references are settled is sent to the head of its group. */
  lemma SettlesNode(g: Setting, rank: MdId -> nat, height: nat, k: nat, s: Scan, n: nat)
    requires g.Valid() && Ranked(g, rank, height) && Settling(g, rank, k, s, n)
    requires Below(g, rank, k + 1, n)
    ensures var key, t := KeyUnder(g, s.canonical, n), ScanNode(g, s, n);
            && (HeadsGroup(g, n) ==> key !in s.representatives)
            && (!HeadsGroup(g, n) ==> key in s.representatives && HeadsGroup(g, s.representatives[key])
                                      && AlikeCongruent(g, n, s.representatives[key]))
  {
    var key := KeyUnder(g, s.canonical, n);
    if key in s.representatives {
      RepresentativeIsAlike(g, s, n, n);
    }
    if !HeadsGroup(g, n) {
      var head := GroupHasHead(g, n);
      SameNodeMoves(g, rank, k + 1, n, head);
      BelowKeysAgree(g, rank, height, k, s.canonical, s.canonical, n, head);
      var rep := s.representatives[key];
      AlikeSym(g, n, head);
      if rep != head {
        AlikeTrans(g, head, n, rep);
      }
    }
  }

  lemma FinalKeepsOthers(g: Setting, s: Scan, n: nat, id: MdId)
    requires id != n && Final(g, s.canonical, id)
    ensures Final(g, ScanNode(g, s, n).canonical, id)
  {
  }

  lemma StepKeepsStable(g: Setting, rank: MdId -> nat, height: nat, k: nat, s: Scan, n: nat)
    requires g.Valid() && Ranked(g, rank, height) && Settling(g, rank, k, s, n)
    ensures Stable(g, rank, ScanNode(g, s, n).canonical, k)
    ensures Below(g, rank, k + 1, n) ==> Final(g, ScanNode(g, s, n).canonical, n)
  {
    var t := ScanNode(g, s, n);
    if Below(g, rank, k + 1, n) {
      SettlesNode(g, rank, height, k, s, n);
    }
    forall id: MdId | Below(g, rank, k, id) ensures Final(g, t.canonical, id) {
      if id == n {
        var x: MdId :| g.Participates(x) && SameNode(g, x, id) && rank(x) < k;
        assert Below(g, rank, k + 1, n);
      } else {
        FinalKeepsOthers(g, s, n, id);
      }
    }
  }

  lemma ScanNodeKeys(g: Setting, s: Scan, n: nat, key: Metadata)
    ensures key in s.representatives ==>
              key in ScanNode(g, s, n).representatives
              && ScanNode(g, s, n).representatives[key] == s.representatives[key]
    ensures g.Participates(n) && key == KeyUnder(g, s.canonical, n) && key !in s.representatives ==>
              key in ScanNode(g, s, n).representatives && ScanNode(g, s, n).representatives[key] == n
  {
  }

  lemma StepSettles(g: Setting, rank: MdId -> nat, height: nat, k: nat, s: Scan, n: nat, id: MdId)
    requires g.Valid() && Ranked(g, rank, height) && Settling(g, rank, k, s, n)
    requires id < n + 1 && Below(g, rank, k + 1, id)
    ensures var t := ScanNode(g, s, n);
            && Final(g, t.canonical, id)
            && KeyUnder(g, t.canonical, id) in t.representatives
            && t.representatives[KeyUnder(g, t.canonical, id)] <= id
  {
    var t := ScanNode(g, s, n);
    ScanNodeSound(g, s, n);
    StepKeepsStable(g, rank, height, k, s, n);
    BelowKeysAgree(g, rank, height, k, s.canonical, t.canonical, id, id);
    ScanNodeKeys(g, s, n, KeyUnder(g, s.canonical, id));
    if id != n {
      FinalKeepsOthers(g, s, n, id);
    }
  }

  lemma SettlingStep(g: Setting, rank: MdId -> nat, height: nat, k: nat, s: Scan, n: nat)
    requires g.Valid() && Ranked(g, rank, height) && Settling(g, rank, k, s, n)
    ensures Settling(g, rank, k, ScanNode(g, s, n), n + 1)
  {
    ScanNodeSound(g, s, n);
    StepKeepsStable(g, rank, height, k, s, n);
    forall id: MdId | id < n + 1 && Below(g, rank, k + 1, id)
      ensures var t := ScanNode(g, s, n);
              && Final(g, t.canonical, id)
              && KeyUnder(g, t.canonical, id) in t.representatives
              && t.representatives[KeyUnder(g, t.canonical, id)] <= id
    {
      StepSettles(g, rank, height, k, s, n, id);
    }
  }

  lemma {:induction false} ScanSettles(g: Setting, rank: MdId -> nat, height: nat, k: nat, c: Canonical, n: nat)
    requires g.Valid() && Ranked(g, rank, height) && Sound(g, c) && Stable(g, rank, c, k)
    ensures Settling(g, rank, k, ScanUpTo(g, c, n), n)
  {
    if n > 0 {
      ScanSettles(g, rank, height, k, c, n - 1);
      SettlingStep(g, rank, height, k, ScanUpTo(g, c, n - 1), n - 1);
    }
  }

  /** Each scan settles one more rank. */
  lemma ScanStabilizes(g: Setting, rank: MdId -> nat, height: nat, k: nat, c: Canonical)
    requires g.Valid() && Ranked(g, rank, height) && Sound(g, c) && Stable(g, rank, c, k)
    ensures Stable(g, rank, FullScan(g, c).canonical, k + 1)
  {
    ScanSettles(g, rank, height, k, c, |g.nodes|);
  }

  lemma {:induction false} StableScanChangesNothing(g: Setting, rank: MdId -> nat, height: nat, c: Canonical, n: nat)
    requires g.Valid() && Ranked(g, rank, height) && Sound(g, c) && Stable(g, rank, c, height + 1)
    ensures ScanUpTo(g, c, n).canonical == c && !ScanUpTo(g, c, n).changed
  {
    if n > 0 {
      StableScanChangesNothing(g, rank, height, c, n - 1);
      var s, id := ScanUpTo(g, c, n - 1), n - 1;
      ScanSettles(g, rank, height, height + 1, c, n - 1);
      if g.Participates(id) {
        assert SameNode(g, id, id);
        assert Below(g, rank, height + 1, id) && Below(g, rank, height + 1 + 1, id);
        SettlesNode(g, rank, height, height + 1, s, id);
        if !HeadsGroup(g, id) {
          var rep := s.representatives[KeyUnder(g, c, id)];
          AlikeSym(g, id, rep);
          AlikeTrans(g, rep, id, c[id]);
          AlikeSym(g, rep, c[id]);
          assert c[id] == rep;
        }
      }
    }
  }

  /** One scan, rewriting the map as it goes. */
  method ScanOnce(g: Setting, start: Canonical) returns (canonical: Canonical, changed: bool)
    ensures canonical == FullScan(g, start).canonical && changed == FullScan(g, start).changed
  {
    canonical, changed := start, false;
    var representatives: map<Metadata, MdId> := map[];
    for id := 0 to |g.nodes|
      invariant ScanUpTo(g, start, id) == Scan(canonical, representatives, changed)
    {
      if g.nodes[id].Some? {
        var node := g.nodes[id].value;
        if !node.IsDistinct() && id !in g.held {
          var key := Substitute(node, canonical);
          if key in representatives {
            var representative := representatives[key];
            if !(id in canonical && canonical[id] == representative) {
              canonical := canonical[id := representative];
              changed := true;
            }
          } else {
            representatives := representatives[key := id];
          }
        }
      }
    }
  }

  lemma {:induction false} ScansStabilize(g: Setting, rank: MdId -> nat, height: nat, k: nat)
    requires g.Valid() && Ranked(g, rank, height)
    ensures Sound(g, AfterScans(g, k)) && Stable(g, rank, AfterScans(g, k), k)
  {
    ScansAreSound(g, k);
    if k > 0 {
      ScansStabilize(g, rank, height, k - 1);
      ScanStabilizes(g, rank, height, k - 1, AfterScans(g, k - 1));
    }
  }

  /** Where references among the nodes looked at are acyclic, a scan changes nothing once
  every rank is settled. */
  lemma LastScan(g: Setting, rank: MdId -> nat, height: nat)
    requires g.Valid() && Ranked(g, rank, height)
    ensures !FullScan(g, AfterScans(g, height + 1)).changed
  {
    ScansStabilize(g, rank, height, height + 1);
    StableScanChangesNothing(g, rank, height, AfterScans(g, height + 1), |g.nodes|);
  }

  /** The structural pass. It ends at the first scan that changes nothing, and `last` says
  that there is one: without it the source's loop does not end either. */
  method UniqueNodes(g: Setting, ghost last: nat) returns (canonical: Canonical, ghost scans: nat)
    requires g.Valid() && !FullScan(g, AfterScans(g, last)).changed
    ensures 1 <= scans <= last + 1 && canonical == AfterScans(g, scans)
    ensures !FullScan(g, AfterScans(g, scans - 1)).changed
    ensures forall k: nat :: k < scans - 1 ==> FullScan(g, AfterScans(g, k)).changed
    ensures Exits(g, canonical)
    ensures forall a: MdId, b: MdId :: ResolveIn(canonical, a) == ResolveIn(canonical, b) <==> Congruent(g, a, b)
  {
    canonical := g.base;
    scans := 0;
    while true
      invariant scans <= last && canonical == AfterScans(g, scans)
      invariant forall k: nat :: k < scans ==> FullScan(g, AfterScans(g, k)).changed
      decreases last - scans
    {
      var changed;
      canonical, changed := ScanOnce(g, canonical);
      scans := scans + 1;
      if !changed {
        break;
      }
    }
    UnchangedExits(g, scans);
    forall a: MdId, b: MdId
      ensures ResolveIn(canonical, a) == ResolveIn(canonical, b) <==> Congruent(g, a, b)
    {
      ExitDecidesCongruence(g, canonical, a, b);
    }
  }

  /** A scan that reports no change left the map as it was, however it got there: this
  holds with or without cycles. */
  lemma UnchangedExits(g: Setting, k: nat)
    requires g.Valid() && k > 0 && !FullScan(g, AfterScans(g, k - 1)).changed
    ensures AfterScans(g, k) == AfterScans(g, k - 1) && Exits(g, AfterScans(g, k))
  {
    ScansAreSound(g, k - 1);
    UnchangedScanGroups(g, AfterScans(g, k - 1), |g.nodes|);
  }
}
