/** Collapsing structurally identical metadata nodes onto one representative.

A `Setting` is what the structural pass starts from: the nodes, the merges already
made by identifier, and the nodes held out of the pass. `Congruent` is the least
relation the pass could aim at, and it mentions no map and no scan. */
module Uniquing {
  import opened Wrappers
  import opened MetadataNodes

  type Canonical = map<MdId, MdId>

  datatype Setting = Setting(nodes: seq<Option<Metadata>>, base: Canonical, held: set<MdId>) {
    predicate Present(id: MdId) {
      id < |nodes| && nodes[id].Some?
    }

    /** The nodes the structural pass looks at. */
    predicate Participates(id: MdId) {
      Present(id) && !nodes[id].value.IsDistinct() && id !in held
    }

    function BaseRoot(id: MdId): MdId {
      if id in base then base[id] else id
    }

    /** Merges by identifier point down at nodes that stay put, and nodes that look
    alike were merged alike. */
    ghost predicate Valid() {
      && (forall id :: id in base ==>
            base[id] < id && Present(id) && base[id] !in base && !Participates(base[id]))
      && (forall a: MdId, b: MdId | Participates(a) && Participates(b) && a in base ::
            Similar(nodes[a].value, nodes[b].value, Anything()) ==> b in base && base[b] == base[a])
    }
  }

  ghost function Anything(): (MdId, MdId) -> bool {
    (x, y) => true
  }

  // ------------------------------------------------------------------ congruence

  /** Two nodes the pass looks at with the same label and related references. */
  ghost predicate Alike(g: Setting, a: MdId, b: MdId, related: (MdId, MdId) -> bool) {
    g.Participates(a) && g.Participates(b) && Similar(g.nodes[a].value, g.nodes[b].value, related)
  }

  /** Congruent by a derivation of height at most `k`. */
  ghost predicate CongruentBy(g: Setting, k: nat, a: MdId, b: MdId)
    decreases k, 0
  {
    g.BaseRoot(a) == g.BaseRoot(b) || (k > 0 && Alike(g, a, b, ByHeight(g, k - 1)))
  }

  ghost function ByHeight(g: Setting, k: nat): (MdId, MdId) -> bool
    decreases k, 1
  {
    (x: MdId, y: MdId) => CongruentBy(g, k, x, y)
  }

  /** The least congruence: merged by identifier, or alike up to congruence. */
  ghost predicate Congruent(g: Setting, a: MdId, b: MdId) {
    exists k: nat :: CongruentBy(g, k, a, b)
  }

  ghost predicate AlikeCongruent(g: Setting, a: MdId, b: MdId) {
    exists k: nat :: Alike(g, a, b, ByHeight(g, k))
  }

  lemma {:induction false} CongruentHigher(g: Setting, k: nat, j: nat, a: MdId, b: MdId)
    requires k <= j && CongruentBy(g, k, a, b)
    ensures CongruentBy(g, j, a, b)
    decreases k
  {
    if g.BaseRoot(a) != g.BaseRoot(b) {
      AlikeHigher(g, k - 1, j - 1, a, b);
    }
  }

  lemma {:induction false} AlikeHigher(g: Setting, k: nat, j: nat, a: MdId, b: MdId)
    requires k <= j && Alike(g, a, b, ByHeight(g, k))
    ensures Alike(g, a, b, ByHeight(g, j))
    decreases k, 0
  {
    forall x: MdId, y: MdId | CongruentBy(g, k, x, y) ensures CongruentBy(g, j, x, y) {
      if g.BaseRoot(x) != g.BaseRoot(y) {
        AlikeHigher(g, k - 1, j - 1, x, y);
      }
    }
    SimilarMono(g.nodes[a].value, g.nodes[b].value, ByHeight(g, k), ByHeight(g, j));
  }

  lemma {:induction false} CongruentSym(g: Setting, k: nat, a: MdId, b: MdId)
    requires CongruentBy(g, k, a, b)
    ensures CongruentBy(g, k, b, a)
    decreases k
  {
    if g.BaseRoot(a) != g.BaseRoot(b) {
      var r := ByHeight(g, k - 1);
      forall x: MdId, y: MdId | r(x, y) ensures r(y, x) {
        CongruentSym(g, k - 1, x, y);
      }
      SimilarSym(g.nodes[a].value, g.nodes[b].value, r);
    }
  }

  lemma SimilarToAnything(g: Setting, a: MdId, b: MdId, r: (MdId, MdId) -> bool)
    requires Alike(g, a, b, r)
    ensures Similar(g.nodes[a].value, g.nodes[b].value, Anything())
  {
    SimilarMono(g.nodes[a].value, g.nodes[b].value, r, Anything());
  }

  /** A node merged by identifier and a node that looks like it have the same root. */
  lemma BaseThenAlike(g: Setting, a: MdId, b: MdId, c: MdId, r: (MdId, MdId) -> bool)
    requires g.Valid() && g.BaseRoot(a) == g.BaseRoot(b) && Alike(g, b, c, r)
    ensures a == b || g.BaseRoot(a) == g.BaseRoot(c)
  {
    if b in g.base {
      SimilarToAnything(g, b, c, r);
    }
  }

  lemma {:induction false} CongruentTrans(g: Setting, k: nat, a: MdId, b: MdId, c: MdId)
    requires g.Valid() && CongruentBy(g, k, a, b) && CongruentBy(g, k, b, c)
    ensures CongruentBy(g, k, a, c)
    decreases k
  {
    if g.BaseRoot(a) == g.BaseRoot(b) {
      if g.BaseRoot(b) != g.BaseRoot(c) {
        BaseThenAlike(g, a, b, c, ByHeight(g, k - 1));
      }
    } else if g.BaseRoot(b) == g.BaseRoot(c) {
      CongruentSym(g, k, a, b);
      BaseThenAlike(g, c, b, a, ByHeight(g, k - 1));
    } else {
      var r := ByHeight(g, k - 1);
      forall x: MdId, y: MdId, z: MdId | r(x, y) && r(y, z) ensures r(x, z) {
        CongruentTrans(g, k - 1, x, y, z);
      }
      SimilarTrans(g.nodes[a].value, g.nodes[b].value, g.nodes[c].value, r);
    }
  }

  function Max(a: nat, b: nat): nat {
    if a < b then b else a
  }

  lemma CongruentIsEquivalence(g: Setting, a: MdId, b: MdId, c: MdId)
    requires g.Valid()
    ensures Congruent(g, a, a)
    ensures Congruent(g, a, b) ==> Congruent(g, b, a)
    ensures Congruent(g, a, b) && Congruent(g, b, c) ==> Congruent(g, a, c)
  {
    assert CongruentBy(g, 0, a, a);
    if Congruent(g, a, b) {
      var k: nat :| CongruentBy(g, k, a, b);
      CongruentSym(g, k, a, b);
      if Congruent(g, b, c) {
        var j: nat :| CongruentBy(g, j, b, c);
        CongruentHigher(g, k, Max(k, j), a, b);
        CongruentHigher(g, j, Max(k, j), b, c);
        CongruentTrans(g, Max(k, j), a, b, c);
      }
    }
  }

  ghost function CongruentRelation(g: Setting): (MdId, MdId) -> bool {
    (x: MdId, y: MdId) => Congruent(g, x, y)
  }

  /** Finitely many references are congruent by derivations of one common height. */
  lemma {:induction false} CommonHeight(g: Setting, a: Metadata, b: Metadata, upTo: nat) returns (k: nat)
    requires Similar(a, b, CongruentRelation(g)) && upTo <= |a.items|
    ensures forall i :: 0 <= i < upTo ==> SimilarItem(a.items[i], b.items[i], ByHeight(g, k))
    decreases a, upTo
  {
    if upTo == 0 {
      k := 0;
    } else {
      var last := upTo - 1;
      var x, y := a.items[last], b.items[last];
      assert SimilarItem(x, y, CongruentRelation(g));
      var before := CommonHeight(g, a, b, last);
      var here: nat := 0;
      if x.Ref? {
        here :| CongruentBy(g, here, x.id, y.id);
      } else if x.Inline? {
        here := CommonHeight(g, x.node, y.node, |x.node.items|);
      }
      k := Max(before, here);
      forall i | 0 <= i < upTo ensures SimilarItem(a.items[i], b.items[i], ByHeight(g, k)) {
        ItemHigher(g, if i == last then here else before, k, a.items[i], b.items[i]);
      }
    }
  }

  lemma ItemHigher(g: Setting, k: nat, j: nat, a: Item, b: Item)
    requires k <= j && SimilarItem(a, b, ByHeight(g, k))
    ensures SimilarItem(a, b, ByHeight(g, j))
  {
    var r, s := ByHeight(g, k), ByHeight(g, j);
    forall x: MdId, y: MdId | r(x, y) ensures s(x, y) {
      CongruentHigher(g, k, j, x, y);
    }
    if a.Inline? {
      SimilarMono(a.node, b.node, r, s);
    }
  }

  /** The relation is a congruence: the same label over congruent references. */
  lemma CongruentClosed(g: Setting, a: MdId, b: MdId)
    requires Alike(g, a, b, CongruentRelation(g))
    ensures AlikeCongruent(g, a, b) && Congruent(g, a, b)
  {
    var x, y := g.nodes[a].value, g.nodes[b].value;
    var k := CommonHeight(g, x, y, |x.items|);
    assert Alike(g, a, b, ByHeight(g, k));
    assert CongruentBy(g, k + 1, a, b);
  }

  lemma AlikeIsCongruent(g: Setting, a: MdId, b: MdId)
    requires AlikeCongruent(g, a, b)
    ensures Congruent(g, a, b)
    ensures Similar(g.nodes[a].value, g.nodes[b].value, CongruentRelation(g))
  {
    var k: nat :| Alike(g, a, b, ByHeight(g, k));
    assert CongruentBy(g, k + 1, a, b);
    SimilarMono(g.nodes[a].value, g.nodes[b].value, ByHeight(g, k), CongruentRelation(g));
  }

  lemma AlikeSym(g: Setting, a: MdId, b: MdId)
    requires AlikeCongruent(g, a, b)
    ensures AlikeCongruent(g, b, a)
  {
    var k: nat :| Alike(g, a, b, ByHeight(g, k));
    var r := ByHeight(g, k);
    forall x: MdId, y: MdId | r(x, y) ensures r(y, x) {
      CongruentSym(g, k, x, y);
    }
    SimilarSym(g.nodes[a].value, g.nodes[b].value, r);
    assert Alike(g, b, a, ByHeight(g, k));
  }

  lemma AlikeTrans(g: Setting, a: MdId, b: MdId, c: MdId)
    requires g.Valid() && AlikeCongruent(g, a, b) && AlikeCongruent(g, b, c)
    ensures AlikeCongruent(g, a, c)
  {
    var k: nat :| Alike(g, a, b, ByHeight(g, k));
    var j: nat :| Alike(g, b, c, ByHeight(g, j));
    var h := Max(k, j);
    AlikeHigher(g, k, h, a, b);
    AlikeHigher(g, j, h, b, c);
    var r := ByHeight(g, h);
    forall x: MdId, y: MdId, z: MdId | r(x, y) && r(y, z) ensures r(x, z) {
      CongruentTrans(g, h, x, y, z);
    }
    SimilarTrans(g.nodes[a].value, g.nodes[b].value, g.nodes[c].value, r);
    assert Alike(g, a, c, ByHeight(g, h));
  }

  lemma AlikeInBase(g: Setting, a: MdId, b: MdId)
    requires g.Valid() && AlikeCongruent(g, a, b)
    ensures a in g.base <==> b in g.base
    ensures a in g.base ==> g.base[a] == g.base[b]
  {
    AlikeSym(g, a, b);
    var k: nat :| Alike(g, a, b, ByHeight(g, k));
    SimilarToAnything(g, a, b, ByHeight(g, k));
    var j: nat :| Alike(g, b, a, ByHeight(g, j));
    SimilarToAnything(g, b, a, ByHeight(g, j));
  }

  // ------------------------------------------------------------------- resolving

  /** One step along the map, which is how the finished map is read. */
  function Resolve(c: Canonical, id: MdId): MdId {
    if id in c then c[id] else id
  }

  /** Every step along the map, which is how the map is read while it is built.
  Entries point down, which is what ends the walk. */
  function ResolveIn(c: Canonical, id: MdId): (root: MdId)
    ensures root <= id
  {
    if id in c && c[id] < id then ResolveIn(c, c[id]) else id
  }

  /** The walk the printer makes, which remembers where it has been. */
  method ResolveInLoop(c: Canonical, id: MdId) returns (current: MdId)
    requires forall x :: x in c ==> c[x] < x
    ensures current == ResolveIn(c, id)
  {
    current := id;
    var seen: set<MdId> := {};
    while current in c
      invariant ResolveIn(c, current) == ResolveIn(c, id)
      invariant forall x :: x in seen ==> current < x
      decreases current
    {
      var next := c[current];
      if next == current || current in seen {
        break;
      }
      seen := seen + {current};
      current := next;
    }
  }

  /** What a scan files a node under: the same label, over the roots of what it refers to. */
  function Substitute(n: Metadata, c: Canonical): Metadata {
    MapRefs(n, Resolver(c))
  }

  function Resolver(c: Canonical): MdId -> MdId {
    id => ResolveIn(c, id)
  }

  /** Each entry is a merge by identifier or a merge of alike nodes, pointing down. */
  ghost predicate Sound(g: Setting, c: Canonical) {
    && g.base.Keys <= c.Keys
    && forall id :: id in c ==>
         c[id] < id && ((id in g.base && c[id] == g.base[id]) || AlikeCongruent(g, id, c[id]))
  }

  lemma {:induction false} RootIsCongruent(g: Setting, c: Canonical, id: MdId)
    requires g.Valid() && Sound(g, c)
    ensures Congruent(g, id, ResolveIn(c, id))
  {
    assert CongruentBy(g, 0, id, id);
    if id in c {
      RootIsCongruent(g, c, c[id]);
      if id in g.base && c[id] == g.base[id] {
        assert CongruentBy(g, 0, id, c[id]);
      } else {
        AlikeIsCongruent(g, id, c[id]);
      }
      CongruentIsEquivalence(g, id, c[id], ResolveIn(c, id));
    }
  }

  lemma SettledHasNoEntry(g: Setting, c: Canonical, id: MdId)
    requires g.Valid() && Sound(g, c) && id !in g.base && !g.Participates(id)
    ensures id !in c && ResolveIn(c, id) == id
  {
  }

  /** A node merged by identifier keeps its root whatever the pass does to its entry. */
  lemma {:induction false} BaseKeepsRoot(g: Setting, c: Canonical, id: MdId)
    requires g.Valid() && Sound(g, c) && id in g.base
    ensures ResolveIn(c, id) == g.base[id]
  {
    if c[id] == g.base[id] {
      SettledHasNoEntry(g, c, c[id]);
    } else {
      AlikeInBase(g, id, c[id]);
      BaseKeepsRoot(g, c, c[id]);
    }
  }

  lemma BaseRootsResolve(g: Setting, c: Canonical, a: MdId, b: MdId)
    requires g.Valid() && Sound(g, c) && g.BaseRoot(a) == g.BaseRoot(b)
    ensures ResolveIn(c, a) == ResolveIn(c, b)
  {
    if a in g.base { BaseKeepsRoot(g, c, a); SettledHasNoEntry(g, c, g.base[a]); }
    if b in g.base { BaseKeepsRoot(g, c, b); SettledHasNoEntry(g, c, g.base[b]); }
  }

  /** Equal keys, even keys taken at different moments, come from alike nodes. */
  lemma KeysMeanAlike(g: Setting, c: Canonical, d: Canonical, a: MdId, b: MdId)
    requires g.Valid() && Sound(g, c) && Sound(g, d) && g.Participates(a) && g.Participates(b)
    requires Substitute(g.nodes[a].value, c) == Substitute(g.nodes[b].value, d)
    ensures AlikeCongruent(g, a, b)
  {
    MapRefsEqual(g.nodes[a].value, g.nodes[b].value, Resolver(c), Resolver(d));
    var r := Same(Resolver(c), Resolver(d));
    forall x: MdId, y: MdId | r(x, y) ensures CongruentRelation(g)(x, y) {
      RootIsCongruent(g, c, x);
      RootIsCongruent(g, d, y);
      CongruentIsEquivalence(g, y, ResolveIn(d, y), x);
      CongruentIsEquivalence(g, x, ResolveIn(c, x), y);
    }
    SimilarMono(g.nodes[a].value, g.nodes[b].value, r, CongruentRelation(g));
    CongruentClosed(g, a, b);
  }
}
