/** Modules whose metadata prints canonically, identifiers included: every field is written,
every reference is to a node with a line of its own, no identifier is carried under two tags
and one step of the finished map is enough. */
module PlainReprinting {
  import opened Wrappers
  import opened MetadataNodes
  import opened DepthFirst
  import opened Uniquing
  import opened UniquingScan
  import opened Identifiers
  import opened Numbering
  import opened MetadataRoots
  import opened MetadataText
  import opened MetadataSlots
  import opened Reprinting

  /** Every field is written, and every reference is to a node with a line of its own. */
  ghost predicate Plain(w: Walked) {
    forall id: MdId :: w.Numbered(id) ==> ShowsAll(w.nodes[id].value) && RefsAll(w.nodes[id].value, ResolvesToNumbered(w))
  }

  ghost predicate OneTagEach(nodes: MetadataSlots.Nodes) {
    var keys := OdrKeys(nodes);
    forall i: MdId, j: MdId :: i < |keys| && j < |keys| && SameIdentifier(keys[i], keys[j]) ==> keys[i] == keys[j]
  }

  predicate SameIdentifier(a: Option<OdrKey>, b: Option<OdrKey>) {
    a.Some? && b.Some? && a.value.identifier == b.value.identifier
  }

  ghost predicate NoneCollide(nodes: MetadataSlots.Nodes) {
    forall a: MdId, b: MdId :: !Collide(StartOf(nodes), a, b)
  }

  ghost predicate PrintsPlainly(w: Walked, roots: seq<MdRef>) {
    Prints(w, roots) && Plain(w) && OneTagEach(w.nodes) && NoneCollide(w.nodes)
  }

  ghost function ListedIn(w: Walked, roots: seq<MdRef>): MdId -> bool
    requires w.InPlaceEnds()
  {
    (id: MdId) => Resolve(w.canonical, id) in OrderOf(w, roots)
  }

  lemma AllListed(w: Walked, roots: seq<MdRef>, n: MdId)
    requires Prints(w, roots) && Plain(w) && n in OrderOf(w, roots) && n in w.Edges()
    ensures RefsAll(w.nodes[n].value, ListedIn(w, roots))
  {
    var node := w.nodes[n].value;
    RefsAllListed(w.orders, node, ResolvesToNumbered(w));
    forall t | t in VisitList(w.orders, node) ensures ListedIn(w, roots)(t) {
      NumberingIsClosed(w, roots, n, t);
    }
    ListedRefsAll(w.orders, node, ListedIn(w, roots));
  }

  // -------------------------------------------------------- numbered nodes are roots

  lemma StepReachesRoot(w: Walked)
    requires Exits(StartOf(w.nodes), w.canonical) && NoneCollide(w.nodes)
    ensures forall id: MdId :: Resolve(w.canonical, id) == ResolveIn(w.canonical, id)
  {
    StartIsValid(w.nodes);
    OneStepIsEnough(StartOf(w.nodes), w.canonical);
  }

  ghost function HasNoEntry(c: Canonical): MdId -> bool {
    (id: MdId) => id !in c
  }

  lemma ExpandsToRoots(w: Walked, roots: seq<MdRef>, ids: seq<MdId>)
    requires PrintsPlainly(w, roots)
    ensures forall t :: t in w.ExpandAll(ids) ==> HasNoEntry(w.canonical)(t)
  {
    var listed := OnLines(w, ids);
    StepReachesRoot(w);
    ExpandDefined(w, ids);
    forall t | t in w.ExpandAll(ids) ensures HasNoEntry(w.canonical)(t) {
      var i :| 0 <= i < |listed| && Resolve(w.canonical, listed[i]) == t;
      RootIsRoot(w.canonical, listed[i], StartOf(w.nodes));
    }
  }

  /** A numbered node is what it collapses onto. */
  lemma NumberedIsCanonical(w: Walked, roots: seq<MdRef>)
    requires PrintsPlainly(w, roots)
    ensures forall n :: n in OrderOf(w, roots) ==> HasNoEntry(w.canonical)(n)
  {
    var g, p := w.Edges(), HasNoEntry(w.canonical);
    ExpandsToRoots(w, roots, w.RootList(roots));
    forall n, t | n in g && t in g[n] ensures p(t) {
      ExpandsToRoots(w, roots, VisitList(w.orders, w.nodes[n].value));
    }
    DfsKeeps(g, p, [], w.ExpandAll(w.RootList(roots)));
  }

  lemma {:induction false} RootIsRoot(c: Canonical, id: MdId, g: Setting)
    requires Sound(g, c)
    ensures ResolveIn(c, id) !in c
  {
    if id in c {
      RootIsRoot(c, c[id], g);
    }
  }

  lemma RootsWithOneKey(g: Setting, c: Canonical, x: MdId, y: MdId)
    requires Exits(g, c) && g.Participates(x) && g.Participates(y) && x !in c && y !in c
    requires KeyUnder(g, c, x) == KeyUnder(g, c, y)
    ensures x == y
  {
    GroupHeadFacts(g, c, x);
    GroupHeadFacts(g, c, y);
  }

  /** Numbered nodes that print alike have one key under the map they print by. */
  lemma PrintedAlikeKeyedAlike(w: Walked, roots: seq<MdRef>, x: MdId, y: MdId)
    requires PrintsPlainly(w, roots) && x in OrderOf(w, roots) && x in w.Edges() && y in w.Edges()
    requires var number := PrintedNumber(w.canonical, OrderOf(w, roots));
             MapRefs(w.nodes[x].value, number) == MapRefs(w.nodes[y].value, number)
    ensures Substitute(w.nodes[x].value, w.canonical) == Substitute(w.nodes[y].value, w.canonical)
  {
    var c, order := w.canonical, OrderOf(w, roots);
    var number := PrintedNumber(c, order);
    var a, b := w.nodes[x].value, w.nodes[y].value;
    MapRefsEqual(a, b, number, number);
    var r, s, plain := Same(number, number), Same(Resolver(c), Resolver(c)), ListedIn(w, roots);
    AllListed(w, roots, x);
    StepReachesRoot(w);
    forall i: MdId, j: MdId | r(i, j) && plain(i) ensures s(i, j) {
      assert PositionIn(order, Resolve(c, i)) == PositionIn(order, Resolve(c, j));
    }
    SimilarRefine(a, b, r, plain, s);
    MapRefsEqual(a, b, Resolver(c), Resolver(c));
  }

  // --------------------------------------------------------- what a definition says

  /** A definition of a plain module is its node renumbered, marked if it took an identifier. */
  lemma PlainDefinition(w: Walked, order: seq<MdId>, x: MdId)
    requires Plain(w) && w.Numbered(x)
    ensures WriteDefinition(w, order, x)
         == Marked(x in ClaimedIn(w.nodes), MapRefs(w.nodes[x].value, PrintedNumber(w.canonical, order)))
    ensures OdrKeyOf(WriteDefinition(w, order, x)) == OdrKeyOf(w.nodes[x].value)
  {
    var name, number, node := NameIn(w, order), PrintedNumber(w.canonical, order), w.nodes[x].value;
    RefsAllMono(node, ResolvesToNumbered(w), (id: MdId) => NamesByNumber(name, number, id));
    WritingRenumbers(node, name, number);
    WritingKeepsIdentifier(node, name);
    MarkingKeepsIdentifier(x in ClaimedIn(w.nodes), WriteNode(node, name));
  }

  function Rescoped(key: Option<MemberKey>, f: MdId -> MdId): Option<MemberKey> {
    match key case Some(k) => Some(k.(scope := f(k.scope))) case None => None
  }

  lemma {:induction false} RefOfMapped(n: Metadata, f: MdId -> MdId, wanted: string, i: nat)
    ensures FindRef(MapRefs(n, f), wanted, i) == (match FindRef(n, wanted, i) case Some(id) => Some(f(id)) case None => None)
    decreases |n.items| - i
  {
    if i < |n.items| {
      RefOfMapped(n, f, wanted, i + 1);
    }
  }

  lemma {:induction false} LeavesOfMapped(n: Metadata, f: MdId -> MdId, wanted: string, i: nat)
    ensures FindStr(MapRefs(n, f), wanted, i) == FindStr(n, wanted, i)
    ensures FindUnsigned(MapRefs(n, f), wanted, i) == FindUnsigned(n, wanted, i)
    decreases |n.items| - i
  {
    if i < |n.items| {
      LeavesOfMapped(n, f, wanted, i + 1);
    }
  }

  lemma MemberKeyOfMapped(n: Metadata, f: MdId -> MdId)
    ensures MemberKeyOf(MapRefs(n, f)) == Rescoped(MemberKeyOf(n), f)
  {
    RefOfMapped(n, f, "scope", 0);
    LeavesOfMapped(n, f, "tag", 0);
    LeavesOfMapped(n, f, "name", 0);
    LeavesOfMapped(n, f, "linkageName", 0);
  }

  lemma {:induction false} FoundRefIsHeld(n: Metadata, wanted: string, i: nat, p: MdId -> bool)
    requires RefsAll(n, p)
    ensures FindRef(n, wanted, i).Some? ==> p(FindRef(n, wanted, i).value)
    decreases |n.items| - i
  {
    if i < |n.items| {
      assert RefsAllItem(n.items[i], p);
      FoundRefIsHeld(n, wanted, i + 1, p);
    }
  }

  // ------------------------------------------------------------------- identifiers

  function ClaimsOf(nodes: MetadataSlots.Nodes): Claims {
    ClaimUpTo(OdrKeys(nodes), |nodes|)
  }

  function MembersOf(nodes: MetadataSlots.Nodes): Members {
    MembersUpTo(ClaimsOf(nodes), MemberKeys(nodes), |nodes|)
  }

  /** A node nothing was merged onto another, carrying an identifier, is the one that took it. */
  lemma KeptHolds(nodes: MetadataSlots.Nodes, x: MdId)
    requires OneTagEach(nodes) && x !in StartOf(nodes).base && x < |nodes| && OdrKeys(nodes)[x].Some?
    ensures var s, t := ClaimsOf(nodes), OdrKeys(nodes)[x].value.identifier;
            x in s.claimed && t in s.byIdentifier && s.byIdentifier[t].first == x
  {
    var s, keys := ClaimsOf(nodes), OdrKeys(nodes);
    StartFacts(nodes);
    ClaimHolders(keys, |nodes|);
    assert x !in s.canonical;
    assert !Loses(s, x, keys[x]);
    assert keys[s.byIdentifier[keys[x].value.identifier].first] == keys[x];
  }

  /** The written nodes' identifiers are those of the nodes, and no two share one. */
  lemma WrittenClaims(w: Walked, roots: seq<MdRef>)
    requires PrintsPlainly(w, roots)
    ensures var order, nodes := OrderOf(w, roots), Written(w, roots).nodes;
            && |nodes| == |order| && ClaimsOf(nodes).canonical == map[]
            && forall k: nat :: k < |order| ==>
                 w.Numbered(order[k]) && (k in ClaimsOf(nodes).claimed <==> order[k] in ClaimedIn(w.nodes))
    ensures forall k: MdId :: k in ClaimsOf(Written(w, roots).nodes).claimed ==> k < |OrderOf(w, roots)|
  {
    var order, v := OrderOf(w, roots), Written(w, roots);
    var keys := OdrKeys(v.nodes);
    NumberingIsExact(w, roots);
    forall k: nat | k < |order|
      ensures w.Numbered(order[k]) && keys[k] == OdrKeys(w.nodes)[order[k]]
      ensures keys[k].Some? <==> order[k] in ClaimedIn(w.nodes)
      ensures keys[k].Some? ==> IsHolder(w.nodes, order[k])
    {
      WrittenClaim(w, roots, k);
    }
    forall i: nat, j: nat | i < j < |keys| && keys[i].Some? && keys[j].Some?
      ensures keys[i].value.identifier != keys[j].value.identifier
    {
      assert IsHolder(w.nodes, order[i]) && IsHolder(w.nodes, order[j]);
    }
    DistinctClaims(keys, |keys|);
  }

  ghost predicate IsHolder(nodes: MetadataSlots.Nodes, x: MdId) {
    && x < |nodes| && OdrKeys(nodes)[x].Some?
    && var s, t := ClaimsOf(nodes), OdrKeys(nodes)[x].value.identifier;
       t in s.byIdentifier && s.byIdentifier[t].first == x
  }

  lemma WrittenClaim(w: Walked, roots: seq<MdRef>, k: nat)
    requires PrintsPlainly(w, roots) && k < |OrderOf(w, roots)|
    ensures var order, keys := OrderOf(w, roots), OdrKeys(Written(w, roots).nodes);
            && w.Numbered(order[k]) && |keys| == |order| && keys[k] == OdrKeys(w.nodes)[order[k]]
            && (keys[k].Some? <==> order[k] in ClaimedIn(w.nodes))
            && (keys[k].Some? ==> IsHolder(w.nodes, order[k]))
  {
    var order := OrderOf(w, roots);
    WrittenNode(w, roots, k);
    PlainDefinition(w, order, order[k]);
    NumberedIsCanonical(w, roots);
    assert HasNoEntry(w.canonical)(order[k]);
    ClaimHolders(OdrKeys(w.nodes), |w.nodes|);
    if OdrKeys(w.nodes)[order[k]].Some? {
      KeptHolds(w.nodes, order[k]);
    }
  }

  // ----------------------------------------------------------------------- members

  /** What is no loser and took no identifier ends at nothing that took one. */
  lemma EndsUnclaimed(w: Walked, s: MdId)
    requires Exits(StartOf(w.nodes), w.canonical) && s !in ClaimsOf(w.nodes).canonical && s !in ClaimedIn(w.nodes)
    ensures Resolve(w.canonical, s) !in ClaimedIn(w.nodes)
  {
    StartFacts(w.nodes);
    if s in w.canonical && !(s in StartOf(w.nodes).base && w.canonical[s] == StartOf(w.nodes).base[s]) {
      assert AlikeCongruent(StartOf(w.nodes), s, w.canonical[s]);
    }
  }

  /** A scope took an identifier when members were merged exactly when what it is written as
  did, and then it is that. */
  lemma ScopeIsTheSame(w: Walked, x: MdId, s: MdId)
    requires Exits(StartOf(w.nodes), w.canonical) && NoneCollide(w.nodes) && x <= |w.nodes|
    ensures var r := Resolve(MembersUpTo(ClaimsOf(w.nodes), MemberKeys(w.nodes), x).canonical, s);
            && (r in ClaimedIn(w.nodes) <==> Resolve(w.canonical, s) in ClaimedIn(w.nodes))
            && (r in ClaimedIn(w.nodes) ==> r == Resolve(w.canonical, s))
  {
    var claims, keys, g := ClaimsOf(w.nodes), MemberKeys(w.nodes), StartOf(w.nodes);
    StartFacts(w.nodes);
    MembersHold(claims, keys, x);
    StartIsValid(w.nodes);
    if s in claims.canonical {
      StepReachesRoot(w);
      BaseKeepsRoot(g, w.canonical, s);
    } else if s in ClaimedIn(w.nodes) {
      assert s !in g.base && !g.Participates(s);
      SettledHasNoEntry(g, w.canonical, s);
    } else {
      EndsUnclaimed(w, s);
    }
  }

  lemma ScopeIsHeld(n: Metadata, p: MdId -> bool)
    requires RefsAll(n, p) && MemberKeyOf(n).Some?
    ensures p(MemberKeyOf(n).value.scope)
  {
    FoundRefIsHeld(n, "scope", 0, p);
  }

  lemma ScopeIsNumbered(w: Walked, roots: seq<MdRef>, x: MdId)
    requires PrintsPlainly(w, roots) && x in OrderOf(w, roots) && x in w.Edges() && MemberKeys(w.nodes)[x].Some?
    ensures Resolve(w.canonical, MemberKeys(w.nodes)[x].value.scope) in OrderOf(w, roots)
  {
    AllListed(w, roots, x);
    ScopeIsHeld(w.nodes[x].value, ListedIn(w, roots));
  }

  /** The key a definition can be merged on: marked nodes have none, nor had they before. */
  lemma DefinitionKey(n: Metadata, f: MdId -> MdId, claimed: bool)
    requires claimed ==> OdrKeyOf(n).Some?
    ensures var m := Marked(claimed, MapRefs(n, f));
            (if m.IsDistinct() then None else MemberKeyOf(m))
            == Rescoped(if n.IsDistinct() then None else MemberKeyOf(n), f)
  {
    MemberHasNoIdentifier(n);
    MemberKeyOfMapped(n, f);
  }

  /** The key of a written member, from the member's. */
  lemma WrittenMember(w: Walked, roots: seq<MdRef>, k: nat)
    requires PrintsPlainly(w, roots) && k < |OrderOf(w, roots)|
    ensures var order := OrderOf(w, roots);
            && order[k] < |w.nodes| && |Written(w, roots).nodes| == |order|
            && MemberKeys(Written(w, roots).nodes)[k]
            == Rescoped(MemberKeys(w.nodes)[order[k]], PrintedNumber(w.canonical, order))
            && (MemberKeys(w.nodes)[order[k]].Some? ==>
                 Resolve(w.canonical, MemberKeys(w.nodes)[order[k]].value.scope) in order)
  {
    var order := OrderOf(w, roots);
    var x := order[k];
    WrittenNode(w, roots, k);
    OrderIsHeld(w, roots);
    PlainDefinition(w, order, x);
    ClaimHolders(OdrKeys(w.nodes), |w.nodes|);
    DefinitionKey(w.nodes[x].value, PrintedNumber(w.canonical, order), x in ClaimedIn(w.nodes));
    if MemberKeys(w.nodes)[x].Some? {
      ScopeIsNumbered(w, roots, x);
    }
  }

  ghost predicate HasPlace(w: Walked, x: MdId) {
    x < |w.nodes| && MemberKeys(w.nodes)[x].Some?
    && Resolve(w.canonical, MemberKeys(w.nodes)[x].value.scope) in ClaimedIn(w.nodes)
  }

  ghost function PlaceOf(w: Walked, x: MdId): MemberKey
    requires HasPlace(w, x)
  {
    var key := MemberKeys(w.nodes)[x].value;
    key.(scope := Resolve(w.canonical, key.scope))
  }

  /** Members are the nodes with a scope that took an identifier, and two with one key do not
  both stay. */
  lemma PlacesDiffer(w: Walked, x: MdId, y: MdId)
    requires Exits(StartOf(w.nodes), w.canonical) && NoneCollide(w.nodes) && x < |w.nodes| && MemberKeys(w.nodes)[x].Some?
    ensures x in MembersOf(w.nodes).members <==> HasPlace(w, x)
    ensures HasPlace(w, x) && HasPlace(w, y) && PlaceOf(w, x) == PlaceOf(w, y) && x != y ==>
              x in StartOf(w.nodes).base || y in StartOf(w.nodes).base
  {
    var claims, keys := ClaimsOf(w.nodes), MemberKeys(w.nodes);
    MembersArePlaced(claims, keys, |w.nodes|);
    assert IsPlaced(claims, keys, MembersOf(w.nodes), x);
    ScopeIsTheSame(w, x, keys[x].value.scope);
    if HasPlace(w, y) {
      assert IsPlaced(claims, keys, MembersOf(w.nodes), y);
      ScopeIsTheSame(w, y, keys[y].value.scope);
    }
  }

  /** A written member's scope took an identifier exactly when the member's did. */
  lemma WrittenScope(w: Walked, roots: seq<MdRef>, k: nat)
    requires PrintsPlainly(w, roots) && k < |OrderOf(w, roots)|
    ensures var order, nodes := OrderOf(w, roots), Written(w, roots).nodes;
            && |nodes| == |order| && order[k] < |w.nodes|
            && (MemberKeys(nodes)[k].Some? <==> MemberKeys(w.nodes)[order[k]].Some?)
            && (MemberKeys(nodes)[k].Some? ==>
                 (MemberKeys(nodes)[k].value.scope in ClaimsOf(nodes).claimed <==> HasPlace(w, order[k])))
  {
    var order, nodes := OrderOf(w, roots), Written(w, roots).nodes;
    WrittenMember(w, roots, k);
    WrittenClaims(w, roots);
    if MemberKeys(w.nodes)[order[k]].Some? {
      var r := Resolve(w.canonical, MemberKeys(w.nodes)[order[k]].value.scope);
      assert order[PositionIn(order, r)] == r;
    }
  }

  /** Two written members of one scope and key are one. */
  lemma WrittenPlacesDiffer(w: Walked, roots: seq<MdRef>, i: nat, j: nat)
    requires PrintsPlainly(w, roots) && i < j < |OrderOf(w, roots)|
    ensures var nodes := Written(w, roots).nodes;
            && |nodes| == |OrderOf(w, roots)|
            && (MemberKeys(nodes)[i].Some? && MemberKeys(nodes)[i].value.scope in ClaimsOf(nodes).claimed ==>
                 MemberKeys(nodes)[i] != MemberKeys(nodes)[j])
  {
    var order, nodes := OrderOf(w, roots), Written(w, roots).nodes;
    var x, y := order[i], order[j];
    WrittenScope(w, roots, i);
    WrittenScope(w, roots, j);
    WrittenMember(w, roots, i);
    WrittenMember(w, roots, j);
    if MemberKeys(nodes)[i].Some? && MemberKeys(nodes)[i].value.scope in ClaimsOf(nodes).claimed
       && MemberKeys(nodes)[i] == MemberKeys(nodes)[j] {
      NumberingIsExact(w, roots);
      KeptIsInNoBase(w, roots, x);
      KeptIsInNoBase(w, roots, y);
      SameScope(w, order, MemberKeys(w.nodes)[x].value.scope, MemberKeys(w.nodes)[y].value.scope);
      PlacesDiffer(w, x, y);
    }
  }

  lemma KeptIsInNoBase(w: Walked, roots: seq<MdRef>, x: MdId)
    requires PrintsPlainly(w, roots) && x in OrderOf(w, roots)
    ensures x !in StartOf(w.nodes).base
  {
    NumberedIsCanonical(w, roots);
    assert HasNoEntry(w.canonical)(x);
  }

  lemma SameScope(w: Walked, order: seq<MdId>, s: MdId, t: MdId)
    requires Resolve(w.canonical, s) in order && Resolve(w.canonical, t) in order
    requires PrintedNumber(w.canonical, order)(s) == PrintedNumber(w.canonical, order)(t)
    ensures Resolve(w.canonical, s) == Resolve(w.canonical, t)
  {
  }

  // ------------------------------------------------------------------ standing apart

  /** What the written nodes start from: nothing merged, and held as the nodes were. */
  lemma WrittenStart(w: Walked, roots: seq<MdRef>)
    requires PrintsPlainly(w, roots)
    ensures var order, g := OrderOf(w, roots), StartOf(Written(w, roots).nodes);
            && g.base == map[] && |g.nodes| == |order|
            && forall k: nat :: k < |order| ==> (k in g.held <==> order[k] in StartOf(w.nodes).held)
  {
    var order, nodes := OrderOf(w, roots), Written(w, roots).nodes;
    var claims, keys := ClaimsOf(nodes), MemberKeys(nodes);
    WrittenClaims(w, roots);
    forall i: nat, j: nat | i < j < |keys| && keys[i].Some? && keys[i].value.scope in claims.claimed
      ensures keys[i] != keys[j]
    {
      WrittenPlacesDiffer(w, roots, i, j);
    }
    DistinctMembers(claims, keys, |keys|);
    forall k: nat | k < |order| ensures k in MembersOf(nodes).members <==> order[k] in MembersOf(w.nodes).members {
      WrittenScope(w, roots, k);
      if MemberKeys(w.nodes)[order[k]].Some? {
        PlacesDiffer(w, order[k], order[k]);
      } else {
        StartFacts(w.nodes);
      }
    }
  }

  lemma WrittenParticipates(w: Walked, roots: seq<MdRef>, k: nat)
    requires PrintsPlainly(w, roots) && StartOf(Written(w, roots).nodes).Participates(k)
    ensures k < |OrderOf(w, roots)| && StartOf(w.nodes).Participates(OrderOf(w, roots)[k])
    ensures var order := OrderOf(w, roots);
            Written(w, roots).nodes[k].value == MapRefs(w.nodes[order[k]].value, PrintedNumber(w.canonical, order))
  {
    WrittenStart(w, roots);
    WrittenNode(w, roots, k);
    PlainDefinition(w, OrderOf(w, roots), OrderOf(w, roots)[k]);
  }

  /** The written nodes of a plain module stand apart. */
  lemma PlainStandsApart(w: Walked, roots: seq<MdRef>)
    requires PrintsPlainly(w, roots)
    ensures StandApart(Written(w, roots).nodes)
  {
    var order, nodes := OrderOf(w, roots), Written(w, roots).nodes;
    var g := StartOf(nodes);
    WrittenStart(w, roots);
    WrittenClaims(w, roots);
    NumberingIsExact(w, roots);
    forall id: MdId | id in ClaimedIn(nodes) && g.Present(id) ensures nodes[id].value.IsDistinct() {
      ClaimedIsMarked(w, roots, id);
    }
    forall x: MdId, y: MdId | g.Participates(x) && g.Participates(y) && nodes[x] == nodes[y] ensures x == y {
      SameTextIsOneNode(w, roots, x, y);
    }
  }

  lemma ClaimedIsMarked(w: Walked, roots: seq<MdRef>, k: nat)
    requires PrintsPlainly(w, roots) && k < |OrderOf(w, roots)| && OrderOf(w, roots)[k] in ClaimedIn(w.nodes)
    ensures |Written(w, roots).nodes| == |OrderOf(w, roots)| && Written(w, roots).nodes[k].Some?
    ensures Written(w, roots).nodes[k].value.IsDistinct()
  {
    WrittenNode(w, roots, k);
    WrittenClaim(w, roots, k);
  }

  lemma SameTextIsOneNode(w: Walked, roots: seq<MdRef>, k: nat, j: nat)
    requires PrintsPlainly(w, roots)
    requires StartOf(Written(w, roots).nodes).Participates(k) && StartOf(Written(w, roots).nodes).Participates(j)
    requires Written(w, roots).nodes[k] == Written(w, roots).nodes[j]
    ensures k == j
  {
    var order := OrderOf(w, roots);
    WrittenParticipates(w, roots, k);
    WrittenParticipates(w, roots, j);
    OrderIsHeld(w, roots);
    NumberingIsExact(w, roots);
    NumberedIsCanonical(w, roots);
    PrintedAlikeKeyedAlike(w, roots, order[k], order[j]);
    assert HasNoEntry(w.canonical)(order[k]) && HasNoEntry(w.canonical)(order[j]);
    RootsWithOneKey(StartOf(w.nodes), w.canonical, order[k], order[j]);
  }

  /** So printing a plain module is canonical, and printing it again gives the same text. */
  lemma PrintingIsCanonical(w: Walked, roots: seq<MdRef>)
    requires PrintsPlainly(w, roots)
    ensures var v, again := Written(w, roots), PrintedRoots(roots, PenOf(w, OrderOf(w, roots)));
            && IsCanonical(v, again) && Prints(v, again)
            && Written(v, again).nodes == v.nodes && PrintedRoots(again, PenOf(v, OrderOf(v, again))) == again
  {
    PlainStandsApart(w, roots);
    PrintingIsCanonicalExactly(w, roots);
    PrintingAgainIsTheSame(w, roots);
  }
}
