/** What numbering gives, and when printing metadata is canonical: the printed nodes, read
back, merge nothing and number themselves as they stand. */
module Reprinting {
  import opened Wrappers
  import opened MetadataNodes
  import opened DepthFirst
  import opened Uniquing
  import opened UniquingScan
  import opened Identifiers
  import opened Numbering
  import opened MetadataRoots
  import opened MetadataText
  import opened MetadataSlots

  // ------------------------------------------------------------ what is numbered

  ghost function OrderOf(w: Walked, roots: seq<MdRef>): seq<MdId>
    requires w.InPlaceEnds()
  {
    w.Visited([], roots)
  }

  /** Numbering lists each node reached from the roots once, in depth-first preorder. */
  lemma NumberingIsExact(w: Walked, roots: seq<MdRef>)
    requires w.InPlaceEnds()
    ensures var order, all := OrderOf(w, roots), w.ExpandAll(w.RootList(roots));
            && Distinct(order)
            && (forall n :: n in order <==> Reachable(w.Edges(), all, n))
            && IsPreorder(w.Edges(), all, order)
  {
    var g, all := w.Edges(), w.ExpandAll(w.RootList(roots));
    DfsExact(g, all);
    DfsIsPreorder(g, all);
  }

  /** What a numbered node points at is numbered, prints in place or is undefined. */
  lemma NumberingIsClosed(w: Walked, roots: seq<MdRef>, n: MdId, t: MdId)
    requires w.InPlaceEnds() && n in OrderOf(w, roots) && n in w.Edges()
    requires t in VisitList(w.orders, w.nodes[n].value)
    ensures var r := Resolve(w.canonical, t);
            r in OrderOf(w, roots) || w.InPlace(r) || !w.Present(r)
  {
    var r := Resolve(w.canonical, t);
    if w.Numbered(r) {
      EdgeTo(w, n, t);
      DfsTarget(w.Edges(), w.ExpandAll(w.RootList(roots)), n, r);
    }
  }

  lemma EdgeTo(w: Walked, n: MdId, t: MdId)
    requires w.InPlaceEnds() && n in w.Edges() && t in VisitList(w.orders, w.nodes[n].value)
    requires w.Numbered(Resolve(w.canonical, t))
    ensures Resolve(w.canonical, t) in w.Edges()[n] && Resolve(w.canonical, t) in w.Edges()
  {
    w.ExpandHolds(VisitList(w.orders, w.nodes[n].value), t);
  }

  // ------------------------------------------------------------------ printing

  /** Where an id stands in the order: the number it prints as. */
  function PositionIn(order: seq<MdId>, id: MdId): (p: nat)
    ensures p <= |order| && (p < |order| ==> order[p] == id)
    ensures p == |order| <==> id !in order
  {
    if order == [] then 0 else if order[0] == id then 0 else 1 + PositionIn(order[1..], id)
  }

  lemma {:induction false} PositionOfElement(order: seq<MdId>, i: nat)
    requires Distinct(order) && i < |order|
    ensures PositionIn(order, order[i]) == i
  {
    if i > 0 {
      assert order[1..][i - 1] == order[i];
      PositionOfElement(order[1..], i - 1);
    }
  }

  function Position(order: seq<MdId>): MdId -> MdId {
    id => PositionIn(order, id)
  }

  function PrintedNumber(canonical: Canonical, order: seq<MdId>): MdId -> MdId {
    id => PositionIn(order, Resolve(canonical, id))
  }

  /** What a reference is written as: a number, or its node where that prints in place. */
  function NameIn(w: Walked, order: seq<MdId>): MdId -> MdRef {
    (id: MdId) =>
      var r := Resolve(w.canonical, id);
      if w.InPlace(r) then Here(w.nodes[r].value) else Id(PositionIn(order, r))
  }

  function WriteIn(w: Walked, order: seq<MdId>): Metadata -> Metadata {
    node => WriteNode(node, NameIn(w, order))
  }

  function PenOf(w: Walked, order: seq<MdId>): Pen {
    Pen(PrintedNumber(w.canonical, order), WriteIn(w, order))
  }

  /** The definition of a node: `distinct` if it took an identifier. */
  function WriteDefinition(w: Walked, order: seq<MdId>, x: MdId): Metadata
    requires x < |w.nodes| && w.nodes[x].Some?
  {
    Marked(x in ClaimedIn(w.nodes), WriteNode(w.nodes[x].value, NameIn(w, order)))
  }

  /** The definitions the printer writes, one for each number. */
  function PrintedNodes(w: Walked, order: seq<MdId>): (r: MetadataSlots.Nodes)
    requires forall k :: 0 <= k < |order| ==> order[k] < |w.nodes| && w.nodes[order[k]].Some?
    ensures |r| == |order|
  {
    seq(|order|, k requires 0 <= k < |order| => Some(WriteDefinition(w, order, order[k])))
  }

  ghost function ResolvesToPresent(w: Walked): MdId -> bool {
    (id: MdId) => w.Present(Resolve(w.canonical, id))
  }

  ghost function ResolvesToNumbered(w: Walked): MdId -> bool {
    (id: MdId) => w.Numbered(Resolve(w.canonical, id))
  }

  ghost predicate RootIsDefined(w: Walked, root: MdRef) {
    match root
    case Id(id) => w.Numbered(Resolve(w.canonical, id))
    case Here(node) => RefsAll(node, ResolvesToPresent(w))
  }

  /** Every reference names a defined node, and nodes that print in place point at nothing. */
  ghost predicate Defined(w: Walked, roots: seq<MdRef>) {
    && (forall id: MdId :: w.Numbered(id) ==> RefsAll(w.nodes[id].value, ResolvesToPresent(w)))
    && (forall id: MdId :: w.InPlace(id) ==> IsFlat(w.nodes[id].value))
    && (forall i :: 0 <= i < |roots| ==> RootIsDefined(w, roots[i]))
  }

  lemma {:induction false} RefsAllListed(orders: StoredOrders, n: Metadata, p: MdId -> bool)
    requires RefsAll(n, p)
    ensures forall id :: id in VisitList(orders, n) ==> p(id)
    decreases n, 1
  {
    var items := InNumberingOrder(orders, n.head, n.items);
    InlinesAreHeld(orders, n);
    forall x | x in items ensures x in n.items {
      OrderKeepsItems(orders, n.head, n.items, x);
    }
    ReferencesListed(items, n.items, p);
    EachListed(orders, n, InlineNodes(items), p);
  }

  lemma {:induction false} ReferencesListed(items: seq<Item>, all: seq<Item>, p: MdId -> bool)
    requires forall x :: x in items ==> x in all
    requires forall i :: 0 <= i < |all| ==> RefsAllItem(all[i], p)
    ensures forall id :: id in References(items) ==> p(id)
  {
    if items != [] {
      assert items[0] in all;
      assert forall x :: x in items[1..] ==> x in items;
      ReferencesListed(items[1..], all, p);
    }
  }

  lemma {:induction false} EachListed(orders: StoredOrders, n: Metadata, ns: seq<Metadata>, p: MdId -> bool)
    requires RefsAll(n, p) && forall x: Metadata :: x in ns ==> Inline(x) in n.items
    ensures forall id :: id in VisitEach(orders, n, ns) ==> p(id)
    decreases n, 0, |ns|
  {
    if ns != [] {
      assert Inline(ns[0]) in n.items;
      var i :| 0 <= i < |n.items| && n.items[i] == Inline(ns[0]);
      assert RefsAllItem(n.items[i], p);
      RefsAllListed(orders, ns[0], p);
      EachListed(orders, n, ns[1..], p);
    }
  }

  /** And back: what holds of all a node points at holds of each of its references. */
  lemma {:induction false} ListedRefsAll(orders: StoredOrders, n: Metadata, p: MdId -> bool)
    requires forall id :: id in VisitList(orders, n) ==> p(id)
    ensures RefsAll(n, p)
    decreases n
  {
    var items := InNumberingOrder(orders, n.head, n.items);
    InlinesAreHeld(orders, n);
    forall i | 0 <= i < |n.items| ensures RefsAllItem(n.items[i], p) {
      var x := n.items[i];
      OrderKeepsItems(orders, n.head, n.items, x);
      if x.Ref? {
        RefIsListed(items, x.id);
      } else if x.Inline? {
        InlineIsListed(items, x.node);
        EachIsListed(orders, n, InlineNodes(items), x.node);
        ListedRefsAll(orders, x.node, p);
      }
    }
  }

  lemma {:induction false} RefIsListed(items: seq<Item>, id: MdId)
    requires Ref(id) in items
    ensures id in References(items)
  {
    if items[0] != Ref(id) {
      RefIsListed(items[1..], id);
    }
  }

  lemma {:induction false} InlineIsListed(items: seq<Item>, n: Metadata)
    requires Inline(n) in items
    ensures n in InlineNodes(items)
  {
    if items[0] != Inline(n) {
      InlineIsListed(items[1..], n);
    }
  }

  lemma {:induction false} EachIsListed(orders: StoredOrders, within: Metadata, ns: seq<Metadata>, n: Metadata)
    requires n in ns && forall x: Metadata :: x in ns ==> Inline(x) in within.items
    ensures forall id :: id in VisitList(orders, n) ==> id in VisitEach(orders, within, ns)
  {
    if ns[0] != n {
      EachIsListed(orders, within, ns[1..], n);
    }
  }

  function ResolveStep(c: Canonical): MdId -> MdId {
    id => Resolve(c, id)
  }

  /** The ids whose nodes are written on lines of their own. */
  function OnLines(w: Walked, ids: seq<MdId>): seq<MdId> {
    if ids == [] then []
    else
      var rest := OnLines(w, ids[1..]);
      if w.InPlace(Resolve(w.canonical, ids[0])) then rest else [ids[0]] + rest
  }

  lemma {:induction false} OnLinesIn(w: Walked, ids: seq<MdId>)
    ensures forall t :: t in OnLines(w, ids) <==> t in ids && !w.InPlace(Resolve(w.canonical, t))
  {
    if ids != [] {
      OnLinesIn(w, ids[1..]);
    }
  }

  function Mapped(ids: seq<MdId>, f: MdId -> MdId): (r: seq<MdId>)
    ensures |r| == |ids|
  {
    seq(|ids|, i requires 0 <= i < |ids| => f(ids[i]))
  }

  /** A list expands to what it names on lines, resolved: nodes in place point at nothing. */
  lemma {:induction false} ExpandDefined(w: Walked, ids: seq<MdId>)
    requires w.InPlaceEnds() && forall id: MdId :: w.InPlace(id) ==> IsFlat(w.nodes[id].value)
    ensures w.ExpandAll(ids) == Mapped(OnLines(w, ids), ResolveStep(w.canonical))
  {
    if ids != [] {
      var r := Resolve(w.canonical, ids[0]);
      ExpandDefined(w, ids[1..]);
      assert w.EndsAt(r);
      if w.InPlace(r) {
        FlatPointsNowhere(w.orders, w.nodes[r].value);
        assert w.Expand(ids[0]) == [];
      } else {
        assert w.Expand(ids[0]) == [r];
      }
    }
  }

  /** The numbers written for a list are those of what it names on lines. */
  lemma {:induction false} NumbersAreOnLines(w: Walked, order: seq<MdId>, ids: seq<MdId>)
    ensures NumbersOf(ids, NameIn(w, order)) == Mapped(OnLines(w, ids), PrintedNumber(w.canonical, order))
  {
    if ids != [] {
      NumbersAreOnLines(w, order, ids[1..]);
    }
  }

  ghost predicate AllOnLines(w: Walked, ids: seq<MdId>) {
    forall t :: t in OnLines(w, ids) ==> w.Numbered(Resolve(w.canonical, t))
  }

  lemma PresentIsOnLines(w: Walked, ids: seq<MdId>)
    requires forall t :: t in ids ==> w.Present(Resolve(w.canonical, t))
    ensures AllOnLines(w, ids)
  {
    OnLinesIn(w, ids);
  }

  lemma {:induction false} RootsListed(w: Walked, roots: seq<MdRef>)
    requires forall i :: 0 <= i < |roots| ==> RootIsDefined(w, roots[i])
    ensures forall id :: id in w.RootList(roots) ==> w.Present(Resolve(w.canonical, id))
  {
    if roots != [] {
      RootsListed(w, roots[1..]);
      assert RootIsDefined(w, roots[0]);
      if roots[0].Here? {
        RefsAllListed(w.orders, roots[0].node, ResolvesToPresent(w));
      }
    }
  }

  lemma PlacedIsFlat(w: Walked, order: seq<MdId>)
    requires forall id: MdId :: w.InPlace(id) ==> IsFlat(w.nodes[id].value)
    ensures PlacesFlat(NameIn(w, order))
  {
  }

  lemma NamedOfPrinted(w: Walked, v: Walked, root: MdRef, order: seq<MdId>)
    requires v.orders == w.orders && RootIsDefined(w, root)
    requires forall id: MdId :: w.InPlace(id) ==> IsFlat(w.nodes[id].value)
    ensures v.Named(PrintRef(root, PenOf(w, order))) == NumbersOf(w.Named(root), NameIn(w, order))
  {
    if root.Here? {
      PlacedIsFlat(w, order);
      WrittenPointsAt(w.orders, root.node, NameIn(w, order));
    }
  }

  lemma {:induction false} RootListOfPrinted(w: Walked, v: Walked, roots: seq<MdRef>, order: seq<MdId>)
    requires v.orders == w.orders && forall i :: 0 <= i < |roots| ==> RootIsDefined(w, roots[i])
    requires forall id: MdId :: w.InPlace(id) ==> IsFlat(w.nodes[id].value)
    ensures v.RootList(PrintedRoots(roots, PenOf(w, order))) == NumbersOf(w.RootList(roots), NameIn(w, order))
  {
    if roots != [] {
      RootListOfPrinted(w, v, roots[1..], order);
      assert PrintedRoots(roots, PenOf(w, order))[1..] == PrintedRoots(roots[1..], PenOf(w, order));
      NumbersAppend(w.Named(roots[0]), w.RootList(roots[1..]), NameIn(w, order));
      NamedOfPrinted(w, v, roots[0], order);
    }
  }

  // ------------------------------------------------------- what is written is numbered

  /** What the printer writes: the nodes it numbers, from the map its uniquing exits with. */
  ghost predicate Prints(w: Walked, roots: seq<MdRef>) {
    w.InPlaceEnds() && Defined(w, roots) && Exits(StartOf(w.nodes), w.canonical)
  }

  ghost function Written(w: Walked, roots: seq<MdRef>): Walked
    requires Prints(w, roots)
  {
    OrderIsHeld(w, roots);
    Walked(PrintedNodes(w, OrderOf(w, roots)), map[], w.orders, id => 0)
  }

  lemma OrderIsHeld(w: Walked, roots: seq<MdRef>)
    requires w.InPlaceEnds()
    ensures forall k :: 0 <= k < |OrderOf(w, roots)| ==>
              OrderOf(w, roots)[k] in w.Edges() && w.Numbered(OrderOf(w, roots)[k])
  {
    var order := OrderOf(w, roots);
    DfsRecords(w.Edges(), [], w.ExpandAll(w.RootList(roots)));
    forall k | 0 <= k < |order| ensures order[k] in w.Edges() {
      assert order[k] in Elements(order);
    }
  }

  ghost predicate ListedIds(c: Canonical, order: seq<MdId>, ids: seq<MdId>) {
    forall t :: t in ids ==> Resolve(c, t) in order
  }

  /** What a numbered node names on lines is numbered. */
  lemma NumberedPointsAtNumbered(w: Walked, roots: seq<MdRef>, m: MdId)
    requires Prints(w, roots) && m in OrderOf(w, roots) && m in w.Edges()
    ensures AllOnLines(w, VisitList(w.orders, w.nodes[m].value))
    ensures ListedIds(w.canonical, OrderOf(w, roots), OnLines(w, VisitList(w.orders, w.nodes[m].value)))
  {
    var ids := VisitList(w.orders, w.nodes[m].value);
    RefsAllListed(w.orders, w.nodes[m].value, ResolvesToPresent(w));
    assert forall t :: t in ids ==> ResolvesToPresent(w)(t);
    PresentIsOnLines(w, ids);
    OnLinesIn(w, ids);
    forall t | t in OnLines(w, ids) ensures Resolve(w.canonical, t) in OrderOf(w, roots) {
      NumberingIsClosed(w, roots, m, t);
    }
  }

  lemma RootsAreNumbered(w: Walked, roots: seq<MdRef>)
    requires Prints(w, roots)
    ensures AllOnLines(w, w.RootList(roots))
    ensures ListedIds(w.canonical, OrderOf(w, roots), OnLines(w, w.RootList(roots)))
  {
    var listed := w.RootList(roots);
    RootsListed(w, roots);
    PresentIsOnLines(w, listed);
    OnLinesIn(w, listed);
    DfsRecords(w.Edges(), [], w.ExpandAll(listed));
    forall t | t in OnLines(w, listed) ensures Resolve(w.canonical, t) in OrderOf(w, roots) {
      w.ExpandHolds(listed, t);
    }
  }

  // --------------------------------------------------------- when nothing is merged

  /** Nodes that are merged with no other and written as they stand: none loses an identifier
  or a membership, what takes an identifier is `distinct` already, and no two of the others
  are the same. */
  ghost predicate StandApart(nodes: MetadataSlots.Nodes) {
    var g := StartOf(nodes);
    && g.base == map[]
    && (forall id: MdId :: id in ClaimedIn(nodes) && g.Present(id) ==> nodes[id].value.IsDistinct())
    && AllDiffer(g)
  }

  /** No two of the nodes a scan looks at are the same. */
  ghost predicate AllDiffer(g: Setting) {
    forall x: MdId, y: MdId :: g.Participates(x) && g.Participates(y) && g.nodes[x] == g.nodes[y] ==> x == y
  }

  /** Under the empty map a node is its own key. */
  lemma {:induction false} SubstituteNothing(n: Metadata)
    ensures Substitute(n, map[]) == n
  {
    var f := Resolver(map[]);
    forall i | 0 <= i < |n.items| ensures MapItem(n.items[i], f) == n.items[i] {
      if n.items[i].Ref? {
        assert f(n.items[i].id) == n.items[i].id;
      } else if n.items[i].Inline? {
        SubstituteNothing(n.items[i].node);
      }
    }
    assert Substitute(n, map[]).items == n.items;
  }

  /** A scan over nodes that all read differently merges nothing. */
  lemma {:induction false} DifferentNodesStay(g: Setting, n: nat)
    requires forall x: MdId, y: MdId | g.Participates(x) && g.Participates(y) ::
               KeyUnder(g, map[], x) == KeyUnder(g, map[], y) ==> x == y
    ensures ScanUpTo(g, map[], n).canonical == map[] && !ScanUpTo(g, map[], n).changed
    ensures forall key :: key in ScanUpTo(g, map[], n).representatives ==>
              var r := ScanUpTo(g, map[], n).representatives[key];
              r < n && g.Participates(r) && KeyUnder(g, map[], r) == key
  {
    if n > 0 {
      DifferentNodesStay(g, n - 1);
    }
  }

  /** Where a scan merges nothing, no two nodes that may merge are the same. */
  lemma UnmergedDiffer(g: Setting, k: MdId, j: MdId)
    requires !FullScan(g, map[]).changed && g.base == map[] && g.Participates(k) && g.Participates(j) && k != j
    ensures KeyUnder(g, map[], k) != KeyUnder(g, map[], j)
  {
    GroupHeadFacts(g, map[], k);
    GroupHeadFacts(g, map[], j);
  }

  /** Nodes merge nothing exactly when none loses a name and no two are the same. */
  lemma MergesNothingExactly(nodes: MetadataSlots.Nodes)
    ensures var g := StartOf(nodes);
            Exits(g, map[]) <==> g.base == map[] && AllDiffer(g)
  {
    var g := StartOf(nodes);
    forall x: MdId | g.Participates(x) ensures KeyUnder(g, map[], x) == nodes[x].value {
      SubstituteNothing(nodes[x].value);
    }
    if Exits(g, map[]) {
      forall x: MdId, y: MdId | g.Participates(x) && g.Participates(y) && nodes[x] == nodes[y] ensures x == y {
        if x != y {
          UnmergedDiffer(g, x, y);
        }
      }
    } else if g.base == map[] && AllDiffer(g) {
      DifferentNodesStay(g, |g.nodes|);
    }
  }

  // ----------------------------------------------------- the written module numbered

  /** `v` holds the nodes of `order`, in that order, as they are written. */
  ghost predicate ReadsBack(w: Walked, v: Walked, order: seq<MdId>) {
    && Distinct(order) && |v.nodes| == |order| && v.canonical == map[] && v.orders == w.orders
    && v.InPlaceEnds()
    && (forall id: MdId :: w.InPlace(id) ==> IsFlat(w.nodes[id].value))
    && forall k: nat :: k < |order| ==>
         w.Numbered(order[k]) && v.Numbered(k) && v.nodes[k].value == WriteDefinition(w, order, order[k])
  }

  lemma WrittenReadsBack(w: Walked, roots: seq<MdRef>)
    requires Prints(w, roots)
    ensures ReadsBack(w, Written(w, roots), OrderOf(w, roots))
  {
    OrderIsHeld(w, roots);
    NumberingIsExact(w, roots);
    var order, v := OrderOf(w, roots), Written(w, roots);
    forall k: nat | k < |order|
      ensures w.Numbered(order[k]) && v.Numbered(k) && v.nodes[k].value == WriteDefinition(w, order, order[k])
    {
      WrittenNode(w, roots, k);
    }
    forall id: MdId ensures v.EndsAt(id) {
      if id < |order| {
        WrittenNode(w, roots, id);
      }
    }
  }

  lemma WrittenNode(w: Walked, roots: seq<MdRef>, k: nat)
    requires Prints(w, roots) && k < |OrderOf(w, roots)|
    ensures var order, v := OrderOf(w, roots), Written(w, roots);
            && w.Numbered(order[k]) && v.Numbered(k) && !v.InPlace(k)
            && v.nodes[k] == Some(WriteDefinition(w, order, order[k]))
  {
    var order := OrderOf(w, roots);
    OrderIsHeld(w, roots);
    var x := order[k];
    WritingKeepsPlace(x in ClaimedIn(w.nodes), w.nodes[x].value, NameIn(w, order));
  }

  /** A list whose targets are all numbered expands, printed, to their numbers. */
  lemma NumbersExpand(w: Walked, v: Walked, order: seq<MdId>, ids: seq<MdId>)
    requires ReadsBack(w, v, order) && ListedIds(w.canonical, order, ids)
    ensures v.ExpandAll(Mapped(ids, PrintedNumber(w.canonical, order)))
            == Renamed(Mapped(ids, ResolveStep(w.canonical)), Position(order))
  {
    var written := Mapped(ids, PrintedNumber(w.canonical, order));
    forall k | k in written ensures v.Numbered(Resolve(v.canonical, k)) {
      var i :| 0 <= i < |ids| && written[i] == k;
      assert ids[i] in ids;
    }
    ExpandNumbers(v, written);
    assert Mapped(written, ResolveStep(map[])) == Renamed(Mapped(ids, ResolveStep(w.canonical)), Position(order));
  }

  lemma {:induction false} ExpandNumbers(v: Walked, ids: seq<MdId>)
    requires v.InPlaceEnds() && forall id :: id in ids ==> v.Numbered(Resolve(v.canonical, id))
    ensures v.ExpandAll(ids) == Mapped(ids, ResolveStep(v.canonical))
  {
    if ids != [] {
      ExpandNumbers(v, ids[1..]);
      assert v.Expand(ids[0]) == [Resolve(v.canonical, ids[0])];
    }
  }

  /** What a written definition points at: what the node names on lines, by number. */
  lemma DefinitionPointsAt(w: Walked, order: seq<MdId>, x: MdId)
    requires w.Present(x) && forall id: MdId :: w.InPlace(id) ==> IsFlat(w.nodes[id].value)
    ensures VisitList(w.orders, WriteDefinition(w, order, x))
         == Mapped(OnLines(w, VisitList(w.orders, w.nodes[x].value)), PrintedNumber(w.canonical, order))
  {
    var n := w.nodes[x].value;
    PlacedIsFlat(w, order);
    WrittenPointsAt(w.orders, n, NameIn(w, order));
    MarkPointsAtTheSame(w.orders, x in ClaimedIn(w.nodes), WriteNode(n, NameIn(w, order)));
    NumbersAreOnLines(w, order, VisitList(w.orders, n));
  }

  /** One numbered node: what its printed form points at is what it points at, numbered. */
  lemma WrittenEdges(w: Walked, v: Walked, order: seq<MdId>, m: MdId)
    requires w.InPlaceEnds() && ReadsBack(w, v, order) && m in order && m in w.Edges()
    requires ListedIds(w.canonical, order, OnLines(w, VisitList(w.orders, w.nodes[m].value)))
    ensures PositionIn(order, m) in v.Edges()
    ensures v.Edges()[PositionIn(order, m)] == Renamed(w.Edges()[m], Position(order))
    ensures forall t :: t in w.Edges()[m] ==> t in order
  {
    var k, ids := PositionIn(order, m), VisitList(w.orders, w.nodes[m].value);
    DefinitionPointsAt(w, order, m);
    ExpandDefined(w, ids);
    NumbersExpand(w, v, order, OnLines(w, ids));
    assert v.nodes[k].value == WriteDefinition(w, order, m);
    TargetsAreListed(w, order, OnLines(w, ids), w.Edges()[m]);
  }

  lemma TargetsAreListed(w: Walked, order: seq<MdId>, ids: seq<MdId>, targets: seq<MdId>)
    requires ListedIds(w.canonical, order, ids) && targets == Mapped(ids, ResolveStep(w.canonical))
    ensures forall t :: t in targets ==> t in order
  {
    forall t | t in targets ensures t in order {
      var i :| 0 <= i < |targets| && targets[i] == t;
      assert ids[i] in ids;
    }
  }

  /** The printed graph is the numbered part of the graph, its nodes renamed to their
  numbers. */
  lemma WrittenIsRenamed(w: Walked, v: Walked, roots: seq<MdRef>, order: seq<MdId>)
    requires Prints(w, roots) && order == OrderOf(w, roots) && ReadsBack(w, v, order)
    ensures IsRenaming(Within(w.Edges(), Elements(order)), v.Edges(), Position(order))
  {
    var g, h, name := Within(w.Edges(), Elements(order)), v.Edges(), Position(order);
    OrderIsHeld(w, roots);
    forall m | m in g
      ensures name(m) in h && h[name(m)] == Renamed(g[m], name)
      ensures forall t :: t in g[m] ==> t in g
    {
      NumberedPointsAtNumbered(w, roots, m);
      WrittenEdges(w, v, order, m);
    }
  }

  /** Walking the printed nodes numbers each as it stands. */
  lemma WrittenNumbersItself(w: Walked, v: Walked, roots: seq<MdRef>, order: seq<MdId>)
    requires Prints(w, roots) && order == OrderOf(w, roots) && ReadsBack(w, v, order)
    ensures OrderOf(v, PrintedRoots(roots, PenOf(w, order))) == Renamed(order, Position(order))
  {
    var listed := w.RootList(roots);
    var all, name := w.ExpandAll(listed), Position(order);
    WrittenRoots(w, v, roots, order);
    WrittenIsRenamed(w, v, roots, order);
    DfsWithin(w.Edges(), Elements(order), [], all);
    DfsRenamed(Within(w.Edges(), Elements(order)), v.Edges(), name, [], all);
    var none: seq<MdId> := [];
    assert Renamed(none, name) == [];
  }

  lemma WrittenRoots(w: Walked, v: Walked, roots: seq<MdRef>, order: seq<MdId>)
    requires Prints(w, roots) && order == OrderOf(w, roots) && ReadsBack(w, v, order)
    ensures v.ExpandAll(v.RootList(PrintedRoots(roots, PenOf(w, order))))
            == Renamed(w.ExpandAll(w.RootList(roots)), Position(order))
    ensures forall t :: t in w.ExpandAll(w.RootList(roots)) ==> t in Within(w.Edges(), Elements(order))
  {
    var ids := w.RootList(roots);
    RootsAreNumbered(w, roots);
    RootListOfPrinted(w, v, roots, order);
    NumbersAreOnLines(w, order, ids);
    NumbersExpand(w, v, order, OnLines(w, ids));
    ExpandDefined(w, ids);
    OrderIsHeld(w, roots);
    TargetsAreListed(w, order, OnLines(w, ids), w.ExpandAll(ids));
  }

  // ---------------------------------------------------------- printing is canonical

  /** The printed nodes, read back, merge nothing, gain no mark and number themselves as they
  stand. */
  ghost predicate IsCanonical(v: Walked, again: seq<MdRef>) {
    && Exits(StartOf(v.nodes), v.canonical) && v.canonical == map[] && v.InPlaceEnds()
    && (forall id: MdId :: id in ClaimedIn(v.nodes) && v.Present(id) ==> v.nodes[id].value.IsDistinct())
    && |OrderOf(v, again)| == |v.nodes|
    && forall k: nat :: k < |v.nodes| ==> OrderOf(v, again)[k] == k
  }

  /** Printing metadata is canonical exactly when the printed nodes stand apart. */
  lemma PrintingIsCanonicalExactly(w: Walked, roots: seq<MdRef>)
    requires Prints(w, roots)
    ensures var order, v := OrderOf(w, roots), Written(w, roots);
            && |v.nodes| == |order|
            && (IsCanonical(v, PrintedRoots(roots, PenOf(w, order))) <==> StandApart(v.nodes))
  {
    var order, v := OrderOf(w, roots), Written(w, roots);
    MergesNothingExactly(v.nodes);
    WrittenReadsBack(w, roots);
    WrittenNumbersItself(w, v, roots, order);
    forall k: nat | k < |order| ensures Renamed(order, Position(order))[k] == k {
      PositionOfElement(order, k);
    }
  }

  /** The same of a module: what it names is come to in the order it is written in. */
  lemma ModulePrintsCanonically(w: Walked, m: Module)
    requires Prints(w, RootsOf(m))
    ensures var order, v := OrderOf(w, RootsOf(m)), Written(w, RootsOf(m));
            IsCanonical(v, RootsOf(PrintModule(m, PenOf(w, order)))) <==> StandApart(v.nodes)
  {
    PrintingIsCanonicalExactly(w, RootsOf(m));
    WrittenModuleRoots(m, PenOf(w, OrderOf(w, RootsOf(m))));
  }

  // ------------------------------------------------------------- printed once more

  ghost function Below(n: nat): MdId -> bool {
    (id: MdId) => id < n
  }

  /** A printed definition refers to numbers there are, and leaves out nothing more. */
  lemma DefinitionIsClosed(w: Walked, roots: seq<MdRef>, k: nat)
    requires Prints(w, roots) && k < |OrderOf(w, roots)|
    ensures var n := Written(w, roots).nodes[k].value; RefsAll(n, Below(|OrderOf(w, roots)|)) && ShowsAll(n)
  {
    var order, below := OrderOf(w, roots), Below(|OrderOf(w, roots)|);
    var x := order[k];
    OrderIsHeld(w, roots);
    var ids := OnLines(w, VisitList(w.orders, w.nodes[x].value));
    DefinitionPointsAt(w, order, x);
    NumberedPointsAtNumbered(w, roots, x);
    NumbersAreBelow(w, order, ids);
    ListedRefsAll(w.orders, WriteDefinition(w, order, x), below);
    PlacedShowsAll(w, order);
    WrittenShowsAll(w.nodes[x].value, NameIn(w, order));
    MarkedShowsAll(x in ClaimedIn(w.nodes), WriteNode(w.nodes[x].value, NameIn(w, order)));
  }

  lemma NumbersAreBelow(w: Walked, order: seq<MdId>, ids: seq<MdId>)
    requires ListedIds(w.canonical, order, ids)
    ensures forall t :: t in Mapped(ids, PrintedNumber(w.canonical, order)) ==> Below(|order|)(t)
  {
    var numbers := Mapped(ids, PrintedNumber(w.canonical, order));
    forall t | t in numbers ensures t < |order| {
      var i :| 0 <= i < |numbers| && numbers[i] == t;
      assert ids[i] in ids;
    }
  }

  lemma PlacedShowsAll(w: Walked, order: seq<MdId>)
    requires forall id: MdId :: w.InPlace(id) ==> IsFlat(w.nodes[id].value)
    ensures PlacesShown(NameIn(w, order))
  {
  }

  lemma {:induction false} SameNames(n: Metadata, f: MdId -> MdId)
    requires RefsAll(n, (id: MdId) => f(id) == id)
    ensures MapRefs(n, f) == n
  {
    forall i | 0 <= i < |n.items| ensures MapItem(n.items[i], f) == n.items[i] {
      assert RefsAllItem(n.items[i], (id: MdId) => f(id) == id);
      if n.items[i].Inline? {
        SameNames(n.items[i].node, f);
      }
    }
    assert MapRefs(n, f).items == n.items;
  }

  /** With each node numbered as it stands, writing changes nothing more. */
  lemma WrittenAsItStands(v: Walked, order: seq<MdId>, n: Metadata)
    requires NumbersItself(v, order) && RefsAll(n, Below(|order|)) && ShowsAll(n)
    ensures WriteNode(n, NameIn(v, order)) == n
  {
    var name, number := NameIn(v, order), PrintedNumber(v.canonical, order);
    forall id: MdId | id < |order| ensures NamesByNumber(name, number, id) && number(id) == id {
      PositionOfElement(order, id);
      assert v.Numbered(id);
    }
    RefsAllMono(n, Below(|order|), (id: MdId) => NamesByNumber(name, number, id));
    RefsAllMono(n, Below(|order|), (id: MdId) => number(id) == id);
    WritingRenumbers(n, name, number);
    SameNames(n, number);
  }

  ghost predicate NumbersItself(v: Walked, order: seq<MdId>) {
    v.canonical == map[] && |order| == |v.nodes| && forall k: nat :: k < |order| ==> order[k] == k && v.Numbered(k)
  }

  lemma DefinitionAgain(v: Walked, order: seq<MdId>, k: nat)
    requires NumbersItself(v, order) && k < |order| && v.Numbered(k)
    requires RefsAll(v.nodes[k].value, Below(|order|)) && ShowsAll(v.nodes[k].value)
    requires k in ClaimedIn(v.nodes) ==> v.nodes[k].value.IsDistinct()
    ensures WriteDefinition(v, order, k) == v.nodes[k].value
  {
    WrittenAsItStands(v, order, v.nodes[k].value);
  }

  lemma RootAgain(v: Walked, order: seq<MdId>, root: MdRef)
    requires NumbersItself(v, order)
    requires match root case Id(id) => id < |order| case Here(node) => RefsAll(node, Below(|order|)) && ShowsAll(node)
    ensures PrintRef(root, PenOf(v, order)) == root
  {
    match root {
      case Id(id) => PositionOfElement(order, id);
      case Here(node) => WrittenAsItStands(v, order, node);
    }
  }

  lemma WrittenNumbers(w: Walked, roots: seq<MdRef>)
    requires Prints(w, roots) && StandApart(Written(w, roots).nodes)
    ensures var v, again := Written(w, roots), PrintedRoots(roots, PenOf(w, OrderOf(w, roots)));
            Prints(v, again) && NumbersItself(v, OrderOf(v, again)) && |v.nodes| == |OrderOf(w, roots)|
  {
    PrintingIsCanonicalExactly(w, roots);
    WrittenReadsBack(w, roots);
    WrittenIsDefined(w, roots);
  }

  /** Printed, read back and printed again, metadata that stands apart is the same text. */
  lemma PrintingAgainIsTheSame(w: Walked, roots: seq<MdRef>)
    requires Prints(w, roots) && StandApart(Written(w, roots).nodes)
    ensures var v, again := Written(w, roots), PrintedRoots(roots, PenOf(w, OrderOf(w, roots)));
            && Prints(v, again)
            && Written(v, again).nodes == v.nodes
            && PrintedRoots(again, PenOf(v, OrderOf(v, again))) == again
  {
    var v, again := Written(w, roots), PrintedRoots(roots, PenOf(w, OrderOf(w, roots)));
    WrittenNumbers(w, roots);
    var same := OrderOf(v, again);
    forall k: nat | k < |same| ensures Written(v, again).nodes[k] == v.nodes[k] {
      DefinitionIsClosed(w, roots, k);
      WrittenNode(v, again, k);
      DefinitionAgain(v, same, k);
    }
    forall i | 0 <= i < |again| ensures PrintRef(again[i], PenOf(v, same)) == again[i] {
      RootIsClosed(w, roots, i);
      RootAgain(v, same, again[i]);
    }
  }

  lemma RootIsClosed(w: Walked, roots: seq<MdRef>, i: nat)
    requires Prints(w, roots) && i < |roots|
    ensures var order := OrderOf(w, roots);
            match PrintRef(roots[i], PenOf(w, order))
            case Id(id) => id < |order|
            case Here(node) => RefsAll(node, Below(|order|)) && ShowsAll(node)
  {
    var order := OrderOf(w, roots);
    var ids := w.Named(roots[i]);
    RootsAreNumbered(w, roots);
    RootIsListed(w, roots, i);
    OnLinesIn(w, ids);
    OnLinesIn(w, w.RootList(roots));
    assert RootIsDefined(w, roots[i]);
    match roots[i] {
      case Id(id) =>
        assert id in ids;
      case Here(node) =>
        PlacedIsFlat(w, order);
        WrittenPointsAt(w.orders, node, NameIn(w, order));
        NumbersAreOnLines(w, order, ids);
        NumbersAreBelow(w, order, OnLines(w, ids));
        ListedRefsAll(w.orders, WriteNode(node, NameIn(w, order)), Below(|order|));
        PlacedShowsAll(w, order);
        WrittenShowsAll(node, NameIn(w, order));
    }
  }

  lemma {:induction false} RootIsListed(w: Walked, roots: seq<MdRef>, i: nat)
    requires i < |roots|
    ensures forall t :: t in w.Named(roots[i]) ==> t in w.RootList(roots)
  {
    if i > 0 {
      RootIsListed(w, roots[1..], i - 1);
    }
  }

  lemma WrittenIsDefined(w: Walked, roots: seq<MdRef>)
    requires Prints(w, roots) && ReadsBack(w, Written(w, roots), OrderOf(w, roots))
    ensures Defined(Written(w, roots), PrintedRoots(roots, PenOf(w, OrderOf(w, roots))))
  {
    var order, v := OrderOf(w, roots), Written(w, roots);
    var again := PrintedRoots(roots, PenOf(w, order));
    forall id: MdId | id < |order| ensures ResolvesToPresent(v)(id) && v.Numbered(id) {
      WrittenNode(w, roots, id);
    }
    forall id: MdId | v.Numbered(id) ensures RefsAll(v.nodes[id].value, ResolvesToPresent(v)) {
      DefinitionIsClosed(w, roots, id);
      RefsAllMono(v.nodes[id].value, Below(|order|), ResolvesToPresent(v));
    }
    forall i | 0 <= i < |again| ensures RootIsDefined(v, again[i]) {
      RootIsClosed(w, roots, i);
      if again[i].Here? {
        RefsAllMono(again[i].node, Below(|order|), ResolvesToPresent(v));
      }
    }
  }
}
