/** The printer's metadata slots: the walk that numbers nodes, and what it numbers. */
module MetadataSlots {
  import opened Wrappers
  import opened MetadataNodes
  import opened DepthFirst
  import opened Uniquing
  import opened Numbering
  import opened MetadataRoots

  type Nodes = seq<Option<Metadata>>

  /** What the walk reads: the nodes, what each collapses onto, the stored orders, and
  how deep nodes that print in place go through one another. */
  datatype Walked = Walked(nodes: Nodes, canonical: Canonical, orders: StoredOrders, depth: MdId -> nat) {
    predicate Present(id: MdId) {
      id < |nodes| && nodes[id].Some?
    }

    predicate InPlace(id: MdId) {
      Present(id) && nodes[id].value.PrintsInPlace()
    }

    predicate Numbered(id: MdId) {
      Present(id) && !nodes[id].value.PrintsInPlace()
    }

    function Level(id: MdId): nat {
      if InPlace(Resolve(canonical, id)) then depth(Resolve(canonical, id)) + 1 else 0
    }

    function MaxLevel(ids: seq<MdId>): nat {
      if ids == [] then 0 else Max(Level(ids[0]), MaxLevel(ids[1..]))
    }

    /** Nodes that print in place do not go round in a circle. */
    ghost predicate InPlaceEnds() {
      forall id: MdId {:trigger EndsAt(id)} :: EndsAt(id)
    }

    ghost predicate EndsAt(id: MdId) {
      InPlace(id) ==> MaxLevel(VisitList(orders, nodes[id].value)) <= depth(id)
    }

    /** The nodes a reference stands for once those that print in place are passed
    through. */
    function Expand(id: MdId): seq<MdId>
      requires InPlaceEnds()
      decreases Level(id), 0, 0
    {
      var canonicalId := Resolve(canonical, id);
      assert EndsAt(canonicalId);
      if InPlace(canonicalId) then ExpandAll(VisitList(orders, nodes[canonicalId].value))
      else [canonicalId]
    }

    function ExpandAll(ids: seq<MdId>): seq<MdId>
      requires InPlaceEnds()
      decreases MaxLevel(ids), 1, |ids|
    {
      if ids == [] then [] else Expand(ids[0]) + ExpandAll(ids[1..])
    }

    /** The graph the walk numbers: every node that has a number to get, and what it
    points at. */
    ghost function Edges(): Graph<MdId>
      requires InPlaceEnds()
    {
      map id: MdId | id < |nodes| && Numbered(id) :: ExpandAll(VisitList(orders, nodes[id].value))
    }

    lemma {:induction false} MaxLevelAppend(a: seq<MdId>, b: seq<MdId>)
      ensures MaxLevel(a + b) == Max(MaxLevel(a), MaxLevel(b))
    {
      if a == [] {
        assert a + b == b;
      } else {
        assert (a + b)[0] == a[0] && (a + b)[1..] == a[1..] + b;
        MaxLevelAppend(a[1..], b);
      }
    }

    lemma {:induction false} ExpandAppend(a: seq<MdId>, b: seq<MdId>)
      requires InPlaceEnds()
      ensures ExpandAll(a + b) == ExpandAll(a) + ExpandAll(b)
    {
      if a == [] {
        assert a + b == b;
      } else {
        assert (a + b)[0] == a[0] && (a + b)[1..] == a[1..] + b;
        ExpandAppend(a[1..], b);
      }
    }

    /** What visiting an id comes to: nothing where no node is or its node has been met, and
    what the node points at otherwise, which is less to do. */
    lemma VisitTakes(order: seq<MdId>, id: MdId)
      requires InPlaceEnds()
      ensures var c, g := Resolve(canonical, id), Edges();
              && (!Present(c) ==> Dfs(g, order, Expand(id)) == order)
              && (InPlace(c) ==>
                    && Expand(id) == ExpandAll(VisitList(orders, nodes[c].value))
                    && MaxLevel(VisitList(orders, nodes[c].value)) < Level(id))
              && (Numbered(c) && c in order ==> Dfs(g, order, Expand(id)) == order)
              && (Numbered(c) && c !in order ==>
                    && Dfs(g, order, Expand(id)) == Dfs(g, order + [c], ExpandAll(VisitList(orders, nodes[c].value)))
                    && g.Keys - Elements(order + [c]) < g.Keys - Elements(order))
    {
      var c, g := Resolve(canonical, id), Edges();
      assert EndsAt(c);
      if !InPlace(c) {
        DfsVisit(g, order, c);
        if Numbered(c) && c !in order {
          assert c in g.Keys - Elements(order);
        }
      }
    }

    lemma ExpandFirst(id: MdId, rest: seq<MdId>)
      requires InPlaceEnds()
      ensures ExpandAll([id] + rest) == Expand(id) + ExpandAll(rest)
    {
      assert ([id] + rest)[1..] == rest;
    }

    lemma {:induction false} LevelInList(ids: seq<MdId>, id: MdId)
      requires id in ids
      ensures Level(id) <= MaxLevel(ids)
    {
      if ids[0] != id {
        LevelInList(ids[1..], id);
      }
    }

    lemma {:induction false} LevelInEach(within: Metadata, ns: seq<Metadata>, i: nat)
      requires i < |ns| && forall x :: x in ns ==> Inline(x) in within.items
      ensures MaxLevel(VisitList(orders, ns[i])) <= MaxLevel(VisitEach(orders, within, ns))
    {
      var rest := ns[1..];
      MaxLevelAppend(VisitList(orders, ns[0]), VisitEach(orders, within, rest));
      if i > 0 {
        assert rest[i - 1] == ns[i];
        LevelInEach(within, rest, i - 1);
      }
    }

    lemma {:induction false} ExpandHolds(ids: seq<MdId>, id: MdId)
      requires InPlaceEnds() && id in ids && !InPlace(Resolve(canonical, id))
      ensures Resolve(canonical, id) in ExpandAll(ids)
    {
      if ids[0] != id {
        ExpandHolds(ids[1..], id);
      } else {
        assert Expand(id) == [Resolve(canonical, id)];
      }
    }

    function Named(root: MdRef): seq<MdId> {
      match root case Id(id) => [id] case Here(node) => VisitList(orders, node)
    }

    function RootList(roots: seq<MdRef>): seq<MdId> {
      if roots == [] then [] else Named(roots[0]) + RootList(roots[1..])
    }

    lemma {:induction false} RootListAppend(a: seq<MdRef>, b: seq<MdRef>)
      ensures RootList(a + b) == RootList(a) + RootList(b)
    {
      if a == [] {
        assert a + b == b;
      } else {
        assert (a + b)[0] == a[0] && (a + b)[1..] == a[1..] + b;
        RootListAppend(a[1..], b);
      }
    }

    /** The record after what `roots` name has been visited. */
    ghost function Visited(order: seq<MdId>, roots: seq<MdRef>): seq<MdId>
      requires InPlaceEnds()
    {
      Dfs(Edges(), order, ExpandAll(RootList(roots)))
    }

    lemma VisitedAppend(order: seq<MdId>, a: seq<MdRef>, b: seq<MdRef>)
      requires InPlaceEnds()
      ensures Visited(order, a + b) == Visited(Visited(order, a), b)
    {
      RootListAppend(a, b);
      ExpandAppend(RootList(a), RootList(b));
      DfsAppend(Edges(), order, ExpandAll(RootList(a)), ExpandAll(RootList(b)));
    }
  }

  /** The numbers given out, and the nodes in the order they were given. */
  class Slots {
    var canonical: Canonical
    var claimed: set<MdId>
    var numbers: map<MdId, nat>
    var order: seq<MdId>

    /** The numbers are exactly the positions in the order. */
    ghost predicate Valid()
      reads this
    {
      && Distinct(order)
      && (forall i :: 0 <= i < |order| ==> order[i] in numbers && numbers[order[i]] == i)
      && (forall id :: id in numbers ==> numbers[id] < |order| && order[numbers[id]] == id)
    }

    constructor (canonical: Canonical, claimed: set<MdId>)
      ensures Valid() && this.canonical == canonical && this.claimed == claimed && order == []
    {
      this.canonical, this.claimed := canonical, claimed;
      numbers, order := map[], [];
    }

    /** The number given to an id's root; an in-place node's root is never given one. */
    function Number(id: MdId): Option<nat>
      reads this
    {
      var r := Resolve(canonical, id);
      if r in numbers then Some(numbers[r]) else None
    }

    /** Numbers what a module names, in the printer's order. */
    method AssignNumbers(w: Walked, m: Module)
      requires Valid() && w.canonical == canonical && w.InPlaceEnds() && order == []
      modifies this`numbers, this`order
      ensures Valid()
      ensures order == w.Visited([], RootsOf(m))
    {
      ghost var a, b, c := AttachedToEach(m.globals), AttachedToEach(m.aliases), AttachedToEach(m.ifuncs);
      ghost var d, e := NamedRoots(m.named), BodyRoots(m.functions);
      w.VisitedAppend([], a + b + c + d, e);
      w.VisitedAppend([], a + b + c, d);
      w.VisitedAppend([], a + b, c);
      w.VisitedAppend([], a, b);
      VisitHolders(w, m.globals);
      VisitHolders(w, m.aliases);
      VisitHolders(w, m.ifuncs);
      VisitNamed(w, m.named);
      VisitBodies(w, m.functions);
    }

    method VisitHolders(w: Walked, holders: seq<seq<Attachment>>)
      requires Valid() && w.canonical == canonical && w.InPlaceEnds()
      modifies this`numbers, this`order
      ensures Valid() && order == w.Visited(old(order), AttachedToEach(holders))
    {
      ghost var before := order;
      for i := 0 to |holders|
        invariant Valid()
        invariant w.Visited(before, AttachedToEach(holders)) == w.Visited(order, AttachedToEach(holders[i..]))
      {
        assert holders[i..][0] == holders[i] && holders[i..][1..] == holders[i + 1..];
        w.VisitedAppend(order, Attached(holders[i]), AttachedToEach(holders[i + 1..]));
        VisitAttached(w, holders[i]);
      }
      assert holders[|holders|..] == [];
    }

    method VisitNamed(w: Walked, named: seq<seq<MdId>>)
      requires Valid() && w.canonical == canonical && w.InPlaceEnds()
      modifies this`numbers, this`order
      ensures Valid() && order == w.Visited(old(order), NamedRoots(named))
    {
      ghost var before := order;
      for i := 0 to |named|
        invariant Valid()
        invariant w.Visited(before, NamedRoots(named)) == w.Visited(order, NamedRoots(named[i..]))
      {
        assert named[i..][0] == named[i] && named[i..][1..] == named[i + 1..];
        w.VisitedAppend(order, Ids(named[i]), NamedRoots(named[i + 1..]));
        VisitIds(w, named[i]);
      }
      assert named[|named|..] == [];
    }

    method VisitBodies(w: Walked, functions: seq<Body>)
      requires Valid() && w.canonical == canonical && w.InPlaceEnds()
      modifies this`numbers, this`order
      ensures Valid() && order == w.Visited(old(order), BodyRoots(functions))
    {
      ghost var before := order;
      for i := 0 to |functions|
        invariant Valid()
        invariant w.Visited(before, BodyRoots(functions)) == w.Visited(order, BodyRoots(functions[i..]))
      {
        assert functions[i..][0] == functions[i] && functions[i..][1..] == functions[i + 1..];
        ghost var own, inside := Attached(functions[i].attachments), BlockRoots(functions[i].blocks);
        w.VisitedAppend(order, own + inside, BodyRoots(functions[i + 1..]));
        w.VisitedAppend(order, own, inside);
        VisitAttached(w, functions[i].attachments);
        VisitBlocks(w, functions[i].blocks);
      }
      assert functions[|functions|..] == [];
    }

    method VisitBlocks(w: Walked, blocks: seq<seq<Noted>>)
      requires Valid() && w.canonical == canonical && w.InPlaceEnds()
      modifies this`numbers, this`order
      ensures Valid() && order == w.Visited(old(order), BlockRoots(blocks))
    {
      ghost var before := order;
      for i := 0 to |blocks|
        invariant Valid()
        invariant w.Visited(before, BlockRoots(blocks)) == w.Visited(order, BlockRoots(blocks[i..]))
      {
        assert blocks[i..][0] == blocks[i] && blocks[i..][1..] == blocks[i + 1..];
        w.VisitedAppend(order, NotedRoots(blocks[i]), BlockRoots(blocks[i + 1..]));
        VisitNoted(w, blocks[i]);
      }
      assert blocks[|blocks|..] == [];
    }

    /** An instruction's metadata operands before what is attached to it. */
    method VisitNoted(w: Walked, noted: seq<Noted>)
      requires Valid() && w.canonical == canonical && w.InPlaceEnds()
      modifies this`numbers, this`order
      ensures Valid() && order == w.Visited(old(order), NotedRoots(noted))
    {
      ghost var before := order;
      for i := 0 to |noted|
        invariant Valid()
        invariant w.Visited(before, NotedRoots(noted)) == w.Visited(order, NotedRoots(noted[i..]))
      {
        assert noted[i..][0] == noted[i] && noted[i..][1..] == noted[i + 1..];
        ghost var operands, attached := Ids(noted[i].operands), Attached(noted[i].attachments);
        w.VisitedAppend(order, operands + attached, NotedRoots(noted[i + 1..]));
        w.VisitedAppend(order, operands, attached);
        VisitIds(w, noted[i].operands);
        VisitAttached(w, noted[i].attachments);
      }
      assert noted[|noted|..] == [];
    }

    method VisitIds(w: Walked, ids: seq<MdId>)
      requires Valid() && w.canonical == canonical && w.InPlaceEnds()
      modifies this`numbers, this`order
      ensures Valid() && order == w.Visited(old(order), Ids(ids))
    {
      ghost var before, roots := order, Ids(ids);
      for i := 0 to |ids|
        invariant Valid()
        invariant w.Visited(before, roots) == w.Visited(order, roots[i..])
      {
        assert roots[i..] == [roots[i]] + roots[i + 1..];
        w.VisitedAppend(order, [roots[i]], roots[i + 1..]);
        VisitRef(w, Id(ids[i]));
      }
      assert roots[|ids|..] == [];
    }

    method VisitAttached(w: Walked, attachments: seq<Attachment>)
      requires Valid() && w.canonical == canonical && w.InPlaceEnds()
      modifies this`numbers, this`order
      ensures Valid() && order == w.Visited(old(order), Attached(attachments))
    {
      var sorted := InPrintOrder(attachments);
      ghost var before, roots := order, Attached(attachments);
      for i := 0 to |sorted|
        invariant Valid()
        invariant w.Visited(before, roots) == w.Visited(order, roots[i..])
      {
        assert roots[i..] == [roots[i]] + roots[i + 1..];
        w.VisitedAppend(order, [roots[i]], roots[i + 1..]);
        VisitRef(w, sorted[i].node);
      }
      assert roots[|sorted|..] == [];
    }

    method VisitRef(w: Walked, root: MdRef)
      requires Valid() && w.canonical == canonical && w.InPlaceEnds()
      modifies this`numbers, this`order
      ensures Valid() && order == w.Visited(old(order), [root])
    {
      assert w.RootList([root]) == w.Named(root);
      match root {
        case Id(id) =>
          w.ExpandFirst(id, []);
          assert [id] + [] == [id] && w.Expand(id) + w.ExpandAll([]) == w.Expand(id);
          Visit(w, id);
        case Here(node) =>
          VisitOperands(w, node);
      }
    }

    method Visit(w: Walked, id: MdId)
      requires Valid() && w.canonical == canonical && w.InPlaceEnds()
      modifies this`numbers, this`order
      ensures Valid()
      ensures order == Dfs(w.Edges(), old(order), w.Expand(id))
      decreases w.Edges().Keys - Elements(order), w.Level(id), 0, 1
    {
      var canonicalId := Resolve(canonical, id);
      w.VisitTakes(order, id);
      if w.InPlace(canonicalId) {
        VisitOperands(w, w.nodes[canonicalId].value);
      } else if w.Present(canonicalId) && canonicalId !in numbers {
        VisitNew(w, canonicalId);
      } else {
        assert w.Numbered(canonicalId) ==> canonicalId in order;
      }
    }

    method VisitNew(w: Walked, id: MdId)
      requires Valid() && w.canonical == canonical && w.InPlaceEnds() && w.Numbered(id) && id !in numbers
      modifies this`numbers, this`order
      ensures Valid()
      ensures order == Dfs(w.Edges(), old(order) + [id], w.ExpandAll(VisitList(w.orders, w.nodes[id].value)))
      decreases w.Edges().Keys - Elements(order), 0, 0, 0
    {
      assert id in w.Edges().Keys - Elements(order);
      TakeNumber(id);
      VisitOperands(w, w.nodes[id].value);
    }

    method TakeNumber(id: MdId)
      requires Valid() && id !in numbers
      modifies this`numbers, this`order
      ensures Valid() && order == old(order) + [id]
    {
      assert id !in order;
      numbers := numbers[id := |order|];
      order := order + [id];
    }

    /** A node's references first, then those of the nodes it holds in place. */
    method VisitOperands(w: Walked, node: Metadata)
      requires Valid() && w.canonical == canonical && w.InPlaceEnds()
      modifies this`numbers, this`order
      ensures Valid()
      ensures order == Dfs(w.Edges(), old(order), w.ExpandAll(VisitList(w.orders, node)))
      decreases w.Edges().Keys - Elements(order), w.MaxLevel(VisitList(w.orders, node)), 2, node, 1
    {
      var items := InNumberingOrder(w.orders, node.head, node.items);
      var refs, inlines := References(items), InlineNodes(items);
      InlinesAreHeld(w.orders, node);
      ghost var before, held := order, VisitEach(w.orders, node, inlines);
      w.MaxLevelAppend(refs, held);
      w.ExpandAppend(refs, held);
      DfsAppend(w.Edges(), order, w.ExpandAll(refs), w.ExpandAll(held));
      VisitReferences(w, refs);
      LessLeft(w.Edges(), before, order);
      VisitInlines(w, node, inlines);
    }

    method VisitReferences(w: Walked, refs: seq<MdId>)
      requires Valid() && w.canonical == canonical && w.InPlaceEnds()
      modifies this`numbers, this`order
      ensures Valid()
      ensures order == Dfs(w.Edges(), old(order), w.ExpandAll(refs))
      decreases w.Edges().Keys - Elements(order), w.MaxLevel(refs), 1
    {
      ghost var g, before := w.Edges(), order;
      for i := 0 to |refs|
        invariant Valid() && before <= order
        invariant Dfs(g, before, w.ExpandAll(refs)) == Dfs(g, order, w.ExpandAll(refs[i..]))
      {
        assert refs[i..] == [refs[i]] + refs[i + 1..];
        w.ExpandFirst(refs[i], refs[i + 1..]);
        DfsAppend(g, order, w.Expand(refs[i]), w.ExpandAll(refs[i + 1..]));
        w.LevelInList(refs, refs[i]);
        LessLeft(g, before, order);
        Visit(w, refs[i]);
      }
      assert refs[|refs|..] == [];
    }

    method VisitInlines(w: Walked, node: Metadata, inlines: seq<Metadata>)
      requires Valid() && w.canonical == canonical && w.InPlaceEnds()
      requires forall x :: x in inlines ==> Inline(x) in node.items
      modifies this`numbers, this`order
      ensures Valid()
      ensures order == Dfs(w.Edges(), old(order), w.ExpandAll(VisitEach(w.orders, node, inlines)))
      decreases w.Edges().Keys - Elements(order), w.MaxLevel(VisitEach(w.orders, node, inlines)), 2, node, 0
    {
      ghost var g, before := w.Edges(), order;
      for i := 0 to |inlines|
        invariant Valid() && before <= order
        invariant Dfs(g, before, w.ExpandAll(VisitEach(w.orders, node, inlines)))
               == Dfs(g, order, w.ExpandAll(VisitEach(w.orders, node, inlines[i..])))
      {
        ghost var here, rest := VisitList(w.orders, inlines[i]), VisitEach(w.orders, node, inlines[i + 1..]);
        assert inlines[i..][0] == inlines[i] && inlines[i..][1..] == inlines[i + 1..];
        w.ExpandAppend(here, rest);
        DfsAppend(g, order, w.ExpandAll(here), w.ExpandAll(rest));
        w.LevelInEach(node, inlines, i);
        LessLeft(g, before, order);
        assert Inline(inlines[i]) in node.items;
        VisitOperands(w, inlines[i]);
      }
      assert inlines[|inlines|..] == [];
    }
  }

  lemma LessLeft(g: Graph<MdId>, before: seq<MdId>, after: seq<MdId>)
    requires before <= after
    ensures g.Keys - Elements(after) <= g.Keys - Elements(before)
    ensures g.Keys - Elements(after) == g.Keys - Elements(before)
            || g.Keys - Elements(after) < g.Keys - Elements(before)
  {
  }

  lemma InlinesAreHeld(orders: StoredOrders, node: Metadata)
    ensures var inlines := InlineNodes(InNumberingOrder(orders, node.head, node.items));
            forall x: Metadata :: x in inlines ==> Inline(x) in node.items
  {
    var items := InNumberingOrder(orders, node.head, node.items);
    forall x: Metadata | x in InlineNodes(items) ensures Inline(x) in node.items {
      OrderKeepsItems(orders, node.head, node.items, Inline(x));
    }
  }
}
