/** Printed metadata that does not stand apart: nodes written alike, and an identifier that
changes hands. */
module ReprintingFailures {
  import opened Wrappers
  import opened MetadataNodes
  import opened DepthFirst
  import opened Uniquing
  import opened UniquingScan
  import opened Identifiers
  import opened MetadataRoots
  import opened MetadataText
  import opened MetadataSlots
  import opened Reprinting

  /** Nodes none of which merges with another, walked in their own order. */
  ghost function Alone(nodes: MetadataSlots.Nodes): Walked {
    Walked(nodes, map[], map[], id => 0)
  }

  ghost predicate PrintsCanonically(w: Walked, roots: seq<MdRef>)
    requires Prints(w, roots)
  {
    IsCanonical(Written(w, roots), PrintedRoots(roots, PenOf(w, OrderOf(w, roots))))
  }

  /** Nodes that all differ, and carry no identifier, are an exit as they stand. */
  lemma DifferentNodesExit(nodes: MetadataSlots.Nodes)
    requires forall id: MdId :: id < |nodes| && nodes[id].Some? ==> OdrKeyOf(nodes[id].value).None?
    requires forall x: MdId, y: MdId :: x < y < |nodes| ==> nodes[x] != nodes[y]
    ensures StartOf(nodes) == Setting(nodes, map[], {}) && Exits(StartOf(nodes), map[])
  {
    WithoutIdentifiers(nodes);
    var g := StartOf(nodes);
    forall x: MdId, y: MdId | g.Participates(x) && g.Participates(y) && KeyUnder(g, map[], x) == KeyUnder(g, map[], y)
      ensures x == y
    {
      SubstituteNothing(nodes[x].value);
      SubstituteNothing(nodes[y].value);
    }
    DifferentNodesStay(g, |g.nodes|);
  }

  lemma WrittenWithoutIdentifiers(w: Walked, roots: seq<MdRef>)
    requires Prints(w, roots) && forall id: MdId :: w.Present(id) ==> OdrKeyOf(w.nodes[id].value).None?
    ensures StartOf(Written(w, roots).nodes) == Setting(Written(w, roots).nodes, map[], {})
    ensures ClaimedIn(w.nodes) == {}
  {
    var order, v := OrderOf(w, roots), Written(w, roots);
    forall k: MdId | k < |v.nodes| && v.nodes[k].Some? ensures OdrKeyOf(v.nodes[k].value).None? {
      WrittenNode(w, roots, k);
      DefinitionKeepsIdentifier(w, order, order[k]);
    }
    WithoutIdentifiers(v.nodes);
    ClaimHolders(OdrKeys(w.nodes), |w.nodes|);
  }

  lemma DefinitionKeepsIdentifier(w: Walked, order: seq<MdId>, x: MdId)
    requires w.Present(x)
    ensures OdrKeyOf(WriteDefinition(w, order, x)) == OdrKeyOf(w.nodes[x].value)
  {
    WritingKeepsIdentifier(w.nodes[x].value, NameIn(w, order));
    MarkingKeepsIdentifier(x in ClaimedIn(w.nodes), WriteNode(w.nodes[x].value, NameIn(w, order)));
  }

  lemma NamedRootIsNumbered(w: Walked, roots: seq<MdRef>, i: nat) returns (k: nat)
    requires Prints(w, roots) && i < |roots| && roots[i].Id?
    ensures k < |OrderOf(w, roots)| && OrderOf(w, roots)[k] == Resolve(w.canonical, roots[i].id)
  {
    RootsAreNumbered(w, roots);
    RootIsListed(w, roots, i);
    OnLinesIn(w, w.RootList(roots));
    var r := Resolve(w.canonical, roots[i].id);
    assert RootIsDefined(w, roots[i]);
    assert roots[i].id in w.Named(roots[i]);
    k :| k < |OrderOf(w, roots)| && OrderOf(w, roots)[k] == r;
  }

  /** Two nodes that do not merge and are written alike. */
  lemma AlikeIsNotCanonical(w: Walked, roots: seq<MdRef>)
    requires Prints(w, roots) && w.canonical == map[] && 2 <= |roots| && roots[0].Id? && roots[1].Id? && roots[0] != roots[1]
    requires forall id: MdId :: w.Present(id) ==> OdrKeyOf(w.nodes[id].value).None?
    requires var x, y, name := roots[0].id, roots[1].id, NameIn(w, OrderOf(w, roots));
             && w.Present(x) && w.Present(y) && !w.nodes[x].value.IsDistinct()
             && WriteNode(w.nodes[x].value, name) == WriteNode(w.nodes[y].value, name)
    ensures !PrintsCanonically(w, roots)
  {
    var k := NamedRootIsNumbered(w, roots, 0);
    var j := NamedRootIsNumbered(w, roots, 1);
    WrittenWithoutIdentifiers(w, roots);
    WrittenNode(w, roots, k);
    WrittenNode(w, roots, j);
    PrintingIsCanonicalExactly(w, roots);
    var g := StartOf(Written(w, roots).nodes);
    assert g.Participates(k) && g.Participates(j) && g.nodes[k] == g.nodes[j] && k != j;
  }

  /** Nodes that point at nothing, each on a line of its own. */
  lemma FlatAreDefined(nodes: MetadataSlots.Nodes, roots: seq<MdRef>)
    requires forall id: MdId :: id < |nodes| ==> nodes[id].Some? && IsFlat(nodes[id].value) && !nodes[id].value.PrintsInPlace()
    requires forall i :: 0 <= i < |roots| ==> roots[i].Id? && roots[i].id < |nodes|
    ensures Alone(nodes).InPlaceEnds() && Defined(Alone(nodes), roots)
  {
    var w := Alone(nodes);
    forall id: MdId ensures w.EndsAt(id) {
    }
    forall id: MdId | w.Numbered(id) ensures RefsAll(nodes[id].value, ResolvesToPresent(w)) {
      FlatHasNoRefs(nodes[id].value, ResolvesToPresent(w));
    }
  }

  lemma FlatHasNoRefs(n: Metadata, p: MdId -> bool)
    requires IsFlat(n)
    ensures RefsAll(n, p)
  {
    forall i | 0 <= i < |n.items| ensures RefsAllItem(n.items[i], p) {
      assert !IsPointer(n.items[i]);
    }
  }

  function BasicType(fields: seq<Field>): Metadata {
    WithFields(false, "DIBasicType", fields)
  }

  /** `!0 = !DIBasicType()` and `!1 = !DIBasicType(size: 0)`, both named. */
  const TwoSizes: MetadataSlots.Nodes := [Some(BasicType([])), Some(BasicType([("size", Unsigned(0))]))]

  const FirstTwo: seq<MdRef> := [Id(0), Id(1)]

  lemma BasicTypesPrintAlike(name: MdId -> MdRef)
    ensures WriteNode(BasicType([]), name) == BasicType([])
    ensures WriteNode(BasicType([("size", Unsigned(0))]), name) == BasicType([])
  {
    var n := BasicType([("size", Unsigned(0))]);
    WritingTrims(n, name);
    WritingTrims(BasicType([]), name);
    assert WriteItems(n.items, name) == n.items;
    assert WriteItems(BasicType([]).items, name) == [];
    assert FieldsOf(n) == [("size", Unsigned(0))];
    assert Shown("DIBasicType", FieldsOf(n)) == [];
  }

  lemma TwoSizesPrint()
    ensures Prints(Alone(TwoSizes), FirstTwo)
  {
    assert |BasicType([]).items| == 0 && |BasicType([("size", Unsigned(0))]).items| == 1;
    DifferentNodesExit(TwoSizes);
    FlatAreDefined(TwoSizes, FirstTwo);
  }

  lemma SizesPrintAlikeHere(order: seq<MdId>)
    ensures var w := Alone(TwoSizes);
            WriteNode(w.nodes[0].value, NameIn(w, order)) == WriteNode(w.nodes[1].value, NameIn(w, order))
  {
    BasicTypesPrintAlike(NameIn(Alone(TwoSizes), order));
  }

  lemma SizesCarryNothing()
    ensures forall id: MdId :: Alone(TwoSizes).Present(id) ==> OdrKeyOf(TwoSizes[id].value).None?
  {
  }

  /** A size of nought is held and not written, so the two are two nodes until the text is
  read back. */
  lemma SizesOfNoughtMerge()
    ensures Prints(Alone(TwoSizes), FirstTwo) && !PrintsCanonically(Alone(TwoSizes), FirstTwo)
  {
    var w := Alone(TwoSizes);
    TwoSizesPrint();
    SizesCarryNothing();
    SizesPrintAlikeHere(OrderOf(w, FirstTwo));
    AlikeIsNotCanonical(w, FirstTwo);
  }

  const Expression: Metadata := Metadata(Positional(false, "DIExpression"), [])

  /** `!0 = !{!2}`, `!1 = !{!DIExpression()}` and `!2 = !DIExpression()`, the first two named. */
  const TwoUses: MetadataSlots.Nodes := [
    Some(Metadata(Tuple(false), [Ref(2)])), Some(Metadata(Tuple(false), [Inline(Expression)])), Some(Expression)]

  lemma UsesPrintAlike(name: MdId -> MdRef)
    requires name(2) == Here(Expression)
    ensures WriteNode(TwoUses[0].value, name) == WriteNode(TwoUses[1].value, name)
  {
    var a, b := TwoUses[0].value, TwoUses[1].value;
    WritingTrims(a, name);
    WritingTrims(b, name);
    WritingTrims(Expression, name);
    assert WriteItems(Expression.items, name) == [];
    assert WriteItems(a.items, name) == [Inline(Expression)] == WriteItems(b.items, name);
  }

  lemma TwoUsesPrint()
    ensures Prints(Alone(TwoUses), FirstTwo) && Alone(TwoUses).InPlace(2)
  {
    assert TwoUses[0].value.items[0] != TwoUses[1].value.items[0];
    DifferentNodesExit(TwoUses);
    FlatPointsNowhere(map[], Expression);
  }

  lemma UsesPrintAlikeHere(order: seq<MdId>)
    ensures var w := Alone(TwoUses);
            WriteNode(w.nodes[0].value, NameIn(w, order)) == WriteNode(w.nodes[1].value, NameIn(w, order))
  {
    var w := Alone(TwoUses);
    assert w.InPlace(2);
    UsesPrintAlike(NameIn(w, order));
  }

  lemma UsesCarryNothing()
    ensures forall id: MdId :: Alone(TwoUses).Present(id) ==> OdrKeyOf(TwoUses[id].value).None?
  {
  }

  /** An expression printed at its uses may be held there or named by number, which makes
  two nodes of one text. */
  lemma UsesByNumberMerge()
    ensures Prints(Alone(TwoUses), FirstTwo) && !PrintsCanonically(Alone(TwoUses), FirstTwo)
  {
    var w := Alone(TwoUses);
    TwoUsesPrint();
    UsesCarryNothing();
    UsesPrintAlikeHere(OrderOf(w, FirstTwo));
    AlikeIsNotCanonical(w, FirstTwo);
  }

  // ------------------------------------------------------------ a change of hands

  function TypeNamed(tag: nat): Metadata {
    WithFields(false, "DICompositeType", [("tag", Unsigned(tag)), ("identifier", Str("t"))])
  }

  lemma TypeHasKey(tag: nat)
    ensures OdrKeyOf(TypeNamed(tag)) == Some(OdrKey(tag, "t"))
  {
    var n := TypeNamed(tag);
    assert Keyed(n, 0, "tag") && !Keyed(n, 0, "identifier") && Keyed(n, 1, "identifier");
    assert FindUnsigned(n, "tag", 0) == Some(tag);
    assert FindStr(n, "identifier", 1) == Some("t");
  }

  /** `!0 = !DICompositeType(tag: 2, identifier: "t")` and `!1` the same with tag 19. */
  const TwoTags: MetadataSlots.Nodes := [Some(TypeNamed(2)), Some(TypeNamed(19))]

  const SecondFirst: seq<MdRef> := [Id(1), Id(0)]

  lemma TwoTagsStart()
    ensures StartOf(TwoTags) == Setting(TwoTags, map[], {0}) && ClaimedIn(TwoTags) == {0}
    ensures Exits(StartOf(TwoTags), map[])
  {
    var keys := OdrKeys(TwoTags);
    TypeHasKey(2);
    TypeHasKey(19);
    assert keys == [Some(OdrKey(2, "t")), Some(OdrKey(19, "t"))];
    assert ClaimUpTo(keys, 1) == Claims(map["t" := Holder(2, 0)], map[], {0});
    assert ClaimUpTo(keys, 2) == Claims(map["t" := Holder(2, 0)], map[], {0});
    var members := MemberKeys(TwoTags);
    MemberHasNoIdentifier(TypeNamed(2));
    MemberHasNoIdentifier(TypeNamed(19));
    assert members == [None, None];
    assert MembersUpTo(ClaimUpTo(keys, 2), members, 1) == Members(map[], map[], {});
    assert MembersUpTo(ClaimUpTo(keys, 2), members, 2) == Members(map[], map[], {});
    MergesNothingExactly(TwoTags);
  }

  lemma FirstIsUnmarked(w: Walked, order: seq<MdId>)
    requires w.nodes == TwoTags && ClaimedIn(TwoTags) == {0}
    ensures var n := WriteDefinition(w, order, 1); OdrKeyOf(n).Some? && !n.IsDistinct()
  {
    DefinitionKeepsIdentifier(w, order, 1);
    TypeHasKey(19);
  }

  /** The first node takes the identifier and the second is printed first; read back, the
  second takes it, and is marked when printed again. */
  lemma IdentifierChangesHands()
    ensures Prints(Alone(TwoTags), SecondFirst) && !PrintsCanonically(Alone(TwoTags), SecondFirst)
  {
    var w := Alone(TwoTags);
    TwoTagsStart();
    FlatAreDefined(TwoTags, SecondFirst);
    SecondIsFirst();
    WrittenNode(w, SecondFirst, 0);
    FirstIsUnmarked(w, OrderOf(w, SecondFirst));
    FirstClaims(Written(w, SecondFirst).nodes);
  }

  lemma FirstClaims(nodes: MetadataSlots.Nodes)
    requires nodes != [] && nodes[0].Some? && OdrKeyOf(nodes[0].value).Some?
    ensures 0 in ClaimedIn(nodes)
  {
    ClaimStays(OdrKeys(nodes), |nodes|);
  }

  lemma {:induction false} ClaimStays(keys: seq<Option<OdrKey>>, n: nat)
    requires 0 < n <= |keys| && keys[0].Some?
    ensures 0 in ClaimUpTo(keys, n).claimed
  {
    if n > 1 {
      ClaimStays(keys, n - 1);
    } else {
      assert ClaimUpTo(keys, 0) == Claims(map[], map[], {});
    }
  }

  /** A walk numbers its first root first. */
  lemma FirstIsFirst(g: Graph<MdId>, all: seq<MdId>)
    requires all != [] && all[0] in g
    ensures |Dfs(g, [], all)| > 0 && Dfs(g, [], all)[0] == all[0]
  {
    var n, rest := all[0], all[1..];
    assert all == [n] + rest;
    DfsVisit(g, [], n);
    DfsAppend(g, [], [n], rest);
    assert [] + [n] == [n];
  }

  lemma SecondIsFirst()
    requires Prints(Alone(TwoTags), SecondFirst)
    ensures |OrderOf(Alone(TwoTags), SecondFirst)| > 0 && OrderOf(Alone(TwoTags), SecondFirst)[0] == 1
  {
    var w := Alone(TwoTags);
    var ids := w.RootList(SecondFirst);
    assert ids[0] == 1;
    ExpandDefined(w, ids);
    assert w.Numbered(1);
    FirstIsFirst(w.Edges(), w.ExpandAll(ids));
  }
}
