/** Metadata nodes as they are written: references by number or in place, and some fields
left out. What a written node points at is what the node did. */
module MetadataText {
  import opened Wrappers
  import opened MetadataNodes
  import opened Identifiers
  import opened Numbering
  import opened MetadataRoots

  /** By kind and field: what is held at nought and not written. */
  const HiddenAtNought: set<(string, string)> := {
    ("DIBasicType", "size"), ("DICompositeType", "offset"), ("DICompositeType", "size"),
    ("DIDerivedType", "offset"), ("DIDerivedType", "size"), ("DIStringType", "size")}

  type Field = (string, Item)

  predicate IsHidden(tag: string, f: Field) {
    (tag, f.0) in HiddenAtNought && f.1 == Unsigned(0)
  }

  predicate IsKeyed(n: Metadata) {
    n.head.Named? && |n.head.keys| == |n.items|
  }

  function FieldsOf(n: Metadata): (r: seq<Field>)
    requires IsKeyed(n)
    ensures |r| == |n.items|
  {
    seq(|n.items|, i requires 0 <= i < |n.items| => (n.head.keys[i], n.items[i]))
  }

  function Shown(tag: string, fields: seq<Field>): seq<Field> {
    if fields == [] then []
    else
      var rest := Shown(tag, fields[1..]);
      if IsHidden(tag, fields[0]) then rest else [fields[0]] + rest
  }

  function WithFields(distinct: bool, tag: string, fields: seq<Field>): Metadata {
    Metadata(Named(distinct, tag, seq(|fields|, i requires 0 <= i < |fields| => fields[i].0)),
             seq(|fields|, i requires 0 <= i < |fields| => fields[i].1))
  }

  function Trim(n: Metadata): Metadata {
    if IsKeyed(n) then WithFields(n.head.distinct, n.head.tag, Shown(n.head.tag, FieldsOf(n))) else n
  }

  /** A node as written, `name` saying what a reference is written as. */
  function WriteNode(n: Metadata, name: MdId -> MdRef): Metadata {
    Trim(Metadata(n.head, seq(|n.items|, i requires 0 <= i < |n.items| => WriteItem(n.items[i], name))))
  }

  function WriteItem(item: Item, name: MdId -> MdRef): Item {
    match item
    case Ref(id) => (match name(id) case Id(number) => Ref(number) case Here(node) => Inline(node))
    case Inline(node) => Inline(WriteNode(node, name))
    case _ => item
  }

  /** The definition of a node that took an identifier is written `distinct`. */
  function Marked(claimed: bool, n: Metadata): Metadata {
    if claimed && n.head.Named? then Metadata(Named(true, n.head.tag, n.head.keys), n.items) else n
  }

  /** No field of the node, or of a node in it, is left out. */
  predicate ShowsAll(n: Metadata) {
    && (IsKeyed(n) ==> forall i :: 0 <= i < |n.items| ==> !IsHidden(n.head.tag, (n.head.keys[i], n.items[i])))
    && forall i :: 0 <= i < |n.items| && n.items[i].Inline? ==> ShowsAll(n.items[i].node)
  }

  /** A node that points at nothing. */
  predicate IsFlat(n: Metadata) {
    forall i :: 0 <= i < |n.items| ==> !IsPointer(n.items[i])
  }

  predicate IsPointer(item: Item) {
    item.Ref? || item.Inline?
  }

  // ----------------------------------------------------------- leaving fields out

  function Pointers(items: seq<Item>): seq<Item> {
    if items == [] then []
    else
      var rest := Pointers(items[1..]);
      if IsPointer(items[0]) then [items[0]] + rest else rest
  }

  function RankedPointers(s: seq<(nat, Item)>): seq<(nat, Item)> {
    if s == [] then []
    else
      var rest := RankedPointers(s[1..]);
      if IsPointer(s[0].1) then [s[0]] + rest else rest
  }

  lemma {:induction false} PointersDecide(items: seq<Item>)
    ensures References(items) == References(Pointers(items))
    ensures InlineNodes(items) == InlineNodes(Pointers(items))
  {
    if items != [] {
      PointersDecide(items[1..]);
      if IsPointer(items[0]) {
        assert Pointers(items)[1..] == Pointers(items[1..]);
      } else {
        assert References(items) == References(items[1..]) && InlineNodes(items) == InlineNodes(items[1..]);
      }
    }
  }

  lemma {:induction false} PointersOfSeconds(s: seq<(nat, Item)>)
    ensures Pointers(Seconds(s)) == Seconds(RankedPointers(s))
  {
    if s != [] {
      PointersOfSeconds(s[1..]);
      assert Seconds(s)[1..] == Seconds(s[1..]);
      if IsPointer(s[0].1) {
        assert Seconds(RankedPointers(s)) == [s[0].1] + Seconds(RankedPointers(s[1..]));
      }
    }
  }

  /** Sorting and keeping the pointers come to the same in either order. */
  lemma {:induction false} SortOfPointers(s: seq<(nat, Item)>)
    ensures StableSort(RankedPointers(s)) == RankedPointers(StableSort(s))
  {
    if s != [] {
      SortOfPointers(s[1..]);
      StableSortIsStable(s[1..]);
      InsertAmongPointers(s[0], StableSort(s[1..]));
      if IsPointer(s[0].1) {
        assert RankedPointers(s)[0] == s[0] && RankedPointers(s)[1..] == RankedPointers(s[1..]);
      }
    }
  }

  lemma {:induction false} InsertAmongPointers(x: (nat, Item), s: seq<(nat, Item)>)
    requires SortedByRank(s)
    ensures RankedPointers(Insert(x, s)) ==
            if IsPointer(x.1) then Insert(x, RankedPointers(s)) else RankedPointers(s)
  {
    if s == [] || x.0 <= s[0].0 {
      assert ([x] + s)[1..] == s;
      if IsPointer(x.1) {
        PointersStayAbove(x.0, s);
      }
    } else {
      InsertAmongPointers(x, s[1..]);
      var tail := Insert(x, s[1..]);
      assert Insert(x, s)[0] == s[0] && Insert(x, s)[1..] == tail;
      if IsPointer(s[0].1) {
        assert RankedPointers(s)[0] == s[0] && RankedPointers(s)[1..] == RankedPointers(s[1..]);
      } else {
        PointersSorted(s);
      }
    }
  }

  lemma {:induction false} PointersStayAbove(rank: nat, s: seq<(nat, Item)>)
    requires forall i :: 0 <= i < |s| ==> rank <= s[i].0
    ensures forall i :: 0 <= i < |RankedPointers(s)| ==> rank <= RankedPointers(s)[i].0
  {
    if s != [] {
      PointersStayAbove(rank, s[1..]);
    }
  }

  lemma PointersSorted(s: seq<(nat, Item)>)
    requires s != [] && !IsPointer(s[0].1)
    ensures RankedPointers(s) == RankedPointers(s[1..])
  {
  }

  function RankFields(order: seq<string>, fields: seq<Field>): (r: seq<(nat, Item)>)
    ensures |r| == |fields|
  {
    seq(|fields|, i requires 0 <= i < |fields| => (PositionOf(order, fields[i].0), fields[i].1))
  }

  lemma {:induction false} HiddenAreNoPointers(order: seq<string>, tag: string, fields: seq<Field>)
    ensures RankedPointers(RankFields(order, Shown(tag, fields))) == RankedPointers(RankFields(order, fields))
  {
    if fields != [] {
      HiddenAreNoPointers(order, tag, fields[1..]);
      assert RankFields(order, fields)[1..] == RankFields(order, fields[1..]);
      if !IsHidden(tag, fields[0]) {
        assert Shown(tag, fields)[1..] == Shown(tag, fields[1..]);
        assert RankFields(order, Shown(tag, fields))[1..] == RankFields(order, Shown(tag, fields[1..]));
      }
    }
  }

  function Sorted(orders: StoredOrders, n: Metadata): seq<Item> {
    InNumberingOrder(orders, n.head, n.items)
  }

  lemma TrimKeepsPointers(orders: StoredOrders, n: Metadata)
    ensures Pointers(Sorted(orders, Trim(n))) == Pointers(Sorted(orders, n))
  {
    if IsKeyed(n) {
      var tag, fields, t := n.head.tag, FieldsOf(n), Trim(n);
      var order := if tag in orders then orders[tag] else [];
      var before, after := RankFields(order, fields), RankFields(order, Shown(tag, fields));
      HiddenAreNoPointers(order, tag, fields);
      if tag in orders {
        assert WithPosition(n.head, order, n.items) == before;
        assert WithPosition(t.head, order, t.items) == after;
        SortOfPointers(before);
        SortOfPointers(after);
        PointersOfSeconds(StableSort(before));
        PointersOfSeconds(StableSort(after));
      } else {
        assert Seconds(before) == n.items && Seconds(after) == t.items;
        PointersOfSeconds(before);
        PointersOfSeconds(after);
      }
    }
  }

  lemma HeldInSorted(orders: StoredOrders, n: Metadata)
    ensures forall x: Metadata :: x in InlineNodes(Sorted(orders, n)) ==> Inline(x) in n.items
  {
    var items := Sorted(orders, n);
    forall x: Metadata | x in InlineNodes(items) ensures Inline(x) in n.items {
      OrderKeepsItems(orders, n.head, n.items, Inline(x));
    }
  }

  /** What a list of held nodes points at does not depend on the node that holds them. */
  lemma {:induction false} EachAnywhere(orders: StoredOrders, a: Metadata, b: Metadata, ns: seq<Metadata>)
    requires forall x: Metadata :: x in ns ==> Inline(x) in a.items
    requires forall x: Metadata :: x in ns ==> Inline(x) in b.items
    ensures VisitEach(orders, a, ns) == VisitEach(orders, b, ns)
  {
    if ns != [] {
      EachAnywhere(orders, a, b, ns[1..]);
    }
  }

  lemma TrimPointsAtTheSame(orders: StoredOrders, n: Metadata)
    ensures VisitList(orders, Trim(n)) == VisitList(orders, n)
  {
    TrimKeepsPointers(orders, n);
    PointersDecide(Sorted(orders, n));
    PointersDecide(Sorted(orders, Trim(n)));
    HeldInSorted(orders, n);
    HeldInSorted(orders, Trim(n));
    EachAnywhere(orders, n, Trim(n), InlineNodes(Sorted(orders, n)));
  }

  lemma MarkPointsAtTheSame(orders: StoredOrders, claimed: bool, n: Metadata)
    ensures VisitList(orders, Marked(claimed, n)) == VisitList(orders, n)
  {
    var m := Marked(claimed, n);
    if n.head.Named? && n.head.tag in orders {
      assert WithPosition(m.head, orders[n.head.tag], m.items) == WithPosition(n.head, orders[n.head.tag], n.items);
    }
    HeldInSorted(orders, n);
    HeldInSorted(orders, m);
    EachAnywhere(orders, n, m, InlineNodes(Sorted(orders, n)));
  }

  // ------------------------------------------------------------ naming references

  /** The numbers a list of ids is written as: those written in place have none. */
  function NumbersOf(ids: seq<MdId>, name: MdId -> MdRef): seq<MdId> {
    if ids == [] then []
    else
      var rest := NumbersOf(ids[1..], name);
      match name(ids[0]) case Id(number) => [number] + rest case Here(_) => rest
  }

  lemma {:induction false} NumbersAppend(a: seq<MdId>, b: seq<MdId>, name: MdId -> MdRef)
    ensures NumbersOf(a + b, name) == NumbersOf(a, name) + NumbersOf(b, name)
  {
    if a == [] {
      assert a + b == b;
    } else {
      assert (a + b)[0] == a[0] && (a + b)[1..] == a[1..] + b;
      NumbersAppend(a[1..], b, name);
    }
  }

  ghost predicate PlacesFlat(name: MdId -> MdRef) {
    forall id: MdId :: name(id).Here? ==> IsFlat(name(id).node)
  }

  lemma FlatPointsNowhere(orders: StoredOrders, n: Metadata)
    requires IsFlat(n)
    ensures VisitList(orders, n) == []
  {
    var items := Sorted(orders, n);
    forall x | x in items ensures !IsPointer(x) {
      OrderKeepsItems(orders, n.head, n.items, x);
    }
    NoPointers(items);
    HeldInSorted(orders, n);
  }

  lemma {:induction false} NoPointers(items: seq<Item>)
    requires forall x :: x in items ==> !IsPointer(x)
    ensures References(items) == [] && InlineNodes(items) == []
  {
    if items != [] {
      assert items[0] in items;
      NoPointers(items[1..]);
    }
  }

  function ItemWriter(name: MdId -> MdRef): Item -> Item {
    item => WriteItem(item, name)
  }

  function WriteItems(items: seq<Item>, name: MdId -> MdRef): (r: seq<Item>)
    ensures |r| == |items|
  {
    seq(|items|, i requires 0 <= i < |items| => WriteItem(items[i], name))
  }

  lemma WritingTrims(n: Metadata, name: MdId -> MdRef)
    ensures WriteNode(n, name) == Trim(Metadata(n.head, WriteItems(n.items, name)))
  {
    assert seq(|n.items|, i requires 0 <= i < |n.items| => WriteItem(n.items[i], name)) == WriteItems(n.items, name);
  }

  lemma OrderOfWritten(orders: StoredOrders, head: Head, items: seq<Item>, name: MdId -> MdRef)
    ensures InNumberingOrder(orders, head, WriteItems(items, name)) == WriteItems(InNumberingOrder(orders, head, items), name)
  {
    if head.Named? && head.tag in orders {
      var ranked := WithPosition(head, orders[head.tag], items);
      assert WithPosition(head, orders[head.tag], WriteItems(items, name)) == MapSecond(ranked, ItemWriter(name));
      SortOfMapped(ranked, ItemWriter(name));
    }
  }

  lemma {:induction false} ReferencesOfWritten(items: seq<Item>, name: MdId -> MdRef)
    ensures References(WriteItems(items, name)) == NumbersOf(References(items), name)
  {
    if items != [] {
      ReferencesOfWritten(items[1..], name);
      assert WriteItems(items, name)[1..] == WriteItems(items[1..], name);
      if items[0].Ref? {
        assert References(items)[1..] == References(items[1..]);
      } else {
        assert References(items) == References(items[1..]);
      }
      assert References(WriteItems(items, name)) ==
             (match WriteItem(items[0], name) case Ref(k) => [k] case _ => []) + References(WriteItems(items[1..], name));
    }
  }

  /** What a written node points at: what the node points at, by number. */
  lemma {:induction false} WrittenPointsAt(orders: StoredOrders, n: Metadata, name: MdId -> MdRef)
    requires PlacesFlat(name)
    ensures VisitList(orders, WriteNode(n, name)) == NumbersOf(VisitList(orders, n), name)
    decreases n, 1
  {
    var m, items := Metadata(n.head, WriteItems(n.items, name)), Sorted(orders, n);
    WritingTrims(n, name);
    TrimPointsAtTheSame(orders, m);
    OrderOfWritten(orders, n.head, n.items, name);
    assert Sorted(orders, m) == WriteItems(items, name);
    ReferencesOfWritten(items, name);
    HeldInSorted(orders, n);
    HeldInSorted(orders, m);
    forall x | x in items ensures x in n.items {
      OrderKeepsItems(orders, n.head, n.items, x);
    }
    HeldPointAt(orders, n, m, items, name);
    NumbersAppend(References(items), VisitEach(orders, n, InlineNodes(items)), name);
  }

  ghost predicate Holds(n: Metadata, ns: seq<Metadata>) {
    forall x: Metadata :: x in ns ==> Inline(x) in n.items
  }

  lemma InlineFirst(x: Item, rest: seq<Item>)
    ensures InlineNodes([x] + rest) == if x.Inline? then [x.node] + InlineNodes(rest) else InlineNodes(rest)
  {
    assert ([x] + rest)[1..] == rest;
  }

  /** The first of a list of items, added to what the rest holds. */
  lemma EachFirst(orders: StoredOrders, n: Metadata, x: Item, rest: seq<Item>)
    requires Holds(n, InlineNodes([x] + rest))
    ensures Holds(n, InlineNodes(rest))
    ensures VisitEach(orders, n, InlineNodes([x] + rest)) ==
            if x.Inline? then VisitList(orders, x.node) + VisitEach(orders, n, InlineNodes(rest))
            else VisitEach(orders, n, InlineNodes(rest))
  {
    InlineFirst(x, rest);
    var now, later := InlineNodes([x] + rest), InlineNodes(rest);
    assert forall y: Metadata :: y in later ==> y in now;
    if x.Inline? {
      assert now[1..] == later;
    }
  }

  lemma WriteItemsFirst(x: Item, rest: seq<Item>, name: MdId -> MdRef)
    ensures WriteItems([x] + rest, name) == [WriteItem(x, name)] + WriteItems(rest, name)
  {
  }

  lemma {:induction false} HeldPointAt(orders: StoredOrders, n: Metadata, m: Metadata, items: seq<Item>, name: MdId -> MdRef)
    requires PlacesFlat(name) && (forall x :: x in items ==> x in n.items)
    requires Holds(n, InlineNodes(items)) && Holds(m, InlineNodes(WriteItems(items, name)))
    ensures VisitEach(orders, m, InlineNodes(WriteItems(items, name)))
         == NumbersOf(VisitEach(orders, n, InlineNodes(items)), name)
    decreases n, 0, |items|
  {
    if items != [] {
      var x, rest := items[0], items[1..];
      assert items == [x] + rest;
      WriteItemsFirst(x, rest, name);
      EachFirst(orders, n, x, rest);
      EachFirst(orders, m, WriteItem(x, name), WriteItems(rest, name));
      HeldPointAt(orders, n, m, rest, name);
      assert x in n.items;
      if x.Inline? {
        WrittenPointsAt(orders, x.node, name);
        NumbersAppend(VisitList(orders, x.node), VisitEach(orders, n, InlineNodes(rest)), name);
      } else if x.Ref? && name(x.id).Here? {
        FlatPointsNowhere(orders, name(x.id).node);
        assert VisitEach(orders, m, InlineNodes(WriteItems(items, name)))
            == [] + VisitEach(orders, m, InlineNodes(WriteItems(rest, name)));
      }
    }
  }

  // -------------------------------------------------------------- identifiers kept

  lemma {:induction false} WrittenFinds(n: Metadata, name: MdId -> MdRef, wanted: string, i: nat)
    ensures var m := Metadata(n.head, WriteItems(n.items, name));
            && FindStr(m, wanted, i) == FindStr(n, wanted, i)
            && FindUnsigned(m, wanted, i) == FindUnsigned(n, wanted, i)
    decreases |n.items| - i
  {
    if i < |n.items| {
      WrittenFinds(n, name, wanted, i + 1);
    }
  }

  function StrIn(fields: seq<Field>, wanted: string): Option<string> {
    if fields == [] then None
    else if fields[0].0 == wanted && fields[0].1.Str? then Some(fields[0].1.str)
    else StrIn(fields[1..], wanted)
  }

  function UnsignedIn(fields: seq<Field>, wanted: string): Option<nat> {
    if fields == [] then None
    else if fields[0].0 == wanted && fields[0].1.Unsigned? then Some(fields[0].1.number)
    else UnsignedIn(fields[1..], wanted)
  }

  lemma {:induction false} FoundInFields(n: Metadata, wanted: string, i: nat)
    requires IsKeyed(n) && i <= |n.items|
    ensures FindStr(n, wanted, i) == StrIn(FieldsOf(n)[i..], wanted)
    ensures FindUnsigned(n, wanted, i) == UnsignedIn(FieldsOf(n)[i..], wanted)
    decreases |n.items| - i
  {
    if i < |n.items| {
      FoundInFields(n, wanted, i + 1);
      assert FieldsOf(n)[i..][0] == FieldsOf(n)[i] && FieldsOf(n)[i..][1..] == FieldsOf(n)[i + 1..];
    }
  }

  lemma {:induction false} ShownFinds(tag: string, fields: seq<Field>, wanted: string)
    requires (tag, wanted) !in HiddenAtNought
    ensures StrIn(Shown(tag, fields), wanted) == StrIn(fields, wanted)
    ensures UnsignedIn(Shown(tag, fields), wanted) == UnsignedIn(fields, wanted)
  {
    if fields != [] {
      ShownFinds(tag, fields[1..], wanted);
      if !IsHidden(tag, fields[0]) {
        assert Shown(tag, fields)[1..] == Shown(tag, fields[1..]);
      }
    }
  }

  lemma TrimFinds(n: Metadata, wanted: string)
    requires n.head.Named? ==> (n.head.tag, wanted) !in HiddenAtNought
    ensures FindStr(Trim(n), wanted, 0) == FindStr(n, wanted, 0)
    ensures FindUnsigned(Trim(n), wanted, 0) == FindUnsigned(n, wanted, 0)
  {
    if IsKeyed(n) {
      var fields, t := FieldsOf(n), Trim(n);
      assert FieldsOf(t) == Shown(n.head.tag, fields);
      assert fields[0..] == fields && FieldsOf(t)[0..] == FieldsOf(t);
      FoundInFields(n, wanted, 0);
      FoundInFields(t, wanted, 0);
      ShownFinds(n.head.tag, fields, wanted);
    }
  }

  lemma {:induction false} MarkedFinds(claimed: bool, n: Metadata, wanted: string, i: nat)
    ensures FindStr(Marked(claimed, n), wanted, i) == FindStr(n, wanted, i)
    ensures FindUnsigned(Marked(claimed, n), wanted, i) == FindUnsigned(n, wanted, i)
    decreases |n.items| - i
  {
    if i < |n.items| {
      MarkedFinds(claimed, n, wanted, i + 1);
    }
  }

  lemma MarkingKeepsIdentifier(claimed: bool, n: Metadata)
    ensures OdrKeyOf(Marked(claimed, n)) == OdrKeyOf(n)
  {
    MarkedFinds(claimed, n, "identifier", 0);
    MarkedFinds(claimed, n, "tag", 0);
  }

  /** A written node carries the identifier the node carried. */
  lemma WritingKeepsIdentifier(n: Metadata, name: MdId -> MdRef)
    ensures OdrKeyOf(WriteNode(n, name)) == OdrKeyOf(n)
  {
    var m := Metadata(n.head, WriteItems(n.items, name));
    WritingTrims(n, name);
    WrittenFinds(n, name, "identifier", 0);
    WrittenFinds(n, name, "tag", 0);
    if n.head.Named? && n.head.tag == "DICompositeType" {
      TrimFinds(m, "identifier");
      TrimFinds(m, "tag");
    }
  }

  // ------------------------------------------------------- where nothing is left out

  lemma {:induction false} AllShown(tag: string, fields: seq<Field>)
    requires forall i :: 0 <= i < |fields| ==> !IsHidden(tag, fields[i])
    ensures Shown(tag, fields) == fields
  {
    if fields != [] {
      AllShown(tag, fields[1..]);
    }
  }

  ghost predicate NamesByNumber(name: MdId -> MdRef, number: MdId -> MdId, id: MdId) {
    name(id) == Id(number(id))
  }

  /** With every field written and every reference a number, writing is renumbering. */
  lemma {:induction false} WritingRenumbers(n: Metadata, name: MdId -> MdRef, number: MdId -> MdId)
    requires ShowsAll(n) && RefsAll(n, (id: MdId) => NamesByNumber(name, number, id))
    ensures WriteNode(n, name) == MapRefs(n, number)
  {
    var m := MapRefs(n, number);
    forall i | 0 <= i < |n.items| ensures WriteItem(n.items[i], name) == MapItem(n.items[i], number) {
      assert RefsAllItem(n.items[i], (id: MdId) => NamesByNumber(name, number, id));
      if n.items[i].Inline? {
        WritingRenumbers(n.items[i].node, name, number);
      }
    }
    assert WriteItems(n.items, name) == m.items;
    WritingTrims(n, name);
    if IsKeyed(n) {
      forall i | 0 <= i < |m.items| ensures !IsHidden(m.head.tag, FieldsOf(m)[i]) {
        assert !IsHidden(n.head.tag, (n.head.keys[i], n.items[i]));
      }
      AllShown(m.head.tag, FieldsOf(m));
    }
  }

  ghost predicate PlacesShown(name: MdId -> MdRef) {
    forall id: MdId :: name(id).Here? ==> IsFlat(name(id).node) && name(id).node.PrintsInPlace()
  }

  lemma InPlaceShowsAll(n: Metadata)
    requires IsFlat(n) && n.PrintsInPlace()
    ensures ShowsAll(n)
  {
    forall i | 0 <= i < |n.items| ensures !n.items[i].Inline? {
      assert !IsPointer(n.items[i]);
    }
  }

  lemma WritingKeepsPlace(claimed: bool, n: Metadata, name: MdId -> MdRef)
    ensures Marked(claimed, WriteNode(n, name)).PrintsInPlace() == n.PrintsInPlace()
  {
  }

  lemma MarkedShowsAll(claimed: bool, n: Metadata)
    requires ShowsAll(n)
    ensures ShowsAll(Marked(claimed, n))
  {
  }

  lemma {:induction false} ShownAreKept(tag: string, fields: seq<Field>)
    ensures forall f :: f in Shown(tag, fields) ==> f in fields && !IsHidden(tag, f)
  {
    if fields != [] {
      ShownAreKept(tag, fields[1..]);
    }
  }

  /** What is left of a node is of the node, and none of it is to be left out. */
  lemma TrimKeepsSome(n: Metadata)
    ensures forall i :: 0 <= i < |Trim(n).items| ==> Trim(n).items[i] in n.items
    ensures IsKeyed(Trim(n)) ==>
              forall i :: 0 <= i < |Trim(n).items| ==> !IsHidden(n.head.tag, (Trim(n).head.keys[i], Trim(n).items[i]))
  {
    if IsKeyed(n) {
      var fields, kept := FieldsOf(n), Shown(n.head.tag, FieldsOf(n));
      ShownAreKept(n.head.tag, fields);
      forall i | 0 <= i < |kept|
        ensures kept[i].1 in n.items && !IsHidden(n.head.tag, (kept[i].0, kept[i].1))
      {
        assert kept[i] in fields;
        var j :| 0 <= j < |fields| && fields[j] == kept[i];
        assert n.items[j] == kept[i].1;
      }
    }
  }

  /** What is written has nothing more to leave out. */
  lemma {:induction false} WrittenShowsAll(n: Metadata, name: MdId -> MdRef)
    requires PlacesShown(name)
    ensures ShowsAll(WriteNode(n, name))
  {
    var m := Metadata(n.head, WriteItems(n.items, name));
    WritingTrims(n, name);
    TrimKeepsSome(m);
    forall i | 0 <= i < |n.items| && m.items[i].Inline? ensures ShowsAll(m.items[i].node) {
      match n.items[i] {
        case Inline(node) => WrittenShowsAll(node, name);
        case Ref(id) => InPlaceShowsAll(name(id).node);
        case _ =>
      }
    }
    var t := Trim(m);
    forall i | 0 <= i < |t.items| && t.items[i].Inline? ensures ShowsAll(t.items[i].node) {
      var j :| 0 <= j < |m.items| && m.items[j] == t.items[i];
    }
  }
}
