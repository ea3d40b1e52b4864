/** Numbering metadata nodes by walking the module: each node before what it points at,
nodes that print in place passed through without a number. */
module Numbering {
  import opened MetadataNodes

  // --------------------------------------------------------- fields in stored order

  /** A stable sort: equal ranks keep the order they came in. */
  function StableSort<T>(s: seq<(nat, T)>): (r: seq<(nat, T)>)
    ensures |r| == |s|
  {
    if s == [] then [] else Insert(s[0], StableSort(s[1..]))
  }

  function Insert<T>(x: (nat, T), s: seq<(nat, T)>): (r: seq<(nat, T)>)
    ensures |r| == |s| + 1
  {
    if s == [] || x.0 <= s[0].0 then [x] + s else [s[0]] + Insert(x, s[1..])
  }

  predicate SortedByRank<T>(s: seq<(nat, T)>) {
    forall i, j :: 0 <= i < j < |s| ==> s[i].0 <= s[j].0
  }

  function WithRank<T>(s: seq<(nat, T)>, rank: nat): seq<(nat, T)> {
    if s == [] then [] else (if s[0].0 == rank then [s[0]] else []) + WithRank(s[1..], rank)
  }

  lemma {:induction false} InsertSorts<T>(x: (nat, T), s: seq<(nat, T)>)
    requires SortedByRank(s)
    ensures SortedByRank(Insert(x, s))
    ensures forall r :: WithRank(Insert(x, s), r) == WithRank([x] + s, r)
    ensures forall i :: 0 <= i < |Insert(x, s)| ==> Insert(x, s)[i] == x || Insert(x, s)[i] in s
  {
    if !(s == [] || x.0 <= s[0].0) {
      InsertSorts(x, s[1..]);
      var tail := Insert(x, s[1..]);
      assert Insert(x, s)[1..] == tail;
      forall r ensures WithRank(Insert(x, s), r) == WithRank([x] + s, r) {
        assert WithRank(tail, r) == WithRank([x] + s[1..], r);
        assert ([x] + s[1..])[1..] == s[1..] && ([x] + s)[1..] == s;
      }
    }
  }

  /** The sort is the stable one: in rank order, and within a rank as it was. */
  lemma {:induction false} StableSortIsStable<T>(s: seq<(nat, T)>)
    ensures SortedByRank(StableSort(s))
    ensures forall r :: WithRank(StableSort(s), r) == WithRank(s, r)
  {
    if s != [] {
      StableSortIsStable(s[1..]);
      var sorted := StableSort(s[1..]);
      InsertSorts(s[0], sorted);
      forall r ensures WithRank(StableSort(s), r) == WithRank(s, r) {
        assert WithRank([s[0]] + sorted, r) == WithRank(s, r) by {
          assert ([s[0]] + sorted)[1..] == sorted;
        }
      }
    }
  }

  /** And sorting what is sorted changes nothing. */
  lemma {:induction false} SortedStays<T>(s: seq<(nat, T)>)
    requires SortedByRank(s)
    ensures StableSort(s) == s
  {
    if s != [] {
      SortedStays(s[1..]);
      assert s == [s[0]] + s[1..];
    }
  }

  function Seconds<T>(s: seq<(nat, T)>): (r: seq<T>)
    ensures |r| == |s|
  {
    seq(|s|, i requires 0 <= i < |s| => s[i].1)
  }

  /** Nothing is lost, added or repeated by sorting. */
  lemma {:induction false} StableSortKeeps<T>(s: seq<(nat, T)>)
    ensures multiset(Seconds(StableSort(s))) == multiset(Seconds(s))
  {
    if s != [] {
      StableSortKeeps(s[1..]);
      InsertKeeps(s[0], StableSort(s[1..]));
      assert Seconds(s) == [s[0].1] + Seconds(s[1..]);
    }
  }

  lemma {:induction false} InsertKeeps<T>(x: (nat, T), s: seq<(nat, T)>)
    ensures multiset(Seconds(Insert(x, s))) == multiset{x.1} + multiset(Seconds(s))
  {
    if s == [] || x.0 <= s[0].0 {
      assert Seconds([x] + s) == [x.1] + Seconds(s);
    } else {
      InsertKeeps(x, s[1..]);
      assert Seconds(s) == [s[0].1] + Seconds(s[1..]);
      assert Seconds(Insert(x, s)) == [s[0].1] + Seconds(Insert(x, s[1..]));
    }
  }

  function MapSecond<T, U>(s: seq<(nat, T)>, f: T -> U): (r: seq<(nat, U)>)
    ensures |r| == |s|
  {
    seq(|s|, i requires 0 <= i < |s| => (s[i].0, f(s[i].1)))
  }

  lemma {:induction false} SortOfMapped<T, U>(s: seq<(nat, T)>, f: T -> U)
    ensures StableSort(MapSecond(s, f)) == MapSecond(StableSort(s), f)
  {
    if s != [] {
      SortOfMapped(s[1..], f);
      assert MapSecond(s, f)[1..] == MapSecond(s[1..], f);
      InsertOfMapped(s[0], StableSort(s[1..]), f);
    }
  }

  lemma {:induction false} InsertOfMapped<T, U>(x: (nat, T), s: seq<(nat, T)>, f: T -> U)
    ensures Insert((x.0, f(x.1)), MapSecond(s, f)) == MapSecond(Insert(x, s), f)
  {
    if !(s == [] || x.0 <= s[0].0) {
      InsertOfMapped(x, s[1..], f);
      assert MapSecond(s, f)[1..] == MapSecond(s[1..], f);
    }
  }

  /** By kind, the field names in the order a node holds them, when a printer's differs. */
  type StoredOrders = map<string, seq<string>>

  function PositionOf(order: seq<string>, key: string): (p: nat)
    ensures p <= |order|
  {
    if order == [] then 0 else if order[0] == key then 0 else 1 + PositionOf(order[1..], key)
  }

  function RankOf(head: Head, order: seq<string>, i: nat): nat {
    if head.Named? && i < |head.keys| then PositionOf(order, head.keys[i]) else |order|
  }

  function WithPosition(head: Head, order: seq<string>, items: seq<Item>): (r: seq<(nat, Item)>)
    ensures |r| == |items|
  {
    seq(|items|, i requires 0 <= i < |items| => (RankOf(head, order, i), items[i]))
  }

  /** A node's items in the order what they reference is numbered. */
  function InNumberingOrder(orders: StoredOrders, head: Head, items: seq<Item>): (r: seq<Item>)
    ensures |r| == |items|
  {
    if head.Named? && head.tag in orders then Seconds(StableSort(WithPosition(head, orders[head.tag], items)))
    else items
  }

  /** The order is one of the same items, each as often as it was. */
  lemma OrderPermutes(orders: StoredOrders, head: Head, items: seq<Item>)
    ensures multiset(InNumberingOrder(orders, head, items)) == multiset(items)
  {
    if head.Named? && head.tag in orders {
      var ranked := WithPosition(head, orders[head.tag], items);
      StableSortKeeps(ranked);
      assert Seconds(ranked) == items;
    }
  }

  lemma OrderKeepsItems(orders: StoredOrders, head: Head, items: seq<Item>, x: Item)
    ensures x in InNumberingOrder(orders, head, items) <==> x in items
  {
    OrderPermutes(orders, head, items);
    assert x in multiset(InNumberingOrder(orders, head, items)) <==> x in multiset(items);
  }

  // ------------------------------------------------------------ what a node points at

  function References(items: seq<Item>): seq<MdId> {
    if items == [] then []
    else (if items[0].Ref? then [items[0].id] else []) + References(items[1..])
  }

  function InlineNodes(items: seq<Item>): (r: seq<Metadata>)
    ensures forall n :: n in r ==> Inline(n) in items
  {
    if items == [] then []
    else (if items[0].Inline? then [items[0].node] else []) + InlineNodes(items[1..])
  }

  /** Everything a node points at, in visiting order: its own references first, then
  those of each node it holds in place. */
  function VisitList(orders: StoredOrders, n: Metadata): seq<MdId>
    decreases n, 1
  {
    var items := InNumberingOrder(orders, n.head, n.items);
    assert forall x: Metadata :: x in InlineNodes(items) ==> Inline(x) in n.items by {
      forall x: Metadata | x in InlineNodes(items) ensures Inline(x) in n.items {
        OrderKeepsItems(orders, n.head, n.items, Inline(x));
      }
    }
    References(items) + VisitEach(orders, n, InlineNodes(items))
  }

  function VisitEach(orders: StoredOrders, within: Metadata, ns: seq<Metadata>): seq<MdId>
    requires forall x :: x in ns ==> Inline(x) in within.items
    decreases within, 0, |ns|
  {
    if ns == [] then []
    else
      assert Inline(ns[0]) in within.items;
      VisitList(orders, ns[0]) + VisitEach(orders, within, ns[1..])
  }
}
