/** Metadata nodes as the printer sees them, and comparing two of them up to a
relation between the nodes they refer to. */
module MetadataNodes {

  type MdId = nat

  /** One operand of a tuple or one field of a specialized node. `Text` is any leaf
  that is written out and points nowhere: null, a flag word, a typed value. */
  datatype Item =
    | Text(text: string)
    | Str(str: string)
    | Unsigned(number: nat)
    | Ref(id: MdId)
    | Inline(node: Metadata)

  /** What a node is apart from what it holds. A named head keys its items in order. */
  datatype Head =
    | String(text: string)
    | Tuple(distinct: bool)
    | Named(distinct: bool, tag: string, keys: seq<string>)
    | Positional(distinct: bool, tag: string)

  datatype Metadata = Metadata(head: Head, items: seq<Item>) {
    predicate IsDistinct() {
      !head.String? && head.distinct
    }

    /** These two kinds print at every use and are never numbered. */
    predicate PrintsInPlace() {
      (head.Named? || head.Positional?) && (head.tag == "DIExpression" || head.tag == "DIArgList")
    }
  }

  /** The node under a renaming of ids, applied to references at any depth. */
  function MapRefs(n: Metadata, f: MdId -> MdId): Metadata {
    Metadata(n.head, seq(|n.items|, i requires 0 <= i < |n.items| => MapItem(n.items[i], f)))
  }

  function MapItem(item: Item, f: MdId -> MdId): Item {
    match item
    case Ref(id) => Ref(f(id))
    case Inline(node) => Inline(MapRefs(node, f))
    case _ => item
  }

  /** Equal but for the references, which are pairwise related. */
  ghost predicate Similar(a: Metadata, b: Metadata, related: (MdId, MdId) -> bool) {
    && a.head == b.head && |a.items| == |b.items|
    && forall i :: 0 <= i < |a.items| ==> SimilarItem(a.items[i], b.items[i], related)
  }

  ghost predicate SimilarItem(a: Item, b: Item, related: (MdId, MdId) -> bool) {
    match a
    case Ref(id) => b.Ref? && related(id, b.id)
    case Inline(node) => b.Inline? && Similar(node, b.node, related)
    case _ => a == b
  }

  /** Every reference in the node, nested ones too, satisfies `p`. */
  ghost predicate RefsAll(n: Metadata, p: MdId -> bool) {
    forall i :: 0 <= i < |n.items| ==> RefsAllItem(n.items[i], p)
  }

  ghost predicate RefsAllItem(item: Item, p: MdId -> bool) {
    match item
    case Ref(id) => p(id)
    case Inline(node) => RefsAll(node, p)
    case _ => true
  }

  // ------------------------------------------- comparing by rewritten references

  ghost function Same(f: MdId -> MdId, g: MdId -> MdId): (MdId, MdId) -> bool {
    (x: MdId, y: MdId) => f(x) == g(y)
  }

  /** Two rewritten nodes are equal exactly when the nodes are similar and their
  references are rewritten alike. */
  lemma {:induction false} MapRefsEqual(a: Metadata, b: Metadata, f: MdId -> MdId, g: MdId -> MdId)
    ensures MapRefs(a, f) == MapRefs(b, g) <==> Similar(a, b, Same(f, g))
  {
    var x, y := MapRefs(a, f), MapRefs(b, g);
    if |a.items| == |b.items| {
      forall i | 0 <= i < |a.items|
        ensures x.items[i] == y.items[i] <==> SimilarItem(a.items[i], b.items[i], Same(f, g))
      {
        MapItemEqual(a.items[i], b.items[i], f, g);
      }
    } else {
      assert |x.items| != |y.items|;
    }
  }

  lemma {:induction false} MapItemEqual(a: Item, b: Item, f: MdId -> MdId, g: MdId -> MdId)
    ensures MapItem(a, f) == MapItem(b, g) <==> SimilarItem(a, b, Same(f, g))
  {
    if a.Inline? && b.Inline? {
      MapRefsEqual(a.node, b.node, f, g);
    }
  }

  // -------------------------------------------------------- similarity relations

  ghost predicate Implies(r: (MdId, MdId) -> bool, s: (MdId, MdId) -> bool) {
    forall x: MdId, y: MdId :: r(x, y) ==> s(x, y)
  }

  lemma {:induction false} SimilarMono(a: Metadata, b: Metadata, r: (MdId, MdId) -> bool, s: (MdId, MdId) -> bool)
    requires Similar(a, b, r) && Implies(r, s)
    ensures Similar(a, b, s)
  {
    forall i | 0 <= i < |a.items| ensures SimilarItem(a.items[i], b.items[i], s) {
      assert SimilarItem(a.items[i], b.items[i], r);
      if a.items[i].Inline? {
        SimilarMono(a.items[i].node, b.items[i].node, r, s);
      }
    }
  }

  lemma {:induction false} SimilarSym(a: Metadata, b: Metadata, r: (MdId, MdId) -> bool)
    requires Similar(a, b, r) && forall x: MdId, y: MdId :: r(x, y) ==> r(y, x)
    ensures Similar(b, a, r)
  {
    forall i | 0 <= i < |a.items| ensures SimilarItem(b.items[i], a.items[i], r) {
      assert SimilarItem(a.items[i], b.items[i], r);
      if a.items[i].Inline? {
        SimilarSym(a.items[i].node, b.items[i].node, r);
      }
    }
  }

  lemma {:induction false} SimilarTrans(a: Metadata, b: Metadata, c: Metadata, r: (MdId, MdId) -> bool)
    requires Similar(a, b, r) && Similar(b, c, r)
    requires forall x: MdId, y: MdId, z: MdId :: r(x, y) && r(y, z) ==> r(x, z)
    ensures Similar(a, c, r)
  {
    forall i | 0 <= i < |a.items| ensures SimilarItem(a.items[i], c.items[i], r) {
      assert SimilarItem(a.items[i], b.items[i], r) && SimilarItem(b.items[i], c.items[i], r);
      if a.items[i].Inline? {
        SimilarTrans(a.items[i].node, b.items[i].node, c.items[i].node, r);
      }
    }
  }

  /** A property of the references of one node carries over to a similar one, and the
  references that have it are related more closely when the relation says so. */
  lemma {:induction false} SimilarRefine(a: Metadata, b: Metadata, r: (MdId, MdId) -> bool,
                                         p: MdId -> bool, s: (MdId, MdId) -> bool)
    requires Similar(a, b, r) && RefsAll(a, p)
    requires forall x: MdId, y: MdId :: r(x, y) && p(x) ==> s(x, y)
    ensures Similar(a, b, s)
  {
    forall i | 0 <= i < |a.items| ensures SimilarItem(a.items[i], b.items[i], s) {
      assert SimilarItem(a.items[i], b.items[i], r) && RefsAllItem(a.items[i], p);
      if a.items[i].Inline? {
        SimilarRefine(a.items[i].node, b.items[i].node, r, p, s);
      }
    }
  }

  lemma {:induction false} SimilarRefl(a: Metadata, p: MdId -> bool, r: (MdId, MdId) -> bool)
    requires RefsAll(a, p) && forall x: MdId :: p(x) ==> r(x, x)
    ensures Similar(a, a, r)
  {
    forall i | 0 <= i < |a.items| ensures SimilarItem(a.items[i], a.items[i], r) {
      assert RefsAllItem(a.items[i], p);
      if a.items[i].Inline? {
        SimilarRefl(a.items[i].node, p, r);
      }
    }
  }

  lemma {:induction false} RefsAllMono(n: Metadata, p: MdId -> bool, q: MdId -> bool)
    requires RefsAll(n, p) && forall x: MdId :: p(x) ==> q(x)
    ensures RefsAll(n, q)
  {
    forall i | 0 <= i < |n.items| ensures RefsAllItem(n.items[i], q) {
      assert RefsAllItem(n.items[i], p);
      if n.items[i].Inline? {
        RefsAllMono(n.items[i].node, p, q);
      }
    }
  }

  lemma {:induction false} RefsAllTrue(n: Metadata)
    ensures RefsAll(n, id => true)
  {
    forall i | 0 <= i < |n.items| ensures RefsAllItem(n.items[i], id => true) {
      if n.items[i].Inline? {
        RefsAllTrue(n.items[i].node);
      }
    }
  }
}
