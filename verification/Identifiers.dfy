/** The merges made before the structural pass: composite types by the identifier they
carry, then members of the types that claimed one. */
module Identifiers {
  import opened Wrappers
  import opened MetadataNodes
  import opened Uniquing
  import opened UniquingScan

  // --------------------------------------------------------------------- the keys

  predicate Keyed(n: Metadata, i: nat, wanted: string) {
    n.head.Named? && i < |n.items| && i < |n.head.keys| && n.head.keys[i] == wanted
  }

  function FindStr(n: Metadata, wanted: string, i: nat): Option<string>
    decreases |n.items| - i
  {
    if i >= |n.items| then None
    else if Keyed(n, i, wanted) && n.items[i].Str? then Some(n.items[i].str)
    else FindStr(n, wanted, i + 1)
  }

  function FindUnsigned(n: Metadata, wanted: string, i: nat): Option<nat>
    decreases |n.items| - i
  {
    if i >= |n.items| then None
    else if Keyed(n, i, wanted) && n.items[i].Unsigned? then Some(n.items[i].number)
    else FindUnsigned(n, wanted, i + 1)
  }

  function FindRef(n: Metadata, wanted: string, i: nat): Option<MdId>
    decreases |n.items| - i
  {
    if i >= |n.items| then None
    else if Keyed(n, i, wanted) && n.items[i].Ref? then Some(n.items[i].id)
    else FindRef(n, wanted, i + 1)
  }

  datatype OdrKey = OdrKey(tag: nat, identifier: string)

  /** The tag and identifier of a composite type that carries one. */
  function OdrKeyOf(n: Metadata): Option<OdrKey> {
    if !n.head.Named? || n.head.tag != "DICompositeType" then None
    else
      var identifier := FindStr(n, "identifier", 0);
      if identifier.None? || identifier.value == "" then None
      else
        var tag := FindUnsigned(n, "tag", 0);
        if tag.None? then None else Some(OdrKey(tag.value, identifier.value))
  }

  datatype MemberKey = DerivedType(scope: MdId, tag: nat, name: string) | Subprogram(scope: MdId, linkageName: string)

  /** What a member of a type with an identifier is merged on. */
  function MemberKeyOf(n: Metadata): Option<MemberKey> {
    if !n.head.Named? then None
    else
      var scope := FindRef(n, "scope", 0);
      if scope.None? then None
      else if n.head.tag == "DIDerivedType" then
        var tag, name := FindUnsigned(n, "tag", 0), FindStr(n, "name", 0);
        if tag.None? || name.None? then None else Some(DerivedType(scope.value, tag.value, name.value))
      else if n.head.tag == "DISubprogram" then
        var linkage := FindStr(n, "linkageName", 0);
        if linkage.None? then None else Some(Subprogram(scope.value, linkage.value))
      else None
  }

  lemma {:induction false} SimilarFinds(a: Metadata, b: Metadata, wanted: string, i: nat)
    requires Similar(a, b, Anything())
    ensures FindStr(a, wanted, i) == FindStr(b, wanted, i)
    ensures FindUnsigned(a, wanted, i) == FindUnsigned(b, wanted, i)
    decreases |a.items| - i
  {
    if i < |a.items| {
      assert SimilarItem(a.items[i], b.items[i], Anything());
      SimilarFinds(a, b, wanted, i + 1);
    }
  }

  /** Identifiers are leaves, so nodes alike but for their references share them. */
  lemma SimilarShareOdrKey(a: Metadata, b: Metadata)
    requires Similar(a, b, Anything())
    ensures OdrKeyOf(a) == OdrKeyOf(b)
  {
    SimilarFinds(a, b, "identifier", 0);
    SimilarFinds(a, b, "tag", 0);
  }

  // ------------------------------------------------------------ claiming identifiers

  type Nodes = seq<Option<Metadata>>

  function OdrKeys(nodes: Nodes): (keys: seq<Option<OdrKey>>)
    ensures |keys| == |nodes|
  {
    seq(|nodes|, i requires 0 <= i < |nodes| => if nodes[i].Some? then OdrKeyOf(nodes[i].value) else None)
  }

  /** The member keys that can merge, indexed as the nodes are: `distinct` ones have none. */
  function MemberKeys(nodes: Nodes): (keys: seq<Option<MemberKey>>)
    ensures |keys| == |nodes|
  {
    seq(|nodes|, i requires 0 <= i < |nodes| =>
      if nodes[i].Some? && !nodes[i].value.IsDistinct() then MemberKeyOf(nodes[i].value) else None)
  }

  datatype Holder = Holder(tag: nat, first: MdId)

  datatype Claims = Claims(byIdentifier: map<string, Holder>, canonical: Canonical, claimed: set<MdId>)

  function ClaimNode(s: Claims, id: MdId, key: Option<OdrKey>): Claims {
    if key.None? then s
    else if key.value.identifier in s.byIdentifier then
      var holder := s.byIdentifier[key.value.identifier];
      if holder.tag == key.value.tag then s.(canonical := s.canonical[id := holder.first]) else s
    else
      s.(byIdentifier := s.byIdentifier[key.value.identifier := Holder(key.value.tag, id)],
         claimed := s.claimed + {id})
  }

  function ClaimUpTo(keys: seq<Option<OdrKey>>, n: nat): Claims
    requires n <= |keys|
  {
    if n == 0 then Claims(map[], map[], {}) else ClaimNode(ClaimUpTo(keys, n - 1), n - 1, keys[n - 1])
  }

  /** Whether a node with this key lost its identifier to an earlier node of its tag. */
  predicate Loses(s: Claims, id: MdId, key: Option<OdrKey>) {
    && key.Some? && id !in s.claimed
    && key.value.identifier in s.byIdentifier && s.byIdentifier[key.value.identifier].tag == key.value.tag
  }

  ghost predicate Names(keys: seq<Option<OdrKey>>, s: Claims, identifier: string)
    requires identifier in s.byIdentifier
  {
    var first := s.byIdentifier[identifier].first;
    first in s.claimed && first < |keys| && keys[first].Some? && keys[first].value.identifier == identifier
  }

  ghost predicate ClaimsFacts(keys: seq<Option<OdrKey>>, s: Claims, n: nat)
    requires n <= |keys|
  {
    && (forall k :: k in s.byIdentifier ==> Names(keys, s, k))
    && (forall id: MdId :: id in s.claimed ==> id < n && keys[id].Some?)
    && (forall id: MdId :: id in s.canonical ==> id < n)
    && (forall id: MdId :: id < n ==> (id in s.canonical <==> Loses(s, id, keys[id])))
    && (forall id: MdId :: id in s.canonical ==>
          s.canonical[id] < id && s.canonical[id] == s.byIdentifier[keys[id].value.identifier].first)
    && (forall id: MdId :: id < n && keys[id].Some? ==> keys[id].value.identifier in s.byIdentifier)
  }

  lemma ClaimStep(keys: seq<Option<OdrKey>>, s: Claims, n: nat)
    requires n < |keys| && ClaimsFacts(keys, s, n)
    ensures ClaimsFacts(keys, ClaimNode(s, n, keys[n]), n + 1)
  {
    if keys[n].Some? && keys[n].value.identifier !in s.byIdentifier {
      ClaimTakes(keys, s, n);
    } else {
      ClaimMerges(keys, s, n);
    }
  }

  lemma ClaimTakes(keys: seq<Option<OdrKey>>, s: Claims, n: nat)
    requires n < |keys| && ClaimsFacts(keys, s, n)
    requires keys[n].Some? && keys[n].value.identifier !in s.byIdentifier
    ensures ClaimsFacts(keys, ClaimNode(s, n, keys[n]), n + 1)
  {
    var t := ClaimNode(s, n, keys[n]);
    forall k | k in t.byIdentifier ensures Names(keys, t, k) {
      if k in s.byIdentifier {
        assert Names(keys, s, k);
      }
    }
  }

  lemma ClaimMerges(keys: seq<Option<OdrKey>>, s: Claims, n: nat)
    requires n < |keys| && ClaimsFacts(keys, s, n)
    requires keys[n].None? || keys[n].value.identifier in s.byIdentifier
    ensures ClaimsFacts(keys, ClaimNode(s, n, keys[n]), n + 1)
  {
    var t := ClaimNode(s, n, keys[n]);
    forall k | k in t.byIdentifier ensures Names(keys, t, k) {
      assert Names(keys, s, k);
    }
  }

  lemma {:induction false} ClaimsHold(keys: seq<Option<OdrKey>>, n: nat, s: Claims)
    requires n <= |keys| && s == ClaimUpTo(keys, n)
    ensures ClaimsFacts(keys, s, n)
  {
    if n > 0 {
      var before := ClaimUpTo(keys, n - 1);
      ClaimsHold(keys, n - 1, before);
      ClaimStep(keys, before, n - 1);
    }
  }

  /** The holder of an identifier is the node that claimed it, with its tag. */
  lemma {:induction false} ClaimHolders(keys: seq<Option<OdrKey>>, n: nat)
    requires n <= |keys|
    ensures var s := ClaimUpTo(keys, n);
            && (forall k :: k in s.byIdentifier ==>
                  var h := s.byIdentifier[k]; h.first < n && keys[h.first] == Some(OdrKey(h.tag, k)))
            && (forall id: MdId :: id in s.claimed ==>
                  id < n && keys[id].Some? && keys[id].value.identifier in s.byIdentifier
                  && s.byIdentifier[keys[id].value.identifier].first == id)
  {
    if n > 0 {
      ClaimHolders(keys, n - 1);
    }
  }

  /** Where no identifier is carried twice, every node with one claims it. */
  lemma {:induction false} DistinctClaims(keys: seq<Option<OdrKey>>, n: nat)
    requires n <= |keys|
    requires forall i: nat, j: nat :: i < j < |keys| && keys[i].Some? && keys[j].Some? ==>
               keys[i].value.identifier != keys[j].value.identifier
    ensures var s := ClaimUpTo(keys, n);
            s.canonical == map[] && forall id: MdId :: id in s.claimed <==> id < n && keys[id].Some?
  {
    if n > 0 {
      DistinctClaims(keys, n - 1);
      ClaimHolders(keys, n - 1);
    }
  }

  // ------------------------------------------------------------------ merging members

  datatype Members = Members(byMember: map<MemberKey, MdId>, canonical: Canonical, members: set<MdId>)

  function MemberNode(claimed: set<MdId>, s: Members, id: MdId, written: Option<MemberKey>): Members {
    if written.None? then s
    else
      var key := written.value.(scope := Resolve(s.canonical, written.value.scope));
      if key.scope !in claimed then s
      else if key in s.byMember then
        s.(canonical := s.canonical[id := s.byMember[key]], members := s.members + {id})
      else
        s.(byMember := s.byMember[key := id], members := s.members + {id})
  }

  function MembersUpTo(claims: Claims, keys: seq<Option<MemberKey>>, n: nat): Members
    requires n <= |keys|
  {
    if n == 0 then Members(map[], claims.canonical, {})
    else MemberNode(claims.claimed, MembersUpTo(claims, keys, n - 1), n - 1, keys[n - 1])
  }

  ghost predicate MembersFacts(claims: Claims, keys: seq<Option<MemberKey>>, s: Members, n: nat)
    requires n <= |keys|
  {
    && (forall id: MdId :: id in s.members ==> id < n && keys[id].Some?)
    && (forall k :: k in s.byMember ==> s.byMember[k] in s.members && s.byMember[k] !in s.canonical)
    && (forall id: MdId :: id in s.canonical ==> id in claims.canonical || id in s.members)
    && (forall id: MdId :: id in claims.canonical ==> id in s.canonical && s.canonical[id] == claims.canonical[id])
    && (forall id: MdId :: id in s.canonical && id in s.members ==>
          s.canonical[id] in s.members && s.canonical[id] !in s.canonical && s.canonical[id] < id)
  }

  /** No node is both a composite type and a member. */
  ghost predicate Apart(claims: Claims, keys: seq<Option<MemberKey>>) {
    forall id: MdId :: id < |keys| && keys[id].Some? ==> id !in claims.claimed && id !in claims.canonical
  }

  lemma {:induction false} MembersHold(claims: Claims, keys: seq<Option<MemberKey>>, n: nat)
    requires n <= |keys| && Apart(claims, keys)
    ensures MembersFacts(claims, keys, MembersUpTo(claims, keys, n), n)
  {
    if n > 0 {
      MembersHold(claims, keys, n - 1);
    }
  }

  /** A node with a key is a member where its scope, as merged when it is come to, claimed an
  identifier; it is then first with its key or merged. */
  ghost predicate IsPlaced(claims: Claims, keys: seq<Option<MemberKey>>, s: Members, id: MdId)
    requires id < |keys| && keys[id].Some?
  {
    var key := KeyAt(claims, keys, id);
    && (id in s.members <==> key.scope in claims.claimed)
    && (key.scope in claims.claimed ==> key in s.byMember && (s.byMember[key] == id || id in s.canonical))
  }

  function KeyAt(claims: Claims, keys: seq<Option<MemberKey>>, id: MdId): MemberKey
    requires id < |keys| && keys[id].Some?
  {
    keys[id].value.(scope := Resolve(MembersUpTo(claims, keys, id).canonical, keys[id].value.scope))
  }

  lemma {:induction false} MembersArePlaced(claims: Claims, keys: seq<Option<MemberKey>>, n: nat)
    requires n <= |keys|
    ensures forall id: MdId :: id in MembersUpTo(claims, keys, n).members ==> id < n
    ensures forall id: MdId :: id < n && keys[id].Some? ==> IsPlaced(claims, keys, MembersUpTo(claims, keys, n), id)
  {
    if n > 0 {
      MembersArePlaced(claims, keys, n - 1);
      var s, t := MembersUpTo(claims, keys, n - 1), MembersUpTo(claims, keys, n);
      forall id: MdId | id < n && keys[id].Some? ensures IsPlaced(claims, keys, t, id) {
        if id < n - 1 {
          assert IsPlaced(claims, keys, s, id);
        }
      }
    }
  }

  /** Where nothing is merged before, and no two members share a key, none is merged. */
  lemma {:induction false} DistinctMembers(claims: Claims, keys: seq<Option<MemberKey>>, n: nat)
    requires n <= |keys| && claims.canonical == map[]
    requires forall i: nat, j: nat :: i < j < |keys| && keys[i].Some? && keys[i].value.scope in claims.claimed ==> keys[i] != keys[j]
    ensures var s := MembersUpTo(claims, keys, n);
            && s.canonical == map[]
            && (forall id: MdId :: id in s.members <==> id < n && keys[id].Some? && keys[id].value.scope in claims.claimed)
            && (forall k :: k in s.byMember ==> s.byMember[k] < n && keys[s.byMember[k]] == Some(k) && k.scope in claims.claimed)
  {
    if n > 0 {
      DistinctMembers(claims, keys, n - 1);
    }
  }

  lemma MemberHasNoIdentifier(n: Metadata)
    ensures MemberKeyOf(n).Some? ==> OdrKeyOf(n).None?
  {
  }

  lemma KeysApart(nodes: Nodes, claims: Claims)
    requires ClaimsFacts(OdrKeys(nodes), claims, |nodes|)
    ensures Apart(claims, MemberKeys(nodes))
  {
    forall id: MdId | id < |nodes| && MemberKeys(nodes)[id].Some? ensures OdrKeys(nodes)[id].None? {
      MemberHasNoIdentifier(nodes[id].value);
    }
  }

  /** The nodes that took an identifier, which are written `distinct`. */
  function ClaimedIn(nodes: Nodes): set<MdId> {
    ClaimUpTo(OdrKeys(nodes), |nodes|).claimed
  }

  /** What the structural pass starts from. */
  function StartOf(nodes: Nodes): Setting {
    var claims := ClaimUpTo(OdrKeys(nodes), |nodes|);
    var members := MembersUpTo(claims, MemberKeys(nodes), |nodes|);
    Setting(nodes, members.canonical, claims.claimed + members.members)
  }

  lemma StartFacts(nodes: Nodes)
    ensures var claims := ClaimUpTo(OdrKeys(nodes), |nodes|);
            && ClaimsFacts(OdrKeys(nodes), claims, |nodes|)
            && Apart(claims, MemberKeys(nodes))
            && MembersFacts(claims, MemberKeys(nodes), MembersUpTo(claims, MemberKeys(nodes), |nodes|), |nodes|)
  {
    var claims := ClaimUpTo(OdrKeys(nodes), |nodes|);
    ClaimsHold(OdrKeys(nodes), |nodes|, claims);
    KeysApart(nodes, claims);
    MembersHold(claims, MemberKeys(nodes), |nodes|);
  }

  lemma BaseEntry(nodes: Nodes, id: MdId)
    requires id in StartOf(nodes).base
    ensures var g := StartOf(nodes);
            g.base[id] < id && g.Present(id) && g.base[id] !in g.base && !g.Participates(g.base[id])
  {
    StartFacts(nodes);
    var claims := ClaimUpTo(OdrKeys(nodes), |nodes|);
    if id in claims.canonical {
      assert OdrKeys(nodes)[id].Some?;
      assert claims.canonical[id] in claims.claimed;
      assert Loses(claims, id, OdrKeys(nodes)[id]);
    } else {
      assert MemberKeys(nodes)[id].Some?;
    }
  }

  lemma StartIsValid(nodes: Nodes)
    ensures StartOf(nodes).Valid()
  {
    var g := StartOf(nodes);
    forall id | id in g.base
      ensures g.base[id] < id && g.Present(id) && g.base[id] !in g.base && !g.Participates(g.base[id])
    {
      BaseEntry(nodes, id);
    }
    forall a: MdId, b: MdId | g.Participates(a) && g.Participates(b) && a in g.base
                              && Similar(nodes[a].value, nodes[b].value, Anything())
      ensures b in g.base && g.base[b] == g.base[a]
    {
      StartFacts(nodes);
      SimilarShareOdrKey(nodes[a].value, nodes[b].value);
      var claims, keys := ClaimUpTo(OdrKeys(nodes), |nodes|), OdrKeys(nodes);
      assert a in claims.canonical && Loses(claims, a, keys[a]);
      assert Loses(claims, b, keys[b]);
    }
  }

  /** A module no node of which carries an identifier starts from nothing merged. */
  lemma WithoutIdentifiers(nodes: Nodes)
    requires forall id: MdId :: id < |nodes| && nodes[id].Some? ==> OdrKeyOf(nodes[id].value).None?
    ensures StartOf(nodes) == Setting(nodes, map[], {})
  {
    var claims := ClaimUpTo(OdrKeys(nodes), |nodes|);
    StartFacts(nodes);
    assert forall id: MdId :: id < |nodes| ==> OdrKeys(nodes)[id].None?;
    assert claims.claimed == {} && claims.canonical == map[];
    NoClaimsNoMembers(claims, MemberKeys(nodes), |nodes|);
  }

  lemma {:induction false} NoClaimsNoMembers(claims: Claims, keys: seq<Option<MemberKey>>, n: nat)
    requires n <= |keys| && claims.claimed == {} && claims.canonical == map[]
    ensures MembersUpTo(claims, keys, n) == Members(map[], map[], {})
  {
    if n > 0 {
      NoClaimsNoMembers(claims, keys, n - 1);
    }
  }

  // ------------------------------------------------------------------- the whole pass

  /** The two merging passes, one after the other. */
  method MergeByIdentifier(nodes: Nodes) returns (g: Setting, claimed: set<MdId>)
    ensures g == StartOf(nodes) && claimed == ClaimUpTo(OdrKeys(nodes), |nodes|).claimed
  {
    var canonical: Canonical := map[];
    var byIdentifier: map<string, Holder> := map[];
    claimed := {};
    for id := 0 to |nodes|
      invariant ClaimUpTo(OdrKeys(nodes), id) == Claims(byIdentifier, canonical, claimed)
    {
      if nodes[id].Some? {
        var odr := OdrKeyOf(nodes[id].value);
        if odr.Some? {
          var OdrKey(tag, identifier) := odr.value;
          if identifier in byIdentifier {
            if byIdentifier[identifier].tag == tag {
              canonical := canonical[id := byIdentifier[identifier].first];
            }
          } else {
            byIdentifier := byIdentifier[identifier := Holder(tag, id)];
            claimed := claimed + {id};
          }
        }
      }
    }
    ghost var claims := Claims(byIdentifier, canonical, claimed);
    var byMember: map<MemberKey, MdId> := map[];
    var members: set<MdId> := {};
    for id := 0 to |nodes|
      invariant MembersUpTo(claims, MemberKeys(nodes), id) == Members(byMember, canonical, members)
    {
      if nodes[id].Some? && !nodes[id].value.IsDistinct() {
        var written := MemberKeyOf(nodes[id].value);
        if written.Some? {
          var key := written.value.(scope := Resolve(canonical, written.value.scope));
          if key.scope in claimed {
            if key in byMember {
              canonical := canonical[id := byMember[key]];
            } else {
              byMember := byMember[key := id];
            }
            members := members + {id};
          }
        }
      }
    }
    g := Setting(nodes, canonical, claimed + members);
  }

  /** Metadata uniquing as a whole: the map it returns sends nodes to one root exactly
  when they are congruent, the root being the lowest of them. */
  method Unique(nodes: Nodes, ghost last: nat) returns (canonical: Canonical, claimed: set<MdId>)
    requires !FullScan(StartOf(nodes), AfterScans(StartOf(nodes), last)).changed
    ensures Exits(StartOf(nodes), canonical)
    ensures exists scans: nat :: scans <= last + 1 && canonical == AfterScans(StartOf(nodes), scans)
    ensures claimed == ClaimUpTo(OdrKeys(nodes), |nodes|).claimed
    ensures forall a: MdId, b: MdId :: ResolveIn(canonical, a) == ResolveIn(canonical, b) <==> Congruent(StartOf(nodes), a, b)
  {
    StartIsValid(nodes);
    var g;
    g, claimed := MergeByIdentifier(nodes);
    ghost var scans;
    canonical, scans := UniqueNodes(g, last);
  }

  // -------------------------------------------------------------- where one step fails

  /** `!DICompositeType(tag: 19, identifier: "t", name: ...)` */
  function Composite(name: string): Metadata {
    Metadata(Named(false, "DICompositeType", ["tag", "name", "identifier"]),
             [Unsigned(19), Str(name), Str("t")])
  }

  const ThreeOfOneType: Nodes := [Some(Composite("a")), Some(Composite("b")), Some(Composite("b"))]

  lemma CompositeHasKey(name: string)
    ensures OdrKeyOf(Composite(name)) == Some(OdrKey(19, "t"))
  {
    var n := Composite(name);
    assert Keyed(n, 0, "tag") && !Keyed(n, 0, "identifier") && !Keyed(n, 1, "identifier") && Keyed(n, 2, "identifier");
    assert FindUnsigned(n, "tag", 0) == Some(19);
    assert FindStr(n, "identifier", 2) == Some("t");
    assert FindStr(n, "identifier", 1) == Some("t");
  }

  lemma ThreeClaims(key: Option<OdrKey>)
    requires key == Some(OdrKey(19, "t"))
    ensures ClaimUpTo([key, key, key], 3) == Claims(map["t" := Holder(19, 0)], map[1 := 0, 2 := 0], {0})
  {
    var keys := [key, key, key];
    assert ClaimUpTo(keys, 1) == Claims(map["t" := Holder(19, 0)], map[], {0});
    assert ClaimUpTo(keys, 2) == Claims(map["t" := Holder(19, 0)], map[1 := 0], {0});
  }

  lemma ThreeStart()
    ensures var g := StartOf(ThreeOfOneType);
            g.nodes == ThreeOfOneType && 1 in g.base && g.Participates(1) && g.Participates(2)
  {
    CompositeHasKey("a");
    CompositeHasKey("b");
    StartFacts(ThreeOfOneType);
    var key: Option<OdrKey> := Some(OdrKey(19, "t"));
    assert OdrKeys(ThreeOfOneType) == [key, key, key];
    ThreeClaims(key);
    MemberHasNoIdentifier(Composite("b"));
    assert MemberKeys(ThreeOfOneType)[1].None? && MemberKeys(ThreeOfOneType)[2].None?;
  }

  lemma CompositesAlike(g: Setting)
    requires g.nodes == ThreeOfOneType && g.Participates(1) && g.Participates(2)
    ensures AlikeCongruent(g, 1, 2)
  {
    RefsAllTrue(Composite("b"));
    var r := ByHeight(g, 0);
    SimilarRefl(Composite("b"), id => true, r);
    assert Alike(g, 1, 2, r);
  }

  /** Two equal definitions that lose to a third form a chain of two steps, so the one
  step the printer takes from the last stops short of the node that claimed the name. */
  lemma OneStepFallsShort(c: Canonical)
    requires Exits(StartOf(ThreeOfOneType), c)
    ensures !(forall id: MdId :: Resolve(c, id) == ResolveIn(c, id))
  {
    StartIsValid(ThreeOfOneType);
    ThreeStart();
    CompositesAlike(StartOf(ThreeOfOneType));
    assert Collide(StartOf(ThreeOfOneType), 1, 2);
    OneStepIsEnough(StartOf(ThreeOfOneType), c);
  }
}
