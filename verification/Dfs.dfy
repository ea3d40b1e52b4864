/** Depth-first search that records each node when it is first met.

The metadata numbering and the type finder are both this walk: a recursive visit
that returns at once on a node it has seen, and otherwise records it and visits
what it points at, left to right. `Dfs` says what such a walk leaves in its
record when the pending visits are kept in a list; the lemmas say what that
record is, without mentioning a walk. */
module DepthFirst {

  type Graph<!N> = map<N, seq<N>>

  function Elements<N>(s: seq<N>): set<N> {
    set x | x in s
  }

  ghost predicate Distinct<N>(s: seq<N>) {
    forall i, j :: 0 <= i < j < |s| ==> s[i] != s[j]
  }

  /** The record after visiting every node of `work` in order. A node the graph
  does not hold is passed over. */
  function Dfs<N(==)>(g: Graph<N>, seen: seq<N>, work: seq<N>): (order: seq<N>)
    ensures seen <= order
    decreases g.Keys - Elements(seen), |work|
  {
    if work == [] then seen
    else if work[0] !in g || work[0] in seen then Dfs(g, seen, work[1..])
    else
      assert work[0] in g.Keys - Elements(seen) && work[0] !in g.Keys - Elements(seen + [work[0]]);
      assert g.Keys - Elements(seen + [work[0]]) <= g.Keys - Elements(seen);
      Dfs(g, seen + [work[0]], g[work[0]] + work[1..])
  }

  /** Visiting two lists one after the other is visiting their concatenation. */
  lemma {:induction false} DfsAppend<N>(g: Graph<N>, seen: seq<N>, a: seq<N>, b: seq<N>)
    ensures Dfs(g, seen, a + b) == Dfs(g, Dfs(g, seen, a), b)
    decreases g.Keys - Elements(seen), |a|
  {
    if a == [] {
      assert a + b == b;
    } else {
      assert (a + b)[0] == a[0] && (a + b)[1..] == a[1..] + b;
      if a[0] !in g || a[0] in seen {
        DfsAppend(g, seen, a[1..], b);
      } else {
        assert a[0] in g.Keys - Elements(seen) && a[0] !in g.Keys - Elements(seen + [a[0]]);
        assert g[a[0]] + (a[1..] + b) == (g[a[0]] + a[1..]) + b;
        DfsAppend(g, seen + [a[0]], g[a[0]] + a[1..], b);
      }
    }
  }

  /** Visiting one node: what the recursive `visit` does. */
  lemma DfsVisit<N>(g: Graph<N>, seen: seq<N>, n: N)
    ensures n !in g || n in seen ==> Dfs(g, seen, [n]) == seen
    ensures n in g && n !in seen ==> Dfs(g, seen, [n]) == Dfs(g, seen + [n], g[n])
  {
    if n in g && n !in seen {
      assert g[n] + [n][1..] == g[n];
    }
  }

  // ------------------------------------------------------------ what is recorded

  /** A walk along edges of the graph; every node but the last is held by it. */
  ghost predicate IsPath<N(!new)>(g: Graph<N>, p: seq<N>) {
    |p| > 0 && forall i :: 0 <= i < |p| - 1 ==> p[i] in g && p[i + 1] in g[p[i]]
  }

  ghost predicate Reachable<N(!new)>(g: Graph<N>, roots: seq<N>, n: N) {
    n in g && exists p :: IsPath(g, p) && p[0] in roots && p[|p| - 1] == n
  }

  ghost predicate ClosedUpTo<N(!new)>(g: Graph<N>, seen: seq<N>, work: seq<N>) {
    forall n, t :: n in seen && n in g && t in g[n] && t in g ==> t in seen || t in work
  }

  lemma {:induction false} DfsRecords<N(!new)>(g: Graph<N>, seen: seq<N>, work: seq<N>)
    requires Distinct(seen) && Elements(seen) <= g.Keys
    requires ClosedUpTo(g, seen, work)
    ensures var order := Dfs(g, seen, work);
            && Distinct(order) && Elements(order) <= g.Keys
            && ClosedUpTo(g, order, [])
            && (forall n :: n in work && n in g ==> n in order)
    decreases g.Keys - Elements(seen), |work|
  {
    if work == [] {
    } else if work[0] !in g || work[0] in seen {
      DfsRecords(g, seen, work[1..]);
      assert forall n :: n in work ==> n == work[0] || n in work[1..];
    } else {
      assert work[0] in g.Keys - Elements(seen) && work[0] !in g.Keys - Elements(seen + [work[0]]);
      var seen', work' := seen + [work[0]], g[work[0]] + work[1..];
      assert Elements(seen') == Elements(seen) + {work[0]};
      assert forall n :: n in work ==> n == work[0] || n in work[1..];
      DfsRecords(g, seen', work');
      assert work[0] == seen'[|seen|] && seen' <= Dfs(g, seen', work');
      assert work[0] in Dfs(g, seen', work');
    }
  }

  lemma {:induction false} DfsOnlyReachable<N(!new)>(g: Graph<N>, roots: seq<N>, seen: seq<N>, work: seq<N>)
    requires forall n :: n in seen ==> Reachable(g, roots, n)
    requires forall n :: n in work && n in g ==> Reachable(g, roots, n)
    ensures forall n :: n in Dfs(g, seen, work) ==> Reachable(g, roots, n)
    decreases g.Keys - Elements(seen), |work|
  {
    if work == [] {
    } else if work[0] !in g || work[0] in seen {
      DfsOnlyReachable(g, roots, seen, work[1..]);
    } else {
      var n := work[0];
      assert n in g.Keys - Elements(seen) && n !in g.Keys - Elements(seen + [n]);
      var p :| IsPath(g, p) && p[0] in roots && p[|p| - 1] == n;
      forall t | t in g[n] && t in g
        ensures Reachable(g, roots, t)
      {
        var q := p + [t];
        assert IsPath(g, q) && q[0] in roots && q[|q| - 1] == t;
      }
      DfsOnlyReachable(g, roots, seen + [n], g[n] + work[1..]);
    }
  }

  lemma {:induction false} PathStaysClosed<N(!new)>(g: Graph<N>, order: seq<N>, p: seq<N>, k: nat)
    requires ClosedUpTo(g, order, []) && IsPath(g, p) && k < |p|
    requires p[0] in order && Elements(order) <= g.Keys && p[|p| - 1] in g
    ensures p[k] in order
    decreases k
  {
    if k > 0 {
      PathStaysClosed(g, order, p, k - 1);
      assert p[k - 1 + 1] in g[p[k - 1]];
      assert p[k] in g;
    }
  }

  /** The record holds each reachable node once, and nothing else. */
  lemma DfsExact<N(!new)>(g: Graph<N>, roots: seq<N>)
    ensures Distinct(Dfs(g, [], roots))
    ensures forall n :: n in Dfs(g, [], roots) <==> Reachable(g, roots, n)
  {
    var order := Dfs(g, [], roots);
    DfsRecords(g, [], roots);
    forall r | r in roots && r in g
      ensures Reachable(g, roots, r)
    {
      assert IsPath(g, [r]) && [r][0] in roots;
    }
    DfsOnlyReachable(g, roots, [], roots);
    forall n | Reachable(g, roots, n)
      ensures n in order
    {
      var p :| IsPath(g, p) && p[0] in roots && p[|p| - 1] == n;
      if |p| > 1 {
        assert p[0] in g;
      }
      PathStaysClosed(g, order, p, |p| - 1);
    }
  }

  /** A record the walk leaves is closed: what a recorded node points at is recorded. */
  lemma DfsClosed<N(!new)>(g: Graph<N>, roots: seq<N>)
    ensures ClosedUpTo(g, Dfs(g, [], roots), [])
  {
    DfsRecords(g, [], roots);
  }

  lemma DfsTarget<N(!new)>(g: Graph<N>, roots: seq<N>, n: N, t: N)
    requires n in Dfs(g, [], roots) && n in g && t in g[n] && t in g
    ensures t in Dfs(g, [], roots)
  {
    DfsClosed(g, roots);
  }

  /** What holds of the roots and of everything pointed at holds of what is recorded. */
  lemma {:induction false} DfsKeeps<N(!new)>(g: Graph<N>, p: N -> bool, seen: seq<N>, work: seq<N>)
    requires forall n :: n in seen ==> p(n)
    requires forall n :: n in work ==> p(n)
    requires forall n, t :: n in g && t in g[n] ==> p(t)
    ensures forall n :: n in Dfs(g, seen, work) ==> p(n)
    decreases g.Keys - Elements(seen), |work|
  {
    if work == [] {
    } else if work[0] !in g || work[0] in seen {
      DfsKeeps(g, p, seen, work[1..]);
    } else {
      var n := work[0];
      assert n in g.Keys - Elements(seen) && n !in g.Keys - Elements(seen + [n]);
      DfsKeeps(g, p, seen + [n], g[n] + work[1..]);
    }
  }

  // ---------------------------------------------------------- in which order

  /** The first node of `s` that the graph holds and `seen` does not. */
  function FirstNew<N(==)>(g: Graph<N>, seen: seq<N>, s: seq<N>): (r: seq<N>)
    ensures |r| <= 1
    ensures r == [] <==> forall n :: n in s && n in g ==> n in seen
  {
    if s == [] then []
    else if s[0] in g && s[0] !in seen then [s[0]]
    else FirstNew(g, seen, s[1..])
  }

  /** What depth-first order asks for next once `seen` has been met: the first new
  successor of the most recently met node that has one, or failing that the first
  new root. */
  function NextInPreorder<N(==)>(g: Graph<N>, roots: seq<N>, seen: seq<N>, upTo: nat): seq<N>
    requires upTo <= |seen|
  {
    if upTo == 0 then FirstNew(g, seen, roots)
    else
      var latest := seen[upTo - 1];
      var step := if latest in g then FirstNew(g, seen, g[latest]) else [];
      if step != [] then step else NextInPreorder(g, roots, seen, upTo - 1)
  }

  /** A sequence is the depth-first preorder when each member is the next one asked
  for by those before it, and nothing is asked for at the end. */
  ghost predicate IsPreorder<N>(g: Graph<N>, roots: seq<N>, order: seq<N>) {
    PreorderBeyond(g, roots, order, 0)
  }

  ghost predicate PreorderBeyond<N>(g: Graph<N>, roots: seq<N>, order: seq<N>, from: nat) {
    && (forall k :: from <= k < |order| ==> NextInPreorder(g, roots, order[..k], k) == [order[k]])
    && NextInPreorder(g, roots, order, |order|) == []
  }

  ghost predicate AllMet<N>(g: Graph<N>, seen: seq<N>, s: seq<N>) {
    forall i :: 0 <= i < |s| && s[i] in g ==> s[i] in seen
  }

  lemma {:induction false} FirstNewIn<N>(g: Graph<N>, seen: seq<N>, met: seq<N>, rest: seq<N>)
    requires AllMet(g, seen, met)
    ensures FirstNew(g, seen, met + rest) == FirstNew(g, seen, rest)
  {
    if met == [] {
      assert met + rest == rest;
    } else {
      assert (met + rest)[0] == met[0] && (met + rest)[1..] == met[1..] + rest;
      FirstNewIn(g, seen, met[1..], rest);
    }
  }

  /** The visits still open, innermost first: for the `at`-th node met (counting
  from one) the successors still to visit, and below all of them the roots. */
  datatype Stack<N> = Roots(rest: seq<N>) | Inside(at: nat, rest: seq<N>, below: Stack<N>)

  ghost function Pending<N>(s: Stack<N>): seq<N> {
    match s
    case Roots(rest) => rest
    case Inside(_, rest, below) => rest + Pending(below)
  }

  ghost function Targets<N>(g: Graph<N>, n: N): seq<N> {
    if n in g then g[n] else []
  }

  /** `rest` is what is left of `all` once the part before it has been met. */
  ghost predicate Split<N>(g: Graph<N>, seen: seq<N>, all: seq<N>, rest: seq<N>) {
    && |rest| <= |all| && all[|all| - |rest|..] == rest
    && AllMet(g, seen, all[..|all| - |rest|])
  }

  /** What the visit of the `k`-th node, or of the roots when `k` is nought, goes through. */
  ghost function Visited<N>(g: Graph<N>, roots: seq<N>, seen: seq<N>, k: nat): seq<N>
    requires k <= |seen|
  {
    if k == 0 then roots else Targets(g, seen[k - 1])
  }

  /** What is left of the visit of the `k`-th node; nothing is left of one that is closed. */
  ghost function LeftOf<N>(s: Stack<N>, k: nat): seq<N> {
    match s
    case Roots(rest) => if k == 0 then rest else []
    case Inside(at, rest, below) => if k == at then rest else LeftOf(below, k)
  }

  ghost predicate Nested<N>(s: Stack<N>, n: nat) {
    s.Inside? ==> 0 < s.at <= n && Nested(s.below, s.at - 1)
  }

  /** The open visits hold all that is not yet met. */
  ghost predicate Stacked<N(!new)>(g: Graph<N>, roots: seq<N>, seen: seq<N>, s: Stack<N>) {
    && Nested(s, |seen|)
    && forall k :: 0 <= k <= |seen| ==> Split(g, seen, Visited(g, roots, seen, k), LeftOf(s, k))
  }

  function Top<N>(s: Stack<N>): nat {
    if s.Inside? then s.at else 0
  }

  lemma {:induction false} NestedMore<N>(s: Stack<N>, m: nat, n: nat)
    requires Nested(s, m) && m <= n
    ensures Nested(s, n)
  {
  }

  /** Nothing is left above the innermost visit, which is where its own rest is. */
  lemma {:induction false} LeftAbove<N>(s: Stack<N>, n: nat, k: nat)
    requires Nested(s, n) && Top(s) <= k
    ensures LeftOf(s, k) == if k == Top(s) then s.rest else []
    decreases s
  {
    if s.Inside? && k != s.at {
      LeftAbove(s.below, s.at - 1, k);
    }
  }

  lemma StackedPop<N(!new)>(g: Graph<N>, roots: seq<N>, seen: seq<N>, s: Stack<N>)
    requires s.Inside? && s.rest == [] && Stacked(g, roots, seen, s)
    ensures Stacked(g, roots, seen, s.below)
  {
    NestedMore(s.below, s.at - 1, |seen|);
    forall k | 0 <= k <= |seen| ensures LeftOf(s.below, k) == LeftOf(s, k) {
      if k == s.at {
        LeftAbove(s.below, s.at - 1, k);
      }
    }
  }

  lemma AllMetMore<N>(g: Graph<N>, seen: seq<N>, more: seq<N>, s: seq<N>)
    requires AllMet(g, seen, s)
    ensures AllMet(g, seen + more, s)
  {
  }

  lemma SplitAdvance<N(!new)>(g: Graph<N>, seen: seq<N>, all: seq<N>, rest: seq<N>)
    requires Split(g, seen, all, rest) && rest != []
    requires rest[0] in g ==> rest[0] in seen
    ensures Split(g, seen, all, rest[1..])
  {
    var n := |all| - |rest|;
    assert all[n..][0] == all[n] == rest[0] && all[n..][1..] == all[n + 1..];
    assert all[..n + 1] == all[..n] + [rest[0]];
  }

  /** Moving past the head of the innermost visit, once it has been met. */
  lemma StackedAdvance<N(!new)>(g: Graph<N>, roots: seq<N>, seen: seq<N>, s: Stack<N>)
    requires Stacked(g, roots, seen, s) && s.rest != []
    requires s.rest[0] in g ==> s.rest[0] in seen
    ensures Stacked(g, roots, seen, s.(rest := s.rest[1..]))
  {
    var s' := s.(rest := s.rest[1..]);
    forall k | 0 <= k <= |seen| ensures Split(g, seen, Visited(g, roots, seen, k), LeftOf(s', k)) {
      assert Split(g, seen, Visited(g, roots, seen, k), LeftOf(s, k));
      if k == Top(s) {
        SplitAdvance(g, seen, Visited(g, roots, seen, k), s.rest);
      }
    }
  }

  lemma FirstLeft<N(!new)>(g: Graph<N>, seen: seq<N>, all: seq<N>, rest: seq<N>)
    requires Split(g, seen, all, rest)
    ensures FirstNew(g, seen, all) == FirstNew(g, seen, rest)
  {
    var met := all[..|all| - |rest|];
    assert all == met + rest;
    FirstNewIn(g, seen, met, rest);
  }

  lemma {:induction false} NextSkips<N(!new)>(g: Graph<N>, roots: seq<N>, seen: seq<N>, s: Stack<N>, k: nat)
    requires Stacked(g, roots, seen, s) && Top(s) <= k <= |seen|
    requires s.rest == [] ==> s.Roots?
    requires s.rest != [] ==> s.rest[0] in g && s.rest[0] !in seen
    ensures NextInPreorder(g, roots, seen, k) == if s.rest == [] then [] else [s.rest[0]]
    decreases k
  {
    LeftAbove(s, |seen|, k);
    FirstLeft(g, seen, Visited(g, roots, seen, k), LeftOf(s, k));
    if k > Top(s) {
      NextSkips(g, roots, seen, s, k - 1);
    }
  }

  /** Meeting the new head of the innermost visit opens a visit of its successors. */
  lemma StackedEnter<N(!new)>(g: Graph<N>, roots: seq<N>, seen: seq<N>, s: Stack<N>) returns (entered: Stack<N>)
    requires Stacked(g, roots, seen, s) && s.rest != []
    requires s.rest[0] in g && s.rest[0] !in seen
    ensures Stacked(g, roots, seen + [s.rest[0]], entered)
    ensures Pending(entered) == g[s.rest[0]] + Pending(s)[1..]
  {
    var n, s' := s.rest[0], s.(rest := s.rest[1..]);
    var seen' := seen + [n];
    entered := Inside(|seen| + 1, g[n], s');
    forall k | 0 <= k <= |seen'| ensures Split(g, seen', Visited(g, roots, seen', k), LeftOf(entered, k)) {
      if k == |seen'| {
        assert g[n][..0] == [] && g[n][0..] == g[n];
      } else {
        var all := Visited(g, roots, seen, k);
        assert Split(g, seen, all, LeftOf(s, k));
        AllMetMore(g, seen, [n], all[..|all| - |LeftOf(s, k)|]);
        if k == Top(s) {
          SplitAdvance(g, seen', all, s.rest);
        }
      }
    }
    assert Pending(s)[1..] == Pending(s');
  }

  lemma PreorderOneMore<N(!new)>(g: Graph<N>, roots: seq<N>, order: seq<N>, from: nat)
    requires from < |order| && PreorderBeyond(g, roots, order, from + 1)
    requires NextInPreorder(g, roots, order[..from], from) == [order[from]]
    ensures PreorderBeyond(g, roots, order, from)
  {
  }

  lemma {:induction false} PreorderFrom<N(!new)>(g: Graph<N>, roots: seq<N>, seen: seq<N>, s: Stack<N>)
    requires Stacked(g, roots, seen, s)
    ensures PreorderBeyond(g, roots, Dfs(g, seen, Pending(s)), |seen|)
    decreases g.Keys - Elements(seen), |Pending(s)|, s
  {
    if s.rest == [] && s.Roots? {
      NextSkips(g, roots, seen, s, |seen|);
    } else if s.rest == [] {
      StackedPop(g, roots, seen, s);
      assert Pending(s) == Pending(s.below);
      PreorderFrom(g, roots, seen, s.below);
    } else if s.rest[0] !in g || s.rest[0] in seen {
      var s' := s.(rest := s.rest[1..]);
      assert Pending(s)[0] == s.rest[0] && Pending(s)[1..] == Pending(s');
      StackedAdvance(g, roots, seen, s);
      PreorderFrom(g, roots, seen, s');
    } else {
      var n := s.rest[0];
      assert Pending(s)[0] == n;
      var entered := StackedEnter(g, roots, seen, s);
      assert n in g.Keys - Elements(seen) && n !in g.Keys - Elements(seen + [n]);
      PreorderFrom(g, roots, seen + [n], entered);
      var order := Dfs(g, seen + [n], Pending(entered));
      assert order == Dfs(g, seen, Pending(s));
      assert seen + [n] <= order && order[..|seen|] == seen && order[|seen|] == n;
      NextSkips(g, roots, seen, s, |seen|);
      PreorderOneMore(g, roots, order, |seen|);
    }
  }

  /** The record is the depth-first preorder. */
  lemma DfsIsPreorder<N(!new)>(g: Graph<N>, roots: seq<N>)
    ensures IsPreorder(g, roots, Dfs(g, [], roots))
  {
    assert roots[..0] == [] && roots[0..] == roots;
    PreorderFrom(g, roots, [], Roots(roots));
  }

  // ------------------------------------------------------------ under renaming

  function Renamed<M, N>(s: seq<M>, name: M -> N): (r: seq<N>)
    ensures |r| == |s|
  {
    seq(|s|, i requires 0 <= i < |s| => name(s[i]))
  }

  /** `h` is `g` with its nodes renamed one to one. */
  ghost predicate IsRenaming<M(!new), N(!new)>(g: Graph<M>, h: Graph<N>, name: M -> N) {
    && (forall m :: m in g ==> name(m) in h && h[name(m)] == Renamed(g[m], name))
    && (forall m, m' :: m in g && m' in g && name(m) == name(m') ==> m == m')
    && (forall m, t :: m in g && t in g[m] && t !in g ==> name(t) !in h)
  }

  /** Walking a renamed graph records the renamed nodes in the same order. */
  lemma {:induction false} DfsRenamed<M(!new), N(!new)>(g: Graph<M>, h: Graph<N>, name: M -> N,
                                               seen: seq<M>, work: seq<M>)
    requires IsRenaming(g, h, name)
    requires Elements(seen) <= g.Keys
    requires forall t :: t in work && t !in g ==> name(t) !in h
    ensures Dfs(h, Renamed(seen, name), Renamed(work, name)) == Renamed(Dfs(g, seen, work), name)
    decreases g.Keys - Elements(seen), |work|
  {
    if work == [] {
    } else {
      var n, seenN, workN := work[0], Renamed(seen, name), Renamed(work, name);
      assert workN[0] == name(n) && workN[1..] == Renamed(work[1..], name);
      assert n in g ==> (name(n) in seenN <==> n in seen) by {
        if n in g && name(n) in seenN {
          var i :| 0 <= i < |seenN| && seenN[i] == name(n);
          assert seen[i] in Elements(seen);
        }
        if n in seen {
          var i :| 0 <= i < |seen| && seen[i] == n;
          assert seenN[i] == name(n);
        }
      }
      if n !in g || n in seen {
        DfsRenamed(g, h, name, seen, work[1..]);
      } else {
        assert n in g.Keys - Elements(seen) && n !in g.Keys - Elements(seen + [n]);
        assert Elements(seen + [n]) == Elements(seen) + {n};
        assert Renamed(seen + [n], name) == seenN + [name(n)];
        assert Renamed(g[n] + work[1..], name) == h[name(n)] + workN[1..];
        DfsRenamed(g, h, name, seen + [n], g[n] + work[1..]);
      }
    }
  }

  function Within<N>(g: Graph<N>, keep: set<N>): Graph<N> {
    map n | n in g && n in keep :: g[n]
  }

  /** Nodes the walk never records may as well not be there. */
  lemma {:induction false} DfsWithin<N(!new)>(g: Graph<N>, keep: set<N>, seen: seq<N>, work: seq<N>)
    requires forall n :: n in Dfs(g, seen, work) ==> n in keep
    ensures Dfs(Within(g, keep), seen, work) == Dfs(g, seen, work)
    decreases g.Keys - Elements(seen), |work|
  {
    if work == [] {
    } else if work[0] !in g || work[0] in seen {
      DfsWithin(g, keep, seen, work[1..]);
    } else {
      var n := work[0];
      assert n in g.Keys - Elements(seen) && n !in g.Keys - Elements(seen + [n]);
      assert seen + [n] <= Dfs(g, seen, work);
      assert Dfs(g, seen, work)[|seen|] == n;
      DfsWithin(g, keep, seen + [n], g[n] + work[1..]);
    }
  }
}
