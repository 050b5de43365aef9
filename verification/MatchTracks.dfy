/** Tracks from matches by union-find with path compression (scripts/patch_crossval.py:238-269). */
module MatchTracks {
  import opened Arrays
  import opened Chains
  import opened Grouping

  datatype Node = Node(image: int, feature: int)
  datatype Match = Match(a: Node, b: Node)

  ghost predicate Matched(matches: seq<Match>, x: Node, y: Node) {
    Match(x, y) in matches || Match(y, x) in matches
  }

  ghost function Matching(matches: seq<Match>): (Node, Node) -> bool {
    (x: Node, y: Node) => Matched(matches, x, y)
  }

  ghost predicate Joined(matches: seq<Match>, x: Node, y: Node) {
    Connected(Matching(matches), x, y)
  }

  ghost predicate IsEndpoint(matches: seq<Match>, x: Node) {
    exists i :: 0 <= i < |matches| && (matches[i].a == x || matches[i].b == x)
  }

  ghost predicate NodeOk(parent: map<Node, Node>, root: map<Node, Node>, rank: map<Node, nat>, x: Node)
    requires parent.Keys == root.Keys == rank.Keys && x in parent
  {
    && parent[x] in parent && root[x] in parent
    && root[parent[x]] == root[x] && parent[root[x]] == root[x]
    && (parent[x] == x ==> root[x] == x)
    && (parent[x] != x ==> rank[x] < rank[parent[x]])
    && rank[x] <= rank[root[x]]
  }

  /** A parent map with, beside it, what no step of `find` changes: every node's root, and a rank
      that rises along the parents. */
  ghost predicate IsForest(parent: map<Node, Node>, root: map<Node, Node>, rank: map<Node, nat>) {
    && parent.Keys == root.Keys == rank.Keys
    && (forall x {:trigger NodeOk(parent, root, rank, x)} :: x in parent ==> NodeOk(parent, root, rank, x))
  }

  lemma RootOfRoot(parent: map<Node, Node>, root: map<Node, Node>, rank: map<Node, nat>, x: Node)
    requires IsForest(parent, root, rank) && x in parent
    ensures NodeOk(parent, root, rank, x) && root[root[x]] == root[x]
    ensures parent[x] != x ==> rank[x] < rank[root[x]]
  {
    assert NodeOk(parent, root, rank, x);
    assert NodeOk(parent, root, rank, root[x]);
    assert NodeOk(parent, root, rank, parent[x]);
  }

  /** How far a node's rank is below its root's. */
  ghost function Height(root: map<Node, Node>, rank: map<Node, nat>, x: Node): nat {
    if x in root && x in rank && root[x] in rank && rank[x] <= rank[root[x]] then rank[root[x]] - rank[x] else 0
  }

  /** The roots are a property of the parent map alone. */
  lemma {:induction false} RootsAreDetermined(parent: map<Node, Node>, root: map<Node, Node>, rank: map<Node, nat>,
                                              root': map<Node, Node>, rank': map<Node, nat>, x: Node)
    requires IsForest(parent, root, rank) && IsForest(parent, root', rank') && x in parent
    ensures root[x] == root'[x]
    decreases Height(root, rank, x)
  {
    RootOfRoot(parent, root, rank, x);
    assert NodeOk(parent, root', rank', x);
    if parent[x] != x {
      RootsAreDetermined(parent, root, rank, root', rank', parent[x]);
    }
  }

  /** Pointing a node straight at its root changes no root. */
  lemma CompressKeepsForest(parent: map<Node, Node>, root: map<Node, Node>, rank: map<Node, nat>, x: Node)
    requires IsForest(parent, root, rank) && x in parent && parent[x] != root[x]
    ensures IsForest(parent[x := root[x]], root, rank)
  {
    RootOfRoot(parent, root, rank, x);
    var p := parent[x := root[x]];
    forall y | y in p ensures NodeOk(p, root, rank, y) {
      RootOfRoot(parent, root, rank, y);
    }
  }

  // ----- linking two roots -----

  ghost function Rerooted(root: map<Node, Node>, ra: Node, rb: Node): map<Node, Node> {
    map x | x in root :: if root[x] == ra then rb else root[x]
  }

  ghost function Reranked(root: map<Node, Node>, rank: map<Node, nat>, ra: Node, rb: Node): map<Node, nat>
    requires root.Keys == rank.Keys && ra in root
  {
    map x | x in root :: if root[x] == rb then rank[x] + rank[ra] + 1 else rank[x]
  }

  lemma LinkKeepsForest(parent: map<Node, Node>, root: map<Node, Node>, rank: map<Node, nat>, ra: Node, rb: Node)
    requires IsForest(parent, root, rank) && ra in parent && rb in parent && ra != rb
    requires root[ra] == ra && root[rb] == rb
    ensures IsForest(parent[ra := rb], Rerooted(root, ra, rb), Reranked(root, rank, ra, rb))
  {
    var p, r, k := parent[ra := rb], Rerooted(root, ra, rb), Reranked(root, rank, ra, rb);
    RootOfRoot(parent, root, rank, ra);
    RootOfRoot(parent, root, rank, rb);
    forall x | x in p ensures NodeOk(p, r, k, x) {
      RootOfRoot(parent, root, rank, x);
    }
  }

  lemma RerootedToItself(root: map<Node, Node>, r: Node)
    ensures Rerooted(root, r, r) == root
  {
  }

  lemma AddKeepsForest(parent: map<Node, Node>, root: map<Node, Node>, rank: map<Node, nat>, x: Node)
    requires IsForest(parent, root, rank) && x !in parent
    ensures IsForest(parent[x := x], root[x := x], rank[x := 0])
  {
    var p, r, k := parent[x := x], root[x := x], rank[x := 0];
    forall y | y in p ensures NodeOk(p, r, k, y) {
      assert y != x ==> NodeOk(parent, root, rank, y);
    }
  }

  // ----- same root, same component -----

  ghost predicate RootsJoin(matches: seq<Match>, root: map<Node, Node>) {
    && (forall x :: x in root ==> Joined(matches, x, root[x]))
    && (forall i :: 0 <= i < |matches| ==>
          matches[i].a in root && matches[i].b in root && root[matches[i].a] == root[matches[i].b])
  }

  lemma JoinedByMore(matches: seq<Match>, m: Match, x: Node, y: Node)
    requires Joined(matches, x, y)
    ensures Joined(matches + [m], x, y)
  {
    ConnectedByMore(Matching(matches), Matching(matches + [m]), x, y);
  }

  lemma JoinedSymmetric(matches: seq<Match>, x: Node, y: Node)
    requires Joined(matches, x, y)
    ensures Joined(matches, y, x)
  {
    ConnectedSymmetric(Matching(matches), x, y);
  }

  lemma JoinedTransitive(matches: seq<Match>, x: Node, y: Node, z: Node)
    requires Joined(matches, x, y) && Joined(matches, y, z)
    ensures Joined(matches, x, z)
  {
    ConnectedTransitive(Matching(matches), x, y, z);
  }

  lemma JoinedByMatch(matches: seq<Match>, m: Match)
    requires m in matches
    ensures Joined(matches, m.a, m.b)
  {
    ConnectedSelf(Matching(matches), m.a);
    ConnectedStep(Matching(matches), m.a, m.a, m.b);
  }

  lemma {:induction false} ChainKeepsRoot(matches: seq<Match>, root: map<Node, Node>, path: seq<Node>)
    requires RootsJoin(matches, root) && Chain(Matching(matches), path) && path[0] in root
    ensures path[|path| - 1] in root && root[path[|path| - 1]] == root[path[0]]
    decreases |path|
  {
    if |path| > 1 {
      ChainTail(Matching(matches), path);
      assert Matched(matches, path[0], path[1]);
      ChainKeepsRoot(matches, root, path[1..]);
    }
  }

  /** Two nodes have the same root exactly when a chain of matches joins them. */
  lemma SameRootIsJoined(matches: seq<Match>, root: map<Node, Node>, x: Node, y: Node)
    requires RootsJoin(matches, root) && x in root && y in root
    ensures root[x] == root[y] <==> Joined(matches, x, y)
  {
    if root[x] == root[y] {
      JoinedSymmetric(matches, y, root[y]);
      JoinedTransitive(matches, x, root[x], y);
    }
    if Joined(matches, x, y) {
      var path :| ChainBetween(Matching(matches), path, x, y);
      ChainKeepsRoot(matches, root, path);
    }
  }

  lemma AddKeepsJoin(matches: seq<Match>, root: map<Node, Node>, x: Node)
    requires RootsJoin(matches, root) && x !in root
    ensures RootsJoin(matches, root[x := x])
  {
    ConnectedSelf(Matching(matches), x);
  }

  lemma LinkKeepsJoin(matches: seq<Match>, root: map<Node, Node>, m: Match, ra: Node, rb: Node)
    requires RootsJoin(matches, root) && m.a in root && m.b in root && root[m.a] == ra && root[m.b] == rb
    ensures RootsJoin(matches + [m], Rerooted(root, ra, rb))
  {
    var all := matches + [m];
    assert m in all;
    JoinedByMatch(all, m);
    forall x | x in root ensures Joined(all, x, Rerooted(root, ra, rb)[x]) {
      JoinedByMore(matches, m, x, root[x]);
      if root[x] == ra {
        JoinedByMore(matches, m, m.a, ra);
        JoinedByMore(matches, m, m.b, rb);
        JoinedSymmetric(all, m.a, ra);
        JoinedTransitive(all, x, ra, m.a);
        JoinedTransitive(all, x, m.a, m.b);
        JoinedTransitive(all, x, m.b, rb);
      }
    }
  }

  // ----- the class -----

  class Tracks {
    /** The dict, and its keys in the order they were put in. */
    var parent: map<Node, Node>
    var nodes: seq<Node>
    ghost var root: map<Node, Node>
    ghost var rank: map<Node, nat>
    /** The matches united so far. */
    ghost var matches: seq<Match>

    ghost predicate Sound()
      reads this
    {
      && IsForest(parent, root, rank)
      && RootsJoin(matches, root)
      && IsKeyOrder(nodes, parent.Keys)
    }

    ghost predicate Valid()
      reads this
    {
      Sound() && KeysAreEndpoints(parent.Keys, matches) && nodes == KeyOrder(matches)
    }

    constructor ()
      ensures Valid() && matches == [] && nodes == []
    {
      parent, nodes, root, rank, matches := map[], [], map[], map[], [];
    }

    /** `parent.setdefault(x, x)`. */
    method Add(x: Node)
      requires Sound()
      modifies this
      ensures Sound() && matches == old(matches) && parent.Keys == old(parent.Keys) + {x}
      ensures nodes == WithKey(old(nodes), x)
    {
      AddKeepsOrder(nodes, parent.Keys, x);
      if x !in parent {
        AddKeepsForest(parent, root, rank, x);
        AddKeepsJoin(matches, root, x);
        assert parent[x := x].Keys == parent.Keys + {x};
        parent, root, rank := parent[x := x], root[x := x], rank[x := 0];
        nodes := nodes + [x];
      }
    }

    /** The node's root, every node on the way left pointing straight at it. No root, no key and no
        other node's parent changes. */
    method Find(x: Node) returns (r: Node)
      requires IsForest(parent, root, rank) && x in parent
      modifies this`parent
      ensures IsForest(parent, root, rank) && parent.Keys == old(parent.Keys)
      ensures r == root[x] && parent[x] == r
      ensures forall y :: y in parent ==> parent[y] == old(parent[y]) || parent[y] == root[y]
      ensures old(Sound()) ==> Sound()
    {
      RootOfRoot(parent, root, rank, x);
      r := x;
      while parent[r] != r
        invariant parent == old(parent) && r in parent && root[r] == root[x]
        decreases Height(root, rank, r)
      {
        RootOfRoot(parent, root, rank, r);
        RootOfRoot(parent, root, rank, parent[r]);
        r := parent[r];
      }
      RootOfRoot(parent, root, rank, r);
      var at := x;
      while parent[at] != r
        invariant IsForest(parent, root, rank) && parent.Keys == old(parent.Keys)
        invariant at in parent && root[at] == r == root[x] && r in parent
        invariant at == x || parent[x] == r
        invariant forall y :: y in parent ==> parent[y] == old(parent[y]) || parent[y] == root[y]
        decreases Height(root, rank, at)
      {
        RootOfRoot(parent, root, rank, at);
        CompressKeepsForest(parent, root, rank, at);
        var next := parent[at];
        RootOfRoot(parent, root, rank, next);
        parent := parent[at := r];
        at := next;
      }
    }

    /** Hanging one root under the other. */
    method Link(ra: Node, rb: Node, ghost m: Match)
      requires Sound() && m.a in parent && m.b in parent && root[m.a] == ra && root[m.b] == rb
      modifies this
      ensures Sound() && matches == old(matches) + [m] && nodes == old(nodes) && parent.Keys == old(parent.Keys)
    {
      RootOfRoot(parent, root, rank, m.a);
      RootOfRoot(parent, root, rank, m.b);
      LinkKeepsJoin(matches, root, m, ra, rb);
      if ra != rb {
        LinkKeepsForest(parent, root, rank, ra, rb);
        root, rank := Rerooted(root, ra, rb), Reranked(root, rank, ra, rb);
        parent := parent[ra := rb];
      } else {
        RerootedToItself(root, ra);
      }
      matches := matches + [m];
    }

    method FindBoth(a: Node, b: Node) returns (ra: Node, rb: Node)
      requires Sound() && a in parent && b in parent
      modifies this`parent
      ensures Sound() && parent.Keys == old(parent.Keys) && ra == root[a] && rb == root[b]
    {
      ra := Find(a);
      rb := Find(b);
    }

    method AddBoth(a: Node, b: Node)
      requires Sound()
      modifies this
      ensures Sound() && matches == old(matches) && parent.Keys == old(parent.Keys) + {a} + {b}
      ensures nodes == WithKey(WithKey(old(nodes), a), b)
    {
      Add(a);
      Add(b);
    }

    method Union(a: Node, b: Node)
      requires Valid()
      modifies this
      ensures Valid() && matches == old(matches) + [Match(a, b)]
    {
      AddBoth(a, b);
      var ra, rb := FindBoth(a, b);
      KeysWith(old(parent.Keys), old(nodes), matches, Match(a, b));
      Link(ra, rb, Match(a, b));
    }
  }

  ghost function NodeSet(nodes: seq<Node>): set<Node> {
    set x | x in nodes
  }

  /** The keys of the dict in the order they were put in, each once. */
  ghost predicate IsKeyOrder(nodes: seq<Node>, keys: set<Node>) {
    && NoRepeats(nodes)
    && NodeSet(nodes) == keys
  }

  lemma AddKeepsOrder(nodes: seq<Node>, keys: set<Node>, x: Node)
    requires IsKeyOrder(nodes, keys)
    ensures x in nodes <==> x in keys
    ensures x !in keys ==> IsKeyOrder(nodes + [x], keys + {x})
  {
    assert x in NodeSet(nodes) <==> x in nodes;
    if x !in keys {
      assert NodeSet(nodes + [x]) == NodeSet(nodes) + {x};
    }
  }

  /** What `setdefault` does to the keys. */
  function WithKey(nodes: seq<Node>, x: Node): seq<Node> {
    if x in nodes then nodes else nodes + [x]
  }

  /** The ends of the matches in the order they are united, each match's first node first. */
  ghost function Ends(matches: seq<Match>): (ends: seq<Node>)
    ensures |ends| == 2 * |matches|
    ensures forall k :: 0 <= k < |matches| ==> ends[2 * k] == matches[k].a && ends[2 * k + 1] == matches[k].b
  {
    if |matches| == 0 then []
    else Ends(matches[..|matches| - 1]) + [matches[|matches| - 1].a] + [matches[|matches| - 1].b]
  }

  /** The keys once the matches are united. */
  ghost function KeyOrder(matches: seq<Match>): seq<Node> {
    FirstSeen(Ends(matches))
  }

  lemma {:induction false} KeyOrderNext(matches: seq<Match>, m: Match)
    ensures KeyOrder(matches + [m]) == WithKey(WithKey(KeyOrder(matches), m.a), m.b)
  {
    assert (matches + [m])[..|matches|] == matches;
    FirstSeenAppend(Ends(matches), m.a);
    FirstSeenAppend(Ends(matches) + [m.a], m.b);
  }

  lemma {:induction false} KeysWith(keys: set<Node>, nodes: seq<Node>, matches: seq<Match>, m: Match)
    requires KeysAreEndpoints(keys, matches) && nodes == KeyOrder(matches)
    ensures KeysAreEndpoints(keys + {m.a} + {m.b}, matches + [m])
    ensures WithKey(WithKey(nodes, m.a), m.b) == KeyOrder(matches + [m])
  {
    EndpointsWith(keys, matches, m);
    KeyOrderNext(matches, m);
  }

  ghost predicate KeysAreEndpoints(keys: set<Node>, matches: seq<Match>) {
    forall x :: x in keys <==> IsEndpoint(matches, x)
  }

  lemma EndpointsWith(keys: set<Node>, matches: seq<Match>, m: Match)
    requires KeysAreEndpoints(keys, matches)
    ensures KeysAreEndpoints(keys + {m.a} + {m.b}, matches + [m])
  {
    var all := matches + [m];
    forall x ensures IsEndpoint(all, x) <==> IsEndpoint(matches, x) || x == m.a || x == m.b {
      if IsEndpoint(matches, x) {
        var i :| 0 <= i < |matches| && (matches[i].a == x || matches[i].b == x);
        assert all[i] == matches[i];
      }
      assert all[|matches|] == m;
    }
  }

  // ----- collecting the components -----

  ghost function RootIs(root: map<Node, Node>, r: Node): Node -> bool {
    (x: Node) => x in root && root[x] == r
  }

  ghost predicate IsGroup(root: map<Node, Node>, nodes: seq<Node>, r: Node, group: seq<Node>) {
    group == Filter(RootIs(root, r), nodes) && |group| > 0
  }

  ghost predicate RootsMet(root: map<Node, Node>, nodes: seq<Node>, met: set<Node>) {
    forall x :: x in nodes ==> x in root && root[x] in met
  }

  /** The components of the first nodes: one per root met, in the order met, each holding its nodes
      in order. */
  ghost predicate Collected(root: map<Node, Node>, nodes: seq<Node>, roots: seq<Node>, comps: map<Node, seq<Node>>) {
    && IsKeyOrder(roots, comps.Keys)
    && (forall r :: r in comps ==> IsGroup(root, nodes, r, comps[r]))
    && RootsMet(root, nodes, comps.Keys)
  }

  function WithRoot(roots: seq<Node>, comps: map<Node, seq<Node>>, r: Node): seq<Node> {
    if r in comps then roots else roots + [r]
  }

  function WithNode(comps: map<Node, seq<Node>>, r: Node, x: Node): map<Node, seq<Node>> {
    comps[r := (if r in comps then comps[r] else []) + [x]]
  }

  lemma {:induction false} FilterNone(root: map<Node, Node>, r: Node, nodes: seq<Node>)
    requires forall x :: x in nodes ==> x in root && root[x] != r
    ensures Filter(RootIs(root, r), nodes) == []
  {
    if |nodes| > 0 {
      assert nodes[0] in nodes;
      FilterNone(root, r, nodes[1..]);
    }
  }

  lemma {:induction false} FilterOneMore(root: map<Node, Node>, r: Node, nodes: seq<Node>, x: Node)
    requires x in root
    ensures Filter(RootIs(root, r), nodes + [x]) == Filter(RootIs(root, r), nodes) + (if root[x] == r then [x] else [])
  {
    FilterAppend(RootIs(root, r), nodes, [x]);
    assert [x][1..] == [];
  }

  lemma CollectNode(root: map<Node, Node>, nodes: seq<Node>, roots: seq<Node>, comps: map<Node, seq<Node>>, x: Node)
    requires Collected(root, nodes, roots, comps) && x in root
    ensures Collected(root, nodes + [x], WithRoot(roots, comps, root[x]), WithNode(comps, root[x], x))
  {
    var r, comps' := root[x], WithNode(comps, root[x], x);
    AddKeepsOrder(roots, comps.Keys, r);
    assert comps'.Keys == comps.Keys + {r};
    assert r in comps ==> comps'.Keys == comps.Keys;
    if r !in comps {
      FilterNone(root, r, nodes);
    }
    forall s | s in comps' ensures IsGroup(root, nodes + [x], s, comps'[s]) {
      FilterOneMore(root, s, nodes, x);
      assert s in comps ==> IsGroup(root, nodes, s, comps[s]);
    }
  }

  // ----- the order of the tracks -----

  function RootOf(root: map<Node, Node>): Node -> Node {
    (x: Node) => if x in root then root[x] else x
  }

  /** The roots in the order their first nodes came. */
  ghost predicate RootsInOrder(root: map<Node, Node>, nodes: seq<Node>, roots: seq<Node>) {
    roots == FirstSeen(Map(RootOf(root), nodes))
  }

  ghost predicate CollectedInTurn(root: map<Node, Node>, nodes: seq<Node>, roots: seq<Node>,
                                  comps: map<Node, seq<Node>>)
  {
    Collected(root, nodes, roots, comps) && RootsInOrder(root, nodes, roots)
  }

  lemma {:induction false} RootOrderNext(root: map<Node, Node>, nodes: seq<Node>, roots: seq<Node>,
                                         comps: map<Node, seq<Node>>, x: Node)
    requires RootsInOrder(root, nodes, roots) && IsKeyOrder(roots, comps.Keys) && x in root
    ensures RootsInOrder(root, nodes + [x], WithRoot(roots, comps, root[x]))
  {
    MapAppend(RootOf(root), nodes, [x]);
    assert Map(RootOf(root), [x]) == [root[x]];
    FirstSeenAppend(Map(RootOf(root), nodes), root[x]);
    assert root[x] in NodeSet(roots) <==> root[x] in roots;
  }

  /** A filter keeps the order ... */
  lemma {:induction false} FilterInOrder<T>(keep: T -> bool, xs: seq<T>, p: nat, q: nat) returns (i: nat, j: nat)
    requires p < q < |Filter(keep, xs)|
    ensures i < j < |xs| && xs[i] == Filter(keep, xs)[p] && xs[j] == Filter(keep, xs)[q]
  {
    if keep(xs[0]) && p == 0 {
      j := FilterIndex(keep, xs[1..], q - 1);
      i, j := 0, j + 1;
    } else {
      var k := if keep(xs[0]) then 1 else 0;
      i, j := FilterInOrder(keep, xs[1..], p - k, q - k);
      i, j := i + 1, j + 1;
    }
  }

  lemma {:induction false} FilterIndex<T>(keep: T -> bool, xs: seq<T>, p: nat) returns (i: nat)
    requires p < |Filter(keep, xs)|
    ensures i < |xs| && xs[i] == Filter(keep, xs)[p]
  {
    if keep(xs[0]) && p == 0 {
      i := 0;
    } else {
      i := FilterIndex(keep, xs[1..], if keep(xs[0]) then p - 1 else p);
      i := i + 1;
    }
  }

  /** ... and heads what it keeps with the first of them. */
  lemma {:induction false} FilterHead<T>(keep: T -> bool, xs: seq<T>) returns (i: nat)
    requires |Filter(keep, xs)| > 0
    ensures i < |xs| && xs[i] == Filter(keep, xs)[0] && keep(xs[i]) && forall j :: 0 <= j < i ==> !keep(xs[j])
  {
    if keep(xs[0]) {
      i := 0;
    } else {
      i := FilterHead(keep, xs[1..]);
      i := i + 1;
    }
  }

  /** Of two tracks the one whose first node came first is ahead. */
  lemma {:induction false} HeadsInOrder(root: map<Node, Node>, ends: seq<Node>, roots: seq<Node>, n: nat, m: nat)
    requires RootsInOrder(root, FirstSeen(ends), roots) && n < m < |roots|
    requires forall x :: x in FirstSeen(ends) ==> x in root
    requires |Filter(RootIs(root, roots[n]), FirstSeen(ends))| > 0
    requires |Filter(RootIs(root, roots[m]), FirstSeen(ends))| > 0
    ensures CameBefore(ends, Filter(RootIs(root, roots[n]), FirstSeen(ends))[0],
                       Filter(RootIs(root, roots[m]), FirstSeen(ends))[0])
  {
    var nodes := FirstSeen(ends);
    var keys := Map(RootOf(root), nodes);
    FirstSeenInOrder(keys, n, m);
    var k :| 0 <= k < |keys| && keys[k] == roots[n] && forall j :: 0 <= j <= k ==> keys[j] != roots[m];
    var i := FilterHead(RootIs(root, roots[n]), nodes);
    var j := FilterHead(RootIs(root, roots[m]), nodes);
    assert nodes[k] in nodes && RootIs(root, roots[n])(nodes[k]);
    assert keys[j] == roots[m];
    FirstSeenInOrder(ends, i, j);
  }

  /** The tracks in the order their first nodes came, each with its nodes in the order they came. */
  ghost predicate InOrderSeen(ends: seq<Node>, tracks: seq<seq<Node>>) {
    && (forall n, p, q :: 0 <= n < |tracks| && 0 <= p < q < |tracks[n]| ==>
          CameBefore(ends, tracks[n][p], tracks[n][q]))
    && (forall n, m :: 0 <= n < m < |tracks| && |tracks[n]| > 0 && |tracks[m]| > 0 ==>
          CameBefore(ends, tracks[n][0], tracks[m][0]))
  }

  lemma {:induction false} CollectedInOrder(root: map<Node, Node>, ends: seq<Node>, roots: seq<Node>,
                                            comps: map<Node, seq<Node>>)
    requires Collected(root, FirstSeen(ends), roots, comps) && RootsInOrder(root, FirstSeen(ends), roots)
    ensures forall i :: 0 <= i < |roots| ==> roots[i] in comps
    ensures InOrderSeen(ends, TracksOf(roots, comps))
  {
    RootsAreKeys(root, FirstSeen(ends), roots, comps);
    var nodes, tracks := FirstSeen(ends), TracksOf(roots, comps);
    forall n | 0 <= n < |tracks| ensures IsGroup(root, nodes, roots[n], tracks[n]) {
      assert tracks[n] == comps[roots[n]];
    }
    forall n, p, q | 0 <= n < |tracks| && 0 <= p < q < |tracks[n]|
      ensures CameBefore(ends, tracks[n][p], tracks[n][q])
    {
      var i, j := FilterInOrder(RootIs(root, roots[n]), nodes, p, q);
      FirstSeenInOrder(ends, i, j);
    }
    forall n, m | 0 <= n < m < |tracks| && |tracks[n]| > 0 && |tracks[m]| > 0
      ensures CameBefore(ends, tracks[n][0], tracks[m][0])
    {
      HeadsInOrder(root, ends, roots, n, m);
    }
  }

  // ----- the tracks are the components -----

  ghost predicate InTrack(tracks: seq<seq<Node>>, n: nat, x: Node) {
    n < |tracks| && x in tracks[n]
  }

  ghost predicate Tracked(tracks: seq<seq<Node>>, x: Node) {
    exists n :: InTrack(tracks, n, x)
  }

  ghost predicate SameTrack(tracks: seq<seq<Node>>, x: Node, y: Node) {
    exists n :: InTrack(tracks, n, x) && InTrack(tracks, n, y)
  }

  /** The connected components of the match graph: every endpoint and nothing else in one track and
      no other, and two of them in the same track exactly when a chain of matches joins them. */
  ghost predicate AreComponents(matches: seq<Match>, tracks: seq<seq<Node>>) {
    && (forall x :: Tracked(tracks, x) <==> IsEndpoint(matches, x))
    && (forall n, m, x :: InTrack(tracks, n, x) && InTrack(tracks, m, x) ==> n == m)
    && (forall x, y :: IsEndpoint(matches, x) && IsEndpoint(matches, y) ==>
          (SameTrack(tracks, x, y) <==> Joined(matches, x, y)))
    && (forall n :: 0 <= n < |tracks| ==> |tracks[n]| > 0 && NoRepeats(tracks[n]))
  }

  function TracksOf(roots: seq<Node>, comps: map<Node, seq<Node>>): (tracks: seq<seq<Node>>)
    requires forall i :: 0 <= i < |roots| ==> roots[i] in comps
  {
    seq(|roots|, i requires 0 <= i < |roots| => comps[roots[i]])
  }

  lemma TrackIsRoot(root: map<Node, Node>, nodes: seq<Node>, roots: seq<Node>, comps: map<Node, seq<Node>>, n: nat,
                    x: Node)
    requires Collected(root, nodes, roots, comps) && (forall i :: 0 <= i < |roots| ==> roots[i] in comps)
    ensures InTrack(TracksOf(roots, comps), n, x) <==> n < |roots| && x in nodes && root[x] == roots[n]
  {
    if n < |roots| {
      FilterMembers(RootIs(root, roots[n]), nodes);
    }
  }

  lemma RootsAreKeys(root: map<Node, Node>, nodes: seq<Node>, roots: seq<Node>, comps: map<Node, seq<Node>>)
    requires Collected(root, nodes, roots, comps)
    ensures forall i :: 0 <= i < |roots| ==> roots[i] in comps
  {
    forall i | 0 <= i < |roots| ensures roots[i] in comps {
      assert roots[i] in NodeSet(roots);
    }
  }

  lemma CollectedAreComponents(matches: seq<Match>, root: map<Node, Node>, nodes: seq<Node>, roots: seq<Node>,
                               comps: map<Node, seq<Node>>)
    requires Collected(root, nodes, roots, comps) && RootsJoin(matches, root)
    requires IsKeyOrder(nodes, root.Keys) && KeysAreEndpoints(root.Keys, matches)
    ensures forall i :: 0 <= i < |roots| ==> roots[i] in comps
    ensures AreComponents(matches, TracksOf(roots, comps))
  {
    RootsAreKeys(root, nodes, roots, comps);
    var tracks := TracksOf(roots, comps);
    forall n: nat, x ensures InTrack(tracks, n, x) <==> n < |roots| && x in nodes && root[x] == roots[n] {
      TrackIsRoot(root, nodes, roots, comps, n, x);
    }
    forall x ensures x in nodes <==> IsEndpoint(matches, x) {
      assert x in NodeSet(nodes) <==> x in root.Keys;
    }
    forall x | x in nodes ensures Tracked(tracks, x) {
      assert root[x] in NodeSet(roots);
      var n :| 0 <= n < |roots| && roots[n] == root[x];
      assert InTrack(tracks, n, x);
    }
    forall n | 0 <= n < |tracks| ensures |tracks[n]| > 0 && NoRepeats(tracks[n]) {
      FilterNoRepeats(RootIs(root, roots[n]), nodes);
      assert IsGroup(root, nodes, roots[n], comps[roots[n]]);
    }
    forall x, y | IsEndpoint(matches, x) && IsEndpoint(matches, y)
      ensures SameTrack(tracks, x, y) <==> Joined(matches, x, y)
    {
      SameRootIsJoined(matches, root, x, y);
      assert Tracked(tracks, x);
      var n :| InTrack(tracks, n, x);
      assert root[x] == root[y] ==> InTrack(tracks, n, y);
    }
  }

  lemma {:induction false} CollectedAreTracks(matches: seq<Match>, root: map<Node, Node>, nodes: seq<Node>,
                                              roots: seq<Node>, comps: map<Node, seq<Node>>)
    requires CollectedInTurn(root, nodes, roots, comps) && RootsJoin(matches, root)
    requires IsKeyOrder(nodes, root.Keys) && KeysAreEndpoints(root.Keys, matches) && nodes == KeyOrder(matches)
    ensures forall i :: 0 <= i < |roots| ==> roots[i] in comps
    ensures AreComponents(matches, TracksOf(roots, comps)) && InOrderSeen(Ends(matches), TracksOf(roots, comps))
  {
    CollectedAreComponents(matches, root, nodes, roots, comps);
    CollectedInOrder(root, Ends(matches), roots, comps);
  }

  // ----- the method -----

  /** The matches of the first `p` image pairs, each pair's rows taken from `feat` in turn. */
  function MatchList(pairs: seq<(int, int)>, counts: seq<nat>, feat: seq<(int, int)>, p: nat): seq<Match>
    requires p <= |pairs| == |counts| && Offset(counts, |counts|) <= |feat|
  {
    if p == 0 then []
    else MatchList(pairs, counts, feat, p - 1) + PairMatches(pairs, counts, feat, p - 1, counts[p - 1])
  }

  function PairMatches(pairs: seq<(int, int)>, counts: seq<nat>, feat: seq<(int, int)>, p: nat, k: nat): (r: seq<Match>)
    requires p < |pairs| == |counts| && k <= counts[p] && Offset(counts, |counts|) <= |feat|
    ensures |r| == k
  {
    OffsetMonotone(counts, p + 1, |counts|);
    seq(k, n requires 0 <= n < k =>
      var row := feat[Offset(counts, p) + n];
      Match(Node(pairs[p].0, row.0), Node(pairs[p].1, row.1)))
  }

  lemma {:induction false} MatchListLength(pairs: seq<(int, int)>, counts: seq<nat>, feat: seq<(int, int)>, p: nat)
    requires p <= |pairs| == |counts| && Offset(counts, |counts|) <= |feat|
    ensures |MatchList(pairs, counts, feat, p)| == Offset(counts, p)
  {
    if p > 0 {
      MatchListLength(pairs, counts, feat, p - 1);
    }
  }

  /** Every row of a pair's stretch is listed, at its own place, as a match of the two images' features. */
  lemma {:induction false} MatchListAt(pairs: seq<(int, int)>, counts: seq<nat>, feat: seq<(int, int)>, n: nat, p: nat,
                                       k: nat)
    requires p < n <= |pairs| == |counts| && k < counts[p] && Offset(counts, |counts|) <= |feat|
    ensures Offset(counts, p) + k < |MatchList(pairs, counts, feat, n)| == Offset(counts, n) <= |feat|
    ensures var row := feat[Offset(counts, p) + k];
            MatchList(pairs, counts, feat, n)[Offset(counts, p) + k]
            == Match(Node(pairs[p].0, row.0), Node(pairs[p].1, row.1))
  {
    MatchListLength(pairs, counts, feat, n);
    MatchListLength(pairs, counts, feat, n - 1);
    OffsetMonotone(counts, n, |counts|);
    OffsetMonotone(counts, p + 1, n);
    if p < n - 1 {
      OffsetMonotone(counts, p + 1, n - 1);
      MatchListAt(pairs, counts, feat, n - 1, p, k);
    }
  }

  /** Row `r` of `feat` is in pair `p`'s stretch and matches `x` in its first image with `y` in its second. */
  ghost predicate RowLinks(pairs: seq<(int, int)>, counts: seq<nat>, feat: seq<(int, int)>, p: nat, r: nat, x: Node,
                           y: Node)
    requires |pairs| == |counts|
  {
    && p < |pairs| && Offset(counts, p) <= r < Offset(counts, p + 1) && r < |feat|
    && x == Node(pairs[p].0, feat[r].0) && y == Node(pairs[p].1, feat[r].1)
  }

  ghost predicate SomeRowLinks(pairs: seq<(int, int)>, counts: seq<nat>, feat: seq<(int, int)>, x: Node, y: Node)
    requires |pairs| == |counts|
  {
    exists p: nat, r: nat :: RowLinks(pairs, counts, feat, p, r, x, y)
  }

  lemma {:induction false} ListedExactly(pairs: seq<(int, int)>, counts: seq<nat>, feat: seq<(int, int)>, x: Node,
                                         y: Node)
    requires |pairs| == |counts| && Offset(counts, |counts|) <= |feat|
    ensures Match(x, y) in MatchList(pairs, counts, feat, |pairs|) <==> SomeRowLinks(pairs, counts, feat, x, y)
  {
    var list := MatchList(pairs, counts, feat, |pairs|);
    MatchListLength(pairs, counts, feat, |pairs|);
    if Match(x, y) in list {
      var r :| 0 <= r < |list| && list[r] == Match(x, y);
      var p := OwnerOf(counts, r);
      MatchListAt(pairs, counts, feat, |pairs|, p, r - Offset(counts, p));
      assert RowLinks(pairs, counts, feat, p, r, x, y);
    }
    if SomeRowLinks(pairs, counts, feat, x, y) {
      var p: nat, r: nat :| RowLinks(pairs, counts, feat, p, r, x, y);
      MatchListAt(pairs, counts, feat, |pairs|, p, r - Offset(counts, p));
    }
  }

  /** Two nodes some row matches, either way round. */
  ghost function Linked(pairs: seq<(int, int)>, counts: seq<nat>, feat: seq<(int, int)>): (Node, Node) -> bool
    requires |pairs| == |counts|
  {
    (x: Node, y: Node) => SomeRowLinks(pairs, counts, feat, x, y) || SomeRowLinks(pairs, counts, feat, y, x)
  }

  /** The connected components of the nodes that rows match: every such node and nothing else in one
      track and no other, once, and two in the same track exactly when a chain of rows joins them. */
  ghost predicate AreComponentsOfRows(pairs: seq<(int, int)>, counts: seq<nat>, feat: seq<(int, int)>,
                                      tracks: seq<seq<Node>>)
    requires |pairs| == |counts|
  {
    && (forall x :: Tracked(tracks, x) <==> exists y :: Linked(pairs, counts, feat)(x, y))
    && (forall n, m, x :: InTrack(tracks, n, x) && InTrack(tracks, m, x) ==> n == m)
    && (forall x, y :: Tracked(tracks, x) && Tracked(tracks, y) ==>
          (SameTrack(tracks, x, y) <==> Connected(Linked(pairs, counts, feat), x, y)))
    && (forall n :: 0 <= n < |tracks| ==> |tracks[n]| > 0 && NoRepeats(tracks[n]))
  }

  lemma EndpointIsLinked(matches: seq<Match>, x: Node)
    ensures IsEndpoint(matches, x) <==> exists y :: Matched(matches, x, y)
  {
    if IsEndpoint(matches, x) {
      var i :| 0 <= i < |matches| && (matches[i].a == x || matches[i].b == x);
      assert Matched(matches, x, if matches[i].a == x then matches[i].b else matches[i].a);
    }
  }

  lemma {:induction false} ComponentsOfRows(pairs: seq<(int, int)>, counts: seq<nat>, feat: seq<(int, int)>,
                                            tracks: seq<seq<Node>>)
    requires |pairs| == |counts| && Offset(counts, |counts|) <= |feat|
    requires AreComponents(MatchList(pairs, counts, feat, |pairs|), tracks)
    ensures AreComponentsOfRows(pairs, counts, feat, tracks)
  {
    var matches, linked := MatchList(pairs, counts, feat, |pairs|), Linked(pairs, counts, feat);
    forall x, y ensures linked(x, y) <==> Matched(matches, x, y) {
      ListedExactly(pairs, counts, feat, x, y);
      ListedExactly(pairs, counts, feat, y, x);
    }
    forall x ensures Tracked(tracks, x) <==> exists y :: linked(x, y) {
      EndpointIsLinked(matches, x);
    }
    forall x, y | Tracked(tracks, x) && Tracked(tracks, y)
      ensures SameTrack(tracks, x, y) <==> Connected(linked, x, y)
    {
      SameLinksConnect(matches, linked, x, y);
    }
  }

  lemma SameLinksConnect(matches: seq<Match>, linked: (Node, Node) -> bool, x: Node, y: Node)
    requires forall a, b :: linked(a, b) <==> Matched(matches, a, b)
    ensures Joined(matches, x, y) <==> Connected(linked, x, y)
  {
    if Joined(matches, x, y) {
      ConnectedByMore(Matching(matches), linked, x, y);
    }
    if Connected(linked, x, y) {
      ConnectedByMore(linked, Matching(matches), x, y);
    }
  }

  /** The rows from `off` on, one per match of `more`, united. */
  method UnitePair(forest: Tracks, image: int, other: int, feat: seq<(int, int)>, off: nat, n: nat,
                   ghost more: seq<Match>)
    requires forest.Valid() && |more| == n && off + n <= |feat|
    requires forall k :: 0 <= k < n ==> more[k] == Match(Node(image, feat[off + k].0), Node(other, feat[off + k].1))
    modifies forest
    ensures forest.Valid() && forest.matches == old(forest.matches) + more
  {
    for k := 0 to n
      invariant forest.Valid() && forest.matches == old(forest.matches) + more[..k]
    {
      var row := feat[off + k];
      forest.Union(Node(image, row.0), Node(other, row.1));
      AppendNext(old(forest.matches), more, k);
    }
    assert more[..n] == more;
  }

  lemma AppendNext(before: seq<Match>, more: seq<Match>, k: nat)
    requires k < |more|
    ensures before + more[..k] + [more[k]] == before + more[..k + 1]
  {
  }

  /** Row `k` of pair `p`'s stretch, as it is listed. */
  ghost predicate IsListed(list: seq<Match>, pairs: seq<(int, int)>, counts: seq<nat>, feat: seq<(int, int)>, p: nat,
                           k: nat)
    requires p < |pairs| == |counts|
  {
    && Offset(counts, p) + k < |list| <= |feat|
    && var row := feat[Offset(counts, p) + k];
       list[Offset(counts, p) + k] == Match(Node(pairs[p].0, row.0), Node(pairs[p].1, row.1))
  }

  ghost predicate IsList(list: seq<Match>, pairs: seq<(int, int)>, counts: seq<nat>, feat: seq<(int, int)>) {
    && |pairs| == |counts| && |list| == Offset(counts, |counts|) <= |feat|
    && forall p: nat, k: nat :: p < |pairs| && k < counts[p] ==> IsListed(list, pairs, counts, feat, p, k)
  }

  lemma {:induction false} MatchListIsList(pairs: seq<(int, int)>, counts: seq<nat>, feat: seq<(int, int)>)
    requires |pairs| == |counts| && Offset(counts, |counts|) <= |feat|
    ensures IsList(MatchList(pairs, counts, feat, |pairs|), pairs, counts, feat)
  {
    MatchListLength(pairs, counts, feat, |pairs|);
    forall p: nat, k: nat | p < |pairs| && k < counts[p]
      ensures IsListed(MatchList(pairs, counts, feat, |pairs|), pairs, counts, feat, p, k)
    {
      MatchListAt(pairs, counts, feat, |pairs|, p, k);
    }
  }

  lemma StretchOfList(list: seq<Match>, pairs: seq<(int, int)>, counts: seq<nat>, feat: seq<(int, int)>, p: nat,
                      off: nat, next: nat)
    requires IsList(list, pairs, counts, feat) && p < |pairs| && off == Offset(counts, p) && next == off + counts[p]
    ensures next == Offset(counts, p + 1) <= |list| && list[..off] + list[off..next] == list[..next]
    ensures forall k :: 0 <= k < counts[p] ==>
              list[off..next][k] == Match(Node(pairs[p].0, feat[off + k].0), Node(pairs[p].1, feat[off + k].1))
  {
    OffsetMonotone(counts, p + 1, |counts|);
    forall k | 0 <= k < counts[p]
      ensures list[off..next][k] == Match(Node(pairs[p].0, feat[off + k].0), Node(pairs[p].1, feat[off + k].1))
    {
      assert IsListed(list, pairs, counts, feat, p, k);
    }
  }

  method UniteAll(forest: Tracks, pairs: seq<(int, int)>, counts: seq<nat>, feat: seq<(int, int)>,
                  ghost list: seq<Match>)
    requires IsList(list, pairs, counts, feat) && forest.Valid() && forest.matches == []
    modifies forest
    ensures forest.Valid() && forest.matches == list
  {
    var off := 0;
    for p := 0 to |pairs|
      invariant forest.Valid() && off == Offset(counts, p) <= |list| && forest.matches == list[..off]
    {
      off := UniteStretch(forest, pairs, counts, feat, p, off, list);
    }
  }

  /** One image pair's stretch united. */
  method UniteStretch(forest: Tracks, pairs: seq<(int, int)>, counts: seq<nat>, feat: seq<(int, int)>, p: nat, off: nat,
                      ghost list: seq<Match>)
    returns (next: nat)
    requires IsList(list, pairs, counts, feat) && p < |pairs| && off == Offset(counts, p) <= |list|
    requires forest.Valid() && forest.matches == list[..off]
    modifies forest
    ensures next == Offset(counts, p + 1) <= |list|
    ensures forest.Valid() && forest.matches == list[..next]
  {
    next := off + counts[p];
    StretchOfList(list, pairs, counts, feat, p, off, next);
    UnitePair(forest, pairs[p].0, pairs[p].1, feat, off, counts[p], list[off..next]);
  }

  /** `comps.setdefault(find(node), []).append(node)`. */
  method CollectOne(forest: Tracks, node: Node, roots: seq<Node>, comps: map<Node, seq<Node>>)
    returns (roots': seq<Node>, comps': map<Node, seq<Node>>)
    requires IsForest(forest.parent, forest.root, forest.rank) && node in forest.parent
    modifies forest`parent
    ensures IsForest(forest.parent, forest.root, forest.rank) && forest.parent.Keys == old(forest.parent.Keys)
    ensures roots' == WithRoot(roots, comps, forest.root[node]) && comps' == WithNode(comps, forest.root[node], node)
  {
    var r := forest.Find(node);
    roots', comps' := roots, comps;
    if r !in comps {
      roots', comps' := roots + [r], comps[r := []];
    }
    comps' := comps'[r := comps'[r] + [node]];
  }

  /** One more node collected. */
  method CollectNext(forest: Tracks, nodes: seq<Node>, i: nat, roots: seq<Node>, comps: map<Node, seq<Node>>)
    returns (roots': seq<Node>, comps': map<Node, seq<Node>>)
    requires IsForest(forest.parent, forest.root, forest.rank) && NodeSet(nodes) == forest.parent.Keys && i < |nodes|
    requires CollectedInTurn(forest.root, nodes[..i], roots, comps)
    modifies forest`parent
    ensures IsForest(forest.parent, forest.root, forest.rank) && forest.parent.Keys == old(forest.parent.Keys)
    ensures CollectedInTurn(forest.root, nodes[..i + 1], roots', comps')
  {
    assert nodes[i] in NodeSet(nodes);
    assert nodes[..i + 1] == nodes[..i] + [nodes[i]];
    CollectNode(forest.root, nodes[..i], roots, comps, nodes[i]);
    RootOrderNext(forest.root, nodes[..i], roots, comps, nodes[i]);
    roots', comps' := CollectOne(forest, nodes[i], roots, comps);
  }

  method CollectAll(forest: Tracks, nodes: seq<Node>) returns (roots: seq<Node>, comps: map<Node, seq<Node>>)
    requires IsForest(forest.parent, forest.root, forest.rank) && NodeSet(nodes) == forest.parent.Keys
    modifies forest`parent
    ensures IsForest(forest.parent, forest.root, forest.rank) && forest.parent.Keys == old(forest.parent.Keys)
    ensures CollectedInTurn(forest.root, nodes, roots, comps)
  {
    roots, comps := [], map[];
    for i := 0 to |nodes|
      invariant IsForest(forest.parent, forest.root, forest.rank) && forest.parent.Keys == NodeSet(nodes)
      invariant CollectedInTurn(forest.root, nodes[..i], roots, comps)
    {
      roots, comps := CollectNext(forest, nodes, i, roots, comps);
    }
    assert nodes[..|nodes|] == nodes;
  }

  lemma {:induction false} CollectedAreTracksOfRows(pairs: seq<(int, int)>, counts: seq<nat>, feat: seq<(int, int)>,
                                                    root: map<Node, Node>, nodes: seq<Node>, roots: seq<Node>,
                                                    comps: map<Node, seq<Node>>)
    requires |pairs| == |counts| && Offset(counts, |counts|) <= |feat|
    requires CollectedInTurn(root, nodes, roots, comps) && IsKeyOrder(nodes, root.Keys)
    requires var list := MatchList(pairs, counts, feat, |pairs|);
             RootsJoin(list, root) && KeysAreEndpoints(root.Keys, list) && nodes == KeyOrder(list)
    ensures forall i :: 0 <= i < |roots| ==> roots[i] in comps
    ensures AreComponentsOfRows(pairs, counts, feat, TracksOf(roots, comps))
    ensures InOrderSeen(Ends(MatchList(pairs, counts, feat, |pairs|)), TracksOf(roots, comps))
  {
    var list := MatchList(pairs, counts, feat, |pairs|);
    CollectedAreTracks(list, root, nodes, roots, comps);
    ComponentsOfRows(pairs, counts, feat, TracksOf(roots, comps));
  }

  /** The tracks of the image pairs' rows: the components of the nodes that rows match, in the order their
      first nodes come in the rows, each with its nodes in that order. */
  method BuildTracks(pairs: seq<(int, int)>, counts: seq<nat>, feat: seq<(int, int)>) returns (tracks: seq<seq<Node>>)
    requires |pairs| == |counts| && Offset(counts, |counts|) <= |feat|
    ensures AreComponentsOfRows(pairs, counts, feat, tracks)
    ensures InOrderSeen(Ends(MatchList(pairs, counts, feat, |pairs|)), tracks)
  {
    var forest := new Tracks();
    MatchListIsList(pairs, counts, feat);
    UniteAll(forest, pairs, counts, feat, MatchList(pairs, counts, feat, |pairs|));
    ghost var root, nodes := forest.root, forest.nodes;
    var roots, comps := CollectAll(forest, forest.nodes);
    CollectedAreTracksOfRows(pairs, counts, feat, root, nodes, roots, comps);
    tracks := TracksOf(roots, comps);
  }
}
