/** Cycle detection on the join graph by depth-first search over an adjacency map. */
module JoinGraph {
  import opened Base

  type Name = string

  /** A join predicate between two tables; the columns play no part in the shape. */
  datatype Edge = Edge(left: Name, right: Name)

  type Graph = seq<Edge>

  // ---------------------------------------------------------------- walks and cycles

  /** Edge `i` has ends `v` and `w`. */
  predicate Joins(g: Graph, i: nat, v: Name, w: Name) {
    i < |g| && ((g[i].left == v && g[i].right == w) || (g[i].right == v && g[i].left == w))
  }

  predicate Touches(g: Graph, i: nat, v: Name) {
    i < |g| && (g[i].left == v || g[i].right == v)
  }

  function Other(g: Graph, i: nat, v: Name): Name
    requires i < |g|
  {
    if g[i].left == v then g[i].right else g[i].left
  }

  /** The edges, taken in order, lead from `a` to `b`. */
  predicate IsWalk(g: Graph, a: Name, walk: seq<nat>, b: Name)
    decreases |walk|
  {
    if walk == [] then a == b
    else Touches(g, walk[0], a) && IsWalk(g, Other(g, walk[0], a), walk[1..], b)
  }

  /** A closed walk that uses edge `e` exactly once: from one end of `e` to the other without
      it. A self-loop needs no other edge, and a parallel edge is one. */
  predicate IsCycle(g: Graph, e: nat, a: Name, b: Name, walk: seq<nat>) {
    Joins(g, e, a, b) && IsWalk(g, b, walk, a) && e !in walk
  }

  ghost predicate Reaches(g: Graph, start: Name, v: Name) {
    exists way :: IsWalk(g, start, way, v)
  }

  ghost predicate ReachesCycle(g: Graph, start: Name) {
    exists e, a, b, walk :: Reaches(g, start, a) && IsCycle(g, e, a, b, walk)
  }

  /** The empty name stands for "no parent" of a start table, so cycles through an edge that
      joins the start with it are not seen as such. */
  ghost predicate ReachesSeenCycle(g: Graph, start: Name) {
    exists e, a, b, walk :: Reaches(g, start, a) && IsCycle(g, e, a, b, walk) && !Joins(g, e, start, "")
  }

  lemma {:induction false} WalksJoin(g: Graph, a: Name, p: seq<nat>, b: Name, q: seq<nat>, c: Name)
    requires IsWalk(g, a, p, b) && IsWalk(g, b, q, c)
    ensures IsWalk(g, a, p + q, c)
    decreases |p|
  {
    if p == [] {
      assert p + q == q;
    } else {
      WalksJoin(g, Other(g, p[0], a), p[1..], b, q, c);
      assert (p + q)[1..] == p[1..] + q;
    }
  }

  lemma {:induction false} WalkBack(g: Graph, a: Name, p: seq<nat>, b: Name) returns (q: seq<nat>)
    requires IsWalk(g, a, p, b)
    ensures IsWalk(g, b, q, a) && forall i :: i in q ==> i in p
    decreases |p|
  {
    if p == [] {
      q := [];
    } else {
      var next := Other(g, p[0], a);
      var rest := WalkBack(g, next, p[1..], b);
      assert IsWalk(g, next, [p[0]], a);
      WalksJoin(g, b, rest, next, [p[0]], a);
      q := rest + [p[0]];
    }
  }

  // ---------------------------------------------------------------- search forests

  /** How each visited table was discovered: its depth, and the edge it was reached by unless
      it is a root. */
  datatype Forest = Forest(depth: map<Name, nat>, up: map<Name, nat>)

  ghost predicate InForest(f: Forest, i: nat) {
    exists x :: x in f.up && f.up[x] == i
  }

  /** Every discovering edge leads to a table of smaller depth. */
  ghost predicate Sound(g: Graph, f: Forest) {
    forall v :: v in f.up ==>
      && v in f.depth && Touches(g, f.up[v], v)
      && Other(g, f.up[v], v) in f.depth && f.depth[Other(g, f.up[v], v)] < f.depth[v]
  }

  /** An edge between the root and the empty name, the latter discovered from the root. */
  ghost predicate Spare(g: Graph, f: Forest, root: Name, v: Name, w: Name) {
    || (v == root && w == "")
    || (w == root && v == "" && ChildOf(g, f, v, root))
  }

  /** Every edge at these tables stays among them, and discovered one of them or is spare. */
  ghost predicate Explored(g: Graph, f: Forest, tables: set<Name>, root: Name) {
    forall i, v, w :: v in tables && Joins(g, i, v, w) ==> w in tables && (InForest(f, i) || Spare(g, f, root, v, w))
  }

  ghost predicate IsTree(g: Graph, f: Forest, tables: set<Name>, root: Name) {
    Sound(g, f) && tables <= f.depth.Keys && Explored(g, f, tables, root) && root !in f.up
  }

  /** `v` is `c` or was discovered, directly or not, from it. */
  predicate Descends(g: Graph, f: Forest, c: Name, v: Name)
    requires Sound(g, f) && v in f.depth
    decreases f.depth[v]
  {
    v == c || (v in f.up && Descends(g, f, c, Other(g, f.up[v], v)))
  }

  lemma {:induction false} DescendantsAreDeeper(g: Graph, f: Forest, c: Name, v: Name)
    requires Sound(g, f) && v in f.depth && c in f.depth && Descends(g, f, c, v)
    ensures f.depth[c] <= f.depth[v]
    decreases f.depth[v]
  {
    if v != c {
      DescendantsAreDeeper(g, f, c, Other(g, f.up[v], v));
    }
  }

  /** An edge other than the one that discovered `c` does not leave the tables below `c`. */
  lemma StaysBelow(g: Graph, f: Forest, c: Name, v: Name, i: nat)
    requires Sound(g, f) && c in f.up && v in f.depth && Descends(g, f, c, v)
    requires Touches(g, i, v) && InForest(f, i) && i != f.up[c]
    ensures Other(g, i, v) in f.depth && Descends(g, f, c, Other(g, i, v))
  {
    var x :| x in f.up && f.up[x] == i;
    if x != v {
      assert Other(g, i, x) == v && Other(g, i, v) == x;
    }
  }

  /** A spare edge is not below `c` unless `c` was itself discovered between the same ends. */
  lemma SpareStaysAway(g: Graph, f: Forest, root: Name, c: Name, v: Name, w: Name)
    requires Sound(g, f) && root !in f.up && c in f.up && v in f.depth && Descends(g, f, c, v)
    requires Spare(g, f, root, v, w)
    ensures Joins(g, f.up[c], root, "")
  {
    if v == c {
      assert Touches(g, f.up[c], c);
    }
  }

  lemma {:induction false} WalkStaysBelow(
      g: Graph, f: Forest, tables: set<Name>, root: Name, c: Name, v: Name, walk: seq<nat>, z: Name)
    requires IsTree(g, f, tables, root) && c in f.up && v in tables && Descends(g, f, c, v)
    requires IsWalk(g, v, walk, z) && f.up[c] !in walk && !Joins(g, f.up[c], root, "")
    ensures z in tables && Descends(g, f, c, z)
    decreases |walk|
  {
    if walk != [] {
      var w := Other(g, walk[0], v);
      assert Joins(g, walk[0], v, w);
      if InForest(f, walk[0]) {
        StaysBelow(g, f, c, v, walk[0]);
      } else {
        SpareStaysAway(g, f, root, c, v, w);
      }
      WalkStaysBelow(g, f, tables, root, c, w, walk[1..], z);
    }
  }

  lemma {:induction false} WalkStays(g: Graph, tables: set<Name>, v: Name, walk: seq<nat>, z: Name)
    requires Closed(g, tables) && v in tables && IsWalk(g, v, walk, z)
    ensures z in tables
    decreases |walk|
  {
    if walk != [] {
      assert Joins(g, walk[0], v, Other(g, walk[0], v));
      WalkStays(g, tables, Other(g, walk[0], v), walk[1..], z);
    }
  }

  ghost predicate Closed(g: Graph, tables: set<Name>) {
    forall i, v, w :: v in tables && Joins(g, i, v, w) ==> w in tables
  }

  /** A fully explored tree has no cycle but those through the empty name. */
  lemma TreeHasNoCycle(g: Graph, f: Forest, tables: set<Name>, root: Name)
    requires IsTree(g, f, tables, root) && root in tables
    ensures !ReachesSeenCycle(g, root)
  {
    forall e, a, b, walk | Reaches(g, root, a) && IsCycle(g, e, a, b, walk)
      ensures Joins(g, e, root, "")
    {
      var way :| IsWalk(g, root, way, a);
      WalkStays(g, tables, root, way, a);
      NoCycleAt(g, f, tables, root, e, a, b, walk);
    }
  }

  lemma NoCycleAt(g: Graph, f: Forest, tables: set<Name>, root: Name, e: nat, a: Name, b: Name, walk: seq<nat>)
    requires IsTree(g, f, tables, root) && a in tables && IsCycle(g, e, a, b, walk)
    ensures Joins(g, e, root, "")
  {
    if !Joins(g, e, root, "") {
      assert InForest(f, e);
      var c :| c in f.up && f.up[c] == e;
      // Whichever end was discovered by `e`, a walk leads from it to the other end without `e`.
      if c == a {
        var back := WalkBack(g, b, walk, a);
        WalkStaysBelow(g, f, tables, root, c, c, back, b);
        DescendantsAreDeeper(g, f, c, b);
      } else {
        WalkStaysBelow(g, f, tables, root, c, c, walk, a);
        DescendantsAreDeeper(g, f, c, a);
      }
    }
  }

  // ---------------------------------------------------------------- adjacency

  /** The edges at `v` among the first `n`, each with its other end; a self-loop counts twice. */
  function Entries(g: Graph, n: nat, v: Name): seq<(nat, Name)>
    requires n <= |g|
  {
    if n == 0 then []
    else
      Entries(g, n - 1, v)
      + (if g[n - 1].left == v then [(n - 1, g[n - 1].right)] else [])
      + (if g[n - 1].right == v then [(n - 1, g[n - 1].left)] else [])
  }

  lemma {:induction false} EntriesAreEdges(g: Graph, n: nat, v: Name, k: nat)
    requires n <= |g| && k < |Entries(g, n, v)|
    ensures Entries(g, n, v)[k].0 < n && Joins(g, Entries(g, n, v)[k].0, v, Entries(g, n, v)[k].1)
  {
    if k < |Entries(g, n - 1, v)| {
      EntriesAreEdges(g, n - 1, v, k);
    }
  }

  lemma {:induction false} EdgesAreEntries(g: Graph, n: nat, v: Name, i: nat, w: Name)
    requires i < n <= |g| && Joins(g, i, v, w)
    ensures (i, w) in Entries(g, n, v)
  {
    if i < n - 1 {
      EdgesAreEntries(g, n - 1, v, i, w);
    }
  }

  /** Only a self-loop has two entries. */
  lemma {:induction false} EntriesDiffer(g: Graph, n: nat, v: Name, j: nat, k: nat)
    requires n <= |g| && j < k < |Entries(g, n, v)| && Entries(g, n, v)[j].0 == Entries(g, n, v)[k].0
    ensures Entries(g, n, v)[j].1 == v
  {
    var before := |Entries(g, n - 1, v)|;
    if j < before {
      EntriesAreEdges(g, n - 1, v, j);
      if k < before {
        EntriesDiffer(g, n - 1, v, j, k);
      }
    }
  }

  function Ends(entries: seq<(nat, Name)>): (names: seq<Name>)
    ensures |names| == |entries| && forall k :: 0 <= k < |names| ==> names[k] == entries[k].1
  {
    seq(|entries|, k requires 0 <= k < |entries| => entries[k].1)
  }

  function Neighbours(adj: map<Name, seq<Name>>, v: Name): seq<Name> {
    if v in adj then adj[v] else []
  }

  ghost predicate Listed(adj: map<Name, seq<Name>>, g: Graph, n: nat, v: Name)
    requires n <= |g|
  {
    Neighbours(adj, v) == Ends(Entries(g, n, v))
  }

  ghost predicate IsAdjacency(adj: map<Name, seq<Name>>, g: Graph, n: nat)
    requires n <= |g|
  {
    forall v :: Listed(adj, g, n, v)
  }

  function Push(adj: map<Name, seq<Name>>, v: Name, w: Name): map<Name, seq<Name>> {
    adj[v := Neighbours(adj, v) + [w]]
  }

  lemma EndsJoin(a: seq<(nat, Name)>, b: seq<(nat, Name)>)
    ensures Ends(a + b) == Ends(a) + Ends(b)
  {
  }

  lemma PushedNeighbours(adj: map<Name, seq<Name>>, e: Edge, v: Name)
    ensures Neighbours(Push(Push(adj, e.left, e.right), e.right, e.left), v) ==
              Neighbours(adj, v) + (if e.left == v then [e.right] else []) + (if e.right == v then [e.left] else [])
  {
    assert Neighbours(adj, v) + [] + [] == Neighbours(adj, v);
  }

  lemma EntriesGrow(g: Graph, i: nat, v: Name)
    requires i < |g|
    ensures Ends(Entries(g, i + 1, v)) ==
              Ends(Entries(g, i, v)) + (if g[i].left == v then [g[i].right] else []) +
                (if g[i].right == v then [g[i].left] else [])
  {
    var first := if g[i].left == v then [(i, g[i].right)] else [];
    var second := if g[i].right == v then [(i, g[i].left)] else [];
    EndsJoin(Entries(g, i, v), first);
    EndsJoin(Entries(g, i, v) + first, second);
  }

  lemma ListedGrows(adj: map<Name, seq<Name>>, g: Graph, i: nat, v: Name)
    requires i < |g| && Listed(adj, g, i, v)
    ensures Listed(Push(Push(adj, g[i].left, g[i].right), g[i].right, g[i].left), g, i + 1, v)
  {
    PushedNeighbours(adj, g[i], v);
    EntriesGrow(g, i, v);
  }

  lemma AdjacencyGrows(adj: map<Name, seq<Name>>, g: Graph, i: nat)
    requires i < |g| && IsAdjacency(adj, g, i)
    ensures IsAdjacency(Push(Push(adj, g[i].left, g[i].right), g[i].right, g[i].left), g, i + 1)
  {
    var adj', n := Push(Push(adj, g[i].left, g[i].right), g[i].right, g[i].left), i + 1;
    forall v
      ensures Listed(adj', g, n, v)
    {
      ListedGrows(adj, g, i, v);
    }
  }

  method BuildAdjacency(g: Graph) returns (adj: map<Name, seq<Name>>)
    ensures IsAdjacency(adj, g, |g|)
  {
    adj := map[];
    for i := 0 to |g|
      invariant IsAdjacency(adj, g, i)
    {
      AdjacencyGrows(adj, g, i);
      adj := Push(adj, g[i].left, g[i].right);
      adj := Push(adj, g[i].right, g[i].left);
    }
  }

  // ---------------------------------------------------------------- the search

  /** The state of a search from `root`; `base` is what earlier roots had visited. */
  ghost predicate Searching(g: Graph, base: set<Name>, root: Name, visited: set<Name>, f: Forest) {
    && f.depth.Keys == visited && base <= visited && Sound(g, f) && Closed(g, base) && root !in f.up
    && Rooted(g, base, root, visited, f)
  }

  /** Everything visited in this search was discovered from something visited in it, or is the root. */
  ghost predicate Rooted(g: Graph, base: set<Name>, root: Name, visited: set<Name>, f: Forest) {
    forall v :: v in visited && v !in base ==>
      if v in f.up then f.up[v] < |g| && Other(g, f.up[v], v) in visited && Other(g, f.up[v], v) !in base else v == root
  }

  ghost predicate Extends(f: Forest, f': Forest) {
    && (forall v :: v in f.depth ==> v in f'.depth && f'.depth[v] == f.depth[v] && (v in f'.up ==> v in f.up))
    && (forall v :: v in f.up ==> v in f'.up && f'.up[v] == f.up[v])
  }

  /** The edge discovered a table no deeper than `d`. */
  ghost predicate InForestWithin(f: Forest, i: nat, d: nat) {
    exists x :: x in f.up && x in f.depth && f.up[x] == i && f.depth[x] <= d
  }

  /** Following discovering edges up from `v` leads to the root. */
  lemma {:induction false} Climb(g: Graph, base: set<Name>, root: Name, visited: set<Name>, f: Forest, v: Name)
    returns (walk: seq<nat>)
    requires Searching(g, base, root, visited, f) && v in visited - base
    ensures IsWalk(g, v, walk, root) && forall i :: i in walk ==> InForestWithin(f, i, f.depth[v])
    decreases f.depth[v]
  {
    if v in f.up {
      var rest := Climb(g, base, root, visited, f, Other(g, f.up[v], v));
      walk := [f.up[v]] + rest;
      assert walk[1..] == rest;
    } else {
      walk := [];
    }
  }

  /** An edge outside the forest between two tables of one search closes a cycle. */
  lemma ChordClosesCycle(g: Graph, base: set<Name>, root: Name, visited: set<Name>, f: Forest, i: nat, v: Name, w: Name)
    requires Searching(g, base, root, visited, f) && v in visited - base && w in visited
    requires Joins(g, i, v, w) && !InForest(f, i)
    ensures ReachesCycle(g, root) && (!Joins(g, i, root, "") ==> ReachesSeenCycle(g, root))
  {
    assert Joins(g, i, w, v);
    var fromV := Climb(g, base, root, visited, f, v);
    var fromW := Climb(g, base, root, visited, f, w);
    var toV := WalkBack(g, v, fromV, root);
    WalksJoin(g, w, fromW, root, toV, v);
    assert Reaches(g, root, v) && IsCycle(g, i, v, w, fromW + toV);
  }

  /** No edge discovered two tables. */
  lemma OneDiscovery(g: Graph, f: Forest, x: Name, y: Name)
    requires Sound(g, f) && x in f.up && y in f.up && f.up[x] == f.up[y]
    ensures x == y
  {
  }

  /** The same when the chord joins the root with the empty name: the edge that discovered the
      empty name, from elsewhere, is then on the cycle. */
  lemma SpareChordClosesCycle(g: Graph, base: set<Name>, root: Name, visited: set<Name>, f: Forest, i: nat)
    requires Searching(g, base, root, visited, f) && "" in visited - base && "" in f.up
    requires Other(g, f.up[""], "") != root && root != "" && Joins(g, i, "", root) && !InForest(f, i)
    ensures ReachesSeenCycle(g, root)
  {
    var e, p := f.up[""], Other(g, f.up[""], "");
    var fromP := Climb(g, base, root, visited, f, p);
    if e in fromP {
      var x :| x in f.up && x in f.depth && f.up[x] == e && f.depth[x] <= f.depth[p];
      OneDiscovery(g, f, x, "");
    }
    assert Joins(g, i, root, "") && IsWalk(g, root, [i], "");
    WalksJoin(g, p, fromP, root, [i], "");
    var fromEmpty := Climb(g, base, root, visited, f, "");
    var way := WalkBack(g, "", fromEmpty, root);
    assert Reaches(g, root, "");
    assert IsCycle(g, e, "", p, fromP + [i]);
  }

  ghost predicate Covers(universe: set<Name>, g: Graph) {
    forall i, v, w :: Joins(g, i, v, w) ==> v in universe
  }

  ghost function Universe(g: Graph, tables: seq<Name>): (r: set<Name>)
    ensures Covers(r, g) && forall k :: 0 <= k < |tables| ==> tables[k] in r
  {
    (set i | 0 <= i < |g| :: g[i].left) + (set i | 0 <= i < |g| :: g[i].right) +
      (set k | 0 <= k < |tables| :: tables[k])
  }

  /** What the tables visited since `visited` was current were found by: edges among themselves,
      apart from the first. */
  ghost predicate NewlyFound(g: Graph, f: Forest, node: Name, visited: set<Name>, visited': set<Name>) {
    forall x :: x in visited' - visited && x != node ==> x in f.up && f.up[x] < |g| && Other(g, f.up[x], x) !in visited
  }

  /** Every edge at the newly visited tables is in the forest, except perhaps those from `node` to `parent`. */
  ghost predicate Finished(g: Graph, f: Forest, node: Name, parent: Name, visited: set<Name>, visited': set<Name>) {
    forall i, x, w :: x in visited' - visited && Joins(g, i, x, w) ==> InForest(f, i) || (x == node && w == parent)
  }

  ghost function Discover(f: Forest, node: Name, parent: Name, via: Option<nat>): Forest
    requires via.Some? ==> parent in f.depth
  {
    if via.None? then f.(depth := f.depth[node := 0])
    else Forest(f.depth[node := f.depth[parent] + 1], f.up[node := via.value])
  }

  /** How a table is entered: as the root, or from a visited parent. */
  ghost predicate Entered(
      g: Graph, base: set<Name>, root: Name, visited: set<Name>, node: Name, parent: Name, via: Option<nat>) {
    && node !in visited
    && if via.None? then node == root && visited == base && parent == ""
       else root in visited && parent in visited - base && Joins(g, via.value, node, parent)
  }

  /** The first `k` edges at `node` are in the forest or lead to the parent; of the rest, only
      those that lead to the parent can be. */
  ghost predicate Scanned(g: Graph, f: Forest, node: Name, parent: Name, k: nat) {
    ScannedOf(f, Entries(g, |g|, node), parent, k)
  }

  ghost predicate ScannedOf(f: Forest, entries: seq<(nat, Name)>, parent: Name, k: nat) {
    && k <= |entries|
    && (forall j :: 0 <= j < k ==> InForest(f, entries[j].0) || (entries[j].1 == parent && parent in f.depth))
    && (forall j :: k <= j < |entries| ==> !InForest(f, entries[j].0) || entries[j].1 == parent)
  }

  /** `x` was discovered from `node`. */
  ghost predicate ChildOf(g: Graph, f: Forest, x: Name, node: Name) {
    x in f.up && f.up[x] < |g| && Other(g, f.up[x], x) == node
  }

  ghost predicate ChildrenFinished(g: Graph, f: Forest, node: Name, visited: set<Name>, visited': set<Name>) {
    forall i, x, w :: x in visited' - visited - {node} && Joins(g, i, x, w) ==>
      InForest(f, i) || (w == node && ChildOf(g, f, x, node))
  }

  lemma StillInForest(f: Forest, f': Forest, i: nat)
    requires Extends(f, f') && InForest(f, i)
    ensures InForest(f', i)
  {
    var x :| x in f.up && f.up[x] == i;
    assert x in f'.up && f'.up[x] == i;
  }

  lemma EnteredSound(
      g: Graph, base: set<Name>, root: Name, visited: set<Name>, f: Forest, node: Name, parent: Name, via: Option<nat>)
    requires f.depth.Keys == visited && Sound(g, f) && Entered(g, base, root, visited, node, parent, via)
    ensures var f' := Discover(f, node, parent, via); Extends(f, f') && Sound(g, f')
  {
  }

  lemma EnteredSearching(
      g: Graph, base: set<Name>, root: Name, visited: set<Name>, f: Forest, node: Name, parent: Name, via: Option<nat>)
    requires Searching(g, base, root, visited, f) && Entered(g, base, root, visited, node, parent, via)
    ensures var f' := Discover(f, node, parent, via); Extends(f, f') && Searching(g, base, root, visited + {node}, f')
  {
    EnteredSound(g, base, root, visited, f, node, parent, via);
    EnteredRooted(g, base, root, visited, f, node, parent, via);
  }

  lemma EnteredRooted(
      g: Graph, base: set<Name>, root: Name, visited: set<Name>, f: Forest, node: Name, parent: Name, via: Option<nat>)
    requires f.depth.Keys == visited && Sound(g, f) && Rooted(g, base, root, visited, f) &&
             Entered(g, base, root, visited, node, parent, via)
    ensures Rooted(g, base, root, visited + {node}, Discover(f, node, parent, via))
  {
  }

  lemma EnteredScanned(
      g: Graph, base: set<Name>, root: Name, visited: set<Name>, f: Forest, node: Name, parent: Name, via: Option<nat>)
    requires Searching(g, base, root, visited, f) && Entered(g, base, root, visited, node, parent, via)
    ensures Scanned(g, Discover(f, node, parent, via), node, parent, 0)
  {
    var f' := Discover(f, node, parent, via);
    var entries := Entries(g, |g|, node);
    forall j | 0 <= j < |entries| && InForest(f', entries[j].0)
      ensures entries[j].1 == parent
    {
      EntriesAreEdges(g, |g|, node, j);
      var x :| x in f'.up && f'.up[x] == entries[j].0;
    }
  }

  /** What a search below a child, entered by the edge of entry `k`, leaves of the scan. */
  lemma ScanGoesOn(
      g: Graph, f: Forest, node: Name, parent: Name, k: nat, before: set<Name>, nb: Name, after: set<Name>, f': Forest)
    requires Sound(g, f) && Scanned(g, f, node, parent, k) && k < |Entries(g, |g|, node)| && node in before &&
             nb !in before
    requires Entries(g, |g|, node)[k].1 == nb
    requires Extends(f, f') && f.depth.Keys == before && f'.depth.Keys == after &&
             NewlyFound(g, f', nb, before, after) && Sound(g, f')
    requires nb in f'.up && f'.up[nb] == Entries(g, |g|, node)[k].0
    ensures Scanned(g, f', node, parent, k + 1)
  {
    var entries := Entries(g, |g|, node);
    forall j | k < j < |entries| && InForest(f', entries[j].0)
      ensures InForest(f, entries[j].0)
    {
      EntriesAreEdges(g, |g|, node, j);
      if entries[k].0 == entries[j].0 {
        EntriesDiffer(g, |g|, node, k, j);
      }
      LaterStays(g, f, node, before, nb, after, f', entries[k].0, entries[j].0, entries[j].1);
    }
    ScannedNext(f, f', entries, parent, k);
  }

  lemma ScannedNext(f: Forest, f': Forest, entries: seq<(nat, Name)>, parent: Name, k: nat)
    requires ScannedOf(f, entries, parent, k) && k < |entries| && Extends(f, f') && InForest(f', entries[k].0)
    requires forall j :: k < j < |entries| && InForest(f', entries[j].0) ==> InForest(f, entries[j].0)
    ensures ScannedOf(f', entries, parent, k + 1)
  {
    forall j | 0 <= j <= k
      ensures InForest(f', entries[j].0) || (entries[j].1 == parent && parent in f'.depth)
    {
      if j < k && InForest(f, entries[j].0) {
        StillInForest(f, f', entries[j].0);
      }
    }
  }

  /** Another edge at `node` that is in the forest was in it before. */
  lemma LaterStays(
      g: Graph, f: Forest, node: Name, before: set<Name>, nb: Name, after: set<Name>, f': Forest,
      taken: nat, i: nat, w: Name)
    requires node in before && nb !in before && Joins(g, i, node, w) && i != taken && InForest(f', i)
    requires Extends(f, f') && f.depth.Keys == before && f'.depth.Keys == after &&
             NewlyFound(g, f', nb, before, after) && Sound(g, f')
    requires nb in f'.up && f'.up[nb] == taken
    ensures InForest(f, i)
  {
    var x :| x in f'.up && f'.up[x] == i;
    assert x == node || Other(g, i, x) == node;
    assert x in before;
    assert x in f.up && f.up[x] == i;
  }

  lemma AllFinished(g: Graph, f: Forest, node: Name, parent: Name, visited: set<Name>, visited': set<Name>)
    requires ChildrenFinished(g, f, node, visited, visited') && parent in visited
    requires Scanned(g, f, node, parent, |Entries(g, |g|, node)|)
    ensures Finished(g, f, node, parent, visited, visited')
  {
    forall i, x, w | x in visited' - visited && Joins(g, i, x, w)
      ensures InForest(f, i) || (x == node && w == parent)
    {
      if x == node {
        EdgesAreEntries(g, |g|, node, i, w);
      } else if w == node {
        assert Joins(g, i, node, x);
        EdgesAreEntries(g, |g|, node, i, x);
      }
    }
  }

  lemma RootFinished(g: Graph, f: Forest, root: Name, base: set<Name>, visited': set<Name>)
    requires Searching(g, base, root, visited', f) && ChildrenFinished(g, f, root, base, visited') &&
             root in visited' - base
    requires Scanned(g, f, root, "", |Entries(g, |g|, root)|)
    ensures Explored(g, f, visited' - base, root) && Closed(g, visited')
  {
    forall i, v, w | v in visited' - base && Joins(g, i, v, w)
      ensures w in visited' && (InForest(f, i) || Spare(g, f, root, v, w))
    {
      if v == root {
        EdgesAreEntries(g, |g|, root, i, w);
      } else if w == root {
        assert Joins(g, i, root, v);
        EdgesAreEntries(g, |g|, root, i, v);
      }
    }
    forall i, v, w | v in visited' - base && Joins(g, i, v, w)
      ensures w !in base
    {
      assert Joins(g, i, w, v);
    }
  }

  lemma ScanSkips(g: Graph, f: Forest, node: Name, parent: Name, k: nat)
    requires Scanned(g, f, node, parent, k) && k < |Entries(g, |g|, node)|
    requires Entries(g, |g|, node)[k].1 == parent && parent in f.depth
    ensures Scanned(g, f, node, parent, k + 1)
  {
  }

  lemma NewlyFoundGoesOn(
      g: Graph, f: Forest, node: Name, visited: set<Name>, before: set<Name>, nb: Name, after: set<Name>, f': Forest)
    requires visited + {node} <= before && nb !in before && node !in visited && Extends(f, f') && f.depth.Keys == before
    requires NewlyFound(g, f, node, visited, before) && NewlyFound(g, f', nb, before, after)
    requires nb in f'.up && Joins(g, f'.up[nb], nb, node)
    ensures NewlyFound(g, f', node, visited, after)
  {
  }

  lemma ChildrenGoOn(
      g: Graph, f: Forest, node: Name, visited: set<Name>, before: set<Name>, nb: Name, after: set<Name>, f': Forest)
    requires ChildrenFinished(g, f, node, visited, before) && Extends(f, f') && Finished(g, f', nb, node, before, after)
    requires f.depth.Keys == before && ChildOf(g, f', nb, node)
    ensures ChildrenFinished(g, f', node, visited, after)
  {
    forall i, x, w | x in after - visited - {node} && Joins(g, i, x, w)
      ensures InForest(f', i) || (w == node && ChildOf(g, f', x, node))
    {
      if x in before && InForest(f, i) {
        StillInForest(f, f', i);
      }
    }
  }

  /** What the scan of `node` knows after its k first entries. */
  ghost predicate Midway(
      g: Graph, f: Forest, node: Name, parent: Name, k: nat, visited: set<Name>, visited': set<Name>)
  {
    && NewlyFound(g, f, node, visited, visited') && ChildrenFinished(g, f, node, visited, visited')
    && Scanned(g, f, node, parent, k)
  }

  lemma SearchGoesOn(
      g: Graph, f: Forest, node: Name, parent: Name, k: nat, visited: set<Name>, before: set<Name>, nb: Name,
      after: set<Name>, f': Forest)
    requires Midway(g, f, node, parent, k, visited, before) && visited + {node} <= before && node !in visited
    requires nb !in before && k < |Entries(g, |g|, node)| && Entries(g, |g|, node)[k].1 == nb
    requires Sound(g, f) && f.depth.Keys == before && Sound(g, f') && f'.depth.Keys == after && Extends(f, f')
    requires NewlyFound(g, f', nb, before, after) && Finished(g, f', nb, node, before, after)
    requires nb in f'.up && f'.up[nb] == Entries(g, |g|, node)[k].0
    ensures Midway(g, f', node, parent, k + 1, visited, after)
  {
    EntriesAreEdges(g, |g|, node, k);
    ScanGoesOn(g, f, node, parent, k, before, nb, after, f');
    ChildrenGoOn(g, f, node, visited, before, nb, after, f');
    NewlyFoundGoesOn(g, f, node, visited, before, nb, after, f');
  }

  /** Explores everything below `node`, entered from `parent` by the edge `via`. */
  method Dfs(ghost g: Graph, adj: map<Name, seq<Name>>, node: Name, parent: Name, visited: set<Name>,
             ghost universe: set<Name>, ghost via: Option<nat>, ghost base: set<Name>, ghost root: Name,
             ghost f: Forest)
    returns (found: bool, visited': set<Name>, ghost f': Forest)
    requires IsAdjacency(adj, g, |g|) && Covers(universe, g) && node in universe
    requires Searching(g, base, root, visited, f) && Entered(g, base, root, visited, node, parent, via)
    ensures found ==> ReachesSeenCycle(g, root)
    ensures !found ==> visited + {node} <= visited' && Searching(g, base, root, visited', f') && Extends(f, f')
    ensures !found ==> NewlyFound(g, f', node, visited, visited')
    ensures !found && via.Some? ==> Finished(g, f', node, parent, visited, visited')
    ensures !found && via.Some? ==> node in f'.up && f'.up[node] == via.value
    ensures !found && via.None? ==> IsTree(g, f', visited' - base, root) && Closed(g, visited')
    decreases universe - visited
  {
    visited' := visited + {node};
    f' := Discover(f, node, parent, via);
    EnteredSearching(g, base, root, visited, f, node, parent, via);
    EnteredScanned(g, base, root, visited, f, node, parent, via);
    var neighbours := Neighbours(adj, node);
    assert Listed(adj, g, |g|, node);
    for k := 0 to |neighbours|
      invariant visited + {node} <= visited' && Searching(g, base, root, visited', f')
      invariant Extends(f, f') && (via.Some? ==> node in f'.up && f'.up[node] == via.value)
      invariant Midway(g, f', node, parent, k, visited, visited')
    {
      var nb := neighbours[k];
      ghost var edge := Entries(g, |g|, node)[k].0;
      EntriesAreEdges(g, |g|, node, k);
      if nb !in visited' {
        ghost var before, was := visited', f';
        assert Joins(g, edge, nb, node);
        found, visited', f' := Dfs(g, adj, nb, node, visited', universe, Some(edge), base, root, f');
        if found {
          return;
        }
        SearchGoesOn(g, was, node, parent, k, visited, before, nb, visited', f');
      } else if nb == parent {
        ScanSkips(g, f', node, parent, k);
      } else {
        ChordIsSeen(g, base, root, visited', f', edge, node, nb, parent, via);
        found := true;
        return;
      }
    }
    found := false;
    if via.None? {
      RootFinished(g, f', root, base, visited');
    } else {
      AllFinished(g, f', node, parent, visited, visited');
    }
  }

  lemma ChordIsSeen(g: Graph, base: set<Name>, root: Name, visited: set<Name>, f: Forest,
                    i: nat, node: Name, nb: Name, parent: Name, via: Option<nat>)
    requires Searching(g, base, root, visited, f) && node in visited - base && nb in visited && nb != parent
    requires Joins(g, i, node, nb) && !InForest(f, i)
    requires if via.None? then node == root && parent == ""
             else node in f.up && f.up[node] == via.value && Joins(g, via.value, node, parent)
    ensures ReachesSeenCycle(g, root)
  {
    if !Joins(g, i, root, "") {
      ChordClosesCycle(g, base, root, visited, f, i, node, nb);
    } else {
      SpareChordClosesCycle(g, base, root, visited, f, i);
    }
  }

  /** A listed table that no earlier one reaches: where a search starts. */
  ghost predicate Starts(g: Graph, tables: seq<Name>, k: nat) {
    k < |tables| && forall j :: 0 <= j < k ==> !Reaches(g, tables[j], tables[k])
  }

  /** True exactly when a search start reaches a cycle that is seen. */
  method HasCycle(tables: seq<Name>, g: Graph) returns (found: bool)
    ensures found <==> exists k: nat :: Starts(g, tables, k) && ReachesSeenCycle(g, tables[k])
  {
    var adj := BuildAdjacency(g);
    ghost var universe := Universe(g, tables);
    var visited: set<Name> := {};
    ghost var f := Forest(map[], map[]);
    for k := 0 to |tables|
      invariant f.depth.Keys == visited && Sound(g, f) && Closed(g, visited)
      invariant AllVisited(tables, k, visited) && AllReachedBy(g, tables, k, visited) && NoneSeen(g, tables, k)
    {
      var start := tables[k];
      if start !in visited {
        ghost var base := visited;
        StartsHere(g, tables, visited, k);
        found, visited, f := Dfs(g, adj, start, "", visited, universe, None, base, start, f);
        if found {
          return;
        }
        TreeHasNoCycle(g, f, visited - base, start);
        Searched(g, tables, k, base, visited, f);
        NoneSeenSoFar(g, tables, k);
      } else {
        Skipping(g, tables, visited, k);
        StillReachedBy(g, tables, k, visited);
        StillVisited(tables, k, visited);
      }
    }
    found := false;
  }

  ghost predicate AllVisited(tables: seq<Name>, k: nat, visited: set<Name>) {
    forall j :: 0 <= j < k && j < |tables| ==> tables[j] in visited
  }

  ghost predicate ReachedBy(g: Graph, tables: seq<Name>, k: nat, v: Name) {
    exists j :: 0 <= j < k && j < |tables| && Reaches(g, tables[j], v)
  }

  ghost predicate AllReachedBy(g: Graph, tables: seq<Name>, k: nat, visited: set<Name>) {
    forall v :: v in visited ==> ReachedBy(g, tables, k, v)
  }

  ghost predicate NoneSeen(g: Graph, tables: seq<Name>, k: nat) {
    forall j :: 0 <= j < k && Starts(g, tables, j) ==> !ReachesSeenCycle(g, tables[j])
  }

  lemma StartsHere(g: Graph, tables: seq<Name>, visited: set<Name>, k: nat)
    requires Closed(g, visited) && k < |tables| && tables[k] !in visited && AllVisited(tables, k, visited)
    ensures Starts(g, tables, k)
  {
    forall j | 0 <= j < k && Reaches(g, tables[j], tables[k])
      ensures false
    {
      var way :| IsWalk(g, tables[j], way, tables[k]);
      WalkStays(g, visited, tables[j], way, tables[k]);
    }
  }

  lemma NotAStart(g: Graph, tables: seq<Name>, k: nat)
    requires k < |tables| && ReachedBy(g, tables, k, tables[k])
    ensures !Starts(g, tables, k)
  {
  }

  lemma {:induction false} StillReachedBy(g: Graph, tables: seq<Name>, k: nat, visited: set<Name>)
    requires AllReachedBy(g, tables, k, visited)
    ensures AllReachedBy(g, tables, k + 1, visited)
  {
    forall v | v in visited
      ensures ReachedBy(g, tables, k + 1, v)
    {
      assert ReachedBy(g, tables, k, v);
    }
  }

  /** A table visited before its turn is not a start. */
  lemma Skipping(g: Graph, tables: seq<Name>, visited: set<Name>, k: nat)
    requires k < |tables| && tables[k] in visited && AllReachedBy(g, tables, k, visited) && NoneSeen(g, tables, k)
    ensures NoneSeen(g, tables, k + 1)
  {
    NotAStart(g, tables, k);
    NoneSeenSoFar(g, tables, k);
  }

  lemma Searched(g: Graph, tables: seq<Name>, k: nat, base: set<Name>, visited: set<Name>, f: Forest)
    requires k < |tables| && Searching(g, base, tables[k], visited, f) && tables[k] in visited
    requires AllVisited(tables, k, base) && AllReachedBy(g, tables, k, base)
    ensures AllVisited(tables, k + 1, visited) && AllReachedBy(g, tables, k + 1, visited)
  {
    forall v | v in visited
      ensures ReachedBy(g, tables, k + 1, v)
    {
      if v in base {
        assert ReachedBy(g, tables, k, v);
      } else {
        var up := Climb(g, base, tables[k], visited, f, v);
        var way := WalkBack(g, v, up, tables[k]);
        assert Reaches(g, tables[k], v);
      }
    }
  }

  lemma NoneSeenSoFar(g: Graph, tables: seq<Name>, k: nat)
    requires k < |tables| && NoneSeen(g, tables, k) && (Starts(g, tables, k) ==> !ReachesSeenCycle(g, tables[k]))
    ensures NoneSeen(g, tables, k + 1)
  {
  }

  lemma StillVisited(tables: seq<Name>, k: nat, visited: set<Name>)
    requires k < |tables| && AllVisited(tables, k, visited) && tables[k] in visited
    ensures AllVisited(tables, k + 1, visited)
  {
  }

  // ---------------------------------------------------------------- what is seen

  /** No listed table is joined with the empty name. */
  ghost predicate Named(g: Graph, tables: seq<Name>) {
    forall i, k :: 0 <= k < |tables| ==> !Joins(g, i, tables[k], "")
  }

  lemma {:induction false} FirstToReach(g: Graph, tables: seq<Name>, j: nat, v: Name) returns (k: nat)
    requires j < |tables| && Reaches(g, tables[j], v)
    ensures Starts(g, tables, k) && Reaches(g, tables[k], v)
    decreases j
  {
    if Starts(g, tables, j) {
      k := j;
    } else {
      var i :| 0 <= i < j && Reaches(g, tables[i], tables[j]);
      var p :| IsWalk(g, tables[i], p, tables[j]);
      var q :| IsWalk(g, tables[j], q, v);
      WalksJoin(g, tables[i], p, tables[j], q, v);
      k := FirstToReach(g, tables, i, v);
    }
  }

  /** With every joined table named, the search answers whether any listed table reaches a cycle. */
  lemma NamedCyclesAreSeen(g: Graph, tables: seq<Name>)
    requires Named(g, tables)
    ensures (exists k: nat :: Starts(g, tables, k) && ReachesSeenCycle(g, tables[k])) <==>
              exists j: nat :: j < |tables| && ReachesCycle(g, tables[j])
  {
    if j: nat :| j < |tables| && ReachesCycle(g, tables[j]) {
      var e, a, b, walk :| Reaches(g, tables[j], a) && IsCycle(g, e, a, b, walk);
      var k := FirstToReach(g, tables, j, a);
      assert ReachesSeenCycle(g, tables[k]);
    }
    if k: nat :| Starts(g, tables, k) && ReachesSeenCycle(g, tables[k]) {
      assert ReachesCycle(g, tables[k]);
    }
  }

  /** Otherwise it may not: parallel predicates between a table and the empty name are a cycle
      that the search never reports. */
  method MissesEmptyName(table: Name, more: nat) returns (found: bool)
    ensures ReachesCycle(seq(2 + more, _ => Edge(table, "")), table)
    ensures !found
  {
    var g := seq(2 + more, _ => Edge(table, ""));
    found := HasCycle([table], g);
    assert IsWalk(g, table, [], table);
    assert IsWalk(g, "", [1], table);
    assert Reaches(g, table, table) && IsCycle(g, 0, table, "", [1]);
  }
}
