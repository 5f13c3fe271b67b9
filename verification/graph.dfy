/**
 The graph validator: the prerequisite graph derived from a catalog, the check
 for orphan prerequisite ids, the depth-first cycle check, and validation, which
 runs the orphan check to completion before the cycle check starts.
 */
module Graph {
  import opened Wrappers
  import opened Seqs
  import opened Registry
  import opened Shipped

  /** One adjacency entry: a skill id and its prerequisite ids (its outgoing edges). */
  datatype Node = Node(id: string, prereqs: seq<string>)

  /** The prerequisite graph, keyed in catalog order. */
  type Graph = seq<Node>

  /** Why validation failed: the set of all missing prerequisite ids, or one cycle. */
  datatype GraphError = Orphaned(ids: set<string>) | Cyclic(cycle: seq<string>)

  /** `build_prerequisite_graph`: one node per catalog entry, carrying its prerequisite list unchanged. */
  function BuildGraph(c: Catalog): (g: Graph)
    ensures |g| == |c|
    ensures forall i :: 0 <= i < |c| ==> g[i] == Node(c[i].id, c[i].skill.prereqs)
  {
    seq(|c|, i requires 0 <= i < |c| => Node(c[i].id, c[i].skill.prereqs))
  }

  function GraphKeys(g: Graph): set<string> {
    set n | n in g :: n.id
  }

  /** Every id the search can reach: the keys and every prerequisite id named by a node. */
  function Nodes(g: Graph): set<string> {
    GraphKeys(g) + set n, p | n in g && p in n.prereqs :: p
  }

  function NeighborsFrom(g: Graph, id: string, i: nat): seq<string>
    decreases |g| - i
  {
    if i >= |g| then []
    else if g[i].id == id then g[i].prereqs
    else NeighborsFrom(g, id, i + 1)
  }

  /**
   `graph.get(node, [])`: the prerequisites of a key; an id that is not a key,
   such as an orphan prerequisite, has no outgoing edges.
   */
  function Neighbors(g: Graph, id: string): seq<string> {
    NeighborsFrom(g, id, 0)
  }

  /** The scan from position `i` finds the first node keyed `id` there, or nothing. */
  lemma {:induction false} NeighborsFromFound(g: Graph, id: string, i: nat)
    ensures (forall j :: i <= j < |g| ==> g[j].id != id) ==> NeighborsFrom(g, id, i) == []
    ensures (exists j :: i <= j < |g| && g[j].id == id) ==> Node(id, NeighborsFrom(g, id, i)) in g
    decreases |g| - i
  {
    if i < |g| && g[i].id != id {
      NeighborsFromFound(g, id, i + 1);
      if exists j :: i <= j < |g| && g[j].id == id {
        var j :| i <= j < |g| && g[j].id == id;
        assert i + 1 <= j;
      }
    } else if i < |g| {
      assert g[i] in g;
    }
  }

  /** Neighbours always lie inside the reachable universe, and only keys have any. */
  lemma NeighborsInNodes(g: Graph, id: string)
    ensures id !in GraphKeys(g) ==> Neighbors(g, id) == []
    ensures id in GraphKeys(g) ==> Node(id, Neighbors(g, id)) in g
    ensures forall w :: w in Neighbors(g, id) ==> w in Nodes(g) && id in GraphKeys(g)
  {
    var r := Neighbors(g, id);
    NeighborsFromFound(g, id, 0);
    if id in GraphKeys(g) {
      var n :| n in g && n.id == id;
      var j :| 0 <= j < |g| && g[j] == n;
      assert Node(id, r) in g;
    } else {
      forall j | 0 <= j < |g| ensures g[j].id != id {
        assert g[j] in g;
      }
    }
  }

  /** The built graph has exactly the catalog's keys and maps each to its unchanged prerequisite list. */
  lemma BuildGraphNeighbors(c: Catalog, id: string)
    requires UniqueIds(c)
    ensures GraphKeys(BuildGraph(c)) == Keys(c)
    ensures Neighbors(BuildGraph(c), id) == PrereqsOf(c, id)
  {
    var g := BuildGraph(c);
    forall x | x in Keys(c) ensures x in GraphKeys(g) {
      var e :| e in c && e.id == x;
      var i :| 0 <= i < |c| && c[i] == e;
      assert g[i] in g;
    }
    forall x | x in GraphKeys(g) ensures x in Keys(c) {
      var n :| n in g && n.id == x;
      var i :| 0 <= i < |g| && g[i] == n;
      assert c[i] in c;
    }
    NeighborsInNodes(g, id);
    if id in Keys(c) {
      var r := Neighbors(g, id);
      var i :| 0 <= i < |g| && g[i] == Node(id, r);
      LookupAt(c, i);
    }
  }

  // ---------------------------------------------------------------------------
  // Orphan check
  // ---------------------------------------------------------------------------

  /** The prerequisite ids of nodes `i..` that are not in `all`, collected into one set. */
  function OrphansFrom(g: Graph, all: set<string>, i: nat): (r: set<string>)
    ensures forall x :: x in r <==> x !in all && exists j :: i <= j < |g| && x in g[j].prereqs
    decreases |g| - i
  {
    if i >= |g| then {}
    else
      var here := set p | p in g[i].prereqs && p !in all;
      here + OrphansFrom(g, all, i + 1)
  }

  /** `x` appears in the prerequisite list of some node. */
  predicate Mentioned(g: Graph, x: string) {
    exists n :: n in g && x in n.prereqs
  }

  /** Every missing prerequisite id of the whole graph, not just the first one found. */
  function Orphans(g: Graph, all: set<string>): (r: set<string>)
    ensures forall x :: x in r <==> x !in all && Mentioned(g, x)
  {
    var r := OrphansFrom(g, all, 0);
    forall x | Mentioned(g, x) ensures exists j :: 0 <= j < |g| && x in g[j].prereqs {
      var n :| n in g && x in n.prereqs;
      var j :| 0 <= j < |g| && g[j] == n;
    }
    r
  }

  /** `check_for_orphan_nodes`: fails, naming every missing id, iff some prerequisite is not in `all`. */
  function CheckOrphans(g: Graph, all: set<string>): (r: Outcome<set<string>>)
    ensures r.Pass? <==> forall n, p :: n in g && p in n.prereqs ==> p in all
    ensures r.Fail? ==> r.error == Orphans(g, all) && r.error != {}
  {
    var o := Orphans(g, all);
    if o != {} then Fail(o) else Pass
  }

  // ---------------------------------------------------------------------------
  // Cycle check
  // ---------------------------------------------------------------------------

  /** Each element after the first is a prerequisite of the element before it. */
  predicate Chain(g: Graph, p: seq<string>) {
    forall k :: 0 <= k < |p| - 1 ==> p[k + 1] in Neighbors(g, p[k])
  }

  /** A directed cycle: a chain whose last element lists the first one as a prerequisite. */
  predicate IsCycle(g: Graph, cyc: seq<string>) {
    |cyc| > 0 && Chain(g, cyc) && cyc[0] in Neighbors(g, cyc[|cyc| - 1])
  }

  ghost predicate Acyclic(g: Graph) {
    forall cyc :: !IsCycle(g, cyc)
  }

  /** Every neighbour of a finished node was finished before it. */
  predicate Topo(g: Graph, f: seq<string>) {
    forall i, w :: 0 <= i < |f| && w in Neighbors(g, f[i]) ==> w in f[..i]
  }

  /**
   The state of the depth-first search: `visited`, the recursion stack as a set,
   the current path, and `finished`, the post-order of fully explored nodes (a
   log the search keeps so that its completeness can be stated).
   */
  datatype Search = Search(visited: set<string>, stack: set<string>, path: seq<string>, finished: seq<string>)

  /** The outcome of exploring: the state after normal return, or the cycle that was raised. */
  datatype Walk = Explored(after: Search) | CycleAt(cycle: seq<string>)

  /** The search invariant: the stack is the set of nodes on the path, and visited = stack + finished. */
  predicate Inv(g: Graph, s: Search) {
    && s.visited <= Nodes(g)
    && s.stack == Elems(s.path)
    && Distinct(s.path)
    && Chain(g, s.path)
    && Distinct(s.finished)
    && s.visited == s.stack + Elems(s.finished)
    && s.stack !! Elems(s.finished)
    && Topo(g, s.finished)
  }

  lemma CardLess(a: set<string>, b: set<string>, x: string)
    requires a <= b && x in b && x !in a
    ensures |a| < |b|
  {
    assert a <= b - {x};
    assert |b - {x}| == |b| - 1;
    var d := (b - {x}) - a;
    assert b - {x} == a + d;
  }

  /** Entering `node`: `visited.add`, `recursion_stack.add`, `path.append`. */
  function Push(s: Search, node: string): Search {
    Search(s.visited + {node}, s.stack + {node}, s.path + [node], s.finished)
  }

  /** Leaving `node`: `recursion_stack.remove`, `path.pop`, and `node` joins the finished order. */
  function Pop(s: Search, node: string): Search
    requires |s.path| > 0
  {
    Search(s.visited, s.stack - {node}, s.path[..|s.path| - 1], s.finished + [node])
  }

  lemma PushInv(g: Graph, s: Search, node: string)
    requires Inv(g, s) && node in Nodes(g) && node !in s.visited
    requires |s.path| > 0 ==> node in Neighbors(g, s.path[|s.path| - 1])
    ensures Inv(g, Push(s, node))
  {
    var s1 := Push(s, node);
    assert Elems(s.path + [node]) == Elems(s.path) + {node};
    forall k | 0 <= k < |s1.path| - 1 ensures s1.path[k + 1] in Neighbors(g, s1.path[k]) {
      if k < |s.path| - 1 {
        assert s1.path[k] == s.path[k] && s1.path[k + 1] == s.path[k + 1];
      }
    }
  }

  /** The matching pop restores the caller's stack and path exactly. */
  lemma PopInv(g: Graph, s: Search, s2: Search, node: string)
    requires Inv(g, s) && node !in s.visited
    requires Inv(g, s2) && s2.stack == s.stack + {node} && s2.path == s.path + [node]
    requires forall w :: w in Neighbors(g, node) ==> w in s2.finished
    ensures Inv(g, Pop(s2, node))
    ensures Pop(s2, node).stack == s.stack && Pop(s2, node).path == s.path
    ensures node in Pop(s2, node).finished
  {
    var s3 := Pop(s2, node);
    assert s2.path[..|s2.path| - 1] == s.path;
    assert Elems(s2.finished + [node]) == Elems(s2.finished) + {node};
    forall i, w | 0 <= i < |s3.finished| && w in Neighbors(g, s3.finished[i])
      ensures w in s3.finished[..i]
    {
      if i < |s2.finished| {
        assert s3.finished[..i] == s2.finished[..i];
      } else {
        assert s3.finished[..i] == s2.finished;
      }
    }
  }

  /** A prerequisite found on the stack closes a simple cycle: the path sliced from its first occurrence. */
  lemma BackEdgeCycle(g: Graph, s: Search, node: string, nb: string)
    requires Inv(g, s) && |s.path| > 0 && s.path[|s.path| - 1] == node
    requires nb in Neighbors(g, node) && nb in s.stack
    ensures IsCycle(g, s.path[IndexOf(s.path, nb)..]) && Distinct(s.path[IndexOf(s.path, nb)..])
  {
    var k := IndexOf(s.path, nb);
    var cyc := s.path[k..];
    forall m | 0 <= m < |cyc| - 1 ensures cyc[m + 1] in Neighbors(g, cyc[m]) {
      assert cyc[m] == s.path[k + m] && cyc[m + 1] == s.path[k + m + 1];
    }
    assert cyc[|cyc| - 1] == node;
  }

  lemma PrefixKeeps(f: seq<string>, f2: seq<string>, x: string)
    requires f <= f2 && x in f
    ensures x in f2
  {
    var k :| 0 <= k < |f| && f[k] == x;
    assert f2[k] == x;
  }

  lemma FinishedGrows(nbrs: seq<string>, i: nat, f: seq<string>, f2: seq<string>)
    requires i < |nbrs| && f <= f2 && nbrs[i] in f2
    requires forall j :: 0 <= j < i ==> nbrs[j] in f
    ensures forall j :: 0 <= j < i + 1 ==> nbrs[j] in f2
  {
    forall j | 0 <= j < i ensures nbrs[j] in f2 {
      PrefixKeeps(f, f2, nbrs[j]);
    }
  }

  /** After a child search returns normally, the loop may move on to the next prerequisite, on a smaller unvisited set. */
  lemma AfterChild(g: Graph, node: string, nbrs: seq<string>, i: nat, s: Search, s': Search)
    requires i < |nbrs| && nbrs[i] !in s.visited && nbrs[i] in Nodes(g)
    requires forall j :: 0 <= j < i ==> nbrs[j] in s.finished
    requires s.visited <= Nodes(g) && s'.visited <= Nodes(g)
    requires s.visited <= s'.visited && s.finished <= s'.finished && nbrs[i] in s'.finished
    requires Elems(s'.finished) <= s'.visited
    requires |s.path| > 0 && s.path[|s.path| - 1] == node && s'.path == s.path
    ensures forall j :: 0 <= j < i + 1 ==> nbrs[j] in s'.finished
    ensures |Nodes(g) - s'.visited| < |Nodes(g) - s.visited|
    ensures |s'.path| > 0 && s'.path[|s'.path| - 1] == node
  {
    assert nbrs[i] in s'.visited by { assert nbrs[i] in Elems(s'.finished); }
    CardLess(Nodes(g) - s'.visited, Nodes(g) - s.visited, nbrs[i]);
    FinishedGrows(nbrs, i, s.finished, s'.finished);
  }

  /**
   `_dfs_cycle_check`: visit `node`, push it on the stack and the path, explore its
   prerequisites in list order, then pop it. On normal return the stack and path
   are as they were and `node` is finished; a raised cycle is a genuine simple cycle.
   */
  function Dfs(g: Graph, node: string, s: Search): (r: Walk)
    requires Inv(g, s) && node in Nodes(g) && node !in s.visited
    requires |s.path| > 0 ==> node in Neighbors(g, s.path[|s.path| - 1])
    ensures r.Explored? ==> && Inv(g, r.after)
                            && r.after.stack == s.stack && r.after.path == s.path
                            && s.visited <= r.after.visited
                            && s.finished <= r.after.finished
                            && node in r.after.finished
    ensures r.CycleAt? ==> IsCycle(g, r.cycle) && Distinct(r.cycle)
    decreases |Nodes(g) - s.visited|, 0
  {
    var s1 := Push(s, node);
    CardLess(Nodes(g) - s1.visited, Nodes(g) - s.visited, node);
    PushInv(g, s, node);
    NeighborsInNodes(g, node);
    match Visit(g, node, Neighbors(g, node), 0, s1)
    case CycleAt(cyc) => CycleAt(cyc)
    case Explored(s2) =>
      PopInv(g, s, s2, node);
      Explored(Pop(s2, node))
  }

  /** The loop over the prerequisites `nbrs[i..]` of `node`, the last node on the path. */
  function Visit(g: Graph, node: string, nbrs: seq<string>, i: nat, s: Search): (r: Walk)
    requires Inv(g, s) && nbrs == Neighbors(g, node) && i <= |nbrs|
    requires |s.path| > 0 && s.path[|s.path| - 1] == node
    requires forall w :: w in nbrs ==> w in Nodes(g)
    requires forall j :: 0 <= j < i ==> nbrs[j] in s.finished
    ensures r.Explored? ==> && Inv(g, r.after)
                            && r.after.stack == s.stack && r.after.path == s.path
                            && s.visited <= r.after.visited
                            && s.finished <= r.after.finished
                            && forall w :: w in nbrs ==> w in r.after.finished
    ensures r.CycleAt? ==> IsCycle(g, r.cycle) && Distinct(r.cycle)
    decreases |Nodes(g) - s.visited|, 1, |nbrs| - i
  {
    if i == |nbrs| then Explored(s)
    else
      var nb := nbrs[i];
      if nb !in s.visited then
        match Dfs(g, nb, s)
        case CycleAt(cyc) => CycleAt(cyc)
        case Explored(s') =>
          AfterChild(g, node, nbrs, i, s, s');
          Visit(g, node, nbrs, i + 1, s')
      else if nb in s.stack then
        BackEdgeCycle(g, s, node, nb);
        CycleAt(s.path[IndexOf(s.path, nb)..])
      else
        Visit(g, node, nbrs, i + 1, s)
  }

  /** A finished search from key `i` leaves keys `0..i` visited. */
  lemma KeysVisited(g: Graph, i: nat, s: Search, s': Search)
    requires i < |g| && forall j :: 0 <= j < i ==> g[j].id in s.visited
    requires s.visited <= s'.visited && g[i].id in s'.finished
    requires s'.visited == s'.stack + Elems(s'.finished)
    ensures forall j :: 0 <= j < i + 1 ==> g[j].id in s'.visited
  {
    assert g[i].id in Elems(s'.finished);
  }

  /** The loop of `check_for_cycles` over the keys `g[i..]`, in graph order, each unvisited key starting a search. */
  function CheckFrom(g: Graph, i: nat, s: Search): (r: Walk)
    requires Inv(g, s) && s.stack == {} && s.path == [] && i <= |g|
    requires forall j :: 0 <= j < i ==> g[j].id in s.visited
    ensures r.Explored? ==> && Inv(g, r.after) && r.after.stack == {}
                            && forall n :: n in g ==> n.id in r.after.finished
    ensures r.CycleAt? ==> IsCycle(g, r.cycle) && Distinct(r.cycle)
    decreases |g| - i
  {
    if i == |g| then
      assert forall n :: n in g ==> n.id in s.finished by {
        forall n | n in g ensures n.id in s.finished {
          var j :| 0 <= j < |g| && g[j] == n;
        }
      }
      Explored(s)
    else if g[i].id in s.visited then CheckFrom(g, i + 1, s)
    else
      assert g[i].id in GraphKeys(g) by { assert g[i] in g; }
      match Dfs(g, g[i].id, s)
      case CycleAt(cyc) => CycleAt(cyc)
      case Explored(s') =>
        KeysVisited(g, i, s, s');
        CheckFrom(g, i + 1, s')
  }

  /** The nodes along an edge of a topologically finished order appear in decreasing positions. */
  lemma EdgeLowers(g: Graph, f: seq<string>, x: string, w: string)
    requires Topo(g, f) && Distinct(f) && x in f && w in Neighbors(g, x)
    ensures w in f && IndexOf(f, w) < IndexOf(f, x)
  {
    var i := IndexOf(f, x);
    assert w in f[..i];
    var j :| 0 <= j < i && f[..i][j] == w;
    assert f[j] == w;
  }

  /** No cycle can lie inside a finished order in which every neighbour precedes its node. */
  lemma TopoRefutesCycle(g: Graph, f: seq<string>, cyc: seq<string>)
    requires Topo(g, f) && Distinct(f) && forall n :: n in g ==> n.id in f
    ensures !IsCycle(g, cyc)
  {
    if !IsCycle(g, cyc) { return; }
    var last := cyc[|cyc| - 1];
    NeighborsInNodes(g, last);
    var n :| n in g && n.id == last;
    EdgeLowers(g, f, last, cyc[0]);
    var k := 0;
    while k < |cyc| - 1
      invariant 0 <= k < |cyc|
      invariant cyc[k] in f && IndexOf(f, cyc[k]) <= IndexOf(f, cyc[0])
    {
      EdgeLowers(g, f, cyc[k], cyc[k + 1]);
      k := k + 1;
    }
    assert false;
  }

  /** A complete finished order in which every neighbour precedes its node certifies acyclicity. */
  lemma TopoAcyclic(g: Graph, f: seq<string>)
    requires Topo(g, f) && Distinct(f) && forall n :: n in g ==> n.id in f
    ensures Acyclic(g)
  {
    forall cyc ensures !IsCycle(g, cyc) {
      TopoRefutesCycle(g, f, cyc);
    }
  }

  /**
   `check_for_cycles`: passes iff the graph has no directed cycle; a failure
   carries a simple cycle, sliced from the path at the node found on the stack.
   */
  function CheckCycles(g: Graph): (r: Outcome<seq<string>>)
    ensures r.Pass? <==> Acyclic(g)
    ensures r.Fail? ==> IsCycle(g, r.error) && Distinct(r.error)
  {
    var s0 := Search({}, {}, [], []);
    assert Inv(g, s0) by { assert Elems<string>([]) == {}; }
    match CheckFrom(g, 0, s0)
    case CycleAt(cyc) => Fail(cyc)
    case Explored(s) =>
      TopoAcyclic(g, s.finished);
      Pass
  }

  /**
   `validate_graph`: the orphan check runs to completion first and reports every
   missing id; only an orphan-free graph reaches the cycle check.
   */
  function Validate(c: Catalog): (r: Outcome<GraphError>)
    ensures r.Pass? <==> NoOrphans(c) && Acyclic(BuildGraph(c))
    ensures (r.Fail? && r.error.Orphaned?) <==> !NoOrphans(c)
    ensures r.Fail? && r.error.Orphaned? ==>
              forall x :: x in r.error.ids <==> x !in Keys(c) && Required(c, x)
    ensures r.Fail? && r.error.Cyclic? ==> IsCycle(BuildGraph(c), r.error.cycle) && Distinct(r.error.cycle)
  {
    var g := BuildGraph(c);
    forall x ensures Required(c, x) <==> Mentioned(g, x) {
      if Required(c, x) {
        var e :| e in c && x in e.skill.prereqs;
        var i :| 0 <= i < |c| && c[i] == e;
        assert g[i] in g;
      }
      if Mentioned(g, x) {
        var n :| n in g && x in n.prereqs;
        var i :| 0 <= i < |g| && g[i] == n;
        assert c[i] in c;
      }
    }
    match CheckOrphans(g, Keys(c))
    case Fail(o) => Fail(Orphaned(o))
    case Pass =>
      match CheckCycles(g)
      case Fail(cyc) => Fail(Cyclic(cyc))
      case Pass => Pass
  }

  // ---------------------------------------------------------------------------
  // Facts about particular graphs
  // ---------------------------------------------------------------------------

  /** A rank that decreases along every known prerequisite edge rules out every cycle. */
  lemma RankAcyclic(c: Catalog, rank: map<string, nat>)
    requires ValidRank(c, rank)
    ensures Acyclic(BuildGraph(c))
  {
    var g := BuildGraph(c);
    forall cyc ensures !IsCycle(g, cyc) {
      RankRefutesCycle(c, rank, cyc);
    }
  }

  /** Only keys have prerequisites, and a valid rank ranks every key. */
  lemma KeyRanked(c: Catalog, rank: map<string, nat>, x: string)
    requires ValidRank(c, rank)
    ensures Neighbors(BuildGraph(c), x) != [] ==> x in rank
  {
    var g := BuildGraph(c);
    if Neighbors(g, x) != [] {
      assert Neighbors(g, x)[0] in Neighbors(g, x);
      NeighborsInNodes(g, x);
      var n :| n in g && n.id == x;
      var j :| 0 <= j < |g| && g[j] == n;
      assert c[j] in c;
    }
  }

  /** Along an edge into a node that has prerequisites of its own, the rank strictly drops. */
  lemma RankEdge(c: Catalog, rank: map<string, nat>, x: string, w: string)
    requires ValidRank(c, rank)
    ensures w in Neighbors(BuildGraph(c), x) && Neighbors(BuildGraph(c), w) != [] ==>
              x in rank && w in rank && rank[w] < rank[x]
  {
    var g := BuildGraph(c);
    if w in Neighbors(g, x) && Neighbors(g, w) != [] {
      NeighborsInNodes(g, x);
      var i :| 0 <= i < |g| && g[i] == Node(x, Neighbors(g, x));
      assert c[i] in c;
      NeighborsInNodes(g, w);
      var nw :| nw in g && nw.id == w;
      var j :| 0 <= j < |g| && g[j] == nw;
      assert c[j] in c && c[j].id == w;
    }
  }

  /** Down a chain that ends in a node with prerequisites, the rank never rises. */
  lemma ChainRank(c: Catalog, rank: map<string, nat>, p: seq<string>)
    requires ValidRank(c, rank) && |p| > 0 && Chain(BuildGraph(c), p)
    ensures Neighbors(BuildGraph(c), p[|p| - 1]) != [] ==>
              p[0] in rank && p[|p| - 1] in rank && rank[p[|p| - 1]] <= rank[p[0]]
  {
    var g := BuildGraph(c);
    var last := |p| - 1;
    if Neighbors(g, p[last]) != [] {
      KeyRanked(c, rank, p[last]);
      var k := last;
      while k > 0
        invariant 0 <= k <= last
        invariant p[k] in rank && rank[p[last]] <= rank[p[k]] && Neighbors(g, p[k]) != []
      {
        assert p[k] in Neighbors(g, p[k - 1]);
        RankEdge(c, rank, p[k - 1], p[k]);
        k := k - 1;
      }
    }
  }

  /** In a cycle the first node has a prerequisite: the second node, or itself. */
  lemma FirstHasNeighbors(g: Graph, cyc: seq<string>)
    requires |cyc| > 0 && Chain(g, cyc)
    ensures cyc[0] in Neighbors(g, cyc[|cyc| - 1]) ==> Neighbors(g, cyc[0]) != []
  {
    if |cyc| > 1 {
      assert cyc[1] in Neighbors(g, cyc[0]);
    }
  }

  lemma RankRefutesCycle(c: Catalog, rank: map<string, nat>, cyc: seq<string>)
    requires ValidRank(c, rank)
    ensures !IsCycle(BuildGraph(c), cyc)
  {
    var g := BuildGraph(c);
    if |cyc| > 0 && Chain(g, cyc) {
      ChainRank(c, rank, cyc);
      FirstHasNeighbors(g, cyc);
      RankEdge(c, rank, cyc[|cyc| - 1], cyc[0]);
    }
  }

  /** The shipped catalog passes validation. */
  lemma MasterValid()
    ensures Validate(Master) == Pass
  {
    MasterWellFormed();
    RankAcyclic(Master, MasterRank);
  }

  /** In the two-node graph A -> B -> A, every cycle passes through both nodes. */
  lemma TwoCycleBoth(g: Graph, cyc: seq<string>)
    requires g == [Node("A", ["B"]), Node("B", ["A"])] && IsCycle(g, cyc)
    ensures "A" in cyc && "B" in cyc
  {
    assert GraphKeys(g) == {"A", "B"} by { assert g[0] in g && g[1] in g; }
    assert Neighbors(g, "A") == ["B"];
    assert Neighbors(g, "B") == ["A"] by { assert NeighborsFrom(g, "B", 1) == ["A"]; }
    NeighborsInNodes(g, cyc[0]);
    NeighborsInNodes(g, cyc[|cyc| - 1]);
    assert cyc[0] in Neighbors(g, cyc[|cyc| - 1]);
    if |cyc| > 1 {
      assert cyc[1] in Neighbors(g, cyc[0]);
    }
  }

  /** Two skills requiring each other: validation fails with a cycle through both. */
  lemma MutualPrerequisitesFail()
    ensures var c := [Entry("A", Skill(1, 1, 1, ["B"])), Entry("B", Skill(1, 1, 1, ["A"]))];
            var r := Validate(c);
            r.Fail? && r.error.Cyclic? && "A" in r.error.cycle && "B" in r.error.cycle
  {
    var c := [Entry("A", Skill(1, 1, 1, ["B"])), Entry("B", Skill(1, 1, 1, ["A"]))];
    var g := BuildGraph(c);
    assert g == [Node("A", ["B"]), Node("B", ["A"])];
    assert IsCycle(g, ["A", "B"]) by {
      assert Neighbors(g, "A") == ["B"];
      assert Neighbors(g, "B") == ["A"] by { assert NeighborsFrom(g, "B", 1) == ["A"]; }
    }
    assert NoOrphans(c) by {
      assert Keys(c) == {"A", "B"} by { assert c[0] in c && c[1] in c; }
    }
    var r := Validate(c);
    TwoCycleBoth(g, r.error.cycle);
  }

  /** A prerequisite id missing from the catalog: validation names it. */
  lemma MissingPrerequisiteFails()
    ensures Validate([Entry("A", Skill(1, 1, 1, ["Z"]))]) == Fail(Orphaned({"Z"}))
  {
    var c := [Entry("A", Skill(1, 1, 1, ["Z"]))];
    assert Keys(c) == {"A"};
    var r := Validate(c);
    assert !NoOrphans(c) by { assert c[0] in c && "Z" in c[0].skill.prereqs; }
    assert r.error.ids == {"Z"} by {
      assert forall e :: e in c ==> e == c[0];
    }
  }
}
