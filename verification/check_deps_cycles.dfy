/**
 Circular-dependency detection over the include graph: a depth-first search
 from each key of the forward mapping in insertion order, with the current
 path doubling as the recursion stack.
 */
module CheckDepsCycles {
  import opened Util
  import opened CheckDeps

  /** Every file that appears in the graph, as an includer or as an included file. */
  function Nodes(g: Graph): set<Path> {
    g.fwd.Keys + g.rev.Keys
  }

  ghost predicate IsWalk(g: Graph, p: seq<Path>) {
    forall i :: 0 <= i < |p| - 1 ==> p[i + 1] in Succ(g, p[i])
  }

  /** A closed walk: at least one edge, first element equal to the last. */
  ghost predicate IsCycle(g: Graph, c: seq<Path>) {
    |c| >= 2 && c[0] == c[|c| - 1] && IsWalk(g, c)
  }

  ghost predicate Acyclic(g: Graph) {
    forall c :: !IsCycle(g, c)
  }

  /** Every successor of a finished node finished before it. */
  ghost predicate FinishOrdered(g: Graph, done: seq<Path>) {
    forall i, b | 0 <= i < |done| && b in Succ(g, done[i]) :: b in done[..i]
  }

  /**
   The search state: the `visited` set, the current `path` (whose elements
   are exactly the recursion stack `rec_stack`), the order in which nodes
   finished (bookkeeping for the proof of completeness, not in the
   source), and the cycle once one is found.
   */
  datatype Search = Search(visited: set<Path>, path: seq<Path>, done: seq<Path>, cycle: Option<seq<Path>>)

  ghost predicate SearchInv(g: Graph, s: Search) {
    && GraphValid(g)
    && s.visited <= Nodes(g)
    && Distinct(s.path) && Distinct(s.done)
    && s.visited == Elems(s.path) + Elems(s.done)
    && Elems(s.path) !! Elems(s.done)
    && IsWalk(g, s.path)
    && FinishOrdered(g, s.done)
  }

  function Elems(s: seq<Path>): set<Path> {
    set x | x in s
  }

  /** What a search reports when it finds a cycle: a closed walk that repeats only its end point. */
  ghost predicate SimpleCycle(g: Graph, c: seq<Path>) {
    IsCycle(g, c) && Distinct(c[..|c| - 1])
  }

  lemma UnvisitedShrinks(u: set<Path>, a: set<Path>, b: set<Path>)
    requires a <= b
    ensures |u - b| <= |u - a|
  {
    SubsetCardinality(u - b, u - a);
  }

  lemma SuccIsNode(g: Graph, a: Path, b: Path)
    requires GraphValid(g) && b in Succ(g, a)
    ensures b in Nodes(g)
  {
    assert a in g.fwd && b in g.fwd[a];
  }

  /** Entering `node`: mark it visited and push it on the path. */
  function Enter(s: Search, node: Path): Search {
    s.(visited := s.visited + {node}, path := s.path + [node])
  }

  lemma EnterKeepsInv(g: Graph, node: Path, s: Search)
    requires SearchInv(g, s)
    requires node in Nodes(g) && node !in s.visited
    requires |s.path| > 0 ==> node in Succ(g, s.path[|s.path| - 1])
    ensures SearchInv(g, Enter(s, node))
    ensures |Nodes(g) - Enter(s, node).visited| < |Nodes(g) - s.visited|
  {
    EnterShrinks(Nodes(g), node, s);
    EnterKeepsSets(g, node, s);
    EnterKeepsWalk(g, node, s);
  }

  lemma EnterShrinks(nodes: set<Path>, node: Path, s: Search)
    requires node in nodes && node !in s.visited
    ensures |nodes - Enter(s, node).visited| < |nodes - s.visited|
  {
    assert nodes - Enter(s, node).visited == (nodes - s.visited) - {node};
  }

  lemma EnterKeepsSets(g: Graph, node: Path, s: Search)
    requires SearchInv(g, s)
    requires node in Nodes(g) && node !in s.visited
    ensures Enter(s, node).visited == Elems(Enter(s, node).path) + Elems(s.done)
    ensures Elems(Enter(s, node).path) !! Elems(s.done)
    ensures Distinct(Enter(s, node).path)
  {
    assert Elems(Enter(s, node).path) == Elems(s.path) + {node};
  }

  lemma EnterKeepsWalk(g: Graph, node: Path, s: Search)
    requires IsWalk(g, s.path)
    requires |s.path| > 0 ==> node in Succ(g, s.path[|s.path| - 1])
    ensures IsWalk(g, s.path + [node])
  {
    var p := s.path + [node];
    forall i | 0 <= i < |p| - 1 ensures p[i + 1] in Succ(g, p[i]) {
      if i + 1 < |s.path| {
        assert p[i] == s.path[i] && p[i + 1] == s.path[i + 1];
      }
    }
  }

  /** Leaving `node` once all its successors have finished: pop it and record it as finished. */
  function Leave(s: Search, node: Path): Search
    requires |s.path| > 0
  {
    s.(path := s.path[..|s.path| - 1], done := s.done + [node])
  }

  lemma LeaveKeepsInv(g: Graph, node: Path, s: Search)
    requires SearchInv(g, s)
    requires |s.path| > 0 && s.path[|s.path| - 1] == node
    requires forall b | b in Succ(g, node) :: b in s.done
    ensures SearchInv(g, Leave(s, node))
  {
    var r := Leave(s, node);
    assert FinishOrdered(g, r.done) by {
      forall i, b | 0 <= i < |r.done| && b in Succ(g, r.done[i]) ensures b in r.done[..i] {
        if i < |s.done| {
          assert r.done[..i] == s.done[..i];
        } else {
          assert r.done[..i] == s.done;
        }
      }
    }
    assert IsWalk(g, r.path) by {
      forall i | 0 <= i < |r.path| - 1 ensures r.path[i + 1] in Succ(g, r.path[i]) {
        assert r.path[i] == s.path[i] && r.path[i + 1] == s.path[i + 1];
      }
    }
    assert node in Elems(s.path) && node !in Elems(s.done);
    assert Distinct(r.done);
    assert s.path == r.path + [node];
    assert Elems(r.path) == Elems(s.path) - {node};
    assert Elems(r.done) == Elems(s.done) + {node};
  }

  /** Meeting `nb` on the current path closes a cycle through the path's suffix. */
  function CycleAt(path: seq<Path>, nb: Path): seq<Path>
    requires nb in path
  {
    path[IndexOf(path, nb)..] + [nb]
  }

  lemma CycleAtIsSimple(g: Graph, node: Path, nb: Path, s: Search)
    requires SearchInv(g, s)
    requires |s.path| > 0 && s.path[|s.path| - 1] == node
    requires nb in Succ(g, node) && nb in s.path
    ensures SimpleCycle(g, CycleAt(s.path, nb))
  {
    var i := IndexOf(s.path, nb);
    var c := CycleAt(s.path, nb);
    assert IsWalk(g, c) by {
      forall m | 0 <= m < |c| - 1 ensures c[m + 1] in Succ(g, c[m]) {
        if m + 1 < |c| - 1 {
          assert c[m] == s.path[i + m] && c[m + 1] == s.path[i + m + 1];
        } else {
          assert c[m] == node;
        }
      }
    }
    assert c[..|c| - 1] == s.path[i..];
  }

  /** `dfs(node, path, visited, rec_stack)` */
  function Dfs(g: Graph, node: Path, s: Search): (r: Search)
    requires SearchInv(g, s) && s.cycle.None?
    requires node in Nodes(g) && node !in s.visited
    requires |s.path| > 0 ==> node in Succ(g, s.path[|s.path| - 1])
    ensures s.visited <= r.visited <= Nodes(g)
    ensures r.cycle.Some? ==> SimpleCycle(g, r.cycle.value)
    ensures r.cycle.None? ==> SearchInv(g, r) && r.path == s.path && node in r.done && s.done <= r.done
    decreases |Nodes(g) - s.visited|, 0, 0
  {
    EnterKeepsInv(g, node, s);
    Explore(g, node, 0, Enter(s, node))
  }

  /** The loop of `dfs` over the neighbours of `node`, from the `k`-th on. */
  function Explore(g: Graph, node: Path, k: nat, s: Search): (r: Search)
    requires SearchInv(g, s) && s.cycle.None?
    requires |s.path| > 0 && s.path[|s.path| - 1] == node
    requires k <= |Succ(g, node)|
    requires forall j :: 0 <= j < k ==> Succ(g, node)[j] in s.done
    ensures s.visited <= r.visited <= Nodes(g)
    ensures r.cycle.Some? ==> SimpleCycle(g, r.cycle.value)
    ensures r.cycle.None? ==> SearchInv(g, r) && r.path == s.path[..|s.path| - 1] && node in r.done && s.done <= r.done
    decreases |Nodes(g) - s.visited|, |Succ(g, node)| - k + 1, 3
  {
    if k == |Succ(g, node)| then
      LeaveKeepsInv(g, node, s);
      Leave(s, node)
    else
      ExploreNeighbour(g, node, k, s)
  }

  /**
   One neighbour `nb`: search it if unvisited, report a cycle if it is on
   the recursion stack, skip it if it has already finished.
   */
  function ExploreNeighbour(g: Graph, node: Path, k: nat, s: Search): (r: Search)
    requires SearchInv(g, s) && s.cycle.None?
    requires |s.path| > 0 && s.path[|s.path| - 1] == node
    requires k < |Succ(g, node)|
    requires forall j :: 0 <= j < k ==> Succ(g, node)[j] in s.done
    ensures s.visited <= r.visited <= Nodes(g)
    ensures r.cycle.Some? ==> SimpleCycle(g, r.cycle.value)
    ensures r.cycle.None? ==> SearchInv(g, r) && r.path == s.path[..|s.path| - 1] && node in r.done && s.done <= r.done
    decreases |Nodes(g) - s.visited|, |Succ(g, node)| - k + 1, 2
  {
    var nb := Succ(g, node)[k];
    SuccIsNode(g, node, nb);
    if nb !in s.visited then Descend(g, node, k, s)
    else if nb in s.path then
      CycleAtIsSimple(g, node, nb, s);
      s.(cycle := Some(CycleAt(s.path, nb)))
    else
      assert nb in Elems(s.done);
      Explore(g, node, k + 1, s)
  }

  /** `cycle = dfs(neighbor, ...)` for an unvisited neighbour, then the rest of the loop. */
  function Descend(g: Graph, node: Path, k: nat, s: Search): (r: Search)
    requires SearchInv(g, s) && s.cycle.None?
    requires |s.path| > 0 && s.path[|s.path| - 1] == node
    requires k < |Succ(g, node)|
    requires Succ(g, node)[k] in Nodes(g) && Succ(g, node)[k] !in s.visited
    requires forall j :: 0 <= j < k ==> Succ(g, node)[j] in s.done
    ensures s.visited <= r.visited <= Nodes(g)
    ensures r.cycle.Some? ==> SimpleCycle(g, r.cycle.value)
    ensures r.cycle.None? ==> SearchInv(g, r) && r.path == s.path[..|s.path| - 1] && node in r.done && s.done <= r.done
    decreases |Nodes(g) - s.visited|, |Succ(g, node)| - k + 1, 1
  {
    var r := Dfs(g, Succ(g, node)[k], s);
    if r.cycle.Some? then r
    else
      FinishedNeighbours(g, node, k, s.done, r.done);
      Resume(g, node, k, s.visited, s.done, r)
  }

  /**
   The loop goes on after the `k`-th neighbour's search `r` finished
   without a cycle; `visited` and `done` are what the search started from.
   */
  function Resume(g: Graph, node: Path, k: nat, visited: set<Path>, done: seq<Path>, r: Search): (r': Search)
    requires SearchInv(g, r) && r.cycle.None?
    requires |r.path| > 0 && r.path[|r.path| - 1] == node
    requires k < |Succ(g, node)|
    requires visited <= r.visited && done <= r.done
    requires forall j :: 0 <= j < k + 1 ==> Succ(g, node)[j] in r.done
    ensures visited <= r'.visited <= Nodes(g)
    ensures r'.cycle.Some? ==> SimpleCycle(g, r'.cycle.value)
    ensures r'.cycle.None? ==> SearchInv(g, r') && r'.path == r.path[..|r.path| - 1] && node in r'.done && done <= r'.done
    decreases |Nodes(g) - visited|, |Succ(g, node)| - k + 1, 0
  {
    UnvisitedShrinks(Nodes(g), visited, r.visited);
    var r' := Explore(g, node, k + 1, r);
    PrefixTrans(done, r.done, r'.done);
    r'
  }

  lemma PrefixTrans(a: seq<Path>, b: seq<Path>, c: seq<Path>)
    requires a <= b
    ensures b <= c ==> a <= c
  {
    if b <= c {
      assert a == c[..|a|] by {
        assert b[..|a|] == c[..|a|];
      }
    }
  }

  lemma FinishedNeighbours(g: Graph, node: Path, k: nat, a: seq<Path>, b: seq<Path>)
    requires k < |Succ(g, node)|
    requires forall j :: 0 <= j < k ==> Succ(g, node)[j] in a
    requires a <= b && Succ(g, node)[k] in b
    ensures forall j :: 0 <= j < k + 1 ==> Succ(g, node)[j] in b
  {
    forall j | 0 <= j < k + 1 ensures Succ(g, node)[j] in b {
      if j < k {
        var m :| 0 <= m < |a| && a[m] == Succ(g, node)[j];
        assert b[m] == a[m];
      }
    }
  }

  /** The outer loop of find_circular_dependencies over the keys, from the `i`-th on. */
  function DetectFrom(g: Graph, i: nat, s: Search): (r: Search)
    requires SearchInv(g, s) && s.cycle.None? && s.path == []
    requires i <= |g.keys|
    requires forall j :: 0 <= j < i ==> g.keys[j] in s.visited
    ensures r.cycle.Some? ==> SimpleCycle(g, r.cycle.value)
    ensures r.cycle.None? ==> SearchInv(g, r) && r.path == []
    ensures r.cycle.None? ==> forall j :: 0 <= j < |g.keys| ==> g.keys[j] in r.visited
    decreases |g.keys| - i
  {
    if i == |g.keys| then s
    else
      var node := g.keys[i];
      if node in s.visited then DetectFrom(g, i + 1, s)
      else
        var r := Dfs(g, node, s);
        if r.cycle.Some? then r else DetectFrom(g, i + 1, r)
  }

  /**
   find_circular_dependencies: a reported cycle is a genuine closed walk of
   the graph repeating only its end point, and `None` means the graph has
   no cycle at all.
   */
  function FindCircularDependencies(g: Graph): (c: Option<seq<Path>>)
    requires GraphValid(g)
    ensures c.Some? ==> SimpleCycle(g, c.value)
    ensures c.None? ==> Acyclic(g)
  {
    var r := DetectFrom(g, 0, Search({}, [], [], None));
    if r.cycle.Some? then r.cycle
    else
      NoCycleWhenAllFinished(g, r);
      None
  }

  /** An edge out of a finished node leads to a node that finished strictly earlier. */
  lemma FinishedEdgeDescends(g: Graph, done: seq<Path>, a: Path, b: Path)
    requires FinishOrdered(g, done) && a in done && b in Succ(g, a)
    ensures b in done && IndexOf(done, b) < IndexOf(done, a)
  {
    var i := IndexOf(done, a);
    assert b in done[..i];
    var m :| 0 <= m < i && done[..i][m] == b;
    assert done[m] == b;
  }

  lemma {:induction false} CycleIndicesDescend(g: Graph, done: seq<Path>, c: seq<Path>, j: nat)
    requires FinishOrdered(g, done) && IsWalk(g, c)
    requires |c| > 0 && c[0] in done && j < |c|
    ensures c[j] in done && IndexOf(done, c[j]) + j <= IndexOf(done, c[0])
  {
    if j > 0 {
      CycleIndicesDescend(g, done, c, j - 1);
      FinishedEdgeDescends(g, done, c[j - 1], c[j]);
    }
  }

  /** Once every key has finished without a cycle, the graph is acyclic. */
  lemma NoCycleWhenAllFinished(g: Graph, r: Search)
    requires SearchInv(g, r) && r.path == []
    requires forall j :: 0 <= j < |g.keys| ==> g.keys[j] in r.visited
    ensures Acyclic(g)
  {
    forall c | IsCycle(g, c) ensures false {
      assert c[1] in Succ(g, c[0]);
      assert c[0] in g.fwd;
      assert c[0] in g.keys;
      CycleIndicesDescend(g, r.done, c, |c| - 1);
    }
  }
}
