/**
 The circular-dependency check of the contract key schema: a colour-marking
 depth-first search that works on an arbitrary finite dependency graph.
 The search does not skip finished (black) nodes: it enters them again and
 turns them grey again, so colours alone do not bound the recursion.
 */
module CycleSearch {
  import opened Common

  /** The neighbours of every field; a name outside the map has none. */
  type Graph = map<string, seq<string>>

  ghost predicate Edge(g: Graph, u: string, v: string) {
    u in g && v in g[u]
  }

  ghost predicate Walk(g: Graph, w: seq<string>) {
    forall i :: 0 < i < |w| ==> Edge(g, w[i - 1], w[i])
  }

  ghost predicate ClosedWalk(g: Graph, w: seq<string>) {
    |w| >= 2 && Walk(g, w) && w[0] == w[|w| - 1]
  }

  /** A closed walk that passes through no node twice before it closes. */
  ghost predicate SimpleCycle(g: Graph, w: seq<string>) {
    ClosedWalk(g, w) && NoDuplicates(w[1..])
  }

  ghost predicate Cyclic(g: Graph) {
    exists w :: ClosedWalk(g, w)
  }

  /** `w` leaves `v` and comes back to one of its own nodes. */
  ghost predicate Loops(g: Graph, v: string, w: seq<string>) {
    |w| > 0 && w[0] == v && Walk(g, w) && !NoDuplicates(w)
  }

  ghost predicate ReachesCycle(g: Graph, v: string) {
    exists w :: Loops(g, v, w)
  }

  lemma TailLoops(g: Graph, w: seq<string>, i: nat, j: nat)
    requires Walk(g, w) && 0 < i < j < |w| && w[i] == w[j]
    ensures Loops(g, w[1], w[1..])
  {
    var tail := w[1..];
    assert tail[i - 1] == tail[j - 1];
    assert forall k :: 0 < k < |tail| ==> tail[k - 1] == w[k] && tail[k] == w[k + 1];
  }

  /** A walk that returns to its start can be started one node later. */
  lemma RotatedLoops(g: Graph, w: seq<string>, j: nat)
    requires Walk(g, w) && 0 < j < |w| && w[0] == w[j]
    ensures Loops(g, w[1], w[1..j + 1] + [w[1]])
  {
    var rotated := w[1..j + 1] + [w[1]];
    assert rotated[0] == rotated[j];
    forall k | 0 < k < |rotated|
      ensures Edge(g, rotated[k - 1], rotated[k])
    {
      if k < j {
        assert rotated[k - 1] == w[k] && rotated[k] == w[k + 1];
      } else {
        assert Edge(g, w[0], w[1]);
      }
    }
  }

  /** A node that reaches a cycle has a neighbour that reaches one. */
  lemma CycleThroughNeighbour(g: Graph, v: string, w: seq<string>)
    requires Loops(g, v, w)
    ensures v in g && exists n :: n in g[v] && ReachesCycle(g, n)
  {
    var i, j :| 0 <= i < j < |w| && w[i] == w[j];
    assert Edge(g, w[0], w[1]);
    if i > 0 {
      TailLoops(g, w, i, j);
    } else {
      RotatedLoops(g, w, j);
    }
    assert ReachesCycle(g, w[1]);
  }

  /** A closed walk makes its first node reach a cycle. */
  lemma ClosedWalkReaches(g: Graph, w: seq<string>)
    requires ClosedWalk(g, w)
    ensures w[0] in g && ReachesCycle(g, w[0])
  {
    assert Edge(g, w[0], w[1]);
    assert Loops(g, w[0], w);
  }

  /** 0 is white (also for a name never seen), 1 grey, 2 black. */
  function ColorOf(colors: map<string, nat>, v: string): nat {
    if v in colors then colors[v] else 0
  }

  /**
   What holds whenever the search is entered and whenever it returns without a
   cycle: the grey nodes are exactly those on the path, the path is a walk
   without repetition, and black nodes reach no cycle.
   */
  ghost predicate Consistent(g: Graph, colors: map<string, nat>, path: seq<string>) {
    && (forall v :: v in path <==> ColorOf(colors, v) == 1)
    && (forall v :: ColorOf(colors, v) <= 2)
    && NoDuplicates(path)
    && Walk(g, path)
    && (forall v :: ColorOf(colors, v) == 2 ==> !ReachesCycle(g, v))
  }

  /** `path` continues to `v` along an edge. */
  ghost predicate Extends(g: Graph, path: seq<string>, v: string) {
    path == [] || Edge(g, path[|path| - 1], v)
  }

  /** Turning a node grey while pushing it keeps the invariant, whatever its colour was. */
  lemma EnterKeepsConsistent(g: Graph, colors: map<string, nat>, path: seq<string>, node: string)
    requires Consistent(g, colors, path) && node !in path && Extends(g, path, node)
    ensures Consistent(g, colors[node := 1], path + [node])
  {
    var after := colors[node := 1];
    forall v
      ensures v in path + [node] <==> ColorOf(after, v) == 1
      ensures ColorOf(after, v) <= 2
      ensures ColorOf(after, v) == 2 ==> !ReachesCycle(g, v)
    {
      assert v != node ==> ColorOf(after, v) == ColorOf(colors, v);
    }
  }

  /** Popping a node whose neighbours reach no cycle, while blackening it, keeps the invariant. */
  lemma LeaveKeepsConsistent(g: Graph, colors: map<string, nat>, path: seq<string>, node: string)
    requires Consistent(g, colors, path + [node]) && !ReachesCycle(g, node)
    ensures Consistent(g, colors[node := 2], path)
  {
    var after := colors[node := 2];
    var longer := path + [node];
    assert forall i :: 0 <= i < |path| ==> longer[i] == path[i];
    assert longer[|path|] == node;
    forall v
      ensures v in path <==> ColorOf(after, v) == 1
      ensures ColorOf(after, v) <= 2
      ensures ColorOf(after, v) == 2 ==> !ReachesCycle(g, v)
    {
      assert v in longer <==> v in path || v == node;
      assert v != node ==> ColorOf(after, v) == ColorOf(colors, v);
    }
  }

  /** The part of the path from a grey neighbour onwards closes into a simple cycle. */
  lemma PathSuffixCloses(g: Graph, path: seq<string>, start: nat, neighbor: string)
    requires Walk(g, path) && NoDuplicates(path)
    requires start < |path| && path[start] == neighbor && Extends(g, path, neighbor)
    ensures SimpleCycle(g, path[start..] + [neighbor])
  {
  }

  /** The nodes with neighbours that are not on the path: the measure of the search. */
  ghost function Unvisited(g: Graph, path: seq<string>): set<string> {
    g.Keys - set v | v in path
  }

  lemma FewerUnvisited(g: Graph, path: seq<string>, node: string)
    requires node in g && node !in path
    ensures Unvisited(g, path + [node]) < Unvisited(g, path)
  {
    assert node in Unvisited(g, path);
  }

  lemma NoNeighbourReaches(g: Graph, v: string)
    requires v in g ==> forall k :: 0 <= k < |g[v]| ==> !ReachesCycle(g, g[v][k])
    ensures !ReachesCycle(g, v)
  {
    forall w | Loops(g, v, w)
      ensures false
    {
      CycleThroughNeighbour(g, v, w);
    }
  }

  class Search {
    const deps: Graph
    var colors: map<string, nat>
    var path: seq<string>

    constructor (deps: Graph, fields: seq<string>)
      ensures this.deps == deps && path == [] && Valid()
      ensures forall f :: Color(f) == 0
    {
      this.deps := deps;
      colors := map f | f in fields :: 0;
      path := [];
    }

    function Color(v: string): nat
      reads this
    {
      ColorOf(colors, v)
    }

    ghost predicate Valid()
      reads this
    {
      Consistent(deps, colors, path)
    }

    /** The cycle that an edge from the end of the path back to a grey node closes. */
    method CloseCycle(neighbor: string) returns (found: seq<string>)
      requires Valid() && Color(neighbor) == 1 && Extends(deps, path, neighbor)
      ensures SimpleCycle(deps, found)
    {
      var start := Position(path, neighbor);
      PathSuffixCloses(deps, path, start, neighbor);
      found := path[start..] + [neighbor];
    }

    method Dfs(node: string) returns (cycle: Option<seq<string>>)
      requires Valid() && node !in path && Extends(deps, path, node)
      modifies this
      ensures cycle.Some? ==> SimpleCycle(deps, cycle.value)
      ensures cycle.None? ==> Valid() && path == old(path) && Color(node) == 2
      ensures cycle.None? ==> !ReachesCycle(deps, node)
      decreases Unvisited(deps, path)
    {
      EnterKeepsConsistent(deps, colors, path, node);
      colors := colors[node := 1];
      path := path + [node];
      if node in deps {
        var neighbors := deps[node];
        FewerUnvisited(deps, old(path), node);
        for i := 0 to |neighbors|
          invariant Valid() && path == old(path) + [node]
          invariant forall k :: 0 <= k < i ==> !ReachesCycle(deps, neighbors[k])
        {
          var neighbor := neighbors[i];
          assert path[|path| - 1] == node && Edge(deps, node, neighbor);
          if Color(neighbor) == 1 {
            var found := CloseCycle(neighbor);
            return Some(found);
          }
          cycle := Dfs(neighbor);
          if cycle.Some? {
            return;
          }
        }
      }
      NoNeighbourReaches(deps, node);
      LeaveKeepsConsistent(deps, colors, old(path), node);
      path := path[..|path| - 1];
      colors := colors[node := 2];
      return None;
    }
  }

  /** `path.iter().position(|x| x == v)` for a node known to be on the path. */
  method Position(path: seq<string>, v: string) returns (i: nat)
    requires v in path
    ensures i < |path| && path[i] == v && v !in path[..i]
  {
    i := 0;
    while path[i] != v
      invariant i < |path| && v !in path[..i]
      decreases |path| - i
    {
      i := i + 1;
    }
  }

  /**
   Runs the search from every field that is still white. When the fields name
   every node that has neighbours, the answer is a cycle exactly when there is one.
   */
  method DetectCycle(fields: seq<string>, deps: Graph) returns (cycle: Option<seq<string>>)
    requires forall v :: v in deps ==> v in fields
    ensures cycle.Some? ==> SimpleCycle(deps, cycle.value)
    ensures cycle.Some? <==> Cyclic(deps)
  {
    var search := new Search(deps, fields);
    for i := 0 to |fields|
      invariant search.Valid() && search.path == [] && fresh(search) && search.deps == deps
      invariant forall k :: 0 <= k < i ==> !ReachesCycle(deps, fields[k])
    {
      if search.Color(fields[i]) == 0 {
        cycle := search.Dfs(fields[i]);
        if cycle.Some? {
          return;
        }
      }
      assert search.Color(fields[i]) != 1;
    }
    forall w | ClosedWalk(deps, w)
      ensures false
    {
      ClosedWalkReaches(deps, w);
    }
    cycle := None;
  }
}
