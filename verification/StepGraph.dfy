/** Cycle detection of services/pipeline/src/services/pipeline-service.ts: a depth-first search. */
module StepGraph {
  import opened Sets

  type Graph = map<string, seq<string>>

  /** `adj.get(id) ?? []` */
  function Next(g: Graph, id: string): seq<string> {
    if id in g then g[id] else []
  }

  // ---- Walks

  predicate IsEdge(g: Graph, from: string, to: string) {
    from in g && to in g[from]
  }

  ghost predicate IsWalk(g: Graph, walk: seq<string>) {
    forall i | 0 < i < |walk| :: IsEdge(g, walk[i - 1], walk[i])
  }

  /** Some step comes twice. */
  ghost predicate Repeats(walk: seq<string>) {
    exists i, j :: 0 <= i < j < |walk| && walk[i] == walk[j]
  }

  /** A cycle can be reached: some walk from the start comes to a step for the second time. */
  ghost predicate CycleReachable(g: Graph, start: string) {
    exists walk: seq<string> :: walk != [] && walk[0] == start && IsWalk(g, walk) && Repeats(walk)
  }

  // ---- An order of finished steps

  /** Every step comes after all its successors. */
  ghost predicate Finished(g: Graph, order: seq<string>) {
    forall i | 0 <= i < |order| :: forall next <- Next(g, order[i]) :: next in order[..i]
  }

  /** A walk from a finished step visits finished steps only, ever earlier in their order. */
  lemma {:induction false} WalkDescends(g: Graph, order: seq<string>, walk: seq<string>, k: nat) returns (at: nat)
    requires Finished(g, order) && IsWalk(g, walk) && k < |walk| && walk[0] in order
    ensures at < |order| && order[at] == walk[k]
    ensures forall j: nat | j < at :: order[j] != walk[k]
    decreases k
  {
    if k == 0 {
      at := FirstAt(order, walk[0]);
    } else {
      var before := WalkDescends(g, order, walk, k - 1);
      assert walk[k] in Next(g, order[before]);
      at := FirstAt(order, walk[k]);
    }
  }

  lemma {:induction false} FirstAt(order: seq<string>, x: string) returns (at: nat)
    requires x in order
    ensures at < |order| && order[at] == x && forall j: nat | j < at :: order[j] != x
  {
    if order[0] == x {
      at := 0;
    } else {
      at := FirstAt(order[1..], x);
      forall j: nat | j < at + 1
        ensures order[j] != x
      {
        assert j > 0 ==> order[1..][j - 1] == order[j];
      }
      at := at + 1;
    }
  }

  /** The first place of walk[j] in the order is before that of walk[i]. */
  lemma {:induction false} Descends(g: Graph, order: seq<string>, walk: seq<string>, i: nat, j: nat, at: nat)
    requires Finished(g, order) && IsWalk(g, walk) && i < j < |walk|
    requires at < |order| && order[at] == walk[i]
    ensures walk[j] in order[..at]
    decreases j - i
  {
    assert walk[i + 1] in Next(g, order[at]);
    assert walk[i + 1] in order[..at];
    if i + 1 < j {
      var next :| 0 <= next < at && order[next] == walk[i + 1];
      Descends(g, order, walk, i + 1, j, next);
      assert forall x <- order[..next] :: x in order[..at];
    }
  }

  /** No cycle can be reached from a finished step. */
  lemma FinishedIsAcyclic(g: Graph, order: seq<string>, start: string)
    requires Finished(g, order) && start in order
    ensures !CycleReachable(g, start)
  {
    forall walk: seq<string> | walk != [] && walk[0] == start && IsWalk(g, walk)
      ensures !Repeats(walk)
    {
      forall i, j | 0 <= i < j < |walk|
        ensures walk[i] != walk[j]
      {
        var at := WalkDescends(g, order, walk, i);
        Descends(g, order, walk, i, j, at);
      }
    }
  }

  // ---- The search

  ghost predicate AllIn(ids: seq<string>, n: nat, order: seq<string>)
    requires n <= |ids|
  {
    forall k | 0 <= k < n :: ids[k] in order
  }

  /** All steps that the search can come to. */
  function Steps(g: Graph, start: string): set<string> {
    {start} + g.Keys + set id, next | id in g && next in g[id] :: next
  }

  class CycleSearch {
    const adj: Graph
    const start: string
    var visited: set<string>
    var inStack: set<string>
    ghost var path: seq<string>    // the steps on the stack, outermost first
    ghost var order: seq<string>   // the finished steps, in the order in which they were finished

    constructor (adj: Graph, start: string)
      ensures Valid() && this.adj == adj && this.start == start
      ensures path == [] && order == [] && visited == {}
    {
      this.adj, this.start := adj, start;
      visited, inStack, path, order := {}, {}, [], [];
    }

    /** Visited steps are on the stack or finished; the stack is a walk from the start. */
    ghost predicate Valid()
      reads this
    {
      && (forall id :: id in inStack <==> id in path)
      && (forall id :: id in visited <==> id in path || id in order)
      && (path != [] ==> path[0] == start)
      && IsWalk(adj, path) && !Repeats(path)
      && Finished(adj, order)
      && visited <= Steps(adj, start)
    }

    /** The step may be visited from the top of the stack. */
    ghost predicate Follows(id: string)
      reads this
    {
      id in Steps(adj, start) && if path == [] then id == start else id in Next(adj, path[|path| - 1])
    }

    /** `dfs` */
    method Dfs(nodeId: string) returns (cyclic: bool)
      requires Valid() && Follows(nodeId)
      modifies this
      ensures cyclic ==> CycleReachable(adj, start)
      ensures !cyclic ==> Valid() && path == old(path) && nodeId in order
      ensures !cyclic ==> old(order) <= order && old(visited) <= visited
      decreases |Steps(adj, start) - visited|, 1
    {
      if nodeId in inStack {
        ClosesCycle(adj, path, nodeId, start);
        return true;
      }
      if nodeId in visited {
        return false;
      }
      SmallerRest(Steps(adj, start), visited, nodeId);
      Enter(nodeId);
      cyclic := DfsAll(nodeId, Next(adj, nodeId));
      if !cyclic {
        Leave(nodeId);
      }
    }

    /** The loop of `dfs` over the neighbours of the step on top of the stack. */
    method DfsAll(nodeId: string, neighbors: seq<string>) returns (cyclic: bool)
      requires Valid() && path != [] && path[|path| - 1] == nodeId
      requires neighbors == Next(adj, nodeId)
      modifies this
      ensures cyclic ==> CycleReachable(adj, start)
      ensures !cyclic ==> Valid() && path == old(path) && AllIn(neighbors, |neighbors|, order)
      ensures !cyclic ==> old(order) <= order && old(visited) <= visited
      decreases |Steps(adj, start) - visited|, 2
    {
      for i := 0 to |neighbors|
        invariant Valid() && path == old(path) && AllIn(neighbors, i, order)
        invariant old(order) <= order && old(visited) <= visited
      {
        NeighborIsStep(adj, start, nodeId, neighbors[i]);
        SubsetSize(Steps(adj, start) - visited, Steps(adj, start) - old(visited));
        ghost var before := order;
        cyclic := Dfs(neighbors[i]);
        if cyclic {
          return;
        }
        StayIn(neighbors, i, before, order);
      }
      cyclic := false;
    }

    /** `visited.add(nodeId); inStack.add(nodeId)` */
    method Enter(nodeId: string)
      requires Valid() && Follows(nodeId) && nodeId !in visited
      modifies this
      ensures Valid() && path == old(path) + [nodeId] && order == old(order)
      ensures visited == old(visited) + {nodeId}
    {
      PathGrows(adj, path, nodeId);
      visited := visited + {nodeId};
      inStack := inStack + {nodeId};
      path := path + [nodeId];
    }

    /** `inStack.delete(nodeId)`, when all successors are finished. */
    method Leave(nodeId: string)
      requires Valid() && path != [] && path[|path| - 1] == nodeId
      requires AllIn(Next(adj, nodeId), |Next(adj, nodeId)|, order)
      modifies this
      ensures Valid() && path == old(path)[..|old(path)| - 1] && order == old(order) + [nodeId]
      ensures visited == old(visited)
    {
      PathShrinks(adj, path);
      assert path == path[..|path| - 1] + [nodeId];
      OrderGrows(adj, order, nodeId);
      inStack := inStack - {nodeId};
      order := order + [nodeId];
      path := path[..|path| - 1];
    }
  }

  /** `hasCycle`: true if and only if a cycle can be reached from the entry step. */
  method HasCycle(adj: Graph, startId: string) returns (cyclic: bool)
    ensures cyclic <==> CycleReachable(adj, startId)
  {
    var search := new CycleSearch(adj, startId);
    cyclic := search.Dfs(startId);
    if !cyclic {
      FinishedIsAcyclic(adj, search.order, startId);
    }
  }

  // ---- Steps of the search

  lemma ClosesCycle(g: Graph, path: seq<string>, id: string, start: string)
    requires IsWalk(g, path) && path != [] && path[0] == start
    requires id in Next(g, path[|path| - 1]) && id in path
    ensures CycleReachable(g, start)
  {
    var walk := path + [id];
    var i :| 0 <= i < |path| && path[i] == id;
    assert walk[i] == walk[|path|];
    assert IsWalk(g, walk) && Repeats(walk);
  }

  lemma PathGrows(g: Graph, path: seq<string>, id: string)
    requires IsWalk(g, path) && !Repeats(path) && id !in path
    requires path != [] ==> id in Next(g, path[|path| - 1])
    ensures IsWalk(g, path + [id]) && !Repeats(path + [id])
  {
  }

  lemma PathShrinks(g: Graph, path: seq<string>)
    requires path != [] && IsWalk(g, path) && !Repeats(path)
    ensures var front := path[..|path| - 1];
            IsWalk(g, front) && !Repeats(front) && path[|path| - 1] !in front
  {
  }

  lemma StayIn(ids: seq<string>, n: nat, before: seq<string>, now: seq<string>)
    requires n < |ids| && AllIn(ids, n, before) && before <= now && ids[n] in now
    ensures AllIn(ids, n + 1, now)
  {
    forall k | 0 <= k < n + 1
      ensures ids[k] in now
    {
      if k < n {
        assert ids[k] in before;
      }
    }
  }

  lemma OrderGrows(g: Graph, order: seq<string>, id: string)
    requires Finished(g, order) && forall next <- Next(g, id) :: next in order
    ensures Finished(g, order + [id])
  {
    var more := order + [id];
    forall i | 0 <= i < |more|
      ensures forall next <- Next(g, more[i]) :: next in more[..i]
    {
      if i < |order| {
        assert more[..i] == order[..i];
      } else {
        assert more[..i] == order;
      }
    }
  }

  lemma NeighborIsStep(g: Graph, start: string, id: string, next: string)
    requires next in Next(g, id)
    ensures next in Steps(g, start)
  {
  }

  lemma SmallerRest(all: set<string>, visited: set<string>, id: string)
    requires id in all && id !in visited
    ensures |all - (visited + {id})| < |all - visited|
  {
    assert all - visited == (all - (visited + {id})) + {id};
  }
}
