/** The follows graph: a map from each vertex to its adjacency list, and the
    iterative depth-first post-order traversal used as a topological sort. */
module Graph {

  /** No element occurs twice. */
  ghost predicate Distinct<V>(s: seq<V>) {
    forall i, j :: 0 <= i < j < |s| ==> s[i] != s[j]
  }

  /** Every vertex named in an adjacency list is itself a key. */
  ghost predicate Closed<V>(g: map<V, seq<V>>) {
    forall u, v :: u in g && v in g[u] ==> v in g
  }

  /** p walks along edges of g. */
  ghost predicate IsPath<V>(g: map<V, seq<V>>, p: seq<V>) {
    |p| >= 1 && forall i :: 0 <= i < |p| - 1 ==> p[i] in g && p[i + 1] in g[p[i]]
  }

  /** b can be reached from a along at least one edge. */
  ghost predicate Reaches1<V(!new)>(g: map<V, seq<V>>, a: V, b: V) {
    exists p :: IsPath(g, p) && |p| >= 2 && p[0] == a && p[|p| - 1] == b
  }

  /** No walk of one or more edges returns to where it started. */
  ghost predicate Acyclic<V(!new)>(g: map<V, seq<V>>) {
    forall p :: IsPath(g, p) && |p| >= 2 ==> p[0] != p[|p| - 1]
  }

  /** For every edge from -> to between listed vertices, to is listed before from. */
  ghost predicate Respects<V>(g: map<V, seq<V>>, order: seq<V>) {
    forall i, j :: 0 <= i < |order| && 0 <= j < |order| && order[i] in g && order[j] in g[order[i]] ==> j < i
  }

  /** The map after adding vertex v: an existing entry is kept, a new one is empty. */
  function WithVertex<V>(g: map<V, seq<V>>, v: V): (r: map<V, seq<V>>)
    ensures r.Keys == g.Keys + {v}
    ensures forall u :: u in g ==> r[u] == g[u]
    ensures v !in g ==> r[v] == []
  {
    if v in g then g else g[v := []]
  }

  /** The map after appending `to` to the list of `from`. */
  function WithEdge<V>(g: map<V, seq<V>>, from: V, to: V): (r: map<V, seq<V>>)
    requires from in g
    ensures r.Keys == g.Keys
    ensures r[from] == g[from] + [to]
    ensures forall u :: u in g && u != from ==> r[u] == g[u]
  {
    g[from := g[from] + [to]]
  }

  lemma EdgeReaches<V(!new)>(g: map<V, seq<V>>, a: V, b: V)
    requires a in g && b in g[a]
    ensures Reaches1(g, a, b)
  {
    var p := [a, b];
    assert IsPath(g, p);
  }

  lemma ReachesThenEdge<V(!new)>(g: map<V, seq<V>>, a: V, b: V, c: V)
    requires Reaches1(g, a, b) && b in g && c in g[b]
    ensures Reaches1(g, a, c)
  {
    var p :| IsPath(g, p) && |p| >= 2 && p[0] == a && p[|p| - 1] == b;
    var q := p + [c];
    assert forall i :: 0 <= i < |q| - 1 ==> q[i] in g && q[i + 1] in g[q[i]] by {
      forall i | 0 <= i < |q| - 1 ensures q[i] in g && q[i + 1] in g[q[i]] {
        if i < |p| - 1 {
          assert q[i] == p[i] && q[i + 1] == p[i + 1];
        } else {
          assert q[i] == b && q[i + 1] == c;
        }
      }
    }
    assert IsPath(g, q);
  }

  /** State of TopoSort's inner loop: `disc` and `done` are the discovered and
      processed sets, `out` the vertices appended so far, `entry` a ghost map
      from each open (discovered, unprocessed) vertex to the stack position at
      which it was discovered. */
  ghost predicate DfsInv<V(!new)>(g: map<V, seq<V>>, disc: set<V>, done: set<V>, stack: seq<V>,
                                  out: seq<V>, entry: map<V, nat>)
  {
    && Shape(g, disc, done, stack, out, entry)
    && ReachInv(g, stack, entry)
    && (Acyclic(g) ==> AcyclicInv(g, done, stack, out, entry))
  }

  /** The bookkeeping part of the invariant, which holds on every graph. */
  ghost predicate Shape<V>(g: map<V, seq<V>>, disc: set<V>, done: set<V>, stack: seq<V>,
                           out: seq<V>, entry: map<V, nat>)
  {
    && Closed(g)
    && done <= disc <= g.Keys
    && (forall k :: 0 <= k < |stack| ==> stack[k] in g)
    && Distinct(out)
    && (forall v :: v in out ==> v in done)
    && (forall v :: v in done ==> v in out)
    && entry.Keys == disc - done
    && Positions(stack, entry)
  }

  /** Each open vertex sits on the stack at its entry position. */
  ghost predicate Positions<V>(stack: seq<V>, entry: map<V, nat>) {
    forall v :: v in entry ==> entry[v] < |stack| && stack[entry[v]] == v
  }

  /** Everything pushed above an open vertex's entry is reachable from it. */
  ghost predicate ReachInv<V(!new)>(g: map<V, seq<V>>, stack: seq<V>, entry: map<V, nat>) {
    forall v, k :: v in entry && entry[v] < k < |stack| ==> Reaches1(g, v, stack[k])
  }

  /** The part of the invariant that only holds on acyclic graphs. */
  ghost predicate AcyclicInv<V>(g: map<V, seq<V>>, done: set<V>, stack: seq<V>,
                                out: seq<V>, entry: map<V, nat>)
  {
    // an open vertex's successors are processed or still above its entry
    && (forall v, w :: v in entry && v in g && w in g[v] ==>
          w in done || (entry[v] < |stack| && w in stack[entry[v] + 1..]))
    // processed vertices only point to processed vertices
    && (forall v, w :: v in done && v in g && w in g[v] ==> w in done)
    && Respects(g, out)
  }

  lemma ShapeDiscover<V>(g: map<V, seq<V>>, disc: set<V>, done: set<V>, stack: seq<V>,
                         out: seq<V>, entry: map<V, nat>)
    requires Shape(g, disc, done, stack, out, entry)
    requires stack != [] && stack[|stack| - 1] !in disc
    ensures var x := stack[|stack| - 1];
            Shape(g, disc + {x}, done, stack + g[x], out, entry[x := |stack| - 1])
  {
    var x := stack[|stack| - 1];
    var stack' := stack + g[x];
    forall k | 0 <= k < |stack'| ensures stack'[k] in g {
      if k >= |stack| { assert stack'[k] == g[x][k - |stack|]; }
    }
    forall v | v in entry ensures stack'[entry[v]] == v {
      assert stack'[entry[v]] == stack[entry[v]];
    }
  }

  lemma ReachDiscover<V(!new)>(g: map<V, seq<V>>, stack: seq<V>, entry: map<V, nat>)
    requires ReachInv(g, stack, entry) && Positions(stack, entry)
    requires stack != [] && stack[|stack| - 1] in g && stack[|stack| - 1] !in entry
    ensures var x := stack[|stack| - 1];
            ReachInv(g, stack + g[x], entry[x := |stack| - 1])
  {
    var x := stack[|stack| - 1];
    var t := |stack| - 1;
    var stack', entry' := stack + g[x], entry[x := t];
    forall v, k | v in entry' && entry'[v] < k < |stack'|
      ensures Reaches1(g, v, stack'[k])
    {
      if k < |stack| {
        assert v != x;
        assert stack'[k] == stack[k];
      } else {
        assert stack'[k] in g[x] by { assert stack'[k] == g[x][k - |stack|]; }
        if v == x {
          EdgeReaches(g, x, stack'[k]);
        } else {
          assert entry[v] != t;
          ReachesThenEdge(g, v, x, stack'[k]);
        }
      }
    }
  }

  lemma AcyclicDiscover<V>(g: map<V, seq<V>>, done: set<V>, stack: seq<V>, out: seq<V>, entry: map<V, nat>)
    requires AcyclicInv(g, done, stack, out, entry) && Positions(stack, entry)
    requires stack != [] && stack[|stack| - 1] in g
    ensures var x := stack[|stack| - 1];
            AcyclicInv(g, done, stack + g[x], out, entry[x := |stack| - 1])
  {
    var x := stack[|stack| - 1];
    var t := |stack| - 1;
    var stack', entry' := stack + g[x], entry[x := t];
    forall v, w | v in entry' && v in g && w in g[v]
      ensures w in done || (entry'[v] < |stack'| && w in stack'[entry'[v] + 1..])
    {
      if v == x {
        assert stack'[t + 1..] == g[x];
      } else {
        assert stack[entry[v] + 1..] <= stack'[entry[v] + 1..];
      }
    }
  }

  lemma DiscoverStep<V(!new)>(g: map<V, seq<V>>, disc: set<V>, done: set<V>, stack: seq<V>,
                              out: seq<V>, entry: map<V, nat>)
    requires DfsInv(g, disc, done, stack, out, entry)
    requires stack != [] && stack[|stack| - 1] !in disc
    ensures var x := stack[|stack| - 1];
            DfsInv(g, disc + {x}, done, stack + g[x], out, entry[x := |stack| - 1])
  {
    ShapeDiscover(g, disc, done, stack, out, entry);
    ReachDiscover(g, stack, entry);
    if Acyclic(g) {
      AcyclicDiscover(g, done, stack, out, entry);
    }
  }

  /** Dropping the top of the stack and closing some open vertices keeps the
      reachability facts of the rest. */
  lemma ReachPop<V(!new)>(g: map<V, seq<V>>, stack: seq<V>, entry: map<V, nat>, entry': map<V, nat>)
    requires ReachInv(g, stack, entry) && stack != []
    requires forall v :: v in entry' ==> v in entry && entry'[v] == entry[v]
    ensures ReachInv(g, stack[..|stack| - 1], entry')
  {
    var stack' := stack[..|stack| - 1];
    forall v, k | v in entry' && entry'[v] < k < |stack'|
      ensures Reaches1(g, v, stack'[k])
    {
      assert stack'[k] == stack[k];
    }
  }

  lemma PositionsPop<V>(stack: seq<V>, entry: map<V, nat>, entry': map<V, nat>)
    requires Positions(stack, entry) && stack != []
    requires forall v :: v in entry' ==> v in entry && entry'[v] == entry[v] && v != stack[|stack| - 1]
    ensures Positions(stack[..|stack| - 1], entry')
  {
    forall v | v in entry' ensures entry'[v] < |stack| - 1 && stack[..|stack| - 1][entry'[v]] == v {
      assert entry[v] != |stack| - 1;
    }
  }

  lemma AcyclicPopDone<V>(g: map<V, seq<V>>, done: set<V>, stack: seq<V>, out: seq<V>, entry: map<V, nat>)
    requires AcyclicInv(g, done, stack, out, entry)
    requires stack != [] && stack[|stack| - 1] in done
    ensures AcyclicInv(g, done, stack[..|stack| - 1], out, entry)
  {
    forall v, w | v in entry && v in g && w in g[v] && w !in done
      ensures entry[v] < |stack| - 1 && w in stack[..|stack| - 1][entry[v] + 1..]
    {
      PopKeepsAbove(stack, entry[v] + 1, w);
    }
  }

  /** Popping a discovered vertex that is already processed. */
  lemma PopDone<V(!new)>(g: map<V, seq<V>>, disc: set<V>, done: set<V>, stack: seq<V>,
                         out: seq<V>, entry: map<V, nat>)
    requires DfsInv(g, disc, done, stack, out, entry)
    requires stack != [] && stack[|stack| - 1] in done
    ensures DfsInv(g, disc, done, stack[..|stack| - 1], out, entry)
  {
    PositionsPop(stack, entry, entry);
    ReachPop(g, stack, entry, entry);
    if Acyclic(g) {
      AcyclicPopDone(g, done, stack, out, entry);
    }
  }

  /** On an acyclic graph, the open vertex on top of the stack was discovered
      there, so all its successors are already processed. */
  lemma OpenTopClosed<V(!new)>(g: map<V, seq<V>>, done: set<V>, stack: seq<V>, out: seq<V>, entry: map<V, nat>)
    requires Acyclic(g) && AcyclicInv(g, done, stack, out, entry)
    requires ReachInv(g, stack, entry) && Positions(stack, entry)
    requires stack != [] && stack[|stack| - 1] in entry && stack[|stack| - 1] in g
    ensures var x := stack[|stack| - 1];
            entry[x] == |stack| - 1 && (forall w :: w in g[x] ==> w in done)
  {
    var x := stack[|stack| - 1];
    NoReturn(g, x);
    assert entry[x] == |stack| - 1;
    assert stack[entry[x] + 1..] == [];
  }

  lemma AcyclicPopOpen<V(!new)>(g: map<V, seq<V>>, done: set<V>, stack: seq<V>, out: seq<V>, entry: map<V, nat>)
    requires Acyclic(g) && AcyclicInv(g, done, stack, out, entry)
    requires ReachInv(g, stack, entry) && Positions(stack, entry)
    requires stack != [] && stack[|stack| - 1] in entry && stack[|stack| - 1] in g
    requires stack[|stack| - 1] !in done && forall v :: v in out ==> v in done
    ensures var x := stack[|stack| - 1];
            AcyclicInv(g, done + {x}, stack[..|stack| - 1], out + [x], entry - {x})
  {
    var x := stack[|stack| - 1];
    var done', out' := done + {x}, out + [x];
    OpenTopClosed(g, done, stack, out, entry);
    forall v, w | v in entry - {x} && v in g && w in g[v] && w !in done'
      ensures entry[v] < |stack| - 1 && w in stack[..|stack| - 1][entry[v] + 1..]
    {
      PopKeepsAbove(stack, entry[v] + 1, w);
    }
    assert x !in g[x];
    forall i, j | 0 <= i < |out'| && 0 <= j < |out'| && out'[i] in g && out'[j] in g[out'[i]]
      ensures j < i
    {
      if i < |out| {
        assert out'[i] == out[i] && out[i] in done;
        assert x !in g[out[i]];
      }
    }
  }

  /** Popping a discovered, unprocessed vertex: it is processed and appended. */
  lemma PopOpen<V(!new)>(g: map<V, seq<V>>, disc: set<V>, done: set<V>, stack: seq<V>,
                         out: seq<V>, entry: map<V, nat>)
    requires DfsInv(g, disc, done, stack, out, entry)
    requires stack != [] && stack[|stack| - 1] in disc && stack[|stack| - 1] !in done
    ensures var x := stack[|stack| - 1];
            DfsInv(g, disc, done + {x}, stack[..|stack| - 1], out + [x], entry - {x})
  {
    var x := stack[|stack| - 1];
    PositionsPop(stack, entry, entry - {x});
    ReachPop(g, stack, entry, entry - {x});
    assert Distinct(out + [x]);
    if Acyclic(g) {
      AcyclicPopOpen(g, done, stack, out, entry);
    }
  }

  lemma PopKeepsAbove<V>(stack: seq<V>, lo: nat, w: V)
    requires stack != [] && lo <= |stack| && w in stack[lo..] && w != stack[|stack| - 1]
    ensures lo <= |stack| - 1 && w in stack[..|stack| - 1][lo..]
  {
    var k :| lo <= k < |stack| && stack[k] == w;
    assert stack[..|stack| - 1][k] == w;
  }

  lemma NoReturn<V(!new)>(g: map<V, seq<V>>, x: V)
    requires Acyclic(g)
    ensures !Reaches1(g, x, x)
  {
    forall p | IsPath(g, p) && |p| >= 2 && p[0] == x ensures p[|p| - 1] != x {
    }
  }

  /** A search starts from an undiscovered vertex with nothing open. */
  lemma StartAt<V(!new)>(g: map<V, seq<V>>, disc: set<V>, done: set<V>, out: seq<V>, x: V)
    requires DfsInv(g, disc, done, [], out, map[]) && disc == done && x in g
    ensures DfsInv(g, disc, done, [x], out, map[])
  {
  }

  /** Once the stack is empty, nothing is open. */
  lemma Drained<V(!new)>(g: map<V, seq<V>>, disc: set<V>, done: set<V>, out: seq<V>, entry: map<V, nat>)
    requires DfsInv(g, disc, done, [], out, entry)
    ensures entry == map[] && disc == done
    ensures DfsInv(g, disc, done, [], out, map[])
  {
    assert forall v :: v !in entry;
    assert entry == map[];
    assert forall v :: v in disc ==> v in done || v in entry.Keys;
  }

  /** When every vertex has been visited, the output lists exactly the vertices. */
  lemma Finished<V(!new)>(g: map<V, seq<V>>, done: set<V>, out: seq<V>)
    requires DfsInv(g, done, done, [], out, map[]) && g.Keys <= done
    ensures Distinct(out)
    ensures forall v :: v in out <==> v in g
    ensures Acyclic(g) ==> Respects(g, out)
  {
  }

  /** A directed graph over vertices of type V.  `edgeMap` maps every vertex
      to its adjacency list; lists keep duplicates. */
  class Graph<V(==,!new)> {
    var edgeMap: map<V, seq<V>>

    constructor ()
      ensures edgeMap == map[]
    {
      edgeMap := map[];
    }

    /** Adds v with an empty list unless v is already a vertex. */
    method AddVertex(v: V)
      modifies this
      ensures edgeMap == WithVertex(old(edgeMap), v)
      ensures v in old(edgeMap) ==> edgeMap == old(edgeMap)
    {
      if v !in edgeMap {
        edgeMap := edgeMap[v := []];
      }
    }

    /** Appends `to` to the list of `from`, which must already be a vertex. */
    method AddEdge(from: V, to: V)
      requires from in edgeMap
      modifies this
      ensures edgeMap == WithEdge(old(edgeMap), from, to)
    {
      var relations := edgeMap[from];
      edgeMap := edgeMap[from := relations + [to]];
    }

    /** Iterative depth-first traversal that lists each vertex once, in
        post-order.  Start vertices are taken from the key set in an
        arbitrary order. */
    method TopoSort() returns (orderedVertices: seq<V>)
      requires Closed(edgeMap)
      ensures Distinct(orderedVertices)
      ensures forall v :: v in orderedVertices <==> v in edgeMap
      ensures Acyclic(edgeMap) ==> Respects(edgeMap, orderedVertices)
    {
      orderedVertices := [];
      var discovered: set<V> := {};
      var processed: set<V> := {};
      var keys := edgeMap.Keys;
      while keys != {}
        invariant keys <= edgeMap.Keys
        invariant DfsInv(edgeMap, discovered, processed, [], orderedVertices, map[])
        invariant discovered == processed
        invariant edgeMap.Keys - keys <= discovered
        decreases keys
      {
        var startNode :| startNode in keys;
        keys := keys - {startNode};
        if startNode !in discovered {
          discovered, processed, orderedVertices := Visit(startNode, discovered, processed, orderedVertices);
        }
      }
      Finished(edgeMap, discovered, orderedVertices);
    }

    /** One depth-first search from startNode with an explicit stack: the
        top is marked discovered and its adjacency list pushed, or, when
        already discovered, popped and appended unless already processed. */
    method Visit(startNode: V, discovered0: set<V>, processed0: set<V>, ordered0: seq<V>)
      returns (discovered: set<V>, processed: set<V>, orderedVertices: seq<V>)
      requires DfsInv(edgeMap, discovered0, processed0, [], ordered0, map[])
      requires discovered0 == processed0
      requires startNode in edgeMap && startNode !in discovered0
      ensures DfsInv(edgeMap, discovered, processed, [], orderedVertices, map[])
      ensures discovered == processed
      ensures discovered0 + {startNode} <= discovered
    {
      var g := edgeMap;
      discovered, processed, orderedVertices := discovered0, processed0, ordered0;
      ghost var entry: map<V, nat> := map[];
      var dfsStack := [startNode];
      StartAt(g, discovered, processed, orderedVertices, startNode);
      while dfsStack != []
        invariant DfsInv(g, discovered, processed, dfsStack, orderedVertices, entry)
        invariant discovered0 <= discovered
        invariant startNode in discovered || dfsStack == [startNode]
        decreases g.Keys - discovered, |dfsStack|
      {
        var top := dfsStack[|dfsStack| - 1];
        if top !in discovered {
          DiscoverStep(g, discovered, processed, dfsStack, orderedVertices, entry);
          ghost var below := dfsStack;
          entry := entry[top := |dfsStack| - 1];
          discovered := discovered + {top};
          var successors := g[top];
          var k := 0;
          while k < |successors|
            invariant 0 <= k <= |successors|
            invariant dfsStack == below + successors[..k]
          {
            dfsStack := dfsStack + [successors[k]];
            k := k + 1;
          }
          assert successors[..k] == successors;
        } else {
          if top in processed {
            PopDone(g, discovered, processed, dfsStack, orderedVertices, entry);
          } else {
            PopOpen(g, discovered, processed, dfsStack, orderedVertices, entry);
          }
          dfsStack := dfsStack[..|dfsStack| - 1];
          if top !in processed {
            processed := processed + {top};
            orderedVertices := orderedVertices + [top];
            entry := entry - {top};
          }
        }
      }
      Drained(g, discovered, processed, orderedVertices, entry);
    }
  }
}
