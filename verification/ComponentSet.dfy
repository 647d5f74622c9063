/**
 Loading of components: `find` is re-entered from `onLoad`, which makes the load a depth-first search
 that detects cycles. The names a component's `onLoad` looks up, in order, are given by a graph.
 */
module ComponentSet {

  /** For each configured component, the names its onLoad passes to find, in order. */
  type Graph = map<string, seq<string>>

  datatype Result = Found | Missing | CyclicDependence

  ghost predicate Edge(g: Graph, a: string, b: string) {
    a in g && b in g && b in g[a]
  }

  ghost predicate Path(g: Graph, p: seq<string>) {
    && |p| > 0
    && p[0] in g
    && forall i :: 0 <= i < |p| - 1 ==> Edge(g, p[i], p[i + 1])
  }

  /** A path whose last component looks up one that is already on the path. */
  ghost predicate Lasso(g: Graph, p: seq<string>, j: nat) {
    Path(g, p) && j < |p| && Edge(g, p[|p| - 1], p[j])
  }

  ghost predicate CycleReachableFrom(g: Graph, a: string) {
    exists p, j :: Lasso(g, p, j) && p[0] == a
  }

  /** Every component comes after the components its onLoad looked up. */
  ghost predicate DependenciesFirst(g: Graph, stack: seq<string>) {
    forall i, d :: 0 <= i < |stack| && Edge(g, stack[i], d) ==> d in stack[..i]
  }

  ghost predicate Distinct(s: seq<string>) {
    forall i, j :: 0 <= i < j < |s| ==> s[i] != s[j]
  }

  ghost function Elements(s: seq<string>): set<string> {
    set x | x in s
  }

  // ----- a topological order excludes cycles -----

  ghost function IndexOf(s: seq<string>, x: string): (i: nat)
    requires x in s
    ensures i < |s| && s[i] == x
  {
    var i: nat :| i < |s| && s[i] == x;
    i
  }

  /** Along a path that starts in the stack, positions in the stack strictly decrease. */
  lemma {:induction false} PathDescends(g: Graph, stack: seq<string>, p: seq<string>, i: nat, j: nat)
    requires DependenciesFirst(g, stack) && Distinct(stack)
    requires Path(g, p) && i <= j < |p| && p[0] in stack
    ensures p[i] in stack && p[j] in stack
    ensures if i == j then IndexOf(stack, p[j]) == IndexOf(stack, p[i]) else IndexOf(stack, p[j]) < IndexOf(stack, p[i])
  {
    if j == 0 {
    } else if i == j {
      PathDescends(g, stack, p, 0, j - 1);
      assert Edge(g, p[j - 1], p[j]);
    } else {
      PathDescends(g, stack, p, i, j - 1);
      assert Edge(g, p[j - 1], p[j]);
      assert p[j] in stack[..IndexOf(stack, p[j - 1])];
    }
  }

  lemma LoadedMeansAcyclic(g: Graph, stack: seq<string>, a: string)
    requires DependenciesFirst(g, stack) && Distinct(stack) && a in stack
    ensures !CycleReachableFrom(g, a)
  {
    forall p, j | Lasso(g, p, j) && p[0] == a
      ensures false
    {
      PathDescends(g, stack, p, j, |p| - 1);
    }
  }

  lemma PushKeepsOrder(g: Graph, stack: seq<string>, name: string)
    requires DependenciesFirst(g, stack)
    requires forall d :: Edge(g, name, d) ==> d in stack
    ensures DependenciesFirst(g, stack + [name])
  {
    var pushed := stack + [name];
    forall i, d | 0 <= i < |pushed| && Edge(g, pushed[i], d)
      ensures d in pushed[..i]
    {
      assert pushed[..i] == stack[..i];
      if i < |stack| {
        assert pushed[i] == stack[i];
      }
    }
  }

  // ----- the component set -----

  class ComponentSet {
    const graph: Graph
    var started: set<string>         // isLoadingStarted
    var loadingStack: seq<string>

    constructor (graph: Graph)
      ensures this.graph == graph && Valid() && started == {} && loadingStack == []
    {
      this.graph := graph;
      started, loadingStack := {}, [];
    }

    ghost predicate Valid()
      reads this
    {
      && Distinct(loadingStack)
      && Elements(loadingStack) <= started <= graph.Keys
      && DependenciesFirst(graph, loadingStack)
    }

    /** The components between entering onLoad and being pushed are exactly the active calls. */
    ghost predicate Active(calls: seq<string>)
      reads this
    {
      started - Elements(loadingStack) == Elements(calls)
    }

    predicate IsComponentLoaded(name: string)
      reads this
    {
      name in loadingStack
    }

    /** `calls` is the chain of components whose onLoad led here. */
    method Find(name: string, ghost calls: seq<string>) returns (r: Result)
      requires Valid() && Active(calls)
      requires calls == [] || (Path(graph, calls) && (name in graph ==> Edge(graph, calls[|calls| - 1], name)))
      modifies this
      ensures Valid() && old(loadingStack) <= loadingStack && old(started) <= started
      ensures r.Missing? <==> name !in graph
      ensures r.Missing? ==> loadingStack == old(loadingStack) && started == old(started)
      ensures r.Found? ==> name in loadingStack && Active(calls)
      ensures r.CyclicDependence? ==> CycleReachableFrom(graph, if calls == [] then name else calls[0])
      decreases graph.Keys - started, 2
    {
      if name in graph {
        r := Found;
        if !IsComponentLoaded(name) {
          r := SendOnLoad(name, calls);
        }
      } else {
        r := Missing;
      }
    }

    method SendOnLoad(name: string, ghost calls: seq<string>) returns (r: Result)
      requires Valid() && Active(calls) && name in graph
      requires calls == [] || (Path(graph, calls) && Edge(graph, calls[|calls| - 1], name))
      modifies this
      ensures Valid() && old(loadingStack) <= loadingStack && old(started) <= started
      ensures !r.Missing?
      ensures r.Found? ==> name in loadingStack && Active(calls)
      ensures r.CyclicDependence? ==> CycleReachableFrom(graph, if calls == [] then name else calls[0])
      decreases graph.Keys - started, 1
    {
      r := Found;
      if !IsComponentLoaded(name) {
        if name in started {
          assert name in Elements(calls);
          ghost var j := IndexOf(calls, name);
          assert Lasso(graph, calls, j);
          return CyclicDependence;
        }
        started := started + {name};
        ghost var inner := calls + [name];
        assert Elements(inner) == Elements(calls) + {name};
        r := OnLoad(name, inner);
        if r.CyclicDependence? {
          return;
        }
        PushKeepsOrder(graph, loadingStack, name);
        loadingStack := loadingStack + [name];
      }
    }

    /** A component's onLoad, reduced to its lookups: a missing component is tolerated. */
    method OnLoad(name: string, ghost calls: seq<string>) returns (r: Result)
      requires Valid() && Active(calls) && Path(graph, calls) && calls[|calls| - 1] == name && name in graph
      modifies this
      ensures Valid() && old(loadingStack) <= loadingStack && old(started) <= started
      ensures !r.Missing?
      ensures r.Found? ==> Active(calls)
      ensures r.Found? ==> forall d :: Edge(graph, name, d) ==> d in loadingStack
      ensures r.CyclicDependence? ==> CycleReachableFrom(graph, calls[0])
      decreases graph.Keys - started, 3
    {
      var deps := graph[name];
      for i := 0 to |deps|
        invariant Valid() && old(loadingStack) <= loadingStack && old(started) <= started
        invariant Active(calls)
        invariant forall k :: 0 <= k < i && deps[k] in graph ==> deps[k] in loadingStack
      {
        r := Find(deps[i], calls);
        if r.CyclicDependence? {
          return;
        }
      }
      r := Found;
    }

    /**
     The whole load, in the iteration order of the component map: it fails exactly when some component
     reaches a cycle, and otherwise leaves a topological order of all components.
     */
    method SendOnLoadToComponents(order: seq<string>) returns (r: Result)
      requires Valid() && Active([]) && Elements(order) == graph.Keys
      modifies this
      ensures Valid() && old(loadingStack) <= loadingStack
      ensures r.CyclicDependence? <==> exists a :: a in graph && CycleReachableFrom(graph, a)
      ensures r.Found? <==> !r.CyclicDependence?
      ensures r.Found? ==> Elements(loadingStack) == graph.Keys && |loadingStack| == |graph|
      ensures r.Found? ==> Distinct(loadingStack) && DependenciesFirst(graph, loadingStack)
    {
      for i := 0 to |order|
        invariant Valid() && Active([]) && old(loadingStack) <= loadingStack
        invariant forall k :: 0 <= k < i ==> order[k] in loadingStack
      {
        assert order[i] in Elements(order);
        r := SendOnLoad(order[i], []);
        if r.CyclicDependence? {
          return;
        }
      }
      r := Found;
      forall a | a in graph
        ensures a in loadingStack && !CycleReachableFrom(graph, a)
      {
        assert a in Elements(order);
        LoadedMeansAcyclic(graph, loadingStack, a);
      }
      DistinctSize(loadingStack);
      assert Elements(loadingStack) == graph.Keys;
    }
  }

  lemma {:induction false} DistinctSize(s: seq<string>)
    requires Distinct(s)
    ensures |Elements(s)| == |s|
  {
    if s != [] {
      var n := |s| - 1;
      DistinctSize(s[..n]);
      assert Elements(s) == Elements(s[..n]) + {s[n]};
    }
  }

  /** A single lookup on an idle set fails exactly when it reaches a cycle. */
  method FindIdle(c: ComponentSet, name: string) returns (r: Result)
    requires c.Valid() && c.Active([])
    modifies c
    ensures c.Valid() && old(c.loadingStack) <= c.loadingStack
    ensures r.CyclicDependence? <==> name in c.graph && CycleReachableFrom(c.graph, name)
    ensures r.Missing? <==> name !in c.graph
    ensures r.Found? ==> name in c.loadingStack && c.Active([])
  {
    r := c.Find(name, []);
    if r.Found? {
      LoadedMeansAcyclic(c.graph, c.loadingStack, name);
    }
  }
}
