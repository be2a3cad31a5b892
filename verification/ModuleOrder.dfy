/** The order in which embedded modules are written: depth first over the recorded
    dependencies, with cycle detection. */
module ModuleOrder {
  import opened Common
  import opened DqmBytes

  type Name = Bytes

  /** The recorded dependencies of each embedded module, in iteration order. */
  type Graph = map<Name, seq<Name>>

  /** The variables of the walk. The error names the module that closed the last cycle seen. */
  datatype Walk = Walk(visited: set<Name>, active: set<Name>, result: seq<Name>, error: Option<Name>)

  ghost function Untouched(g: Graph, w: Walk): set<Name> {
    g.Keys - w.visited - w.active
  }

  function Visit(g: Graph, n: Name, w: Walk): (v: Walk)
    ensures w.visited + w.active <= v.visited + v.active
    decreases Untouched(g, w), 0
  {
    if n in w.visited then w
    else if n in w.active then w.(error := Some(n))
    else
      var open := w.(active := w.active + {n});
      if n !in g then open
      else
        assert n in Untouched(g, w) && n !in Untouched(g, open);
        var v := VisitAll(g, g[n], open);
        Walk(v.visited + {n}, v.active - {n}, v.result + [n], v.error)
  }

  function VisitAll(g: Graph, names: seq<Name>, w: Walk): (v: Walk)
    ensures w.visited + w.active <= v.visited + v.active
    decreases Untouched(g, w), |names|
  {
    if names == [] then w else VisitAll(g, names[1..], Visit(g, names[0], w))
  }

  const START := Walk({}, {}, [], None)

  class FlattenedModules {
    var modules: Graph
    var error: Option<Name>
    var visited: set<Name>
    var active: set<Name>
    var result: seq<Name>

    ghost function View(): Walk
      reads this
    {
      Walk(visited, active, result, error)
    }

    method VisitModule(n: Name)
      modifies `visited, `active, `result, `error
      ensures View() == Visit(modules, n, old(View()))
      decreases Untouched(modules, View()), 0
    {
      if n in visited {
        return;
      }
      if n in active {
        error := Some(n);
        return;
      }
      ghost var before := View();
      active := active + {n};
      if n !in modules {
        return;
      }
      assert n in Untouched(modules, before) && n !in Untouched(modules, View());
      VisitDependencies(modules[n]);
      active := active - {n};
      visited := visited + {n};
      result := result + [n];
    }

    method VisitDependencies(names: seq<Name>)
      modifies `visited, `active, `result, `error
      ensures View() == VisitAll(modules, names, old(View()))
      decreases Untouched(modules, View()), |names|
    {
      if names != [] {
        VisitModule(names[0]);
        VisitDependencies(names[1..]);
      }
    }

    /** `names` are the keys of the module map in its iteration order. */
    method OrderedModules(names: seq<Name>) returns (ordered: seq<Name>)
      requires error == None && IsListing(modules, names) && Closed(modules)
      modifies `visited, `active, `result, `error
      ensures NoDuplicates(ordered) && forall n :: n in ordered <==> n in modules
      ensures error.Some? <==> HasCycle(modules)
      ensures error.None? ==> DependenciesFirst(modules, ordered)
    {
      visited, active, result := {}, {}, [];
      VisitDependencies(names);
      OrderIsRight(modules, names);
      ordered := result;
    }
  }

  // ----- what the order means

  ghost predicate IsListing(g: Graph, names: seq<Name>) {
    forall n :: n in names <==> n in g
  }

  /** Every recorded dependency is itself an embedded module. The flattening keeps this. */
  ghost predicate Closed(g: Graph) {
    forall n, d :: n in g && d in g[n] ==> d in g
  }

  ghost predicate IsPath(g: Graph, path: seq<Name>) {
    forall k {:trigger path[k]} :: 0 <= k < |path| ==>
      path[k] in g && (k + 1 < |path| ==> path[k + 1] in g[path[k]])
  }

  ghost predicate HasCycle(g: Graph) {
    exists path: seq<Name> :: |path| > 1 && IsPath(g, path) && path[0] == path[|path| - 1]
  }

  ghost predicate DependenciesFirst(g: Graph, order: seq<Name>) {
    forall k, d :: 0 <= k < |order| && order[k] in g && d in g[order[k]] ==> d in order[..k]
  }

  /** The walk with the modules on `stack` open, innermost last. */
  ghost predicate Inv(g: Graph, w: Walk, stack: seq<Name>) {
    && NoDuplicates(w.result)
    && (forall n :: n in w.visited <==> n in w.result)
    && (forall n :: n in w.active <==> n in stack)
    && (forall n :: n in w.result ==> n in g && n !in stack)
    && IsPath(g, stack)
    && (w.error.None? ==> DependenciesFirst(g, w.result))
  }

  /** An open module that is visited again closes a cycle through the stack. */
  lemma StackCloses(g: Graph, stack: seq<Name>, n: Name)
    requires IsPath(g, stack) && n in stack && n in g[stack[|stack| - 1]]
    ensures HasCycle(g)
  {
    var i :| 0 <= i < |stack| && stack[i] == n;
    var path := stack[i..] + [n];
    forall k | 0 <= k < |path| ensures path[k] in g && (k + 1 < |path| ==> path[k + 1] in g[path[k]]) {
      if k < |path| - 1 {
        assert path[k] == stack[i + k];
      }
    }
    assert IsPath(g, path) && path[0] == path[|path| - 1];
  }

  lemma DependenciesFirstAppend(g: Graph, order: seq<Name>, n: Name)
    requires DependenciesFirst(g, order) && n in g && forall d :: d in g[n] ==> d in order
    ensures DependenciesFirst(g, order + [n])
  {
    var longer := order + [n];
    forall k, d | 0 <= k < |longer| && longer[k] in g && d in g[longer[k]] ensures d in longer[..k] {
      assert longer[..k] == if k < |order| then order[..k] else order;
    }
  }

  lemma {:induction false} VisitKeeps(g: Graph, n: Name, w: Walk, stack: seq<Name>)
    requires Closed(g) && Inv(g, w, stack) && n in g
    requires stack != [] ==> n in g[stack[|stack| - 1]]
    ensures var v := Visit(g, n, w);
      && Inv(g, v, stack) && w.visited <= v.visited
      && (w.error.Some? ==> v.error.Some?)
      && (v.error.Some? ==> w.error.Some? || HasCycle(g))
      && (n in v.visited || v.error.Some?) && (stack == [] ==> n in v.visited)
    decreases Untouched(g, w), 0
  {
    if n in w.visited {
    } else if n in w.active {
      StackCloses(g, stack, n);
    } else {
      var open := w.(active := w.active + {n});
      assert n in Untouched(g, w) && n !in Untouched(g, open);
      PushKeeps(g, n, w, stack);
      VisitAllKeeps(g, g[n], open, stack + [n]);
      PopKeeps(g, n, VisitAll(g, g[n], open), stack);
    }
  }

  lemma PushKeeps(g: Graph, n: Name, w: Walk, stack: seq<Name>)
    requires Inv(g, w, stack) && n in g && n !in w.visited && n !in w.active
    requires stack != [] ==> n in g[stack[|stack| - 1]]
    ensures Inv(g, w.(active := w.active + {n}), stack + [n])
  {
  }

  lemma PopKeeps(g: Graph, n: Name, v: Walk, stack: seq<Name>)
    requires Inv(g, v, stack + [n]) && n !in stack && n in g
    requires v.error.None? ==> forall d :: d in g[n] ==> d in v.visited
    ensures Inv(g, Walk(v.visited + {n}, v.active - {n}, v.result + [n], v.error), stack)
  {
    assert (stack + [n])[|stack|] == n;
    assert IsPath(g, stack) by {
      assert forall k :: 0 <= k < |stack| ==> (stack + [n])[k] == stack[k];
    }
    if v.error.None? {
      DependenciesFirstAppend(g, v.result, n);
    }
  }

  lemma {:induction false} VisitAllKeeps(g: Graph, names: seq<Name>, w: Walk, stack: seq<Name>)
    requires Closed(g) && Inv(g, w, stack) && forall n :: n in names ==> n in g
    requires stack != [] ==> forall n :: n in names ==> n in g[stack[|stack| - 1]]
    ensures var v := VisitAll(g, names, w);
      && Inv(g, v, stack) && w.visited <= v.visited
      && (w.error.Some? ==> v.error.Some?)
      && (v.error.Some? ==> w.error.Some? || HasCycle(g))
      && (v.error.None? || stack == [] ==> forall n :: n in names ==> n in v.visited)
    decreases Untouched(g, w), |names|
  {
    if names != [] {
      assert names[0] in names && forall n :: n in names[1..] ==> n in names;
      VisitKeeps(g, names[0], w, stack);
      VisitAllKeeps(g, names[1..], Visit(g, names[0], w), stack);
    }
  }

  ghost function Position(order: seq<Name>, n: Name): nat
    requires n in order
    ensures Position(order, n) < |order| && order[Position(order, n)] == n
  {
    var i: nat :| i < |order| && order[i] == n; i
  }

  lemma EarlierPosition(g: Graph, order: seq<Name>, a: Name, b: Name)
    requires NoDuplicates(order) && DependenciesFirst(g, order) && a in order && a in g && b in g[a]
    ensures b in order && Position(order, b) < Position(order, a)
  {
    var i := Position(order, a);
    assert order[i] == a && b in order[..i];
    var j :| 0 <= j < i && order[j] == b;
    var k := Position(order, b);
    assert j == k;
  }

  /** Along a path, positions in a dependencies-first order go down. */
  lemma {:induction false} PathDescends(g: Graph, order: seq<Name>, path: seq<Name>, k: nat)
    requires NoDuplicates(order) && DependenciesFirst(g, order) && IsPath(g, path)
    requires 0 < k < |path| && path[0] in order
    ensures path[k] in order && Position(order, path[k]) < Position(order, path[0])
    decreases k
  {
    if k > 1 {
      PathDescends(g, order, path, k - 1);
    }
    var a := path[k - 1];
    assert a in g && path[k - 1 + 1] in g[a];
    EarlierPosition(g, order, a, path[k]);
  }

  /** Every module is listed once. The error is set exactly when the recorded dependencies
      have a cycle; without one, each module comes after all it depends on. */
  lemma OrderIsRight(g: Graph, names: seq<Name>)
    requires IsListing(g, names) && Closed(g)
    ensures var v := VisitAll(g, names, START);
      && NoDuplicates(v.result) && (forall n :: n in v.result <==> n in g)
      && (v.error.Some? <==> HasCycle(g))
      && (v.error.None? ==> DependenciesFirst(g, v.result))
  {
    VisitAllKeeps(g, names, START, []);
    var v := VisitAll(g, names, START);
    if v.error.None? && HasCycle(g) {
      var path: seq<Name> :| |path| > 1 && IsPath(g, path) && path[0] == path[|path| - 1];
      PathDescends(g, v.result, path, |path| - 1);
    }
  }
}
