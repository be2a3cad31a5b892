/** Interface flattening: which foreign declarations an interface must embed so that its own
    public declarations and re-exports can be read without the modules they come from. */
module Flattening {
  import opened Common
  import opened DqmBytes
  import ModuleOrder

  type Name = Bytes
  type Node = nat  // a type or a value symbol

  /** How the walk treats a node. Wrappers are pointers, arrays, references and ownership. */
  datatype Kind = WrapperType | FunctionType | NamedType | Value

  /** A node with its owner module, whether that module declares it, and what it refers to. */
  datatype Info = Info(kind: Kind, owner: Option<Name>, declared: bool, children: seq<Node>)

  /** The symbols of a compilation. References never leave the map. */
  datatype World = World(root: Name, nodes: map<Node, Info>)
  {
    ghost predicate Valid() {
      && (forall n, c :: n in nodes && c in nodes[n].children ==> c in nodes)
    }

    predicate IsForeign(n: Node)
      requires n in nodes
    {
      nodes[n].owner.Some? && nodes[n].owner.value != root
    }

    /** The walk embeds this type's declaration when it visits it. */
    predicate Embeds(n: Node)
      requires n in nodes
    {
      (nodes[n].kind == FunctionType || nodes[n].kind == NamedType) && IsForeign(n)
    }
  }

  datatype Embedded = Embedded(declarations: set<Node>, dependencies: set<Name>)

  datatype State = State(visited: set<Node>, modules: map<Name, Embedded>, failed: bool)

  const START := State({}, map[], false)

  // ----- the steps of the walk

  function ModuleOf(s: State, m: Name): Embedded {
    if m in s.modules then s.modules[m] else Embedded({}, {})
  }

  /** Makes the owner an embedded module, and a dependency of the consumer if that is one. */
  function Touch(w: World, s: State, consumer: Name, owner: Name): State {
    var t := s.(modules := s.modules[owner := ModuleOf(s, owner)]);
    if consumer == [] || consumer == owner || owner == w.root || consumer !in t.modules then t
    else
      var e := t.modules[consumer];
      t.(modules := t.modules[consumer := e.(dependencies := e.dependencies + {owner})])
  }

  function Declare(s: State, m: Name, n: Node): State {
    var e := ModuleOf(s, m);
    s.(modules := s.modules[m := e.(declarations := e.declarations + {n})])
  }

  /** For whom the children of a node are needed. */
  function ConsumerBelow(w: World, n: Node, consumer: Name): Name
    requires n in w.nodes
  {
    if w.nodes[n].kind == NamedType && w.nodes[n].owner.Some? then w.nodes[n].owner.value else consumer
  }

  ghost function Unvisited(w: World, s: State): set<Node> {
    w.nodes.Keys - s.visited
  }

  /** What happens before the visited check: an owner is recorded even for a known type. */
  function Meet(w: World, n: Node, consumer: Name, s: State): State
    requires n in w.nodes
  {
    if w.nodes[n].kind != Value && w.IsForeign(n) then Touch(w, s, consumer, w.nodes[n].owner.value) else s
  }

  /** IncludeType for a type, CollectValueDependencies for a value symbol. */
  function Include(w: World, n: Node, consumer: Name, s: State): (t: State)
    requires w.Valid() && n in w.nodes
    ensures s.visited <= t.visited
    decreases Unvisited(w, s), 0
  {
    var met := Meet(w, n, consumer, s);
    if n in s.visited then met
    else
      var open := met.(visited := met.visited + {n});
      assert n in Unvisited(w, s) && n !in Unvisited(w, open);
      if w.Embeds(n) && !w.nodes[n].declared then open.(failed := true)
      else
        var embedded := if w.Embeds(n) then Declare(open, w.nodes[n].owner.value, n) else open;
        IncludeAll(w, w.nodes[n].children, ConsumerBelow(w, n, consumer), embedded)
  }

  function IncludeAll(w: World, ns: seq<Node>, consumer: Name, s: State): (t: State)
    requires w.Valid() && forall n :: n in ns ==> n in w.nodes
    ensures s.visited <= t.visited
    decreases Unvisited(w, s), |ns|
  {
    if ns == [] then s else IncludeAll(w, ns[1..], consumer, Include(w, ns[0], consumer, s))
  }

  /** A re-exported value: its declaration is embedded even when it was visited before. */
  function IncludeValue(w: World, n: Node, consumer: Name, s: State): State
    requires w.Valid() && n in w.nodes
  {
    if w.IsForeign(n) then
      var owner := w.nodes[n].owner.value;
      var touched := Touch(w, s, consumer, owner);
      if !w.nodes[n].declared then touched.(failed := true)
      else Include(w, n, owner, Declare(touched, owner, n))
    else Include(w, n, if w.nodes[n].owner.Some? then w.nodes[n].owner.value else consumer, s)
  }

  /** A re-exported symbol without an owner module is an error, but the walk goes on. */
  function Owned(w: World, n: Node, s: State): State
    requires n in w.nodes
  {
    if w.nodes[n].owner.None? then s.(failed := true) else s
  }

  function Export(w: World, n: Node, s: State): State
    requires w.Valid() && n in w.nodes
  {
    var t := Owned(w, n, s);
    if w.nodes[n].kind == Value then IncludeValue(w, n, w.root, t) else Include(w, n, w.root, t)
  }

  function ExportAll(w: World, ns: seq<Node>, s: State): State
    requires w.Valid() && forall n :: n in ns ==> n in w.nodes
    decreases |ns|
  {
    if ns == [] then s else ExportAll(w, ns[1..], Export(w, ns[0], s))
  }

  /** The whole flattening: the root's own declarations, then the re-exported symbols. */
  function Flatten(w: World, own: seq<Node>, exported: seq<Node>): State
    requires w.Valid() && forall n :: n in own || n in exported ==> n in w.nodes
  {
    ExportAll(w, exported, IncludeAll(w, own, w.root, START))
  }

  // ----- in place

  class FlattenedInterface {
    const w: World
    var visited: set<Node>
    var modules: map<Name, Embedded>
    var failed: bool

    ghost function View(): State
      reads this
    {
      State(visited, modules, failed)
    }

    constructor (w: World)
      ensures this.w == w && View() == START
    {
      this.w := w;
      visited, modules, failed := {}, map[], false;
    }

    method TouchModule(consumer: Name, owner: Name)
      modifies this
      ensures View() == Touch(w, old(View()), consumer, owner)
    {
      if owner !in modules {
        modules := modules[owner := Embedded({}, {})];
      } else {
        assert modules == modules[owner := modules[owner]];
      }
      if consumer == [] || consumer == owner || owner == w.root {
        return;
      }
      if consumer in modules {
        var e := modules[consumer];
        modules := modules[consumer := e.(dependencies := e.dependencies + {owner})];
      }
    }

    method DeclareIn(m: Name, n: Node)
      modifies this
      ensures View() == Declare(old(View()), m, n)
    {
      var e := if m in modules then modules[m] else Embedded({}, {});
      modules := modules[m := e.(declarations := e.declarations + {n})];
    }

    method IncludeNode(n: Node, consumer: Name)
      requires w.Valid() && n in w.nodes
      modifies this
      ensures View() == Include(w, n, consumer, old(View()))
      decreases Unvisited(w, View()), 0
    {
      var info := w.nodes[n];
      if info.kind != Value && w.IsForeign(n) {
        TouchModule(consumer, info.owner.value);
      }
      if n in visited {
        return;
      }
      ghost var before := View();
      visited := visited + {n};
      assert n in Unvisited(w, before) && n !in Unvisited(w, View());
      if w.Embeds(n) {
        if !info.declared {
          failed := true;
          return;
        }
        DeclareIn(info.owner.value, n);
      }
      IncludeNodes(info.children, ConsumerBelow(w, n, consumer));
    }

    method IncludeNodes(ns: seq<Node>, consumer: Name)
      requires w.Valid() && forall n :: n in ns ==> n in w.nodes
      modifies this
      ensures View() == IncludeAll(w, ns, consumer, old(View()))
      decreases Unvisited(w, View()), |ns|
    {
      if ns != [] {
        IncludeNode(ns[0], consumer);
        IncludeNodes(ns[1..], consumer);
      }
    }

    method ExportNode(n: Node)
      requires w.Valid() && n in w.nodes
      modifies this
      ensures View() == Export(w, n, old(View()))
    {
      var info := w.nodes[n];
      if info.owner.None? {
        failed := true;
      }
      if info.kind != Value {
        IncludeNode(n, w.root);
        return;
      }
      if w.IsForeign(n) {
        TouchModule(w.root, info.owner.value);
        if !info.declared {
          failed := true;
          return;
        }
        DeclareIn(info.owner.value, n);
      }
      IncludeNode(n, if info.owner.Some? then info.owner.value else w.root);
    }

    /** What the constructor of the flattened interface does. */
    method FlattenAll(own: seq<Node>, exported: seq<Node>)
      requires w.Valid() && View() == START && forall n :: n in own || n in exported ==> n in w.nodes
      modifies this
      ensures View() == Flatten(w, own, exported)
    {
      IncludeNodes(own, w.root);
      ghost var start := View();
      for i := 0 to |exported|
        invariant ExportAll(w, exported, start) == ExportAll(w, exported[i..], View())
      {
        assert exported[i..][1..] == exported[i + 1..];
        ExportNode(exported[i]);
      }
    }
  }

  // ----- what is embedded

  ghost predicate IsChain(w: World, path: seq<Node>) {
    forall k {:trigger path[k]} :: 0 <= k < |path| ==>
      path[k] in w.nodes && (k + 1 < |path| ==> path[k + 1] in w.nodes[path[k]].children)
  }

  /** References lead from one of `from` to `x`. */
  ghost predicate Reached(w: World, from: seq<Node>, x: Node) {
    exists path: seq<Node> :: |path| > 0 && IsChain(w, path) && path[0] in from && path[|path| - 1] == x
  }

  lemma ReachedItself(w: World, from: seq<Node>, x: Node)
    requires x in from && x in w.nodes
    ensures Reached(w, from, x)
  {
    assert IsChain(w, [x]) && [x][0] in from && [x][|[x]| - 1] == x;
  }

  lemma ChainCons(w: World, n: Node, path: seq<Node>)
    requires n in w.nodes && |path| > 0 && IsChain(w, path) && path[0] in w.nodes[n].children
    ensures IsChain(w, [n] + path)
  {
    var longer := [n] + path;
    forall k | 0 <= k < |longer|
      ensures longer[k] in w.nodes && (k + 1 < |longer| ==> longer[k + 1] in w.nodes[longer[k]].children)
    {
      if k > 0 {
        assert longer[k] == path[k - 1];
      }
    }
  }

  lemma ReachedBelow(w: World, from: seq<Node>, n: Node, x: Node)
    requires n in from && n in w.nodes && Reached(w, w.nodes[n].children, x)
    ensures Reached(w, from, x)
  {
    var path: seq<Node> :| |path| > 0 && IsChain(w, path) && path[0] in w.nodes[n].children && path[|path| - 1] == x;
    ChainCons(w, n, path);
    var longer := [n] + path;
    assert longer[0] in from && longer[|longer| - 1] == x;
  }

  function Declarations(s: State, m: Name): set<Node> {
    ModuleOf(s, m).declarations
  }

  ghost predicate EmbeddedIn(w: World, x: Node, m: Name) {
    x in w.nodes && w.Embeds(x) && w.nodes[x].owner == Some(m)
  }

  /** A re-exported value that another module owns. */
  ghost predicate ExportedFrom(w: World, exported: seq<Node>, m: Name, x: Node) {
    x in exported && x in w.nodes && w.nodes[x].kind == Value && w.IsForeign(x) && w.nodes[x].owner == Some(m)
  }

  /** A foreign type that its own module does not declare. */
  ghost predicate Missing(w: World, x: Node) {
    x in w.nodes && w.Embeds(x) && !w.nodes[x].declared
  }

  /** `x` is declared for `m` in `t` if it was in `s`, or must have been added since. */
  ghost predicate DeclaresWhatItMust(w: World, s: State, t: State, exported: seq<Node>, m: Name, x: Node) {
    x in Declarations(t, m) <==>
      || x in Declarations(s, m)
      || (x in t.visited && x !in s.visited && EmbeddedIn(w, x, m))
      || ExportedFrom(w, exported, m, x)
  }

  /** What a successful part of the walk adds: nodes reached from `from`, closed under
      references; the declarations of the foreign named types among them; and those of the
      foreign values in `exported`. */
  ghost predicate Grew(w: World, s: State, t: State, from: seq<Node>, exported: seq<Node>) {
    && s.visited <= t.visited
    && (forall x :: x in t.visited && x !in s.visited ==>
         && x in w.nodes && Reached(w, from, x) && !Missing(w, x)
         && forall c :: c in w.nodes[x].children ==> c in t.visited)
    && (forall m, x :: DeclaresWhatItMust(w, s, t, exported, m, x))
  }

  lemma TouchDeclaresNothing(w: World, s: State, consumer: Name, owner: Name)
    ensures forall m :: Declarations(Touch(w, s, consumer, owner), m) == Declarations(s, m)
    ensures Touch(w, s, consumer, owner).visited == s.visited && Touch(w, s, consumer, owner).failed == s.failed
  {
  }

  lemma {:induction false} IncludeGrows(w: World, n: Node, consumer: Name, s: State)
    requires w.Valid() && n in w.nodes
    ensures var t := Include(w, n, consumer, s);
      (s.failed ==> t.failed) && (!t.failed ==> n in t.visited && Grew(w, s, t, [n], []))
    decreases Unvisited(w, s), 0
  {
    var met := Meet(w, n, consumer, s);
    if w.nodes[n].kind != Value && w.IsForeign(n) {
      TouchDeclaresNothing(w, s, consumer, w.nodes[n].owner.value);
    }
    if n !in s.visited {
      var open := met.(visited := met.visited + {n});
      assert n in Unvisited(w, s) && n !in Unvisited(w, open);
      if !(w.Embeds(n) && !w.nodes[n].declared) {
        var embedded := if w.Embeds(n) then Declare(open, w.nodes[n].owner.value, n) else open;
        IncludeAllGrows(w, w.nodes[n].children, ConsumerBelow(w, n, consumer), embedded);
        var t := Include(w, n, consumer, s);
        if !t.failed {
          GrowsBelow(w, n, s, embedded, t);
        }
      }
    }
  }

  /** Growth from the children of a node that has just been opened is growth from the node. */
  lemma GrowsBelow(w: World, n: Node, s: State, started: State, t: State)
    requires w.Valid() && n in w.nodes && n !in s.visited && !Missing(w, n) && started.visited == s.visited + {n}
    requires forall m, x :: x in Declarations(started, m) <==>
      x in Declarations(s, m) || (x == n && EmbeddedIn(w, n, m))
    requires Grew(w, started, t, w.nodes[n].children, []) && forall c :: c in w.nodes[n].children ==> c in t.visited
    ensures Grew(w, s, t, [n], [])
  {
    forall x | x in t.visited && x !in s.visited
      ensures x in w.nodes && Reached(w, [n], x) && !Missing(w, x)
      ensures forall c :: c in w.nodes[x].children ==> c in t.visited
    {
      if x == n {
        ReachedItself(w, [n], n);
      } else {
        ReachedBelow(w, [n], n, x);
      }
    }
    forall m, x ensures DeclaresWhatItMust(w, s, t, [], m, x) {
      assert DeclaresWhatItMust(w, started, t, [], m, x);
      assert x in Declarations(started, m) <==> x in Declarations(s, m) || (x == n && EmbeddedIn(w, n, m));
    }
  }

  lemma GrowsTwice(w: World, s: State, t: State, u: State, a: seq<Node>, b: seq<Node>, va: seq<Node>, vb: seq<Node>)
    requires Grew(w, s, t, a, va) && Grew(w, t, u, b, vb)
    ensures Grew(w, s, u, a + b, va + vb)
  {
    forall x | x in u.visited && x !in s.visited
      ensures x in w.nodes && Reached(w, a + b, x) && !Missing(w, x)
      ensures forall c :: c in w.nodes[x].children ==> c in u.visited
    {
      var path: seq<Node> :|
        |path| > 0 && IsChain(w, path) && (path[0] in a || path[0] in b) && path[|path| - 1] == x;
      assert path[0] in a + b;
    }
    forall m, y ensures DeclaresWhatItMust(w, s, u, va + vb, m, y) {
      assert DeclaresWhatItMust(w, s, t, va, m, y) && DeclaresWhatItMust(w, t, u, vb, m, y);
    }
  }

  lemma {:induction false} IncludeAllGrows(w: World, ns: seq<Node>, consumer: Name, s: State)
    requires w.Valid() && forall n :: n in ns ==> n in w.nodes
    ensures var t := IncludeAll(w, ns, consumer, s);
      (s.failed ==> t.failed) && (!t.failed ==> Grew(w, s, t, ns, []) && forall n :: n in ns ==> n in t.visited)
    decreases Unvisited(w, s), |ns|
  {
    if ns != [] {
      IncludeGrows(w, ns[0], consumer, s);
      IncludeAllGrows(w, ns[1..], consumer, Include(w, ns[0], consumer, s));
      var none: seq<Node> := [];
      if !IncludeAll(w, ns, consumer, s).failed {
        GrowsTwice(w, s, Include(w, ns[0], consumer, s), IncludeAll(w, ns, consumer, s), [ns[0]], ns[1..], none, none);
        assert [ns[0]] + ns[1..] == ns && none + none == none;
      }
    }
  }

  /** Growth after the declaration of a foreign value `n` has been added. */
  lemma GrowsAfterDeclare(w: World, n: Node, s: State, started: State, t: State)
    requires n in w.nodes && w.nodes[n].kind == Value && w.IsForeign(n) && started.visited == s.visited
    requires forall m, x :: x in Declarations(started, m) <==>
      x in Declarations(s, m) || (x == n && w.nodes[n].owner == Some(m))
    requires Grew(w, started, t, [n], [])
    ensures Grew(w, s, t, [n], [n])
  {
    forall m, x ensures DeclaresWhatItMust(w, s, t, [n], m, x) {
      assert DeclaresWhatItMust(w, started, t, [], m, x);
      assert x in Declarations(started, m) <==> x in Declarations(s, m) || (x == n && w.nodes[n].owner == Some(m));
    }
  }

  lemma GrowsWithoutDeclare(w: World, n: Node, s: State, t: State)
    requires n in w.nodes && !(w.nodes[n].kind == Value && w.IsForeign(n)) && Grew(w, s, t, [n], [])
    ensures Grew(w, s, t, [n], [n])
  {
    forall m, x ensures DeclaresWhatItMust(w, s, t, [n], m, x) {
      assert DeclaresWhatItMust(w, s, t, [], m, x);
    }
  }

  lemma ForeignValueGrows(w: World, n: Node, s: State)
    requires w.Valid() && n in w.nodes && w.nodes[n].kind == Value && w.IsForeign(n)
    ensures var t := Export(w, n, s);
      (s.failed ==> t.failed) && (!t.failed ==> n in t.visited && Grew(w, s, t, [n], [n]))
  {
    var owner := w.nodes[n].owner.value;
    TouchDeclaresNothing(w, s, w.root, owner);
    var started := Declare(Touch(w, s, w.root, owner), owner, n);
    IncludeGrows(w, n, owner, started);
    if w.nodes[n].declared {
      var t := Include(w, n, owner, started);
      assert t == Export(w, n, s);
      if !t.failed {
        GrowsAfterDeclare(w, n, s, started, t);
      }
    }
  }

  lemma ExportGrows(w: World, n: Node, s: State)
    requires w.Valid() && n in w.nodes
    ensures var t := Export(w, n, s);
      (s.failed || w.nodes[n].owner.None? ==> t.failed) && (!t.failed ==> n in t.visited && Grew(w, s, t, [n], [n]))
  {
    if w.nodes[n].kind == Value && w.IsForeign(n) {
      ForeignValueGrows(w, n, s);
    } else {
      var consumer := if w.nodes[n].kind == Value && w.nodes[n].owner.Some? then w.nodes[n].owner.value else w.root;
      IncludeGrows(w, n, consumer, Owned(w, n, s));
      var t := Export(w, n, s);
      if !t.failed {
        GrowsWithoutDeclare(w, n, s, t);
      }
    }
  }

  lemma {:induction false} ExportAllGrows(w: World, ns: seq<Node>, s: State)
    requires w.Valid() && forall n :: n in ns ==> n in w.nodes
    ensures var t := ExportAll(w, ns, s);
      (s.failed ==> t.failed) && (!t.failed ==> Grew(w, s, t, ns, ns) && forall n :: n in ns ==> n in t.visited)
    decreases |ns|
  {
    if ns != [] {
      ExportGrows(w, ns[0], s);
      ExportAllGrows(w, ns[1..], Export(w, ns[0], s));
      if !ExportAll(w, ns, s).failed {
        GrowsTwice(w, s, Export(w, ns[0], s), ExportAll(w, ns, s), [ns[0]], ns[1..], [ns[0]], ns[1..]);
        assert [ns[0]] + ns[1..] == ns;
      }
    }
  }

  lemma {:induction false} ClosedContainsChain(w: World, closed: set<Node>, path: seq<Node>, k: nat)
    requires IsChain(w, path) && k < |path| && path[0] in closed
    requires forall x, c :: x in closed && x in w.nodes && c in w.nodes[x].children ==> c in closed
    ensures path[k] in closed
  {
    if k > 0 {
      ClosedContainsChain(w, closed, path, k - 1);
      assert path[k - 1 + 1] in w.nodes[path[k - 1]].children;
    }
  }

  lemma VisitedIfReached(w: World, roots: seq<Node>, closed: set<Node>, x: Node)
    requires Reached(w, roots, x) && forall n :: n in roots ==> n in closed
    requires forall x, c :: x in closed && x in w.nodes && c in w.nodes[x].children ==> c in closed
    ensures x in closed
  {
    var path: seq<Node> :| |path| > 0 && IsChain(w, path) && path[0] in roots && path[|path| - 1] == x;
    ClosedContainsChain(w, closed, path, |path| - 1);
  }

  lemma FlattenGrows(w: World, own: seq<Node>, exported: seq<Node>)
    requires w.Valid() && forall n :: n in own || n in exported ==> n in w.nodes
    requires !Flatten(w, own, exported).failed
    ensures var t := Flatten(w, own, exported);
      Grew(w, START, t, own + exported, exported) && forall n :: n in own + exported ==> n in t.visited
  {
    var s := IncludeAll(w, own, w.root, START);
    IncludeAllGrows(w, own, w.root, START);
    ExportAllGrows(w, exported, s);
    GrowsTwice(w, START, s, Flatten(w, own, exported), own, exported, [], exported);
    assert [] + exported == exported;
  }

  /** When flattening ends without error, it has visited exactly what the root's declarations
      and re-exports reach, through recursive types too, and a module's embedded declarations
      are exactly its named types among that and its re-exported values. */
  lemma FlattenIsExact(w: World, own: seq<Node>, exported: seq<Node>)
    requires w.Valid() && forall n :: n in own || n in exported ==> n in w.nodes
    requires !Flatten(w, own, exported).failed
    ensures var t := Flatten(w, own, exported);
      && (forall x :: x in t.visited <==> Reached(w, own + exported, x))
      && (forall m, x :: x in Declarations(t, m) <==>
           (Reached(w, own + exported, x) && EmbeddedIn(w, x, m)) || ExportedFrom(w, exported, m, x))
  {
    var t := Flatten(w, own, exported);
    FlattenGrows(w, own, exported);
    forall x | Reached(w, own + exported, x) ensures x in t.visited {
      VisitedIfReached(w, own + exported, t.visited, x);
    }
    forall m, x ensures x in Declarations(t, m) <==>
      (Reached(w, own + exported, x) && EmbeddedIn(w, x, m)) || ExportedFrom(w, exported, m, x)
    {
      assert DeclaresWhatItMust(w, START, t, exported, m, x);
    }
  }

  // ----- when it fails

  /** A foreign value that its own module does not declare. */
  ghost predicate MissingValue(w: World, x: Node) {
    x in w.nodes && w.nodes[x].kind == Value && w.IsForeign(x) && !w.nodes[x].declared
  }

  lemma ReachedFromMore(w: World, from: seq<Node>, more: seq<Node>, x: Node)
    requires Reached(w, from, x) && forall n :: n in from ==> n in more
    ensures Reached(w, more, x)
  {
    var path: seq<Node> :| |path| > 0 && IsChain(w, path) && path[0] in from && path[|path| - 1] == x;
    assert path[0] in more;
  }

  lemma {:induction false} IncludeFails(w: World, n: Node, consumer: Name, s: State) returns (x: Node)
    requires w.Valid() && n in w.nodes && !s.failed && Include(w, n, consumer, s).failed
    ensures Reached(w, [n], x) && Missing(w, x)
    decreases Unvisited(w, s), 0
  {
    var open := Meet(w, n, consumer, s).(visited := s.visited + {n});
    assert n in Unvisited(w, s) && n !in Unvisited(w, open);
    if Missing(w, n) {
      x := n;
      ReachedItself(w, [n], n);
    } else {
      var embedded := if w.Embeds(n) then Declare(open, w.nodes[n].owner.value, n) else open;
      x := IncludeAllFails(w, w.nodes[n].children, ConsumerBelow(w, n, consumer), embedded);
      ReachedBelow(w, [n], n, x);
    }
  }

  lemma {:induction false} IncludeAllFails(w: World, ns: seq<Node>, consumer: Name, s: State) returns (x: Node)
    requires w.Valid() && (forall n :: n in ns ==> n in w.nodes) && !s.failed && IncludeAll(w, ns, consumer, s).failed
    ensures Reached(w, ns, x) && Missing(w, x)
    decreases Unvisited(w, s), |ns|
  {
    var t := Include(w, ns[0], consumer, s);
    if t.failed {
      x := IncludeFails(w, ns[0], consumer, s);
      ReachedFromMore(w, [ns[0]], ns, x);
    } else {
      x := IncludeAllFails(w, ns[1..], consumer, t);
      ReachedFromMore(w, ns[1..], ns, x);
    }
  }

  /** What is wrong with a re-exported symbol itself. */
  ghost predicate CannotExport(w: World, x: Node) {
    x in w.nodes && (w.nodes[x].owner.None? || MissingValue(w, x))
  }

  lemma ExportFails(w: World, n: Node, s: State) returns (x: Node)
    requires w.Valid() && n in w.nodes && !s.failed && Export(w, n, s).failed
    ensures CannotExport(w, n) || (Reached(w, [n], x) && Missing(w, x))
  {
    x := n;
    if CannotExport(w, n) {
      return;
    }
    if w.nodes[n].kind != Value {
      x := IncludeFails(w, n, w.root, s);
    } else if !w.IsForeign(n) {
      x := IncludeFails(w, n, w.nodes[n].owner.value, s);
    } else {
      var owner := w.nodes[n].owner.value;
      x := IncludeFails(w, n, owner, Declare(Touch(w, s, w.root, owner), owner, n));
    }
  }

  lemma {:induction false} ExportAllFails(w: World, ns: seq<Node>, s: State) returns (x: Node)
    requires w.Valid() && (forall n :: n in ns ==> n in w.nodes) && !s.failed && ExportAll(w, ns, s).failed
    ensures (x in ns && CannotExport(w, x)) || (Reached(w, ns, x) && Missing(w, x))
    decreases |ns|
  {
    var t := Export(w, ns[0], s);
    if t.failed {
      x := ExportFails(w, ns[0], s);
      if CannotExport(w, ns[0]) {
        x := ns[0];
      } else {
        ReachedFromMore(w, [ns[0]], ns, x);
      }
    } else {
      x := ExportAllFails(w, ns[1..], t);
      if !(x in ns[1..] && CannotExport(w, x)) {
        ReachedFromMore(w, ns[1..], ns, x);
      }
    }
  }

  lemma {:induction false} ExportedAreDeclared(w: World, ns: seq<Node>, s: State)
    requires w.Valid() && (forall n :: n in ns ==> n in w.nodes) && !ExportAll(w, ns, s).failed
    ensures forall n :: n in ns ==> !CannotExport(w, n)
    decreases |ns|
  {
    if ns != [] {
      ExportedAreDeclared(w, ns[1..], Export(w, ns[0], s));
      ExportAllGrows(w, ns[1..], Export(w, ns[0], s));
      ExportGrows(w, ns[0], s);
      assert forall n :: n in ns ==> n == ns[0] || n in ns[1..];
    }
  }

  /** The walk fails exactly when a foreign type it reaches, or a foreign value that is
      re-exported, is not declared by its own module, or a re-exported symbol has no owner. */
  lemma FlattenFailsIff(w: World, own: seq<Node>, exported: seq<Node>)
    requires w.Valid() && forall n :: n in own || n in exported ==> n in w.nodes
    ensures Flatten(w, own, exported).failed <==>
      || (exists x :: Reached(w, own + exported, x) && Missing(w, x))
      || (exists x :: x in exported && CannotExport(w, x))
  {
    var s := IncludeAll(w, own, w.root, START);
    if Flatten(w, own, exported).failed {
      if s.failed {
        var x := IncludeAllFails(w, own, w.root, START);
        ReachedFromMore(w, own, own + exported, x);
      } else {
        var x := ExportAllFails(w, exported, s);
        if !(x in exported && CannotExport(w, x)) {
          ReachedFromMore(w, exported, own + exported, x);
        }
      }
    } else {
      FlattenGrows(w, own, exported);
      FlattenIsExact(w, own, exported);
      ExportedAreDeclared(w, exported, s);
    }
  }

  // ----- the recorded dependencies

  /** Recorded dependencies are embedded modules themselves. */
  ghost predicate DependenciesEmbedded(s: State) {
    forall m, d :: m in s.modules && d in s.modules[m].dependencies ==> d in s.modules
  }

  lemma {:induction false} IncludeKeepsEmbedded(w: World, n: Node, consumer: Name, s: State)
    requires w.Valid() && n in w.nodes && DependenciesEmbedded(s)
    ensures DependenciesEmbedded(Include(w, n, consumer, s))
    decreases Unvisited(w, s), 0
  {
    var met := Meet(w, n, consumer, s);
    if n !in s.visited {
      var open := met.(visited := met.visited + {n});
      assert n in Unvisited(w, s) && n !in Unvisited(w, open);
      var embedded := if w.Embeds(n) then Declare(open, w.nodes[n].owner.value, n) else open;
      IncludeAllKeepsEmbedded(w, w.nodes[n].children, ConsumerBelow(w, n, consumer), embedded);
    }
  }

  lemma {:induction false} IncludeAllKeepsEmbedded(w: World, ns: seq<Node>, consumer: Name, s: State)
    requires w.Valid() && DependenciesEmbedded(s) && forall n :: n in ns ==> n in w.nodes
    ensures DependenciesEmbedded(IncludeAll(w, ns, consumer, s))
    decreases Unvisited(w, s), |ns|
  {
    if ns != [] {
      IncludeKeepsEmbedded(w, ns[0], consumer, s);
      IncludeAllKeepsEmbedded(w, ns[1..], consumer, Include(w, ns[0], consumer, s));
    }
  }

  lemma {:induction false} ExportAllKeepsEmbedded(w: World, ns: seq<Node>, s: State)
    requires w.Valid() && DependenciesEmbedded(s) && forall n :: n in ns ==> n in w.nodes
    ensures DependenciesEmbedded(ExportAll(w, ns, s))
    decreases |ns|
  {
    if ns != [] {
      var n := ns[0];
      var owner := if w.nodes[n].owner.Some? then w.nodes[n].owner.value else w.root;
      var touched := if w.IsForeign(n) then Declare(Touch(w, s, w.root, owner), owner, n) else s;
      IncludeKeepsEmbedded(w, n, owner, touched);
      IncludeKeepsEmbedded(w, n, owner, Owned(w, n, s));
      IncludeKeepsEmbedded(w, n, w.root, Owned(w, n, s));
      ExportAllKeepsEmbedded(w, ns[1..], Export(w, n, s));
    }
  }

  /** The dependency graph that a flattening hands to the module order has an entry for
      every dependency, which is what the order relies on. */
  lemma GraphIsClosed(w: World, own: seq<Node>, exported: seq<Node>, g: ModuleOrder.Graph)
    requires w.Valid() && forall n :: n in own || n in exported ==> n in w.nodes
    requires var t := Flatten(w, own, exported);
      g.Keys == t.modules.Keys && forall m, d :: m in g ==> (d in g[m] <==> d in t.modules[m].dependencies)
    ensures ModuleOrder.Closed(g)
  {
    IncludeAllKeepsEmbedded(w, own, w.root, START);
    ExportAllKeepsEmbedded(w, exported, IncludeAll(w, own, w.root, START));
  }
}
