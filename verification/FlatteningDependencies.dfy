/** Which modules a flattening embeds, and which dependencies it records between them: said
    over paths of references, in both directions. */
module FlatteningDependencies {
  import opened Common
  import opened DqmBytes
  import opened Flattening

  // ----- every dependency has a reason

  /** A foreign type of a module stands here. */
  ghost predicate IsTypeOf(w: World, n: Node, d: Name) {
    n in w.nodes && w.nodes[n].kind != Value && w.nodes[n].owner == Some(d) && d != w.root
  }

  /** Where references of module `m` start: a named type that it owns, or a value that it owns
      and that is re-exported. */
  ghost predicate StartsFrom(w: World, exported: seq<Node>, n: Node, m: Name) {
    && n in w.nodes && w.nodes[n].owner == Some(m)
    && (w.nodes[n].kind == NamedType || (w.nodes[n].kind == Value && n in exported))
  }

  /** The nodes between the ends are no named types with an owner, which would be the consumer
      themselves. */
  ghost predicate PassesOn(w: World, n: Node) {
    n in w.nodes && (w.nodes[n].kind == NamedType ==> w.nodes[n].owner == None)
  }

  ghost predicate IsStep(w: World, a: Node, b: Node) {
    a in w.nodes && b in w.nodes[a].children
  }

  /** References lead from a start of `m` to `n`, through nodes that pass the consumer on. */
  ghost predicate IsReference(w: World, exported: seq<Node>, m: Name, path: seq<Node>, n: Node) {
    && |path| > 0 && StartsFrom(w, exported, path[0], m) && path[|path| - 1] == n
    && (forall k {:trigger path[k]} :: 0 <= k < |path| - 1 ==> IsStep(w, path[k], path[k + 1]))
    && forall k {:trigger path[k]} :: 0 < k < |path| - 1 ==> PassesOn(w, path[k])
  }

  ghost predicate Refers(w: World, exported: seq<Node>, m: Name, n: Node) {
    exists path: seq<Node> :: |path| > 1 && IsReference(w, exported, m, path, n)
  }

  /** Each recorded dependency comes from such a reference to a type of that module. */
  ghost predicate Justified(w: World, exported: seq<Node>, s: State) {
    && w.root !in s.modules
    && forall m, d :: m in s.modules && d in s.modules[m].dependencies ==>
         m != d && exists n :: IsTypeOf(w, n, d) && Refers(w, exported, m, n)
  }

  /** `n` is visited on behalf of `consumer`: nobody but the root, or a module that refers to it. */
  ghost predicate OnBehalf(w: World, exported: seq<Node>, consumer: Name, n: Node) {
    consumer == w.root || Refers(w, exported, consumer, n)
  }

  lemma TouchIsJustified(w: World, exported: seq<Node>, s: State, consumer: Name, n: Node)
    requires Justified(w, exported, s) && OnBehalf(w, exported, consumer, n)
    requires n in w.nodes && w.nodes[n].kind != Value && w.IsForeign(n)
    ensures Justified(w, exported, Touch(w, s, consumer, w.nodes[n].owner.value))
  {
    assert IsTypeOf(w, n, w.nodes[n].owner.value);
  }

  lemma ReferenceExtends(w: World, exported: seq<Node>, m: Name, path: seq<Node>, n: Node, c: Node)
    requires IsReference(w, exported, m, path, n) && n in w.nodes && c in w.nodes[n].children
    requires |path| > 1 ==> PassesOn(w, n)
    ensures Refers(w, exported, m, c)
  {
    var longer := path + [c];
    forall k {:trigger longer[k]} | 0 <= k < |longer| - 1
      ensures IsStep(w, longer[k], longer[k + 1]) && (0 < k ==> PassesOn(w, longer[k]))
    {
      assert longer[k] == path[k];
      if k < |path| - 1 {
        assert longer[k + 1] == path[k + 1];
      }
    }
    assert longer[0] == path[0] && longer[|longer| - 1] == c;
    assert IsReference(w, exported, m, longer, c);
  }

  lemma ReferenceStarts(w: World, exported: seq<Node>, m: Name, n: Node, c: Node)
    requires StartsFrom(w, exported, n, m) && c in w.nodes[n].children
    ensures Refers(w, exported, m, c)
  {
    assert [n][0] == n && [n][|[n]| - 1] == n;
    ReferenceExtends(w, exported, m, [n], n, c);
  }

  lemma ChildOnBehalf(w: World, exported: seq<Node>, consumer: Name, n: Node, c: Node)
    requires n in w.nodes && c in w.nodes[n].children && Standing(w, exported, consumer, n)
    ensures OnBehalf(w, exported, ConsumerBelow(w, n, consumer), c)
  {
    if w.nodes[n].kind == NamedType && w.nodes[n].owner.Some? {
      ReferenceStarts(w, exported, w.nodes[n].owner.value, n, c);
    } else if consumer != w.root {
      var path: seq<Node> :| IsReference(w, exported, consumer, path, n);
      ReferenceExtends(w, exported, consumer, path, n, c);
    }
  }

  /** The start of a reference itself, or a node that one leads to. */
  ghost predicate Standing(w: World, exported: seq<Node>, consumer: Name, n: Node) {
    consumer == w.root || exists path: seq<Node> :: IsReference(w, exported, consumer, path, n)
  }

  lemma {:induction false} IncludeIsJustified(w: World, exported: seq<Node>, n: Node, consumer: Name, s: State)
    requires w.Valid() && n in w.nodes && Justified(w, exported, s) && Standing(w, exported, consumer, n)
    requires w.nodes[n].kind != Value ==> OnBehalf(w, exported, consumer, n)
    ensures Justified(w, exported, Include(w, n, consumer, s))
    decreases Unvisited(w, s), 0
  {
    var met := Meet(w, n, consumer, s);
    if w.nodes[n].kind != Value && w.IsForeign(n) {
      TouchIsJustified(w, exported, s, consumer, n);
    }
    if n !in s.visited {
      var open := met.(visited := met.visited + {n});
      assert n in Unvisited(w, s) && n !in Unvisited(w, open);
      if !(w.Embeds(n) && !w.nodes[n].declared) {
        var embedded := if w.Embeds(n) then Declare(open, w.nodes[n].owner.value, n) else open;
        assert Justified(w, exported, embedded);
        forall c | c in w.nodes[n].children ensures OnBehalf(w, exported, ConsumerBelow(w, n, consumer), c) {
          ChildOnBehalf(w, exported, consumer, n, c);
        }
        IncludeAllIsJustified(w, exported, w.nodes[n].children, ConsumerBelow(w, n, consumer), embedded);
      }
    }
  }

  lemma {:induction false} IncludeAllIsJustified(w: World, exported: seq<Node>, ns: seq<Node>, consumer: Name, s: State)
    requires w.Valid() && Justified(w, exported, s)
    requires forall n :: n in ns ==> n in w.nodes && OnBehalf(w, exported, consumer, n)
    ensures Justified(w, exported, IncludeAll(w, ns, consumer, s))
    decreases Unvisited(w, s), |ns|
  {
    if ns != [] {
      assert ns[0] in ns && forall n :: n in ns[1..] ==> n in ns;
      IncludeIsJustified(w, exported, ns[0], consumer, s);
      IncludeAllIsJustified(w, exported, ns[1..], consumer, Include(w, ns[0], consumer, s));
    }
  }

  lemma ExportIsJustified(w: World, exported: seq<Node>, n: Node, s: State)
    requires w.Valid() && n in w.nodes && n in exported && Justified(w, exported, s)
    ensures Justified(w, exported, Export(w, n, s))
  {
    var t := Owned(w, n, s);
    if w.nodes[n].kind != Value || w.nodes[n].owner.None? {
      IncludeIsJustified(w, exported, n, w.root, t);
    } else {
      var owner := w.nodes[n].owner.value;
      assert IsReference(w, exported, owner, [n], n);
      if w.IsForeign(n) && w.nodes[n].declared {
        IncludeIsJustified(w, exported, n, owner, Declare(Touch(w, t, w.root, owner), owner, n));
      } else if !w.IsForeign(n) {
        IncludeIsJustified(w, exported, n, owner, t);
      }
    }
  }

  lemma {:induction false} ExportAllIsJustified(w: World, exported: seq<Node>, ns: seq<Node>, s: State)
    requires w.Valid() && Justified(w, exported, s) && forall n :: n in ns ==> n in w.nodes && n in exported
    ensures Justified(w, exported, ExportAll(w, ns, s))
    decreases |ns|
  {
    if ns != [] {
      assert ns[0] in ns && forall n :: n in ns[1..] ==> n in ns;
      ExportIsJustified(w, exported, ns[0], s);
      ExportAllIsJustified(w, exported, ns[1..], Export(w, ns[0], s));
    }
  }

  /** A module that is recorded to depend on another one refers to a type of it, from a named
      type or a re-exported value of its own; and the root never takes part. */
  lemma DependenciesAreReferences(w: World, own: seq<Node>, exported: seq<Node>)
    requires w.Valid() && forall n :: n in own || n in exported ==> n in w.nodes
    ensures var t := Flatten(w, own, exported);
      && w.root !in t.modules
      && forall m, d :: m in t.modules && d in t.modules[m].dependencies ==>
           m != d && exists n :: IsTypeOf(w, n, d) && Refers(w, exported, m, n)
  {
    IncludeAllIsJustified(w, exported, own, w.root, START);
    ExportAllIsJustified(w, exported, exported, IncludeAll(w, own, w.root, START));
  }

  // ----- every direct reference is recorded

  /** `m` depends on `d`. */
  ghost predicate Depends(s: State, m: Name, d: Name) {
    m in s.modules && d in s.modules[m].dependencies
  }

  ghost predicate DependenciesGrow(s: State, t: State) {
    && (forall m :: m in s.modules ==> m in t.modules)
    && forall m, d :: Depends(s, m, d) ==> Depends(t, m, d)
  }

  /** The node is a named type of an embedded module, or one that another module refers to. */
  ghost predicate NeedsType(w: World, n: Node, m: Name, c: Node, d: Name) {
    && n in w.nodes && w.nodes[n].kind == NamedType && w.nodes[n].owner == Some(m) && m != w.root && m != []
    && c in w.nodes[n].children && IsTypeOf(w, c, d) && d != m
  }

  /** What has been visited since has its direct references recorded. */
  ghost predicate Recorded(w: World, s: State, t: State) {
    && DependenciesGrow(s, t)
    && forall n, m, c, d :: n in t.visited && n !in s.visited && NeedsType(w, n, m, c, d) ==> Depends(t, m, d)
  }

  lemma RecordedTwice(w: World, s: State, t: State, u: State)
    requires Recorded(w, s, t) && Recorded(w, t, u)
    ensures Recorded(w, s, u)
  {
    forall n, m, c, d | n in u.visited && n !in s.visited && NeedsType(w, n, m, c, d) ensures Depends(u, m, d) {
      if n in t.visited {
        assert Depends(t, m, d);
      }
    }
  }

  lemma TouchRecords(w: World, s: State, consumer: Name, owner: Name)
    ensures DependenciesGrow(s, Touch(w, s, consumer, owner)) && owner in Touch(w, s, consumer, owner).modules
    ensures consumer in s.modules && consumer != [] && consumer != owner && owner != w.root ==>
      Depends(Touch(w, s, consumer, owner), consumer, owner)
  {
  }

  /** An embedded consumer has been recorded to depend on the owners of these types. */
  ghost predicate DependsOnTypesIn(w: World, s: State, t: State, consumer: Name, ns: seq<Node>) {
    consumer in s.modules && consumer != [] ==>
      forall n, d :: n in ns && IsTypeOf(w, n, d) && consumer != d ==> Depends(t, consumer, d)
  }

  lemma {:induction false} IncludeRecords(w: World, n: Node, consumer: Name, s: State)
    requires w.Valid() && n in w.nodes
    ensures var t := Include(w, n, consumer, s);
      !t.failed ==> Recorded(w, s, t)
    ensures !Include(w, n, consumer, s).failed ==> DependsOnTypesIn(w, s, Include(w, n, consumer, s), consumer, [n])
    decreases Unvisited(w, s), 0
  {
    var met, t := Meet(w, n, consumer, s), Include(w, n, consumer, s);
    if w.nodes[n].kind != Value && w.IsForeign(n) {
      TouchRecords(w, s, consumer, w.nodes[n].owner.value);
    }
    if n !in s.visited {
      var open := met.(visited := met.visited + {n});
      assert n in Unvisited(w, s) && n !in Unvisited(w, open);
      if !(w.Embeds(n) && !w.nodes[n].declared) && !t.failed {
        var embedded := if w.Embeds(n) then Declare(open, w.nodes[n].owner.value, n) else open;
        IncludeAllRecords(w, w.nodes[n].children, ConsumerBelow(w, n, consumer), embedded);
        OpenedRecords(w, n, consumer, s, embedded, t);
      }
    }
  }

  /** The node that has just been opened, and what its children record. */
  lemma OpenedRecords(w: World, n: Node, consumer: Name, s: State, embedded: State, t: State)
    requires w.Valid() && n in w.nodes && n !in s.visited && embedded.visited == s.visited + {n}
    requires DependenciesGrow(s, embedded) && Recorded(w, embedded, t)
    requires w.nodes[n].kind != Value && w.IsForeign(n) ==> w.nodes[n].owner.value in embedded.modules
    requires DependsOnTypesIn(w, embedded, t, ConsumerBelow(w, n, consumer), w.nodes[n].children)
    ensures Recorded(w, s, t)
  {
    forall x, m, c, d | x in t.visited && x !in s.visited && NeedsType(w, x, m, c, d) ensures Depends(t, m, d) {
      if x == n {
        assert ConsumerBelow(w, n, consumer) == m;
      } else {
        assert x !in embedded.visited;
      }
    }
  }

  lemma {:induction false} IncludeAllRecords(w: World, ns: seq<Node>, consumer: Name, s: State)
    requires w.Valid() && forall n :: n in ns ==> n in w.nodes
    ensures !IncludeAll(w, ns, consumer, s).failed ==> Recorded(w, s, IncludeAll(w, ns, consumer, s))
    ensures !IncludeAll(w, ns, consumer, s).failed ==>
      DependsOnTypesIn(w, s, IncludeAll(w, ns, consumer, s), consumer, ns)
    decreases Unvisited(w, s), |ns|
  {
    if ns != [] {
      var t := Include(w, ns[0], consumer, s);
      IncludeAllGrows(w, ns[1..], consumer, t);
      if !IncludeAll(w, ns, consumer, s).failed {
        assert forall n :: n in ns <==> n == ns[0] || n in ns[1..];
        IncludeRecords(w, ns[0], consumer, s);
        IncludeAllRecords(w, ns[1..], consumer, t);
        RecordedTwice(w, s, t, IncludeAll(w, ns, consumer, s));
      }
    }
  }

  lemma {:induction false} ExportAllRecords(w: World, ns: seq<Node>, s: State)
    requires w.Valid() && forall n :: n in ns ==> n in w.nodes
    ensures !ExportAll(w, ns, s).failed ==> Recorded(w, s, ExportAll(w, ns, s))
    decreases |ns|
  {
    if ns != [] {
      var t := Export(w, ns[0], s);
      ExportAllGrows(w, ns[1..], t);
      if !ExportAll(w, ns, s).failed {
        ExportRecords(w, ns[0], s);
        ExportAllRecords(w, ns[1..], t);
        RecordedTwice(w, s, t, ExportAll(w, ns, s));
      }
    }
  }

  lemma ExportRecords(w: World, n: Node, s: State)
    requires w.Valid() && n in w.nodes && !Export(w, n, s).failed
    ensures Recorded(w, s, Export(w, n, s))
  {
    ExportGrows(w, n, s);
    if w.nodes[n].kind != Value {
      IncludeRecords(w, n, w.root, s);
    } else {
      var owner := w.nodes[n].owner.value;
      var started := if w.IsForeign(n) then Declare(Touch(w, s, w.root, owner), owner, n) else s;
      TouchRecords(w, s, w.root, owner);
      assert DependenciesGrow(s, started) && started.visited == s.visited;
      IncludeRecords(w, n, owner, started);
    }
  }

  /** Without error: when a visited named type of one module refers to a type of another, the
      first module is recorded to depend on the second, in this direction. */
  lemma DirectReferencesAreRecorded(w: World, own: seq<Node>, exported: seq<Node>, n: Node, m: Name, c: Node, d: Name)
    requires w.Valid() && forall x :: x in own || x in exported ==> x in w.nodes
    requires !Flatten(w, own, exported).failed && Reached(w, own + exported, n)
    requires n in w.nodes && w.nodes[n].kind == NamedType && w.nodes[n].owner == Some(m) && m != w.root && m != []
    requires c in w.nodes[n].children && c in w.nodes && w.nodes[c].kind != Value
    requires w.nodes[c].owner == Some(d) && d != w.root && d != m
    ensures var t := Flatten(w, own, exported); m in t.modules && d in t.modules[m].dependencies
  {
    var s := IncludeAll(w, own, w.root, START);
    ExportAllGrows(w, exported, s);
    IncludeAllRecords(w, own, w.root, START);
    ExportAllRecords(w, exported, s);
    RecordedTwice(w, START, s, Flatten(w, own, exported));
    FlattenIsExact(w, own, exported);
    assert NeedsType(w, n, m, c, d);
  }

  // ----- which modules are embedded

  /** A module is embedded for a visited type of its own. */
  ghost predicate HasVisitedType(w: World, t: State, m: Name) {
    exists n :: n in t.visited && IsTypeOf(w, n, m)
  }

  /** Of the modules that are new, each has a visited type; each newly visited type has its
      module embedded. */
  ghost predicate Met(w: World, s: State, t: State) {
    && s.visited <= t.visited && (forall m :: m in s.modules ==> m in t.modules)
    && (forall m :: m in t.modules && m !in s.modules ==> HasVisitedType(w, t, m))
    && forall n, m :: n in t.visited && n !in s.visited && IsTypeOf(w, n, m) ==> m in t.modules
  }

  lemma MetTwice(w: World, s: State, t: State, u: State)
    requires Met(w, s, t) && Met(w, t, u)
    ensures Met(w, s, u)
  {
    forall m | m in u.modules && m !in s.modules ensures HasVisitedType(w, u, m) {
      if m in t.modules {
        var n :| n in t.visited && IsTypeOf(w, n, m);
        assert n in u.visited;
      }
    }
  }

  lemma OpenedMeets(w: World, n: Node, consumer: Name, s: State, embedded: State)
    requires n in w.nodes && embedded.visited == s.visited + {n}
    requires embedded.modules.Keys == Meet(w, n, consumer, s).modules.Keys
    ensures Met(w, s, embedded)
  {
    if w.nodes[n].kind != Value && w.IsForeign(n) {
      assert IsTypeOf(w, n, w.nodes[n].owner.value);
    }
  }

  lemma {:induction false} IncludeMeets(w: World, n: Node, consumer: Name, s: State)
    requires w.Valid() && n in w.nodes
    ensures var t := Include(w, n, consumer, s); !t.failed ==> n in t.visited && Met(w, s, t)
    decreases Unvisited(w, s), 0
  {
    var met, t := Meet(w, n, consumer, s), Include(w, n, consumer, s);
    if n in s.visited {
      if w.nodes[n].kind != Value && w.IsForeign(n) {
        assert IsTypeOf(w, n, w.nodes[n].owner.value);
      }
    } else {
      var open := met.(visited := met.visited + {n});
      assert n in Unvisited(w, s) && n !in Unvisited(w, open);
      if !(w.Embeds(n) && !w.nodes[n].declared) && !t.failed {
        var embedded := if w.Embeds(n) then Declare(open, w.nodes[n].owner.value, n) else open;
        IncludeAllMeets(w, w.nodes[n].children, ConsumerBelow(w, n, consumer), embedded);
        OpenedMeets(w, n, consumer, s, embedded);
        MetTwice(w, s, embedded, t);
      }
    }
  }

  lemma {:induction false} IncludeAllMeets(w: World, ns: seq<Node>, consumer: Name, s: State)
    requires w.Valid() && forall n :: n in ns ==> n in w.nodes
    ensures var t := IncludeAll(w, ns, consumer, s); !t.failed ==> Met(w, s, t)
    decreases Unvisited(w, s), |ns|
  {
    if ns != [] {
      var t := Include(w, ns[0], consumer, s);
      IncludeAllGrows(w, ns[1..], consumer, t);
      if !IncludeAll(w, ns, consumer, s).failed {
        IncludeMeets(w, ns[0], consumer, s);
        IncludeAllMeets(w, ns[1..], consumer, t);
        MetTwice(w, s, t, IncludeAll(w, ns, consumer, s));
      }
    }
  }

  /** Without error, exactly these modules are embedded: those of the foreign types that are
      reached, and those of the foreign values that are re-exported. */
  lemma EmbeddedModulesAre(w: World, own: seq<Node>, exported: seq<Node>)
    requires w.Valid() && forall n :: n in own || n in exported ==> n in w.nodes
    requires !Flatten(w, own, exported).failed
    ensures var t := Flatten(w, own, exported);
      forall m :: m in t.modules <==>
        || (exists n :: Reached(w, own + exported, n) && IsTypeOf(w, n, m))
        || (exists n :: n in exported && IsValueOf(w, n, m))
  {
    var s, t := IncludeAll(w, own, w.root, START), Flatten(w, own, exported);
    ExportAllGrows(w, exported, s);
    IncludeAllMeets(w, own, w.root, START);
    ExportAllMeets(w, exported, s);
    FlattenIsExact(w, own, exported);
    forall m | m in t.modules
      ensures
        || (exists n :: Reached(w, own + exported, n) && IsTypeOf(w, n, m))
        || (exists n :: n in exported && IsValueOf(w, n, m))
    {
      if m in s.modules {
        var n :| n in s.visited && IsTypeOf(w, n, m);
        assert n in t.visited;
      }
    }
  }

  ghost predicate IsValueOf(w: World, n: Node, m: Name) {
    n in w.nodes && w.nodes[n].kind == Value && w.nodes[n].owner == Some(m) && m != w.root
  }

  /** The same for the re-exports, which embed the modules of their values as well. */
  ghost predicate MetExports(w: World, ns: seq<Node>, s: State, t: State) {
    && s.visited <= t.visited && (forall m :: m in s.modules ==> m in t.modules)
    && (forall m :: m in t.modules && m !in s.modules ==>
         HasVisitedType(w, t, m) || exists n :: n in ns && IsValueOf(w, n, m))
    && (forall n, m :: n in t.visited && n !in s.visited && IsTypeOf(w, n, m) ==> m in t.modules)
    && forall n, m :: n in ns && IsValueOf(w, n, m) ==> m in t.modules
  }

  lemma ExportMeets(w: World, n: Node, s: State)
    requires w.Valid() && n in w.nodes && !Export(w, n, s).failed
    ensures MetExports(w, [n], s, Export(w, n, s))
  {
    ExportGrows(w, n, s);
    if w.nodes[n].kind != Value {
      IncludeMeets(w, n, w.root, s);
    } else {
      var owner := w.nodes[n].owner.value;
      var started := if w.IsForeign(n) then Declare(Touch(w, s, w.root, owner), owner, n) else s;
      IncludeMeets(w, n, owner, started);
      assert n in [n] && (w.IsForeign(n) ==> IsValueOf(w, n, owner));
      assert forall m :: m in started.modules ==> m in s.modules || (m == owner && w.IsForeign(n));
      assert forall x, m :: x in [n] && IsValueOf(w, x, m) ==> m == owner && w.IsForeign(n);
    }
  }

  lemma MetExportsTwice(w: World, n: Node, ns: seq<Node>, s: State, t: State, u: State)
    requires ns != [] && ns[0] == n && MetExports(w, [n], s, t) && MetExports(w, ns[1..], t, u)
    ensures MetExports(w, ns, s, u)
  {
    assert forall x :: x in ns <==> x == n || x in ns[1..];
    forall m | m in u.modules && m !in s.modules
      ensures HasVisitedType(w, u, m) || exists x :: x in ns && IsValueOf(w, x, m)
    {
      if m in t.modules && HasVisitedType(w, t, m) {
        var x :| x in t.visited && IsTypeOf(w, x, m);
        assert x in u.visited;
      }
    }
    forall x, m | x in ns && IsValueOf(w, x, m) ensures m in u.modules {
      if x == n {
        assert x in [n];
      }
    }
  }

  lemma {:induction false} ExportAllMeets(w: World, ns: seq<Node>, s: State)
    requires w.Valid() && (forall n :: n in ns ==> n in w.nodes) && !ExportAll(w, ns, s).failed
    ensures MetExports(w, ns, s, ExportAll(w, ns, s))
    decreases |ns|
  {
    if ns != [] {
      var t := Export(w, ns[0], s);
      ExportAllGrows(w, ns[1..], t);
      ExportMeets(w, ns[0], s);
      ExportAllMeets(w, ns[1..], t);
      MetExportsTwice(w, ns[0], ns, s, t, ExportAll(w, ns, s));
    }
  }
}
