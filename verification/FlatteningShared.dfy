/** When the recorded module dependencies are complete. The walk looks below each node once,
    on behalf of the module that comes first. */
module FlatteningShared {
  import opened Common
  import opened DqmBytes
  import opened Flattening
  import opened FlatteningDependencies

  /** The walk enters `n` from its lists on behalf of `m`: the root, or for a re-exported value
      its owner. */
  ghost predicate Enters(w: World, own: seq<Node>, exported: seq<Node>, m: Name, n: Node) {
    && n in w.nodes
    && (if m == w.root && (n in own || (n in exported && w.nodes[n].kind != Value)) then true
        else n in exported && w.nodes[n].kind == Value && w.nodes[n].owner == Some(m))
  }

  /** On whose behalf the children of a node are looked at: that of its owner, for a named type
      that has one. */
  ghost function Below(w: World, m: Name, n: Node): Name
    requires n in w.nodes
  {
    match w.nodes[n].owner
    case Some(owner) => if w.nodes[n].kind == NamedType then owner else m
    case None => m
  }

  /** The walk can come to `n` on behalf of `m`. */
  ghost predicate ComesTo(w: World, own: seq<Node>, exported: seq<Node>, m: Name, n: Node) {
    exists path: seq<(Name, Node)> :: IsWalk(w, own, exported, path) && path[|path| - 1] == (m, n)
  }

  ghost predicate IsWalk(w: World, own: seq<Node>, exported: seq<Node>, path: seq<(Name, Node)>) {
    && path != [] && Enters(w, own, exported, path[0].0, path[0].1)
    && forall k {:trigger path[k]} :: 0 <= k < |path| - 1 ==> IsWalkStep(w, path[k], path[k + 1])
  }

  ghost predicate IsWalkStep(w: World, a: (Name, Node), b: (Name, Node)) {
    a.1 in w.nodes && b.1 in w.nodes[a.1].children && b.0 == Below(w, a.0, a.1)
  }

  /** No node that passes the consumer on can be come to on behalf of two modules. */
  ghost predicate Unshared(w: World, own: seq<Node>, exported: seq<Node>) {
    forall n, a, b :: PassesOn(w, n) && ComesTo(w, own, exported, a, n) && ComesTo(w, own, exported, b, n) ==> a == b
  }

  // ----- what a visit records

  lemma ComesToChild(w: World, own: seq<Node>, exported: seq<Node>, m: Name, n: Node, c: Node)
    requires n in w.nodes && c in w.nodes[n].children && ComesTo(w, own, exported, m, n)
    ensures ComesTo(w, own, exported, ConsumerBelow(w, n, m), c)
  {
    var path: seq<(Name, Node)> :| IsWalk(w, own, exported, path) && path[|path| - 1] == (m, n);
    var longer := path + [(Below(w, m, n), c)];
    forall k {:trigger longer[k]} | 0 <= k < |longer| - 1 ensures IsWalkStep(w, longer[k], longer[k + 1]) {
      assert longer[k] == path[k];
      if k < |path| - 1 {
        assert longer[k + 1] == path[k + 1];
      }
    }
    assert longer[0] == path[0];
    assert IsWalk(w, own, exported, longer);
  }

  lemma ComesToStart(w: World, own: seq<Node>, exported: seq<Node>, m: Name, n: Node)
    requires Enters(w, own, exported, m, n)
    ensures ComesTo(w, own, exported, m, n)
  {
    var path := [(m, n)];
    assert IsWalk(w, own, exported, path) && path[|path| - 1] == (m, n);
  }

  /** `m` needs a type of `d`: the walk can come to a node, looks at its children on behalf of
      `m`, and finds a type of `d` there. */
  ghost predicate Needs(w: World, own: seq<Node>, exported: seq<Node>, m: Name, d: Name) {
    exists a: Name, n: Node, c: Node :: NeedsAt(w, own, exported, m, d, a, n, c)
  }

  ghost predicate NeedsAt(w: World, own: seq<Node>, exported: seq<Node>, m: Name, d: Name, a: Name, n: Node, c: Node) {
    && n in w.nodes && ComesTo(w, own, exported, a, n) && Below(w, a, n) == m
    && c in w.nodes[n].children && IsTypeOf(w, c, d) && d != m && m != w.root && m != []
  }

  /** Recording the owner of `n` for `m` is in order. */
  ghost predicate Due(w: World, own: seq<Node>, exported: seq<Node>, m: Name, n: Node) {
    forall d :: IsTypeOf(w, n, d) && d != m && m != w.root && m != [] ==> Needs(w, own, exported, m, d)
  }

  lemma ChildIsDue(w: World, own: seq<Node>, exported: seq<Node>, m: Name, n: Node, c: Node)
    requires n in w.nodes && c in w.nodes[n].children && ComesTo(w, own, exported, m, n)
    ensures Due(w, own, exported, ConsumerBelow(w, n, m), c)
  {
    var below := ConsumerBelow(w, n, m);
    forall d | IsTypeOf(w, c, d) && d != below && below != w.root && below != []
      ensures Needs(w, own, exported, below, d)
    {
      assert NeedsAt(w, own, exported, below, d, m, n, c);
    }
  }

  lemma ComesToChildren(w: World, own: seq<Node>, exported: seq<Node>, m: Name, n: Node)
    requires n in w.nodes && ComesTo(w, own, exported, m, n)
    ensures forall c :: c in w.nodes[n].children ==>
      ComesTo(w, own, exported, ConsumerBelow(w, n, m), c) && Due(w, own, exported, ConsumerBelow(w, n, m), c)
  {
    forall c | c in w.nodes[n].children
      ensures ComesTo(w, own, exported, ConsumerBelow(w, n, m), c) && Due(w, own, exported, ConsumerBelow(w, n, m), c)
    {
      ComesToChild(w, own, exported, m, n, c);
      ChildIsDue(w, own, exported, m, n, c);
    }
  }

  /** All types below `n` are recorded for `m`. */
  ghost predicate RecordedFor(w: World, t: State, m: Name, n: Node)
    requires n in w.nodes
  {
    m != w.root && m != [] ==>
      forall c, d :: c in w.nodes[n].children && IsTypeOf(w, c, d) && d != m ==> Depends(t, m, d)
  }

  /** Each newly visited node has been looked at on behalf of someone. */
  ghost predicate LookedAt(w: World, own: seq<Node>, exported: seq<Node>, s: State, t: State) {
    && DependenciesGrow(s, t)
    && forall n :: n in t.visited && n !in s.visited && n in w.nodes ==> HasReason(w, own, exported, t, n)
  }

  ghost predicate HasReason(w: World, own: seq<Node>, exported: seq<Node>, t: State, n: Node)
    requires n in w.nodes
  {
    exists m :: ComesTo(w, own, exported, m, n) && RecordedFor(w, t, Below(w, m, n), n)
  }

  lemma ReasonStays(w: World, own: seq<Node>, exported: seq<Node>, t: State, u: State, n: Node)
    requires n in w.nodes && HasReason(w, own, exported, t, n) && DependenciesGrow(t, u)
    ensures HasReason(w, own, exported, u, n)
  {
    var m :| ComesTo(w, own, exported, m, n) && RecordedFor(w, t, Below(w, m, n), n);
    assert RecordedFor(w, u, Below(w, m, n), n);
  }

  lemma LookedAtTwice(w: World, own: seq<Node>, exported: seq<Node>, s: State, t: State, u: State)
    requires LookedAt(w, own, exported, s, t) && LookedAt(w, own, exported, t, u)
    ensures LookedAt(w, own, exported, s, u)
  {
    forall n | n in u.visited && n !in s.visited && n in w.nodes ensures HasReason(w, own, exported, u, n) {
      if n in t.visited {
        ReasonStays(w, own, exported, t, u, n);
      }
    }
  }

  /** The module on whose behalf a node is visited is the root or is embedded. */
  ghost predicate Known(w: World, s: State, m: Name) {
    m == w.root || m in s.modules
  }

  /** The state in which the children of a node are looked at. */
  function Opened(w: World, n: Node, m: Name, s: State): State
    requires n in w.nodes
  {
    var open := Meet(w, n, m, s).(visited := s.visited + {n});
    if w.Embeds(n) then Declare(open, w.nodes[n].owner.value, n) else open
  }

  lemma OpenedGrows(w: World, n: Node, m: Name, s: State)
    requires n in w.nodes && Known(w, s, m)
    ensures DependenciesGrow(s, Opened(w, n, m, s)) && Known(w, Opened(w, n, m, s), ConsumerBelow(w, n, m))
    ensures DependenciesGrow(s, Meet(w, n, m, s))
  {
    if w.nodes[n].kind != Value && w.IsForeign(n) {
      TouchRecords(w, s, m, w.nodes[n].owner.value);
    }
  }

  /** A visit: nothing but the meeting for a node seen before, or else a failure or its children. */
  lemma IncludeIs(w: World, n: Node, m: Name, s: State)
    requires w.Valid() && n in w.nodes
    ensures n in s.visited ==> Include(w, n, m, s) == Meet(w, n, m, s)
    ensures n !in s.visited && w.Embeds(n) && !w.nodes[n].declared ==>
      Include(w, n, m, s) == Meet(w, n, m, s).(visited := s.visited + {n}, failed := true)
    ensures n !in s.visited && !(w.Embeds(n) && !w.nodes[n].declared) ==>
      Include(w, n, m, s) == IncludeAll(w, w.nodes[n].children, ConsumerBelow(w, n, m), Opened(w, n, m, s))
    ensures n !in s.visited ==> Unvisited(w, Opened(w, n, m, s)) < Unvisited(w, s)
  {
    assert Meet(w, n, m, s).visited == s.visited;
    if n !in s.visited {
      assert n in Unvisited(w, s) && n !in Unvisited(w, Opened(w, n, m, s));
    }
  }

  lemma {:induction false} IncludeLooks(w: World, own: seq<Node>, exported: seq<Node>, n: Node, m: Name, s: State)
    requires w.Valid() && n in w.nodes && ComesTo(w, own, exported, m, n) && Known(w, s, m)
    ensures var t := Include(w, n, m, s); !t.failed ==> LookedAt(w, own, exported, s, t)
    decreases Unvisited(w, s), 0
  {
    IncludeIs(w, n, m, s);
    OpenedGrows(w, n, m, s);
    if n !in s.visited && !(w.Embeds(n) && !w.nodes[n].declared) && !Include(w, n, m, s).failed {
      var inside, below := Opened(w, n, m, s), ConsumerBelow(w, n, m);
      ComesToChildren(w, own, exported, m, n);
      IncludeAllLooks(w, own, exported, w.nodes[n].children, below, inside);
      IncludeAllRecords(w, w.nodes[n].children, below, inside);
      OpenedLooks(w, own, exported, n, m, s, inside, Include(w, n, m, s));
    }
  }

  lemma OpenedLooks(w: World, own: seq<Node>, exported: seq<Node>, n: Node, m: Name, s: State, embedded: State,
                    t: State)
    requires w.Valid() && n in w.nodes && embedded.visited == s.visited + {n} && ComesTo(w, own, exported, m, n)
    requires DependenciesGrow(s, embedded) && LookedAt(w, own, exported, embedded, t)
    requires Known(w, embedded, Below(w, m, n))
    requires DependsOnTypesIn(w, embedded, t, Below(w, m, n), w.nodes[n].children)
    ensures LookedAt(w, own, exported, s, t)
  {
    assert RecordedFor(w, t, Below(w, m, n), n);
    assert HasReason(w, own, exported, t, n);
  }

  lemma {:induction false} IncludeAllLooks(w: World, own: seq<Node>, exported: seq<Node>, ns: seq<Node>, m: Name,
                                           s: State)
    requires w.Valid() && (forall n :: n in ns ==> n in w.nodes && ComesTo(w, own, exported, m, n)) && Known(w, s, m)
    ensures var t := IncludeAll(w, ns, m, s); !t.failed ==> LookedAt(w, own, exported, s, t)
    decreases Unvisited(w, s), |ns|
  {
    if ns != [] {
      var t := Include(w, ns[0], m, s);
      IncludeAllGrows(w, ns[1..], m, t);
      if !IncludeAll(w, ns, m, s).failed {
        assert ns[0] in ns && forall n :: n in ns[1..] ==> n in ns;
        IncludeLooks(w, own, exported, ns[0], m, s);
        IncludeAllLooks(w, own, exported, ns[1..], m, t);
        LookedAtTwice(w, own, exported, s, t, IncludeAll(w, ns, m, s));
      }
    }
  }

  lemma ExportLooks(w: World, own: seq<Node>, exported: seq<Node>, n: Node, s: State)
    requires w.Valid() && n in w.nodes && n in exported && !Export(w, n, s).failed
    ensures LookedAt(w, own, exported, s, Export(w, n, s))
  {
    ExportGrows(w, n, s);
    if w.nodes[n].kind != Value {
      ComesToStart(w, own, exported, w.root, n);
      IncludeLooks(w, own, exported, n, w.root, s);
    } else {
      var owner := w.nodes[n].owner.value;
      var started := if w.IsForeign(n) then Declare(Touch(w, s, w.root, owner), owner, n) else s;
      ComesToStart(w, own, exported, owner, n);
      TouchRecords(w, s, w.root, owner);
      IncludeLooks(w, own, exported, n, owner, started);
    }
  }

  lemma {:induction false} ExportAllLooks(w: World, own: seq<Node>, exported: seq<Node>, ns: seq<Node>, s: State)
    requires w.Valid() && (forall n :: n in ns ==> n in w.nodes && n in exported) && !ExportAll(w, ns, s).failed
    ensures LookedAt(w, own, exported, s, ExportAll(w, ns, s))
    decreases |ns|
  {
    if ns != [] {
      var t := Export(w, ns[0], s);
      assert ns[0] in ns && forall n :: n in ns[1..] ==> n in ns;
      ExportAllGrows(w, ns[1..], t);
      ExportLooks(w, own, exported, ns[0], s);
      ExportAllLooks(w, own, exported, ns[1..], t);
      LookedAtTwice(w, own, exported, s, t, ExportAll(w, ns, s));
    }
  }

  // ----- completeness

  ghost predicate OnlyNeeds(w: World, own: seq<Node>, exported: seq<Node>, s: State) {
    w.root !in s.modules && forall m, d :: Depends(s, m, d) ==> Needs(w, own, exported, m, d)
  }

  lemma OpenedOnlyNeeds(w: World, own: seq<Node>, exported: seq<Node>, n: Node, m: Name, s: State)
    requires n in w.nodes && OnlyNeeds(w, own, exported, s) && Due(w, own, exported, m, n)
    ensures OnlyNeeds(w, own, exported, Meet(w, n, m, s)) && OnlyNeeds(w, own, exported, Opened(w, n, m, s))
  {
    assert w.nodes[n].kind != Value && w.IsForeign(n) ==> IsTypeOf(w, n, w.nodes[n].owner.value);
    assert forall x, d :: Depends(Opened(w, n, m, s), x, d) <==> Depends(Meet(w, n, m, s), x, d);
  }

  lemma {:induction false} IncludeOnlyNeeds(w: World, own: seq<Node>, exported: seq<Node>, n: Node, m: Name, s: State)
    requires w.Valid() && n in w.nodes && ComesTo(w, own, exported, m, n) && OnlyNeeds(w, own, exported, s)
    requires Due(w, own, exported, m, n)
    ensures OnlyNeeds(w, own, exported, Include(w, n, m, s))
    decreases Unvisited(w, s), 0
  {
    IncludeIs(w, n, m, s);
    OpenedOnlyNeeds(w, own, exported, n, m, s);
    if n !in s.visited && !(w.Embeds(n) && !w.nodes[n].declared) {
      ComesToChildren(w, own, exported, m, n);
      IncludeAllOnlyNeeds(w, own, exported, w.nodes[n].children, ConsumerBelow(w, n, m), Opened(w, n, m, s));
    }
  }

  lemma {:induction false} IncludeAllOnlyNeeds(w: World, own: seq<Node>, exported: seq<Node>, ns: seq<Node>, m: Name,
                                               s: State)
    requires w.Valid() && OnlyNeeds(w, own, exported, s)
    requires forall n :: n in ns ==> n in w.nodes && ComesTo(w, own, exported, m, n) && Due(w, own, exported, m, n)
    ensures OnlyNeeds(w, own, exported, IncludeAll(w, ns, m, s))
    decreases Unvisited(w, s), |ns|
  {
    if ns != [] {
      assert ns[0] in ns && forall n :: n in ns[1..] ==> n in ns;
      IncludeOnlyNeeds(w, own, exported, ns[0], m, s);
      IncludeAllOnlyNeeds(w, own, exported, ns[1..], m, Include(w, ns[0], m, s));
    }
  }

  lemma ExportOnlyNeeds(w: World, own: seq<Node>, exported: seq<Node>, n: Node, s: State)
    requires w.Valid() && n in w.nodes && n in exported && !Export(w, n, s).failed && OnlyNeeds(w, own, exported, s)
    ensures OnlyNeeds(w, own, exported, Export(w, n, s))
  {
    ExportGrows(w, n, s);
    if w.nodes[n].kind != Value {
      ComesToStart(w, own, exported, w.root, n);
      IncludeOnlyNeeds(w, own, exported, n, w.root, s);
    } else {
      var owner := w.nodes[n].owner.value;
      var started := if w.IsForeign(n) then Declare(Touch(w, s, w.root, owner), owner, n) else s;
      ComesToStart(w, own, exported, owner, n);
      assert OnlyNeeds(w, own, exported, started);
      IncludeOnlyNeeds(w, own, exported, n, owner, started);
    }
  }

  lemma {:induction false} ExportAllOnlyNeeds(w: World, own: seq<Node>, exported: seq<Node>, ns: seq<Node>, s: State)
    requires w.Valid() && (forall n :: n in ns ==> n in w.nodes && n in exported) && !ExportAll(w, ns, s).failed
    requires OnlyNeeds(w, own, exported, s)
    ensures OnlyNeeds(w, own, exported, ExportAll(w, ns, s))
    decreases |ns|
  {
    if ns != [] {
      var t := Export(w, ns[0], s);
      assert ns[0] in ns && forall n :: n in ns[1..] ==> n in ns;
      ExportAllGrows(w, ns[1..], t);
      ExportOnlyNeeds(w, own, exported, ns[0], s);
      ExportAllOnlyNeeds(w, own, exported, ns[1..], t);
    }
  }

  lemma FlattenLooks(w: World, own: seq<Node>, exported: seq<Node>)
    requires w.Valid() && (forall n :: n in own || n in exported ==> n in w.nodes)
    requires !Flatten(w, own, exported).failed
    ensures LookedAt(w, own, exported, START, Flatten(w, own, exported))
    ensures OnlyNeeds(w, own, exported, Flatten(w, own, exported))
  {
    var s := IncludeAll(w, own, w.root, START);
    ExportAllGrows(w, exported, s);
    forall n | n in own ensures ComesTo(w, own, exported, w.root, n) {
      ComesToStart(w, own, exported, w.root, n);
    }
    IncludeAllLooks(w, own, exported, own, w.root, START);
    ExportAllLooks(w, own, exported, exported, s);
    LookedAtTwice(w, own, exported, START, s, Flatten(w, own, exported));
    IncludeAllOnlyNeeds(w, own, exported, own, w.root, START);
    ExportAllOnlyNeeds(w, own, exported, exported, s);
  }

  lemma {:induction false} ComesToReached(w: World, own: seq<Node>, exported: seq<Node>, path: seq<(Name, Node)>,
                                          k: nat)
    returns (chain: seq<Node>)
    requires w.Valid() && IsWalk(w, own, exported, path) && k < |path|
    ensures |chain| > 0 && IsChain(w, chain) && chain[0] in own + exported && chain[|chain| - 1] == path[k].1
    decreases k
  {
    if k == 0 {
      chain := [path[0].1];
    } else {
      var shorter := ComesToReached(w, own, exported, path, k - 1);
      assert IsWalkStep(w, path[k - 1], path[k - 1 + 1]);
      chain := shorter + [path[k].1];
    }
  }

  /** Without error: only what is needed is recorded as a dependency; and everything that is
      needed is, if no wrapper is needed on behalf of two modules. */
  lemma DependenciesAreNeeds(w: World, own: seq<Node>, exported: seq<Node>)
    requires w.Valid() && forall n :: n in own || n in exported ==> n in w.nodes
    requires !Flatten(w, own, exported).failed
    ensures var t := Flatten(w, own, exported);
      && (forall m, d :: Depends(t, m, d) ==> Needs(w, own, exported, m, d))
      && (Unshared(w, own, exported) ==> forall m, d :: Needs(w, own, exported, m, d) ==> Depends(t, m, d))
  {
    var t := Flatten(w, own, exported);
    FlattenLooks(w, own, exported);
    if Unshared(w, own, exported) {
      forall m, d | Needs(w, own, exported, m, d) ensures Depends(t, m, d) {
        NeedIsRecorded(w, own, exported, m, d);
      }
    }
  }

  lemma NeedIsRecorded(w: World, own: seq<Node>, exported: seq<Node>, m: Name, d: Name)
    requires w.Valid() && forall n :: n in own || n in exported ==> n in w.nodes
    requires !Flatten(w, own, exported).failed && LookedAt(w, own, exported, START, Flatten(w, own, exported))
    requires Unshared(w, own, exported) && Needs(w, own, exported, m, d)
    ensures Depends(Flatten(w, own, exported), m, d)
  {
    var t := Flatten(w, own, exported);
    var a: Name, n: Node, c: Node :| NeedsAt(w, own, exported, m, d, a, n, c);
    var path: seq<(Name, Node)> :| IsWalk(w, own, exported, path) && path[|path| - 1] == (a, n);
    var chain := ComesToReached(w, own, exported, path, |path| - 1);
    assert Reached(w, own + exported, n);
    FlattenIsExact(w, own, exported);
    assert HasReason(w, own, exported, t, n);
    var b :| ComesTo(w, own, exported, b, n) && RecordedFor(w, t, Below(w, b, n), n);
    assert Below(w, b, n) == m;
  }

  // ----- a wrapper that is needed twice

  /** The root's own declaration needs a pointer to a type of module `b`, and so does a type of
      module `a`. The pointer type is one object, and the root comes first. */
  function SharedWorld(root: Name, a: Name, b: Name): World {
    World(root, map[
      0 := Info(Value, Some(root), true, [2, 1]),
      1 := Info(NamedType, Some(a), true, [2]),
      2 := Info(WrapperType, None, true, [3]),
      3 := Info(NamedType, Some(b), true, [])])
  }

  lemma IncludeOne(w: World, n: Node, m: Name, s: State)
    requires w.Valid() && n in w.nodes
    ensures IncludeAll(w, [n], m, s) == Include(w, n, m, s)
  {
    assert [n][1..] == [];
  }

  /** The pointer is visited for the root, and the type behind it. */
  lemma PointerForRoot(root: Name, a: Name, b: Name)
    requires root != a && root != b && a != b
    ensures var w := SharedWorld(root, a, b);
      w.Valid() && Include(w, 2, root, State({0}, map[], false)) == State({0, 2, 3}, map[b := Embedded({3}, {})], false)
  {
    var w, s := SharedWorld(root, a, b), State({0}, map[], false);
    var t := State({0, 2}, map[], false);
    assert {0} + {2} == {0, 2} && {0, 2} + {3} == {0, 2, 3} && {} + {3} == {3};
    IncludeIs(w, 2, root, s);
    assert Opened(w, 2, root, s) == t && w.nodes[2].children == [3];
    IncludeOne(w, 3, root, t);
    IncludeIs(w, 3, root, t);
    assert Meet(w, 3, root, t).modules == map[b := Embedded({}, {})];
    assert Opened(w, 3, root, t).modules == map[b := Embedded({3}, {})];
  }

  /** The type of `a` is visited, but not the pointer again. */
  lemma TypeForRoot(root: Name, a: Name, b: Name)
    requires root != a && root != b && a != b && a != []
    ensures var w, s := SharedWorld(root, a, b), State({0, 2, 3}, map[b := Embedded({3}, {})], false);
      w.Valid() && Include(w, 1, root, s)
        == State({0, 1, 2, 3}, map[a := Embedded({1}, {}), b := Embedded({3}, {})], false)
  {
    var w, s := SharedWorld(root, a, b), State({0, 2, 3}, map[b := Embedded({3}, {})], false);
    IncludeIs(w, 1, root, s);
    var t := State({0, 1, 2, 3}, map[a := Embedded({1}, {}), b := Embedded({3}, {})], false);
    var met := Meet(w, 1, root, s);
    assert {0, 2, 3} + {1} == {0, 1, 2, 3} && {} + {1} == {1};
    assert met.modules == map[a := Embedded({}, {}), b := Embedded({3}, {})];
    assert Opened(w, 1, root, s).modules == t.modules;
    assert w.Embeds(1) && ConsumerBelow(w, 1, root) == a && w.nodes[1].children == [2];
    IncludeOne(w, 2, a, t);
    assert Meet(w, 2, a, t) == t && Include(w, 2, a, t) == t;
  }

  /** Then `a` needs a type of `b` and is not recorded to depend on it. */
  lemma SharedWrapperIsMissed(root: Name, a: Name, b: Name)
    requires root != a && root != b && a != b && a != []
    ensures var w := SharedWorld(root, a, b);
      var t := Flatten(w, [0], []);
      && w.Valid() && !t.failed && t.modules.Keys == {a, b} && Needs(w, [0], [], a, b) && !Depends(t, a, b)
  {
    var w, open := SharedWorld(root, a, b), State({0}, map[], false);
    PointerForRoot(root, a, b);
    TypeForRoot(root, a, b);
    var first := State({0, 2, 3}, map[b := Embedded({3}, {})], false);
    assert [2, 1][1..] == [1];
    IncludeOne(w, 1, root, first);
    assert {} + {0} == {0};
    IncludeIs(w, 0, root, START);
    assert Include(w, 0, root, START) == IncludeAll(w, [2, 1], root, open);
    IncludeOne(w, 0, root, START);
    NeededByA(root, a, b);
  }

  lemma NeededByA(root: Name, a: Name, b: Name)
    requires root != a && root != b && a != b && a != []
    ensures Needs(SharedWorld(root, a, b), [0], [], a, b)
  {
    var w := SharedWorld(root, a, b);
    var path: seq<(Name, Node)> := [(root, 0), (root, 1), (a, 2)];
    assert IsWalkStep(w, path[0], path[1]) && IsWalkStep(w, path[1], path[2]);
    assert IsWalk(w, [0], [], path) && path[|path| - 1] == (a, 2);
    assert NeedsAt(w, [0], [], a, b, a, 2, 3);
  }
}
