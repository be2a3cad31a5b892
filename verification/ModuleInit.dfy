/** Module initialisation: the call list that each module computes from the interfaces of
    the modules it uses, stores in its own interface, and runs at start-up behind a guard.
    An initialiser is identified by its linkage name. */
module ModuleInit {
  import opened Common

  type Name = string

  /** What a loaded interface says about initialisation. */
  datatype Intf = Intf(init: Option<Name>, deps: seq<Name>)

  // ----- the call list

  function AddName(list: seq<Name>, name: Name): seq<Name> {
    if name in list then list else list + [name]
  }

  /** An initialiser that is only known by the name in a dependency record; an empty name
      names nothing. */
  function AddImported(list: seq<Name>, name: Name): seq<Name> {
    if name == "" then list else AddName(list, name)
  }

  function AddAllImported(list: seq<Name>, names: seq<Name>): seq<Name>
    decreases |names|
  {
    if names == [] then list else AddAllImported(AddImported(list, names[0]), names[1..])
  }

  function AddUse(list: seq<Name>, use: Intf): seq<Name> {
    AddAllImported(if use.init.Some? then AddName(list, use.init.value) else list, use.deps)
  }

  function AddUses(list: seq<Name>, uses: seq<Intf>): seq<Name>
    decreases |uses|
  {
    if uses == [] then list else AddUses(AddUse(list, uses[0]), uses[1..])
  }

  function CallList(uses: seq<Intf>, own: Option<Name>, includeSelf: bool): seq<Name> {
    var list := AddUses([], uses);
    if includeSelf && own.Some? then AddName(list, own.value) else list
  }

  /** The dependency names of an interface, as its reader collects them from the records. */
  function ReadBack(list: seq<Name>, records: seq<Name>): seq<Name>
    decreases |records|
  {
    if records == [] then list else ReadBack(AddName(list, records[0]), records[1..])
  }

  /** The module under compilation. */
  class OpenModule {
    var usedModules: seq<Intf>
    var moduleInit: Option<Name>

    method ModuleInitCallList(includeSelf: bool) returns (result: seq<Name>)
      ensures result == CallList(usedModules, moduleInit, includeSelf)
    {
      result := [];
      for i := 0 to |usedModules|
        invariant AddUses([], usedModules) == AddUses(result, usedModules[i..])
      {
        var use := usedModules[i];
        assert usedModules[i..][1..] == usedModules[i + 1..];
        ghost var before := result;
        if use.init.Some? {
          result := AddName(result, use.init.value);
        }
        ghost var start := result;
        for k := 0 to |use.deps|
          invariant AddAllImported(start, use.deps) == AddAllImported(result, use.deps[k..])
        {
          assert use.deps[k..][1..] == use.deps[k + 1..];
          result := AddImported(result, use.deps[k]);
        }
        assert result == AddUse(before, use);
      }
      if includeSelf && moduleInit.Some? {
        result := AddName(result, moduleInit.value);
      }
    }
  }

  // ----- programs

  /** A module of a program, with the modules it uses. */
  datatype Module = Module(uses: seq<nat>, init: Option<Name>)

  type Program = seq<Module>

  /** Modules are listed in compile order: an interface exists before it is used, which is
      how an acyclic use graph looks. Linkage names are distinct and not empty. */
  ghost predicate WellFormed(p: Program) {
    && (forall i: nat, k: nat :: i < |p| && k < |p[i].uses| ==> p[i].uses[k] < i)
    && (forall i: nat :: i < |p| && p[i].init.Some? ==> p[i].init.value != "")
    && (forall i: nat, j: nat :: i < |p| && j < |p| && p[i].init.Some? && p[i].init == p[j].init ==> i == j)
  }

  /** What the interface file of module `i` says: its initialiser, and the list it computed
      itself when it was compiled. */
  function InterfaceOf(p: Program, i: nat): Intf
    requires WellFormed(p) && i < |p|
    decreases i, 1
  {
    Intf(p[i].init, ReadBack([], CallList(UsedInterfaces(p, i, 0), p[i].init, false)))
  }

  function UsedInterfaces(p: Program, i: nat, k: nat): seq<Intf>
    requires WellFormed(p) && i < |p| && k <= |p[i].uses|
    decreases i, 0, |p[i].uses| - k
  {
    if k == |p[i].uses| then [] else [InterfaceOf(p, p[i].uses[k])] + UsedInterfaces(p, i, k + 1)
  }

  // ----- the modules that are used transitively

  ghost predicate IsUsePath(p: Program, path: seq<nat>) {
    && |path| > 1
    && (forall k {:trigger path[k]} :: 0 <= k < |path| ==> path[k] < |p|)
    && (forall k {:trigger path[k]} :: 0 <= k < |path| - 1 ==> path[k + 1] in p[path[k]].uses)
  }

  /** A chain of uses leads from `i` to `j`. */
  ghost predicate Uses(p: Program, i: nat, j: nat) {
    exists path: seq<nat> :: IsUsePath(p, path) && path[0] == i && path[|path| - 1] == j
  }

  lemma UsesDirectly(p: Program, i: nat, j: nat)
    requires i < |p| && j < |p| && j in p[i].uses
    ensures Uses(p, i, j)
  {
    assert IsUsePath(p, [i, j]);
    assert [i, j][0] == i && [i, j][|[i, j]| - 1] == j;
  }

  lemma UsesTransitive(p: Program, i: nat, j: nat, k: nat)
    requires Uses(p, i, j) && Uses(p, j, k)
    ensures Uses(p, i, k)
  {
    var a: seq<nat> :| IsUsePath(p, a) && a[0] == i && a[|a| - 1] == j;
    var b: seq<nat> :| IsUsePath(p, b) && b[0] == j && b[|b| - 1] == k;
    var c := a + b[1..];
    forall x | 0 <= x < |c| - 1 ensures c[x + 1] in p[c[x]].uses {
      if x >= |a| - 1 {
        assert c[x] == b[x - (|a| - 1)] && c[x + 1] == b[x - (|a| - 1) + 1];
      } else {
        assert c[x] == a[x] && c[x + 1] == a[x + 1];
      }
    }
    assert IsUsePath(p, c) && c[0] == i && c[|c| - 1] == k;
  }

  /** The first step of a chain, and the rest of it. */
  lemma UsesSplit(p: Program, i: nat, j: nat) returns (k: nat)
    requires Uses(p, i, j)
    ensures i < |p| && j < |p| && k < |p| && k in p[i].uses && (k == j || Uses(p, k, j))
  {
    var a: seq<nat> :| IsUsePath(p, a) && a[0] == i && a[|a| - 1] == j;
    k := a[1];
    assert a[0 + 1] in p[a[0]].uses;
    if |a| > 2 {
      var b := a[1..];
      forall x | 0 <= x < |b| - 1 ensures b[x + 1] in p[b[x]].uses {
        assert b[x] == a[x + 1] && b[x + 1] == a[x + 1 + 1];
      }
      assert IsUsePath(p, b) && b[0] == k && b[|b| - 1] == j;
    }
  }

  /** Uses go strictly down the compile order. */
  lemma {:induction false} UsesDescend(p: Program, i: nat, j: nat)
    requires WellFormed(p) && Uses(p, i, j)
    ensures j < i < |p|
    decreases i
  {
    var k := UsesSplit(p, i, j);
    var n :| 0 <= n < |p[i].uses| && p[i].uses[n] == k;
    if k != j {
      UsesDescend(p, k, j);
    }
  }

  // ----- the list is exactly the transitive initialisers

  lemma {:induction false} AddAllImportedAdds(list: seq<Name>, names: seq<Name>)
    requires NoDuplicates(list)
    ensures NoDuplicates(AddAllImported(list, names))
    ensures forall n :: n in AddAllImported(list, names) <==> n in list || (n in names && n != "")
    decreases |names|
  {
    if names != [] {
      AddAllImportedAdds(AddImported(list, names[0]), names[1..]);
      assert forall n :: n in names <==> n == names[0] || n in names[1..];
    }
  }

  lemma {:induction false} ReadBackKeeps(list: seq<Name>, records: seq<Name>)
    requires NoDuplicates(list + records)
    ensures ReadBack(list, records) == list + records
    decreases |records|
  {
    if records == [] {
      assert list + records == list;
    } else {
      assert (list + records)[|list|] == records[0];
      assert forall k :: 0 <= k < |list| ==> (list + records)[k] == list[k];
      assert AddName(list, records[0]) + records[1..] == list + records;
      ReadBackKeeps(AddName(list, records[0]), records[1..]);
    }
  }

  /** Nothing is lost or reordered between the list that is written and the one read. */
  lemma StoredListIsCallList(p: Program, i: nat)
    requires WellFormed(p) && i < |p|
    ensures InterfaceOf(p, i).deps == CallList(UsedInterfaces(p, i, 0), p[i].init, false)
    ensures NoDuplicates(InterfaceOf(p, i).deps)
  {
    AddUsesAdds([], UsedInterfaces(p, i, 0));
    var list := AddUses([], UsedInterfaces(p, i, 0));
    assert [] + list == list;
    ReadBackKeeps([], list);
  }

  lemma {:induction false} AddUsesAdds(list: seq<Name>, uses: seq<Intf>)
    requires NoDuplicates(list)
    ensures NoDuplicates(AddUses(list, uses))
    ensures forall n :: n in AddUses(list, uses) <==>
      n in list || exists u :: u in uses && (u.init == Some(n) || (n in u.deps && n != ""))
    decreases |uses|
  {
    if uses != [] {
      var u := uses[0];
      AddAllImportedAdds(if u.init.Some? then AddName(list, u.init.value) else list, u.deps);
      AddUsesAdds(AddUse(list, u), uses[1..]);
      forall n ensures n in AddUses(list, uses) <==>
        n in list || exists v :: v in uses && (v.init == Some(n) || (n in v.deps && n != "")) {
        assert n in AddUse(list, u) <==> n in list || u.init == Some(n) || (n in u.deps && n != "");
        if n in list || n in AddUse(list, u) {
          assert u in uses;
        }
      }
    }
  }

  lemma {:induction false} UsedInterfacesAre(p: Program, i: nat, k: nat)
    requires WellFormed(p) && i < |p| && k <= |p[i].uses|
    ensures forall u :: u in UsedInterfaces(p, i, k) <==>
      exists x :: k <= x < |p[i].uses| && u == InterfaceOf(p, p[i].uses[x])
    decreases |p[i].uses| - k
  {
    if k < |p[i].uses| {
      UsedInterfacesAre(p, i, k + 1);
    }
  }

  /** `name` is the initialiser of a module that `i` uses, directly or not. */
  ghost predicate IsUsedInit(p: Program, i: nat, name: Name) {
    exists j: nat :: j < |p| && Uses(p, i, j) && p[j].init == Some(name)
  }

  /** The list a module stores has no duplicates and holds exactly the initialisers of all
      modules it uses transitively, also through modules that have no initialiser. */
  lemma StoredListIsExact(p: Program, i: nat)
    requires WellFormed(p) && i < |p|
    ensures NoDuplicates(InterfaceOf(p, i).deps)
    ensures forall n :: n in InterfaceOf(p, i).deps <==> IsUsedInit(p, i, n)
  {
    StoredListIsCallList(p, i);
    forall n ensures n in InterfaceOf(p, i).deps <==> IsUsedInit(p, i, n) {
      if n in InterfaceOf(p, i).deps {
        ListedIsUsed(p, i, n);
      }
      if IsUsedInit(p, i, n) {
        UsedIsListed(p, i, n);
      }
    }
  }

  lemma {:induction false} ListedIsUsed(p: Program, i: nat, n: Name)
    requires WellFormed(p) && i < |p| && n in InterfaceOf(p, i).deps
    ensures IsUsedInit(p, i, n)
    decreases i, 0
  {
    var used := UsedInterfaces(p, i, 0);
    StoredListIsCallList(p, i);
    AddUsesAdds([], used);
    UsedInterfacesAre(p, i, 0);
    var u :| u in used && (u.init == Some(n) || (n in u.deps && n != ""));
    var x :| 0 <= x < |p[i].uses| && u == InterfaceOf(p, p[i].uses[x]);
    var k := p[i].uses[x];
    UsesDirectly(p, i, k);
    if u.init != Some(n) {
      ListedIsUsed(p, k, n);
      var j: nat :| j < |p| && Uses(p, k, j) && p[j].init == Some(n);
      UsesTransitive(p, i, k, j);
    }
  }

  lemma {:induction false} UsedIsListed(p: Program, i: nat, n: Name)
    requires WellFormed(p) && i < |p| && IsUsedInit(p, i, n)
    ensures n in InterfaceOf(p, i).deps
    decreases i, 0
  {
    var used := UsedInterfaces(p, i, 0);
    StoredListIsCallList(p, i);
    AddUsesAdds([], used);
    UsedInterfacesAre(p, i, 0);
    var j: nat :| j < |p| && Uses(p, i, j) && p[j].init == Some(n);
    var k := UsesSplit(p, i, j);
    var x :| 0 <= x < |p[i].uses| && p[i].uses[x] == k;
    if k != j {
      UsedIsListed(p, k, n);
    }
    var u := InterfaceOf(p, k);
    assert u in used && (u.init == Some(n) || (n in u.deps && n != ""));
  }

  // ----- running

  /** The guards that are set, and the modules whose initialiser bodies ran, in order. */
  datatype Started = Started(guards: set<nat>, log: seq<nat>)

  /** The module whose initialiser the linker binds a name to, searched from `k` on. */
  function Owner(p: Program, name: Name, k: nat): (r: Option<nat>)
    ensures r.Some? ==> k <= r.value < |p| && p[r.value].init == Some(name)
    decreases |p| - k
  {
    if k >= |p| then None
    else if p[k].init == Some(name) then Some(k)
    else Owner(p, name, k + 1)
  }

  ghost function Unstarted(p: Program, guards: set<nat>): set<nat> {
    set i: nat {:trigger i in guards} | i < |p| && i !in guards
  }

  lemma StartedLess(p: Program, guards: set<nat>, i: nat)
    requires i < |p| && i !in guards
    ensures Unstarted(p, guards + {i}) < Unstarted(p, guards)
  {
    assert i in Unstarted(p, guards) && i !in Unstarted(p, guards + {i});
  }

  /** A call of the initialiser of `i`: nothing if its guard is set, else the guard, the
      calls of its list, and its body. */
  function CallInit(p: Program, i: nat, s: Started): (t: Started)
    requires WellFormed(p) && i < |p|
    ensures s.guards <= t.guards
    decreases Unstarted(p, s.guards), 0
  {
    if i in s.guards then s
    else
      StartedLess(p, s.guards, i);
      var t := CallInits(p, InterfaceOf(p, i).deps, s.(guards := s.guards + {i}));
      t.(log := t.log + [i])
  }

  function CallInits(p: Program, names: seq<Name>, s: Started): (t: Started)
    requires WellFormed(p)
    ensures s.guards <= t.guards
    decreases Unstarted(p, s.guards), |names|
  {
    if names == [] then s
    else
      var t := match Owner(p, names[0], 0) case Some(j) => CallInit(p, j, s) case None => s;
      CallInits(p, names[1..], t)
  }

  /** The initialisers the application calls: those of the main module's list and its own. */
  function AppInit(p: Program, root: nat): Started
    requires WellFormed(p) && root < |p|
  {
    CallInits(p, CallList(UsedInterfaces(p, root, 0), p[root].init, true), Started({}, []))
  }

  /** The run-time state that the generated code changes. */
  class Runtime {
    var guards: set<nat>
    var log: seq<nat>

    ghost function View(): Started
      reads this
    {
      Started(guards, log)
    }

    /** A generated initialiser. */
    method Init(p: Program, i: nat)
      requires WellFormed(p) && i < |p|
      modifies this
      ensures View() == CallInit(p, i, old(View()))
      decreases Unstarted(p, guards), 0
    {
      if i in guards {
        return;
      }
      StartedLess(p, guards, i);
      guards := guards + {i};
      CallAll(p, InterfaceOf(p, i).deps);
      log := log + [i];
    }

    /** A generated sequence of initialiser calls. */
    method CallAll(p: Program, names: seq<Name>)
      requires WellFormed(p)
      modifies this
      ensures View() == CallInits(p, names, old(View()))
      decreases Unstarted(p, guards), |names|
    {
      if names == [] {
        return;
      }
      var target := Owner(p, names[0], 0);
      if target.Some? {
        Init(p, target.value);
      }
      CallAll(p, names[1..]);
    }
  }

  // ----- once each, dependencies first

  /** `j` has an initialiser and `i` uses it, directly or not. */
  ghost predicate Needs(p: Program, i: nat, j: nat) {
    j < |p| && p[j].init.Some? && Uses(p, i, j)
  }

  /** Each initialiser in the log ran after those of all modules its module uses. */
  ghost predicate DependenciesFirst(p: Program, log: seq<nat>) {
    forall k, j: nat :: 0 <= k < |log| && Needs(p, log[k], j) ==> j in log[..k]
  }

  /** The guards that are set belong to the logged modules and to the `active` ones, whose
      initialiser calls are still open. */
  ghost predicate Consistent(p: Program, s: Started, active: set<nat>) {
    && (forall g :: g in s.guards <==> g in s.log || g in active)
    && (forall g :: g in active ==> g !in s.log)
    && NoDuplicates(s.log) && DependenciesFirst(p, s.log)
    && (forall j :: j in s.log ==> j < |p| && p[j].init.Some?)
  }

  lemma {:induction false} OwnerIs(p: Program, j: nat, k: nat)
    requires WellFormed(p) && k <= j < |p| && p[j].init.Some?
    ensures Owner(p, p[j].init.value, k) == Some(j)
    decreases j - k
  {
    if k < j {
      OwnerIs(p, j, k + 1);
    }
  }

  /** `n` is the name of an initialiser that `a` needs. */
  ghost predicate InitUsedBy(p: Program, a: nat, n: Name) {
    exists j: nat :: Needs(p, a, j) && p[j].init == Some(n)
  }

  lemma ListIsNeeded(p: Program, i: nat, a: nat)
    requires WellFormed(p) && i < |p| && (a == i || Uses(p, a, i))
    ensures forall n :: n in InterfaceOf(p, i).deps ==> InitUsedBy(p, a, n)
  {
    StoredListIsExact(p, i);
    forall n | n in InterfaceOf(p, i).deps ensures InitUsedBy(p, a, n) {
      var j: nat :| j < |p| && Uses(p, i, j) && p[j].init == Some(n);
      if a != i {
        UsesTransitive(p, a, i, j);
      }
      assert Needs(p, a, j);
    }
  }

  lemma ListIsNeededByAll(p: Program, i: nat, callers: set<nat>)
    requires WellFormed(p) && i < |p| && forall a :: a in callers ==> a == i || Uses(p, a, i)
    ensures forall a :: a in callers ==> forall n :: n in InterfaceOf(p, i).deps ==> InitUsedBy(p, a, n)
  {
    forall a | a in callers ensures forall n :: n in InterfaceOf(p, i).deps ==> InitUsedBy(p, a, n) {
      ListIsNeeded(p, i, a);
    }
  }

  lemma NeededIs(p: Program, a: nat, j: nat)
    requires WellFormed(p) && j < |p| && p[j].init.Some? && InitUsedBy(p, a, p[j].init.value)
    ensures Needs(p, a, j)
  {
  }

  /** The state in which the list of `i` is called. */
  lemma OpeningKeepsConsistent(p: Program, i: nat, s: Started, active: set<nat>)
    requires WellFormed(p) && Consistent(p, s, active) && i !in s.guards
    ensures Consistent(p, s.(guards := s.guards + {i}), active + {i})
  {
  }

  /** One call: the initialiser has run, everything it needs ran before it, and nothing ran
      that it does not need. */
  lemma {:induction false} CallInitRuns(p: Program, i: nat, s: Started, active: set<nat>)
    requires WellFormed(p) && i < |p| && p[i].init.Some? && Consistent(p, s, active)
    requires forall a :: a in active ==> Uses(p, a, i)
    ensures var t := CallInit(p, i, s);
      && Consistent(p, t, active) && s.log <= t.log && i in t.log
      && forall j :: j in t.log ==> j in s.log || j == i || Needs(p, i, j)
    decreases Unstarted(p, s.guards), 0, 1
  {
    if i in active {
      UsesDescend(p, i, i);
    } else if i !in s.guards {
      FreshCallRuns(p, i, s, active);
    }
  }

  lemma {:induction false} FreshCallRuns(p: Program, i: nat, s: Started, active: set<nat>)
    requires WellFormed(p) && i < |p| && p[i].init.Some? && Consistent(p, s, active) && i !in s.guards
    requires forall a :: a in active ==> Uses(p, a, i)
    ensures var t := CallInit(p, i, s);
      && Consistent(p, t, active) && s.log <= t.log && i in t.log
      && forall j :: j in t.log ==> j in s.log || j == i || Needs(p, i, j)
    decreases Unstarted(p, s.guards), 0, 0
  {
    StartedLess(p, s.guards, i);
    var started, names := s.(guards := s.guards + {i}), InterfaceOf(p, i).deps;
    OpeningKeepsConsistent(p, i, s, active);
    ListIsNeededByAll(p, i, active + {i});
    CallInitsRun(p, i, names, started, active + {i});
    var t := CallInits(p, names, started);
    BodyRuns(p, i, t, active + {i});
    assert active + {i} - {i} == active;
    assert CallInit(p, i, s) == t.(log := t.log + [i]);
    assert OnlyNeeded(p, i, s.log, t.log);
  }

  /** The body of `i` runs when all it needs has run. */
  lemma BodyRuns(p: Program, i: nat, t: Started, active: set<nat>)
    requires WellFormed(p) && i < |p| && p[i].init.Some? && i in active && Consistent(p, t, active)
    requires AllRan(p, InterfaceOf(p, i).deps, t.log)
    ensures Consistent(p, t.(log := t.log + [i]), active - {i})
  {
    StoredListIsExact(p, i);
    forall j: nat | Needs(p, i, j) ensures j in t.log {
      assert p[j].init.value in InterfaceOf(p, i).deps;
      var k :| k in t.log && p[k].init == Some(p[j].init.value);
      assert k == j;
    }
    var log := t.log + [i];
    forall k, j: nat | 0 <= k < |log| && Needs(p, log[k], j) ensures j in log[..k] {
      if k < |t.log| {
        assert log[..k] == t.log[..k];
      } else {
        assert log[..k] == t.log;
      }
    }
  }

  /** The initialisers with these names have run. */
  ghost predicate AllRan(p: Program, names: seq<Name>, log: seq<nat>) {
    forall n :: n in names ==> exists j :: j in log && j < |p| && p[j].init == Some(n)
  }

  /** Whatever has run since is needed by `caller`. */
  ghost predicate OnlyNeeded(p: Program, caller: nat, before: seq<nat>, after: seq<nat>) {
    forall j :: j in after ==> j in before || Needs(p, caller, j)
  }

  lemma AllRanCons(p: Program, names: seq<Name>, j: nat, log: seq<nat>)
    requires names != [] && j in log && j < |p| && p[j].init == Some(names[0]) && AllRan(p, names[1..], log)
    ensures AllRan(p, names, log)
  {
    assert forall n :: n in names ==> n == names[0] || n in names[1..];
  }

  lemma OnlyNeededChain(p: Program, caller: nat, j: nat, a: seq<nat>, b: seq<nat>, c: seq<nat>)
    requires Needs(p, caller, j) && OnlyNeeded(p, caller, b, c)
    requires forall k :: k in b ==> k in a || k == j || Needs(p, j, k)
    ensures OnlyNeeded(p, caller, a, c)
  {
    forall k | Needs(p, j, k) ensures Needs(p, caller, k) {
      UsesTransitive(p, caller, j, k);
    }
  }

  /** The first call of a list. */
  lemma {:induction false} FirstCallRuns(p: Program, caller: nat, names: seq<Name>, s: Started, active: set<nat>)
    returns (j: nat, t: Started)
    requires WellFormed(p) && Consistent(p, s, active) && names != []
    requires InitUsedBy(p, caller, names[0]) && forall a :: a in active ==> InitUsedBy(p, a, names[0])
    ensures Needs(p, caller, j) && p[j].init == Some(names[0])
    ensures s.guards <= t.guards && CallInits(p, names, s) == CallInits(p, names[1..], t)
    ensures Consistent(p, t, active) && s.log <= t.log && j in t.log
    ensures forall k :: k in t.log ==> k in s.log || k == j || Needs(p, j, k)
    decreases Unstarted(p, s.guards), |names|, 0
  {
    j :| Needs(p, caller, j) && p[j].init == Some(names[0]);
    OwnerIs(p, j, 0);
    forall a | a in active ensures Uses(p, a, j) {
      NeededIs(p, a, j);
    }
    CallInitRuns(p, j, s, active);
    t := CallInit(p, j, s);
  }

  /** Calling a list of initialisers, each needed by `caller` and by every module whose
      call is open. */
  lemma {:induction false} CallInitsRun(p: Program, caller: nat, names: seq<Name>, s: Started, active: set<nat>)
    requires WellFormed(p) && Consistent(p, s, active)
    requires forall n :: n in names ==> InitUsedBy(p, caller, n)
    requires forall a :: a in active ==> forall n :: n in names ==> InitUsedBy(p, a, n)
    ensures var t := CallInits(p, names, s);
      Consistent(p, t, active) && s.log <= t.log && AllRan(p, names, t.log) && OnlyNeeded(p, caller, s.log, t.log)
    decreases Unstarted(p, s.guards), |names|, 1
  {
    if names != [] {
      var j, t := FirstCallRuns(p, caller, names, s, active);
      CallInitsRun(p, caller, names[1..], t, active);
      var u := CallInits(p, names[1..], t);
      AllRanCons(p, names, j, u.log);
      OnlyNeededChain(p, caller, j, s.log, t.log, u.log);
    }
  }

  lemma {:induction false} CallInitsConcat(p: Program, a: seq<Name>, b: seq<Name>, s: Started)
    requires WellFormed(p)
    ensures CallInits(p, a + b, s) == CallInits(p, b, CallInits(p, a, s))
    decreases |a|
  {
    if a == [] {
      assert a + b == b;
    } else {
      var t := match Owner(p, a[0], 0) case Some(j) => CallInit(p, j, s) case None => s;
      assert (a + b)[1..] == a[1..] + b;
      CallInitsConcat(p, a[1..], b, t);
    }
  }

  /** The initialiser of a module itself, or of one it uses. */
  ghost predicate IsStarted(p: Program, root: nat, j: nat) {
    j < |p| && p[j].init.Some? && (j == root || Uses(p, root, j))
  }

  /** The main module's list: what it needs has run, and nothing else. */
  lemma ListStarts(p: Program, root: nat)
    requires WellFormed(p) && root < |p|
    ensures var t := CallInits(p, InterfaceOf(p, root).deps, Started({}, []));
      Consistent(p, t, {}) && forall j :: j in t.log <==> Needs(p, root, j)
  {
    var s, names := Started({}, []), InterfaceOf(p, root).deps;
    StoredListIsExact(p, root);
    ListIsNeeded(p, root, root);
    CallInitsRun(p, root, names, s, {});
    var t := CallInits(p, names, s);
    forall j: nat | Needs(p, root, j) ensures j in t.log {
      assert p[j].init.value in names;
      var k :| k in t.log && k < |p| && p[k].init == Some(p[j].init.value);
      assert k == j;
    }
  }

  /** Its own initialiser is not in its list, so it is called last. */
  lemma OwnIsLast(p: Program, root: nat)
    requires WellFormed(p) && root < |p| && p[root].init.Some?
    ensures AppInit(p, root) == CallInit(p, root, CallInits(p, InterfaceOf(p, root).deps, Started({}, [])))
  {
    var s, names, own := Started({}, []), InterfaceOf(p, root).deps, p[root].init.value;
    StoredListIsCallList(p, root);
    if own in names {
      ListIsNeeded(p, root, root);
      NeededIs(p, root, root);
      UsesDescend(p, root, root);
    } else {
      CallInitsConcat(p, names, [own], s);
      OwnerIs(p, root, 0);
      var t := CallInits(p, names, s);
      assert CallInits(p, [own], t) == CallInit(p, root, t);
    }
  }

  /** Starting the application from cleared guards runs the body of the initialiser of every
      module that the main module reaches, exactly once, and nothing else; and each body
      runs after the bodies of all modules that its module uses, directly or through
      modules that have no initialiser. */
  lemma StartUp(p: Program, root: nat)
    requires WellFormed(p) && root < |p|
    ensures var log := AppInit(p, root).log;
      && NoDuplicates(log)
      && (forall j: nat :: j in log <==> IsStarted(p, root, j))
      && (forall k, j: nat :: 0 <= k < |log| && j < |p| && p[j].init.Some? && Uses(p, log[k], j) ==> j in log[..k])
  {
    ListStarts(p, root);
    StoredListIsCallList(p, root);
    if p[root].init.Some? {
      OwnIsLast(p, root);
      CallInitRuns(p, root, CallInits(p, InterfaceOf(p, root).deps, Started({}, [])), {});
    }
  }
}
