/** The flattened part of an interface: the embedded modules, then the re-exports, grouped by
    origin module, with a short form for a module whose embedded symbols are all re-exported. */
module ExportGroups {
  import opened Common
  import opened DqmBytes
  import opened DqmRecords
  import opened EmbeddedModules

  const EXPORT_MODULE_ALL: RecId := 0x0B12
  const EXPORT_MODULE_BEGIN: RecId := 0x0B20
  const EXPORT_MODULE_TYPE: RecId := 0x0B21
  const EXPORT_MODULE_VALSYM: RecId := 0x0B22
  const EXPORT_MODULE_END: RecId := 0x0B2F

  /** A re-exported symbol and the module it comes from. */
  datatype Export = Export(key: Key, origin: Bytes)

  /** The names a scope offers, each with the module its symbol comes from. */
  type Scope = map<Key, Bytes>

  // ----- collecting

  ghost predicate UniqueKeys(exports: seq<Export>) {
    forall a, b :: 0 <= a < b < |exports| ==> exports[a].key != exports[b].key
  }

  function Keys(exports: seq<Export>): set<Key> {
    set e | e in exports :: e.key
  }

  /** A symbol that a re-exporting use offers; its owner module may be missing. */
  datatype Found = Found(key: Key, owner: Option<Bytes>)

  /** The kinds and names of the symbols that have an owner. */
  ghost function OwnedKeys(found: seq<Found>): set<Key> {
    set f | f in found && f.owner.Some? :: f.key
  }

  /** `e` was found at `i`, as the first owned symbol with its kind and name. */
  ghost predicate IsFirstAt(found: seq<Found>, e: Export, i: nat) {
    && i < |found| && found[i] == Found(e.key, Some(e.origin))
    && forall j :: 0 <= j < i ==> found[j].owner.None? || found[j].key != e.key
  }

  /** The exports stand in the order in which they were found. */
  ghost predicate AreFirsts(found: seq<Found>, exports: seq<Export>, at: seq<nat>) {
    && |at| == |exports| && (forall a, b :: 0 <= a < b < |at| ==> at[a] < at[b])
    && forall k :: 0 <= k < |exports| ==> IsFirstAt(found, exports[k], at[k])
  }

  lemma OwnedKeysAppend(found: seq<Found>, f: Found)
    ensures OwnedKeys(found + [f]) == OwnedKeys(found) + (if f.owner.Some? then {f.key} else {})
  {
    assert forall x :: x in found + [f] <==> x in found || x == f;
  }

  lemma KeysAppend(exports: seq<Export>, e: Export)
    ensures Keys(exports + [e]) == Keys(exports) + {e.key}
  {
    assert forall x :: x in exports + [e] <==> x in exports || x == e;
  }

  lemma FirstsStay(found: seq<Found>, f: Found, exports: seq<Export>, at: seq<nat>)
    requires AreFirsts(found, exports, at)
    ensures AreFirsts(found + [f], exports, at)
  {
    forall k | 0 <= k < |exports| ensures IsFirstAt(found + [f], exports[k], at[k]) {
      assert IsFirstAt(found, exports[k], at[k]);
    }
  }

  lemma FirstsGrow(found: seq<Found>, f: Found, exports: seq<Export>, at: seq<nat>)
    requires AreFirsts(found, exports, at) && f.owner.Some? && f.key !in OwnedKeys(found)
    ensures AreFirsts(found + [f], exports + [Export(f.key, f.owner.value)], at + [|found|])
  {
    var more, longer, next := exports + [Export(f.key, f.owner.value)], found + [f], at + [|found|];
    FirstsStay(found, f, exports, at);
    forall j | 0 <= j < |found| ensures longer[j].owner.None? || longer[j].key != f.key {
      assert longer[j] == found[j] && found[j] in found;
    }
    assert IsFirstAt(longer, more[|exports|], next[|exports|]);
    forall k | 0 <= k < |exports| ensures IsFirstAt(longer, more[k], next[k]) {
      assert IsFirstAt(longer, exports[k], at[k]);
    }
    forall a, b | 0 <= a < b < |next| ensures next[a] < next[b] {
      assert IsFirstAt(found, exports[a], at[a]);
    }
  }

  /** The exports of an interface. A symbol without an owner is an error; of the others the
      first with a kind and name wins, and they keep the order in which they were found. */
  method AddExports(found: seq<Found>) returns (failed: bool, exports: seq<Export>, ghost at: seq<nat>)
    ensures failed <==> exists f :: f in found && f.owner.None?
    ensures UniqueKeys(exports) && Keys(exports) == OwnedKeys(found)
    ensures AreFirsts(found, exports, at)
  {
    failed, exports, at := false, [], [];
    var keys: set<Key> := {};
    for i := 0 to |found|
      invariant failed <==> exists f :: f in found[..i] && f.owner.None?
      invariant UniqueKeys(exports) && keys == Keys(exports) == OwnedKeys(found[..i])
      invariant AreFirsts(found[..i], exports, at)
    {
      var f := found[i];
      assert found[..i + 1] == found[..i] + [f];
      OwnedKeysAppend(found[..i], f);
      FirstsStay(found[..i], f, exports, at);
      if f.owner.None? {
        assert f in found[..i + 1];
        failed := true;
      } else if f.key !in keys {
        FirstsGrow(found[..i], f, exports, at);
        KeysAppend(exports, Export(f.key, f.owner.value));
        keys := keys + {f.key};
        at := at + [i];
        exports := exports + [Export(f.key, f.owner.value)];
      }
    }
    assert found[..|found|] == found;
  }

  // ----- writing

  /** The exports of one module, in order. */
  function From(exports: seq<Export>, origin: Bytes): (r: seq<Export>)
    ensures forall e :: e in r <==> e in exports && e.origin == origin
    ensures |r| <= |exports|
  {
    if exports == [] then []
    else (if exports[0].origin == origin then [exports[0]] else []) + From(exports[1..], origin)
  }

  function MemberRec(e: Export): Rec {
    Rec(if e.key.kind == TypeSymbol then EXPORT_MODULE_TYPE else EXPORT_MODULE_VALSYM, e.key.name)
  }

  function MemberRecs(group: seq<Export>): seq<Rec> {
    if group == [] then [] else [MemberRec(group[0])] + MemberRecs(group[1..])
  }

  /** The records of one origin module: the short form when it exports all it embeds. */
  function GroupRecs(origin: Bytes, group: seq<Export>, embedded: set<Key>): seq<Rec> {
    if embedded == Keys(group) then [Rec(EXPORT_MODULE_ALL, origin)]
    else [Rec(EXPORT_MODULE_BEGIN, origin)] + MemberRecs(group) + [Rec(EXPORT_MODULE_END, [])]
  }

  function ExportRecs(origins: seq<Bytes>, exports: seq<Export>, embedded: map<Bytes, set<Key>>): Option<seq<Rec>>
    decreases |origins|
  {
    if origins == [] then Some([])
    else if origins[0] !in embedded then None
    else
      match ExportRecs(origins[1..], exports, embedded)
      case None => None
      case Some(rest) => Some(GroupRecs(origins[0], From(exports, origins[0]), embedded[origins[0]]) + rest)
  }

  /** The writer's choice for one module, and its loop over the exports of that module. */
  method WriteGroup(origin: Bytes, group: seq<Export>, embedded: set<Key>) returns (out: seq<Rec>)
    ensures out == GroupRecs(origin, group, embedded)
  {
    if embedded == Keys(group) {
      return [Rec(EXPORT_MODULE_ALL, origin)];
    }
    var members: seq<Rec> := [];
    assert group[0..] == group && [] + MemberRecs(group) == MemberRecs(group);
    for k := 0 to |group|
      invariant members + MemberRecs(group[k..]) == MemberRecs(group)
    {
      assert group[k..][1..] == group[k + 1..];
      members := members + [MemberRec(group[k])];
    }
    assert group[|group|..] == [];
    return [Rec(EXPORT_MODULE_BEGIN, origin)] + members + [Rec(EXPORT_MODULE_END, [])];
  }

  /** The writer's loop over the origin modules. */
  method WriteExports(origins: seq<Bytes>, exports: seq<Export>, embedded: map<Bytes, set<Key>>)
    returns (recs: Option<seq<Rec>>)
    ensures recs == ExportRecs(origins, exports, embedded)
  {
    var out: seq<Rec> := [];
    assert origins[0..] == origins;
    BeforeNothing(ExportRecs(origins, exports, embedded));
    for i := 0 to |origins|
      invariant ExportRecs(origins, exports, embedded) == Before(out, ExportRecs(origins[i..], exports, embedded))
    {
      assert origins[i..][1..] == origins[i + 1..];
      if origins[i] !in embedded {
        return None;
      }
      var group := WriteGroup(origins[i], From(exports, origins[i]), embedded[origins[i]]);
      BeforeBoth(out, group, ExportRecs(origins[i + 1..], exports, embedded));
      out := out + group;
    }
    assert origins[|origins|..] == [] && out + [] == out;
    return Some(out);
  }

  lemma BeforeNothing(c: Option<seq<Rec>>)
    ensures Before([], c) == c
  {
    if c.Some? {
      assert [] + c.value == c.value;
    }
  }

  function Before(a: seq<Rec>, b: Option<seq<Rec>>): Option<seq<Rec>> {
    match b
    case None => None
    case Some(rs) => Some(a + rs)
  }

  lemma BeforeBoth(a: seq<Rec>, b: seq<Rec>, c: Option<seq<Rec>>)
    ensures Before(a, Before(b, c)) == Before(a + b, c)
  {
    if c.Some? {
      assert a + (b + c.value) == a + b + c.value;
    }
  }

  // ----- reading

  predicate Conflicts(scope: Scope, key: Key, origin: Bytes) {
    key in scope && scope[key] != origin
  }

  /** Adds one symbol of a module to the scope. The module must offer it, and the scope must
      not have another symbol of that name. */
  function AddOne(scope: Scope, origin: Bytes, key: Key, offered: set<Key>): Option<Scope> {
    if key !in offered || Conflicts(scope, key, origin) then None else Some(scope[key := origin])
  }

  function AddAll(scope: Scope, origin: Bytes, keys: set<Key>): Scope {
    scope + map k | k in keys :: origin
  }

  /** The members of an explicit group, up to its end record. */
  function ReadMembers(recs: seq<Rec>, scope: Scope, origin: Bytes, offered: set<Key>): (r: Option<(Scope, seq<Rec>)>)
    ensures r.Some? ==> |r.value.1| < |recs|
    decreases |recs|
  {
    if recs == [] then None
    else if recs[0].id == EXPORT_MODULE_END then (if recs[0].data == [] then Some((scope, recs[1..])) else None)
    else if recs[0].id != EXPORT_MODULE_TYPE && recs[0].id != EXPORT_MODULE_VALSYM then None
    else
      var key := Key(if recs[0].id == EXPORT_MODULE_TYPE then TypeSymbol else ValueSymbol, recs[0].data);
      match AddOne(scope, origin, key, offered)
      case None => None
      case Some(more) => ReadMembers(recs[1..], more, origin, offered)
  }

  /** What a reader has built: the symbols it exports, the scope of each module it knows, and
      the symbols collected from each embedded group. */
  datatype Tables = Tables(exported: Scope, known: map<Bytes, set<Key>>, groups: map<Bytes, set<Key>>)

  function KnownOf(t: Tables, name: Bytes): set<Key> {
    if name in t.known then t.known[name] else {}
  }

  /** The ids of the flattened part. */
  predicate IsFlattened(id: RecId) {
    id == EMBED_MODULE_BEGIN || id == EXPORT_MODULE_ALL || id == EXPORT_MODULE_BEGIN
  }

  /** Everything up to the first record that is not of the flattened part. */
  function ReadFlattened(recs: seq<Rec>, t: Tables): Option<(Tables, seq<Rec>)>
    decreases |recs|
  {
    if recs == [] || !IsFlattened(recs[0].id) then Some((t, recs))
    else
      var name := recs[0].data;
      if recs[0].id == EMBED_MODULE_BEGIN then
        match ReadModule(recs[1..], KnownOf(t, name))
        case None => None
        case Some((s, rest)) =>
          ReadFlattened(rest, t.(known := t.known[name := s.scope], groups := t.groups[name := s.group]))
      else if name !in t.known then None
      else if recs[0].id == EXPORT_MODULE_ALL then
        if name !in t.groups then None
        else if exists k :: k in t.groups[name] && (k !in t.known[name] || Conflicts(t.exported, k, name)) then None
        else ReadFlattened(recs[1..], t.(exported := AddAll(t.exported, name, t.groups[name])))
      else
        match ReadMembers(recs[1..], t.exported, name, t.known[name])
        case None => None
        case Some((more, rest)) => ReadFlattened(rest, t.(exported := more))
  }

  // ----- the reader rebuilds the exports

  ghost predicate NoConflicts(scope: Scope, exports: seq<Export>) {
    forall e :: e in exports ==> !Conflicts(scope, e.key, e.origin)
  }

  lemma ReadOneMember(e: Export, recs: seq<Rec>, scope: Scope, offered: set<Key>)
    requires e.key in offered && !Conflicts(scope, e.key, e.origin)
    ensures ReadMembers([MemberRec(e)] + recs, scope, e.origin, offered)
         == ReadMembers(recs, scope[e.key := e.origin], e.origin, offered)
  {
    assert ([MemberRec(e)] + recs)[1..] == recs;
  }

  lemma KeysCons(e: Export, group: seq<Export>)
    ensures Keys([e] + group) == {e.key} + Keys(group)
  {
    assert forall x :: x in [e] + group <==> x == e || x in group;
  }

  lemma AddAllCons(scope: Scope, origin: Bytes, key: Key, keys: set<Key>)
    ensures AddAll(scope[key := origin], origin, keys) == AddAll(scope, origin, {key} + keys)
  {
  }

  lemma {:induction false} MembersRead(group: seq<Export>, origin: Bytes, scope: Scope, offered: set<Key>,
                                       rest: seq<Rec>)
    requires (forall e :: e in group ==> e.origin == origin) && Keys(group) <= offered && NoConflicts(scope, group)
    requires rest != [] && rest[0] == Rec(EXPORT_MODULE_END, [])
    ensures ReadMembers(MemberRecs(group) + rest, scope, origin, offered)
         == Some((AddAll(scope, origin, Keys(group)), rest[1..]))
    decreases |group|
  {
    if group == [] {
      assert MemberRecs(group) + rest == rest;
      assert AddAll(scope, origin, Keys(group)) == scope;
    } else {
      var e, others := group[0], group[1..];
      assert e in group && group == [e] + others;
      KeysCons(e, others);
      AddAllCons(scope, origin, e.key, Keys(others));
      MembersRead(others, origin, scope[e.key := origin], offered, rest);
      ReadOneMember(e, MemberRecs(others) + rest, scope, offered);
      ConcatAssociative([MemberRec(e)], MemberRecs(others), rest);
    }
  }

  lemma AllRead(origin: Bytes, t: Tables, tail: seq<Rec>)
    requires origin in t.groups && origin in t.known && t.groups[origin] <= t.known[origin]
    requires forall k :: k in t.groups[origin] ==> !Conflicts(t.exported, k, origin)
    ensures ReadFlattened([Rec(EXPORT_MODULE_ALL, origin)] + tail, t)
         == ReadFlattened(tail, t.(exported := AddAll(t.exported, origin, t.groups[origin])))
  {
    assert ([Rec(EXPORT_MODULE_ALL, origin)] + tail)[1..] == tail;
  }

  lemma ListRead(origin: Bytes, members: seq<Rec>, t: Tables, more: Scope, tail: seq<Rec>)
    requires origin in t.known && ReadMembers(members, t.exported, origin, t.known[origin]) == Some((more, tail))
    ensures ReadFlattened([Rec(EXPORT_MODULE_BEGIN, origin)] + members, t) == ReadFlattened(tail, t.(exported := more))
  {
    assert ([Rec(EXPORT_MODULE_BEGIN, origin)] + members)[1..] == members;
  }

  lemma KeysFit(group: seq<Export>, origin: Bytes, scope: Scope)
    requires (forall e :: e in group ==> e.origin == origin) && NoConflicts(scope, group)
    ensures forall k :: k in Keys(group) ==> !Conflicts(scope, k, origin)
  {
    forall k | k in Keys(group) ensures !Conflicts(scope, k, origin) {
      var e :| e in group && e.key == k;
    }
  }

  /** Either form of a group adds exactly the keys of the group. */
  lemma GroupRead(origin: Bytes, group: seq<Export>, embedded: set<Key>, t: Tables, tail: seq<Rec>)
    requires origin in t.groups && origin in t.known && embedded == t.groups[origin]
    requires forall e :: e in group ==> e.origin == origin
    requires Keys(group) <= t.known[origin] && NoConflicts(t.exported, group)
    ensures ReadFlattened(GroupRecs(origin, group, embedded) + tail, t)
         == ReadFlattened(tail, t.(exported := AddAll(t.exported, origin, Keys(group))))
  {
    if embedded == Keys(group) {
      KeysFit(group, origin, t.exported);
      AllRead(origin, t, tail);
    } else {
      var begin, end, members := Rec(EXPORT_MODULE_BEGIN, origin), Rec(EXPORT_MODULE_END, []), MemberRecs(group);
      assert ([end] + tail)[1..] == tail;
      MembersRead(group, origin, t.exported, t.known[origin], [end] + tail);
      ListRead(origin, members + ([end] + tail), t, AddAll(t.exported, origin, Keys(group)), tail);
      Regroup([begin], members, [end], tail);
    }
  }

  lemma Regroup(a: seq<Rec>, b: seq<Rec>, c: seq<Rec>, d: seq<Rec>)
    ensures a + b + c + d == a + (b + (c + d))
  {
    ConcatAssociative(a, b, c + d);
    ConcatAssociative(a + b, c, d);
  }

  /** The scope after the groups of `origins`. */
  ghost predicate Rebuilt(before: Scope, after: Scope, exports: seq<Export>, origins: seq<Bytes>) {
    && (forall k :: k in before ==> k in after && after[k] == before[k])
    && (forall e :: e in exports && e.origin in origins ==> e.key in after && after[e.key] == e.origin)
    && (forall k :: k in after && k !in before ==> Export(k, after[k]) in exports && after[k] in origins)
  }

  lemma OneGroupRead(o: Bytes, rest: seq<Rec>, exports: seq<Export>, embedded: set<Key>, t: Tables, tail: seq<Rec>)
    requires o in t.groups && o in t.known && embedded == t.groups[o] && NoConflicts(t.exported, exports)
    requires forall e :: e in exports && e.origin == o ==> e.key in t.known[o]
    ensures ReadFlattened(GroupRecs(o, From(exports, o), embedded) + rest + tail, t)
         == ReadFlattened(rest + tail, t.(exported := AddAll(t.exported, o, Keys(From(exports, o)))))
  {
    GroupRead(o, From(exports, o), embedded, t, rest + tail);
    ConcatAssociative(GroupRecs(o, From(exports, o), embedded), rest, tail);
  }

  /** The export records add exactly the exports. */
  lemma {:induction false} GroupsRead(origins: seq<Bytes>, exports: seq<Export>, embedded: map<Bytes, set<Key>>,
                                      t: Tables, tail: seq<Rec>) returns (after: Scope)
    requires UniqueKeys(exports) && NoConflicts(t.exported, exports)
    requires forall o :: o in origins ==> o in embedded && o in t.groups && o in t.known && embedded[o] == t.groups[o]
    requires forall e :: e in exports && e.origin in origins ==> e.key in t.known[e.origin]
    ensures ExportRecs(origins, exports, embedded).Some?
    ensures ReadFlattened(ExportRecs(origins, exports, embedded).value + tail, t)
         == ReadFlattened(tail, t.(exported := after))
    ensures Rebuilt(t.exported, after, exports, origins)
    decreases |origins|
  {
    if origins == [] {
      after := t.exported;
      assert [] + tail == tail;
    } else {
      var o, rest := origins[0], origins[1..];
      var next := t.(exported := AddAll(t.exported, o, Keys(From(exports, o))));
      assert o in origins && forall x :: x in origins <==> x == o || x in rest;
      AddedStillFits(exports, t.exported, o);
      after := GroupsRead(rest, exports, embedded, next, tail);
      OneGroupRead(o, ExportRecs(rest, exports, embedded).value, exports, embedded[o], t, tail);
      RebuiltStep(t.exported, after, exports, origins);
    }
  }

  lemma AddedStillFits(exports: seq<Export>, scope: Scope, o: Bytes)
    requires UniqueKeys(exports) && NoConflicts(scope, exports)
    ensures NoConflicts(AddAll(scope, o, Keys(From(exports, o))), exports)
  {
    forall e | e in exports ensures !Conflicts(AddAll(scope, o, Keys(From(exports, o))), e.key, e.origin) {
      if e.key in Keys(From(exports, o)) {
        var f :| f in From(exports, o) && f.key == e.key;
        var a :| 0 <= a < |exports| && exports[a] == e;
        var b :| 0 <= b < |exports| && exports[b] == f;
        assert a == b;
      }
    }
  }

  lemma RebuiltStep(scope: Scope, after: Scope, exports: seq<Export>, origins: seq<Bytes>)
    requires origins != [] && UniqueKeys(exports) && NoConflicts(scope, exports)
    requires Rebuilt(AddAll(scope, origins[0], Keys(From(exports, origins[0]))), after, exports, origins[1..])
    ensures Rebuilt(scope, after, exports, origins)
  {
    var o := origins[0];
    var next := AddAll(scope, o, Keys(From(exports, o)));
    forall k | k in scope ensures next[k] == scope[k] {
      if k in Keys(From(exports, o)) {
        var e :| e in From(exports, o) && e.key == k;
        assert !Conflicts(scope, e.key, e.origin);
      }
    }
    forall e | e in exports && e.origin in origins ensures e.key in after && after[e.key] == e.origin {
      if e.origin == o {
        assert e in From(exports, o) && e.key in Keys(From(exports, o));
      }
    }
    forall k | k in after && k !in scope ensures Export(k, after[k]) in exports && after[k] in origins {
      if k in next {
        var e :| e in From(exports, o) && e.key == k;
        assert e == Export(k, o);
      }
    }
  }

  // ----- the embedded modules

  function ModulesRecs(modules: seq<Module>): seq<Rec> {
    if modules == [] then [] else ModuleRecs(modules[0]) + ModulesRecs(modules[1..])
  }

  /** The symbols of each embedded module, as the writer looks them up. */
  function EmbeddedNames(modules: seq<Module>): map<Bytes, set<Key>> {
    if modules == [] then map[] else EmbeddedNames(modules[1..])[modules[0].name := Names(modules[0].decls)]
  }

  /** The whole flattened part. */
  function FlattenedRecs(modules: seq<Module>, origins: seq<Bytes>, exports: seq<Export>): Option<seq<Rec>> {
    match ExportRecs(origins, exports, EmbeddedNames(modules))
    case None => None
    case Some(recs) => Some(ModulesRecs(modules) + recs)
  }

  method WriteFlattened(modules: seq<Module>, origins: seq<Bytes>, exports: seq<Export>) returns (out: Option<seq<Rec>>)
    ensures out == FlattenedRecs(modules, origins, exports)
  {
    var recs: seq<Rec> := [];
    assert modules[0..] == modules;
    for i := 0 to |modules|
      invariant recs + ModulesRecs(modules[i..]) == ModulesRecs(modules)
    {
      assert modules[i..][0] == modules[i] && modules[i..][1..] == modules[i + 1..];
      var one := WriteModule(modules[i]);
      ConcatAssociative(recs, one, ModulesRecs(modules[i + 1..]));
      recs := recs + one;
    }
    assert modules[|modules|..] == [] && recs + [] == recs;
    var exported := WriteExports(origins, exports, EmbeddedNames(modules));
    return if exported.None? then None else Some(recs + exported.value);
  }

  ghost predicate DistinctNames(modules: seq<Module>) {
    forall i, j :: 0 <= i < j < |modules| ==> modules[i].name != modules[j].name
  }

  /** The module can be written without losing a symbol. */
  ghost predicate Complete(m: Module) {
    WellFormed(m.decls) && forall d :: d in m.decls && d.Overloads? ==> d.bodies != []
  }

  /** After the embedded modules: each is known with at least its embedded symbols, and
      exactly these were collected; everything else is as before. */
  ghost predicate KnowsModules(t: Tables, u: Tables, modules: seq<Module>) {
    && u.exported == t.exported && t.known.Keys <= u.known.Keys
    && (forall m :: m in modules ==>
         && m.name in u.known && Names(m.decls) <= u.known[m.name]
         && m.name in u.groups && u.groups[m.name] == Names(m.decls))
    && forall n :: (forall m :: m in modules ==> m.name != n) ==> SameEntry(t, u, n)
  }

  ghost predicate SameEntry(t: Tables, u: Tables, n: Bytes) {
    && (n in t.known <==> n in u.known) && (n in t.known ==> u.known[n] == t.known[n])
    && (n in t.groups <==> n in u.groups) && (n in t.groups ==> u.groups[n] == t.groups[n])
  }

  lemma ModuleRead(m: Module, t: Tables, tail: seq<Rec>) returns (u: Tables)
    requires Complete(m)
    ensures ReadFlattened(ModuleRecs(m) + tail, t) == ReadFlattened(tail, u) && KnowsModules(t, u, [m])
  {
    var recs := ModuleRecs(m) + tail;
    ModuleIsRead(m, KnownOf(t, m.name), tail);
    CollectedAreAllIff(m.decls);
    assert recs[0] == Rec(EMBED_MODULE_BEGIN, m.name);
    var s := ReadModule(recs[1..], KnownOf(t, m.name)).value.0;
    u := t.(known := t.known[m.name := s.scope], groups := t.groups[m.name := s.group]);
    assert [m][0] == m;
  }

  lemma {:induction false} ModulesRead(modules: seq<Module>, t: Tables, tail: seq<Rec>) returns (u: Tables)
    requires DistinctNames(modules) && forall m :: m in modules ==> Complete(m)
    ensures ReadFlattened(ModulesRecs(modules) + tail, t) == ReadFlattened(tail, u) && KnowsModules(t, u, modules)
    decreases |modules|
  {
    if modules == [] {
      u := t;
      assert [] + tail == tail;
    } else {
      var m, rest := modules[0], modules[1..];
      assert m in modules && forall x :: x in modules <==> x == m || x in rest;
      var first := ModuleRead(m, t, ModulesRecs(rest) + tail);
      ConcatAssociative(ModuleRecs(m), ModulesRecs(rest), tail);
      u := ModulesRead(rest, first, tail);
      KnowsBoth(t, first, u, modules);
    }
  }

  lemma KnowsBoth(t: Tables, first: Tables, u: Tables, modules: seq<Module>)
    requires modules != [] && DistinctNames(modules)
    requires KnowsModules(t, first, [modules[0]]) && KnowsModules(first, u, modules[1..])
    ensures KnowsModules(t, u, modules)
  {
    var m, rest := modules[0], modules[1..];
    assert m in [m] && forall x :: x in modules <==> x == m || x in rest;
    forall x | x in rest ensures x.name != m.name {
      var i :| 0 <= i < |rest| && rest[i] == x;
      assert modules[i + 1] == x;
    }
    assert SameEntry(first, u, m.name);
    forall n | forall x :: x in modules ==> x.name != n ensures SameEntry(t, u, n) {
      assert SameEntry(t, first, n) && SameEntry(first, u, n);
    }
  }

  lemma {:induction false} EmbeddedNamesAre(modules: seq<Module>)
    requires DistinctNames(modules)
    ensures forall m :: m in modules ==>
      m.name in EmbeddedNames(modules) && EmbeddedNames(modules)[m.name] == Names(m.decls)
    decreases |modules|
  {
    if modules != [] {
      var m, rest := modules[0], modules[1..];
      EmbeddedNamesAre(rest);
      forall x | x in rest ensures x.name != m.name {
        var i :| 0 <= i < |rest| && rest[i] == x;
        assert modules[i + 1] == x;
      }
    }
  }

  /** The symbol is among the embedded declarations of its origin. */
  ghost predicate IsEmbedded(modules: seq<Module>, e: Export) {
    exists m :: m in modules && m.name == e.origin && e.key in Names(m.decls)
  }

  /** Whatever the reader knew of the modules before and whichever form the writer picks for
      each, reading the flattened part adds exactly the exported symbols, each bound to the
      module it comes from, and stops on the first record behind it. */
  lemma ExportsRoundTrip(modules: seq<Module>, origins: seq<Bytes>, exports: seq<Export>, t: Tables, tail: seq<Rec>)
    requires DistinctNames(modules) && forall m :: m in modules ==> Complete(m)
    requires UniqueKeys(exports) && NoConflicts(t.exported, exports)
    requires forall e :: e in exports ==> IsEmbedded(modules, e)
    requires forall o :: o in origins <==> exists e :: e in exports && e.origin == o
    requires tail == [] || !IsFlattened(tail[0].id)
    ensures FlattenedRecs(modules, origins, exports).Some?
    ensures var r := ReadFlattened(FlattenedRecs(modules, origins, exports).value + tail, t);
      && r.Some? && r.value.1 == tail
      && forall k, o :: Binds(r.value.0.exported, k, o) <==> Binds(t.exported, k, o) || Export(k, o) in exports
  {
    var embedded := EmbeddedNames(modules);
    EmbeddedNamesAre(modules);
    var u := ModulesRead(modules, t, ExportsTail(origins, exports, embedded, tail));
    forall o | o in origins
      ensures o in embedded && o in u.groups && o in u.known && embedded[o] == u.groups[o]
    {
      var e :| e in exports && e.origin == o;
      var m :| m in modules && m.name == e.origin && e.key in Names(m.decls);
    }
    forall e | e in exports ensures e.origin in u.known && e.key in u.known[e.origin] {
      var m :| m in modules && m.name == e.origin && e.key in Names(m.decls);
    }
    var after := GroupsRead(origins, exports, embedded, u, tail);
    ConcatAssociative(ModulesRecs(modules), ExportRecs(origins, exports, embedded).value, tail);
    RebuiltBinds(t.exported, after, exports, origins);
  }

  function ExportsTail(origins: seq<Bytes>, exports: seq<Export>, embedded: map<Bytes, set<Key>>,
                       tail: seq<Rec>): seq<Rec> {
    match ExportRecs(origins, exports, embedded)
    case None => []
    case Some(recs) => recs + tail
  }

  ghost predicate Binds(scope: Scope, k: Key, o: Bytes) {
    k in scope && scope[k] == o
  }

  lemma RebuiltBinds(before: Scope, after: Scope, exports: seq<Export>, origins: seq<Bytes>)
    requires Rebuilt(before, after, exports, origins) && forall e :: e in exports ==> e.origin in origins
    ensures forall k, o :: Binds(after, k, o) <==> Binds(before, k, o) || Export(k, o) in exports
  {
    forall k, o ensures Binds(after, k, o) <==> Binds(before, k, o) || Export(k, o) in exports {
      if Export(k, o) in exports {
        assert Export(k, o).origin in origins;
      }
    }
  }
}
