/** The export records spelled out, and when a reader refuses them. */
module ExportLaws {
  import opened Common
  import opened DqmBytes
  import opened DqmRecords
  import opened EmbeddedModules
  import opened ExportGroups

  // ----- the two forms

  /** The short form is one record, and it is used exactly when the re-exported symbols of the
      module are all that it embeds. */
  lemma ShortFormIff(origin: Bytes, group: seq<Export>, embedded: set<Key>)
    ensures GroupRecs(origin, group, embedded) == [Rec(0x0B12, origin)] <==>
      && (forall e :: e in group ==> e.key in embedded)
      && forall k :: k in embedded ==> exists e :: e in group && e.key == k
    ensures GroupRecs(origin, group, embedded) != [Rec(0x0B12, origin)] ==>
      GroupRecs(origin, group, embedded) == [Rec(0x0B20, origin)] + MemberRecs(group) + [Rec(0x0B2F, [])]
  {
    if forall e :: e in group ==> e.key in embedded {
      if forall k :: k in embedded ==> exists e :: e in group && e.key == k {
        assert embedded == Keys(group);
      }
    }
    assert [Rec(0x0B20, origin)] + MemberRecs(group) + [Rec(0x0B2F, [])] != [Rec(0x0B12, origin)] by {
      assert |[Rec(0x0B20, origin)] + MemberRecs(group) + [Rec(0x0B2F, [])]| >= 2;
    }
  }

  /** The members of a list, one record each, in order. */
  lemma {:induction false} MembersSpelledOut(group: seq<Export>)
    ensures |MemberRecs(group)| == |group|
    ensures forall i :: 0 <= i < |group| ==>
      MemberRecs(group)[i] == Rec(if group[i].key.kind == TypeSymbol then 0x0B21 else 0x0B22, group[i].key.name)
  {
    if group != [] {
      MembersSpelledOut(group[1..]);
    }
  }

  lemma {:induction false} FromConcat(a: seq<Export>, b: seq<Export>, origin: Bytes)
    ensures From(a + b, origin) == From(a, origin) + From(b, origin)
    decreases |a|
  {
    if a == [] {
      assert a + b == b && [] + From(b, origin) == From(b, origin);
    } else {
      assert (a + b)[0] == a[0] && (a + b)[1..] == a[1..] + b;
      FromConcat(a[1..], b, origin);
      ConcatAssociative(if a[0].origin == origin then [a[0]] else [], From(a[1..], origin), From(b, origin));
    }
  }

  /** The exports of one module keep their order: those of a first part of the list come
      first, and each export is there or not by its origin. */
  lemma FromKeepsOrder(a: seq<Export>, e: Export, b: seq<Export>, origin: Bytes)
    ensures From(a + ([e] + b), origin)
         == From(a, origin) + ((if e.origin == origin then [e] else []) + From(b, origin))
  {
    FromConcat(a, [e] + b, origin);
    assert ([e] + b)[0] == e && ([e] + b)[1..] == b;
  }

  // ----- conflicts

  lemma AddAllConflicts(scope: Scope, exports: seq<Export>, o: Bytes, e: Export)
    requires UniqueKeys(exports) && e in exports && e.origin != o
    ensures Conflicts(AddAll(scope, o, Keys(From(exports, o))), e.key, e.origin) <==> Conflicts(scope, e.key, e.origin)
  {
    var a :| 0 <= a < |exports| && exports[a] == e;
    forall f | f in From(exports, o) ensures f.key != e.key {
      var b :| 0 <= b < |exports| && exports[b] == f;
      assert a < b || b < a;
    }
  }

  lemma MemberRead(e: Export, recs: seq<Rec>, scope: Scope, offered: set<Key>)
    ensures ReadMembers([MemberRec(e)] + recs, scope, e.origin, offered)
         == if e.key in offered && !Conflicts(scope, e.key, e.origin)
            then ReadMembers(recs, scope[e.key := e.origin], e.origin, offered) else None
  {
    assert ([MemberRec(e)] + recs)[0] == MemberRec(e) && ([MemberRec(e)] + recs)[1..] == recs;
  }

  /** An explicit group is accepted exactly when its module offers every name and none of
      them is bound to another module. */
  lemma {:induction false} MembersReadIff(group: seq<Export>, origin: Bytes, scope: Scope, offered: set<Key>,
                                          rest: seq<Rec>)
    requires forall e :: e in group ==> e.origin == origin
    ensures var recs := MemberRecs(group) + ([Rec(0x0B2F, [])] + rest);
      ReadMembers(recs, scope, origin, offered).Some?
      <==> forall e :: e in group ==> e.key in offered && (e.key in scope ==> scope[e.key] == origin)
    decreases |group|
  {
    var end := [Rec(0x0B2F, [])] + rest;
    if group == [] {
      assert MemberRecs(group) + end == end;
    } else {
      var e, others := group[0], group[1..];
      assert e in group && group == [e] + others && forall x :: x in group <==> x == e || x in others;
      ConcatAssociative([MemberRec(e)], MemberRecs(others), end);
      MemberRead(e, MemberRecs(others) + end, scope, offered);
      MembersReadIff(others, origin, scope[e.key := origin], offered, rest);
    }
  }

  /** The short form is accepted exactly when the module and its embedded group are known, and
      each name of the group is one the module offers and bound to no other module. */
  lemma ShortFormReadIff(origin: Bytes, t: Tables)
    ensures ReadFlattened([Rec(0x0B12, origin)], t).Some? <==>
      && origin in t.known && origin in t.groups
      && forall k :: k in t.groups[origin] ==>
           k in t.known[origin] && (k in t.exported ==> t.exported[k] == origin)
  {
    var recs := [Rec(0x0B12, origin)];
    assert recs[1..] == [];
    assert forall u: Tables :: ReadFlattened([], u) == Some((u, []));
  }

  lemma GroupIsRefused(origin: Bytes, group: seq<Export>, embedded: set<Key>, t: Tables, tail: seq<Rec>)
    requires origin in t.groups && origin in t.known && embedded == t.groups[origin]
    requires (forall e :: e in group ==> e.origin == origin) && !NoConflicts(t.exported, group)
    ensures ReadFlattened(GroupRecs(origin, group, embedded) + tail, t) == None
  {
    var x :| x in group && Conflicts(t.exported, x.key, x.origin);
    if embedded == Keys(group) {
      assert x.key in t.groups[origin] && Conflicts(t.exported, x.key, origin);
    } else {
      var begin, end, members := Rec(EXPORT_MODULE_BEGIN, origin), Rec(EXPORT_MODULE_END, []), MemberRecs(group);
      Regroup([begin], members, [end], tail);
      MembersReadIff(group, origin, t.exported, t.known[origin], tail);
      assert ([begin] + (members + ([end] + tail)))[1..] == members + ([end] + tail);
    }
  }

  ghost predicate Embedded(origins: seq<Bytes>, exports: seq<Export>, embedded: map<Bytes, set<Key>>, t: Tables) {
    && (forall o :: o in origins ==> o in embedded && o in t.groups && o in t.known && embedded[o] == t.groups[o])
    && forall e :: e in exports && e.origin in origins ==> e.key in t.known[e.origin]
  }

  ghost predicate HasConflict(origins: seq<Bytes>, exports: seq<Export>, scope: Scope) {
    exists e :: e in exports && e.origin in origins && Conflicts(scope, e.key, e.origin)
  }

  lemma ConflictRemains(origins: seq<Bytes>, exports: seq<Export>, scope: Scope)
    requires UniqueKeys(exports) && origins != [] && HasConflict(origins, exports, scope)
    requires NoConflicts(scope, From(exports, origins[0]))
    ensures HasConflict(origins[1..], exports, AddAll(scope, origins[0], Keys(From(exports, origins[0]))))
  {
    var o := origins[0];
    var e :| e in exports && e.origin in origins && Conflicts(scope, e.key, e.origin);
    assert e.origin != o && e.origin in origins[1..];
    AddAllConflicts(scope, exports, o, e);
  }

  /** Export records with a conflict are refused. */
  lemma {:induction false} GroupsAreRefused(origins: seq<Bytes>, exports: seq<Export>, embedded: map<Bytes, set<Key>>,
                                            t: Tables, tail: seq<Rec>)
    requires UniqueKeys(exports) && Embedded(origins, exports, embedded, t) && HasConflict(origins, exports, t.exported)
    ensures ExportRecs(origins, exports, embedded).Some?
    ensures ReadFlattened(ExportRecs(origins, exports, embedded).value + tail, t) == None
    decreases |origins|
  {
    var o, rest := origins[0], origins[1..];
    var group := From(exports, o);
    assert o in origins && forall x :: x in rest ==> x in origins;
    RecsExist(rest, exports, embedded);
    var recs := ExportRecs(rest, exports, embedded).value;
    ConcatAssociative(GroupRecs(o, group, embedded[o]), recs, tail);
    if NoConflicts(t.exported, group) {
      ConflictRemains(origins, exports, t.exported);
      GroupsAreRefused(rest, exports, embedded, t.(exported := AddAll(t.exported, o, Keys(group))), tail);
      GroupRead(o, group, embedded[o], t, recs + tail);
    } else {
      GroupIsRefused(o, group, embedded[o], t, recs + tail);
    }
  }

  lemma {:induction false} RecsExist(origins: seq<Bytes>, exports: seq<Export>, embedded: map<Bytes, set<Key>>)
    ensures ExportRecs(origins, exports, embedded).Some? <==> forall o :: o in origins ==> o in embedded
    decreases |origins|
  {
    if origins != [] {
      RecsExist(origins[1..], exports, embedded);
      assert forall x :: x in origins <==> x == origins[0] || x in origins[1..];
    }
  }

  /** The flattened part is accepted exactly when no exported name is already bound to another
      module. */
  lemma AcceptedIff(modules: seq<Module>, origins: seq<Bytes>, exports: seq<Export>, t: Tables, tail: seq<Rec>)
    requires DistinctNames(modules) && forall m :: m in modules ==> Complete(m)
    requires UniqueKeys(exports) && NoDuplicates(origins) && forall e :: e in exports ==> IsEmbedded(modules, e)
    requires forall o :: o in origins <==> exists e :: e in exports && e.origin == o
    requires tail == [] || !IsFlattened(tail[0].id)
    ensures FlattenedRecs(modules, origins, exports).Some?
    ensures ReadFlattened(FlattenedRecs(modules, origins, exports).value + tail, t).Some?
      <==> forall e :: e in exports && e.key in t.exported ==> t.exported[e.key] == e.origin
  {
    if NoConflicts(t.exported, exports) {
      ExportsRoundTrip(modules, origins, exports, t, tail);
    } else {
      ConflictIsRefused(modules, origins, exports, t, tail);
    }
  }

  lemma ConflictIsRefused(modules: seq<Module>, origins: seq<Bytes>, exports: seq<Export>, t: Tables, tail: seq<Rec>)
    requires DistinctNames(modules) && forall m :: m in modules ==> Complete(m)
    requires UniqueKeys(exports) && forall e :: e in exports ==> IsEmbedded(modules, e)
    requires forall o :: o in origins <==> exists e :: e in exports && e.origin == o
    requires !NoConflicts(t.exported, exports)
    ensures FlattenedRecs(modules, origins, exports).Some?
    ensures ReadFlattened(FlattenedRecs(modules, origins, exports).value + tail, t) == None
  {
    var embedded := EmbeddedNames(modules);
    EmbeddedNamesAre(modules);
    ExportedAreEmbedded(modules, origins, exports, embedded);
    RecsExist(origins, exports, embedded);
    var recs := ExportRecs(origins, exports, embedded).value;
    var u := ModulesRead(modules, t, recs + tail);
    ConcatAssociative(ModulesRecs(modules), recs, tail);
    KnownAfter(modules, origins, exports, embedded, t, u);
    var e :| e in exports && Conflicts(t.exported, e.key, e.origin);
    assert e.origin in origins && HasConflict(origins, exports, u.exported);
    GroupsAreRefused(origins, exports, embedded, u, tail);
  }

  lemma ExportedAreEmbedded(modules: seq<Module>, origins: seq<Bytes>, exports: seq<Export>,
                            embedded: map<Bytes, set<Key>>)
    requires forall e :: e in exports ==> IsEmbedded(modules, e)
    requires forall o :: o in origins <==> exists e :: e in exports && e.origin == o
    requires forall m :: m in modules ==> m.name in embedded && embedded[m.name] == Names(m.decls)
    ensures forall o :: o in origins ==> o in embedded
  {
    forall o | o in origins ensures o in embedded {
      var e :| e in exports && e.origin == o;
      var m :| m in modules && m.name == e.origin && e.key in Names(m.decls);
    }
  }

  lemma KnownAfter(modules: seq<Module>, origins: seq<Bytes>, exports: seq<Export>, embedded: map<Bytes, set<Key>>,
                   t: Tables, u: Tables)
    requires KnowsModules(t, u, modules) && forall e :: e in exports ==> IsEmbedded(modules, e)
    requires forall o :: o in origins <==> exists e :: e in exports && e.origin == o
    requires forall m :: m in modules ==> m.name in embedded && embedded[m.name] == Names(m.decls)
    ensures Embedded(origins, exports, embedded, u)
  {
    forall e | e in exports
      ensures e.origin in embedded && e.origin in u.groups && e.origin in u.known
      ensures embedded[e.origin] == u.groups[e.origin] && e.key in u.known[e.origin]
    {
      var m :| m in modules && m.name == e.origin && e.key in Names(m.decls);
    }
  }
}
