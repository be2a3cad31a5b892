/** From the flattening to the reader: what the closure embeds is what the export groups need,
    so every re-exported symbol survives the interface. */
module InterfaceExports {
  import opened Common
  import opened DqmBytes
  import opened DqmRecords
  import opened EmbeddedModules
  import opened ExportGroups
  import F = Flattening
  import ModuleOrder

  /** The re-exported symbols belong to other modules, and are found by name. */
  ghost predicate AreOffered(w: F.World, exported: seq<F.Node>) {
    forall n :: n in exported ==> n in w.nodes && w.IsForeign(n) && w.nodes[n].kind != F.WrapperType
  }

  /** Flattening embeds every re-exported symbol in its origin module. */
  lemma ExportedAreEmbedded(w: F.World, own: seq<F.Node>, exported: seq<F.Node>)
    requires w.Valid() && AreOffered(w, exported) && forall n :: n in own || n in exported ==> n in w.nodes
    requires !F.Flatten(w, own, exported).failed
    ensures var t := F.Flatten(w, own, exported);
      forall n :: n in exported ==>
        w.nodes[n].owner.value in t.modules && n in t.modules[w.nodes[n].owner.value].declarations
  {
    F.FlattenIsExact(w, own, exported);
    var t := F.Flatten(w, own, exported);
    forall n | n in exported
      ensures w.nodes[n].owner.value in t.modules && n in t.modules[w.nodes[n].owner.value].declarations
    {
      F.ReachedItself(w, own + exported, n);
      assert n in F.Declarations(t, w.nodes[n].owner.value);
    }
  }

  /** Each embedded module's declarations, by the symbols they stand for. */
  ghost predicate Describes(t: F.State, symbols: map<F.Node, Key>, decls: map<Bytes, seq<Declaration>>) {
    && decls.Keys == t.modules.Keys
    && forall m :: m in decls ==>
         && Complete(Module(m, decls[m]))
         && t.modules[m].declarations <= symbols.Keys
         && Names(decls[m]) == set x | x in t.modules[m].declarations :: symbols[x]
  }

  ghost predicate Offers(w: F.World, n: F.Node, symbol: Key, e: Export) {
    n in w.nodes && symbol == e.key && w.nodes[n].owner == Some(e.origin)
  }

  /** What collecting the exports gives: one for each symbol, from the module that owns it. */
  ghost predicate AreCollected(w: F.World, exported: seq<F.Node>, symbols: map<F.Node, Key>, exports: seq<Export>) {
    && UniqueKeys(exports)
    && forall e :: e in exports ==>
         exists n :: n in exported && n in symbols && Offers(w, n, symbols[n], e)
  }

  function InOrder(order: seq<Bytes>, decls: map<Bytes, seq<Declaration>>): seq<Module>
    requires forall m :: m in order ==> m in decls
  {
    if order == [] then [] else [Module(order[0], decls[order[0]])] + InOrder(order[1..], decls)
  }

  lemma {:induction false} InOrderAt(order: seq<Bytes>, decls: map<Bytes, seq<Declaration>>)
    requires forall m :: m in order ==> m in decls
    ensures |InOrder(order, decls)| == |order|
    ensures forall i :: 0 <= i < |order| ==> InOrder(order, decls)[i] == Module(order[i], decls[order[i]])
    decreases |order|
  {
    if order != [] {
      InOrderAt(order[1..], decls);
      assert forall i :: 0 < i < |order| ==> InOrder(order, decls)[i] == InOrder(order[1..], decls)[i - 1];
    }
  }

  lemma InOrderIs(order: seq<Bytes>, decls: map<Bytes, seq<Declaration>>)
    requires NoDuplicates(order) && forall m :: m in order ==> m in decls
    ensures forall x: Module :: x in InOrder(order, decls) <==> x.name in order && x.decls == decls[x.name]
    ensures DistinctNames(InOrder(order, decls))
  {
    InOrderAt(order, decls);
    var modules := InOrder(order, decls);
    forall x: Module | x.name in order && x.decls == decls[x.name] ensures x in modules {
      var i :| 0 <= i < |order| && order[i] == x.name;
      assert modules[i] == x;
    }
  }

  /** The recorded dependencies of the embedded modules. */
  ghost predicate IsGraphOf(g: ModuleOrder.Graph, t: F.State) {
    g.Keys == t.modules.Keys && forall m, d :: m in g ==> (d in g[m] <==> d in t.modules[m].dependencies)
  }

  lemma CollectedAreEmbedded(w: F.World, exported: seq<F.Node>, t: F.State, symbols: map<F.Node, Key>,
                             decls: map<Bytes, seq<Declaration>>, modules: seq<Module>, exports: seq<Export>)
    requires AreOffered(w, exported) && Describes(t, symbols, decls) && AreCollected(w, exported, symbols, exports)
    requires forall n :: n in exported ==>
      w.nodes[n].owner.value in t.modules && n in t.modules[w.nodes[n].owner.value].declarations
    requires forall m :: m in decls ==> Module(m, decls[m]) in modules
    ensures forall e :: e in exports ==> IsEmbedded(modules, e)
  {
    forall e | e in exports ensures IsEmbedded(modules, e) {
      var n :| n in exported && n in symbols && Offers(w, n, symbols[n], e);
      var m := Module(e.origin, decls[e.origin]);
      assert m in modules && e.key in Names(m.decls);
    }
  }

  /** When flattening succeeds and the dependencies have no cycle, the flattened part is
      written, and reading it gives exactly the re-exported symbols, bound to their modules,
      whatever the reader knew of these modules before. */
  lemma ReexportsSurvive(w: F.World, own: seq<F.Node>, exported: seq<F.Node>, symbols: map<F.Node, Key>,
                         decls: map<Bytes, seq<Declaration>>, g: ModuleOrder.Graph, names: seq<Bytes>,
                         origins: seq<Bytes>, exports: seq<Export>, known: Tables, tail: seq<Rec>)
    requires w.Valid() && AreOffered(w, exported) && forall n :: n in own || n in exported ==> n in w.nodes
    requires var t := F.Flatten(w, own, exported);
      !t.failed && Describes(t, symbols, decls) && IsGraphOf(g, t)
    requires ModuleOrder.IsListing(g, names) && !ModuleOrder.HasCycle(g)
    requires AreCollected(w, exported, symbols, exports) && NoConflicts(known.exported, exports)
    requires forall o :: o in origins <==> exists e :: e in exports && e.origin == o
    requires tail == [] || !IsFlattened(tail[0].id)
    ensures var order := ModuleOrder.VisitAll(g, names, ModuleOrder.START).result;
      && (forall m :: m in order ==> m in decls)
      && var recs := FlattenedRecs(InOrder(order, decls), origins, exports);
         && recs.Some? && ReadFlattened(recs.value + tail, known).Some?
         && var r := ReadFlattened(recs.value + tail, known).value;
            && r.1 == tail
            && forall k, o :: Binds(r.0.exported, k, o) <==> Binds(known.exported, k, o) || Export(k, o) in exports
  {
    var t := F.Flatten(w, own, exported);
    F.GraphIsClosed(w, own, exported, g);
    ModuleOrder.OrderIsRight(g, names);
    var order := ModuleOrder.VisitAll(g, names, ModuleOrder.START).result;
    var modules := InOrder(order, decls);
    OrderIsComplete(t, symbols, decls, order, modules);
    ExportedAreEmbedded(w, own, exported);
    CollectedAreEmbedded(w, exported, t, symbols, decls, modules, exports);
    ExportsRoundTrip(modules, origins, exports, known, tail);
  }

  lemma OrderIsComplete(t: F.State, symbols: map<F.Node, Key>, decls: map<Bytes, seq<Declaration>>, order: seq<Bytes>,
                        modules: seq<Module>)
    requires Describes(t, symbols, decls) && NoDuplicates(order) && forall m :: m in order <==> m in decls
    requires modules == InOrder(order, decls)
    ensures DistinctNames(modules) && (forall m :: m in modules ==> Complete(m))
    ensures forall m :: m in decls ==> Module(m, decls[m]) in modules
  {
    InOrderIs(order, decls);
    forall m | m in modules ensures Complete(m) {
      assert m == Module(m.name, decls[m.name]);
    }
  }
}
