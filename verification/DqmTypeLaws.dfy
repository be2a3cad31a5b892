/** Which types may be owned, which are written as a name, and the records themselves, said
    over paths of type objects and over literal bytes. */
module DqmTypeLaws {
  import opened Common
  import opened DqmBytes
  import opened DqmRecords
  import opened DqmTypes
  import opened DqmIf
  import opened DqmTypeSpec

  // ----- what may be owned

  /** The path follows aliases to their targets and ownership wrappers to what they wrap. */
  ghost predicate IsWrapperChain(t: Types, path: seq<TypeRef>) {
    && path != []
    && (forall k {:trigger path[k]} :: 0 <= k < |path| ==> path[k] < |t.nodes|)
    && forall k {:trigger path[k]} :: 0 <= k < |path| - 1 ==>
         || (t.nodes[path[k]].Alias? && t.nodes[path[k]].target == path[k + 1])
         || t.nodes[path[k]] == Derived(AutoFreeOf, path[k + 1])
  }

  /** The end of a chain that cannot go on, and is an object or a pointer. */
  predicate IsObjectOrPointer(node: TypeNode) {
    match node
    case Named(_, _, kind) => kind == ObjectKind || kind == OpaquePointerKind
    case NilPointer => true
    case Alias(_, _, _) => false
    case Derived(how, _) => how == PointerTo
  }

  predicate GoesOn(node: TypeNode) {
    node.Alias? || (node.Derived? && node.how == AutoFreeOf)
  }

  lemma {:induction false} ChainDecides(t: Types, path: seq<TypeRef>)
    requires t.Valid() && IsWrapperChain(t, path) && !GoesOn(t.nodes[path[|path| - 1]])
    ensures t.CanBeOwned(path[0]) <==> IsObjectOrPointer(t.nodes[path[|path| - 1]])
    decreases |path|
  {
    if |path| > 1 {
      var rest := path[1..];
      assert forall k :: 0 <= k < |rest| ==> rest[k] == path[k + 1];
      assert path[0 + 1] == rest[0];
      ChainDecides(t, rest);
    }
  }

  lemma {:induction false} ChainExists(t: Types, r: TypeRef) returns (path: seq<TypeRef>)
    requires t.Valid() && r < |t.nodes|
    ensures IsWrapperChain(t, path) && path[0] == r && !GoesOn(t.nodes[path[|path| - 1]])
    decreases r
  {
    if !GoesOn(t.nodes[r]) {
      path := [r];
    } else {
      var next := if t.nodes[r].Alias? then t.nodes[r].target else t.nodes[r].base;
      var rest := ChainExists(t, next);
      path := [r] + rest;
      assert forall k :: 0 < k < |path| ==> path[k] == rest[k - 1];
    }
  }

  /** The path follows derivations to their base types. */
  ghost predicate IsDerivation(t: Types, path: seq<TypeRef>) {
    && path != []
    && (forall k {:trigger path[k]} :: 0 <= k < |path| ==> path[k] < |t.nodes|)
    && forall k {:trigger path[k]} :: 0 <= k < |path| - 1 ==>
         t.nodes[path[k]].Derived? && t.nodes[path[k]].base == path[k + 1]
  }

  /** Wherever `r` is built over an ownership wrapper, the chain below the wrapper ends in an
      object or a pointer. */
  ghost predicate OwnsObjectsAndPointers(t: Types, r: TypeRef) {
    forall path, chain :: EndsInChain(t, r, path, chain) ==> IsObjectOrPointer(t.nodes[chain[|chain| - 1]])
  }

  ghost predicate EndsInChain(t: Types, r: TypeRef, path: seq<TypeRef>, chain: seq<TypeRef>) {
    && IsDerivation(t, path) && path[0] == r && IsWrapperChain(t, chain) && !GoesOn(t.nodes[chain[|chain| - 1]])
    && t.nodes[path[|path| - 1]] == Derived(AutoFreeOf, chain[0])
  }

  lemma {:induction false} OwnedAlong(t: Types, r: TypeRef, path: seq<TypeRef>, chain: seq<TypeRef>)
    requires t.Valid() && r < |t.nodes| && OwnsOwnable(t, r) && EndsInChain(t, r, path, chain)
    ensures IsObjectOrPointer(t.nodes[chain[|chain| - 1]])
    decreases |path|
  {
    if |path| == 1 {
      ChainDecides(t, chain);
    } else {
      var rest := path[1..];
      assert forall k :: 0 <= k < |rest| ==> rest[k] == path[k + 1];
      assert path[0 + 1] == rest[0];
      OwnedAlong(t, rest[0], rest, chain);
    }
  }

  lemma LongerPath(t: Types, r: TypeRef, path: seq<TypeRef>, chain: seq<TypeRef>)
    requires r < |t.nodes| && t.nodes[r].Derived? && EndsInChain(t, t.nodes[r].base, path, chain)
    ensures EndsInChain(t, r, [r] + path, chain)
  {
    var longer := [r] + path;
    assert forall k :: 0 < k < |longer| ==> longer[k] == path[k - 1];
  }

  lemma {:induction false} OwnedFromPaths(t: Types, r: TypeRef)
    requires t.Valid() && r < |t.nodes| && OwnsObjectsAndPointers(t, r)
    ensures OwnsOwnable(t, r)
    decreases r
  {
    if t.nodes[r].Derived? {
      var b := t.nodes[r].base;
      forall path, chain | EndsInChain(t, b, path, chain) ensures IsObjectOrPointer(t.nodes[chain[|chain| - 1]]) {
        LongerPath(t, r, path, chain);
      }
      OwnedFromPaths(t, b);
      if t.nodes[r].how == AutoFreeOf {
        var chain := ChainExists(t, b);
        assert EndsInChain(t, r, [r], chain);
        ChainDecides(t, chain);
      }
    }
  }

  lemma OwnedIff(t: Types, r: TypeRef)
    requires t.Valid() && r < |t.nodes|
    ensures OwnsOwnable(t, r) <==> OwnsObjectsAndPointers(t, r)
  {
    if OwnsOwnable(t, r) {
      forall path, chain | EndsInChain(t, r, path, chain) ensures IsObjectOrPointer(t.nodes[chain[|chain| - 1]]) {
        OwnedAlong(t, r, path, chain);
      }
    } else if OwnsObjectsAndPointers(t, r) {
      OwnedFromPaths(t, r);
    }
  }

  /** A written type comes back, the very same object, exactly when its names fit a record and
      every ownership wrapper in it leads through aliases and wrappers to an object, an opaque
      or typed pointer, or nil. */
  lemma ComesBackByChains(t: Types, r: TypeRef, names: Names, tail: seq<Rec>)
    requires t.Valid() && r < |t.nodes| && WriteSpec(t, r).Ok?
    requires NamesAreLeaves(names, t) && NamesReach(names, t, r)
    ensures var recs := WriteSpec(t, r).value;
      ReadSpec(t, names, recs + tail) == Some((t, r, [recs[|recs| - 1]] + tail))
      <==> NamesFit(ShapeOf(t, r)) && OwnsObjectsAndPointers(t, r)
  {
    SameTypeIff(t, r, names, tail);
    OwnedIff(t, r);
  }

  /** One wrapper over a chain: it comes back exactly when the chain ends in an object or a
      pointer. In particular an owned object type does. */
  lemma OwnedTypeComesBackIff(t: Types, r: TypeRef, chain: seq<TypeRef>, names: Names, tail: seq<Rec>)
    requires t.Valid() && r < |t.nodes| && WriteSpec(t, r).Ok? && NamesFit(ShapeOf(t, r))
    requires NamesAreLeaves(names, t) && NamesReach(names, t, r)
    requires IsWrapperChain(t, chain) && !GoesOn(t.nodes[chain[|chain| - 1]])
    requires t.nodes[r] == Derived(AutoFreeOf, chain[0]) && !t.nodes[chain[0]].Derived?
    ensures var recs, end := WriteSpec(t, r).value, t.nodes[chain[|chain| - 1]];
      ReadSpec(t, names, recs + tail) == Some((t, r, [recs[|recs| - 1]] + tail))
      <==> (end.Named? && (end.kind == ObjectKind || end.kind == OpaquePointerKind))
           || end.NilPointer? || (end.Derived? && end.how == PointerTo)
  {
    SameTypeIff(t, r, names, tail);
    ChainDecides(t, chain);
  }

  // ----- what is written as a name

  /** The path follows aliases only. */
  ghost predicate IsAliasChain(t: Types, path: seq<TypeRef>) {
    && path != []
    && (forall k {:trigger path[k]} :: 0 <= k < |path| ==> path[k] < |t.nodes|)
    && forall k {:trigger path[k]} :: 0 <= k < |path| - 1 ==>
         t.nodes[path[k]].Alias? && t.nodes[path[k]].target == path[k + 1]
  }

  lemma {:induction false} AliasChainDecides(t: Types, path: seq<TypeRef>)
    requires t.Valid() && IsAliasChain(t, path) && !t.nodes[path[|path| - 1]].Alias?
    ensures var end := t.nodes[path[|path| - 1]];
      t.HasGroupKind(path[0]) <==> !end.Named? || end.kind == OpaquePointerKind
    decreases |path|
  {
    if |path| > 1 {
      var rest := path[1..];
      assert forall k :: 0 <= k < |rest| ==> rest[k] == path[k + 1];
      assert path[0 + 1] == rest[0];
      AliasChainDecides(t, rest);
    }
  }

  /** A spec is a single name record for a named type, and for an alias behind which a named
      type stands that is no pointer; everything else is a bracketed group. */
  lemma OneRecordIff(t: Types, path: seq<TypeRef>)
    requires t.Valid() && IsAliasChain(t, path) && !t.nodes[path[|path| - 1]].Alias? && WriteSpec(t, path[0]).Ok?
    ensures var recs, end := WriteSpec(t, path[0]).value, t.nodes[path[|path| - 1]];
      && (|recs| == 1 <==> end.Named? && (|path| == 1 || end.kind != OpaquePointerKind))
      && (|recs| == 1 ==> recs[0].id == 0x8000 || recs[0].id == 0x8004)
      && (|recs| != 1 ==> recs[0] == Rec(0x8001, []) && recs[|recs| - 1] == Rec(0x80FF, []))
  {
    AliasChainDecides(t, path);
    if |path| > 1 {
      assert t.nodes[path[0]].Alias?;
    }
  }

  // ----- arrays and limits

  /** Arrays are written up to the largest signed 32-bit length, and no longer. */
  lemma ArrayIsWrittenIff(t: Types, r: TypeRef, n: U32, b: TypeRef)
    requires t.Valid() && r < |t.nodes| && t.nodes[r] == Derived(ArrayOf(n), b)
    ensures WriteSpec(t, r).Ok? <==> WriteInner(t, b).Ok? && n <= 2147483647
  {
  }

  /** Likewise they are read: four little-endian bytes below 2^31. */
  lemma ArrayIsOpenedIff(data: Bytes)
    ensures OpenedBy(Rec(0x8010, data)).Some? <==> |data| == 4 && data[3] < 0x80
    ensures |data| == 4 && data[3] < 0x80 ==>
      var n := data[0] as int + 0x100 * data[1] as int + 0x1_0000 * data[2] as int + 0x100_0000 * data[3] as int;
      OpenedBy(Rec(0x8010, data)) == Some(ArrayOf(n))
  {
  }

  /** An alias declaration is the spec of its target between two records. */
  lemma AliasSpelledOut(t: Types, r: TypeRef)
    requires t.Valid() && r < |t.nodes| && t.nodes[r].Alias? && WriteAliasDecl(t, r).Ok?
    ensures WriteAliasDecl(t, r).value
         == [Rec(0x0200, t.nodes[r].name)] + WriteSpec(t, t.nodes[r].target).value + [Rec(0x02FF, [])]
  {
  }

  // ----- the records of each kind

  /** The records for every kind of derivation over a name, spelled out. */
  lemma SpelledOut(name: Bytes, home: Bytes)
    ensures InnerRecs(Leaf([], name)) == [Rec(0x8002, name)]
    ensures home != [] ==> InnerRecs(Leaf(home, name)) == [Rec(0x8004, home + [0] + name)]
    ensures InnerRecs(Over(PointerTo, Leaf([], name))) == [Rec(0x8003, []), Rec(0x8002, name)]
    ensures InnerRecs(Over(ArrayOf(300), Leaf([], name)))
         == [Rec(0x8010, [44, 1, 0, 0]), Rec(0x8002, name), Rec(0x801F, [])]
    ensures InnerRecs(Over(SliceOf, Leaf([], name))) == [Rec(0x8020, []), Rec(0x8002, name), Rec(0x802F, [])]
    ensures InnerRecs(Over(DynArrayOf, Leaf([], name))) == [Rec(0x8030, []), Rec(0x8002, name), Rec(0x803F, [])]
    ensures InnerRecs(Over(AutoFreeOf, Leaf([], name))) == [Rec(0x8040, []), Rec(0x8002, name), Rec(0x804F, [])]
  {
    assert PutU32(300) == [44, 1, 0, 0];
  }
}
