/** The compiler's type objects. A type is named by its index in the order of creation,
    which stands for the pointer to it, so two types are the same object exactly when
    their indices are equal. */
module DqmTypes {
  import opened Common
  import opened DqmBytes

  type TypeRef = nat

  /** What matters here about a type that is not derived from another one. */
  datatype NamedKind = ObjectKind | OpaquePointerKind | OtherKind

  /** The five ways to derive a type from another one. */
  datatype Derivation = PointerTo | ArrayOf(length: U32) | SliceOf | DynArrayOf | AutoFreeOf

  datatype TypeNode =
    | Named(home: Bytes, name: Bytes, kind: NamedKind)
    | NilPointer
    | Alias(home: Bytes, name: Bytes, target: TypeRef)
    | Derived(how: Derivation, base: TypeRef)
  {
    /** The type this one refers to exists before index `i`. */
    predicate RefersBelow(i: nat) {
      match this
      case Alias(_, _, t) => t < i
      case Derived(_, b) => b < i
      case _ => true
    }

    /** ResolveAlias looks through it. */
    predicate IsTransparent() {
      Alias? || (Derived? && how == AutoFreeOf)
    }
  }

  /** All types, and the cache fields of each: slots[Derived(PointerTo, b)] is the ptr_type
      field of b, slots[Derived(ArrayOf(n), b)] the entry n of its array_types, and so on. */
  datatype Types = Types(nodes: seq<TypeNode>, slots: map<TypeNode, TypeRef>)
  {
    /** Types refer to older types, every derived type sits in its slot, and every slot
        holds the type it is for. */
    ghost predicate Valid() {
      && (forall i {:trigger nodes[i]} :: 0 <= i < |nodes| ==>
           nodes[i].RefersBelow(i) && (nodes[i].Derived? ==> nodes[i] in slots && slots[nodes[i]] == i))
      && (forall d {:trigger d in slots} :: d in slots ==>
           d.Derived? && slots[d] < |nodes| && nodes[slots[d]] == d)
    }

    /** Everything of `this` is still there in `later`, at the same place. */
    ghost predicate KeptIn(later: Types) {
      && nodes <= later.nodes
      && forall d {:trigger d in slots} :: d in slots ==> d in later.slots && later.slots[d] == slots[d]
    }

    /** The lazily filled caches: the derived type in its slot, created when the slot is empty. */
    function Derive(how: Derivation, base: TypeRef): (r: (Types, TypeRef))
      requires Valid() && base < |nodes|
      ensures r.0.Valid() && KeptIn(r.0) && r.1 < |r.0.nodes| && r.0.nodes[r.1] == Derived(how, base)
    {
      var d := Derived(how, base);
      if d in slots then (this, slots[d])
      else (Types(nodes + [d], slots[d := |nodes|]), |nodes|)
    }

    /** True when the type behind all aliases and ownership wrappers is an object or a pointer. */
    predicate CanBeOwned(r: TypeRef)
      requires Valid() && r < |nodes|
      decreases r
    {
      match nodes[r]
      case Named(_, _, k) => k == ObjectKind || k == OpaquePointerKind
      case NilPointer => true
      case Alias(_, _, t) => CanBeOwned(t)
      case Derived(how, b) => if how == AutoFreeOf then CanBeOwned(b) else how == PointerTo
    }

    /** The kind field says pointer, array, slice, dynamic array or autofree. An alias copies
        the kind of its target. */
    predicate HasGroupKind(r: TypeRef)
      requires Valid() && r < |nodes|
      decreases r
    {
      match nodes[r]
      case Named(_, _, k) => k == OpaquePointerKind
      case Alias(_, _, t) => HasGroupKind(t)
      case _ => true
    }
  }

  /** The type objects as the compiler changes them: only by filling cache fields. */
  class TypeStore {
    var nodes: seq<TypeNode>
    var slots: map<TypeNode, TypeRef>

    ghost function View(): Types
      reads this
    {
      Types(nodes, slots)
    }

    /** GetPointerType, GetArrayType, GetSliceType, GetDynArrayType and GetAutoFreeType. */
    method GetDerived(how: Derivation, base: TypeRef) returns (r: TypeRef)
      requires View().Valid() && base < |nodes|
      modifies this
      ensures (View(), r) == old(View()).Derive(how, base)
    {
      var d := Derived(how, base);
      if d in slots {
        return slots[d];
      }
      r := |nodes|;
      nodes := nodes + [d];
      slots := slots[d := r];
    }

    /** Follows ResolveAlias and looks at the kind of the result. */
    method CanBeOwned(t: TypeRef) returns (b: bool)
      requires View().Valid() && t < |nodes|
      ensures b == View().CanBeOwned(t)
    {
      var r: TypeRef := t;
      while nodes[r].IsTransparent()
        invariant r < |nodes| && View().CanBeOwned(t) == View().CanBeOwned(r)
        decreases r
      {
        r := if nodes[r].Alias? then nodes[r].target else nodes[r].base;
      }
      match nodes[r]
      case Named(_, _, k) => b := k == ObjectKind || k == OpaquePointerKind;
      case NilPointer => b := true;
      case Alias(_, _, _) => b := false;
      case Derived(how, _) => b := how == PointerTo;
    }
  }

  // ----- shapes

  /** A type as it looks from outside: names at the leaves, derivations above them. */
  datatype Shape =
    | Leaf(home: Bytes, name: Bytes)
    | Over(how: Derivation, inner: Shape)

  function ShapeOf(t: Types, r: TypeRef): Shape
    requires t.Valid() && r < |t.nodes|
    decreases r
  {
    match t.nodes[r]
    case Named(h, n, _) => Leaf(h, n)
    case NilPointer => Leaf([], [])
    case Alias(h, n, _) => Leaf(h, n)
    case Derived(how, b) => Over(how, ShapeOf(t, b))
  }

  /** Which types the names of the reading module stand for; the home of a name is the
      module it is qualified with, or nothing. */
  type Names = map<(Bytes, Bytes), TypeRef>

  ghost predicate NamesIn(names: Names, t: Types) {
    forall k :: k in names ==> names[k] < |t.nodes|
  }

  /** The type of a shape, built from the leaf up through the caches. There is none when
      the name is unknown or something is owned that is neither object nor pointer. */
  function Build(t: Types, names: Names, s: Shape): (r: Option<(Types, TypeRef)>)
    requires t.Valid() && NamesIn(names, t)
    ensures r.Some? ==> r.value.0.Valid() && t.KeptIn(r.value.0) && r.value.1 < |r.value.0.nodes|
    decreases s
  {
    match s
    case Leaf(h, n) => if (h, n) in names then Some((t, names[(h, n)])) else None
    case Over(how, inner) =>
      match Build(t, names, inner)
      case None => None
      case Some((u, b)) => if how == AutoFreeOf && !u.CanBeOwned(b) then None else Some(u.Derive(how, b))
  }

  /** The leaf below `r` is the type its name stands for. */
  ghost predicate NamesReach(names: Names, t: Types, r: TypeRef)
    requires t.Valid() && r < |t.nodes|
    decreases r
  {
    match t.nodes[r]
    case Named(h, n, _) => (h, n) in names && names[(h, n)] == r
    case Alias(h, n, _) => (h, n) in names && names[(h, n)] == r
    case NilPointer => false
    case Derived(_, b) => NamesReach(names, t, b)
  }

  /** Only objects and pointers are owned at and below `r`. */
  predicate OwnsOwnable(t: Types, r: TypeRef)
    requires t.Valid() && r < |t.nodes|
    decreases r
  {
    t.nodes[r].Derived? ==>
      OwnsOwnable(t, t.nodes[r].base) && (t.nodes[r].how == AutoFreeOf ==> t.CanBeOwned(t.nodes[r].base))
  }

  /** Building the shape of an existing type finds that very type and creates nothing;
      it fails exactly when the type owns something it may not. */
  lemma {:induction false} BuildFindsExisting(t: Types, names: Names, r: TypeRef)
    requires t.Valid() && NamesIn(names, t) && r < |t.nodes| && NamesReach(names, t, r)
    ensures Build(t, names, ShapeOf(t, r)) == if OwnsOwnable(t, r) then Some((t, r)) else None
    decreases r
  {
    if t.nodes[r].Derived? {
      BuildFindsExisting(t, names, t.nodes[r].base);
    }
  }

  /** Each name stands for a leaf that bears it. */
  ghost predicate NamesAreLeaves(names: Names, t: Types) {
    forall k :: k in names ==>
      && names[k] < |t.nodes|
      && (t.nodes[names[k]].Named? || t.nodes[names[k]].Alias?)
      && (t.nodes[names[k]].home, t.nodes[names[k]].name) == k
  }

  lemma {:induction false} ShapeIsKept(t: Types, u: Types, r: TypeRef)
    requires t.Valid() && u.Valid() && t.KeptIn(u) && r < |t.nodes|
    ensures ShapeOf(u, r) == ShapeOf(t, r) && u.CanBeOwned(r) == t.CanBeOwned(r)
    decreases r
  {
    assert u.nodes[r] == t.nodes[r];
    match t.nodes[r]
    case Derived(_, b) => ShapeIsKept(t, u, b);
    case Alias(_, _, a) => ShapeIsKept(t, u, a);
    case _ =>
  }

  lemma KeptBothWays(t: Types, u: Types)
    requires t.KeptIn(u) && u.KeptIn(t)
    ensures t == u
  {
    assert t.slots == u.slots;
  }

  /** A type that is already there is found at the same place in any later state. */
  lemma {:induction false} BuildIsStable(t: Types, u: Types, names: Names, s: Shape, r: TypeRef)
    requires t.Valid() && u.Valid() && t.KeptIn(u) && NamesIn(names, t) && Build(t, names, s) == Some((t, r))
    ensures Build(u, names, s) == Some((u, r))
    decreases s
  {
    if s.Over? {
      var (v, b) := Build(t, names, s.inner).value;
      KeptBothWays(t, v);
      BuildIsStable(t, u, names, s.inner, b);
      ShapeIsKept(t, u, b);
    }
  }

  lemma DeriveHasShape(v: Types, how: Derivation, b: TypeRef)
    requires v.Valid() && b < |v.nodes|
    ensures var (u, r) := v.Derive(how, b);
      ShapeOf(u, r) == Over(how, ShapeOf(v, b)) && u.CanBeOwned(b) == v.CanBeOwned(b) && u.Derive(how, b) == (u, r)
  {
    ShapeIsKept(v, v.Derive(how, b).0, b);
  }

  /** What is built has the shape asked for, and building it again gives the same object. */
  lemma {:induction false} BuildHasShape(t: Types, names: Names, s: Shape)
    requires t.Valid() && NamesAreLeaves(names, t) && Build(t, names, s).Some?
    ensures var (u, r) := Build(t, names, s).value;
      ShapeOf(u, r) == s && NamesIn(names, u) && Build(u, names, s) == Some((u, r))
    decreases s
  {
    if s.Over? {
      BuildHasShape(t, names, s.inner);
      var (v, b) := Build(t, names, s.inner).value;
      DeriveHasShape(v, s.how, b);
      BuildIsStable(v, v.Derive(s.how, b).0, names, s.inner, b);
    }
  }
}
