/** Type specs: the records written for a type, and what is read back from them. */
module DqmTypeSpec {
  import opened Common
  import opened DqmBytes
  import opened DqmRecords
  import opened DqmTypes
  import opened DqmIf
  import DqmContainer

  const SPEC_SIMPLE: RecId := 0x8000
  const SPEC_BEGIN: RecId := 0x8001
  const SPEC_NAME: RecId := 0x8002
  const SPEC_PTR: RecId := 0x8003
  const SPEC_QUALIFIED: RecId := 0x8004
  const SPEC_ARRAY_BEGIN: RecId := 0x8010
  const SPEC_ARRAY_END: RecId := 0x801F
  const SPEC_SLICE_BEGIN: RecId := 0x8020
  const SPEC_SLICE_END: RecId := 0x802F
  const SPEC_DYN_ARRAY_BEGIN: RecId := 0x8030
  const SPEC_DYN_ARRAY_END: RecId := 0x803F
  const SPEC_AUTOFREE_BEGIN: RecId := 0x8040
  const SPEC_AUTOFREE_END: RecId := 0x804F
  const SPEC_END: RecId := 0x80FF
  const TYPE_BEGIN: RecId := 0x0200
  const TYPE_END: RecId := 0x02FF

  const MAX_ARRAY_LENGTH: nat := 0x7FFF_FFFF

  function Empty(id: RecId): Rec {
    Rec(id, [])
  }

  /** The record that opens a derivation. */
  function Opening(how: Derivation): Rec {
    match how
    case PointerTo => Empty(SPEC_PTR)
    case ArrayOf(n) => Rec(SPEC_ARRAY_BEGIN, PutU32(n))
    case SliceOf => Empty(SPEC_SLICE_BEGIN)
    case DynArrayOf => Empty(SPEC_DYN_ARRAY_BEGIN)
    case AutoFreeOf => Empty(SPEC_AUTOFREE_BEGIN)
  }

  /** The records that close a derivation: a pointer has none. */
  function Closing(how: Derivation): seq<Rec> {
    match how
    case PointerTo => []
    case ArrayOf(_) => [Empty(SPEC_ARRAY_END)]
    case SliceOf => [Empty(SPEC_SLICE_END)]
    case DynArrayOf => [Empty(SPEC_DYN_ARRAY_END)]
    case AutoFreeOf => [Empty(SPEC_AUTOFREE_END)]
  }

  // ----- writing

  /** The reference to a named type: qualified when the type belongs to a named module. */
  function WriteTypeRef(id: RecId, home: Bytes, name: Bytes): Result<Rec, Complaint> {
    var r := if home != [] then Rec(SPEC_QUALIFIED, PairData(home, name)) else Rec(id, name);
    if home == [] && name == [] then Err(EmptyTypeName)
    else if Fits(r) then Ok(r)
    else Err(RecordTooLarge(r.id))
  }

  function WriteInner(t: Types, r: TypeRef): Result<seq<Rec>, Complaint>
    requires t.Valid() && r < |t.nodes|
    decreases r
  {
    match t.nodes[r]
    case Named(h, n, _) => One(WriteTypeRef(SPEC_NAME, h, n))
    case Alias(h, n, _) => One(WriteTypeRef(SPEC_NAME, h, n))
    case NilPointer => Err(NilPointerSpec)
    case Derived(how, b) =>
      if how.ArrayOf? && how.length > MAX_ARRAY_LENGTH then Err(ArrayTooLarge)
      else
        match WriteInner(t, b)
        case Err(e) => Err(e)
        case Ok(rs) => Ok([Opening(how)] + rs + Closing(how))
  }

  function One(r: Result<Rec, Complaint>): Result<seq<Rec>, Complaint> {
    match r
    case Ok(x) => Ok([x])
    case Err(e) => Err(e)
  }

  /** A single record for a name, a bracketed group for everything whose kind is derived. */
  function WriteSpec(t: Types, r: TypeRef): Result<seq<Rec>, Complaint>
    requires t.Valid() && r < |t.nodes|
  {
    var node := t.nodes[r];
    if node.NilPointer? then Err(NilPointerSpec)
    else if node.Named? then One(WriteTypeRef(SPEC_SIMPLE, node.home, node.name))
    else if t.HasGroupKind(r) then
      match WriteInner(t, r)
      case Err(e) => Err(e)
      case Ok(rs) => Ok([Empty(SPEC_BEGIN)] + rs + [Empty(SPEC_END)])
    else if node.Alias? then One(WriteTypeRef(SPEC_SIMPLE, node.home, node.name))
    else assert false; Err(NilPointerSpec)
  }

  // ----- reading

  /** The reader at a record: `recs[0]` is the current one. What comes back is the type and
      the reader at the last record of its spec. */
  function ReadSpec(t: Types, names: Names, recs: seq<Rec>): (r: Option<(Types, TypeRef, seq<Rec>)>)
    requires t.Valid() && NamesIn(names, t) && recs != []
    ensures r.Some? ==>
      && r.value.0.Valid() && t.KeptIn(r.value.0) && r.value.1 < |r.value.0.nodes|
      && 0 < |r.value.2| <= |recs|
    decreases |recs|
  {
    var rec := recs[0];
    if rec.id == SPEC_SIMPLE || rec.id == SPEC_NAME then
      if ([], rec.data) in names then Some((t, names[([], rec.data)], recs)) else None
    else if rec.id == SPEC_QUALIFIED then
      var pair := ReadPair(rec.data);
      if pair.Some? && pair.value in names then Some((t, names[pair.value], recs)) else None
    else if rec.id == SPEC_BEGIN then
      match ReadNext(t, names, recs)
      case None => None
      case Some((u, b, rest)) =>
        if |rest| > 1 && rest[1] == Empty(SPEC_END) then Some((u, b, rest[1..])) else None
    else
      match OpenedBy(rec)
      case None => None
      case Some(how) => Finish(t, how, ReadNext(t, names, recs))
  }

  /** The end of reading a derivation, once its base has been read. */
  function Finish(t: Types, how: Derivation, base: Option<(Types, TypeRef, seq<Rec>)>)
    : (r: Option<(Types, TypeRef, seq<Rec>)>)
    requires t.Valid()
    requires base.Some? ==>
      base.value.0.Valid() && t.KeptIn(base.value.0) && base.value.1 < |base.value.0.nodes| && base.value.2 != []
    ensures r.Some? ==>
      && r.value.0.Valid() && t.KeptIn(r.value.0) && r.value.1 < |r.value.0.nodes|
      && base.Some? && 0 < |r.value.2| <= |base.value.2|
  {
    match base
    case None => None
    case Some((u, b, rest)) =>
      if (how == AutoFreeOf && !u.CanBeOwned(b)) || Close(how, rest).None? then None
      else Some((u.Derive(how, b).0, u.Derive(how, b).1, Close(how, rest).value))
  }

  /** Advances by one record and reads a spec there. */
  function ReadNext(t: Types, names: Names, recs: seq<Rec>): (r: Option<(Types, TypeRef, seq<Rec>)>)
    requires t.Valid() && NamesIn(names, t) && recs != []
    ensures r.Some? ==>
      && r.value.0.Valid() && t.KeptIn(r.value.0) && r.value.1 < |r.value.0.nodes|
      && 0 < |r.value.2| < |recs|
    decreases |recs|, 0
  {
    if |recs| == 1 then None else ReadSpec(t, names, recs[1..])
  }

  /** The derivation that a record opens, if it is well formed. */
  function OpenedBy(rec: Rec): Option<Derivation> {
    if rec == Empty(SPEC_PTR) then Some(PointerTo)
    else if rec.id == SPEC_ARRAY_BEGIN && |rec.data| == 4 && U32At(rec.data, 0) <= MAX_ARRAY_LENGTH
    then Some(ArrayOf(U32At(rec.data, 0)))
    else if rec == Empty(SPEC_SLICE_BEGIN) then Some(SliceOf)
    else if rec == Empty(SPEC_DYN_ARRAY_BEGIN) then Some(DynArrayOf)
    else if rec == Empty(SPEC_AUTOFREE_BEGIN) then Some(AutoFreeOf)
    else None
  }

  /** Advances over the closing record of a derivation. */
  function Close(how: Derivation, recs: seq<Rec>): (r: Option<seq<Rec>>)
    requires recs != []
    ensures r.Some? ==> 0 < |r.value| <= |recs|
  {
    if how == PointerTo then Some(recs)
    else if |recs| > 1 && [recs[1]] == Closing(how) then Some(recs[1..])
    else None
  }

  // ----- the records of a shape

  /** The leaf is unqualified, or a pair of strings that a record can carry. */
  predicate NamesFit(s: Shape) {
    match s
    case Leaf(h, n) => h == [] || (n != [] && 0 !in h)
    case Over(_, inner) => NamesFit(inner)
  }

  /** The shape that the reader sees: a pair is cut at its first zero byte. */
  function AsRead(s: Shape): Option<Shape> {
    match s
    case Leaf(h, n) =>
      if h == [] then Some(s)
      else (match ReadPair(PairData(h, n)) case None => None case Some((a, b)) => Some(Leaf(a, b)))
    case Over(how, inner) =>
      match AsRead(inner)
      case None => None
      case Some(x) => Some(Over(how, x))
  }

  lemma {:induction false} AsReadIff(s: Shape)
    ensures AsRead(s) == Some(s) <==> NamesFit(s)
  {
    match s
    case Leaf(h, n) => PairRoundTrip(h, n);
    case Over(_, inner) => AsReadIff(inner);
  }

  function LeafRec(h: Bytes, n: Bytes): Rec {
    if h != [] then Rec(SPEC_QUALIFIED, PairData(h, n)) else Rec(SPEC_NAME, n)
  }

  function InnerRecs(s: Shape): (rs: seq<Rec>)
    ensures rs != []
  {
    match s
    case Leaf(h, n) => [LeafRec(h, n)]
    case Over(how, inner) => [Opening(how)] + InnerRecs(inner) + Closing(how)
  }

  predicate LengthsFit(s: Shape) {
    s.Over? ==> LengthsFit(s.inner) && (s.how.ArrayOf? ==> s.how.length <= MAX_ARRAY_LENGTH)
  }

  /** The records depend on the shape alone. */
  lemma {:induction false} InnerRecsOfShape(t: Types, r: TypeRef)
    requires t.Valid() && r < |t.nodes| && WriteInner(t, r).Ok?
    ensures WriteInner(t, r).value == InnerRecs(ShapeOf(t, r)) && LengthsFit(ShapeOf(t, r))
    ensures forall i :: 0 <= i < |WriteInner(t, r).value| ==> Fits(WriteInner(t, r).value[i])
    decreases r
  {
    if t.nodes[r].Derived? {
      InnerRecsOfShape(t, t.nodes[r].base);
    }
  }

  lemma OpeningOpens(how: Derivation)
    requires how.ArrayOf? ==> how.length <= MAX_ARRAY_LENGTH
    ensures OpenedBy(Opening(how)) == Some(how)
    ensures Opening(how).id !in {SPEC_SIMPLE, SPEC_NAME, SPEC_QUALIFIED, SPEC_BEGIN}
  {
    if how.ArrayOf? {
      U32Codec(PutU32(how.length), 0, how.length);
    }
  }

  lemma OpenedIsNoName(rec: Rec)
    requires OpenedBy(rec).Some?
    ensures rec.id !in {SPEC_SIMPLE, SPEC_NAME, SPEC_QUALIFIED, SPEC_BEGIN}
  {
  }

  lemma ReadOver(t: Types, names: Names, how: Derivation, recs: seq<Rec>)
    requires t.Valid() && NamesIn(names, t) && |recs| > 1 && OpenedBy(recs[0]) == Some(how)
    ensures ReadSpec(t, names, recs) == Finish(t, how, ReadSpec(t, names, recs[1..]))
  {
    OpenedIsNoName(recs[0]);
    assert ReadNext(t, names, recs) == ReadSpec(t, names, recs[1..]);
  }

  /** The last record of a shape, and of a derivation whose base ends in `last`. */
  function LastOver(how: Derivation, last: Rec): Rec {
    if how == PointerTo then last else Closing(how)[0]
  }

  function LastRec(s: Shape): Rec {
    match s
    case Leaf(h, n) => LeafRec(h, n)
    case Over(how, inner) => LastOver(how, LastRec(inner))
  }

  lemma LastBracketed(first: Rec, rs: seq<Rec>, how: Derivation)
    requires rs != []
    ensures var all := [first] + rs + Closing(how);
      all[|all| - 1] == LastOver(how, rs[|rs| - 1])
  {
  }

  lemma {:induction false} LastRecIsLast(s: Shape)
    ensures InnerRecs(s)[|InnerRecs(s)| - 1] == LastRec(s)
  {
    if s.Over? {
      LastRecIsLast(s.inner);
      LastBracketed(Opening(s.how), InnerRecs(s.inner), s.how);
    }
  }

  /** What reading gives when it builds `s` and stops at `rest`. */
  function Built(t: Types, names: Names, s: Shape, rest: seq<Rec>): Option<(Types, TypeRef, seq<Rec>)>
    requires t.Valid() && NamesIn(names, t)
  {
    match Build(t, names, s)
    case None => None
    case Some((u, b)) => Some((u, b, rest))
  }

  function BuiltAsRead(t: Types, names: Names, s: Option<Shape>, rest: seq<Rec>): Option<(Types, TypeRef, seq<Rec>)>
    requires t.Valid() && NamesIn(names, t)
  {
    match s
    case None => None
    case Some(x) => Built(t, names, x, rest)
  }

  lemma CloseReads(how: Derivation, last: Rec, tail: seq<Rec>)
    ensures Close(how, [last] + (Closing(how) + tail)) == Some([LastOver(how, last)] + tail)
  {
    var recs := [last] + (Closing(how) + tail);
    if how == PointerTo {
      assert recs == [last] + tail;
    } else {
      assert recs[1..] == Closing(how) + tail;
    }
  }

  lemma FinishBuilds(t: Types, names: Names, how: Derivation, inner: Shape, last: Rec, tail: seq<Rec>)
    requires t.Valid() && NamesIn(names, t)
    ensures Finish(t, how, Built(t, names, inner, [last] + (Closing(how) + tail)))
         == Built(t, names, Over(how, inner), [LastOver(how, last)] + tail)
  {
    CloseReads(how, last, tail);
  }

  lemma Bracketed(first: Rec, rs: seq<Rec>, close: seq<Rec>, tail: seq<Rec>)
    requires rs != []
    ensures var all := [first] + rs + close + tail;
      |all| > 1 && all[0] == first && all[1..] == rs + (close + tail)
  {
  }

  lemma OverStep(t: Types, names: Names, how: Derivation, rs: seq<Rec>, tail: seq<Rec>)
    requires t.Valid() && NamesIn(names, t) && rs != [] && (how.ArrayOf? ==> how.length <= MAX_ARRAY_LENGTH)
    ensures ReadSpec(t, names, [Opening(how)] + rs + Closing(how) + tail)
         == Finish(t, how, ReadSpec(t, names, rs + (Closing(how) + tail)))
  {
    var first, close := Opening(how), Closing(how);
    Bracketed(first, rs, close, tail);
    OpeningOpens(how);
    ReadOver(t, names, how, [first] + rs + close + tail);
  }

  lemma LeafReads(t: Types, names: Names, h: Bytes, n: Bytes, simple: bool, tail: seq<Rec>)
    requires t.Valid() && NamesIn(names, t)
    ensures var rec := if simple && h == [] then Rec(SPEC_SIMPLE, n) else LeafRec(h, n);
      ReadSpec(t, names, [rec] + tail) == BuiltAsRead(t, names, AsRead(Leaf(h, n)), [rec] + tail)
  {
  }

  /** Reading the records of a shape builds that shape, as its names are read, and stops on
      its last record, whatever follows. */
  lemma {:induction false} InnerRecsRead(t: Types, names: Names, s: Shape, tail: seq<Rec>)
    requires t.Valid() && NamesIn(names, t) && LengthsFit(s)
    ensures ReadSpec(t, names, InnerRecs(s) + tail) == BuiltAsRead(t, names, AsRead(s), [LastRec(s)] + tail)
    decreases s
  {
    match s
    case Leaf(h, n) => LeafReads(t, names, h, n, false, tail);
    case Over(how, inner) =>
      InnerRecsRead(t, names, inner, Closing(how) + tail);
      OverStep(t, names, how, InnerRecs(inner), tail);
      if AsRead(inner).Some? {
        FinishBuilds(t, names, how, AsRead(inner).value, LastRec(inner), tail);
      }
  }

  // ----- round trips

  /** The names of a shape can be told apart from their qualification when written, its
      arrays are short enough and its records fit. */
  predicate Writable(t: Types, r: TypeRef)
    requires t.Valid() && r < |t.nodes|
    decreases r
  {
    match t.nodes[r]
    case Named(h, n, _) => (h != [] || n != []) && Fits(LeafRec(h, n))
    case Alias(h, n, _) => (h != [] || n != []) && Fits(LeafRec(h, n))
    case NilPointer => false
    case Derived(how, b) => Writable(t, b) && (how.ArrayOf? ==> how.length <= MAX_ARRAY_LENGTH)
  }

  lemma {:induction false} InnerWritableIff(t: Types, r: TypeRef)
    requires t.Valid() && r < |t.nodes|
    ensures WriteInner(t, r).Ok? <==> Writable(t, r)
    decreases r
  {
    if t.nodes[r].Derived? {
      InnerWritableIff(t, t.nodes[r].base);
    }
  }

  /** Exactly the writable types are written. */
  lemma WritableIff(t: Types, r: TypeRef)
    requires t.Valid() && r < |t.nodes|
    ensures WriteSpec(t, r).Ok? <==> Writable(t, r)
  {
    InnerWritableIff(t, r);
  }

  lemma WrittenSpec(t: Types, r: TypeRef)
    requires t.Valid() && r < |t.nodes| && WriteSpec(t, r).Ok?
    ensures var recs, s := WriteSpec(t, r).value, ShapeOf(t, r);
      && LengthsFit(s) && (forall i :: 0 <= i < |recs| ==> Fits(recs[i]))
      && (recs == [Empty(SPEC_BEGIN)] + InnerRecs(s) + [Empty(SPEC_END)]
          || (s.Leaf? && recs == [if s.home == [] then Rec(SPEC_SIMPLE, s.name) else LeafRec(s.home, s.name)]))
  {
    WritableIff(t, r);
    InnerWritableIff(t, r);
    InnerRecsOfShape(t, r);
  }

  lemma GroupEnds(t: Types, names: Names, s: Option<Shape>, recs: seq<Rec>, last: Rec, end: Rec, tail: seq<Rec>)
    requires t.Valid() && NamesIn(names, t) && |recs| > 1 && recs[0].id == SPEC_BEGIN && end == Empty(SPEC_END)
    requires ReadSpec(t, names, recs[1..]) == BuiltAsRead(t, names, s, [last] + ([end] + tail))
    ensures ReadSpec(t, names, recs) == BuiltAsRead(t, names, s, [end] + tail)
  {
    assert ReadNext(t, names, recs) == ReadSpec(t, names, recs[1..]);
    assert ([last] + ([end] + tail))[1..] == [end] + tail;
  }

  lemma GroupReads(t: Types, names: Names, s: Shape, tail: seq<Rec>)
    requires t.Valid() && NamesIn(names, t) && LengthsFit(s)
    ensures ReadSpec(t, names, [Empty(SPEC_BEGIN)] + InnerRecs(s) + [Empty(SPEC_END)] + tail)
         == BuiltAsRead(t, names, AsRead(s), [Empty(SPEC_END)] + tail)
  {
    var begin, rs, end := Empty(SPEC_BEGIN), InnerRecs(s), Empty(SPEC_END);
    Bracketed(begin, rs, [end], tail);
    InnerRecsRead(t, names, s, [end] + tail);
    GroupEnds(t, names, AsRead(s), [begin] + rs + [end] + tail, LastRec(s), end, tail);
  }

  /** Reading a written spec, in whatever process and in front of whatever records, builds
      the shape of the written type, as its names are read, and stops on its last record. */
  lemma SpecIsReadAs(t: Types, r: TypeRef, u: Types, names: Names, tail: seq<Rec>)
    requires t.Valid() && r < |t.nodes| && WriteSpec(t, r).Ok?
    requires u.Valid() && NamesIn(names, u)
    ensures var recs := WriteSpec(t, r).value;
      ReadSpec(u, names, recs + tail) == BuiltAsRead(u, names, AsRead(ShapeOf(t, r)), [recs[|recs| - 1]] + tail)
  {
    WrittenSpec(t, r);
    var s := ShapeOf(t, r);
    if WriteSpec(t, r).value == [Empty(SPEC_BEGIN)] + InnerRecs(s) + [Empty(SPEC_END)] {
      GroupReads(u, names, s, tail);
    } else {
      LeafReads(u, names, s.home, s.name, true, tail);
    }
  }

  /** The same where the names are read as they were written. */
  lemma SpecIsRead(t: Types, r: TypeRef, u: Types, names: Names, tail: seq<Rec>)
    requires t.Valid() && r < |t.nodes| && WriteSpec(t, r).Ok? && NamesFit(ShapeOf(t, r))
    requires u.Valid() && NamesIn(names, u)
    ensures var recs := WriteSpec(t, r).value;
      ReadSpec(u, names, recs + tail) == Built(u, names, ShapeOf(t, r), [recs[|recs| - 1]] + tail)
  {
    SpecIsReadAs(t, r, u, names, tail);
    AsReadIff(ShapeOf(t, r));
  }

  /** Where the names still stand for the types that were written, the very same type object
      comes back and no type is created; reading fails exactly when something is owned that
      is neither an object nor a pointer. */
  lemma SameTypeComesBack(t: Types, r: TypeRef, names: Names, tail: seq<Rec>)
    requires t.Valid() && r < |t.nodes| && WriteSpec(t, r).Ok? && NamesFit(ShapeOf(t, r))
    requires NamesIn(names, t) && NamesReach(names, t, r)
    ensures var recs := WriteSpec(t, r).value;
      ReadSpec(t, names, recs + tail) == if OwnsOwnable(t, r) then Some((t, r, [recs[|recs| - 1]] + tail)) else None
  {
    SpecIsRead(t, r, t, names, tail);
    BuildFindsExisting(t, names, r);
  }

  /** Exactly when: with each name standing for a leaf that bears it, the type that was
      written comes back if and only if its names fit and it owns only what can be owned. */
  lemma SameTypeIff(t: Types, r: TypeRef, names: Names, tail: seq<Rec>)
    requires t.Valid() && r < |t.nodes| && WriteSpec(t, r).Ok?
    requires NamesAreLeaves(names, t) && NamesReach(names, t, r)
    ensures var recs := WriteSpec(t, r).value;
      ReadSpec(t, names, recs + tail) == Some((t, r, [recs[|recs| - 1]] + tail))
      <==> NamesFit(ShapeOf(t, r)) && OwnsOwnable(t, r)
  {
    var s := ShapeOf(t, r);
    SpecIsReadAs(t, r, t, names, tail);
    AsReadIff(s);
    BuildFindsExisting(t, names, r);
    if AsRead(s).Some? && Build(t, names, AsRead(s).value) == Some((t, r)) {
      BuildHasShape(t, names, AsRead(s).value);
    }
  }

  /** A zero byte in the module part moves the cut: the pair is read as another one. */
  lemma ZeroByteMovesTheCut(home: Bytes, x: Bytes, name: Bytes)
    requires home != [] && 0 !in home && name != []
    ensures AsRead(Leaf(home + [0] + x, name)) == Some(Leaf(home, x + [0] + name))
  {
    ConcatAssociative(home + [0], x, [0]);
    ConcatAssociative(home + [0], x + [0], name);
    assert PairData(home + [0] + x, name) == PairData(home, x + [0] + name);
    PairRoundTrip(home, x + [0] + name);
  }

  /** So, of two types with such names, one is written and the other comes back. */
  lemma AnotherTypeComesBack(home: Bytes, x: Bytes, name: Bytes, kind: NamedKind, tail: seq<Rec>)
    requires home != [] && 0 !in home && name != [] && Fits(LeafRec(home + [0] + x, name))
    ensures var t := Types([Named(home + [0] + x, name, kind), Named(home, x + [0] + name, kind)], map[]);
      var names: Names := map[(home + [0] + x, name) := 0, (home, x + [0] + name) := 1];
      && t.Valid() && NamesAreLeaves(names, t) && NamesReach(names, t, 0) && WriteSpec(t, 0).Ok?
      && ReadSpec(t, names, WriteSpec(t, 0).value + tail) == Some((t, 1, WriteSpec(t, 0).value + tail))
  {
    var t := Types([Named(home + [0] + x, name, kind), Named(home, x + [0] + name, kind)], map[]);
    var names: Names := map[(home + [0] + x, name) := 0, (home, x + [0] + name) := 1];
    assert 0 in home + [0] + x && (home + [0] + x)[|home|] == 0;
    WritableIff(t, 0);
    SpecIsReadAs(t, 0, t, names, tail);
    ZeroByteMovesTheCut(home, x, name);
  }

  /** In another process: a type of the same shape, one object however often it is read. */
  lemma SameShapeElsewhere(t: Types, r: TypeRef, u: Types, names: Names, tail: seq<Rec>)
    requires t.Valid() && r < |t.nodes| && WriteSpec(t, r).Ok? && NamesFit(ShapeOf(t, r))
    requires u.Valid() && NamesAreLeaves(names, u)
    requires ReadSpec(u, names, WriteSpec(t, r).value + tail).Some?
    ensures var recs := WriteSpec(t, r).value;
      var (v, b, last) := ReadSpec(u, names, recs + tail).value;
      && ShapeOf(v, b) == ShapeOf(t, r) && last == [recs[|recs| - 1]] + tail
      && NamesIn(names, v) && ReadSpec(v, names, recs + tail) == Some((v, b, last))
  {
    SpecIsRead(t, r, u, names, tail);
    BuildHasShape(u, names, ShapeOf(t, r));
    SpecIsRead(t, r, Build(u, names, ShapeOf(t, r)).value.0, names, tail);
  }

  /** The same through a whole file: the spec is written between other records, the file is
      built and checked, its payload cut into records, and the spec read where it starts. */
  lemma TypeSurvivesFile(t: Types, r: TypeRef, names: Names, before: seq<Rec>, after: seq<Rec>)
    requires t.Valid() && r < |t.nodes| && WriteSpec(t, r).Ok? && NamesFit(ShapeOf(t, r))
    requires NamesIn(names, t) && NamesReach(names, t, r) && OwnsOwnable(t, r)
    requires forall i :: 0 <= i < |before| ==> Fits(before[i])
    requires forall i :: 0 <= i < |after| ==> Fits(after[i])
    ensures var all := before + WriteSpec(t, r).value + after;
      && (forall i :: 0 <= i < |all| ==> Fits(all[i]))
      && (|FrameAll(all)| <= DqmContainer.MAX_PAYLOAD ==>
          && DqmContainer.ReadFile(DqmContainer.FileData(FrameAll(all))) == Ok(FrameAll(all))
          && |Remaining(FrameAll(all), 0)| > |before|
          && ReadSpec(t, names, Remaining(FrameAll(all), 0)[|before|..])
             == Some((t, r, [WriteSpec(t, r).value[|WriteSpec(t, r).value| - 1]] + after)))
  {
    WrittenSpec(t, r);
    var recs := WriteSpec(t, r).value;
    var all := before + recs + after;
    assert all[|before|..] == recs + after;
    SameTypeComesBack(t, r, names, after);
    if |FrameAll(all)| <= DqmContainer.MAX_PAYLOAD {
      FileRoundTrip(all);
    }
  }

  // ----- type alias declarations

  /** The group that declares the alias `r`. */
  function WriteAliasDecl(t: Types, r: TypeRef): Result<seq<Rec>, Complaint>
    requires t.Valid() && r < |t.nodes| && t.nodes[r].Alias?
  {
    var first := Rec(TYPE_BEGIN, t.nodes[r].name);
    if !Fits(first) then Err(RecordTooLarge(TYPE_BEGIN))
    else
      match WriteSpec(t, t.nodes[r].target)
      case Err(e) => Err(e)
      case Ok(rs) => Ok([first] + rs + [Empty(TYPE_END)])
  }

  /** Reads a declaration whose first record is the current one: the alias name, its target,
      and the reader at the last record. */
  function ReadTypeDecl(t: Types, names: Names, recs: seq<Rec>): Option<(Types, Bytes, TypeRef, seq<Rec>)>
    requires t.Valid() && NamesIn(names, t) && recs != []
  {
    match ReadNext(t, names, recs)
    case None => None
    case Some((u, b, rest)) =>
      if |rest| > 1 && rest[1] == Empty(TYPE_END) then Some((u, recs[0].data, b, rest[1..])) else None
  }

  lemma {:induction false} NoGroupInside(s: Shape)
    ensures forall i :: 0 <= i < |InnerRecs(s)| ==> InnerRecs(s)[i].id != TYPE_BEGIN && InnerRecs(s)[i].id != TYPE_END
  {
    if s.Over? {
      NoGroupInside(s.inner);
    }
  }

  lemma {:induction false} FlatIsBalanced(rs: seq<Rec>, begin: RecId, end: RecId)
    requires forall i :: 0 <= i < |rs| ==> rs[i].id != begin && rs[i].id != end
    ensures Balanced(rs, 0, begin, end)
  {
    if rs != [] {
      FlatIsBalanced(rs[1..], begin, end);
    }
  }

  lemma BodySkips(first: Rec, body: seq<Rec>, last: Rec, tail: seq<Rec>)
    requires last == Empty(TYPE_END)
    requires forall i :: 0 <= i < |body| ==> body[i].id != TYPE_BEGIN && body[i].id != TYPE_END
    ensures SkipCount(([first] + body + [last] + tail)[1..], 1, TYPE_BEGIN, TYPE_END) == Some(|body| + 1)
  {
    FlatIsBalanced(body, TYPE_BEGIN, TYPE_END);
    SkipStopsAtMatchingEnd(body, last, tail, 0, TYPE_BEGIN, TYPE_END);
    assert ([first] + body + [last] + tail)[1..] == body + [last] + tail;
  }

  lemma NoGroupInSpec(t: Types, r: TypeRef)
    requires t.Valid() && r < |t.nodes| && WriteSpec(t, r).Ok?
    ensures var recs := WriteSpec(t, r).value;
      forall i :: 0 <= i < |recs| ==> recs[i].id != TYPE_BEGIN && recs[i].id != TYPE_END
  {
    WrittenSpec(t, r);
    NoGroupInside(ShapeOf(t, r));
  }

  lemma AliasDeclSkips(t: Types, r: TypeRef, tail: seq<Rec>)
    requires t.Valid() && r < |t.nodes| && t.nodes[r].Alias? && WriteAliasDecl(t, r).Ok?
    ensures var recs := WriteAliasDecl(t, r).value;
      SkipCount((recs + tail)[1..], 1, TYPE_BEGIN, TYPE_END) == Some(|recs| - 1)
  {
    NoGroupInSpec(t, t.nodes[r].target);
    BodySkips(Rec(TYPE_BEGIN, t.nodes[r].name), WriteSpec(t, t.nodes[r].target).value, Empty(TYPE_END), tail);
  }

  lemma AliasDeclParts(first: Rec, body: seq<Rec>, last: Rec, tail: seq<Rec>)
    requires body != []
    ensures var recs := [first] + body + [last] + tail;
      && recs[1..] == body + ([last] + tail)
      && ([body[|body| - 1]] + ([last] + tail))[1..] == recs[|body| + 1..]
  {
  }

  lemma DeclReads(u: Types, names: Names, s: Shape, first: Rec, body: seq<Rec>, last: Rec, tail: seq<Rec>)
    requires u.Valid() && NamesIn(names, u) && body != [] && last == Empty(TYPE_END)
    requires ReadSpec(u, names, body + ([last] + tail)) == Built(u, names, s, [body[|body| - 1]] + ([last] + tail))
    ensures var recs := [first] + body + [last];
      ReadTypeDecl(u, names, recs + tail) == match Build(u, names, s)
      case None => None
      case Some((v, b)) => Some((v, first.data, b, (recs + tail)[|recs| - 1..]))
  {
    AliasDeclParts(first, body, last, tail);
    assert ReadNext(u, names, [first] + body + [last] + tail) == ReadSpec(u, names, body + ([last] + tail));
  }

  lemma AliasDeclReads(t: Types, r: TypeRef, u: Types, names: Names, tail: seq<Rec>)
    requires t.Valid() && r < |t.nodes| && t.nodes[r].Alias? && WriteAliasDecl(t, r).Ok?
    requires NamesFit(ShapeOf(t, t.nodes[r].target)) && u.Valid() && NamesIn(names, u)
    ensures var recs := WriteAliasDecl(t, r).value;
      ReadTypeDecl(u, names, recs + tail) == match Build(u, names, ShapeOf(t, t.nodes[r].target))
         case None => None
         case Some((v, b)) => Some((v, t.nodes[r].name, b, (recs + tail)[|recs| - 1..]))
  {
    var target := t.nodes[r].target;
    SpecIsRead(t, target, u, names, [Empty(TYPE_END)] + tail);
    DeclReads(u, names, ShapeOf(t, target), Rec(TYPE_BEGIN, t.nodes[r].name), WriteSpec(t, target).value,
              Empty(TYPE_END), tail);
  }

  /** Skipping a written alias declaration and reading it stop on the same record, its own
      end; so a reader that already knows the alias stays in step with one that does not. */
  lemma SkipStopsWhereReadingStops(t: Types, r: TypeRef, u: Types, names: Names, tail: seq<Rec>)
    requires t.Valid() && r < |t.nodes| && t.nodes[r].Alias? && WriteAliasDecl(t, r).Ok?
    requires NamesFit(ShapeOf(t, t.nodes[r].target)) && u.Valid() && NamesIn(names, u)
    requires ReadTypeDecl(u, names, WriteAliasDecl(t, r).value + tail).Some?
    ensures var all := WriteAliasDecl(t, r).value + tail;
      && SkipCount(all[1..], 1, TYPE_BEGIN, TYPE_END).Some?
      && ReadTypeDecl(u, names, all).value.3 == all[SkipCount(all[1..], 1, TYPE_BEGIN, TYPE_END).value..]
      && ReadTypeDecl(u, names, all).value.3[0] == Empty(TYPE_END)
      && ReadTypeDecl(u, names, all).value.3[1..] == tail
  {
    AliasDeclSkips(t, r, tail);
    AliasDeclReads(t, r, u, names, tail);
    var recs := WriteAliasDecl(t, r).value;
    assert (recs + tail)[|recs| - 1..][1..] == tail;
  }
}
