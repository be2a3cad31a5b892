/** What the type spec reader accepts: only records that form a spec, and the type it returns
    is the one that they spell. Nothing here refers to the writer. */
module DqmGrammar {
  import opened Common
  import opened DqmBytes
  import opened DqmRecords
  import opened DqmTypes
  import opened DqmTypeSpec

  /** A spec as its records nest: a name, a group around a spec, or a derivation of one. */
  datatype Spec = NameSpec(rec: Rec) | GroupSpec(data: Bytes, inner: Spec) | DerivedSpec(how: Derivation, inner: Spec)

  function Begin(how: Derivation): Rec {
    match how
    case PointerTo => Rec(0x8003, [])
    case ArrayOf(n) => Rec(0x8010, PutU32(n))
    case SliceOf => Rec(0x8020, [])
    case DynArrayOf => Rec(0x8030, [])
    case AutoFreeOf => Rec(0x8040, [])
  }

  function End(how: Derivation): seq<Rec> {
    match how
    case PointerTo => []
    case ArrayOf(_) => [Rec(0x801F, [])]
    case SliceOf => [Rec(0x802F, [])]
    case DynArrayOf => [Rec(0x803F, [])]
    case AutoFreeOf => [Rec(0x804F, [])]
  }

  function Text(x: Spec): (rs: seq<Rec>)
    ensures rs != []
  {
    match x
    case NameSpec(rec) => [rec]
    case GroupSpec(data, inner) => [Rec(0x8001, data)] + Text(inner) + [Rec(0x80FF, [])]
    case DerivedSpec(how, inner) => [Begin(how)] + Text(inner) + End(how)
  }

  /** The record names `r`: a plain name, or a module and a name with a zero byte between. */
  ghost predicate Refers(names: Names, rec: Rec, r: TypeRef) {
    || ((rec.id == 0x8000 || rec.id == 0x8002) && ([], rec.data) in names && names[([], rec.data)] == r)
    || (rec.id == 0x8004 && exists home, name :: RefersBy(names, rec, home, name, r))
  }

  ghost predicate RefersBy(names: Names, rec: Rec, home: Bytes, name: Bytes, r: TypeRef) {
    && home != [] && name != [] && 0 !in home && rec.data == home + [0] + name
    && (home, name) in names && names[(home, name)] == r
  }

  /** `r` is the type that the spec spells, and only objects and pointers are owned in it. */
  ghost predicate Spells(t: Types, names: Names, x: Spec, r: TypeRef)
    requires t.Valid()
  {
    && r < |t.nodes|
    && match x
       case NameSpec(rec) => Refers(names, rec, r)
       case GroupSpec(_, inner) => Spells(t, names, inner, r)
       case DerivedSpec(how, inner) =>
         && t.nodes[r].Derived? && t.nodes[r].how == how && Spells(t, names, inner, t.nodes[r].base)
         && (how == AutoFreeOf ==> t.CanBeOwned(t.nodes[r].base))
         && (how.ArrayOf? ==> how.length <= 2147483647)
  }

  lemma {:induction false} SpellsIsKept(t: Types, u: Types, names: Names, x: Spec, r: TypeRef)
    requires t.Valid() && u.Valid() && t.KeptIn(u) && Spells(t, names, x, r)
    ensures Spells(u, names, x, r)
  {
    assert u.nodes[r] == t.nodes[r];
    match x
    case NameSpec(_) =>
    case GroupSpec(_, inner) => SpellsIsKept(t, u, names, inner, r);
    case DerivedSpec(_, inner) =>
      SpellsIsKept(t, u, names, inner, t.nodes[r].base);
      ShapeIsKept(t, u, t.nodes[r].base);
  }

  /** The records up to the one where the reader stands are the text of the spec. */
  ghost predicate Consumed(recs: seq<Rec>, x: Spec, rest: seq<Rec>) {
    rest != [] && recs == Text(x) + rest[1..] && rest[0] == Text(x)[|Text(x)| - 1]
  }

  lemma NameIsRead(t: Types, names: Names, recs: seq<Rec>) returns (x: Spec)
    requires t.Valid() && NamesIn(names, t) && recs != [] && recs[0].id in {0x8000, 0x8002, 0x8004}
    requires ReadSpec(t, names, recs).Some?
    ensures var (u, r, rest) := ReadSpec(t, names, recs).value;
      Spells(u, names, x, r) && Consumed(recs, x, rest)
  {
    x := NameSpec(recs[0]);
    if recs[0].id == 0x8004 {
      var data, k := recs[0].data, IndexOfZero(recs[0].data, 0).value;
      assert data == data[..k] + [0] + data[k + 1..];
      assert RefersBy(names, recs[0], data[..k], data[k + 1..], ReadSpec(t, names, recs).value.1);
    }
  }

  lemma OpenedIsBegin(rec: Rec)
    requires OpenedBy(rec).Some?
    ensures rec == Begin(OpenedBy(rec).value)
    ensures OpenedBy(rec).value.ArrayOf? ==> OpenedBy(rec).value.length <= 2147483647
  {
    if OpenedBy(rec).value.ArrayOf? {
      U32Codec(rec.data, 0, U32At(rec.data, 0));
      assert rec.data[0..4] == rec.data;
    }
  }

  lemma GroupConsumed(recs: seq<Rec>, inner: Spec, rest: seq<Rec>)
    requires recs != [] && recs[0].id == 0x8001 && Consumed(recs[1..], inner, rest)
    requires |rest| > 1 && rest[1] == Rec(0x80FF, [])
    ensures Consumed(recs, GroupSpec(recs[0].data, inner), rest[1..])
  {
    assert rest[1..] == [rest[1]] + rest[1..][1..];
    assert recs == [recs[0]] + recs[1..];
  }

  lemma DerivedConsumed(recs: seq<Rec>, how: Derivation, inner: Spec, rest: seq<Rec>)
    requires recs != [] && recs[0] == Begin(how) && Consumed(recs[1..], inner, rest) && Close(how, rest).Some?
    ensures Consumed(recs, DerivedSpec(how, inner), Close(how, rest).value)
  {
    assert recs == [recs[0]] + recs[1..];
    assert End(how) == Closing(how);
    if how != PointerTo {
      assert rest[1..] == End(how) + rest[1..][1..];
    }
  }

  /** Whatever the reader accepts is a spec, record by record, and the type it returns is the
      one spelled there. A wrong or missing closing record, a closing record with data, an
      array length out of range and an ownership of anything else are all refused. */
  lemma {:induction false} OnlySpecsAreRead(t: Types, names: Names, recs: seq<Rec>) returns (x: Spec)
    requires t.Valid() && NamesIn(names, t) && recs != [] && ReadSpec(t, names, recs).Some?
    ensures var (u, r, rest) := ReadSpec(t, names, recs).value;
      Spells(u, names, x, r) && Consumed(recs, x, rest)
    decreases |recs|
  {
    if recs[0].id in {0x8000, 0x8002, 0x8004} {
      x := NameIsRead(t, names, recs);
    } else {
      var inner := OnlySpecsAreRead(t, names, recs[1..]);
      var (u, b, rest) := ReadSpec(t, names, recs[1..]).value;
      if recs[0].id == 0x8001 {
        x := GroupSpec(recs[0].data, inner);
        GroupConsumed(recs, inner, rest);
      } else {
        var how := OpenedBy(recs[0]).value;
        x := DerivedSpec(how, inner);
        OpenedIsBegin(recs[0]);
        DerivedConsumed(recs, how, inner, rest);
        DeriveSpells(u, names, how, inner, b);
      }
    }
  }

  lemma DeriveSpells(u: Types, names: Names, how: Derivation, inner: Spec, b: TypeRef)
    requires u.Valid() && Spells(u, names, inner, b) && (how == AutoFreeOf ==> u.CanBeOwned(b))
    requires how.ArrayOf? ==> how.length <= 2147483647
    ensures Spells(u.Derive(how, b).0, names, DerivedSpec(how, inner), u.Derive(how, b).1)
  {
    var (v, r) := u.Derive(how, b);
    SpellsIsKept(u, v, names, inner, b);
    ShapeIsKept(u, v, b);
  }
}
