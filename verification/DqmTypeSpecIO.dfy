/** Type specs in place: the writer's payload grows by the records of the type, and the
    reader's cursor, the type caches and the error field change as the spec is read. */
module DqmTypeSpecIO {
  import opened Common
  import opened DqmBytes
  import opened DqmRecords
  import opened DqmTypes
  import opened DqmIf
  import opened DqmTypeSpec

  /** `rs` has been appended to a payload that was `before`. */
  ghost predicate Appended(before: Bytes, after: Bytes, rs: seq<Rec>) {
    (forall i :: 0 <= i < |rs| ==> Fits(rs[i])) && after == before + FrameAll(rs)
  }

  lemma AppendedOne(before: Bytes, r: Rec)
    requires Fits(r)
    ensures Appended(before, before + Frame(r), [r])
  {
    FrameOne(r);
  }

  lemma AppendedBoth(a: Bytes, b: Bytes, c: Bytes, rs: seq<Rec>, ss: seq<Rec>)
    requires Appended(a, b, rs) && Appended(b, c, ss)
    ensures Appended(a, c, rs + ss)
  {
    FrameAllConcat(rs, ss);
    ConcatAssociative(a, FrameAll(rs), FrameAll(ss));
  }

  // ----- writing

  /** What a writing method does when the records of its type are `result`. */
  twostate predicate Wrote(writer: DqmIfWriter, ok: bool, result: Result<seq<Rec>, Complaint>)
    reads writer
  {
    && writer.Valid()
    && ok == (old(writer.error).None? && result.Ok?)
    && (ok ==> writer.error.None? && Appended(old(writer.payload), writer.payload, result.value))
    && (!ok ==> writer.error.Some?)
  }

  method AddOne(writer: DqmIfWriter, rec: Rec) returns (ok: bool)
    requires writer.Valid()
    modifies writer
    ensures Wrote(writer, ok, if Fits(rec) then Ok([rec]) else Err(RecordTooLarge(rec.id)))
  {
    ok := writer.AddRec(rec.id, rec.data);
    if ok {
      AppendedOne(old(writer.payload), rec);
    }
  }

  method WriteTypeReference(writer: DqmIfWriter, id: RecId, home: Bytes, name: Bytes) returns (ok: bool)
    requires writer.Valid()
    modifies writer
    ensures Wrote(writer, ok, One(WriteTypeRef(id, home, name)))
  {
    if home != [] {
      ok := AddOne(writer, Rec(SPEC_QUALIFIED, PairData(home, name)));
    } else if name == [] {
      ok := writer.Fail(EmptyTypeName);
    } else {
      ok := AddOne(writer, Rec(id, name));
    }
  }

  method WriteTypeSpecInner(writer: DqmIfWriter, store: TypeStore, r: TypeRef) returns (ok: bool)
    requires writer.Valid() && store.View().Valid() && r < |store.nodes|
    modifies writer
    ensures Wrote(writer, ok, WriteInner(store.View(), r))
    decreases r
  {
    match store.nodes[r]
    case Named(h, n, _) => ok := WriteTypeReference(writer, SPEC_NAME, h, n);
    case Alias(h, n, _) => ok := WriteTypeReference(writer, SPEC_NAME, h, n);
    case NilPointer => ok := writer.Fail(NilPointerSpec);
    case Derived(how, b) =>
      if how.ArrayOf? && how.length > MAX_ARRAY_LENGTH {
        ok := writer.Fail(ArrayTooLarge);
        return;
      }
      ok := AddOne(writer, Opening(how));
      if !ok {
        return;
      }
      ghost var p1 := writer.payload;
      ok := WriteTypeSpecInner(writer, store, b);
      if !ok {
        return;
      }
      ghost var p2 := writer.payload;
      ghost var rs := WriteInner(store.View(), b).value;
      AppendedBoth(old(writer.payload), p1, p2, [Opening(how)], rs);
      if how == PointerTo {
        assert [Opening(how)] + rs + [] == [Opening(how)] + rs;
        return;
      }
      ok := AddOne(writer, Closing(how)[0]);
      if ok {
        AppendedBoth(old(writer.payload), p2, writer.payload, [Opening(how)] + rs, Closing(how));
      }
  }

  method WriteTypeSpec(writer: DqmIfWriter, store: TypeStore, r: TypeRef) returns (ok: bool)
    requires writer.Valid() && store.View().Valid() && r < |store.nodes|
    modifies writer
    ensures Wrote(writer, ok, WriteSpec(store.View(), r))
  {
    var node := store.nodes[r];
    if node.NilPointer? {
      ok := writer.Fail(NilPointerSpec);
      return;
    }
    if node.Named? {
      ok := WriteTypeReference(writer, SPEC_SIMPLE, node.home, node.name);
      return;
    }
    var grouped := HasGroupKind(store, r);
    if grouped {
      ok := AddOne(writer, Empty(SPEC_BEGIN));
      if !ok {
        return;
      }
      ghost var p1 := writer.payload;
      ok := WriteTypeSpecInner(writer, store, r);
      if !ok {
        return;
      }
      ghost var p2 := writer.payload;
      ghost var rs := WriteInner(store.View(), r).value;
      AppendedBoth(old(writer.payload), p1, p2, [Empty(SPEC_BEGIN)], rs);
      ok := AddOne(writer, Empty(SPEC_END));
      if ok {
        AppendedBoth(old(writer.payload), p2, writer.payload, [Empty(SPEC_BEGIN)] + rs, [Empty(SPEC_END)]);
      }
      return;
    }
    ok := WriteTypeReference(writer, SPEC_SIMPLE, node.home, node.name);
  }

  /** Reads the kind field, which an alias took over from its target. */
  method HasGroupKind(store: TypeStore, t: TypeRef) returns (b: bool)
    requires store.View().Valid() && t < |store.nodes|
    ensures b == store.View().HasGroupKind(t)
  {
    var r: TypeRef := t;
    while store.nodes[r].Alias?
      invariant r < |store.nodes| && store.View().HasGroupKind(t) == store.View().HasGroupKind(r)
      decreases r
    {
      r := store.nodes[r].target;
    }
    b := !store.nodes[r].Named? || store.nodes[r].kind == OpaquePointerKind;
  }

  // ----- reading

  /** The current record and the ones behind it. */
  ghost function Ahead(reader: DqmIfReader): seq<Rec>
    requires reader.Valid() && reader.error.None?
    reads reader
  {
    [reader.Current()] + reader.Rest()
  }

  /** What a reading method does when the specification gives `result`. */
  twostate predicate DidRead(reader: DqmIfReader, store: TypeStore, ok: bool, r: TypeRef,
                             result: Option<(Types, TypeRef, seq<Rec>)>)
    reads reader, store
  {
    && reader.Valid() && reader.payload == old(reader.payload) && reader.pos >= old(reader.pos)
    && ok == result.Some?
    && (ok ==> reader.error.None? && (store.View(), r, Ahead(reader)) == result.value)
    && (!ok ==> reader.error.Some?)
  }

  method Lookup(reader: DqmIfReader, names: Names, home: Bytes, name: Bytes) returns (ok: bool, r: TypeRef)
    requires reader.Valid() && reader.error.None?
    modifies reader`error
    ensures reader.Valid() && ok == ((home, name) in names) && (reader.error.None? <==> ok)
    ensures ok ==> r == names[(home, name)]
  {
    r := 0;
    if (home, name) in names {
      return true, names[(home, name)];
    }
    ok := reader.Fail(UnknownType(name));
  }

  method ReadTypeSpec(reader: DqmIfReader, store: TypeStore, names: Names) returns (ok: bool, r: TypeRef)
    requires reader.Valid() && reader.error.None? && store.View().Valid() && NamesIn(names, store.View())
    modifies reader, store
    ensures DidRead(reader, store, ok, r, ReadSpec(old(store.View()), names, old(Ahead(reader))))
    decreases |reader.payload| - reader.pos, 1
  {
    var id := reader.recid;
    if id == SPEC_SIMPLE || id == SPEC_NAME {
      ok, r := Lookup(reader, names, [], reader.payload[reader.recpos..reader.recpos + reader.reclen]);
      return;
    }
    if id == SPEC_QUALIFIED {
      var home, name;
      ok, home, name := reader.ReadStringPair();
      r := 0;
      if ok {
        ok, r := Lookup(reader, names, home, name);
      }
      return;
    }
    if id == SPEC_BEGIN {
      ok, r := ReadGroup(reader, store, names);
      return;
    }
    ok, r := ReadTypeSpecInner(reader, store, names);
  }

  /** Advances to an end record, which carries nothing. */
  method ExpectEnd(reader: DqmIfReader, id: RecId) returns (ok: bool)
    requires reader.Valid() && reader.error.None?
    modifies reader
    ensures reader.Valid() && reader.payload == old(reader.payload) && reader.pos >= old(reader.pos)
    ensures var recs := old(Ahead(reader)); ok == (|recs| > 1 && recs[1] == Empty(id)) == reader.error.None?
    ensures ok ==> Ahead(reader) == old(Ahead(reader))[1..]
  {
    ghost var recs := Ahead(reader);
    ok := reader.NextRec();
    if ok {
      assert Ahead(reader) == recs[1..];
      ok := reader.ExpectEmpty(id);
    }
  }

  /** The bracketed form of a spec. */
  method ReadGroup(reader: DqmIfReader, store: TypeStore, names: Names) returns (ok: bool, r: TypeRef)
    requires reader.Valid() && reader.error.None? && store.View().Valid() && NamesIn(names, store.View())
    requires reader.recid == SPEC_BEGIN
    modifies reader, store
    ensures DidRead(reader, store, ok, r, ReadSpec(old(store.View()), names, old(Ahead(reader))))
    decreases |reader.payload| - reader.pos, 0
  {
    ghost var recs := Ahead(reader);
    r := 0;
    ok := reader.NextRec();
    if !ok {
      return;
    }
    assert Ahead(reader) == recs[1..];
    ok, r := ReadTypeSpec(reader, store, names);
    if !ok {
      return;
    }
    ok := ExpectEnd(reader, SPEC_END);
  }

  /** The derivation that the current record opens. Anything else is complained about. */
  method ReadOpening(reader: DqmIfReader) returns (ok: bool, how: Derivation)
    requires reader.Valid() && reader.error.None?
    modifies reader`error
    ensures reader.Valid() && (reader.error.None? <==> ok) && ok == OpenedBy(old(reader.Current())).Some?
    ensures ok ==> how == OpenedBy(old(reader.Current())).value
  {
    how := PointerTo;
    if reader.recid == SPEC_PTR {
      ok := reader.ExpectEmpty(SPEC_PTR);
    } else if reader.recid == SPEC_ARRAY_BEGIN {
      var length: U32;
      ok, length := reader.ReadU32();
      if !ok || length > MAX_ARRAY_LENGTH {
        ok := reader.Fail(BadArrayLength);
        return;
      }
      how := ArrayOf(length);
    } else if reader.recid == SPEC_SLICE_BEGIN {
      ok := reader.ExpectEmpty(SPEC_SLICE_BEGIN);
      how := SliceOf;
    } else if reader.recid == SPEC_DYN_ARRAY_BEGIN {
      ok := reader.ExpectEmpty(SPEC_DYN_ARRAY_BEGIN);
      how := DynArrayOf;
    } else if reader.recid == SPEC_AUTOFREE_BEGIN {
      ok := reader.ExpectEmpty(SPEC_AUTOFREE_BEGIN);
      how := AutoFreeOf;
    } else {
      ok := reader.Fail(UnexpectedRecord(reader.recid));
    }
  }

  /** The part after the base type: the ownership check, the closing record, the cache. */
  method FinishDerivation(reader: DqmIfReader, store: TypeStore, how: Derivation, base: TypeRef)
    returns (ok: bool, r: TypeRef)
    requires reader.Valid() && reader.error.None? && store.View().Valid() && base < |store.nodes|
    modifies reader, store
    ensures DidRead(reader, store, ok, r,
      DqmTypeSpec.Finish(old(store.View()), how, Some((old(store.View()), base, old(Ahead(reader))))))
  {
    r := 0;
    if how == AutoFreeOf {
      var ownable := store.CanBeOwned(base);
      if !ownable {
        ok := reader.Fail(BadAutoFree);
        return;
      }
    }
    if how != PointerTo {
      ok := ExpectEnd(reader, Closing(how)[0].id);
      if !ok {
        return;
      }
    }
    r := store.GetDerived(how, base);
    ok := true;
  }

  method ReadTypeSpecInner(reader: DqmIfReader, store: TypeStore, names: Names) returns (ok: bool, r: TypeRef)
    requires reader.Valid() && reader.error.None? && store.View().Valid() && NamesIn(names, store.View())
    requires reader.recid !in {SPEC_SIMPLE, SPEC_NAME, SPEC_QUALIFIED, SPEC_BEGIN}
    modifies reader, store
    ensures DidRead(reader, store, ok, r, ReadSpec(old(store.View()), names, old(Ahead(reader))))
    decreases |reader.payload| - reader.pos, 0
  {
    ghost var recs := Ahead(reader);
    r := 0;
    var how;
    ok, how := ReadOpening(reader);
    if !ok {
      return;
    }
    ok := reader.NextRec();
    if !ok {
      return;
    }
    assert Ahead(reader) == recs[1..];
    ReadOver(store.View(), names, how, recs);
    var base;
    ok, base := ReadTypeSpec(reader, store, names);
    if !ok {
      return;
    }
    ok, r := FinishDerivation(reader, store, how, base);
  }
}
