/** The records of an embedded module spelled out: their order, their ids, the overload flag,
    and which second definitions a reader refuses. */
module EmbeddedLaws {
  import opened Common
  import opened DqmBytes
  import opened DqmRecords
  import opened EmbeddedModules

  // ----- order

  predicate IsEnumGroup(x: Item) {
    x.Group? && x.form == Enum
  }

  lemma {:induction false} PredeclaredAreForward(decls: seq<Declaration>, seen: set<Bytes>)
    ensures forall x :: x in Predeclared(decls, seen) ==> x.Fwd?
    decreases |decls|
  {
    if decls != [] {
      PredeclaredAreForward(decls[1..], if decls[0].CompoundOf().Some? then seen + {decls[0].name} else seen);
      PredeclaredAreForward(decls[1..], seen);
    }
  }

  lemma {:induction false} ChosenAre(decls: seq<Declaration>, enums: bool)
    ensures enums ==> forall x :: x in Chosen(decls, enums) ==> IsEnumGroup(x)
    ensures !enums ==> forall x :: x in Chosen(decls, enums) ==> !IsEnumGroup(x)
  {
    if decls != [] {
      ChosenAre(decls[1..], enums);
    }
  }

  /** No group of another declaration comes before the group of an enum. */
  lemma EnumsComeFirst(decls: seq<Declaration>, i: nat, j: nat)
    requires i < j < |ModuleItems(decls)|
    ensures var items := ModuleItems(decls);
      items[i].Group? && IsEnumGroup(items[j]) ==> IsEnumGroup(items[i])
  {
    var a, b, c := Predeclared(decls, {}), Chosen(decls, true), Chosen(decls, false);
    PredeclaredAreForward(decls, {});
    ChosenAre(decls, true);
    ChosenAre(decls, false);
    var items := ModuleItems(decls);
    assert forall k :: 0 <= k < |items| ==>
      items[k] == if k < |a| then a[k] else if k < |a| + |b| then b[k - |a|] else c[k - |a| - |b|];
    if i < |a| {
      assert items[i] in a;
    } else if |a| + |b| <= j {
      assert items[j] in c;
    } else {
      assert items[i] in b;
    }
  }

  ghost predicate IsAnnounced(d: Declaration, items: seq<Item>) {
    d.CompoundOf().Some? && Fwd(d.CompoundOf().value, d.name) in items
  }

  lemma {:induction false} CompoundIsPredeclared(decls: seq<Declaration>, seen: set<Bytes>, d: Declaration)
    requires d in decls && d.CompoundOf().Some? && d.name !in seen
    ensures exists e :: e in decls && e.name == d.name && IsAnnounced(e, Predeclared(decls, seen))
    decreases |decls|
  {
    var first, rest := decls[0], decls[1..];
    if first.CompoundOf().Some? && first.name !in seen {
      if first.name == d.name {
        assert Predeclared(decls, seen)[0] == Fwd(first.CompoundOf().value, first.name);
        assert first in decls && IsAnnounced(first, Predeclared(decls, seen));
      } else {
        assert d in rest;
        CompoundIsPredeclared(rest, seen + {first.name}, d);
        var e :| e in rest && e.name == d.name && IsAnnounced(e, Predeclared(rest, seen + {first.name}));
        assert e in decls;
      }
    } else {
      assert d in rest;
      CompoundIsPredeclared(rest, seen, d);
      var e :| e in rest && e.name == d.name && IsAnnounced(e, Predeclared(rest, seen));
      assert e in decls;
    }
  }

  /** Every compound is announced before the first group, as what it is. */
  lemma CompoundsAreAnnounced(decls: seq<Declaration>, d: Declaration) returns (i: nat)
    requires WellFormed(decls) && d in decls && d.CompoundOf().Some?
    ensures i < |ModuleItems(decls)| && ModuleItems(decls)[i] == Fwd(d.CompoundOf().value, d.name)
    ensures forall j :: 0 <= j <= i ==> ModuleItems(decls)[j].Fwd?
  {
    CompoundIsPredeclared(decls, {}, d);
    var e :| e in decls && e.name == d.name && IsAnnounced(e, Predeclared(decls, {}));
    assert e.Symbol() == d.Symbol();
    var k :| 0 <= k < |Predeclared(decls, {})| && Predeclared(decls, {})[k] == Fwd(e.CompoundOf().value, e.name);
    PredeclaredAreForward(decls, {});
    assert forall j :: 0 <= j <= k ==> ModuleItems(decls)[j] == Predeclared(decls, {})[j];
    i := k;
  }

  lemma {:induction false} ChosenConcat(a: seq<Declaration>, b: seq<Declaration>, enums: bool)
    ensures Chosen(a + b, enums) == Chosen(a, enums) + Chosen(b, enums)
    decreases |a|
  {
    if a == [] {
      assert a + b == b && [] + Chosen(b, enums) == Chosen(b, enums);
    } else {
      assert (a + b)[0] == a[0] && (a + b)[1..] == a[1..] + b;
      ChosenConcat(a[1..], b, enums);
      ConcatAssociative(if a[0].IsEnum() == enums then ItemsOf(a[0]) else [], Chosen(a[1..], enums), Chosen(b, enums));
    }
  }

  lemma ChosenOne(d: Declaration, rest: seq<Declaration>, enums: bool)
    requires d.IsEnum() == enums
    ensures Chosen([d] + rest, enums) == ItemsOf(d) + Chosen(rest, enums)
  {
    assert ([d] + rest)[1..] == rest;
  }

  /** Of two enums, or two declarations that are none, the one declared first is written first. */
  lemma DeclaredOrderIsKept(a: seq<Declaration>, d: Declaration, b: seq<Declaration>, e: Declaration,
                            c: seq<Declaration>)
    requires d.IsEnum() == e.IsEnum()
    ensures var n := d.IsEnum();
      Chosen(a + ([d] + (b + ([e] + c))), n)
        == Chosen(a, n) + (ItemsOf(d) + (Chosen(b, n) + (ItemsOf(e) + Chosen(c, n))))
  {
    var n := d.IsEnum();
    ChosenConcat(a, [d] + (b + ([e] + c)), n);
    ChosenOne(d, b + ([e] + c), n);
    ChosenConcat(b, [e] + c, n);
    ChosenOne(e, c, n);
  }

  // ----- the overload flag

  lemma NoFlags(recs: seq<Rec>, flag: bool)
    requires recs == [] || !(0x8200 <= recs[0].id <= 0x8205)
    ensures FlagIn(recs, flag) == flag
  {
  }

  /** The flags as the reader takes them: each flags record replaces what was read before. */
  lemma FlagStep(r: Rec, recs: seq<Rec>, flag: bool)
    requires 0x8200 <= r.id <= 0x8205
    ensures FlagIn([r] + recs, flag)
         == FlagIn(recs, if r.id == 0x8200 then |r.data| == 8 && r.data[0] % 2 == 1 else flag)
  {
    assert ([r] + recs)[1..] == recs;
  }

  lemma {:induction false} FlagsBehind(others: seq<Rec>, rest: seq<Rec>, flag: bool)
    requires forall i :: 0 <= i < |others| ==> 0x8201 <= others[i].id <= 0x8205
    requires rest == [] || !(0x8200 <= rest[0].id <= 0x8205)
    ensures FlagIn(others + rest, flag) == flag
    decreases |others|
  {
    if others == [] {
      assert others + rest == rest;
      NoFlags(rest, flag);
    } else {
      assert others + rest == [others[0]] + (others[1..] + rest);
      FlagStep(others[0], others[1..] + rest, flag);
      FlagsBehind(others[1..], rest, flag);
    }
  }

  lemma {:induction false} FlagsBefore(before: seq<Rec>, rest: seq<Rec>, flag: bool)
    requires forall i :: 0 <= i < |before| ==> 0x8200 <= before[i].id <= 0x8205
    requires rest != [] && rest[0].id == 0x8200
    ensures FlagIn(before + rest, flag) == FlagIn(rest, flag)
    decreases |before|
  {
    if before == [] {
      assert before + rest == rest;
    } else {
      var next := if before[0].id == 0x8200 then |before[0].data| == 8 && before[0].data[0] % 2 == 1 else flag;
      assert before + rest == [before[0]] + (before[1..] + rest);
      FlagStep(before[0], before[1..] + rest, flag);
      FlagsBefore(before[1..], rest, next);
      assert rest == [rest[0]] + rest[1..];
      FlagStep(rest[0], rest[1..], flag);
      FlagStep(rest[0], rest[1..], next);
    }
  }

  /** A function whose attributes hold a flags record is an overload exactly when the last one
      has eight bytes and its lowest bit set; one without a flags record is none. The source
      position may stand in front, and whatever follows the attributes does not matter. */
  lemma OverloadIff(position: seq<Rec>, before: seq<Rec>, flags: Rec, others: seq<Rec>, rest: seq<Rec>)
    requires position == [] || (|position| == 1 && position[0].id == 0x8206)
    requires forall i :: 0 <= i < |before| ==> 0x8200 <= before[i].id <= 0x8205
    requires flags.id == 0x8200
    requires forall i :: 0 <= i < |others| ==> 0x8201 <= others[i].id <= 0x8205
    requires rest == [] || !(0x8200 <= rest[0].id <= 0x8206)
    ensures IsOverload(position + (before + ([flags] + (others + rest)))) <==>
      |flags.data| == 8 && flags.data[0] % 2 == 1
    ensures !IsOverload(position + (others + rest))
  {
    var tail := others + rest;
    FlagStep(flags, tail, false);
    FlagsBehind(others, rest, |flags.data| == 8 && flags.data[0] % 2 == 1);
    FlagsBefore(before, [flags] + tail, false);
    FlagsBehind(others, rest, false);
    BehindPosition(position, before + ([flags] + tail));
    BehindPosition(position, tail);
  }

  lemma BehindPosition(position: seq<Rec>, recs: seq<Rec>)
    requires position == [] || (|position| == 1 && position[0].id == 0x8206)
    requires recs == [] || recs[0].id != 0x8206
    ensures IsOverload(position + recs) == FlagIn(recs, false)
  {
    if position == [] {
      assert position + recs == recs;
    } else {
      assert (position + recs)[1..] == recs;
    }
  }

  // ----- refused definitions

  lemma TwoAreTaken(existing: set<Key>, s: Reading, x: Item, y: Item)
    ensures TakeAll(existing, s, [x, y]) == match Take(existing, s, x)
      case None => None
      case Some(t) => Take(existing, t, y)
  {
    assert [x, y][1..] == [y];
    if Take(existing, s, x).Some? {
      OneIsTaken(existing, Take(existing, s, x).value, y);
    }
  }

  /** A name that was not known before and is defined twice is refused, unless both are
      functions marked as overloads. */
  lemma SecondDefinitionIff(existing: set<Key>, s: Reading, f: Form, g: Form, n: Bytes, b: seq<Rec>, c: seq<Rec>)
    requires KindOf(f) == KindOf(g) && Key(KindOf(f), n) !in existing && Key(KindOf(f), n) !in s.scope
    requires n !in s.incomplete && n !in s.sets
    ensures TakeAll(existing, s, [Group(f, n, b), Group(g, n, c)]).Some?
      <==> f == Function && g == Function && IsOverload(b) && IsOverload(c)
  {
    TwoAreTaken(existing, s, Group(f, n, b), Group(g, n, c));
  }

  /** After a forward record, the definition has to be a compound of the same kind. */
  lemma ForwardIsCompletedIff(existing: set<Key>, s: Reading, k: CompoundKind, f: Form, n: Bytes, b: seq<Rec>)
    requires KindOf(f) == TypeSymbol && Key(TypeSymbol, n) !in existing && Key(TypeSymbol, n) !in s.scope
    ensures TakeAll(existing, s, [Fwd(k, n), Group(f, n, b)]).Some? <==> f == Compound(k)
  {
    TwoAreTaken(existing, s, Fwd(k, n), Group(f, n, b));
  }

  /** A name that was known before is skipped, whatever its definition. */
  lemma KnownIsSkipped(existing: set<Key>, s: Reading, f: Form, n: Bytes, b: seq<Rec>)
    requires Key(KindOf(f), n) in existing
    ensures Take(existing, s, Group(f, n, b)) == Some(s.(group := s.group + {Key(KindOf(f), n)}))
  {
  }

  // ----- what is accepted

  /** The records of one item. What an end record of a declaration holds does not matter. */
  ghost predicate IsItemText(x: Item, text: seq<Rec>) {
    match x
    case Fwd(k, n) => text == [Rec(ForwardId(k), n)]
    case Group(f, n, body) =>
      && |text| == |body| + 2 && text[0] == Rec(BeginId(f), n) && text[1..|body| + 1] == body
      && text[|body| + 1].id == EndId(f) && Balanced(body, 0, BeginId(f), EndId(f))
  }

  ghost predicate AreItemTexts(items: seq<Item>, texts: seq<seq<Rec>>) {
    |texts| == |items| && forall i :: 0 <= i < |items| ==> IsItemText(items[i], texts[i])
  }

  function Concat(texts: seq<seq<Rec>>): seq<Rec> {
    if texts == [] then [] else texts[0] + Concat(texts[1..])
  }

  lemma {:induction false} SkippedIsBalanced(rs: seq<Rec>, open: nat, begin: RecId, end: RecId)
    requires begin != end && SkipCount(rs, open + 1, begin, end).Some?
    ensures var n := SkipCount(rs, open + 1, begin, end).value;
      n > 0 && rs[n - 1].id == end && Balanced(rs[..n - 1], open, begin, end)
    decreases |rs|
  {
    var n := SkipCount(rs, open + 1, begin, end).value;
    if rs[0].id == end && open == 0 {
      assert rs[..n - 1] == [];
    } else {
      SkippedIsBalanced(rs[1..], if rs[0].id == begin then open + 1 else if rs[0].id == end then open - 1 else open,
                        begin, end);
      assert rs[..n - 1][1..] == rs[1..][..n - 2];
    }
  }

  lemma GroupIsText(recs: seq<Rec>, form: Form, k: nat)
    requires recs != [] && recs[0].id == BeginId(form)
    requires SkipCount(recs[1..], 1, BeginId(form), EndId(form)) == Some(k)
    ensures 0 < k < |recs| && IsItemText(Group(form, recs[0].data, recs[1..][..k - 1]), recs[..k + 1])
    ensures recs == recs[..k + 1] + recs[1..][k..]
  {
    IdsAreDistinct(form, Object);
    SkippedIsBalanced(recs[1..], 0, BeginId(form), EndId(form));
    assert recs[..k + 1][1..k] == recs[1..][..k - 1];
  }

  lemma FormBegins(id: RecId)
    ensures FormOf(id).Some? ==> BeginId(FormOf(id).value) == id
    ensures ForwardOf(id).Some? ==> ForwardId(ForwardOf(id).value) == id
  {
  }

  /** Whatever group the reader accepts consists of forward records and closed groups of the
      known forms, up to an end record without data, and its result is that of taking these
      one by one. Anything else is refused. */
  lemma {:induction false} OnlyItemsAreRead(recs: seq<Rec>, existing: set<Key>, s: Reading)
    returns (items: seq<Item>, texts: seq<seq<Rec>>)
    requires ReadGroup(recs, existing, s).Some?
    ensures AreItemTexts(items, texts)
    ensures var (t, rest) := ReadGroup(recs, existing, s).value;
      recs == Concat(texts) + ([Rec(0x0B0F, [])] + rest) && TakeAll(existing, s, items) == Some(t)
    decreases |recs|
  {
    if recs[0].id == EMBED_MODULE_END {
      items, texts := [], [];
      assert recs == [recs[0]] + recs[1..];
    } else {
      var x, k := Fwd(Object, []), 0;
      FormBegins(recs[0].id);
      if FormOf(recs[0].id).Some? {
        var form := FormOf(recs[0].id).value;
        k := SkipCount(recs[1..], 1, BeginId(form), EndId(form)).value;
        x := Group(form, recs[0].data, recs[1..][..k - 1]);
        GroupIsText(recs, form, k);
      } else {
        x := Fwd(ForwardOf(recs[0].id).value, recs[0].data);
        assert recs[..1] == [recs[0]];
      }
      assert recs == recs[..k + 1] + recs[1..][k..];
      items, texts := ItemThenRest(recs, x, k, existing, s);
    }
  }

  lemma {:induction false} ItemThenRest(recs: seq<Rec>, x: Item, k: nat, existing: set<Key>, s: Reading)
    returns (items: seq<Item>, texts: seq<seq<Rec>>)
    requires k < |recs| && IsItemText(x, recs[..k + 1]) && recs == recs[..k + 1] + recs[1..][k..]
    requires Take(existing, s, x).Some?
    requires ReadGroup(recs, existing, s) == ReadGroup(recs[1..][k..], existing, Take(existing, s, x).value)
    requires ReadGroup(recs, existing, s).Some?
    ensures AreItemTexts(items, texts)
    ensures var (t, rest) := ReadGroup(recs, existing, s).value;
      recs == Concat(texts) + ([Rec(0x0B0F, [])] + rest) && TakeAll(existing, s, items) == Some(t)
    decreases |recs|, 0
  {
    var next, text := recs[1..][k..], recs[..k + 1];
    var u := Take(existing, s, x).value;
    var more, others := OnlyItemsAreRead(next, existing, u);
    items, texts := [x] + more, [text] + others;
    assert items[1..] == more && texts[1..] == others;
    ConcatAssociative(text, Concat(others), [Rec(0x0B0F, [])] + ReadGroup(recs, existing, s).value.1);
  }

  // ----- the ids

  /** Every form of declaration, record by record. */
  lemma SpelledOut(n: Bytes)
    ensures ItemRecs(Group(Alias, n, [])) == [Rec(0x0200, n), Rec(0x02FF, [])]
    ensures ItemRecs(Group(Enum, n, [])) == [Rec(0x0240, n), Rec(0x024F, [])]
    ensures ItemRecs(Group(Const, n, [])) == [Rec(0x0300, n), Rec(0x03FF, [])]
    ensures ItemRecs(Group(Var, n, [])) == [Rec(0x0400, n), Rec(0x04FF, [])]
    ensures ItemRecs(Group(Function, n, [])) == [Rec(0x0500, n), Rec(0x05FF, [])]
    ensures ItemRecs(Group(Compound(Struct), n, [])) == [Rec(0x0700, n), Rec(0x07FF, [])]
    ensures ItemRecs(Group(Compound(Object), n, [])) == [Rec(0x0701, n), Rec(0x07FE, [])]
    ensures ItemRecs(Group(Compound(Union), n, [])) == [Rec(0x0704, n), Rec(0x07FD, [])]
    ensures ItemRecs(Fwd(Struct, n)) == [Rec(0x070E, n)] && ItemRecs(Fwd(Object, n)) == [Rec(0x070F, n)]
    ensures ItemRecs(Fwd(Union, n)) == [Rec(0x070D, n)]
  {
  }

  lemma TwoItems(x: Item, y: Item)
    ensures RecsOf([x, y]) == ItemRecs(x) + ItemRecs(y)
  {
    assert [x, y][1..] == [y] && [y][1..] == [];
    assert RecsOf([y]) == ItemRecs(y) + RecsOf([]);
  }

  lemma ItemsOfTwo(v: Declaration, e: Declaration)
    requires e.IsEnum() && !v.IsEnum() && v.CompoundOf().None?
    ensures ModuleItems([v, e]) == ItemsOf(e) + ItemsOf(v)
  {
    assert [v, e][1..] == [e] && [e][1..] == [];
    assert Predeclared([e], {}) == [] && Predeclared([v, e], {}) == [];
    assert Chosen([e], true) == ItemsOf(e) && Chosen([e], false) == [];
    assert Chosen([v, e], true) == ItemsOf(e) && Chosen([v, e], false) == ItemsOf(v);
  }

  /** A whole small module: a variable and then an enum, between the records of the module. */
  lemma ModuleSpelledOut(m: Bytes, v: Bytes, e: Bytes, b: seq<Rec>, c: seq<Rec>)
    ensures ModuleRecs(Module(m, [Definition(Var, v, b), Definition(Enum, e, c)]))
         == [Rec(0x0B00, m)] + (ItemRecs(Group(Enum, e, c)) + ItemRecs(Group(Var, v, b)) + [Rec(0x0B0F, [])])
  {
    var x, y := Group(Enum, e, c), Group(Var, v, b);
    ItemsOfTwo(Definition(Var, v, b), Definition(Enum, e, c));
    assert ItemsOf(Definition(Enum, e, c)) + ItemsOf(Definition(Var, v, b)) == [x, y];
    TwoItems(x, y);
  }

  // ----- empty overload sets

  /** An overload set without functions writes nothing and is not collected. */
  lemma EmptySetIsLost(n: Bytes)
    ensures Written([Overloads(n, [])]) == {} && Names([Overloads(n, [])]) == {Key(ValueSymbol, n)}
  {
    var d := Overloads(n, []);
    assert d in [d] && ItemsOf(d) == [];
  }
}
