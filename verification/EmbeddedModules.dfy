/** The declarations of other modules inside an interface: how a module's embedded group is
    written, and what a reader collects from it, whatever it already knows of the module.
    The body of a declaration is opaque; only its begin and end records matter. */
module EmbeddedModules {
  import opened Common
  import opened DqmBytes
  import opened DqmRecords
  import DqmTypes
  import DqmTypeSpec

  const DECL_SOURCE_POS: RecId := 0x8206
  const ATTR_FLAGS: RecId := 0x8200
  const EMBED_MODULE_BEGIN: RecId := 0x0B00
  const EMBED_MODULE_END: RecId := 0x0B0F

  // ----- declarations

  datatype CompoundKind = Object | Struct | Union

  datatype Form = Alias | Enum | Compound(kind: CompoundKind) | Const | Var | Function

  datatype Kind = TypeSymbol | ValueSymbol

  datatype Key = Key(kind: Kind, name: Bytes)

  /** A public declaration: a forward declaration, a definition with one group, or an
      overload set with one group for each function. */
  datatype Declaration =
    | Forward(kind: CompoundKind, name: Bytes)
    | Definition(form: Form, name: Bytes, body: seq<Rec>)
    | Overloads(name: Bytes, bodies: seq<seq<Rec>>)
  {
    function Symbol(): Key {
      match this
      case Forward(_, n) => Key(TypeSymbol, n)
      case Definition(f, n, _) => Key(KindOf(f), n)
      case Overloads(n, _) => Key(ValueSymbol, n)
    }

    predicate IsEnum() {
      Definition? && form == Enum
    }

    /** The kind of compound that is declared, forward or not. */
    function CompoundOf(): Option<CompoundKind> {
      match this
      case Forward(k, _) => Some(k)
      case Definition(Compound(k), _, _) => Some(k)
      case _ => None
    }
  }

  function KindOf(form: Form): Kind {
    if form == Alias || form == Enum || form.Compound? then TypeSymbol else ValueSymbol
  }

  function BeginId(form: Form): RecId {
    match form
    case Alias => DqmTypeSpec.TYPE_BEGIN
    case Enum => 0x0240
    case Compound(Object) => 0x0701
    case Compound(Struct) => 0x0700
    case Compound(Union) => 0x0704
    case Const => 0x0300
    case Var => 0x0400
    case Function => 0x0500
  }

  function EndId(form: Form): RecId {
    match form
    case Alias => DqmTypeSpec.TYPE_END
    case Enum => 0x024F
    case Compound(Object) => 0x07FE
    case Compound(Struct) => 0x07FF
    case Compound(Union) => 0x07FD
    case Const => 0x03FF
    case Var => 0x04FF
    case Function => 0x05FF
  }

  function ForwardId(kind: CompoundKind): RecId {
    match kind
    case Object => 0x070F
    case Struct => 0x070E
    case Union => 0x070D
  }

  /** The form that a begin record opens, and the compound that a forward record names. */
  function FormOf(id: RecId): Option<Form> {
    if id == BeginId(Alias) then Some(Alias)
    else if id == BeginId(Enum) then Some(Enum)
    else if id == BeginId(Compound(Object)) then Some(Compound(Object))
    else if id == BeginId(Compound(Struct)) then Some(Compound(Struct))
    else if id == BeginId(Compound(Union)) then Some(Compound(Union))
    else if id == BeginId(Const) then Some(Const)
    else if id == BeginId(Var) then Some(Var)
    else if id == BeginId(Function) then Some(Function)
    else None
  }

  function ForwardOf(id: RecId): Option<CompoundKind> {
    if id == ForwardId(Object) then Some(Object)
    else if id == ForwardId(Struct) then Some(Struct)
    else if id == ForwardId(Union) then Some(Union)
    else None
  }

  lemma IdsAreDistinct(form: Form, kind: CompoundKind)
    ensures FormOf(BeginId(form)) == Some(form) && ForwardOf(ForwardId(kind)) == Some(kind)
    ensures FormOf(ForwardId(kind)) == None && ForwardOf(BeginId(form)) == None
    ensures BeginId(form) != EMBED_MODULE_END && ForwardId(kind) != EMBED_MODULE_END && BeginId(form) != EndId(form)
    ensures FormOf(EMBED_MODULE_END) == None && ForwardOf(EMBED_MODULE_END) == None
  {
  }

  /** The overload flag of a function: among the attribute records in front of its body, the
      last flags record decides. */
  predicate IsOverload(body: seq<Rec>) {
    FlagIn(if body != [] && body[0].id == DECL_SOURCE_POS then body[1..] else body, false)
  }

  predicate FlagIn(recs: seq<Rec>, flag: bool) {
    if recs == [] || !(ATTR_FLAGS <= recs[0].id < DECL_SOURCE_POS) then flag
    else FlagIn(recs[1..], if recs[0].id == ATTR_FLAGS then |recs[0].data| == 8 && recs[0].data[0] % 2 == 1 else flag)
  }

  // ----- writing

  /** What is written for declarations: forward records and groups. */
  datatype Item = Fwd(kind: CompoundKind, name: Bytes) | Group(form: Form, name: Bytes, body: seq<Rec>)

  function ItemRecs(x: Item): (rs: seq<Rec>)
    ensures rs != []
  {
    match x
    case Fwd(k, n) => [Rec(ForwardId(k), n)]
    case Group(f, n, body) => [Rec(BeginId(f), n)] + (body + [Rec(EndId(f), [])])
  }

  function RecsOf(items: seq<Item>): seq<Rec> {
    if items == [] then [] else ItemRecs(items[0]) + RecsOf(items[1..])
  }

  function ItemsOf(d: Declaration): seq<Item> {
    match d
    case Forward(k, n) => [Fwd(k, n)]
    case Definition(f, n, body) => [Group(f, n, body)]
    case Overloads(n, bodies) => seq(|bodies|, i requires 0 <= i < |bodies| => Group(Function, n, bodies[i]))
  }

  /** A forward record for each compound, at its first declaration. */
  function Predeclared(decls: seq<Declaration>, seen: set<Bytes>): seq<Item> {
    if decls == [] then []
    else
      var d := decls[0];
      if d.CompoundOf().Some? && d.name !in seen
      then [Fwd(d.CompoundOf().value, d.name)] + Predeclared(decls[1..], seen + {d.name})
      else Predeclared(decls[1..], seen)
  }

  /** The declarations that are enums, or those that are not. */
  function Chosen(decls: seq<Declaration>, enums: bool): seq<Item> {
    if decls == [] then []
    else (if decls[0].IsEnum() == enums then ItemsOf(decls[0]) else []) + Chosen(decls[1..], enums)
  }

  /** Forward records first, then the enums, then all others. */
  function ModuleItems(decls: seq<Declaration>): seq<Item> {
    Predeclared(decls, {}) + (Chosen(decls, true) + Chosen(decls, false))
  }

  /** An embedded module: its name, and those of its declarations that are embedded, in the
      order of the module. */
  datatype Module = Module(name: Bytes, decls: seq<Declaration>)

  function ModuleRecs(m: Module): seq<Rec> {
    [Rec(EMBED_MODULE_BEGIN, m.name)] + (RecsOf(ModuleItems(m.decls)) + [Rec(EMBED_MODULE_END, [])])
  }

  function Names(decls: seq<Declaration>): set<Key> {
    set d | d in decls :: d.Symbol()
  }

  /** The writer's three loops over the declarations. */
  method WriteModule(m: Module) returns (out: seq<Rec>)
    ensures out == ModuleRecs(m)
  {
    var items: seq<Item> := [];
    var predeclared: set<Bytes> := {};
    ghost var all := Predeclared(m.decls, {});
    for i := 0 to |m.decls|
      invariant items + Predeclared(m.decls[i..], predeclared) == all
    {
      var d := m.decls[i];
      assert m.decls[i..][0] == d && m.decls[i..][1..] == m.decls[i + 1..];
      if d.CompoundOf().Some? && d.name !in predeclared {
        items := items + [Fwd(d.CompoundOf().value, d.name)];
        predeclared := predeclared + {d.name};
      }
    }
    assert m.decls[|m.decls|..] == [] && items + [] == items;
    var enums := Choose(m.decls, true);
    var others := Choose(m.decls, false);
    assert items + (enums + others) == ModuleItems(m.decls);
    var body := WriteItems(items + (enums + others));
    return [Rec(EMBED_MODULE_BEGIN, m.name)] + (body + [Rec(EMBED_MODULE_END, [])]);
  }

  method Choose(decls: seq<Declaration>, enums: bool) returns (items: seq<Item>)
    ensures items == Chosen(decls, enums)
  {
    items := [];
    assert decls[0..] == decls;
    for i := 0 to |decls|
      invariant items + Chosen(decls[i..], enums) == Chosen(decls, enums)
    {
      assert decls[i..][0] == decls[i] && decls[i..][1..] == decls[i + 1..];
      if decls[i].IsEnum() == enums {
        ConcatAssociative(items, ItemsOf(decls[i]), Chosen(decls[i + 1..], enums));
        items := items + ItemsOf(decls[i]);
      } else {
        assert [] + Chosen(decls[i + 1..], enums) == Chosen(decls[i + 1..], enums);
      }
    }
    assert decls[|decls|..] == [] && items + [] == items;
  }

  method WriteItems(items: seq<Item>) returns (out: seq<Rec>)
    ensures out == RecsOf(items)
  {
    out := [];
    assert items[0..] == items;
    for i := 0 to |items|
      invariant out + RecsOf(items[i..]) == RecsOf(items)
    {
      assert items[i..][0] == items[i] && items[i..][1..] == items[i + 1..];
      ConcatAssociative(out, ItemRecs(items[i]), RecsOf(items[i + 1..]));
      out := out + ItemRecs(items[i]);
    }
    assert items[|items|..] == [] && out + [] == out;
  }

  // ----- reading

  /** What a reader knows of the module: the names in its scope, those of the group so far,
      compounds that are only declared forward, and overload sets of this group. */
  datatype Reading = Reading(scope: set<Key>, group: set<Key>, incomplete: map<Bytes, CompoundKind>, sets: set<Bytes>)

  /** Adds a definition that is read in full. A name can be taken already. */
  function Define(s: Reading, form: Form, name: Bytes, body: seq<Rec>): Option<Reading> {
    var key := Key(KindOf(form), name);
    if key !in s.scope then
      Some(s.(scope := s.scope + {key},
              sets := if form == Function && IsOverload(body) then s.sets + {name} else s.sets))
    else if form.Compound? && name in s.incomplete && s.incomplete[name] == form.kind then
      Some(s.(incomplete := s.incomplete - {name}))
    else if form == Function && IsOverload(body) && name in s.sets then Some(s)
    else None
  }

  /** One forward record or group. A group of a name that was known before is skipped. */
  function Take(existing: set<Key>, s: Reading, x: Item): Option<Reading> {
    match x
    case Fwd(k, n) =>
      var key := Key(TypeSymbol, n);
      var t := s.(group := s.group + {key});
      if key in s.scope then Some(t) else Some(t.(scope := t.scope + {key}, incomplete := t.incomplete[n := k]))
    case Group(f, n, body) =>
      var key := Key(KindOf(f), n);
      var t := s.(group := s.group + {key});
      if key in existing then Some(t) else Define(t, f, n, body)
  }

  /** The loop over the records of the group, up to its end record. */
  function ReadGroup(recs: seq<Rec>, existing: set<Key>, s: Reading): (r: Option<(Reading, seq<Rec>)>)
    ensures r.Some? ==> |r.value.1| < |recs|
    decreases |recs|
  {
    if recs == [] then None
    else if recs[0].id == EMBED_MODULE_END then (if recs[0].data == [] then Some((s, recs[1..])) else None)
    else if FormOf(recs[0].id).Some? then
      var form := FormOf(recs[0].id).value;
      var skip := SkipCount(recs[1..], 1, BeginId(form), EndId(form));
      if skip.None? || skip.value == 0 then None
      else
        var rest := recs[1..][skip.value..];
        match Take(existing, s, Group(form, recs[0].data, recs[1..][..skip.value - 1]))
        case None => None
        case Some(t) => ReadGroup(rest, existing, t)
    else if ForwardOf(recs[0].id).Some? then
      match Take(existing, s, Fwd(ForwardOf(recs[0].id).value, recs[0].data))
      case None => None
      case Some(t) => ReadGroup(recs[1..], existing, t)
    else None
  }

  /** A whole embedded group after its begin record, for a module with these names in scope. */
  function ReadModule(recs: seq<Rec>, scope: set<Key>): Option<(Reading, seq<Rec>)> {
    ReadGroup(recs, scope, Reading(scope, {}, map[], {}))
  }

  /** The same loop as it runs, over the variables of the reader. */
  method ReadEmbeddedModule(recs: seq<Rec>, existing: set<Key>) returns (r: Option<(Reading, seq<Rec>)>)
    ensures r == ReadModule(recs, existing)
  {
    var rest := recs;
    var s := Reading(existing, {}, map[], {});
    while rest != [] && rest[0].id != EMBED_MODULE_END
      invariant ReadModule(recs, existing) == ReadGroup(rest, existing, s)
      decreases |rest|
    {
      var id, name := rest[0].id, rest[0].data;
      rest := rest[1..];
      var form, kind := FormOf(id), ForwardOf(id);
      var item: Item;
      if form.Some? {
        var skip := SkipCount(rest, 1, BeginId(form.value), EndId(form.value));
        if skip.None? || skip.value == 0 {
          return None;
        }
        item := Group(form.value, name, rest[..skip.value - 1]);
        rest := rest[skip.value..];
      } else if kind.Some? {
        item := Fwd(kind.value, name);
      } else {
        return None;
      }
      var next := Take(existing, s, item);
      if next.None? {
        return None;
      }
      s := next.value;
    }
    return if rest == [] || rest[0].data != [] then None else Some((s, rest[1..]));
  }

  // ----- cutting the records into items

  predicate BodyFits(x: Item) {
    x.Group? ==> Balanced(x.body, 0, BeginId(x.form), EndId(x.form))
  }

  function TakeAll(existing: set<Key>, s: Reading, items: seq<Item>): Option<Reading>
    decreases |items|
  {
    if items == [] then Some(s)
    else
      match Take(existing, s, items[0])
      case None => None
      case Some(t) => TakeAll(existing, t, items[1..])
  }

  lemma GroupAtFront(recs: seq<Rec>, x: Item, rest: seq<Rec>, existing: set<Key>, s: Reading)
    requires x.Group? && recs != [] && recs[0] == Rec(BeginId(x.form), x.name)
    requires SkipCount(recs[1..], 1, BeginId(x.form), EndId(x.form)) == Some(|x.body| + 1)
    requires recs[1..][..|x.body|] == x.body && recs[1..][|x.body| + 1..] == rest
    ensures ReadGroup(recs, existing, s) == match Take(existing, s, x)
      case None => None
      case Some(t) => ReadGroup(rest, existing, t)
  {
    IdsAreDistinct(x.form, Object);
  }

  lemma GroupIsTaken(x: Item, rest: seq<Rec>, existing: set<Key>, s: Reading)
    requires x.Group? && BodyFits(x)
    ensures ReadGroup(ItemRecs(x) + rest, existing, s) == match Take(existing, s, x)
      case None => None
      case Some(t) => ReadGroup(rest, existing, t)
  {
    var first, last := Rec(BeginId(x.form), x.name), Rec(EndId(x.form), []);
    IdsAreDistinct(x.form, Object);
    SkipStopsAtMatchingEnd(x.body, last, rest, 0, BeginId(x.form), EndId(x.form));
    GroupParts(first, x.body, last, rest);
    GroupAtFront(ItemRecs(x) + rest, x, rest, existing, s);
  }

  lemma GroupParts(first: Rec, body: seq<Rec>, last: Rec, rest: seq<Rec>)
    ensures var recs := [first] + (body + [last]) + rest;
      && recs[0] == first && recs[1..] == body + [last] + rest
      && recs[1..][..|body|] == body && recs[1..][|body| + 1..] == rest
  {
  }

  lemma ForwardIsTaken(x: Item, rest: seq<Rec>, existing: set<Key>, s: Reading)
    requires x.Fwd?
    ensures ReadGroup(ItemRecs(x) + rest, existing, s) == ReadGroup(rest, existing, Take(existing, s, x).value)
  {
    IdsAreDistinct(Alias, x.kind);
    assert (ItemRecs(x) + rest)[0] == Rec(ForwardId(x.kind), x.name) && (ItemRecs(x) + rest)[1..] == rest;
  }

  /** Reading written items takes them one by one and stops behind the end record. */
  lemma {:induction false} ItemsAreTaken(items: seq<Item>, tail: seq<Rec>, existing: set<Key>, s: Reading)
    requires forall x :: x in items ==> BodyFits(x)
    ensures var end := [Rec(EMBED_MODULE_END, [])] + tail;
      ReadGroup(RecsOf(items) + end, existing, s) == match TakeAll(existing, s, items)
      case None => None
      case Some(t) => Some((t, tail))
    decreases |items|
  {
    var end := [Rec(EMBED_MODULE_END, [])] + tail;
    if items == [] {
      assert RecsOf(items) + end == end && end[1..] == tail;
    } else {
      var x, rest := items[0], RecsOf(items[1..]) + end;
      assert x in items && forall y :: y in items[1..] ==> y in items;
      ConcatAssociative(ItemRecs(x), RecsOf(items[1..]), end);
      if x.Group? {
        GroupIsTaken(x, rest, existing, s);
      } else {
        ForwardIsTaken(x, rest, existing, s);
      }
      if Take(existing, s, x).Some? {
        ItemsAreTaken(items[1..], tail, existing, Take(existing, s, x).value);
      }
    }
  }

  lemma {:induction false} TakeAllConcat(existing: set<Key>, s: Reading, a: seq<Item>, b: seq<Item>)
    ensures TakeAll(existing, s, a + b) == match TakeAll(existing, s, a)
      case None => None
      case Some(t) => TakeAll(existing, t, b)
    decreases |a|
  {
    if a == [] {
      assert a + b == b;
    } else {
      assert (a + b)[0] == a[0] && (a + b)[1..] == a[1..] + b;
      if Take(existing, s, a[0]).Some? {
        TakeAllConcat(existing, Take(existing, s, a[0]).value, a[1..], b);
      }
    }
  }

  // ----- what the declarations of a module add

  /** The symbols that declarations write something for: all but empty overload sets. */
  ghost function Written(decls: seq<Declaration>): set<Key> {
    set d | d in decls && ItemsOf(d) != [] :: d.Symbol()
  }

  /** A module defines each name once, declares a compound only as what it is, and its groups
      are closed. */
  ghost predicate WellFormed(decls: seq<Declaration>) {
    && UniqueDefinitions(decls) && KindsAgree(decls)
    && forall d :: d in decls ==> BodiesFit(d)
  }

  ghost predicate UniqueDefinitions(decls: seq<Declaration>) {
    forall i, j :: 0 <= i < j < |decls| && !decls[i].Forward? && !decls[j].Forward? ==>
        decls[i].Symbol() != decls[j].Symbol()
  }

  ghost predicate KindsAgree(decls: seq<Declaration>) {
    forall d, e :: d in decls && e in decls && d.CompoundOf().Some? && d.Symbol() == e.Symbol() ==>
      e.CompoundOf() == d.CompoundOf()
  }

  ghost predicate BodiesFit(d: Declaration) {
    && (forall x :: x in ItemsOf(d) ==> BodyFits(x))
    && (d.Overloads? ==> forall b :: b in d.bodies ==> IsOverload(b))
  }

  /** Taking `d` will succeed: its name is known from before, or still free, or a compound
      that has only been declared forward. */
  ghost predicate Ready(existing: set<Key>, s: Reading, d: Declaration) {
    match d
    case Forward(_, _) => d.Symbol() in s.scope
    case Definition(Compound(k), n, _) =>
      d.Symbol() in existing || (d.Symbol() in s.scope && n in s.incomplete && s.incomplete[n] == k)
    case _ => d.Symbol() in existing || d.Symbol() !in s.scope
  }

  /** What taking `d` changes. */
  ghost predicate Added(s: Reading, t: Reading, d: Declaration) {
    var added := if ItemsOf(d) == [] then {} else {d.Symbol()};
    && t.scope == s.scope + added && t.group == s.group + added
    && (d.Forward? ==> t.scope == s.scope && t.incomplete == s.incomplete)
    && forall n :: Key(TypeSymbol, n) != d.Symbol() ==> SameAt(s.incomplete, t.incomplete, n)
  }

  ghost predicate SameAt(a: map<Bytes, CompoundKind>, b: map<Bytes, CompoundKind>, n: Bytes) {
    (n in a <==> n in b) && (n in a ==> a[n] == b[n])
  }

  lemma StaysReady(existing: set<Key>, s: Reading, t: Reading, d: Declaration, e: Declaration)
    requires Ready(existing, s, e) && Added(s, t, d) && (d.Forward? || e.Forward? || e.Symbol() != d.Symbol())
    ensures Ready(existing, t, e)
  {
    if e.Definition? && e.form.Compound? && !d.Forward? {
      assert SameAt(s.incomplete, t.incomplete, e.name);
    }
  }

  lemma {:induction false} MoreOverloads(existing: set<Key>, s: Reading, name: Bytes, items: seq<Item>)
    requires forall x :: x in items ==> x.Group? && x.form == Function && x.name == name && IsOverload(x.body)
    requires Key(ValueSymbol, name) in s.scope && Key(ValueSymbol, name) in s.group
    requires Key(ValueSymbol, name) in existing || name in s.sets
    ensures TakeAll(existing, s, items) == Some(s)
    decreases |items|
  {
    if items != [] {
      assert items[0] in items && forall x :: x in items[1..] ==> x in items;
      assert s.(group := s.group + {Key(ValueSymbol, name)}) == s;
      MoreOverloads(existing, s, name, items[1..]);
    }
  }

  lemma OverloadsAreTaken(existing: set<Key>, s: Reading, d: Declaration)
    requires existing <= s.scope && Ready(existing, s, d) && d.Overloads? && BodiesFit(d)
    ensures TakeAll(existing, s, ItemsOf(d)).Some? && Added(s, TakeAll(existing, s, ItemsOf(d)).value, d)
  {
    var items := ItemsOf(d);
    if items != [] {
      var t := Take(existing, s, items[0]).value;
      forall x | x in items[1..] ensures x.Group? && x.form == Function && x.name == d.name && IsOverload(x.body) {
        var i :| 0 <= i < |items| && x == items[i];
        assert d.bodies[i] in d.bodies;
      }
      assert d.bodies[0] in d.bodies;
      MoreOverloads(existing, t, d.name, items[1..]);
    }
  }

  lemma OneIsTaken(existing: set<Key>, s: Reading, x: Item)
    ensures TakeAll(existing, s, [x]) == Take(existing, s, x)
  {
    assert [x][1..] == [];
  }

  lemma DeclarationIsTaken(existing: set<Key>, s: Reading, d: Declaration)
    requires existing <= s.scope && Ready(existing, s, d) && BodiesFit(d)
    ensures TakeAll(existing, s, ItemsOf(d)).Some? && Added(s, TakeAll(existing, s, ItemsOf(d)).value, d)
  {
    if d.Overloads? {
      OverloadsAreTaken(existing, s, d);
    } else {
      OneIsTaken(existing, s, ItemsOf(d)[0]);
    }
  }

  /** The definitions that are enums, or those that are not. */
  ghost function Defined(decls: seq<Declaration>, enums: bool): set<Key> {
    set d | d in decls && d.IsEnum() == enums && !d.Forward? :: d.Symbol()
  }

  ghost function WrittenBy(decls: seq<Declaration>, enums: bool): set<Key> {
    set d | d in decls && d.IsEnum() == enums && ItemsOf(d) != [] :: d.Symbol()
  }

  /** What one of the two loops over the definitions does. */
  ghost predicate TookChosen(existing: set<Key>, s: Reading, t: Reading, decls: seq<Declaration>, enums: bool) {
    && t.scope == s.scope + WrittenBy(decls, enums) && t.group == s.group + WrittenBy(decls, enums)
    && forall e :: Ready(existing, s, e) && (e.Forward? || e.Symbol() !in Defined(decls, enums)) ==>
        Ready(existing, t, e)
  }

  lemma OthersStayReady(existing: set<Key>, s: Reading, t: Reading, decls: seq<Declaration>, enums: bool)
    requires decls != [] && UniqueDefinitions(decls) && Added(s, t, decls[0])
    requires forall d :: d in decls && d.IsEnum() == enums ==> Ready(existing, s, d)
    ensures forall d :: d in decls[1..] && d.IsEnum() == enums ==> Ready(existing, t, d)
  {
    forall d | d in decls[1..] && d.IsEnum() == enums ensures Ready(existing, t, d) {
      var i :| 0 <= i < |decls[1..]| && decls[1..][i] == d;
      assert decls[i + 1] == d && d in decls;
      StaysReady(existing, s, t, decls[0], d);
    }
  }

  lemma TookMore(existing: set<Key>, s: Reading, t: Reading, u: Reading, decls: seq<Declaration>, enums: bool)
    requires decls != [] && decls[0].IsEnum() == enums && Added(s, t, decls[0])
    requires TookChosen(existing, t, u, decls[1..], enums)
    ensures TookChosen(existing, s, u, decls, enums)
  {
    var d := decls[0];
    assert forall e :: e in decls <==> e == d || e in decls[1..];
    forall e | Ready(existing, s, e) && (e.Forward? || e.Symbol() !in Defined(decls, enums))
      ensures Ready(existing, u, e)
    {
      assert d in decls;
      StaysReady(existing, s, t, d, e);
    }
  }

  lemma {:induction false} ChosenAreTaken(existing: set<Key>, s: Reading, decls: seq<Declaration>, enums: bool)
    requires existing <= s.scope && UniqueDefinitions(decls)
    requires forall d :: d in decls && d.IsEnum() == enums ==> Ready(existing, s, d) && BodiesFit(d)
    ensures var r := TakeAll(existing, s, Chosen(decls, enums));
      r.Some? && TookChosen(existing, s, r.value, decls, enums)
    decreases |decls|
  {
    if decls != [] {
      var d, rest := decls[0], decls[1..];
      assert forall e :: e in decls <==> e == d || e in rest;
      if d.IsEnum() == enums {
        DeclarationIsTaken(existing, s, d);
        var t := TakeAll(existing, s, ItemsOf(d)).value;
        OthersStayReady(existing, s, t, decls, enums);
        ChosenAreTaken(existing, t, rest, enums);
        TakeAllConcat(existing, s, ItemsOf(d), Chosen(rest, enums));
        TookMore(existing, s, t, TakeAll(existing, t, Chosen(rest, enums)).value, decls, enums);
      } else {
        ChosenAreTaken(existing, s, rest, enums);
        assert [] + Chosen(rest, enums) == Chosen(rest, enums);
      }
    }
  }

  ghost function Compounds(decls: seq<Declaration>, seen: set<Bytes>): set<Key> {
    set d | d in decls && d.CompoundOf().Some? && d.name !in seen :: d.Symbol()
  }

  /** The compound `d` has been declared forward, unless it was known before. */
  ghost predicate Announced(existing: set<Key>, t: Reading, d: Declaration)
    requires d.CompoundOf().Some?
  {
    d.Symbol() in existing || (d.name in t.incomplete && Some(t.incomplete[d.name]) == d.CompoundOf())
  }

  /** What the loop over the compounds does, for those not yet seen. */
  ghost predicate TookPredeclared(existing: set<Key>, s: Reading, t: Reading, decls: seq<Declaration>,
                                  seen: set<Bytes>) {
    && t.scope == s.scope + Compounds(decls, seen) && t.group == s.group + Compounds(decls, seen)
    && (forall d :: d in decls && d.CompoundOf().Some? && d.name !in seen ==> Announced(existing, t, d))
    && forall n :: n in seen ==> SameAt(s.incomplete, t.incomplete, n)
  }

  lemma TookOneMore(existing: set<Key>, s: Reading, t: Reading, u: Reading, decls: seq<Declaration>, seen: set<Bytes>)
    requires decls != [] && decls[0].CompoundOf().Some? && decls[0].name !in seen && KindsAgree(decls)
    requires decls[0].Symbol() in s.scope ==> decls[0].Symbol() in existing
    requires Take(existing, s, Fwd(decls[0].CompoundOf().value, decls[0].name)) == Some(t)
    requires TookPredeclared(existing, t, u, decls[1..], seen + {decls[0].name})
    ensures TookPredeclared(existing, s, u, decls, seen)
  {
    var d := decls[0];
    var more := seen + {d.name};
    assert forall e :: e in decls <==> e == d || e in decls[1..];
    assert SameAt(t.incomplete, u.incomplete, d.name);
    assert Compounds(decls, seen) == {d.Symbol()} + Compounds(decls[1..], more);
    forall e | e in decls && e.CompoundOf().Some? && e.name !in seen ensures Announced(existing, u, e) {
      if e.name == d.name {
        assert e.Symbol() == d.Symbol();
      } else {
        assert e in decls[1..] && e.name !in more;
      }
    }
    forall n | n in seen ensures SameAt(s.incomplete, u.incomplete, n) {
      assert n in more && SameAt(t.incomplete, u.incomplete, n);
    }
  }

  lemma {:induction false} PredeclaredAreTaken(existing: set<Key>, s: Reading, decls: seq<Declaration>,
                                                 seen: set<Bytes>)
    requires existing <= s.scope && KindsAgree(decls)
    requires forall d :: d in decls && d.CompoundOf().Some? && d.name !in seen && d.Symbol() in s.scope ==>
        d.Symbol() in existing
    ensures var r := TakeAll(existing, s, Predeclared(decls, seen));
      r.Some? && TookPredeclared(existing, s, r.value, decls, seen)
    decreases |decls|
  {
    if decls != [] {
      var d, rest := decls[0], decls[1..];
      assert forall e :: e in decls <==> e == d || e in rest;
      if d.CompoundOf().Some? && d.name !in seen {
        var x, items := Fwd(d.CompoundOf().value, d.name), Predeclared(rest, seen + {d.name});
        var t := Take(existing, s, x).value;
        PredeclaredAreTaken(existing, t, rest, seen + {d.name});
        assert ([x] + items)[0] == x && ([x] + items)[1..] == items;
        TookOneMore(existing, s, t, TakeAll(existing, t, items).value, decls, seen);
      } else {
        PredeclaredAreTaken(existing, s, rest, seen);
      }
    }
  }

  lemma AllAreReady(existing: set<Key>, t: Reading, decls: seq<Declaration>, d: Declaration)
    requires KindsAgree(decls) && d in decls && t.scope == existing + Compounds(decls, {})
    requires forall e :: e in decls && e.CompoundOf().Some? ==> Announced(existing, t, e)
    ensures Ready(existing, t, d)
  {
    if d.CompoundOf().Some? {
      assert d.Symbol() in Compounds(decls, {});
    } else {
      assert forall e :: e in decls && e.CompoundOf().Some? ==> e.Symbol() != d.Symbol();
    }
  }

  lemma SameDefinition(decls: seq<Declaration>, d: Declaration, e: Declaration)
    requires UniqueDefinitions(decls) && d in decls && e in decls
    requires !d.Forward? && !e.Forward? && d.Symbol() == e.Symbol()
    ensures d == e
  {
    var i :| 0 <= i < |decls| && decls[i] == d;
    var j :| 0 <= j < |decls| && decls[j] == e;
    assert i == j;
  }

  lemma OtherIsNotEnum(decls: seq<Declaration>, d: Declaration)
    requires UniqueDefinitions(decls) && d in decls && !d.IsEnum() && !d.Forward?
    ensures d.Symbol() !in Defined(decls, true)
  {
    forall e | e in decls && e.IsEnum() ensures e.Symbol() != d.Symbol() {
      if e.Symbol() == d.Symbol() {
        SameDefinition(decls, d, e);
      }
    }
  }

  lemma EnumsAreTaken(existing: set<Key>, s: Reading, decls: seq<Declaration>)
    requires existing <= s.scope && UniqueDefinitions(decls)
    requires forall d :: d in decls ==> BodiesFit(d) && Ready(existing, s, d)
    ensures var r := TakeAll(existing, s, Chosen(decls, true));
      && r.Some?
      && r.value.scope == s.scope + WrittenBy(decls, true) && r.value.group == s.group + WrittenBy(decls, true)
      && forall d :: d in decls && !d.IsEnum() ==> Ready(existing, r.value, d)
  {
    ChosenAreTaken(existing, s, decls, true);
    var t := TakeAll(existing, s, Chosen(decls, true)).value;
    forall d | d in decls && !d.IsEnum() ensures Ready(existing, t, d) {
      if !d.Forward? {
        OtherIsNotEnum(decls, d);
      }
    }
  }

  lemma DefinitionsAreTaken(existing: set<Key>, s: Reading, decls: seq<Declaration>)
    requires existing <= s.scope && UniqueDefinitions(decls)
    requires forall d :: d in decls ==> BodiesFit(d) && Ready(existing, s, d)
    ensures var r, w := TakeAll(existing, s, Chosen(decls, true) + Chosen(decls, false)), Written(decls);
      r.Some? && r.value.scope == s.scope + w && r.value.group == s.group + w
  {
    EnumsAreTaken(existing, s, decls);
    var t := TakeAll(existing, s, Chosen(decls, true)).value;
    ChosenAreTaken(existing, t, decls, false);
    TakeAllConcat(existing, s, Chosen(decls, true), Chosen(decls, false));
    assert Written(decls) == WrittenBy(decls, true) + WrittenBy(decls, false);
  }

  /** All declarations are taken, whatever of the module was known before. */
  lemma ModuleIsTaken(existing: set<Key>, decls: seq<Declaration>)
    requires WellFormed(decls)
    ensures var r := TakeAll(existing, Reading(existing, {}, map[], {}), ModuleItems(decls));
      r.Some? && r.value.scope == existing + Written(decls) && r.value.group == Written(decls)
  {
    var s, first := Reading(existing, {}, map[], {}), Predeclared(decls, {});
    PredeclaredAreTaken(existing, s, decls, {});
    var t := TakeAll(existing, s, first).value;
    forall d | d in decls ensures Ready(existing, t, d) {
      AllAreReady(existing, t, decls, d);
    }
    DefinitionsAreTaken(existing, t, decls);
    TakeAllConcat(existing, s, first, Chosen(decls, true) + Chosen(decls, false));
    assert Compounds(decls, {}) <= Written(decls);
  }

  lemma {:induction false} ChosenFit(decls: seq<Declaration>, enums: bool)
    requires forall d :: d in decls ==> BodiesFit(d)
    ensures forall x :: x in Chosen(decls, enums) ==> BodyFits(x)
  {
    if decls != [] {
      assert decls[0] in decls && forall d :: d in decls[1..] ==> d in decls;
      ChosenFit(decls[1..], enums);
    }
  }

  lemma {:induction false} PredeclaredFit(decls: seq<Declaration>, seen: set<Bytes>)
    ensures forall x :: x in Predeclared(decls, seen) ==> BodyFits(x)
    decreases |decls|
  {
    if decls != [] {
      PredeclaredFit(decls[1..], if decls[0].CompoundOf().Some? then seen + {decls[0].name} else seen);
      PredeclaredFit(decls[1..], seen);
    }
  }

  lemma ItemsFit(decls: seq<Declaration>)
    requires WellFormed(decls)
    ensures forall x :: x in ModuleItems(decls) ==> BodyFits(x)
  {
    ChosenFit(decls, true);
    ChosenFit(decls, false);
    PredeclaredFit(decls, {});
  }

  /** Reading an embedded module, of which any symbols may be known already, collects exactly
      the symbols that were written, adds them to the scope, and stops on the end record. */
  lemma ModuleIsRead(m: Module, scope: set<Key>, tail: seq<Rec>)
    requires WellFormed(m.decls)
    ensures ModuleRecs(m)[0] == Rec(EMBED_MODULE_BEGIN, m.name)
    ensures var r := ReadModule((ModuleRecs(m) + tail)[1..], scope);
      && r.Some? && r.value.1 == tail
      && r.value.0.group == Written(m.decls) && r.value.0.scope == scope + Written(m.decls)
  {
    var items, end := ModuleItems(m.decls), Rec(EMBED_MODULE_END, []);
    ItemsFit(m.decls);
    BehindBegin(Rec(EMBED_MODULE_BEGIN, m.name), RecsOf(items), end, tail);
    ItemsAreTaken(items, tail, scope, Reading(scope, {}, map[], {}));
    ModuleIsTaken(scope, m.decls);
  }

  lemma BehindBegin(begin: Rec, recs: seq<Rec>, end: Rec, tail: seq<Rec>)
    ensures ([begin] + (recs + [end]) + tail)[1..] == recs + ([end] + tail)
  {
  }

  /** The collected symbols are those of the declarations: exactly when there is no overload
      set without functions. */
  lemma CollectedAreAllIff(decls: seq<Declaration>)
    requires WellFormed(decls)
    ensures Written(decls) == Names(decls) <==> forall d :: d in decls && d.Overloads? ==> d.bodies != []
  {
    forall d | d in decls && d.Overloads? && d.bodies == [] ensures d.Symbol() !in Written(decls) {
      forall e | e in decls && ItemsOf(e) != [] ensures e.Symbol() != d.Symbol() {
        if e.Symbol() == d.Symbol() && !e.Forward? {
          SameDefinition(decls, d, e);
        }
      }
    }
    if forall d :: d in decls && d.Overloads? ==> d.bodies != [] {
      assert forall d :: d in decls ==> ItemsOf(d) != [];
    }
  }

  /** A written type alias is such a group. */
  lemma AliasIsAGroup(t: DqmTypes.Types, r: DqmTypes.TypeRef)
    requires t.Valid() && r < |t.nodes| && t.nodes[r].Alias? && DqmTypeSpec.WriteAliasDecl(t, r).Ok?
    ensures var body := DqmTypeSpec.WriteSpec(t, t.nodes[r].target).value;
      && DqmTypeSpec.WriteAliasDecl(t, r).value == ItemRecs(Group(Alias, t.nodes[r].name, body))
      && BodyFits(Group(Alias, t.nodes[r].name, body))
  {
    var body := DqmTypeSpec.WriteSpec(t, t.nodes[r].target).value;
    DqmTypeSpec.NoGroupInSpec(t, t.nodes[r].target);
    DqmTypeSpec.FlatIsBalanced(body, DqmTypeSpec.TYPE_BEGIN, DqmTypeSpec.TYPE_END);
    ConcatAssociative([Rec(DqmTypeSpec.TYPE_BEGIN, t.nodes[r].name)], body, [Rec(DqmTypeSpec.TYPE_END, [])]);
  }
}
