/** The order of the call list: the names stand in it as the used modules offer them first. */
module ModuleInitOrder {
  import opened Common
  import opened ModuleInit

  function NonEmpty(names: seq<Name>): seq<Name> {
    if names == [] then [] else (if names[0] == "" then [] else [names[0]]) + NonEmpty(names[1..])
  }

  /** What one used module offers: its own initialiser, then the names of its list. */
  function OfferedBy(use: Intf): seq<Name> {
    (if use.init.Some? then [use.init.value] else []) + NonEmpty(use.deps)
  }

  /** What all used modules offer, one after the other. */
  function Offered(uses: seq<Intf>): seq<Name> {
    if uses == [] then [] else OfferedBy(uses[0]) + Offered(uses[1..])
  }

  /** `list[k]` is offered at `at[k]` and nowhere before. */
  ghost predicate FirstAt(offered: seq<Name>, name: Name, i: nat) {
    && i < |offered| && offered[i] == name
    && forall j :: 0 <= j < i ==> offered[j] != name
  }

  ghost predicate AreFirsts(offered: seq<Name>, list: seq<Name>, at: seq<nat>) {
    && |at| == |list| && (forall a, b :: 0 <= a < b < |at| ==> at[a] < at[b])
    && forall k :: 0 <= k < |list| ==> FirstAt(offered, list[k], at[k])
  }

  // ----- one pass over what is offered

  lemma {:induction false} ReadBackConcat(list: seq<Name>, a: seq<Name>, b: seq<Name>)
    ensures ReadBack(list, a + b) == ReadBack(ReadBack(list, a), b)
    decreases |a|
  {
    if a == [] {
      assert a + b == b;
    } else {
      assert (a + b)[0] == a[0] && (a + b)[1..] == a[1..] + b;
      ReadBackConcat(AddName(list, a[0]), a[1..], b);
    }
  }

  lemma ReadBackOne(list: seq<Name>, name: Name)
    ensures ReadBack(list, [name]) == AddName(list, name)
  {
    assert [name][1..] == [];
    assert ReadBack(AddName(list, name), []) == AddName(list, name);
  }

  lemma {:induction false} ImportedInOnePass(list: seq<Name>, names: seq<Name>)
    ensures AddAllImported(list, names) == ReadBack(list, NonEmpty(names))
    decreases |names|
  {
    if names != [] {
      ImportedInOnePass(AddImported(list, names[0]), names[1..]);
      ReadBackConcat(list, if names[0] == "" then [] else [names[0]], NonEmpty(names[1..]));
      ReadBackOne(list, names[0]);
    }
  }

  lemma UseInOnePass(list: seq<Name>, use: Intf)
    ensures AddUse(list, use) == ReadBack(list, OfferedBy(use))
  {
    ImportedInOnePass(if use.init.Some? then AddName(list, use.init.value) else list, use.deps);
    ReadBackConcat(list, if use.init.Some? then [use.init.value] else [], NonEmpty(use.deps));
    if use.init.Some? {
      ReadBackOne(list, use.init.value);
    }
  }

  lemma {:induction false} UsesInOnePass(list: seq<Name>, uses: seq<Intf>)
    ensures AddUses(list, uses) == ReadBack(list, Offered(uses))
    decreases |uses|
  {
    if uses != [] {
      UseInOnePass(list, uses[0]);
      UsesInOnePass(AddUse(list, uses[0]), uses[1..]);
      ReadBackConcat(list, OfferedBy(uses[0]), Offered(uses[1..]));
    }
  }

  // ----- what a pass keeps

  lemma FirstsStay(offered: seq<Name>, name: Name, list: seq<Name>, at: seq<nat>)
    requires AreFirsts(offered, list, at)
    ensures AreFirsts(offered + [name], list, at)
  {
    forall k | 0 <= k < |list| ensures FirstAt(offered + [name], list[k], at[k]) {
      assert FirstAt(offered, list[k], at[k]);
    }
  }

  lemma FirstsGrow(offered: seq<Name>, name: Name, list: seq<Name>, at: seq<nat>)
    requires AreFirsts(offered, list, at) && name !in offered
    ensures AreFirsts(offered + [name], list + [name], at + [|offered|])
  {
    var longer, more, next := offered + [name], list + [name], at + [|offered|];
    FirstsStay(offered, name, list, at);
    assert FirstAt(longer, more[|list|], next[|list|]);
    forall k | 0 <= k < |list| ensures FirstAt(longer, more[k], next[k]) {
      assert FirstAt(longer, list[k], at[k]);
    }
    forall a, b | 0 <= a < b < |next| ensures next[a] < next[b] {
      assert FirstAt(offered, list[a], at[a]);
    }
  }

  lemma {:induction false} PassTakesFirsts(offered: seq<Name>) returns (at: seq<nat>)
    ensures AreFirsts(offered, ReadBack([], offered), at)
    ensures forall n :: n in offered ==> n in ReadBack([], offered)
    decreases |offered|
  {
    if offered == [] {
      at := [];
    } else {
      var init, last := offered[..|offered| - 1], offered[|offered| - 1];
      at := PassTakesFirsts(init);
      var list := ReadBack([], init);
      assert offered == init + [last];
      ReadBackConcat([], init, [last]);
      ReadBackOne(list, last);
      if last in list {
        FirstsStay(init, last, list, at);
      } else {
        FirstsGrow(init, last, list, at);
        at := at + [|init|];
      }
    }
  }

  /** The call list names what the used modules offer, each name once and in the order in
      which it is offered first; the module itself comes last. */
  lemma ListedAsOffered(uses: seq<Intf>, own: Option<Name>) returns (at: seq<nat>)
    ensures AreFirsts(Offered(uses), CallList(uses, own, false), at)
    ensures forall n :: n in Offered(uses) ==> n in CallList(uses, own, false)
    ensures own.Some? && own.value !in Offered(uses) ==>
      CallList(uses, own, true) == CallList(uses, own, false) + [own.value]
    ensures own.None? || own.value in Offered(uses) ==> CallList(uses, own, true) == CallList(uses, own, false)
  {
    UsesInOnePass([], uses);
    at := PassTakesFirsts(Offered(uses));
    var list := CallList(uses, own, false);
    if own.Some? && own.value in list {
      var k :| 0 <= k < |list| && list[k] == own.value;
      assert FirstAt(Offered(uses), list[k], at[k]);
    }
  }
}
