/** Ownership at run time: what the code generated for autofree slots does to the heap, over
    assignments, moves and every way of leaving scopes in normal control flow. */
module AutoFree {
  import opened Common

  type Slot = nat
  type Obj = nat

  /** `slots` are the storage locations in scope, `scopes` the slots each open scope owns in
      declaration order, innermost scope last. Objects are numbered as they are created;
      `freed` lists them as they are destroyed. */
  datatype State = State(slots: map<Slot, Option<Obj>>, scopes: seq<seq<Slot>>, created: nat, freed: seq<Obj>)

  // ----- the generated code, on values

  /** Destroys and frees what the slot holds, and leaves nil. A slot without storage, whose
      declaration has not been reached, is skipped. */
  function Cleaned(s: State, a: Slot): State {
    if a in s.slots && s.slots[a].Some? then s.(slots := s.slots[a := None], freed := s.freed + [s.slots[a].value])
    else s
  }

  /** Cleans slots in the reverse order of their declaration. */
  function CleanedAll(s: State, owned: seq<Slot>): State
    decreases |owned|
  {
    if owned == [] then s else CleanedAll(Cleaned(s, owned[|owned| - 1]), owned[..|owned| - 1])
  }

  /** Assigning a new object frees the old one before the value is evaluated. */
  function AssignedFresh(s: State, a: Slot): State {
    var t := Cleaned(s, a);
    t.(slots := t.slots[a := Some(t.created)], created := t.created + 1)
  }

  function AssignedNil(s: State, a: Slot): State {
    var t := Cleaned(s, a);
    t.(slots := t.slots[a := None])
  }

  /** Moving to itself does nothing; otherwise the source value is loaded before the target
      is cleaned, and the source becomes nil. */
  function Moved(s: State, dst: Slot, src: Slot): State
    requires dst in s.slots && src in s.slots
  {
    if dst == src then s
    else
      var value := s.slots[src];
      var t := Cleaned(s, dst);
      t.(slots := t.slots[dst := value][src := None])
  }

  function Without(slots: map<Slot, Option<Obj>>, gone: seq<Slot>): map<Slot, Option<Obj>> {
    map a | a in slots && a !in gone :: slots[a]
  }

  /** Leaving the innermost scope: its slots are cleaned and their storage is gone. */
  function LeftScope(s: State): State
    requires s.scopes != []
  {
    var owned := s.scopes[|s.scopes| - 1];
    var t := CleanedAll(s, owned);
    t.(slots := Without(t.slots, owned), scopes := s.scopes[..|s.scopes| - 1])
  }

  /** Leaving `n` scopes at once: the end of a block, break, continue, and return. */
  function LeftScopes(s: State, n: nat): State
    requires n <= |s.scopes|
    decreases n
  {
    if n == 0 then s else LeftScopes(LeftScope(s), n - 1)
  }

  // ----- the generated code, in place

  class Machine {
    var slots: map<Slot, Option<Obj>>
    var scopes: seq<seq<Slot>>
    var created: nat
    var freed: seq<Obj>

    ghost function View(): State
      reads this
    {
      State(slots, scopes, created, freed)
    }

    method Cleanup(a: Slot)
      modifies `slots, `freed
      ensures View() == Cleaned(old(View()), a)
    {
      if a in slots {
        var value := slots[a];
        if value.Some? {
          freed := freed + [value.value];
          slots := slots[a := None];
        }
      }
    }

    method AssignFresh(a: Slot)
      modifies `slots, `freed, `created
      ensures View() == AssignedFresh(old(View()), a)
    {
      Cleanup(a);
      var value := created;
      created := created + 1;
      slots := slots[a := Some(value)];
    }

    method Move(dst: Slot, src: Slot)
      requires dst in slots && src in slots
      modifies `slots, `freed
      ensures View() == Moved(old(View()), dst, src)
    {
      if dst != src {
        var value := slots[src];
        Cleanup(dst);
        slots := slots[dst := value];
        slots := slots[src := None];
      }
    }

    /** The destructors of one scope, last declared first. */
    method EmitOwnedObjectDestructors(owned: seq<Slot>)
      modifies `slots, `freed
      ensures View() == CleanedAll(old(View()), owned)
    {
      var i := |owned|;
      assert owned[..|owned|] == owned;
      while i > 0
        invariant 0 <= i <= |owned|
        invariant CleanedAll(old(View()), owned) == CleanedAll(View(), owned[..i])
        invariant scopes == old(scopes) && created == old(created)
      {
        assert owned[..i][..i - 1] == owned[..i - 1];
        Cleanup(owned[i - 1]);
        i := i - 1;
      }
    }

    /** Walks outwards over `n` scopes and leaves them. */
    method EmitOwnedObjectDestructorsUntil(n: nat)
      requires n <= |scopes|
      modifies this
      ensures View() == LeftScopes(old(View()), n)
    {
      var left := n;
      while left > 0
        invariant 0 <= left <= |scopes|
        invariant LeftScopes(old(View()), n) == LeftScopes(View(), left)
      {
        var owned := scopes[|scopes| - 1];
        EmitOwnedObjectDestructors(owned);
        slots := Without(slots, owned);
        scopes := scopes[..|scopes| - 1];
        left := left - 1;
      }
    }
  }

  // ----- runs

  datatype Op =
    | Enter
    | Declare(a: Slot)
    | Fresh(a: Slot)
    | Nil(a: Slot)
    | MoveTo(dst: Slot, src: Slot)
    | Leave(n: nat)

  predicate InScope(s: State, a: Slot) {
    exists i, j :: 0 <= i < |s.scopes| && 0 <= j < |s.scopes[i]| && s.scopes[i][j] == a
  }

  /** What the compiler lets a program do: use slots that are in scope, declare new ones in
      an open scope, leave scopes that are open. */
  predicate Legal(s: State, op: Op) {
    match op
    case Enter => true
    case Declare(a) => s.scopes != [] && !InScope(s, a)
    case Fresh(a) => a in s.slots
    case Nil(a) => a in s.slots
    case MoveTo(d, r) => d in s.slots && r in s.slots
    case Leave(n) => n <= |s.scopes|
  }

  function Do(s: State, op: Op): State
    requires Legal(s, op)
  {
    match op
    case Enter => s.(scopes := s.scopes + [[]])
    case Declare(a) =>
      var k := |s.scopes| - 1;
      s.(scopes := s.scopes[k := s.scopes[k] + [a]], slots := s.slots[a := None])
    case Fresh(a) => AssignedFresh(s, a)
    case Nil(a) => AssignedNil(s, a)
    case MoveTo(d, r) => Moved(s, d, r)
    case Leave(n) => LeftScopes(s, n)
  }

  /** Every operation of a run is legal where it happens. */
  predicate LegalRun(s: State, ops: seq<Op>)
    decreases |ops|
  {
    ops == [] || (Legal(s, ops[0]) && LegalRun(Do(s, ops[0]), ops[1..]))
  }

  function Run(s: State, ops: seq<Op>): State
    requires LegalRun(s, ops)
    decreases |ops|
  {
    if ops == [] then s else Run(Do(s, ops[0]), ops[1..])
  }

  const START := State(map[], [], 0, [])

  // ----- unique ownership

  ghost predicate Holds(s: State, a: Slot, o: Obj) {
    a in s.slots && s.slots[a] == Some(o)
  }

  /** Every object that was created is held by exactly one slot, or it has been freed, exactly
      once. */
  ghost predicate Owned(s: State) {
    && (forall o: Obj {:trigger o in s.freed} :: o in s.freed ==> o < s.created)
    && (forall i, j :: 0 <= i < j < |s.freed| ==> s.freed[i] != s.freed[j])
    && (forall a: Slot, o: Obj :: Holds(s, a, o) ==> o < s.created && o !in s.freed)
    && (forall a: Slot, b: Slot, o: Obj :: Holds(s, a, o) && Holds(s, b, o) ==> a == b)
    && (forall o: Obj {:trigger o in s.freed} :: o < s.created && o !in s.freed ==> exists a: Slot :: Holds(s, a, o))
  }

  /** The storage locations are those of the open scopes, each in one place. */
  ghost predicate Scoped(s: State) {
    && (forall a: Slot {:trigger a in s.slots} :: a in s.slots <==> InScope(s, a))
    && (forall i, j, k, l ::
         (0 <= i < |s.scopes| && 0 <= j < |s.scopes[i]| && 0 <= k < |s.scopes| && 0 <= l < |s.scopes[k]|
          && s.scopes[i][j] == s.scopes[k][l])
         ==> i == k && j == l)
  }

  ghost predicate Inv(s: State) {
    Owned(s) && Scoped(s)
  }

  /** Cleaning changes nothing but the slot and what was in it. */
  ghost predicate OnlyCleaned(s: State, t: State, owned: seq<Slot>) {
    && t.scopes == s.scopes && t.created == s.created && t.slots.Keys == s.slots.Keys
    && (forall b: Slot :: b in s.slots ==> t.slots[b] == if b in owned then None else s.slots[b])
    && (forall o: Obj {:trigger o in t.freed} ::
         o in t.freed <==> o in s.freed || exists b: Slot :: b in owned && Holds(s, b, o))
  }

  lemma CleanedOwned(s: State, a: Slot)
    requires Owned(s)
    ensures Owned(Cleaned(s, a)) && OnlyCleaned(s, Cleaned(s, a), [a])
  {
    var t := Cleaned(s, a);
    if t != s {
      assert Holds(s, a, s.slots[a].value);
      forall o: Obj | o < t.created && o !in t.freed ensures exists b: Slot :: Holds(t, b, o) {
        assert o !in s.freed;
        var b: Slot :| Holds(s, b, o);
        assert Holds(t, b, o);
      }
      assert forall b: Slot, o: Obj :: Holds(t, b, o) ==> Holds(s, b, o);
    } else {
      assert forall b: Slot, o: Obj :: b in [a] ==> !Holds(s, b, o);
    }
  }

  lemma CleanedTwice(s: State, t: State, u: State, front: seq<Slot>, last: Slot)
    requires OnlyCleaned(s, t, [last]) && OnlyCleaned(t, u, front)
    ensures OnlyCleaned(s, u, front + [last])
  {
    forall o: Obj ensures o in u.freed <==> o in s.freed || exists b: Slot :: b in front + [last] && Holds(s, b, o) {
      if b: Slot :| b in front + [last] && Holds(s, b, o) {
        if b != last {
          assert Holds(t, b, o) && b in front;
        } else {
          assert b in [last];
        }
      }
      if b: Slot :| b in front && Holds(t, b, o) {
        assert b in front + [last] && Holds(s, b, o);
      }
    }
  }

  lemma {:induction false} CleanedAllOwned(s: State, owned: seq<Slot>)
    requires Owned(s)
    ensures Owned(CleanedAll(s, owned)) && OnlyCleaned(s, CleanedAll(s, owned), owned)
    decreases |owned|
  {
    if owned != [] {
      var front, last := owned[..|owned| - 1], owned[|owned| - 1];
      CleanedOwned(s, last);
      CleanedAllOwned(Cleaned(s, last), front);
      CleanedTwice(s, Cleaned(s, last), CleanedAll(s, owned), front, last);
      assert front + [last] == owned;
    }
  }

  lemma {:induction false} FreedOnlyGrows(s: State, owned: seq<Slot>)
    ensures s.freed <= CleanedAll(s, owned).freed
    decreases |owned|
  {
    if owned != [] {
      FreedOnlyGrows(Cleaned(s, owned[|owned| - 1]), owned[..|owned| - 1]);
    }
  }

  /** `p` was freed before `o`. */
  ghost predicate FreedBefore(freed: seq<Obj>, p: Obj, o: Obj) {
    exists a, b :: 0 <= a < b < |freed| && freed[a] == p && freed[b] == o
  }

  /** Of two slots of a scope, the one declared later loses its object first. */
  lemma {:induction false} LastDeclaredFreedFirst(s: State, owned: seq<Slot>, i: nat, j: nat, o: Obj, p: Obj)
    requires Owned(s) && i < j < |owned| && Holds(s, owned[i], o) && Holds(s, owned[j], p)
    requires forall k, l :: 0 <= k < l < |owned| ==> owned[k] != owned[l]
    ensures FreedBefore(CleanedAll(s, owned).freed, p, o)
    decreases |owned|
  {
    var front, last := owned[..|owned| - 1], owned[|owned| - 1];
    var t, u := Cleaned(s, last), CleanedAll(s, owned);
    CleanedOwned(s, last);
    assert Holds(t, front[i], o);
    if j < |front| {
      LastDeclaredFreedFirst(t, front, i, j, o, p);
    } else {
      FreedOnlyGrows(t, front);
      CleanedAllOwned(t, front);
      assert t.freed == s.freed + [p] && u.freed[|s.freed|] == p;
      assert front[i] in front && o in u.freed;
      var b :| 0 <= b < |u.freed| && u.freed[b] == o;
      assert forall k :: 0 <= k < |t.freed| ==> u.freed[k] == t.freed[k] && t.freed[k] in t.freed;
    }
  }

  lemma SameScopes(s: State, t: State)
    requires Scoped(s) && t.scopes == s.scopes && t.slots.Keys == s.slots.Keys
    ensures Scoped(t)
  {
    assert forall a :: InScope(t, a) <==> InScope(s, a);
  }

  /** A new object goes into the empty slot `a`. */
  lemma StoreNew(t: State, u: State, a: Slot)
    requires Owned(t) && a in t.slots && t.slots[a] == None
    requires u == t.(slots := t.slots[a := Some(t.created)], created := t.created + 1)
    ensures Owned(u)
  {
    forall b: Slot, o: Obj ensures Holds(u, b, o) <==> Holds(t, b, o) || (b == a && o == t.created) {
    }
    forall o: Obj | o < u.created && o !in u.freed ensures exists b: Slot :: Holds(u, b, o) {
      if o < t.created {
        assert o !in t.freed;
        var b: Slot :| Holds(t, b, o);
        assert Holds(u, b, o);
      } else {
        assert Holds(u, a, o);
      }
    }
  }

  lemma FreshOwned(s: State, a: Slot)
    requires Inv(s) && a in s.slots
    ensures Inv(AssignedFresh(s, a))
  {
    CleanedOwned(s, a);
    StoreNew(Cleaned(s, a), AssignedFresh(s, a), a);
    SameScopes(s, AssignedFresh(s, a));
  }

  lemma NilOwned(s: State, a: Slot)
    requires Inv(s) && a in s.slots
    ensures Inv(AssignedNil(s, a))
  {
    CleanedOwned(s, a);
    assert AssignedNil(s, a).slots == Cleaned(s, a).slots;
    SameScopes(s, AssignedNil(s, a));
  }

  /** Ownership passes from `src` to the empty `dst`. */
  lemma HandOver(t: State, u: State, dst: Slot, src: Slot)
    requires Owned(t) && dst in t.slots && src in t.slots && dst != src && t.slots[dst] == None
    requires u == t.(slots := t.slots[dst := t.slots[src]][src := None])
    ensures Owned(u)
  {
    forall b: Slot, o: Obj ensures Holds(u, b, o) <==> b != src && Holds(t, if b == dst then src else b, o) {
    }
    forall o: Obj | o < u.created && o !in u.freed ensures exists b: Slot :: Holds(u, b, o) {
      assert o !in t.freed;
      var b: Slot :| Holds(t, b, o);
      assert Holds(u, if b == src then dst else b, o);
    }
  }

  lemma MoveOwned(s: State, dst: Slot, src: Slot)
    requires Inv(s) && dst in s.slots && src in s.slots
    ensures Inv(Moved(s, dst, src))
  {
    if dst != src {
      CleanedOwned(s, dst);
      HandOver(Cleaned(s, dst), Moved(s, dst, src), dst, src);
      SameScopes(s, Moved(s, dst, src));
    }
  }

  // ----- what each operation does

  /** The object that `a` held, if any, has just been freed; nothing else has. */
  ghost predicate FreedOnly(s: State, t: State, a: Slot)
    requires a in s.slots
  {
    t.freed == match s.slots[a] case None => s.freed case Some(o) => s.freed + [o]
  }

  /** A move to another slot frees what the target held, hands the source's object over and
      leaves the source nil; a move to itself does nothing. */
  lemma MoveHandsOver(s: State, dst: Slot, src: Slot)
    requires dst in s.slots && src in s.slots
    ensures var t := Moved(s, dst, src);
      && (dst == src ==> t == s)
      && (dst != src ==>
           && t.slots.Keys == s.slots.Keys && t.slots[dst] == s.slots[src] && t.slots[src] == None
           && (forall b: Slot :: b in s.slots && b != dst && b != src ==> t.slots[b] == s.slots[b])
           && FreedOnly(s, t, dst) && t.scopes == s.scopes && t.created == s.created)
  {
  }

  /** Assigning a new object: the slot holds it, and what it held before has been freed. */
  lemma FreshReplaces(s: State, a: Slot)
    requires a in s.slots
    ensures var t := AssignedFresh(s, a);
      && t.slots.Keys == s.slots.Keys && t.slots[a] == Some(s.created) && t.created == s.created + 1
      && (forall b: Slot :: b in s.slots && b != a ==> t.slots[b] == s.slots[b])
      && FreedOnly(s, t, a) && t.scopes == s.scopes
  {
  }

  /** Assigning nil frees what the slot held. */
  lemma NilReleases(s: State, a: Slot)
    requires a in s.slots
    ensures var t := AssignedNil(s, a);
      && t.slots.Keys == s.slots.Keys && t.slots[a] == None && t.created == s.created
      && (forall b: Slot :: b in s.slots && b != a ==> t.slots[b] == s.slots[b])
      && FreedOnly(s, t, a) && t.scopes == s.scopes
  {
  }

  /** A declaration opens an empty slot in the innermost scope; a block opens a scope. */
  lemma DeclareOpens(s: State, a: Slot)
    requires Legal(s, Declare(a))
    ensures var t, n := Do(s, Declare(a)), |s.scopes|;
      && t.slots == s.slots[a := None] && t.freed == s.freed && t.created == s.created
      && t.scopes == s.scopes[..n - 1] + [s.scopes[n - 1] + [a]]
    ensures Do(s, Enter) == State(s.slots, s.scopes + [[]], s.created, s.freed)
  {
  }

  lemma InnerSlots(s: State, a: Slot)
    requires Scoped(s) && s.scopes != []
    ensures InScope(s, a) <==> a in s.scopes[|s.scopes| - 1] || InScope(s.(scopes := s.scopes[..|s.scopes| - 1]), a)
    ensures a in s.scopes[|s.scopes| - 1] ==> !InScope(s.(scopes := s.scopes[..|s.scopes| - 1]), a)
  {
    var outer := s.(scopes := s.scopes[..|s.scopes| - 1]);
    if InScope(s, a) {
      var i, j :| 0 <= i < |s.scopes| && 0 <= j < |s.scopes[i]| && s.scopes[i][j] == a;
      assert i < |s.scopes| - 1 ==> outer.scopes[i][j] == a;
    }
    if InScope(outer, a) {
      var i, j :| 0 <= i < |outer.scopes| && 0 <= j < |outer.scopes[i]| && outer.scopes[i][j] == a;
      assert s.scopes[i][j] == a;
    }
  }

  /** What leaving scopes does: the objects of the exited slots are freed, and every slot of
      a scope that stays open keeps what it holds. */
  ghost predicate OnlyLeft(s: State, t: State) {
    && t.created == s.created && t.scopes <= s.scopes
    && (forall b: Slot {:trigger b in t.slots} :: b in t.slots ==> b in s.slots && t.slots[b] == s.slots[b])
    && (forall o: Obj {:trigger o in t.freed} ::
         o in t.freed <==> o in s.freed || exists b: Slot :: b !in t.slots && Holds(s, b, o))
  }

  lemma LeftScopeOwned(s: State)
    requires Inv(s) && s.scopes != []
    ensures Inv(LeftScope(s)) && OnlyLeft(s, LeftScope(s))
  {
    var owned := s.scopes[|s.scopes| - 1];
    CleanedAllOwned(s, owned);
    var t, u := CleanedAll(s, owned), LeftScope(s);
    forall a: Slot ensures a in u.slots <==> InScope(u, a) {
      InnerSlots(s, a);
      assert InScope(u, a) <==> InScope(s.(scopes := s.scopes[..|s.scopes| - 1]), a);
    }
    assert forall a: Slot, o: Obj :: Holds(u, a, o) <==> Holds(t, a, o);
    forall o: Obj ensures o in u.freed <==> o in s.freed || exists b: Slot :: b !in u.slots && Holds(s, b, o) {
      if b: Slot :| b !in u.slots && Holds(s, b, o) {
        assert b in owned;
      }
      if b: Slot :| b in owned && Holds(s, b, o) {
        assert b !in u.slots;
      }
    }
  }

  lemma LeftTwice(s: State, t: State, u: State)
    requires OnlyLeft(s, t) && OnlyLeft(t, u)
    ensures OnlyLeft(s, u)
  {
    forall o: Obj ensures o in u.freed <==> o in s.freed || exists b: Slot :: b !in u.slots && Holds(s, b, o) {
      if b: Slot :| b !in u.slots && Holds(s, b, o) {
        assert b in t.slots ==> Holds(t, b, o);
      }
      if b: Slot :| b !in u.slots && Holds(t, b, o) {
        assert Holds(s, b, o);
      }
    }
  }

  lemma {:induction false} LeftScopesOwned(s: State, n: nat)
    requires Inv(s) && n <= |s.scopes|
    ensures Inv(LeftScopes(s, n)) && OnlyLeft(s, LeftScopes(s, n)) && |LeftScopes(s, n).scopes| == |s.scopes| - n
    decreases n
  {
    if n == 0 {
      assert forall b: Slot, o: Obj :: Holds(s, b, o) ==> b in s.slots;
    } else {
      LeftScopeOwned(s);
      LeftScopesOwned(LeftScope(s), n - 1);
      LeftTwice(s, LeftScope(s), LeftScopes(s, n));
    }
  }

  lemma DeclareInv(s: State, a: Slot)
    requires Inv(s) && s.scopes != [] && !InScope(s, a)
    ensures Inv(Do(s, Declare(a)))
  {
    var t, k := Do(s, Declare(a)), |s.scopes| - 1;
    forall b: Slot ensures b in t.slots <==> InScope(t, b) {
      if InScope(s, b) {
        var i, j :| 0 <= i < |s.scopes| && 0 <= j < |s.scopes[i]| && s.scopes[i][j] == b;
        assert t.scopes[i][j] == b;
      }
      if b == a {
        assert t.scopes[k][|s.scopes[k]|] == a;
      }
    }
    assert forall b: Slot, o: Obj :: Holds(t, b, o) <==> Holds(s, b, o);
  }

  lemma EnterInv(s: State)
    requires Inv(s)
    ensures Inv(Do(s, Enter))
  {
    var t := Do(s, Enter);
    forall b: Slot ensures InScope(t, b) <==> InScope(s, b) {
      if InScope(s, b) {
        var i, j :| 0 <= i < |s.scopes| && 0 <= j < |s.scopes[i]| && s.scopes[i][j] == b;
        assert t.scopes[i][j] == b;
      }
    }
    assert forall b: Slot, o: Obj :: Holds(t, b, o) <==> Holds(s, b, o);
  }

  lemma DoKeepsInv(s: State, op: Op)
    requires Inv(s) && Legal(s, op)
    ensures Inv(Do(s, op))
  {
    match op
    case Enter => EnterInv(s);
    case Declare(a) => DeclareInv(s, a);
    case Fresh(a) => FreshOwned(s, a);
    case Nil(a) => NilOwned(s, a);
    case MoveTo(d, r) => MoveOwned(s, d, r);
    case Leave(n) => LeftScopesOwned(s, n);
  }

  /** In every run each object is held by exactly one slot or has been freed exactly once,
      and only slots of open scopes hold anything. */
  lemma {:induction false} EveryRunOwns(s: State, ops: seq<Op>)
    requires Inv(s) && LegalRun(s, ops)
    ensures Inv(Run(s, ops))
    decreases |ops|
  {
    if ops != [] {
      DoKeepsInv(s, ops[0]);
      EveryRunOwns(Do(s, ops[0]), ops[1..]);
    }
  }

  /** When all scopes have been left, every object that was ever created has been freed
      exactly once. */
  lemma NothingLeaks(ops: seq<Op>)
    requires LegalRun(START, ops) && Run(START, ops).scopes == []
    ensures var s := Run(START, ops);
      && (forall o: Obj :: o in s.freed <==> o < s.created)
      && (forall i, j :: 0 <= i < j < |s.freed| ==> s.freed[i] != s.freed[j])
  {
    EveryRunOwns(START, ops);
    var s := Run(START, ops);
    assert forall a: Slot :: !InScope(s, a);
  }

  /** A return, break or continue after any run frees exactly what the exited scopes own. */
  lemma LeavingFreesExactlyTheExited(ops: seq<Op>, n: nat)
    requires LegalRun(START, ops) && n <= |Run(START, ops).scopes|
    ensures var s := Run(START, ops);
      var t := LeftScopes(s, n);
      && (forall b: Slot :: b in t.slots ==> b in s.slots && t.slots[b] == s.slots[b])
      && (forall o: Obj :: o in t.freed <==> o in s.freed || exists b: Slot :: b !in t.slots && Holds(s, b, o))
      && (forall b: Slot :: b in t.slots <==> InScope(s.(scopes := s.scopes[..|s.scopes| - n]), b))
  {
    EveryRunOwns(START, ops);
    var s := Run(START, ops);
    LeftScopesOwned(s, n);
    var t := LeftScopes(s, n);
    assert t.scopes == s.scopes[..|s.scopes| - n];
    assert forall b: Slot :: InScope(t, b) <==> InScope(s.(scopes := s.scopes[..|s.scopes| - n]), b);
  }

  lemma {:induction false} RunAppend(s: State, ops: seq<Op>, op: Op)
    requires LegalRun(s, ops + [op])
    ensures LegalRun(s, ops) && Legal(Run(s, ops), op) && Run(s, ops + [op]) == Do(Run(s, ops), op)
    decreases |ops|
  {
    if ops == [] {
      assert ops + [op] == [op] && [op][1..] == [];
    } else {
      assert (ops + [op])[0] == ops[0] && (ops + [op])[1..] == ops[1..] + [op];
      RunAppend(Do(s, ops[0]), ops[1..], op);
    }
  }

  /** What a move does to a state. */
  ghost predicate HandedOver(s: State, t: State, dst: Slot, src: Slot)
    requires dst in s.slots && src in s.slots
  {
    if dst == src then t == s
    else
      && t.slots == s.slots[dst := s.slots[src]][src := None] && FreedOnly(s, t, dst)
      && t.scopes == s.scopes && t.created == s.created
  }

  lemma MovedHandsOver(s: State, dst: Slot, src: Slot)
    requires dst in s.slots && src in s.slots
    ensures HandedOver(s, Moved(s, dst, src), dst, src)
  {
    MoveHandsOver(s, dst, src);
    if dst != src {
      assert Moved(s, dst, src).slots == s.slots[dst := s.slots[src]][src := None];
    }
  }

  lemma OnlyTargetHolds(s: State, dst: Slot, src: Slot, o: Obj)
    requires Inv(s) && dst in s.slots && Holds(s, src, o) && dst != src
    ensures forall b: Slot :: Holds(Moved(s, dst, src), b, o) ==> b == dst
  {
    MoveHandsOver(s, dst, src);
    MoveOwned(s, dst, src);
    assert Holds(Moved(s, dst, src), dst, o);
  }

  /** At any point of any run, a move hands the object over: afterwards the target alone holds
      what the source held, the source is nil, the target's old object is freed as the last
      one, and nothing else has changed. A move to itself changes nothing. */
  lemma MovingInAnyRun(ops: seq<Op>, dst: Slot, src: Slot)
    requires LegalRun(START, ops + [MoveTo(dst, src)])
    ensures LegalRun(START, ops)
    ensures var s, t := Run(START, ops), Run(START, ops + [MoveTo(dst, src)]);
      && dst in s.slots && src in s.slots && HandedOver(s, t, dst, src)
      && forall o: Obj, b: Slot :: dst != src && Holds(s, src, o) && Holds(t, b, o) ==> b == dst
  {
    RunAppend(START, ops, MoveTo(dst, src));
    EveryRunOwns(START, ops);
    var s := Run(START, ops);
    MovedHandsOver(s, dst, src);
    forall o: Obj, b: Slot | dst != src && Holds(s, src, o) && Holds(Moved(s, dst, src), b, o) ensures b == dst {
      OnlyTargetHolds(s, dst, src, o);
    }
  }

  /** Likewise an assignment: the slot holds an object that nothing held before, or nil, and
      its old object is freed as the last one. */
  lemma AssigningInAnyRun(ops: seq<Op>, a: Slot)
    requires LegalRun(START, ops + [Fresh(a)]) && LegalRun(START, ops + [Nil(a)])
    ensures LegalRun(START, ops)
    ensures var s, t, u := Run(START, ops), Run(START, ops + [Fresh(a)]), Run(START, ops + [Nil(a)]);
      && a in s.slots
      && t.slots == s.slots[a := Some(s.created)] && u.slots == s.slots[a := None]
      && t.created == s.created + 1 && u.created == s.created && t.scopes == u.scopes == s.scopes
      && FreedOnly(s, t, a) && FreedOnly(s, u, a)
      && s.created !in s.freed && forall b: Slot :: !Holds(s, b, s.created)
  {
    RunAppend(START, ops, Fresh(a));
    RunAppend(START, ops, Nil(a));
    EveryRunOwns(START, ops);
    FreshReplaces(Run(START, ops), a);
    NilReleases(Run(START, ops), a);
  }
}
