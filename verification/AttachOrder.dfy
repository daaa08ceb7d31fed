/** The order in which databases were attached, and the order in which they are searched. */
module AttachOrder {
  import opened Wrappers
  import opened AsciiCase
  import opened MultiDb
  import opened Registry
  import opened RegistryTheorems
  import opened CatalogOverlay

  /** The slots still live, in the same order. */
  function LiveOnly(order: seq<nat>, slots: Slots): seq<nat> {
    if order == [] then [] else (if Live(slots, order[0]) then [order[0]] else []) + LiveOnly(order[1..], slots)
  }

  /** The attached slots after an operation, the oldest first. */
  function StepOrder(order: seq<nat>, slots: Slots, autoCommit: bool, op: Op): seq<nat> {
    if op.DoAttach? && Attach(slots, autoCommit, op.alias, op.opening).1.Done?
    then order + [Attach(slots, autoCommit, op.alias, op.opening).1.index]
    else LiveOnly(order, Step(slots, autoCommit, op).0)
  }

  /** The list has every attached slot once. */
  ghost predicate Tracks(order: seq<nat>, slots: Slots) {
    && (forall i: nat :: i in order <==> i >= 2 && Live(slots, i))
    && NoneTwice(order)
  }

  /** Slot order is attach order. */
  ghost predicate InOrder(order: seq<nat>) {
    forall p, q :: 0 <= p < q < |order| ==> order[p] < order[q]
  }

  /** A free slot below a live one: where the next attach would go. */
  ghost predicate HoleBelow(slots: Slots) {
    exists i: nat, j: nat :: 2 <= i < j && !Live(slots, i) && Live(slots, j)
  }

  /** The attached slots after a run, the oldest first. */
  function RunOrder(order: seq<nat>, slots: Slots, autoCommit: bool, ops: seq<Op>): seq<nat>
    decreases ops
  {
    if ops == [] then order else
      var (next, auto) := Step(slots, autoCommit, ops[0]);
      RunOrder(StepOrder(order, slots, autoCommit, ops[0]), next, auto, ops[1..])
  }

  ghost predicate AlwaysInOrder(order: seq<nat>, slots: Slots, autoCommit: bool, ops: seq<Op>)
    decreases ops
  {
    && InOrder(order)
    && (ops == [] || var (next, auto) := Step(slots, autoCommit, ops[0]);
                     AlwaysInOrder(StepOrder(order, slots, autoCommit, ops[0]), next, auto, ops[1..]))
  }

  /** No attach of the run that succeeds finds a free slot below a live one. */
  ghost predicate AttachesOnTop(slots: Slots, autoCommit: bool, ops: seq<Op>)
    decreases ops
  {
    ops == []
    || ((ops[0].DoAttach? && Attach(slots, autoCommit, ops[0].alias, ops[0].opening).1.Done? ==> !HoleBelow(slots))
        && var (next, auto) := Step(slots, autoCommit, ops[0]); AttachesOnTop(next, auto, ops[1..]))
  }

  // ---- keeping track

  lemma {:induction false} LiveOnlyHas(order: seq<nat>, slots: Slots)
    ensures forall i: nat :: i in LiveOnly(order, slots) <==> i in order && Live(slots, i)
    decreases order
  {
    if order != [] {
      LiveOnlyHas(order[1..], slots);
      assert order == [order[0]] + order[1..];
    }
  }

  ghost predicate NoneTwice(order: seq<nat>) {
    forall p, q :: 0 <= p < q < |order| ==> order[p] != order[q]
  }

  lemma {:induction false} LiveOnlyNoneTwice(order: seq<nat>, slots: Slots)
    requires NoneTwice(order)
    ensures NoneTwice(LiveOnly(order, slots))
    decreases order
  {
    if order != [] {
      var rest := order[1..];
      assert forall i :: 0 <= i < |rest| ==> rest[i] == order[i + 1];
      LiveOnlyNoneTwice(rest, slots);
      LiveOnlyHas(rest, slots);
      var kept := LiveOnly(rest, slots);
      forall i | 0 <= i < |kept| ensures kept[i] != order[0] {
        assert kept[i] in kept;
      }
    }
  }

  lemma {:induction false} LiveOnlyInOrder(order: seq<nat>, slots: Slots)
    requires InOrder(order)
    ensures InOrder(LiveOnly(order, slots))
    decreases order
  {
    if order != [] {
      var rest := order[1..];
      assert forall i :: 0 <= i < |rest| ==> rest[i] == order[i + 1];
      LiveOnlyInOrder(rest, slots);
      LiveOnlyHas(rest, slots);
      var kept := LiveOnly(rest, slots);
      forall i | 0 <= i < |kept| ensures order[0] < kept[i] {
        assert kept[i] in kept;
      }
    }
  }

  /** Apart from a successful attach, no operation makes an attached slot live. */
  lemma OthersAddNothing(slots: Slots, autoCommit: bool, op: Op, i: nat)
    requires i >= 2 && !(op.DoAttach? && Attach(slots, autoCommit, op.alias, op.opening).1.Done?)
    ensures Live(Step(slots, autoCommit, op).0, i) ==> Live(slots, i)
  {
    hide Normalize, EqIgnoreCase, DbIndexByName;
  }

  lemma AttachAddsOne(slots: Slots, autoCommit: bool, alias: string, opening: Opening, i: nat)
    requires Attach(slots, autoCommit, alias, opening).1.Done?
    ensures var k := Attach(slots, autoCommit, alias, opening).1.index;
            && k >= 2 && !Live(slots, k) && (forall j: nat :: 2 <= j < k ==> Live(slots, j))
            && (i >= 2 ==> (Live(Attach(slots, autoCommit, alias, opening).0, i) <==> i == k || Live(slots, i)))
  {
    hide Normalize, EqIgnoreCase, DbIndexByName, Attach;
    AttachFillsOneSlot(slots, autoCommit, alias, opening);
  }

  lemma StepTracks(order: seq<nat>, slots: Slots, autoCommit: bool, op: Op)
    requires Tracks(order, slots)
    ensures Tracks(StepOrder(order, slots, autoCommit, op), Step(slots, autoCommit, op).0)
  {
    hide Attach, Detach, EnsureTemp;
    var after := Step(slots, autoCommit, op).0;
    if op.DoAttach? && Attach(slots, autoCommit, op.alias, op.opening).1.Done? {
      var k := Attach(slots, autoCommit, op.alias, op.opening).1.index;
      var next := order + [k];
      forall i: nat ensures i in next <==> i >= 2 && Live(after, i) {
        AttachAddsOne(slots, autoCommit, op.alias, op.opening, i);
        assert i in next <==> i in order || i == k;
      }
      AttachAddsOne(slots, autoCommit, op.alias, op.opening, 2);
      assert forall p :: 0 <= p < |order| ==> order[p] in order;
    } else {
      LiveOnlyHas(order, after);
      LiveOnlyNoneTwice(order, after);
      forall i: nat | i >= 2 ensures Live(after, i) ==> Live(slots, i) {
        OthersAddNothing(slots, autoCommit, op, i);
      }
    }
  }

  /** A successful attach keeps slot order in step with attach order exactly if there is no
      free slot below a live one. */
  lemma AttachInOrderIff(order: seq<nat>, slots: Slots, autoCommit: bool, alias: string, opening: Opening)
    requires Tracks(order, slots) && InOrder(order) && Attach(slots, autoCommit, alias, opening).1.Done?
    ensures InOrder(order + [Attach(slots, autoCommit, alias, opening).1.index]) <==> !HoleBelow(slots)
  {
    hide Attach;
    var k := Attach(slots, autoCommit, alias, opening).1.index;
    AttachAddsOne(slots, autoCommit, alias, opening, 2);
    var next := order + [k];
    if InOrder(next) {
      forall j: nat | j >= 2 && Live(slots, j) ensures j < k {
        assert j in order;
        var p :| 0 <= p < |order| && order[p] == j;
        assert next[p] < next[|order|];
      }
    } else {
      var p, q :| 0 <= p < q < |next| && next[p] >= next[q];
      assert q == |order| && next[p] in order;
      assert 2 <= k < next[p] && !Live(slots, k) && Live(slots, next[p]);
    }
  }

  /** Over every run, databases stay in attach order exactly when every attach that succeeds
      finds no free slot below a live one. */
  lemma {:induction false} AttachOrderIff(order: seq<nat>, slots: Slots, autoCommit: bool, ops: seq<Op>)
    requires Tracks(order, slots) && InOrder(order)
    ensures AlwaysInOrder(order, slots, autoCommit, ops) <==> AttachesOnTop(slots, autoCommit, ops)
    decreases ops
  {
    hide Attach, Tracks, InOrder, HoleBelow;
    if ops != [] {
      var op := ops[0];
      var (next, auto) := Step(slots, autoCommit, op);
      var order' := StepOrder(order, slots, autoCommit, op);
      StepTracks(order, slots, autoCommit, op);
      if op.DoAttach? && Attach(slots, autoCommit, op.alias, op.opening).1.Done? {
        AttachInOrderIff(order, slots, autoCommit, op.alias, op.opening);
      } else {
        LiveOnlyInOrder(order, next);
      }
      if InOrder(order') {
        AttachOrderIff(order', next, auto, ops[1..]);
      } else {
        NotInOrder(order', next, auto, ops[1..]);
      }
    }
  }

  lemma NotInOrder(order: seq<nat>, slots: Slots, autoCommit: bool, ops: seq<Op>)
    requires !InOrder(order)
    ensures !AlwaysInOrder(order, slots, autoCommit, ops)
  {
  }

  lemma NothingTracked()
    ensures Tracks([], []) && InOrder([])
  {
  }

  // ---- which database a name means

  lemma {:induction false} RunTracks(order: seq<nat>, slots: Slots, autoCommit: bool, ops: seq<Op>)
    requires Tracks(order, slots)
    ensures Tracks(RunOrder(order, slots, autoCommit, ops), Run(slots, autoCommit, ops))
    ensures AlwaysInOrder(order, slots, autoCommit, ops) ==> InOrder(RunOrder(order, slots, autoCommit, ops))
    decreases ops
  {
    hide Tracks, InOrder, Step, StepOrder;
    if ops != [] {
      StepTracks(order, slots, autoCommit, ops[0]);
      var (next, auto) := Step(slots, autoCommit, ops[0]);
      RunTracks(StepOrder(order, slots, autoCommit, ops[0]), next, auto, ops[1..]);
    }
  }

  /** In attach order, the attached database a table is found in is the oldest that has it. */
  lemma OldestWith(order: seq<nat>, slots: Slots, name: string)
    requires Tracks(order, slots) && InOrder(order)
    ensures match FirstWith(slots, name, 2)
            case Found(table, k) => exists p :: 0 <= p < |order| && order[p] == k && (forall q :: 0 <= q < p ==> name !in TablesAt(slots, order[q]))
            case Absent => forall q :: 0 <= q < |order| ==> name !in TablesAt(slots, order[q])
  {
    FirstWithIsLowest(slots, name, 2);
    match FirstWith(slots, name, 2) {
      case Found(_, k) =>
        assert Live(slots, k) && k in order;
        var p :| 0 <= p < |order| && order[p] == k;
        assert forall q :: 0 <= q < p ==> order[q] in order && order[q] < k;
      case Absent =>
        assert forall q :: 0 <= q < |order| ==> order[q] in order;
    }
  }

  /** The name is neither main's nor temp's, nor one of the two schema tables. */
  predicate OnlyAttached(main: map<string, Table>, slots: Slots, name: string) {
    && name !in main && name !in TablesAt(slots, DB_TEMP)
    && name != SCHEMA_TABLE_NAME && (name == TEMP_SCHEMA_TABLE_NAME ==> SCHEMA_TABLE_NAME !in TablesAt(slots, DB_TEMP))
  }

  /** After every run of a new connection whose attaches find no hole, a name of attached databases
      alone means the table of the one attached first among those that have it. */
  lemma OldestIsFound(autoCommit: bool, ops: seq<Op>, main: map<string, Table>, mainOrder: seq<string>, orders: seq<seq<string>>, name: string)
    requires AttachesOnTop([], autoCommit, ops)
    requires Orders(main, Run([], autoCommit, ops), mainOrder, orders)
    requires !HasDot(name) && OnlyAttached(main, Run([], autoCommit, ops), name)
    ensures var slots, order := Run([], autoCommit, ops), RunOrder([], [], autoCommit, ops);
            match EntryAt(Resolved(main, slots, mainOrder, orders), name)
            case Found(table, k) =>
              && name in TablesAt(slots, k) && table == TablesAt(slots, k)[name]
              && exists p :: 0 <= p < |order| && order[p] == k && (forall q :: 0 <= q < p ==> name !in TablesAt(slots, order[q]))
            case Absent => forall q :: 0 <= q < |order| ==> name !in TablesAt(slots, order[q])
  {
    hide Run, RunOrder, AttachesOnTop, Orders, Resolved, EntryAt, HasDot, Tracks, InOrder, AlwaysInOrder, FirstWith, TablesAt;
    var slots, order := Run([], autoCommit, ops), RunOrder([], [], autoCommit, ops);
    NothingTracked();
    AttachOrderIff([], [], autoCommit, ops);
    RunTracks([], [], autoCommit, ops);
    UnqualifiedResolves(main, slots, mainOrder, orders, name);
    FirstWithIsLowest(slots, name, 2);
    OldestWith(order, slots, name);
  }

  // ---- a slot used again

  function Slot(name: string, tables: map<string, Table>, i: nat): Option<AuxDb> { Some(Fresh(name, Attached, tables, i)) }

  lemma SlotIsFine(name: string, tables: map<string, Table>, i: nat)
    requires OneLetter(name) && i >= 2
    ensures SlotFits(Slot(name, tables, i), i)
  {
    hide Lower, Retag;
    OneLetterIsPlain(name);
    RetagTags(tables, i);
  }

  /** Attaching under a new one-letter name to a well-formed registry with room. */
  lemma AttachLetter(slots: Slots, name: string, tables: map<string, Table>)
    requires WellFormed(slots) && OneLetter(name) && !NameTaken(slots, name) && HasFreeSlot(slots)
    ensures Attach(slots, true, name, Opens(tables)).1.Done?
  {
    hide Attach, Normalize, Lower, WellFormed, NameTaken, HasFreeSlot;
    OneLetterIsPlain(name);
    AttachSucceedsIff(slots, true, name, Opens(tables));
  }

  /** Registries with at most two attached databases. */
  function TwoSlots(x: Option<AuxDb>, y: Option<AuxDb>): Slots { [None, None, x, y] }

  lemma TwoSlotsFine(x: Option<AuxDb>, y: Option<AuxDb>)
    requires SlotFits(x, 2) && SlotFits(y, 3)
    ensures WellFormed(TwoSlots(x, y)) && WellFormed([None, None, x])
    ensures x.Some? && y.Some? && x.value.name != y.value.name ==> DistinctNames(TwoSlots(x, y))
  {
    hide SlotFits;
    EmptyFits(0);
    EmptyFits(1);
  }

  lemma EmptyFits(i: nat)
    ensures SlotFits(None, i)
  {
  }

  lemma NotTaken(x: Option<AuxDb>, y: Option<AuxDb>, name: string)
    requires (x.Some? ==> x.value.name != name) && (y.Some? ==> y.value.name != name)
    ensures !NameTaken(TwoSlots(x, y), name) && !NameTaken([None, None, x], name) && !NameTaken([], name)
  {
  }

  /** Attach a, attach b, detach a, attach c: c takes the slot of a, below that of b, and a
      table of both is found in c, the younger. */
  lemma YoungerFirstExample(b: map<string, Table>, c: map<string, Table>, t: string)
    requires t in b && t in c
    ensures var ops := [DoAttach("a", Opens(map[])), DoAttach("b", Opens(b)), DoDetach("a"), DoAttach("c", Opens(c))];
            var slots := Run([], true, ops);
            && slots == TwoSlots(Slot("c", c, 2), Slot("b", b, 3))
            && (t != SCHEMA_TABLE_NAME ==> Meaning(map[], slots, t) == Found(Retag(c, 2)[t], 2))
            && !AttachesOnTop([], true, ops)
  {
    hide Run, Attach, Detach, AttachesOnTop, WellFormed, DistinctNames, NameTaken, SlotFits, Slot, Meaning;
    var a: map<string, Table> := map[];
    var x, y, z := Slot("a", a, 2), Slot("b", b, 3), Slot("c", c, 2);
    SlotNames("a", a, 2);
    SlotNames("b", b, 3);
    SlotIsFine("a", a, 2);
    SlotIsFine("b", b, 3);
    EmptyFits(2);
    TwoSlotsFine(x, y);
    TwoSlotsFine(None, y);
    EmptyIsFine();
    NotTaken(x, y, "c");
    NotTaken(None, y, "c");
    NotTaken(x, None, "b");
    NotTaken(None, None, "a");
    AttachTo([], "a", a, [None, None, x], 2);
    AttachTo([None, None, x], "b", b, TwoSlots(x, y), 3);
    DetachLetter(TwoSlots(x, y), "a", 2);
    assert TwoSlots(x, y)[2 := None] == TwoSlots(None, y);
    AttachTo(TwoSlots(None, y), "c", c, TwoSlots(z, y), 2);
    var ops := [DoAttach("a", Opens(a)), DoAttach("b", Opens(b)), DoDetach("a"), DoAttach("c", Opens(c))];
    RunFour(ops, [None, None, x], TwoSlots(x, y), TwoSlots(None, y), TwoSlots(z, y));
    HoleIsThere(y);
    FoundInC(c, y, t);
  }

  lemma EmptyIsFine()
    ensures WellFormed([])
  {
  }

  lemma SlotNames(name: string, tables: map<string, Table>, i: nat)
    ensures Slot(name, tables, i).Some? && Slot(name, tables, i).value.name == name && Slot(name, tables, i).value.txn.NoTxn?
  {
  }

  lemma HoleIsThere(y: Option<AuxDb>)
    requires y.Some?
    ensures HoleBelow(TwoSlots(None, y))
  {
    assert !Live(TwoSlots(None, y), 2) && Live(TwoSlots(None, y), 3);
  }

  lemma FoundInC(c: map<string, Table>, y: Option<AuxDb>, t: string)
    requires t in c
    ensures t != SCHEMA_TABLE_NAME ==> Meaning(map[], TwoSlots(Slot("c", c, 2), y), t) == Found(Retag(c, 2)[t], 2)
  {
  }

  lemma AttachTo(slots: Slots, name: string, tables: map<string, Table>, after: Slots, i: nat)
    requires WellFormed(slots) && OneLetter(name) && !NameTaken(slots, name)
    requires |slots| < 12 && 2 <= i < 12 && !Live(slots, i) && forall j: nat :: 2 <= j < i ==> Live(slots, j)
    requires i < |after| && after[i] == Slot(name, tables, i) && |after| == (if i < |slots| then |slots| else i + 1)
    requires forall j :: 0 <= j < |after| && j != i ==> after[j] == if j < |slots| then slots[j] else None
    ensures Attach(slots, true, name, Opens(tables)) == (after, Done(i))
  {
    hide WellFormed, NameTaken, Attach, Normalize, Lower, Fresh;
    assert HasFreeSlot(slots);
    AttachLetter(slots, name, tables);
    AttachFillsOneSlot(slots, true, name, Opens(tables));
    OneLetterIsPlain(name);
    AttachLength(slots, name, tables);
    var (got, outcome) := Attach(slots, true, name, Opens(tables));
    assert outcome.index == i;
    forall j | 0 <= j < |after| ensures got[j] == after[j] {}
    assert got == after && outcome == Done(i);
  }

  lemma AttachLength(slots: Slots, name: string, tables: map<string, Table>)
    requires Attach(slots, true, name, Opens(tables)).1.Done?
    ensures var (after, outcome) := Attach(slots, true, name, Opens(tables));
            |after| == if outcome.index < |slots| then |slots| else outcome.index + 1
  {
    hide Normalize, EqIgnoreCase, DbIndexByName;
  }

  lemma RunFour(ops: seq<Op>, s1: Slots, s2: Slots, s3: Slots, s4: Slots)
    requires |ops| == 4 && ops[0].DoAttach? && ops[1].DoAttach? && ops[2].DoDetach? && ops[3].DoAttach?
    requires Attach([], true, ops[0].alias, ops[0].opening).0 == s1
    requires Attach(s1, true, ops[1].alias, ops[1].opening).0 == s2
    requires Detach(s2, true, ops[2].alias).0 == s3
    requires Attach(s3, true, ops[3].alias, ops[3].opening) == (s4, Done(2))
    ensures Run([], true, ops) == s4
    ensures HoleBelow(s3) ==> !AttachesOnTop([], true, ops)
  {
    hide Attach, Detach, HoleBelow;
    var o1, o2, o3 := ops[1..], ops[2..], ops[3..];
    assert o1[0] == ops[1] && o2[0] == ops[2] && o3[0] == ops[3] && o1[1..] == o2 && o2[1..] == o3 && o3[1..] == [];
    assert Run(s3, true, o3) == s4;
    assert Run(s2, true, o2) == s4;
    assert Run(s1, true, o1) == s4;
    if HoleBelow(s3) {
      assert !AttachesOnTop(s3, true, o3);
      assert !AttachesOnTop(s2, true, o2);
      assert !AttachesOnTop(s1, true, o1);
    }
  }
}
