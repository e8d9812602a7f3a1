/** Everything that can hold a pool slot: move-only loan handles, carriers being published, object
    packets queued on the in-process bus, and callbacks that were handed one. And what nobody holds any
    more: references whose packet the bus cleared while it was queued. */
module LoanPool {
  import opened Options
  import opened DistinctLists
  import opened LoanSlab
  import opened BusLine
  import opened BusRing

  /** What becomes of a packet taken off the bus: a callback runs, and takes over the reference of an
      object; or the target is closed, has no handler or has deregistered. */
  datatype Fate = ToCallback | NoCallback

  /** One step of the program around the pool, or of a callback. A step that names a handle, carrier or
      callback reference that is not there does nothing. */
  datatype Step =
    | Borrow(throws: bool)
    | MoveConstruct(from: nat)
    | MoveAssign(to: nat, from: nat)
    | DestroyLoan(handle: nat)
    | StartPublish(handle: nat)
    | SendObject(slot: nat, targetOpen: bool)
    | SendOther(bytes: nat)
    | EndPublish(slot: nat)
    | Deliver(fate: Fate)
    | Return
    | CallbackRelease(slot: nat)
    | DestroyPool

  // ---- The objects of queued packets ----

  ghost function Carried(q: seq<Packet>): multiset<nat> {
    if q == [] then multiset{} else Carried(q[..|q| - 1]) + multiset(q[|q| - 1].carrier.AsSet())
  }

  lemma CarriedPush(q: seq<Packet>, p: Packet)
    ensures Carried(q + [p]) == Carried(q) + multiset(p.carrier.AsSet())
  {
    assert (q + [p])[..|q|] == q;
  }

  lemma {:induction false} CarriedPop(q: seq<Packet>)
    requires q != []
    ensures Carried(q) == multiset(q[0].carrier.AsSet()) + Carried(q[1..])
  {
    if |q| > 1 {
      CarriedPop(q[..|q| - 1]);
      assert q[..|q| - 1][1..] == q[1..][..|q| - 2];
    }
  }

  lemma {:induction false} CarriedWipe(q: seq<Packet>, i: nat)
    requires i < |q|
    ensures Carried(q) == Carried(q[i := Wiped(q[i])]) + multiset(q[i].carrier.AsSet())
  {
    var n := |q| - 1;
    var q' := q[i := Wiped(q[i])];
    if i < n {
      CarriedWipe(q[..n], i);
      assert q'[..n] == q[..n][i := Wiped(q[i])];
    } else {
      assert q'[..n] == q[..n];
    }
  }

  lemma {:induction false} CarriedNone(q: seq<Packet>)
    requires forall p :: p in q ==> p.carrier.None?
    ensures Carried(q) == multiset{}
  {
    if q != [] {
      CarriedNone(q[..|q| - 1]);
      assert q[|q| - 1] in q;
    }
  }

  // ---- The references a run loses ----

  /** The objects that closing writes took from queued packets. */
  ghost function Lost(ops: seq<Op>): multiset<nat> {
    if ops == [] then multiset{}
    else Lost(ops[..|ops| - 1]) + if ops[|ops| - 1].End? then Taken(After(ops[..|ops| - 1])) else multiset{}
  }

  /** What the next return would take. */
  ghost function Taken(l: Line): multiset<nat>
    requires Shaped(l)
  {
    if Hit(l).Some? then multiset(l.queue[Hit(l).value].carrier.AsSet()) else multiset{}
  }

  lemma LostSnoc(ops: seq<Op>, op: Op)
    ensures Lost(ops + [op]) == if op.End? then Lost(ops) + Taken(After(ops)) else Lost(ops)
  {
    assert (ops + [op])[..|ops|] == ops;
  }

  /** What is lost stays lost. */
  lemma {:induction false} LostGrows(ops: seq<Op>, more: seq<Op>)
    ensures Lost(ops) <= Lost(ops + more)
  {
    hide After, Lost, Taken;
    if more == [] {
      assert ops + more == ops;
    } else {
      LostGrows(ops, more[..|more| - 1]);
      LostSnoc(ops + more[..|more| - 1], more[|more| - 1]);
      assert ops + more[..|more| - 1] + [more[|more| - 1]] == ops + more;
    }
  }

  /** The innermost callback may return here, as far as objects go: its slot is still there, and no queued
      object is in it. */
  ghost predicate KeepsObject(l: Line)
    requires Shaped(l)
  {
    l.open == [] || (l.open[|l.open| - 1].here && (Struck(l).Some? ==> l.queue[Struck(l).value].carrier.None?))
  }

  ghost predicate KeepsObjects(ops: seq<Op>) {
    forall i :: 0 <= i < |ops| && ops[i].End? ==> KeepsObject(After(ops[..i]))
  }

  /** Over every run: no write goes astray and no reference is lost if and only if every callback returns
      where its slot is still there and holds no queued object. */
  lemma {:induction false} LostIff(ops: seq<Op>)
    ensures After(ops).strays == 0 && Lost(ops) == multiset{} <==> KeepsObjects(ops)
  {
    if ops != [] {
      var front, op := ops[..|ops| - 1], ops[|ops| - 1];
      LostIff(front);
      KeepsPrefix(front, op);
      assert ops == front + [op];
      if op.End? {
        TakenIff(After(front));
      }
    }
  }

  lemma TakenIff(l: Line)
    requires Shaped(l)
    ensures Next(l, End).strays == l.strays && Taken(l) == multiset{} <==> KeepsObject(l)
    ensures Next(l, End).strays >= l.strays
  {
    if Hit(l).Some? && l.queue[Hit(l).value].carrier.Some? {
      assert l.queue[Hit(l).value].carrier.value in Taken(l);
    }
  }

  lemma KeepsPrefix(front: seq<Op>, op: Op)
    ensures KeepsObjects(front + [op]) <==> KeepsObjects(front) && (op.End? ==> KeepsObject(After(front)))
  {
    var ops := front + [op];
    assert ops[..|front|] == front;
    assert forall i :: 0 <= i < |front| ==> ops[i] == front[i] && ops[..i] == front[..i];
    if KeepsObjects(ops) {
      forall i | 0 <= i < |front| && front[i].End? ensures KeepsObject(After(front[..i])) {
        assert ops[i].End? && KeepsObject(After(ops[..i]));
      }
    }
  }

  /** A run that keeps the bus intact loses no reference. */
  lemma SafeKeepsObjects(ops: seq<Op>)
    requires ReturnsSafely(ops)
    ensures KeepsObjects(ops)
  {
    forall i | 0 <= i < |ops| && ops[i].End? ensures KeepsObject(After(ops[..i])) {
      assert SafeToReturn(After(ops[..i]));
    }
  }

  /** Who holds what, and the references that were lost. */
  datatype Hands = Hands(loans: seq<Option<nat>>, carriers: multiset<nat>, queue: seq<Packet>, held: multiset<nat>,
                         leaked: multiset<nat>)

  /** How many references to slot `i` are out there. */
  ghost function Count(h: Hands, i: nat): nat {
    multiset(h.loans)[Some(i)] + h.carriers[i] + Carried(h.queue)[i] + h.held[i]
  }

  /** A slot's reference count is the number of its holders and of the references lost. */
  ghost predicate Accounts(slots: seq<Slot>, h: Hands) {
    forall i: nat :: Count(h, i) + h.leaked[i] == if i < |slots| then slots[i].refs else 0
  }

  /** The same, with one reference to slot `x` that is in nobody's hands any more. */
  ghost predicate OneOver(slots: seq<Slot>, h: Hands, x: nat) {
    forall i: nat :: Count(h, i) + h.leaked[i] + (if i == x then 1 else 0) == if i < |slots| then slots[i].refs else 0
  }

  /** Hands that differ in what they count as the slots do. */
  lemma Recount(slots: seq<Slot>, a: Hands, after: seq<Slot>, b: Hands, up: Option<nat>)
    requires Accounts(slots, a) && |after| == |slots|
    requires forall i: nat :: Count(b, i) + b.leaked[i] == Count(a, i) + a.leaked[i] + if up == Some(i) then 1 else 0
    requires up.Some? ==> up.value < |slots|
    requires forall i :: 0 <= i < |slots| ==> after[i].refs == slots[i].refs + if up == Some(i) then 1 else 0
    ensures Accounts(after, b)
  {
    hide Count;
    forall i: nat ensures Count(b, i) + b.leaked[i] == if i < |after| then after[i].refs else 0 {
      assert Count(a, i) + a.leaked[i] == if i < |slots| then slots[i].refs else 0;
    }
  }

  lemma Undercount(slots: seq<Slot>, a: Hands, b: Hands, x: nat)
    requires Accounts(slots, a)
    requires forall i: nat :: Count(b, i) + b.leaked[i] + (if i == x then 1 else 0) == Count(a, i) + a.leaked[i]
    ensures OneOver(slots, b, x) && x < |slots| && slots[x].refs > 0
  {
    hide Count;
    forall i: nat ensures Count(b, i) + b.leaked[i] + (if i == x then 1 else 0) == if i < |slots| then slots[i].refs else 0 {
      assert Count(a, i) + a.leaked[i] == if i < |slots| then slots[i].refs else 0;
    }
    assert Count(b, x) + b.leaked[x] + 1 == Count(a, x) + a.leaked[x];
  }

  lemma ReleaseAccounts(slots: seq<Slot>, after: seq<Slot>, h: Hands, x: nat)
    requires OneOver(slots, h, x) && x < |slots| == |after|
    requires forall i :: 0 <= i < |slots| ==> after[i].refs == slots[i].refs - if i == x then 1 else 0
    ensures Accounts(after, h)
  {
    hide Count;
    forall i: nat ensures Count(h, i) + h.leaked[i] == if i < |after| then after[i].refs else 0 {
      assert Count(h, i) + h.leaked[i] + (if i == x then 1 else 0) == if i < |slots| then slots[i].refs else 0;
    }
  }

  lemma ClearedAccounts(slots: seq<Slot>, a: Hands, hit: Option<nat>)
    requires Accounts(slots, a)
    ensures Accounts(slots, Cleared(a, hit))
  {
    if hit.Some? && hit.value < |a.queue| {
      CarriedWipe(a.queue, hit.value);
    }
    Recount(slots, a, slots, Cleared(a, hit), None);
  }

  lemma PublishAccounts(slots: seq<Slot>, a: Hands, handle: nat)
    requires Accounts(slots, a) && handle < |a.loans|
    ensures Accounts(slots, a.(loans := a.loans[handle := None], carriers := a.carriers + multiset(a.loans[handle].AsSet())))
  {
    EmptiedCount(a.loans, handle);
    assert forall i: nat :: multiset(a.loans[handle].AsSet())[i] == if a.loans[handle] == Some(i) then 1 else 0;
    Recount(slots, a, slots, a.(loans := a.loans[handle := None], carriers := a.carriers + multiset(a.loans[handle].AsSet())), None);
  }

  lemma BorrowAccounts(slots: seq<Slot>, after: seq<Slot>, a: Hands, n: Option<nat>)
    requires Accounts(slots, a) && |after| == |slots|
    requires n.Some? ==> n.value < |slots| && slots[n.value].refs == 0 && after[n.value].refs == 1
    requires forall i :: 0 <= i < |slots| && n != Some(i) ==> after[i] == slots[i]
    ensures Accounts(after, a.(loans := a.loans + [n]))
  {
    Recount(slots, a, after, a.(loans := a.loans + [n]), n);
  }

  lemma SendAccounts(slots: seq<Slot>, after: seq<Slot>, a: Hands, p: Packet)
    requires Accounts(slots, a) && |after| == |slots| && (p.carrier.Some? ==> p.carrier.value < |slots|)
    requires forall i :: 0 <= i < |slots| ==> after[i].refs == slots[i].refs + if p.carrier == Some(i) then 1 else 0
    ensures Accounts(after, a.(queue := a.queue + [p]))
  {
    CarriedPush(a.queue, p);
    assert forall i: nat :: multiset(p.carrier.AsSet())[i] == if p.carrier == Some(i) then 1 else 0;
    Recount(slots, a, after, a.(queue := a.queue + [p]), p.carrier);
  }

  /** A packet leaves the queue, and the callback takes over its object. */
  lemma TakeOverAccounts(slots: seq<Slot>, a: Hands)
    requires Accounts(slots, a) && a.queue != []
    ensures Accounts(slots, a.(queue := a.queue[1..], held := a.held + multiset(a.queue[0].carrier.AsSet())))
  {
    CarriedPop(a.queue);
    Recount(slots, a, slots, a.(queue := a.queue[1..], held := a.held + multiset(a.queue[0].carrier.AsSet())), None);
  }

  /** A packet leaves the queue, and nobody takes its object. */
  lemma OrphanAccounts(slots: seq<Slot>, a: Hands)
    requires Accounts(slots, a) && a.queue != []
    ensures var p := a.queue[0];
            if p.carrier.None? then Accounts(slots, a.(queue := a.queue[1..]))
            else OneOver(slots, a.(queue := a.queue[1..]), p.carrier.value) && p.carrier.value < |slots| && slots[p.carrier.value].refs > 0
  {
    var p := a.queue[0];
    CarriedPop(a.queue);
    assert forall i: nat :: multiset(p.carrier.AsSet())[i] == if p.carrier == Some(i) then 1 else 0;
    if p.carrier.None? {
      Recount(slots, a, slots, a.(queue := a.queue[1..]), None);
    } else {
      Undercount(slots, a, a.(queue := a.queue[1..]), p.carrier.value);
    }
  }

  lemma DropAccounts(slots: seq<Slot>, a: Hands, handle: nat)
    requires Accounts(slots, a) && handle < |a.loans| && a.loans[handle].Some?
    ensures OneOver(slots, a.(loans := a.loans[handle := None]), a.loans[handle].value)
    ensures a.loans[handle].value < |slots| && slots[a.loans[handle].value].refs > 0
  {
    EmptiedCount(a.loans, handle);
    Undercount(slots, a, a.(loans := a.loans[handle := None]), a.loans[handle].value);
  }

  lemma FinishAccounts(slots: seq<Slot>, a: Hands, x: nat)
    requires Accounts(slots, a) && a.carriers[x] > 0
    ensures OneOver(slots, a.(carriers := a.carriers - multiset{x}), x) && x < |slots| && slots[x].refs > 0
  {
    Undercount(slots, a, a.(carriers := a.carriers - multiset{x}), x);
  }

  lemma LetGoAccounts(slots: seq<Slot>, a: Hands, x: nat)
    requires Accounts(slots, a) && a.held[x] > 0
    ensures OneOver(slots, a.(held := a.held - multiset{x}), x) && x < |slots| && slots[x].refs > 0
  {
    Undercount(slots, a, a.(held := a.held - multiset{x}), x);
  }

  lemma MoveAccounts(slots: seq<Slot>, a: Hands, loans: seq<Option<nat>>)
    requires Accounts(slots, a) && forall s: nat :: multiset(loans)[Some(s)] == multiset(a.loans)[Some(s)]
    ensures Accounts(slots, a.(loans := loans))
  {
    Recount(slots, a, slots, a.(loans := loans), None);
  }

  /** What the closing write does if it hits the queued packet `hit`. */
  ghost function Cleared(a: Hands, hit: Option<nat>): Hands {
    if hit.None? || hit.value >= |a.queue| then a
    else a.(queue := a.queue[hit.value := Wiped(a.queue[hit.value])],
            leaked := a.leaked + multiset(a.queue[hit.value].carrier.AsSet()))
  }

  /** What a delivery does, up to the callback if one runs. */
  ghost function Delivered(a: Hands, fate: Fate): Hands {
    if a.queue == [] then a
    else a.(queue := a.queue[1..],
            held := a.held + if fate.ToCallback? then multiset(a.queue[0].carrier.AsSet()) else multiset{})
  }

  lemma NothingDone(a: Hands)
    ensures Cleared(a, None) == a && (a.queue == [] ==> forall fate :: Delivered(a, fate) == a)
  {
  }

  /** What a step does with the references, from `a` to `b`; `hit` is the queued packet that the closing
      write of a returning callback hits, if it does. */
  ghost predicate Effect(step: Step, alive: bool, a: Hands, b: Hands, hit: Option<nat>) {
    match step
    case Borrow(_) =>
      if alive then b.loans != [] && b == a.(loans := a.loans + [b.loans[|b.loans| - 1]]) else b == a
    case MoveConstruct(from) =>
      b == if from < |a.loans| then a.(loans := a.loans[from := None] + [a.loans[from]]) else a
    case MoveAssign(to, from) =>
      b == if to < |a.loans| && from < |a.loans| && to != from
           then a.(loans := a.loans[to := a.loans[from]][from := None]) else a
    case DestroyLoan(handle) =>
      b == if handle < |a.loans| then a.(loans := a.loans[handle := None]) else a
    case StartPublish(handle) =>
      b == if handle < |a.loans|
           then a.(loans := a.loans[handle := None], carriers := a.carriers + multiset(a.loans[handle].AsSet())) else a
    case SendObject(slot, open) =>
      b == if a.carriers[slot] > 0 && open then a.(queue := a.queue + [ObjectPacket(slot)]) else a
    case SendOther(bytes) =>
      b == a.(queue := a.queue + [DataPacket(bytes)])
    case EndPublish(slot) =>
      b == if a.carriers[slot] > 0 then a.(carriers := a.carriers - multiset{slot}) else a
    case Deliver(fate) => b == Delivered(a, fate)
    case Return => b == Cleared(a, hit)
    case CallbackRelease(slot) =>
      b == if a.held[slot] > 0 then a.(held := a.held - multiset{slot}) else a
    case DestroyPool => b == a
  }

  /** What a step does on the bus; `inside` says that a callback is running. */
  ghost function OpsOf(step: Step, a: Hands, inside: bool): seq<Op> {
    match step
    case SendObject(slot, open) => if a.carriers[slot] > 0 && open then [Op.Send(ObjectPacket(slot))] else []
    case SendOther(bytes) => [Op.Send(DataPacket(bytes))]
    case Deliver(fate) =>
      if a.queue == [] then [] else if fate.ToCallback? then [Op.Begin] else [Op.Begin, Op.End]
    case Return => if inside then [Op.End] else []
    case _ => []
  }

  /** The target does not matter here. */
  function ObjectPacket(slot: nat): Packet {
    Packet(0, Object, None, 0, Some(slot))
  }

  function DataPacket(bytes: nat): Packet {
    Packet(0, Data, None, bytes, None)
  }

  class Traffic {
    const slab: Control
    const bus: Ring
    /** The loan handles, each empty or owning a slot. */
    var loans: seq<Option<nat>>
    var carriers: multiset<nat>
    var held: multiset<nat>
    ghost function InHand(): Hands
      reads this, bus
    {
      Hands(loans, carriers, bus.Now().queue, held, Lost(bus.ops))
    }

    ghost function Holders(i: nat): nat
      reads this, bus
    {
      Count(InHand(), i)
    }

    ghost predicate Valid()
      reads this, slab, slab.slots, bus
    {
      slab.Valid() && bus.Valid() && Accounts(slab.slots[..], InHand())
    }

    constructor (capacity: nat)
      ensures Valid() && slab.slots.Length == capacity && slab.poolAlive && slab.wasted == {}
      ensures fresh(slab) && fresh(slab.slots) && fresh(bus)
      ensures loans == [] && carriers == held == multiset{} && bus.ops == [] && bus.Now() == EMPTY && Lost(bus.ops) == multiset{}
      ensures forall i: nat :: i < capacity ==> i in slab.list
    {
      slab := new Control(capacity);
      bus := new Ring();
      loans, carriers, held := [], multiset{}, multiset{};
    }

    // ---- What a reader may rely on ----

    /** No closing write went astray, and reference counts equal holders. */
    ghost predicate Balanced()
      reads this, slab, slab.slots, bus
    {
      && bus.Now().strays == 0
      && forall i: nat :: Holders(i) == if i < slab.slots.Length then slab.slots[i].refs else 0
    }

    /** That is so if and only if every callback returned where its slot was still there and held no queued
        object; in particular if none saw more sends than the ring had free slots. */
    lemma BalancedIff()
      requires Valid()
      ensures Balanced() <==> KeepsObjects(bus.ops)
      ensures WithinBounds(bus.ops) ==> Balanced()
    {
      hide Control.Valid, Ring.Valid, Count, After, Lost, KeepsObjects, WithinBounds, ReturnsSafely;
      ghost var leaked := Lost(bus.ops);
      assert forall i: nat :: Holders(i) + leaked[i] == if i < slab.slots.Length then slab.slots[i].refs else 0;
      if leaked != multiset{} {
        var i :| i in leaked;
        assert Holders(i) + leaked[i] > Holders(i);
      }
      LostIff(bus.ops);
      if WithinBounds(bus.ops) {
        BoundKeepsAll(bus.ops);
        SafeKeepsObjects(bus.ops);
      }
    }

    /** A slot with a holder, or a reference lost, is in flight, so the block behind it has not been freed. */
    lemma HolderKeepsBlock(i: nat)
      requires Valid() && Holders(i) + Lost(bus.ops)[i] > 0
      ensures i < slab.slots.Length && slab.slots[i].refs > 0 && !slab.freed
    {
      hide After, Lost, Shows;
      slab.InFlight(i);
    }

    /** When every holder has let go and no write went astray: a slot is back on the freelist, its object
        destroyed, if and only if no reference to it was lost and no constructor threw in it; and the block
        is freed, once the handle is gone, if and only if that holds of every slot, which it does if and only
        if every callback returned where it kept the objects and no constructor threw. */
    lemma AllLetGo()
      requires Valid() && forall i: nat :: Holders(i) == 0
      ensures bus.Now().strays == 0 ==>
                && (forall i: nat :: i < slab.slots.Length ==> (i in slab.list <==> Lost(bus.ops)[i] == 0 && i !in slab.wasted))
                && (forall o: nat :: o < slab.born ==> (slab.destroyed[o] == 1 <==> !StuckIn(o)))
                && (slab.outstanding == 0 <==> KeepsObjects(bus.ops) && slab.wasted == {})
                && (slab.freed <==> !slab.poolAlive && KeepsObjects(bus.ops) && slab.wasted == {})
    {
      hide Ring.Valid, After, Lost, KeepsObjects;
      SlotsLetGo();
      LostIff(bus.ops);
    }

    lemma SlotsLetGo()
      requires Valid() && forall i: nat :: Holders(i) == 0
      ensures forall i: nat :: i < slab.slots.Length ==> (i in slab.list <==> Lost(bus.ops)[i] == 0 && i !in slab.wasted)
      ensures slab.outstanding == 0 <==> Lost(bus.ops) == multiset{} && slab.wasted == {}
      ensures slab.freed <==> !slab.poolAlive && Lost(bus.ops) == multiset{} && slab.wasted == {}
      ensures forall o: nat :: o < slab.born ==> (slab.destroyed[o] == 1 <==> !StuckIn(o))
    {
      hide Ring.Valid, After, Lost;
      ghost var leaked := Lost(bus.ops);
      forall i: nat ensures leaked[i] == if i < slab.slots.Length then slab.slots[i].refs else 0 {
        assert Holders(i) == 0;
      }
      if leaked == multiset{} && slab.wasted == {} {
        Full(slab.list, slab.slots.Length);
      } else {
        var x: nat :| x in leaked || x in slab.wasted;
        Pigeonhole(slab.list, slab.slots.Length);
        assert x < slab.slots.Length && x !in slab.list;
      }
      forall o: nat | o < slab.born ensures slab.destroyed[o] == 1 <==> !StuckIn(o) {
        assert o in slab.destroyed || HeldIn(slab.slots[..], o);
        if i :| 0 <= i < slab.slots.Length && slab.slots[i].obj == Some(o) {
          assert leaked[i] > 0;
        }
      }
    }

    /** Object `o` sits in a slot that a lost reference keeps from going home. */
    ghost predicate StuckIn(o: nat)
      reads this, slab, slab.slots, bus
    {
      exists i :: 0 <= i < slab.slots.Length && slab.slots[i].obj == Some(o) && Lost(bus.ops)[i] > 0
    }

    // ---- Steps ----

    /** `release_if_held` on a handle, or the loss of any other reference to `i`. */
    method LetGo(i: nat)
      requires slab.Valid() && bus.Valid() && i < slab.slots.Length && slab.slots[i].refs > 0
      requires OneOver(slab.slots[..], InHand(), i)
      modifies slab, slab.slots
      ensures Valid() && slab.poolAlive == old(slab.poolAlive) && slab.wasted == old(slab.wasted)
    {
      hide Control.Valid, Ring.Valid, After, Lost, Accounts, OneOver, Count;
      slab.Release(i);
      ReleaseAccounts(old(slab.slots[..]), slab.slots[..], InHand(), i);
    }

    method BorrowOne(throws: bool)
      requires Valid() && slab.poolAlive
      modifies this`loans, slab, slab.slots
      ensures Valid() && slab.poolAlive && !old(slab.freed)
      ensures |loans| == |old(loans)| + 1 && InHand() == old(InHand()).(loans := old(loans) + [loans[|old(loans)|]])
      ensures loans[|old(loans)|].None? <==> old(slab.list) == [] || throws
      ensures loans[|old(loans)|].Some? ==> loans[|old(loans)|].value < slab.slots.Length
      ensures slab.wasted == old(slab.wasted) + if throws && old(slab.list) != [] then {old(slab.list)[0]} else {}
    {
      hide Control.Valid, Ring.Valid, After, Lost, Accounts, OneOver, Count;
      slab.Alive();
      var n := slab.TryBorrow(throws);
      BorrowAccounts(old(slab.slots[..]), slab.slots[..], old(InHand()), n);
      loans := loans + [n];
    }

    /** `release_if_held`: the handle is left empty. */
    method Drop(handle: nat)
      requires Valid() && handle < |loans|
      modifies this`loans, slab, slab.slots
      ensures Valid() && slab.poolAlive == old(slab.poolAlive) && slab.wasted == old(slab.wasted)
      ensures InHand() == old(InHand()).(loans := old(loans)[handle := None])
      ensures old(slab.freed) ==> Untouched()
    {
      hide Control.Valid, Ring.Valid, After, Lost, Accounts, OneOver, Count;
      var was := loans[handle];
      if was.None? {
        loans := loans[handle := None];
        assert loans == old(loans);
        return;
      }
      DropAccounts(slab.slots[..], InHand(), handle);
      slab.InFlight(was.value);
      loans := loans[handle := None];
      LetGo(was.value);
    }

    /** The move constructor: a new handle takes over, and the old one is left empty. */
    method Move(from: nat)
      requires Valid() && from < |loans|
      modifies this`loans
      ensures Valid() && InHand() == old(InHand()).(loans := old(loans)[from := None] + [old(loans)[from]])
    {
      hide Control.Valid, Ring.Valid, After, Lost, Accounts, OneOver, Count;
      MoveOut(loans, from);
      MoveAccounts(slab.slots[..], InHand(), loans[from := None] + [loans[from]]);
      loans := loans[from := None] + [loans[from]];
    }

    method Assign(to: nat, from: nat)
      requires Valid() && to < |loans| && from < |loans|
      modifies this`loans, slab, slab.slots
      ensures Valid() && slab.poolAlive == old(slab.poolAlive) && slab.wasted == old(slab.wasted)
      ensures InHand() == if to == from then old(InHand()) else old(InHand()).(loans := old(loans)[to := old(loans)[from]][from := None])
      ensures old(slab.freed) ==> Untouched()
    {
      hide Valid, Holders;
      if to != from {
        Drop(to);
        MoveInto(to, from);
      }
    }

    method MoveInto(to: nat, from: nat)
      requires Valid() && to < |loans| && from < |loans| && to != from && loans[to].None?
      modifies this`loans
      ensures Valid() && InHand() == old(InHand()).(loans := old(loans)[to := old(loans)[from]][from := None])
    {
      hide Control.Valid, Ring.Valid, After, Lost, Accounts, OneOver, Count;
      MoveBetween(loans, to, from);
      MoveAccounts(slab.slots[..], InHand(), loans[to := loans[from]][from := None]);
      loans := loans[to := loans[from]][from := None];
    }

    /** `take` into a carrier: the loan's reference becomes the carrier's. */
    method Publish(handle: nat)
      requires Valid() && handle < |loans|
      modifies this`loans, this`carriers
      ensures Valid()
      ensures InHand() == old(InHand()).(loans := old(loans)[handle := None],
                                         carriers := old(carriers) + multiset(old(loans)[handle].AsSet()))
    {
      hide Control.Valid, Ring.Valid, After, Lost, Accounts, OneOver, Count;
      PublishAccounts(slab.slots[..], InHand(), handle);
      var was := loans[handle];
      loans := loans[handle := None];
      if was.Some? {
        carriers := carriers + multiset{was.value};
      }
      assert carriers == old(carriers) + multiset(was.AsSet());
    }

    /** `send_object` for one subscriber: the bus takes a reference of its own, unless the sending
        channel is closed. */
    method Send(slot: nat, targetOpen: bool)
      requires Valid() && carriers[slot] > 0
      modifies bus, slab.slots
      ensures Valid() && !old(slab.freed)
      ensures InHand() == if targetOpen then old(InHand()).(queue := old(InHand()).queue + [ObjectPacket(slot)]) else old(InHand())
      ensures bus.ops == old(bus.ops) + if targetOpen then [Op.Send(ObjectPacket(slot))] else []
      ensures targetOpen ==> bus.Now() == Sent(old(bus.Now()), ObjectPacket(slot))
    {
      hide Control.Valid, Shows, After, Lost, Accounts, OneOver, Count;
      FinishAccounts(slab.slots[..], InHand(), slot);
      slab.InFlight(slot);
      if targetOpen {
        slab.AddRef(slot);
        SendAccounts(old(slab.slots[..]), slab.slots[..], InHand(), ObjectPacket(slot));
        LostSnoc(bus.ops, Op.Send(ObjectPacket(slot)));
        bus.Push(ObjectPacket(slot));
        assert InHand() == old(InHand()).(queue := old(InHand()).queue + [ObjectPacket(slot)]);
      }
    }

    /** A data or close packet, which carries no reference. */
    method SendPlain(bytes: nat)
      requires Valid()
      modifies bus
      ensures Valid() && InHand() == old(InHand()).(queue := old(InHand()).queue + [DataPacket(bytes)])
      ensures bus.ops == old(bus.ops) + [Op.Send(DataPacket(bytes))] && bus.Now() == Sent(old(bus.Now()), DataPacket(bytes))
    {
      hide Control.Valid, Shows, After, Lost, Accounts, OneOver, Count;
      LostSnoc(bus.ops, Op.Send(DataPacket(bytes)));
      SendAccounts(slab.slots[..], slab.slots[..], InHand(), DataPacket(bytes));
      bus.Push(DataPacket(bytes));
      assert InHand() == old(InHand()).(queue := old(InHand()).queue + [DataPacket(bytes)]);
    }

    twostate predicate Untouched()
      reads slab, slab.slots
    {
      unchanged(slab) && unchanged(slab.slots)
    }

    /** The release after the fan loop. */
    method Finish(slot: nat)
      requires Valid() && carriers[slot] > 0
      modifies this`carriers, slab, slab.slots
      ensures Valid() && slab.poolAlive == old(slab.poolAlive) && slab.wasted == old(slab.wasted)
      ensures InHand() == old(InHand()).(carriers := old(carriers) - multiset{slot})
      ensures !old(slab.freed)
    {
      hide Control.Valid, Ring.Valid, After, Lost, Accounts, OneOver, Count;
      FinishAccounts(slab.slots[..], InHand(), slot);
      slab.InFlight(slot);
      carriers := carriers - multiset{slot};
      LetGo(slot);
    }

    /** `deliver_one` up to the callback: the bus's reference goes to the callback, or is released; where no
        callback runs, the slot is cleared at once, and nothing else can be in it. */
    method DeliverOne(fate: Fate)
      requires Valid() && bus.size > 0
      modifies this`held, bus, slab, slab.slots
      ensures Valid() && slab.poolAlive == old(slab.poolAlive) && slab.wasted == old(slab.wasted)
      ensures InHand() == Delivered(old(InHand()), fate) && old(InHand()).queue != []
      ensures bus.ops == old(bus.ops) + if fate.ToCallback? then [Op.Begin] else [Op.Begin, Op.End]
      ensures bus.Now() == if fate.ToCallback? then Begun(old(bus.Now())) else Begun(old(bus.Now())).(open := old(bus.Now()).open)
      ensures old(slab.freed) ==> Untouched()
    {
      hide Valid, InHand, Delivered, After;
      if fate.ToCallback? {
        HandOver();
      } else {
        Discard();
      }
    }

    method HandOver()
      requires Valid() && bus.size > 0
      modifies this`held, bus
      ensures Valid() && InHand() == Delivered(old(InHand()), ToCallback) && old(InHand()).queue != []
      ensures bus.ops == old(bus.ops) + [Op.Begin] && bus.Now() == Begun(old(bus.Now()))
    {
      hide Control.Valid, Shows, After, Lost, Accounts, OneOver, Count;
      bus.Fields();
      TakeOverAccounts(slab.slots[..], InHand());
      LostSnoc(bus.ops, Op.Begin);
      var p := bus.Begin();
      if p.carrier.Some? {
        held := held + multiset{p.carrier.value};
      }
      assert held == old(held) + multiset(p.carrier.AsSet());
      assert InHand() == old(InHand()).(queue := old(InHand()).queue[1..], held := held);
    }

    method Discard()
      requires Valid() && bus.size > 0
      modifies bus, slab, slab.slots
      ensures Valid() && slab.poolAlive == old(slab.poolAlive) && slab.wasted == old(slab.wasted)
      ensures InHand() == Delivered(old(InHand()), NoCallback) && old(InHand()).queue != []
      ensures bus.ops == old(bus.ops) + [Op.Begin, Op.End] && bus.Now() == Begun(old(bus.Now())).(open := old(bus.Now()).open)
      ensures old(slab.freed) ==> Untouched()
    {
      hide Control.Valid, Shows, After, Lost, Accounts, OneOver, Count;
      bus.Fields();
      OrphanAccounts(slab.slots[..], InHand());
      var p := TakeAndClear();
      if p.carrier.Some? {
        slab.InFlight(p.carrier.value);
        LetGo(p.carrier.value);
      }
    }

    /** A delivery without a callback, as far as the bus goes. */
    method TakeAndClear() returns (p: Packet)
      requires bus.Valid() && bus.size > 0
      modifies bus
      ensures old(bus.Now()).queue != [] && p == old(bus.Now()).queue[0]
      ensures bus.Valid() && bus.ops == old(bus.ops) + [Op.Begin, Op.End] && Lost(bus.ops) == old(Lost(bus.ops))
      ensures bus.Now() == Begun(old(bus.Now())).(open := old(bus.Now()).open)
    {
      hide Shows, After, Lost;
      bus.Fields();
      AtOnce(bus.Now());
      LostSnoc(bus.ops, Op.Begin);
      LostSnoc(bus.ops + [Op.Begin], Op.End);
      p := bus.Begin();
      bus.Fields();
      var _ := bus.End();
    }

    /** A callback returns to `dispatch_packet`, whose closing write clears the slot, whatever it holds by
        then: the reference of an object packet queued there is lost. */
    method ReturnOne()
      requires Valid() && bus.frames != []
      modifies bus
      ensures old(bus.Now()).open != [] && Valid() && InHand() == Cleared(old(InHand()), Struck(old(bus.Now())))
      ensures bus.ops == old(bus.ops) + [Op.End] && bus.Now() == Ended(old(bus.Now()))
    {
      hide Control.Valid, Shows, After, Lost, Accounts, Count;
      bus.Fields();
      LostSnoc(bus.ops, Op.End);
      ClearedAccounts(slab.slots[..], InHand(), Struck(bus.Now()));
      var _ := bus.End();
      assert InHand() == Cleared(old(InHand()), Struck(old(bus.Now())));
    }

    method CallbackLetsGo(slot: nat)
      requires Valid() && held[slot] > 0
      modifies this`held, slab, slab.slots
      ensures Valid() && slab.poolAlive == old(slab.poolAlive) && slab.wasted == old(slab.wasted)
      ensures InHand() == old(InHand()).(held := old(held) - multiset{slot})
      ensures !old(slab.freed)
    {
      hide Control.Valid, Ring.Valid, After, Lost, Accounts, OneOver, Count;
      LetGoAccounts(slab.slots[..], InHand(), slot);
      slab.InFlight(slot);
      held := held - multiset{slot};
      LetGo(slot);
    }

    /** The pool's own handle is destroyed. */
    method Die()
      requires Valid() && slab.poolAlive
      modifies slab
      ensures Valid() && !slab.poolAlive && !old(slab.freed) && slab.wasted == old(slab.wasted) && InHand() == old(InHand())
    {
      slab.ReleaseControl();
    }

    /** What a step does to the hands, the bus and the pool's handle; and that none touches the block once it
        has been freed. */
    twostate predicate Stepped(step: Step)
      reads this, bus, slab, slab.slots
    {
      && Effect(step, old(slab.poolAlive), old(InHand()), InHand(), Hit(old(bus.Now())))
      && bus.ops == old(bus.ops) + OpsOf(step, old(InHand()), old(bus.Now()).open != [])
      && slab.poolAlive == (old(slab.poolAlive) && !step.DestroyPool?)
      && (old(slab.freed) ==> Untouched())
    }

    /** Every step keeps reference counts equal to holders and lost references. */
    method Do(step: Step)
      requires Valid()
      modifies this, bus, slab, slab.slots
      ensures Valid() && Stepped(step)
    {
      hide Valid, Stepped;
      match step
      case SendObject(_, _) => DoOnBus(step);
      case SendOther(_) => DoOnBus(step);
      case Deliver(_) => DoOnBus(step);
      case Return => DoOnBus(step);
      case _ => DoInPool(step);
    }

    method DoOnBus(step: Step)
      requires Valid() && (step.SendObject? || step.SendOther? || step.Deliver? || step.Return?)
      modifies this, bus, slab, slab.slots
      ensures Valid() && Stepped(step)
    {
      hide Valid, InHand, Cleared, Delivered, After, Sent, Begun, Ended, Struck, Lost;
      QueueSize();
      NothingDone(InHand());
      match step
      case SendObject(slot, open) => if carriers[slot] > 0 { Send(slot, open); }
      case SendOther(bytes) => SendPlain(bytes);
      case Deliver(fate) => if bus.size > 0 { DeliverOne(fate); }
      case Return => if bus.frames != [] { ReturnOne(); }
    }

    method DoInPool(step: Step)
      requires Valid() && !step.SendObject? && !step.SendOther? && !step.Deliver? && !step.Return?
      modifies this, bus, slab, slab.slots
      ensures Valid() && Stepped(step)
    {
      hide Valid, InHand, After, Hit, Lost;
      QueueSize();
      match step
      case Borrow(throws) => if slab.poolAlive { BorrowOne(throws); }
      case MoveConstruct(from) => if from < |loans| { Move(from); }
      case MoveAssign(to, from) => if to < |loans| && from < |loans| { Assign(to, from); }
      case DestroyLoan(handle) => if handle < |loans| { Drop(handle); }
      case StartPublish(handle) => if handle < |loans| { Publish(handle); }
      case EndPublish(slot) => if carriers[slot] > 0 { Finish(slot); }
      case CallbackRelease(slot) => if held[slot] > 0 { CallbackLetsGo(slot); }
      case DestroyPool => if slab.poolAlive { Die(); }
    }

    lemma QueueSize()
      requires Valid()
      ensures |InHand().queue| == bus.size && InHand().carriers == carriers && InHand().held == held && InHand().loans == loans
      ensures InHand().leaked == Lost(bus.ops) && bus.Now().open == bus.frames
    {
      hide Control.Valid, Accounts, After, Lost;
      bus.Fields();
    }

    /** Every run: reference counts equal holders and lost references, and a freed block is not touched, as
        long as no write goes astray. None does, and no reference is lost, if and only if every callback
        returns where its slot is still there and holds no queued object. */
    method Run(steps: seq<Step>)
      requires Valid()
      modifies this, bus, slab, slab.slots
      ensures Valid() && old(bus.ops) <= bus.ops && old(Lost(bus.ops)) <= Lost(bus.ops)
      ensures Balanced() <==> KeepsObjects(bus.ops)
      ensures WithinBounds(bus.ops) ==> Balanced()
      ensures bus.Now().strays == 0 ==>
                forall i: nat :: Holders(i) + Lost(bus.ops)[i] == if i < slab.slots.Length then slab.slots[i].refs else 0
      ensures bus.Now().strays == 0 && old(slab.freed) ==> Untouched()
    {
      hide Valid, Balanced, KeepsObjects, WithinBounds, After, Lost, Effect, OpsOf;
      for i := 0 to |steps|
        invariant Valid() && old(bus.ops) <= bus.ops
        invariant old(slab.freed) ==> Untouched()
      {
        Do(steps[i]);
      }
      assert bus.ops == old(bus.ops) + bus.ops[|old(bus.ops)|..];
      LostGrows(old(bus.ops), bus.ops[|old(bus.ops)|..]);
      BalancedIff();
      Counted();
    }

    lemma Counted()
      requires Valid()
      ensures forall i: nat :: Holders(i) + Lost(bus.ops)[i] == if i < slab.slots.Length then slab.slots[i].refs else 0
    {
      hide Control.Valid, Ring.Valid, Count, After, Lost;
    }
  }

  lemma AtOnce(l: Line)
    requires Shaped(l) && l.queue != []
    ensures Shaped(Begun(l)) && Struck(Begun(l)).None? && Ended(Begun(l)) == Begun(l).(open := l.open)
    ensures Taken(Begun(l)) == multiset{}
  {
    NextShaped(l, Op.Begin);
  }

  /** Eight data packets are queued, and the pool's only slot is on loan. */
  method FullBus() returns (t: Traffic)
    ensures fresh(t) && t.Valid() && fresh(t.slab) && fresh(t.slab.slots) && fresh(t.bus)
    ensures t.slab.slots.Length == 1 && t.slab.poolAlive && t.slab.wasted == {}
    ensures t.loans == [Some(0)] && t.carriers == t.held == Lost(t.bus.ops) == multiset{}
    ensures var l := t.bus.Now(); |l.queue| == l.cap == 8 && l.head == 0 && l.open == [] && l.strays == 0
    ensures forall p :: p in t.bus.Now().queue ==> p.carrier.None?
  {
    hide Traffic.Valid, Count, After, Lost;
    t := new Traffic(1);
    assert 0 in t.slab.list;
    t.BorrowOne(false);
    assert t.loans == [Some(0)];
    t.QueueSize();
    for i := 0 to 8
      invariant fresh(t) && t.Valid() && fresh(t.slab) && fresh(t.slab.slots) && fresh(t.bus)
      invariant t.slab.slots.Length == 1 && t.slab.poolAlive && t.slab.wasted == {}
      invariant t.loans == [Some(0)] && t.carriers == t.held == Lost(t.bus.ops) == multiset{}
      invariant var l := t.bus.Now(); |l.queue| == i && l.cap == (if i == 0 then 0 else 8) && l.head == 0 && l.open == [] && l.strays == 0
      invariant forall p :: p in t.bus.Now().queue ==> p.carrier.None?
    {
      t.SendPlain(i);
    }
  }

  /** The first of them is being delivered. */
  method InCallback() returns (t: Traffic)
    ensures fresh(t) && t.Valid() && fresh(t.slab) && fresh(t.slab.slots) && fresh(t.bus)
    ensures t.slab.slots.Length == 1 && t.slab.poolAlive && t.slab.wasted == {}
    ensures t.loans == [Some(0)] && t.carriers == t.held == Lost(t.bus.ops) == multiset{}
    ensures var l := t.bus.Now(); |l.queue| == 7 && l.cap == 8 && l.head == 1 && l.strays == 0
    ensures var l := t.bus.Now(); |l.open| == 1 && l.open[0].here && l.open[0].at == 0
    ensures forall i :: 0 <= i < 7 ==> t.bus.Now().queue[i].carrier.None?
  {
    hide Traffic.Valid, Count, After, Lost;
    t := FullBus();
    t.QueueSize();
    ghost var q := t.InHand().queue;
    assert forall i :: 0 <= i < 8 ==> q[i] in q;
    t.DeliverOne(ToCallback);
    assert t.held == multiset{};
  }

  /** The callback publishes the loan: its packet goes into the slot being delivered. */
  method PublishInCallback() returns (t: Traffic)
    ensures fresh(t) && t.Valid() && fresh(t.slab) && fresh(t.slab.slots) && fresh(t.bus)
    ensures t.slab.slots.Length == 1 && t.slab.poolAlive && t.slab.wasted == {}
    ensures t.loans == [None] && t.carriers == t.held == Lost(t.bus.ops) == multiset{}
    ensures var l := t.bus.Now(); |l.queue| == l.cap == 8 && l.head == 1 && l.strays == 0
    ensures var l := t.bus.Now(); |l.open| == 1 && l.open[0].here && l.open[0].at == 0
    ensures t.bus.Now().queue[7] == ObjectPacket(0) && forall i :: 0 <= i < 7 ==> t.bus.Now().queue[i].carrier.None?
  {
    hide Traffic.Valid, Count, After, Lost;
    t := InCallback();
    t.Publish(0);
    t.Send(0, true);
    t.Finish(0);
  }

  /** And the callback's return clears it. */
  method SendFromCallback() returns (t: Traffic)
    ensures fresh(t) && t.Valid() && fresh(t.slab) && fresh(t.slab.slots) && fresh(t.bus)
    ensures t.slab.slots.Length == 1 && t.slab.poolAlive && t.slab.wasted == {}
    ensures t.loans == [None] && t.carriers == t.held == multiset{} && Lost(t.bus.ops) == multiset{0}
    ensures var l := t.bus.Now(); |l.queue| == 8 && l.open == [] && l.strays == 0 && forall p :: p in l.queue ==> p.carrier.None?
  {
    hide Traffic.Valid, Count, After, Lost;
    t := PublishInCallback();
    t.QueueSize();
    ghost var q := t.bus.Now().queue;
    t.ReturnOne();
    assert forall i :: 0 <= i < 7 ==> t.bus.Now().queue[i] == q[i];
  }

  /** The run that leaks: every packet has been delivered, every callback has returned, every holder has let
      go and the pool is gone, but the slot is not on the freelist and the block is never freed. */
  method LeakingRun() returns (t: Traffic)
    ensures fresh(t) && t.Valid() && t.bus.size == 0 && t.bus.frames == [] && t.bus.Now().strays == 0
    ensures forall i: nat :: t.Holders(i) == 0
    ensures !t.slab.poolAlive && 0 !in t.slab.list && t.slab.outstanding > 0 && !t.slab.freed
  {
    hide Traffic.Valid, Count, After, Lost, KeepsObjects;
    t := SendFromCallback();
    for n := 0 to 8
      invariant fresh(t) && t.Valid() && fresh(t.slab) && fresh(t.slab.slots) && fresh(t.bus)
      invariant t.slab.slots.Length == 1 && t.slab.poolAlive && t.slab.wasted == {}
      invariant t.loans == [None] && t.carriers == t.held == multiset{} && Lost(t.bus.ops) == multiset{0}
      invariant var l := t.bus.Now(); |l.queue| == 8 - n && l.open == [] && l.strays == 0 && forall p :: p in l.queue ==> p.carrier.None?
    {
      t.QueueSize();
      t.DeliverOne(NoCallback);
    }
    t.Die();
    t.QueueSize();
    NobodyHolds(t.InHand());
    LostIff(t.bus.ops);
    t.AllLetGo();
  }

  lemma NobodyHolds(h: Hands)
    requires h.loans == [None] && h.carriers == h.held == multiset{} && forall p :: p in h.queue ==> p.carrier.None?
    ensures forall i: nat :: Count(h, i) == 0
  {
    CarriedNone(h.queue);
  }

  lemma EmptiedCount(loans: seq<Option<nat>>, handle: nat)
    requires handle < |loans|
    ensures forall s: nat :: multiset(loans)[Some(s)] ==
              multiset(loans[handle := None])[Some(s)] + if loans[handle] == Some(s) then 1 else 0
  {
  }

  lemma MoveBetween(loans: seq<Option<nat>>, to: nat, from: nat)
    requires to < |loans| && from < |loans| && to != from && loans[to].None?
    ensures multiset(loans[to := loans[from]][from := None]) == multiset(loans)
  {
  }

  lemma MoveOut(loans: seq<Option<nat>>, from: nat)
    requires from < |loans|
    ensures forall s :: multiset(loans[from := None] + [loans[from]])[Some(s)] == multiset(loans)[Some(s)]
  {
  }
}
