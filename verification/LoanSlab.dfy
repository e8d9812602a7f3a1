/** The slab behind a loan pool: a slot array threaded by an intrusive freelist, in a heap block
    that outlives its handle while slots are in flight. */
module LoanSlab {
  import opened Options
  import opened DistinctLists

  /** One slot: the serial number of the object constructed in it, its reference count, and the
      next free slot. */
  datatype Slot = Slot(obj: Option<nat>, refs: nat, nextFree: Option<nat>)

  /** `list` is the chain of free slots hanging off `head`. */
  ghost predicate Chain(slots: seq<Slot>, head: Option<nat>, list: seq<nat>)
    decreases |list|
  {
    if list == [] then head.None?
    else head == Some(list[0]) && list[0] < |slots| && Chain(slots, slots[list[0]].nextFree, list[1..])
  }

  /** Writing a slot off the chain leaves the chain alone. */
  lemma {:induction false} ChainFrame(slots: seq<Slot>, head: Option<nat>, list: seq<nat>, i: nat, slot: Slot)
    requires Chain(slots, head, list) && i < |slots| && i !in list
    ensures Chain(slots[i := slot], head, list)
    decreases |list|
  {
    if list != [] {
      ChainFrame(slots, slots[list[0]].nextFree, list[1..], i, slot);
    }
  }

  /** Pushing a slot puts it first. */
  lemma ChainPush(slots: seq<Slot>, head: Option<nat>, list: seq<nat>, i: nat, slot: Slot)
    requires Chain(slots, head, list) && i < |slots| && i !in list && slot.nextFree == head
    ensures Chain(slots[i := slot], Some(i), [i] + list)
  {
    ChainFrame(slots, head, list, i, slot);
    assert ([i] + list)[1..] == list;
  }

  class Control {
    const slots: array<Slot>
    var free: Option<nat>
    var outstanding: nat
    var poolAlive: bool
    /** Whether the block has been deleted; nothing below may be called after that. */
    ghost var freed: bool
    ghost var list: seq<nat>
    /** Slots whose object's constructor threw: outstanding for good, with nobody to return them. */
    ghost var wasted: set<nat>
    /** Objects constructed so far, which numbers them, and how often each was destroyed. */
    var born: nat
    ghost var destroyed: multiset<nat>

    ghost predicate Valid()
      reads this, slots
    {
      && Chain(slots[..], free, list) && Distinct(list)
      && (forall i: nat :: i in list <==> i < slots.Length && slots[i].refs == 0 && i !in wasted)
      && (forall i :: i in wasted ==> i < slots.Length && slots[i].refs == 0)
      && outstanding + |list| == slots.Length
      && (freed <==> outstanding == 0 && !poolAlive)
      && ObjectsValid(slots[..], born, destroyed)
    }

    constructor (capacity: nat)
      ensures Valid() && slots.Length == capacity && poolAlive && born == 0 && fresh(slots)
      ensures wasted == {} && forall i :: 0 <= i < capacity ==> slots[i].refs == 0
    {
      slots := new Slot[capacity](_ => Slot(None, 0, None));
      free, outstanding, poolAlive, freed := None, 0, true, false;
      list, born, destroyed, wasted := [], 0, multiset{}, {};
      new;
      for i := 0 to capacity
        invariant forall j :: 0 <= j < capacity ==> slots[j].refs == 0 && slots[j].obj.None?
        invariant Chain(slots[..], free, list) && Distinct(list) && |list| == i
        invariant forall j: nat :: j in list <==> j < i
        modifies this`free, this`list, slots
      {
        ChainFrame(slots[..], free, list, i, slots[i].(nextFree := free));
        slots[i] := slots[i].(nextFree := free);
        free, list := Some(i), [i] + list;
      }
    }

    /** `pop`: the head of the freelist, if there is one, is now in flight. */
    method Pop() returns (n: Option<nat>)
      requires Chain(slots[..], free, list) && !freed
      modifies this`free, this`outstanding, this`list
      ensures n.None? <==> old(list) == []
      ensures n.None? ==> free == old(free) && list == [] && outstanding == old(outstanding)
      ensures n.Some? ==> old(list) == [n.value] + list && n.value < slots.Length && outstanding == old(outstanding) + 1
      ensures Chain(slots[..], free, list)
    {
      n := free;
      if n.None? {
        return;
      }
      free := slots[n.value].nextFree;
      outstanding := outstanding + 1;
      list := list[1..];
    }

    /** `try_borrow`: constructs an object in a free slot, with one reference, the loan's own. If the
        constructor throws, the slot has left the freelist and nobody holds it. */
    method TryBorrow(throws: bool) returns (n: Option<nat>)
      requires Valid() && !freed && poolAlive
      modifies this, slots
      ensures Valid() && !freed && poolAlive && destroyed == old(destroyed)
      ensures n.None? <==> old(list) == [] || throws
      ensures n.None? ==> slots[..] == old(slots[..]) && born == old(born)
      ensures wasted == old(wasted) + if throws && old(list) != [] then {old(list)[0]} else {}
      ensures n.Some? ==> n.value < slots.Length && old(slots[n.value].refs) == 0
      ensures n.Some? ==> slots[..] == old(slots[..])[n.value := slots[n.value]] && slots[n.value].refs == 1
      ensures n.Some? ==> slots[n.value].obj == Some(old(born)) && born == old(born) + 1
    {
      hide ObjectsValid;
      n := Pop();
      if n.Some? {
        var i := n.value;
        assert old(list)[1..] == list && forall j :: j in list <==> j in old(list) && j != i;
        if throws {
          wasted := wasted + {i};
          return None;
        }
        var slot := slots[i].(obj := Some(born), refs := 1);
        ChainFrame(slots[..], free, list, i, slot);
        Constructed(slots[..], born, destroyed, i, slot);
        slots[i], born := slot, born + 1;
        assert slots[..] == old(slots[..])[i := slot];
      }
    }

    /** `io::addref`, on a slot somebody holds. */
    method AddRef(i: nat)
      requires Valid() && i < slots.Length && slots[i].refs > 0
      modifies slots
      ensures Valid()
      ensures slots[..] == old(slots[..])[i := old(slots[i]).(refs := old(slots[i]).refs + 1)]
    {
      InFlight(i);
      ChainFrame(slots[..], free, list, i, slots[i].(refs := slots[i].refs + 1));
      Recounted(slots[..], born, destroyed, i, slots[i].refs + 1);
      slots[i] := slots[i].(refs := slots[i].refs + 1);
    }

    /** While the handle lives the block is there. */
    lemma Alive()
      requires Valid() && poolAlive
      ensures !freed
    {
    }

    lemma Occupied(i: nat)
      requires Valid() && i < slots.Length && slots[i].refs > 0
      ensures slots[i].obj.Some?
    {
    }

    /** While somebody holds a slot the block is there. */
    lemma InFlight(i: nat)
      requires Valid() && i < slots.Length && slots[i].refs > 0
      ensures !freed && outstanding > 0
    {
      Pigeonhole(list, slots.Length);
    }

    /** `io::release`: at zero the object is destroyed and the slot goes home; the last slot home
        after the handle has died frees the block. */
    method Release(i: nat)
      requires Valid() && i < slots.Length && slots[i].refs > 0
      modifies this, slots
      ensures Valid() && poolAlive == old(poolAlive) && born == old(born) && wasted == old(wasted)
      ensures slots[i].refs == old(slots[i].refs) - 1
      ensures forall j :: 0 <= j < slots.Length && j != i ==> slots[j] == old(slots[j])
      ensures destroyed == old(destroyed) + if slots[i].refs == 0 then multiset{old(slots[i].obj).value} else multiset{}
      ensures slots[i].refs == 0 ==> i in list
    {
      InFlight(i);
      if slots[i].refs > 1 {
        var slot := slots[i].(refs := slots[i].refs - 1);
        ChainFrame(slots[..], free, list, i, slot);
        Recounted(slots[..], born, destroyed, i, slot.refs);
        slots[i] := slot;
      } else {
        ReleaseSlot(i);
      }
    }

    /** `release_slot`. */
    method ReleaseSlot(i: nat)
      requires Valid() && !freed && i < slots.Length && slots[i].refs == 1
      modifies this, slots
      ensures Valid() && poolAlive == old(poolAlive) && born == old(born) && wasted == old(wasted)
      ensures slots[i].refs == 0 && i in list
      ensures forall j :: 0 <= j < slots.Length && j != i ==> slots[j] == old(slots[j])
      ensures destroyed == old(destroyed) + multiset{old(slots[i].obj).value}
    {
      hide ObjectsValid, Chain;
      Occupied(i);
      InFlight(i);
      var slot := Slot(None, 0, free);
      ChainPush(slots[..], free, list, i, slot);
      Destructed(slots[..], born, destroyed, i, slot);
      destroyed := destroyed + multiset{slots[i].obj.value};
      slots[i] := slot;
      assert slots[..] == old(slots[..])[i := slot];
      free, list := Some(i), [i] + list;
      outstanding := outstanding - 1;
      assert forall j: nat :: j in list <==> j == i || j in old(list);
      if outstanding == 0 && !poolAlive {
        DestroyControl();
      }
    }

    /** `destroy_control`: never reached twice. */
    method DestroyControl()
      requires !freed
      modifies this`freed
      ensures freed
    {
      freed := true;
    }

    /** `release_control`: the handle dies; the block goes with it unless slots are in flight. */
    method ReleaseControl()
      requires Valid() && poolAlive
      modifies this`poolAlive, this`freed
      ensures Valid() && !poolAlive
      ensures freed <==> outstanding == 0
    {
      poolAlive := false;
      if outstanding == 0 {
        DestroyControl();
      }
    }
  }

  lemma Constructed(slots: seq<Slot>, born: nat, destroyed: multiset<nat>, i: nat, slot: Slot)
    requires ObjectsValid(slots, born, destroyed) && i < |slots| && slots[i].refs == 0
    requires slot.obj == Some(born) && slot.refs > 0
    ensures ObjectsValid(slots[i := slot], born + 1, destroyed)
  {
    var after := slots[i := slot];
    forall o: nat | o < born + 1 && o !in destroyed ensures HeldIn(after, o) {
      if o == born {
        assert after[i].obj == Some(o);
      } else {
        var j :| 0 <= j < |slots| && slots[j].obj == Some(o);
        assert after[j].obj == Some(o);
      }
    }
  }

  lemma Destructed(slots: seq<Slot>, born: nat, destroyed: multiset<nat>, i: nat, slot: Slot)
    requires ObjectsValid(slots, born, destroyed) && i < |slots| && slots[i].refs > 0
    requires slot.obj.None? && slot.refs == 0
    ensures ObjectsValid(slots[i := slot], born, destroyed + multiset{slots[i].obj.value})
  {
    var after, o' := slots[i := slot], slots[i].obj.value;
    forall o: nat | o < born && o !in destroyed + multiset{o'} ensures HeldIn(after, o) {
      var j :| 0 <= j < |slots| && slots[j].obj == Some(o);
      assert after[j].obj == Some(o);
    }
  }

  lemma Recounted(slots: seq<Slot>, born: nat, destroyed: multiset<nat>, i: nat, refs: nat)
    requires ObjectsValid(slots, born, destroyed) && i < |slots| && slots[i].refs > 0 && refs > 0
    ensures ObjectsValid(slots[i := slots[i].(refs := refs)], born, destroyed)
  {
    var after := slots[i := slots[i].(refs := refs)];
    forall o: nat | o < born && o !in destroyed ensures HeldIn(after, o) {
      var j :| 0 <= j < |slots| && slots[j].obj == Some(o);
      assert after[j].obj == Some(o);
    }
  }

  /** A slot holds an object exactly while it is referenced, no two slots hold the same one, and
      every object was destroyed once, or is still held and was not. */
  ghost predicate ObjectsValid(slots: seq<Slot>, born: nat, destroyed: multiset<nat>) {
    && (forall i :: 0 <= i < |slots| ==> (slots[i].obj.Some? <==> slots[i].refs > 0))
    && (forall i :: 0 <= i < |slots| && slots[i].obj.Some? ==> slots[i].obj.value < born && destroyed[slots[i].obj.value] == 0)
    && (forall i, j :: 0 <= i < j < |slots| && slots[i].obj.Some? ==> slots[i].obj != slots[j].obj)
    && (forall o :: o in destroyed ==> o < born && destroyed[o] == 1)
    && (forall o: nat :: o < born && o !in destroyed ==> HeldIn(slots, o))
  }

  ghost predicate HeldIn(slots: seq<Slot>, o: nat) {
    exists i :: 0 <= i < |slots| && slots[i].obj == Some(o)
  }
}
