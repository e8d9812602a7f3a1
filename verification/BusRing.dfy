/** The in-process bus's packet queue as it is stored: a ring of reusable slots, indexed modulo its size
    and doubled on overflow, shown to be the line of `BusLine` in every run. */
module BusRing {
  import opened Options
  import opened BusLine

  const BLANK := Packet(0, Data, None, 0, None)

  /** `head` and `size` describe a part of the ring. */
  ghost predicate Fits(ring: seq<Packet>, head: nat, size: nat) {
    size <= |ring| && (head < |ring| || (ring == [] && head == 0))
  }

  /** The `size` packets from `head` on, wrapping around. */
  ghost function Contents(ring: seq<Packet>, head: nat, size: nat): (q: seq<Packet>)
    requires Fits(ring, head, size)
    ensures |q| == size
  {
    if size == 0 then [] else Contents(ring, head, size - 1) + [ring[At(head, size - 1, |ring|)]]
  }

  lemma {:induction false} ContentsAt(ring: seq<Packet>, head: nat, size: nat, i: nat)
    requires Fits(ring, head, size) && i < size
    ensures Contents(ring, head, size)[i] == ring[At(head, i, |ring|)]
  {
    if i < size - 1 {
      ContentsAt(ring, head, size - 1, i);
    }
  }

  /** Writing a slot outside the described part changes nothing. */
  lemma {:induction false} UnseenWrite(ring: seq<Packet>, head: nat, size: nat, at: nat, p: Packet)
    requires Fits(ring, head, size) && at < |ring|
    requires forall i :: 0 <= i < size ==> At(head, i, |ring|) != at
    ensures Contents(ring[at := p], head, size) == Contents(ring, head, size)
  {
    if size > 0 {
      UnseenWrite(ring, head, size - 1, at, p);
      assert At(head, size - 1, |ring|) != at;
    }
  }

  /** Writing the slot after the last packet appends a packet. */
  lemma PushedContents(ring: seq<Packet>, head: nat, size: nat, p: Packet)
    requires Fits(ring, head, size) && size < |ring|
    ensures Contents(ring[At(head, size, |ring|) := p], head, size + 1) == Contents(ring, head, size) + [p]
  {
    UnseenWrite(ring, head, size, At(head, size, |ring|), p);
  }

  /** Moving the head past the first packet removes it. */
  lemma {:induction false} PoppedContents(ring: seq<Packet>, head: nat, size: nat)
    requires Fits(ring, head, size) && 0 < size
    ensures Contents(ring, At(head, 1, |ring|), size - 1) == Contents(ring, head, size)[1..]
  {
    if size > 1 {
      PoppedContents(ring, head, size - 1);
    }
  }

  /** Writing the slot of packet `i` replaces that packet. */
  lemma {:induction false} SeenWrite(ring: seq<Packet>, head: nat, size: nat, i: nat, p: Packet)
    requires Fits(ring, head, size) && i < size
    ensures Contents(ring[At(head, i, |ring|) := p], head, size) == Contents(ring, head, size)[i := p]
  {
    if i < size - 1 {
      SeenWrite(ring, head, size - 1, i, p);
    } else {
      UnseenWrite(ring, head, size - 1, At(head, i, |ring|), p);
    }
  }

  // ---- The ring and the line ----

  /** The slot of a delivery still in bounds holds the delivered packet. */
  ghost predicate Holds(ring: seq<Packet>, o: Open) {
    InBounds(o) ==> o.here && o.at < |ring| && ring[o.at] == o.pkt
  }

  /** Deliveries inside one another use different slots, as long as the outer one is in bounds. */
  ghost predicate Apart(os: seq<Open>) {
    forall i, j :: 0 <= i < j < |os| && InBounds(os[i]) && os[j].here ==> os[i].at != os[j].at
  }

  /** The ring stores the line. */
  ghost predicate Shows(ring: seq<Packet>, head: nat, size: nat, os: seq<Open>, l: Line) {
    && Fits(ring, head, size) && Shaped(l) && Spaced(l)
    && l.cap == |ring| && l.head == head && l.open == os && l.queue == Contents(ring, head, size)
    && (forall i :: 0 <= i < |os| ==> Holds(ring, os[i]))
    && Apart(os)
  }

  /** `next` is the ring after `grow`, or the ring itself where there is room. */
  ghost predicate Widened(ring: seq<Packet>, head: nat, size: nat, next: seq<Packet>, nextHead: nat)
    requires Fits(ring, head, size)
  {
    if size < |ring| then next == ring && nextHead == head
    else && nextHead == 0 && |next| == Doubled(|ring|) && Fits(next, 0, size)
         && Contents(next, 0, size) == Contents(ring, head, size)
  }

  lemma PushShows(ring: seq<Packet>, head: nat, size: nat, os: seq<Open>, l: Line,
                  next: seq<Packet>, nextHead: nat, p: Packet)
    requires Shows(ring, head, size, os, l) && Widened(ring, head, size, next, nextHead)
    ensures Shows(next[At(nextHead, size, |next|) := p], nextHead, size + 1, Later(os, size < |ring|), Sent(l, p))
  {
    hide Contents;
    PushedContents(next, nextHead, size, p);
    NextSpaced(l, Send(p));
    PushHolds(ring, head, size, os, l, next, nextHead, p);
    hide Spaced, Shaped, Holds, Apart;
  }

  lemma PushHolds(ring: seq<Packet>, head: nat, size: nat, os: seq<Open>, l: Line,
                  next: seq<Packet>, nextHead: nat, p: Packet)
    requires Shows(ring, head, size, os, l) && Widened(ring, head, size, next, nextHead)
    ensures var later := Later(os, size < |ring|);
            Apart(later) && forall i :: 0 <= i < |os| ==> Holds(next[At(nextHead, size, |next|) := p], later[i])
  {
    hide Contents;
    var later := Later(os, size < |ring|);
    forall i | 0 <= i < |os| ensures Holds(next[At(nextHead, size, |next|) := p], later[i]) {
      if InBounds(later[i]) {
        assert InBounds(os[i]) && Holds(ring, os[i]);
      }
    }
    forall i, j | 0 <= i < j < |os| && InBounds(later[i]) && later[j].here ensures later[i].at != later[j].at {
      assert InBounds(os[i]) && os[j].here;
    }
  }

  lemma BeginShows(ring: seq<Packet>, head: nat, size: nat, os: seq<Open>, l: Line)
    requires Shows(ring, head, size, os, l) && size > 0
    ensures ring[head] == l.queue[0]
    ensures Shows(ring, At(head, 1, |ring|), size - 1, Begun(l).open, Begun(l))
  {
    ContentsAt(ring, head, size, 0);
    PoppedContents(ring, head, size);
    NextSpaced(l, Begin);
    NextShaped(l, Begin);
    hide Contents;
    var o := Open(l.queue[0], head, true, |ring| - size, 0);
    assert Begun(l).open == os + [o];
    forall i | 0 <= i < |os| && InBounds(os[i]) ensures os[i].at != head {
      assert Spaced(l);
    }
  }

  /** The ring after the closing write of `o`. */
  function Closed(ring: seq<Packet>, o: Open): seq<Packet>
    requires o.here ==> o.at < |ring|
  {
    if o.here then ring[o.at := Wiped(ring[o.at])] else ring
  }

  lemma EndShows(ring: seq<Packet>, head: nat, size: nat, os: seq<Open>, l: Line)
    requires Shows(ring, head, size, os, l) && os != []
    ensures var o := os[|os| - 1];
            && (o.here ==> o.at < |ring|)
            && Shows(Closed(ring, o), head, size, os[..|os| - 1], Ended(l))
  {
    NextSpaced(l, End);
    CloseHolds(ring, os);
    CloseQueue(ring, head, size, l);
    hide Contents, Spaced, Holds, Apart;
  }

  lemma CloseHolds(ring: seq<Packet>, os: seq<Open>)
    requires os != [] && Apart(os) && (forall i :: 0 <= i < |os| ==> Holds(ring, os[i]))
    requires os[|os| - 1].here ==> os[|os| - 1].at < |ring|
    ensures Apart(os[..|os| - 1])
    ensures forall i :: 0 <= i < |os| - 1 ==> Holds(Closed(ring, os[|os| - 1]), os[i])
  {
    forall i | 0 <= i < |os| - 1 ensures Holds(Closed(ring, os[|os| - 1]), os[i]) {
      assert Holds(ring, os[i]);
    }
  }

  lemma CloseQueue(ring: seq<Packet>, head: nat, size: nat, l: Line)
    requires Fits(ring, head, size) && Shaped(l) && l.open != []
    requires l.cap == |ring| && l.head == head && l.queue == Contents(ring, head, size)
    ensures Ended(l).queue == Contents(Closed(ring, l.open[|l.open| - 1]), head, size)
  {
    var o := l.open[|l.open| - 1];
    if o.here {
      var i := Offset(head, o.at, |ring|);
      if i < size {
        SeenWrite(ring, head, size, i, Wiped(ring[o.at]));
        ContentsAt(ring, head, size, i);
      } else {
        UnseenWrite(ring, head, size, o.at, Wiped(ring[o.at]));
      }
    }
  }

  class Ring {
    var ring: seq<Packet>
    var head: nat
    var size: nat
    /** The deliveries in progress, innermost last. */
    var frames: seq<Open>
    /** Everything that has happened on the bus. */
    ghost var ops: seq<Op>

    ghost function Now(): (l: Line)
      reads this
      ensures Shaped(l)
    {
      After(ops)
    }

    ghost predicate Valid()
      reads this
    {
      Shows(ring, head, size, frames, Now())
    }

    constructor ()
      ensures Valid() && Now() == EMPTY && ops == [] && size == 0 && frames == []
    {
      ring, head, size, frames, ops := [], 0, 0, [], [];
    }

    /** What the line says of the fields. */
    lemma Fields()
      requires Valid()
      ensures |Now().queue| == size && Now().open == frames && Now().cap == |ring| && Now().head == head
    {
    }

    /** `grow`: the copy loop lays the packets out from the start of a larger ring. */
    method Grow()
      requires Fits(ring, head, size) && size == |ring|
      modifies this`ring, this`head
      ensures Widened(old(ring), old(head), size, ring, head)
    {
      var cap := |ring|;
      var next := seq(if cap == 0 then 8 else 2 * cap, _ => BLANK);
      for i := 0 to size
        invariant |next| == Doubled(cap)
        invariant ring == old(ring) && head == old(head)
        invariant Contents(next, 0, i) == Contents(ring, head, i)
      {
        PushedContents(next, 0, i, ring[At(head, i, cap)]);
        next := next[i := ring[At(head, i, cap)]];
      }
      ring, head := next, 0;
    }

    /** `push_slot` and the assignments to the slot it returns. */
    method Push(p: Packet)
      requires Valid()
      modifies this
      ensures Valid() && ops == old(ops) + [Send(p)] && Now() == Sent(old(Now()), p)
      ensures forall i :: 0 <= i < |old(frames)| && old(frames)[i].sends == old(frames)[i].free ==>
                old(frames)[i].at < |ring| && ring[old(frames)[i].at] == p
    {
      hide Shows, Contents, After, Sent;
      SomeFits();
      NextSlot();
      var roomy := size < |ring|;
      if !roomy {
        Grow();
      }
      PushShows(old(ring), old(head), size, frames, Now(), ring, head, p);
      AfterSnoc(ops, Send(p));
      ring := ring[At(head, size, |ring|) := p];
      size, frames, ops := size + 1, Later(frames, roomy), ops + [Send(p)];
    }

    /** The slot of a delivery that has used up its bound is the next to be written. */
    lemma NextSlot()
      requires Valid()
      ensures forall i :: 0 <= i < |frames| && frames[i].sends == frames[i].free ==>
                size < |ring| && head < |ring| && frames[i].at == At(head, size, |ring|)
    {
      hide Contents, After;
      forall i | 0 <= i < |frames| && frames[i].sends == frames[i].free
        ensures size < |ring| && head < |ring| && frames[i].at == At(head, size, |ring|)
      {
        assert InBounds(Now().open[i]);
      }
    }

    lemma SomeFits()
      requires Valid()
      ensures Fits(ring, head, size)
    {
    }

    /** `deliver_one` up to the target's callback: the packet leaves the queue, but the delivery goes on
        using its slot by reference. */
    method Begin() returns (pkt: Packet)
      requires Valid() && size > 0
      modifies this
      ensures old(Now()).queue != [] && pkt == old(Now()).queue[0]
      ensures Valid() && ops == old(ops) + [Op.Begin] && Now() == Begun(old(Now()))
    {
      hide Shows, Contents, After, Begun;
      SomeFits();
      Fields();
      BeginShows(ring, head, size, frames, Now());
      AfterSnoc(ops, Op.Begin);
      pkt := ring[head];
      ghost var l := Begun(Now());
      frames := frames + [Open(pkt, head, true, |ring| - size, 0)];
      head, size, ops := At(head, 1, |ring|), size - 1, ops + [Op.Begin];
      assert frames == l.open by { BegunOpen(old(Now())); }
    }

    /** `deliver_one` from the callback's return on: the slot is cleared, whatever it holds by then. A
        `stray` write went to storage that `grow` has freed. */
    method End() returns (stray: bool)
      requires Valid() && frames != []
      modifies this
      ensures old(Now()).open != [] && Valid() && ops == old(ops) + [Op.End] && Now() == Ended(old(Now()))
      ensures stray <==> Now().strays > old(Now()).strays
    {
      hide Shows, Contents, After;
      Fields();
      EndShows(ring, head, size, frames, Now());
      AfterSnoc(ops, Op.End);
      var o := frames[|frames| - 1];
      stray := !o.here;
      ring, frames, ops := Closed(ring, o), frames[..|frames| - 1], ops + [Op.End];
    }

    /** While a callback has not seen more sends than there were free slots, the slot it was given still
        holds the packet that is being delivered to it. */
    lemma StillThere(i: nat)
      requires Valid() && i < |frames| && InBounds(frames[i])
      ensures frames[i].here && frames[i].at < |ring| && ring[frames[i].at] == frames[i].pkt
    {
      hide Contents, After;
      assert Holds(ring, frames[i]);
    }

    /** Any run on any ring: no closing write goes astray and everything sent is taken off or queued, in
        order and whole, if and only if every callback returns where it may; which it does if none sees more
        sends than the ring had free slots when its delivery began. */
    lemma History()
      ensures Kept(Now().sent, Now().taken + Now().queue)
      ensures Intact(Now()) <==> ReturnsSafely(ops)
      ensures WithinBounds(ops) ==> Intact(Now())
    {
      RunFifoIff(ops);
      if WithinBounds(ops) {
        BoundKeepsAll(ops);
      }
    }

    /** What callbacks that only send put on the bus. */
    method PushAll(ps: seq<Packet>)
      requires Valid()
      modifies this
      ensures Valid() && ops == old(ops) + SendAll(ps)
    {
      hide Shows, Contents, After, Sent;
      for i := 0 to |ps|
        invariant Valid() && ops == old(ops) + SendAll(ps[..i])
      {
        Push(ps[i]);
        assert SendAll(ps[..i]) + [Send(ps[i])] == SendAll(ps[..i + 1]);
      }
      assert ps[..|ps|] == ps;
    }

    /** `deliver_one` whole, with a callback that only sends: the line stays exact if and only if the sends
        leave the slot alone, or refill it with a packet that has nothing to lose. */
    method DeliverOne(sends: seq<Packet>) returns (pkt: Option<Packet>)
      requires Valid()
      modifies this
      ensures Valid() && |frames| == |old(frames)|
      ensures old(size) == 0 ==> pkt == None && ops == old(ops)
      ensures old(size) > 0 ==>
                && old(Now()).queue != [] && pkt == Some(old(Now()).queue[0])
                && ops == old(ops) + [Op.Begin] + SendAll(sends) + [Op.End]
      ensures old(size) > 0 ==>
                var free := old(|ring|) - old(size);
                Intact(Now()) <==>
                  && old(Intact(Now()))
                  && (|sends| <= free || (|sends| == free + 1 && !Laden(sends[|sends| - 1])))
    {
      hide Shows, Contents, After, Intact;
      Fields();
      if size == 0 {
        return None;
      }
      var p := Begin();
      Fields();
      PushAll(sends);
      OpenAfterSends(old(ops) + [Op.Begin], sends);
      Fields();
      var _ := End();
      Fields();
      FifoIff(old(ops), sends);
      pkt := Some(p);
    }
  }

  lemma BegunOpen(l: Line)
    requires Shaped(l) && l.queue != []
    ensures Begun(l).open == l.open + [Open(l.queue[0], l.head, true, l.cap - |l.queue|, 0)]
  {
  }

  lemma {:induction false} OpenAfterSends(ops: seq<Op>, ps: seq<Packet>)
    ensures |After(ops + SendAll(ps)).open| == |After(ops).open|
  {
    hide After;
    if ps == [] {
      assert ops + SendAll(ps) == ops;
    } else {
      OpenAfterSends(ops, ps[..|ps| - 1]);
      AfterSnoc(ops + SendAll(ps[..|ps| - 1]), Send(ps[|ps| - 1]));
      assert ops + SendAll(ps) == ops + SendAll(ps[..|ps| - 1]) + [Send(ps[|ps| - 1])];
    }
  }

  method FullRing(a: Packet) returns (ring: Ring)
    ensures fresh(ring) && ring.Valid() && ring.frames == [] && ring.size == 8
    ensures ring.Now() == Line(8, 0, seq(8, _ => a), [], seq(8, _ => a), [], 0)
  {
    hide Shows, Contents, After;
    ring := new Ring();
    for i := 0 to 8
      invariant fresh(ring) && ring.Valid()
      invariant ring.Now() == Line(if i == 0 then 0 else 8, 0, seq(i, _ => a), [], seq(i, _ => a), [], 0)
    {
      ring.Push(a);
      assert seq(i, _ => a) + [a] == seq(i + 1, _ => a);
    }
    ring.Fields();
  }

  /** A callback that sends two packets from a full ring frees the slot it was given: nothing sent is lost,
      but the closing write is stray. */
  method GrownUnderneath(a: Packet) returns (ring: Ring)
    ensures fresh(ring) && ring.Valid() && ring.frames == []
    ensures ring.Now().strays == 1 && ring.Now().taken + ring.Now().queue == ring.Now().sent
  {
    hide Shows, Contents, After;
    ring := FullRing(a);
    var _ := ring.Begin();
    ring.Push(a);
    ring.Push(a);
    ring.Fields();
    var _ := ring.End();
    ring.Fields();
  }

  /** With a delivery inside the callback the refilled slot need not be the last of the queue: on a full
      ring of eight the callback sends `x`, delivers once more and sends `y`, and its return clears `x`. */
  method RefilledInTheMiddle(a: Packet, x: Packet, y: Packet) returns (ring: Ring)
    ensures fresh(ring) && ring.Valid() && ring.size == 8 && |ring.Now().taken| == 2 && ring.Now().strays == 0
    ensures ring.Now().queue[6] == Wiped(x) && ring.Now().queue[7] == y
  {
    hide Shows, Contents, After;
    ring := FullRing(a);
    var _ := ring.Begin();
    ring.Push(x);
    ring.Fields();
    var _ := ring.Begin();
    ring.Fields();
    assert ring.Now().queue[6] == x;
    var _ := ring.End();
    ring.Fields();
    assert ring.Now().queue[6] == x;
    ring.Push(y);
    ring.Fields();
    var _ := ring.End();
    ring.Fields();
  }
}
