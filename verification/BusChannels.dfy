/** Channels on the in-process bus: never-reused registration keys, pairing by a key resolved once,
    and delivery in send order. */
module BusChannels {
  import opened Options
  import opened BusLine
  import opened BusRing

  /** A channel, identified by its registration key; `partner` is the key it sends to, 0 when its
      partner was not registered. */
  datatype Channel = Channel(partner: nat, closed: bool, handlers: set<Handler>)

  datatype Handler = OnData | OnObject | OnClosed | OnDrop

  /** What the program, or a callback it runs, may do with channels. */
  datatype Act =
    | Open
    | Destroy(key: nat)
    | ConnectTo(key: nat, endpoint: nat)
    | Send(key: nat, bytes: nat)
    | SendObject(key: nat, obj: nat)
    | CloseChannel(key: nat)
    | Listen(key: nat, handler: Handler)

  /** What happens on the bus, in any order: an act of the program or of a callback, a delivery up to the
      callback it runs, and the return of the innermost callback. */
  datatype Event = Perform(act: Act) | Deliver | Return

  /** What an act puts on the bus: nothing from a channel that is closed or gone. */
  function Sends(channels: map<nat, Channel>, act: Act): seq<Packet> {
    if act.Open? || act.key !in channels || channels[act.key].closed then []
    else
      var partner := channels[act.key].partner;
      match act
      case Send(key, bytes) => [Packet(partner, Data, Some(key), bytes, None)]
      case SendObject(_, obj) => [Packet(partner, Object, None, 0, Some(obj))]
      case CloseChannel(_) => [Packet(partner, PacketKind.Close, None, 0, None)]
      case _ => []
  }

  /** The channels after an act, the next key to be handed out being `nextKey`. */
  function Rewired(channels: map<nat, Channel>, nextKey: nat, act: Act): map<nat, Channel> {
    if act.Open? then channels[nextKey := Channel(0, false, {})]
    else if act.key !in channels then channels
    else
      match act
      case Destroy(key) => channels - {key}
      case ConnectTo(key, endpoint) => channels[key := channels[key].(partner := if endpoint in channels then endpoint else 0)]
      case CloseChannel(key) => channels[key := channels[key].(closed := true)]
      case Listen(key, handler) => channels[key := channels[key].(handlers := channels[key].handlers + {handler})]
      case _ => channels
  }

  /** The packets addressed to `k`. */
  ghost function To(ps: seq<Packet>, k: nat): seq<Packet> {
    if ps == [] then []
    else To(ps[..|ps| - 1], k) + if ps[|ps| - 1].toKey == k then [ps[|ps| - 1]] else []
  }

  /** What the channels were handed, once `pkt` is too. */
  ghost function HandedTo(channels: map<nat, Channel>, got: map<nat, seq<Packet>>, pkt: Packet): map<nat, seq<Packet>> {
    if pkt.toKey in channels && !channels[pkt.toKey].closed then got[pkt.toKey := Got(got, pkt.toKey) + [pkt]] else got
  }

  ghost function Got(got: map<nat, seq<Packet>>, k: nat): seq<Packet> {
    if k in got then got[k] else []
  }

  /** Keys are handed out once; every channel was handed a prefix of what was taken off for it, and all
      of it while it is open. */
  ghost predicate Routed(channels: map<nat, Channel>, nextKey: nat, sent: seq<Packet>, taken: seq<Packet>,
                         got: map<nat, seq<Packet>>) {
    && nextKey >= 1
    && (forall k :: k in channels ==> 1 <= k < nextKey && channels[k].partner < nextKey)
    && (forall p :: p in sent ==> p.toKey < nextKey)
    && (forall p :: p in taken ==> p.toKey < nextKey)
    && (forall k :: k in got ==> k < nextKey)
    && (forall k: nat :: Got(got, k) <= To(taken, k))
    && (forall k :: k in channels && !channels[k].closed ==> Got(got, k) == To(taken, k))
  }

  lemma {:induction false} ToNobody(ps: seq<Packet>, k: nat)
    requires forall p :: p in ps ==> p.toKey != k
    ensures To(ps, k) == []
  {
    if ps != [] {
      ToNobody(ps[..|ps| - 1], k);
    }
  }

  lemma {:induction false} ToPrefix(ps: seq<Packet>, qs: seq<Packet>, k: nat)
    ensures To(ps, k) <= To(ps + qs, k)
  {
    if qs == [] {
      assert ps + qs == ps;
    } else {
      assert (ps + qs)[..|ps + qs| - 1] == ps + qs[..|qs| - 1];
      ToPrefix(ps, qs[..|qs| - 1], k);
    }
  }

  lemma {:induction false} PlainTo(ps: seq<Packet>, k: nat)
    ensures Plain(To(ps, k)) == To(Plain(ps), k)
  {
    if ps != [] {
      PlainTo(ps[..|ps| - 1], k);
      assert Plain(ps)[..|ps| - 1] == Plain(ps[..|ps| - 1]);
    }
  }

  /** Data, objects and closes reach a channel in the order they were sent to it, whoever sent them: in
      particular a close comes after everything sent before it. What may be missing is the object or the
      sender of a packet hit by a closing write; in a run that keeps the bus intact nothing is. */
  lemma DeliveredInSendOrder(channels: map<nat, Channel>, nextKey: nat, l: Line, got: map<nat, seq<Packet>>, k: nat)
    requires Routed(channels, nextKey, l.sent, l.taken, got) && Kept(l.sent, l.taken + l.queue)
    ensures Plain(Got(got, k)) <= Plain(To(l.sent, k))
    ensures l.queue == [] && k in channels && !channels[k].closed ==> Plain(Got(got, k)) == Plain(To(l.sent, k))
    ensures Intact(l) ==>
              && Got(got, k) <= To(l.sent, k)
              && (l.queue == [] && k in channels && !channels[k].closed ==> Got(got, k) == To(l.sent, k))
  {
    ToPrefix(l.taken, l.queue, k);
    assert l.queue == [] ==> l.taken + l.queue == l.taken;
    PlainFifo(l.sent, l.taken + l.queue);
    PlainTo(l.sent, k);
    PlainTo(l.taken + l.queue, k);
  }

  /** A channel opened now has a key nobody has resolved yet: no packet sent so far is for it, and
      no channel sends to it. */
  lemma {:induction false} NewcomerGetsNothingOld(channels: map<nat, Channel>, nextKey: nat, sent: seq<Packet>, taken: seq<Packet>,
                               got: map<nat, seq<Packet>>)
    requires Routed(channels, nextKey, sent, taken, got)
    ensures nextKey !in channels && Got(got, nextKey) == [] && To(sent, nextKey) == [] && To(taken, nextKey) == []
    ensures forall k :: k in channels ==> channels[k].partner != nextKey
  {
    ToNobody(sent, nextKey);
    ToNobody(taken, nextKey);
  }

  lemma PartnersBelow(channels: map<nat, Channel>, nextKey: nat, sent: seq<Packet>, taken: seq<Packet>,
                      got: map<nat, seq<Packet>>)
    requires Routed(channels, nextKey, sent, taken, got)
    ensures (forall k :: k in channels ==> channels[k].partner < nextKey) && forall p :: p in sent ==> p.toKey < nextKey
  {
  }

  lemma KeysBelow(sent: seq<Packet>, out: seq<Packet>, n: nat)
    requires Kept(sent, out) && forall p :: p in sent ==> p.toKey < n
    ensures forall p :: p in out ==> p.toKey < n
  {
    forall i | 0 <= i < |out| ensures out[i].toKey < n {
      assert sent[i] in sent;
    }
  }

  function HandlerOf(kind: PacketKind): Handler {
    match kind
    case Data => OnData
    case Object => OnObject
    case Close => OnClosed
  }

  /** What `dispatch_packet` does with a packet: it hands it to the open channel registered under its key,
      or reports data for an unregistered key to its live sender, or neither; and whether the channel it
      turned to has a callback for that. */
  datatype Outcome = Handed(called: bool) | Reported(sender: nat, called: bool) | Discarded

  function Dispatch(channels: map<nat, Channel>, pkt: Packet): Outcome {
    if pkt.toKey in channels then
      if channels[pkt.toKey].closed then Discarded else Handed(HandlerOf(pkt.kind) in channels[pkt.toKey].handlers)
    else if pkt.kind.Data? && pkt.from.Some? && pkt.from.value in channels then
      Reported(pkt.from.value, OnDrop in channels[pkt.from.value].handlers)
    else Discarded
  }

  /** A callback runs. */
  predicate Calls(outcome: Outcome) {
    !outcome.Discarded? && outcome.called
  }

  lemma ToSnoc(ps: seq<Packet>, p: Packet, k: nat)
    ensures To(ps + [p], k) == To(ps, k) + if p.toKey == k then [p] else []
  {
    assert (ps + [p])[..|ps|] == ps;
  }

  lemma HandRouted(channels: map<nat, Channel>, nextKey: nat, sent: seq<Packet>, taken: seq<Packet>,
                   got: map<nat, seq<Packet>>, pkt: Packet)
    requires Routed(channels, nextKey, sent, taken, got) && pkt.toKey < nextKey
    ensures Routed(channels, nextKey, sent, taken + [pkt], HandedTo(channels, got, pkt))
  {
    hide To;
    var got' := HandedTo(channels, got, pkt);
    forall k: nat
      ensures Got(got', k) <= To(taken + [pkt], k)
      ensures k in channels && !channels[k].closed ==> Got(got', k) == To(taken + [pkt], k)
    {
      ToSnoc(taken, pkt, k);
      assert Got(got', k) == Got(got, k) + if k == pkt.toKey && k in channels && !channels[k].closed then [pkt] else [];
    }
  }

  // ---- Runs ----

  /** All there is to know of a bus and its channels; what is queued and in progress follows from `ops`. */
  datatype Snapshot = Snapshot(channels: map<nat, Channel>, nextKey: nat, ops: seq<Op>,
                               got: map<nat, seq<Packet>>, reports: seq<nat>)

  ghost function Applied(s: Snapshot, event: Event): Snapshot {
    var l := After(s.ops);
    match event
    case Perform(act) =>
      s.(channels := Rewired(s.channels, s.nextKey, act), nextKey := if act.Open? then s.nextKey + 1 else s.nextKey,
         ops := s.ops + SendAll(Sends(s.channels, act)))
    case Deliver => if l.queue == [] then s else Dispatched(s, l.queue[0])
    case Return => if l.open == [] then s else s.(ops := s.ops + [Op.End])
  }

  ghost function Dispatched(s: Snapshot, pkt: Packet): Snapshot {
    var outcome := Dispatch(s.channels, pkt);
    s.(got := HandedTo(s.channels, s.got, pkt),
       reports := s.reports + (if outcome.Reported? then [outcome.sender] else []),
       ops := s.ops + [Op.Begin] + if Calls(outcome) then [] else [Op.End])
  }

  ghost function AllApplied(s: Snapshot, events: seq<Event>): Snapshot {
    if events == [] then s else Applied(AllApplied(s, events[..|events| - 1]), events[|events| - 1])
  }

  lemma AppliedSnoc(s: Snapshot, events: seq<Event>, event: Event)
    ensures AllApplied(s, events + [event]) == Applied(AllApplied(s, events), event)
  {
    assert (events + [event])[..|events|] == events;
  }

  class Bus {
    const ring: Ring
    var channels: map<nat, Channel>
    var nextKey: nat
    /** What each channel was handed, and who was told that data of theirs was unroutable. */
    ghost var got: map<nat, seq<Packet>>
    ghost var reports: seq<nat>

    ghost predicate Valid()
      reads this, ring
    {
      ring.Valid() && Routed(channels, nextKey, ring.Now().sent, ring.Now().taken, got)
    }

    ghost function Look(): Snapshot
      reads this, ring
    {
      Snapshot(channels, nextKey, ring.ops, got, reports)
    }

    constructor ()
      ensures Valid() && fresh(ring) && ring.ops == [] && ring.frames == [] && channels == map[] && nextKey == 1
    {
      ring := new Ring();
      channels, nextKey, got, reports := map[], 1, map[], [];
    }

    method Enqueue(p: Packet)
      requires Valid() && p.toKey < nextKey
      modifies ring
      ensures Valid() && ring.ops == old(ring.ops) + [Op.Send(p)]
    {
      hide Shows, After;
      ring.Push(p);
    }

    /** `register_channel`. */
    method OpenChannel() returns (key: nat)
      requires Valid()
      modifies this`channels, this`nextKey
      ensures Valid() && key == old(nextKey) && nextKey == key + 1
      ensures key !in old(channels) && channels == old(channels)[key := Channel(0, false, {})]
    {
      hide Shows, After;
      key := nextKey;
      NewcomerGetsNothingOld(channels, nextKey, ring.Now().sent, ring.Now().taken, got);
      channels, nextKey := channels[key := Channel(0, false, {})], key + 1;
    }

    /** `connect_to`: the partner's key is resolved here, once. */
    method Connect(key: nat, endpoint: nat)
      requires Valid() && key in channels
      modifies this`channels
      ensures Valid()
      ensures channels == old(channels)[key := old(channels)[key].(partner := if endpoint in old(channels) then endpoint else 0)]
    {
      hide Shows, After;
      channels := channels[key := channels[key].(partner := if endpoint in channels then endpoint else 0)];
    }

    method Deregister(key: nat)
      requires Valid()
      modifies this`channels
      ensures Valid() && channels == old(channels) - {key}
    {
      hide Shows, After;
      channels := channels - {key};
    }

    /** `on_data` and its like. */
    method SetHandler(key: nat, handler: Handler)
      requires Valid() && key in channels
      modifies this`channels
      ensures Valid()
      ensures channels == old(channels)[key := old(channels)[key].(handlers := old(channels)[key].handlers + {handler})]
    {
      hide Shows, After;
      channels := channels[key := channels[key].(handlers := channels[key].handlers + {handler})];
    }

    /** `close`, once: the channel falls silent before its last packet. */
    method Close(key: nat)
      requires Valid() && key in channels && !channels[key].closed
      modifies this`channels, ring
      ensures Valid() && channels == old(channels)[key := old(channels)[key].(closed := true)]
      ensures ring.ops == old(ring.ops) + [Op.Send(Packet(old(channels)[key].partner, PacketKind.Close, None, 0, None))]
    {
      hide Shows, After;
      channels := channels[key := channels[key].(closed := true)];
      Enqueue(Packet(channels[key].partner, PacketKind.Close, None, 0, None));
    }

    /** One act of the program or of a callback. */
    method Do(act: Act)
      requires Valid()
      modifies this, ring
      ensures Valid() && Look() == Applied(old(Look()), Perform(act))
    {
      hide Shows, After, Routed;
      PartnersBelow(channels, nextKey, ring.Now().sent, ring.Now().taken, got);
      match act
      case Open => var key := OpenChannel();
      case Destroy(key) => Deregister(key);
      case ConnectTo(key, endpoint) => if key in channels { Connect(key, endpoint); }
      case Send(key, bytes) =>
        if key in channels && !channels[key].closed {
          Enqueue(Packet(channels[key].partner, Data, Some(key), bytes, None));
        }
      case SendObject(key, obj) =>
        if key in channels && !channels[key].closed {
          Enqueue(Packet(channels[key].partner, Object, None, 0, Some(obj)));
        }
      case CloseChannel(key) => if key in channels && !channels[key].closed { Close(key); }
      case Listen(key, handler) => if key in channels { SetHandler(key, handler); }
    }

    /** `deliver_one` up to the callback it runs; where it runs none, to its end. */
    method Deliver() returns (pkt: Option<Packet>)
      requires Valid()
      modifies this`got, this`reports, ring
      ensures Valid() && Look() == Applied(old(Look()), Event.Deliver)
      ensures pkt == if old(ring.Now()).queue == [] then None else Some(old(ring.Now()).queue[0])
    {
      hide Shows, After, Routed, Kept;
      ring.Fields();
      if ring.size == 0 {
        return None;
      }
      ring.History();
      PartnersBelow(channels, nextKey, ring.Now().sent, ring.Now().taken, got);
      KeysBelow(ring.Now().sent, ring.Now().taken + ring.Now().queue, nextKey);
      HandRouted(channels, nextKey, ring.Now().sent, ring.Now().taken, got, ring.Now().queue[0]);
      var p := ring.Begin();
      ring.Fields();
      got := HandedTo(channels, got, p);
      var outcome := Dispatch(channels, p);
      if outcome.Reported? {
        reports := reports + [outcome.sender];
      }
      if !Calls(outcome) {
        var _ := ring.End();
      }
      pkt := Some(p);
    }

    /** A callback returns to `dispatch_packet`, which clears the slot: the packet queued there, if any,
        loses its sender and its object, and the write is stray if the slot is gone. */
    method Return() returns (stray: bool)
      requires Valid() && ring.frames != []
      modifies ring
      ensures old(ring.Now()).open != [] && Valid() && Look() == Applied(old(Look()), Event.Return)
      ensures ring.Now() == Ended(old(ring.Now())) && (stray <==> ring.Now().strays > old(ring.Now()).strays)
    {
      hide Shows, After, Routed;
      stray := ring.End();
    }

    /** Any run of acts, deliveries and returns, nested in any way. The bus is intact afterwards, no write
        stray and everything sent taken off or queued as it was sent, if and only if every callback returned
        where it may; in particular if none saw more sends than the ring had free slots. Without a stray
        write every channel has been handed, in order, a prefix of what was sent to it, and all of it once
        the queue is empty, unless it closed. */
    method Run(events: seq<Event>)
      requires Valid()
      modifies this, ring
      ensures Valid() && Look() == AllApplied(old(Look()), events)
      ensures Intact(ring.Now()) <==> ReturnsSafely(ring.ops)
      ensures WithinBounds(ring.ops) ==> Intact(ring.Now())
      ensures ring.Now().strays == 0 ==> forall k: nat :: InOrder(k)
      ensures Intact(ring.Now()) ==> forall k: nat :: Whole(k)
    {
      hide Shows, After, Routed, InOrder, Whole, Intact, WithinBounds, ReturnsSafely;
      for i := 0 to |events|
        invariant Valid() && Look() == AllApplied(old(Look()), events[..i])
      {
        ring.Fields();
        AppliedSnoc(old(Look()), events[..i], events[i]);
        assert events[..i] + [events[i]] == events[..i + 1];
        match events[i] {
          case Perform(act) => Do(act);
          case Deliver => var _ := Deliver();
          case Return => if ring.frames != [] { var _ := Return(); }
        }
      }
      assert events[..|events|] == events;
      ring.History();
      Received();
    }

    /** Channel `k` has been handed a prefix of what was sent to it; all of it, if it is open and nothing is
        queued. */
    ghost predicate InOrder(k: nat)
      reads this, ring
    {
      && Plain(Got(got, k)) <= Plain(To(ring.Now().sent, k))
      && (ring.Now().queue == [] && k in channels && !channels[k].closed ==>
            Plain(Got(got, k)) == Plain(To(ring.Now().sent, k)))
    }

    /** The same, with senders and objects. */
    ghost predicate Whole(k: nat)
      reads this, ring
    {
      && Got(got, k) <= To(ring.Now().sent, k)
      && (ring.Now().queue == [] && k in channels && !channels[k].closed ==> Got(got, k) == To(ring.Now().sent, k))
    }

    lemma Received()
      requires Valid()
      ensures forall k: nat :: InOrder(k)
      ensures Intact(ring.Now()) ==> forall k: nat :: Whole(k)
    {
      hide To, Got, After, Shows, Intact;
      ring.History();
      forall k: nat ensures InOrder(k) && (Intact(ring.Now()) ==> Whole(k)) {
        DeliveredInSendOrder(channels, nextKey, ring.Now(), got, k);
      }
    }
  }
}
