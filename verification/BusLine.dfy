/** The in-process bus's packet line, as its users see it: what is queued, where in the ring it starts, and
    which slots deliveries in progress still refer to. A run is any list of sends, deliveries and returns,
    nested in any way. */
module BusLine {
  import opened Options
  import Words

  datatype PacketKind = Data | Close | Object

  /** A queued packet: the target's registration key, the sending channel (data only), the bytes
      (here one number stands for them) and the carried object (objects only). */
  datatype Packet = Packet(toKey: nat, kind: PacketKind, from: Option<nat>, bytes: nat, carrier: Option<nat>)

  /** What `dispatch_packet` leaves in the slot it was given. */
  function Wiped(p: Packet): Packet {
    p.(from := None, carrier := None)
  }

  /** The packet has a sender or an object to lose. */
  predicate Laden(p: Packet) {
    p.from.Some? || p.carrier.Some?
  }

  /** `(head + i) % n`, for an index one turn ahead at most. */
  function At(head: nat, i: nat, n: nat): (k: nat)
    requires head < n && i <= n
    ensures k == if head + i < n then head + i else head + i - n
  {
    Words.DivModUnique(head + i, n, if head + i < n then 0 else 1, if head + i < n then head + i else head + i - n);
    (head + i) % n
  }

  /** The place of slot `at` counted from the head; a packet is queued in it if that is below the size. */
  function Offset(head: nat, at: nat, cap: nat): nat
    requires head <= cap
  {
    if at >= head then at - head else at + cap - head
  }

  /** A delivery whose callback has not returned. It goes on using slot `at` by reference: `here` while the
      ring has not been reallocated since. `free` slots were free when it began, and `sends` packets were
      sent since. */
  datatype Open = Open(pkt: Packet, at: nat, here: bool, free: nat, sends: nat)

  /** `strays` counts the closing writes that went to freed storage. */
  datatype Line = Line(cap: nat, head: nat, queue: seq<Packet>, open: seq<Open>,
                       sent: seq<Packet>, taken: seq<Packet>, strays: nat)

  datatype Op = Send(p: Packet) | Begin | End

  const EMPTY := Line(0, 0, [], [], [], [], 0)

  predicate Shaped(l: Line) {
    && |l.queue| <= l.cap && (l.head < l.cap || (l.cap == 0 && l.head == 0))
    && (forall i :: 0 <= i < |l.open| ==> l.open[i].here ==> l.open[i].at < l.cap)
  }

  function Later(os: seq<Open>, here: bool): (r: seq<Open>)
    ensures |r| == |os| && forall i :: 0 <= i < |os| ==> r[i] == os[i].(here := os[i].here && here, sends := os[i].sends + 1)
  {
    seq(|os|, i requires 0 <= i < |os| => os[i].(here := os[i].here && here, sends := os[i].sends + 1))
  }

  function Doubled(cap: nat): nat {
    if cap == 0 then 8 else 2 * cap
  }

  /** A packet sent; on a full ring all slots move, and every delivery in progress loses its own. */
  function Sent(l: Line, p: Packet): Line {
    if |l.queue| < l.cap then
      l.(queue := l.queue + [p], sent := l.sent + [p], open := Later(l.open, true))
    else
      l.(cap := Doubled(l.cap), head := 0, queue := l.queue + [p], sent := l.sent + [p], open := Later(l.open, false))
  }

  /** The first packet is being delivered. */
  function Begun(l: Line): Line
    requires l.queue != [] && |l.queue| <= l.cap && l.head < l.cap
  {
    l.(head := At(l.head, 1, l.cap), queue := l.queue[1..], taken := l.taken + [l.queue[0]],
       open := l.open + [Open(l.queue[0], l.head, true, l.cap - |l.queue|, 0)])
  }

  /** The packet queued in the slot of the innermost delivery, as its place in the queue. */
  function Struck(l: Line): (r: Option<nat>)
    requires Shaped(l) && l.open != []
    ensures r.Some? ==> r.value < |l.queue|
  {
    var o := l.open[|l.open| - 1];
    if o.here && Offset(l.head, o.at, l.cap) < |l.queue| then Some(Offset(l.head, o.at, l.cap)) else None
  }

  /** What the next return would clear. */
  function Hit(l: Line): (r: Option<nat>)
    requires Shaped(l)
    ensures r.Some? ==> r.value < |l.queue|
  {
    if l.open == [] then None else Struck(l)
  }

  /** The innermost callback returns, and the slot it was given is cleared, whatever it holds by then. */
  function Ended(l: Line): Line
    requires Shaped(l) && l.open != []
  {
    var (o, hit) := (l.open[|l.open| - 1], Struck(l));
    l.(open := l.open[..|l.open| - 1], strays := if o.here then l.strays else l.strays + 1,
       queue := if hit.Some? then l.queue[hit.value := Wiped(l.queue[hit.value])] else l.queue)
  }

  ghost function Next(l: Line, op: Op): Line
    requires Shaped(l)
  {
    match op
    case Send(p) => Sent(l, p)
    case Begin => if l.queue == [] then l else Begun(l)
    case End => if l.open == [] then l else Ended(l)
  }

  lemma NextShaped(l: Line, op: Op)
    requires Shaped(l)
    ensures Shaped(Next(l, op))
  {
    if op.End? && l.open != [] {
      assert forall i :: 0 <= i < |Next(l, op).open| ==> Next(l, op).open[i] == l.open[i];
    }
  }

  /** The line after a run. */
  ghost function After(ops: seq<Op>): (l: Line)
    ensures Shaped(l)
  {
    if ops == [] then EMPTY
    else
      var l := After(ops[..|ops| - 1]);
      NextShaped(l, ops[|ops| - 1]);
      Next(l, ops[|ops| - 1])
  }

  lemma AfterSnoc(ops: seq<Op>, op: Op)
    ensures After(ops + [op]) == Next(After(ops), op)
  {
    assert (ops + [op])[..|ops|] == ops;
  }

  // ---- What a run loses ----

  /** What was taken off and is queued is what was sent, except that some packets were cleared. */
  ghost predicate Kept(sent: seq<Packet>, out: seq<Packet>) {
    |out| == |sent| && forall i :: 0 <= i < |sent| ==> out[i] == sent[i] || out[i] == Wiped(sent[i])
  }

  /** Targets, kinds and bytes of packets. */
  ghost function Plain(ps: seq<Packet>): (r: seq<Packet>)
    ensures |r| == |ps| && forall i :: 0 <= i < |ps| ==> r[i] == Wiped(ps[i])
  {
    seq(|ps|, i requires 0 <= i < |ps| => Wiped(ps[i]))
  }

  lemma PlainFifo(sent: seq<Packet>, out: seq<Packet>)
    requires Kept(sent, out)
    ensures Plain(out) == Plain(sent)
  {
    assert forall i :: 0 <= i < |sent| ==> Wiped(out[i]) == Wiped(sent[i]);
  }

  /** No closing write was stray, and nothing sent has lost anything. */
  ghost predicate Intact(l: Line) {
    l.strays == 0 && l.taken + l.queue == l.sent
  }

  /** The innermost callback may return here: its slot is still there, and holds no queued packet with a
      sender or an object. */
  ghost predicate SafeToReturn(l: Line)
    requires Shaped(l)
  {
    l.open == [] || (l.open[|l.open| - 1].here && (Struck(l).Some? ==> !Laden(l.queue[Struck(l).value])))
  }

  /** Every return of the run happens where it may. */
  ghost predicate ReturnsSafely(ops: seq<Op>) {
    forall i :: 0 <= i < |ops| && ops[i].End? ==> SafeToReturn(After(ops[..i]))
  }

  lemma {:induction false} NextKept(l: Line, op: Op)
    requires Shaped(l) && Kept(l.sent, l.taken + l.queue)
    ensures Kept(Next(l, op).sent, Next(l, op).taken + Next(l, op).queue)
    ensures Intact(Next(l, op)) <==> Intact(l) && (op.End? ==> SafeToReturn(l))
  {
    var m := Next(l, op);
    match op
    case Send(p) =>
      SendKept(l, p);
    case Begin =>
      if l.queue != [] {
        assert l.taken + [l.queue[0]] + l.queue[1..] == l.taken + l.queue;
      }
    case End =>
      if l.open != [] {
        EndKept(l);
      }
  }

  lemma SendKept(l: Line, p: Packet)
    requires Kept(l.sent, l.taken + l.queue)
    ensures Kept(l.sent + [p], l.taken + (l.queue + [p]))
    ensures l.taken + (l.queue + [p]) == l.sent + [p] <==> l.taken + l.queue == l.sent
  {
    assert l.taken + (l.queue + [p]) == l.taken + l.queue + [p];
    assert (l.sent + [p])[..|l.sent|] == l.sent;
    assert (l.taken + l.queue + [p])[..|l.sent|] == l.taken + l.queue;
  }

  lemma EndKept(l: Line)
    requires Shaped(l) && Kept(l.sent, l.taken + l.queue) && l.open != []
    ensures Kept(Ended(l).sent, Ended(l).taken + Ended(l).queue)
    ensures Intact(Ended(l)) <==> Intact(l) && SafeToReturn(l)
  {
    var hit := Struck(l);
    if hit.Some? {
      var out, w := l.taken + l.queue, |l.taken| + hit.value;
      assert l.taken + Ended(l).queue == out[w := Wiped(out[w])];
      assert out[w] == l.queue[hit.value];
      StrikeEquals(l.sent, out, w);
    }
  }

  /** Clearing one packet keeps the line exact if and only if it was, and the packet had nothing to lose. */
  lemma StrikeEquals(sent: seq<Packet>, out: seq<Packet>, w: nat)
    requires Kept(sent, out) && w < |out|
    ensures Kept(sent, out[w := Wiped(out[w])])
    ensures out[w := Wiped(out[w])] == sent <==> out == sent && !Laden(out[w])
  {
    var out' := out[w := Wiped(out[w])];
    if out' == sent {
      assert out'[w] == sent[w];
      assert forall i :: 0 <= i < |out| && i != w ==> out'[i] == out[i];
      assert out == sent;
    }
  }

  /** The bus over every run, sends, deliveries and returns nested in any way: no closing write goes astray
      and everything sent is taken off or queued, in order and whole, if and only if every callback returns
      where it may. */
  lemma {:induction false} RunFifoIff(ops: seq<Op>)
    ensures Kept(After(ops).sent, After(ops).taken + After(ops).queue)
    ensures Intact(After(ops)) <==> ReturnsSafely(ops)
  {
    if ops != [] {
      var front, op := ops[..|ops| - 1], ops[|ops| - 1];
      RunFifoIff(front);
      NextKept(After(front), op);
      SafelyPrefix(front, op);
      assert ops == front + [op];
    }
  }

  lemma {:induction false} SafelyPrefix(front: seq<Op>, op: Op)
    ensures ReturnsSafely(front + [op]) <==> ReturnsSafely(front) && (op.End? ==> SafeToReturn(After(front)))
  {
    var ops := front + [op];
    assert ops[..|front|] == front;
    assert forall i :: 0 <= i < |front| ==> ops[i] == front[i] && ops[..i] == front[..i];
    if ReturnsSafely(ops) {
      forall i | 0 <= i < |front| && front[i].End? ensures SafeToReturn(After(front[..i])) {
        assert ops[i].End? && SafeToReturn(After(ops[..i]));
      }
    }
  }

  /** Once it has, it stays so: what is lost or gone astray is never made good. */
  lemma {:induction false} NeverMadeGood(ops: seq<Op>, more: seq<Op>)
    ensures Intact(After(ops + more)) ==> Intact(After(ops))
  {
    if more == [] {
      assert ops + more == ops;
    } else {
      var front, op := more[..|more| - 1], more[|more| - 1];
      NeverMadeGood(ops, front);
      RunFifoIff(ops + front);
      AfterSnoc(ops + front, op);
      NextKept(After(ops + front), op);
      assert ops + front + [op] == ops + more;
    }
  }

  // ---- A bound that keeps a run safe ----

  /** No more was sent during this delivery than the ring had free slots when it began. */
  predicate InBounds(o: Open) {
    o.sends <= o.free
  }

  /** Then its slot is where it was, and is not queued: the sends still allowed fit in front of it. */
  ghost predicate Spaced(l: Line)
    requires Shaped(l)
  {
    forall i :: 0 <= i < |l.open| && InBounds(l.open[i]) ==>
      var o, room := l.open[i], l.open[i].free - l.open[i].sends;
      o.here && |l.queue| + room < l.cap && At(l.head, |l.queue| + room, l.cap) == o.at
  }

  lemma NextSpaced(l: Line, op: Op)
    requires Shaped(l) && Spaced(l)
    ensures Shaped(Next(l, op)) && Spaced(Next(l, op))
  {
    NextShaped(l, op);
    var m := Next(l, op);
    forall i | 0 <= i < |m.open| && InBounds(m.open[i])
      ensures var o, room := m.open[i], m.open[i].free - m.open[i].sends;
              o.here && |m.queue| + room < m.cap && At(m.head, |m.queue| + room, m.cap) == o.at
    {
      assert i < |l.open| ==> InBounds(l.open[i]);
    }
  }

  lemma {:induction false} AfterSpaced(ops: seq<Op>)
    ensures Spaced(After(ops))
  {
    if ops != [] {
      AfterSpaced(ops[..|ops| - 1]);
      NextSpaced(After(ops[..|ops| - 1]), ops[|ops| - 1]);
    }
  }

  /** No callback sees more sends before it returns, its own and those of deliveries inside it, than the
      ring had free slots when its delivery began. */
  ghost predicate WithinBounds(ops: seq<Op>) {
    forall i :: 0 <= i < |ops| && ops[i].End? && After(ops[..i]).open != [] ==>
      InBounds(After(ops[..i]).open[|After(ops[..i]).open| - 1])
  }

  /** Which is enough for a whole run: nothing is lost, and nothing goes astray. */
  lemma {:induction false} BoundKeepsAll(ops: seq<Op>)
    requires WithinBounds(ops)
    ensures ReturnsSafely(ops) && Intact(After(ops))
  {
    forall i | 0 <= i < |ops| && ops[i].End? ensures SafeToReturn(After(ops[..i])) {
      AfterSpaced(ops[..i]);
      SpacedIsSafe(After(ops[..i]));
    }
    RunFifoIff(ops);
  }

  lemma SpacedIsSafe(l: Line)
    requires Shaped(l) && Spaced(l) && (l.open != [] ==> InBounds(l.open[|l.open| - 1]))
    ensures SafeToReturn(l) && (l.open != [] ==> Struck(l).None?)
  {
  }

  // ---- One delivery whose callback only sends ----

  function SendAll(ps: seq<Packet>): (ops: seq<Op>)
    ensures |ops| == |ps| && forall i :: 0 <= i < |ps| ==> ops[i] == Send(ps[i])
  {
    seq(|ps|, i requires 0 <= i < |ps| => Send(ps[i]))
  }

  /** `m` is the line just before that callback returns, `l` being the line before the delivery. */
  ghost predicate Inside(l: Line, m: Line, ps: seq<Packet>)
    requires Shaped(l) && l.queue != []
  {
    && m.queue == l.queue[1..] + ps && m.open != []
    && var o := m.open[|m.open| - 1];
    && o.here == (|m.queue| <= l.cap) && o.at == l.head
    && (o.here ==> m.cap == l.cap && m.head == At(l.head, 1, l.cap))
    && (!o.here ==> m.cap >= |m.queue|)
  }

  lemma InsideMore(l: Line, m: Line, ps: seq<Packet>, p: Packet)
    requires Shaped(l) && l.queue != [] && Shaped(m) && Inside(l, m, ps)
    ensures Inside(l, Sent(m, p), ps + [p])
  {
    assert l.queue[1..] + ps + [p] == l.queue[1..] + (ps + [p]);
  }

  lemma {:induction false} SentInside(ops: seq<Op>, ps: seq<Packet>)
    requires After(ops).queue != []
    ensures Inside(After(ops), After(ops + [Begin] + SendAll(ps)), ps)
  {
    hide After, Shaped;
    var l := After(ops);
    if ps == [] {
      AfterSnoc(ops, Begin);
      assert ops + [Begin] + SendAll(ps) == ops + [Begin];
      assert Shaped(l);
      InsideAtOnce(l);
    } else {
      hide Inside, Sent;
      var front, p := ps[..|ps| - 1], ps[|ps| - 1];
      SentInside(ops, front);
      assert ops + [Begin] + SendAll(ps) == ops + [Begin] + SendAll(front) + [Send(p)];
      AfterSnoc(ops + [Begin] + SendAll(front), Send(p));
      InsideMore(l, After(ops + [Begin] + SendAll(front)), front, p);
      assert front + [p] == ps;
    }
  }

  lemma InsideAtOnce(l: Line)
    requires Shaped(l) && l.queue != []
    ensures Inside(l, Begun(l), [])
  {
  }

  lemma InsideSafe(l: Line, m: Line, ps: seq<Packet>)
    requires Shaped(l) && l.queue != [] && Shaped(m) && Inside(l, m, ps)
    ensures var free := l.cap - |l.queue|;
            SafeToReturn(m) <==> |ps| <= free || (|ps| == free + 1 && !Laden(ps[|ps| - 1]))
  {
    if |m.queue| == l.cap {
      assert ps != [] ==> m.queue[|m.queue| - 1] == ps[|ps| - 1];
    }
  }

  /** A delivery whose callback only sends keeps the bus a FIFO if and only if the callback leaves the
      delivered packet's slot alone, or refills it with a packet that has nothing to lose. */
  lemma FifoIff(ops: seq<Op>, ps: seq<Packet>)
    requires After(ops).queue != []
    ensures var free := After(ops).cap - |After(ops).queue|;
            Intact(After(ops + [Begin] + SendAll(ps) + [End])) <==>
              && Intact(After(ops))
              && (|ps| <= free || (|ps| == free + 1 && !Laden(ps[|ps| - 1])))
  {
    hide After, Inside, SafeToReturn, ReturnsSafely, Intact, Kept, Shaped;
    var inside := ops + [Begin] + SendAll(ps);
    SentInside(ops, ps);
    InsideSafe(After(ops), After(inside), ps);
    NoReturnInside(ops, ps);
    RunFifoIff(ops);
    RunFifoIff(inside + [End]);
    SafelyPrefix(inside, End);
  }

  lemma {:induction false} NoReturnInside(ops: seq<Op>, ps: seq<Packet>)
    ensures ReturnsSafely(ops + [Begin] + SendAll(ps)) <==> ReturnsSafely(ops)
  {
    hide After, ReturnsSafely, SafeToReturn;
    SafelyPrefix(ops, Begin);
    if ps == [] {
      assert ops + [Begin] + SendAll(ps) == ops + [Begin];
    } else {
      var front, p := ps[..|ps| - 1], ps[|ps| - 1];
      NoReturnInside(ops, front);
      assert ops + [Begin] + SendAll(ps) == ops + [Begin] + SendAll(front) + [Send(p)];
      SafelyPrefix(ops + [Begin] + SendAll(front), Send(p));
    }
  }
}
