/** The in-process executor: posted callbacks, then packets, then due timers, one unit of work at a
    time. Every method runs up to the call of a user callback; what the callback does is any further
    calls, and `Return` is its end. */
module Executor {
  import opened Options
  import opened Timers

  /** The history after `timer` fires. */
  ghost function Fired(l: Ledger, timer: Timer, now: int): Ledger
    requires timer.handler.Some?
  {
    l.(calls := l.calls + [Call(timer.handler.value, true, now, timer.expiry)])
  }

  /** `std::erase`. */
  function Erased(list: seq<nat>, t: nat): (r: seq<nat>)
    ensures forall u :: u in r <==> u in list && u != t
  {
    if list == [] then []
    else Erased(list[..|list| - 1], t) + if list[|list| - 1] == t then [] else [list[|list| - 1]]
  }

  class Exec {
    var timers: map<nat, Timer>
    /** `m_timers`, in registration order. */
    var order: seq<nat>
    var nextTimer: nat
    var nextHandler: nat
    var posted: seq<nat>
    /** The bus queue. */
    var packets: seq<nat>
    var frames: seq<Frame>
    var clock: int
    /** How often an `expires_after` came back to a timer its handler had destroyed, and wrote to it. */
    var strays: nat
    /** How often a timer was destroyed while an `expires_after` of it was running. */
    ghost var undercut: nat
    ghost var ledger: Ledger
    /** Everything posted and everything sent, and the units of both that were run. */
    ghost var allPosted: seq<nat>
    ghost var allPackets: seq<nat>
    ghost var ranPosted: seq<nat>
    ghost var ranPackets: seq<nat>

    ghost predicate Valid()
      reads this
    {
      && Kept(timers, frames, ledger) && nextHandler == |ledger.promises|
      && (forall t :: t in order ==> t in timers)
      && (forall t :: t in timers ==> t in order && t < nextTimer)
      && (forall f :: f in frames && f.Arming? ==> f.timer < nextTimer)
      && allPosted == ranPosted + posted
      && allPackets == ranPackets + packets
      && (undercut == 0 <==> strays == 0 && Landing(timers, frames))
    }

    /** Every `expires_after` that is running has its timer to come back to. */
    static ghost predicate Landing(timers: map<nat, Timer>, frames: seq<Frame>) {
      forall f :: f in frames && f.Arming? ==> f.timer in timers
    }

    /** No posted work, no packet, and no armed timer that is due. */
    ghost predicate Quiet()
      reads this
    {
      posted == [] && packets == [] && forall t :: t in timers ==> !Due(timers[t], clock)
    }

    constructor ()
      ensures Valid() && timers == map[] && order == [] && frames == [] && clock == 0 && posted == packets == []
      ensures ledger == Ledger([], {}, [], []) && nextTimer == strays == undercut == 0
    {
      timers, order, nextTimer, nextHandler, posted, packets, frames, clock, strays := map[], [], 0, 0, [], [], [], 0, 0;
      ledger, allPosted, allPackets, ranPosted, ranPackets, undercut := Ledger([], {}, [], []), [], [], [], [], 0;
    }

    method Elapse(d: nat)
      requires Valid()
      modifies `clock
      ensures Valid() && clock == old(clock) + d
    {
      hide Kept;
      clock := clock + d;
    }

    /** The timer's constructor and `register_timer`. */
    method NewTimer() returns (t: nat)
      requires Valid()
      modifies `timers, `order, `nextTimer
      ensures Valid() && t == old(nextTimer) && t !in old(timers)
      ensures timers == old(timers)[t := Timer(0, false, None)] && order == old(order) + [t]
    {
      hide Kept;
      t := nextTimer;
      timers, order, nextTimer := timers[t := Timer(0, false, None)], order + [t], t + 1;
      NewTimerKeeps(old(timers), frames, ledger, t);
    }

    /** `complete_pending` up to the handler's call. */
    method Complete(t: nat, ok: bool, timer: Timer, frame: Frame)
      requires Valid() && t in timers && timers[t].handler.Some? && timer.handler == None
      requires ok ==> Due(timers[t], clock)
      requires frame.Arming? ==> frame.timer == t
      modifies `timers, `frames, `ledger
      ensures Valid() && timers == old(timers)[t := timer] && frames == old(frames) + [frame]
      ensures ledger == old(ledger).(calls := old(ledger).calls +
                [Call(old(timers)[t].handler.value, ok, clock, old(timers)[t].expiry)])
    {
      hide Kept;
      CallKeeps(timers, timers[t := timer], frames, frames + [frame], ledger, t, ok, clock);
      ledger := ledger.(calls := ledger.calls + [Call(timers[t].handler.value, ok, clock, timers[t].expiry)]);
      timers, frames := timers[t := timer], frames + [frame];
    }

    /** `expires_after`: the handler that waits is cancelled first, and the timer armed when it returns. */
    method ExpiresAfter(t: nat, d: int)
      requires Valid() && t in timers
      modifies `timers, `frames, `ledger
      ensures Valid()
      ensures old(timers)[t].handler == None ==>
                timers == old(timers)[t := Timer(clock + d, true, None)] && frames == old(frames) && ledger == old(ledger)
      ensures old(timers)[t].handler.Some? ==>
                && timers == old(timers)[t := old(timers)[t].(handler := None)] && frames == old(frames) + [Arming(t, d)]
                && ledger == old(ledger).(calls := old(ledger).calls +
                     [Call(old(timers)[t].handler.value, false, clock, old(timers)[t].expiry)])
    {
      hide Kept;
      if timers[t].handler.Some? {
        Complete(t, false, timers[t].(handler := None), Arming(t, d));
      } else {
        ArmKeeps(timers, frames, frames, ledger, t, clock + d);
        timers := timers[t := Timer(clock + d, true, None)];
      }
    }

    /** `async_wait`: a handler that waits already is dropped, uncalled. */
    method AsyncWait(t: nat) returns (id: nat)
      requires Valid() && t in timers
      modifies `timers, `ledger, `nextHandler
      ensures Valid() && id == |old(ledger).promises|
      ensures timers == old(timers)[t := old(timers)[t].(handler := Some(id))]
      ensures ledger.calls == old(ledger).calls && ledger.dropped == old(ledger).dropped + old(timers)[t].handler.AsSet()
      ensures ledger.promises == old(ledger).promises +
                [Promise(t, if timers[t].active then Some(timers[t].expiry) else None, Unarming(frames, t))]
      ensures ledger.rearms == old(ledger).rearms + [[]]
    {
      hide Kept;
      WaitKeeps(timers, frames, ledger, t);
      id := nextHandler;
      ghost var p := Promise(t, if timers[t].active then Some(timers[t].expiry) else None, Unarming(frames, t));
      ledger := ledger.(promises := ledger.promises + [p], rearms := ledger.rearms + [[]], dropped := ledger.dropped + timers[t].handler.AsSet());
      timers, nextHandler := timers[t := timers[t].(handler := Some(id))], id + 1;
    }

    method Cancel(t: nat)
      requires Valid() && t in timers
      modifies `timers, `frames, `ledger
      ensures Valid() && timers == old(timers)[t := old(timers)[t].(active := false, handler := None)]
      ensures old(timers)[t].handler == None ==> frames == old(frames) && ledger == old(ledger)
      ensures old(timers)[t].handler.Some? ==>
                && frames == old(frames) + [Callback]
                && ledger == old(ledger).(calls := old(ledger).calls +
                     [Call(old(timers)[t].handler.value, false, clock, old(timers)[t].expiry)])
    {
      hide Kept;
      if timers[t].handler.Some? {
        Complete(t, false, timers[t].(active := false, handler := None), Callback);
      } else {
        DisarmKeeps(timers, frames, ledger, t);
        timers := timers[t := timers[t].(active := false)];
      }
    }

    /** The destructor; a handler that waits is dropped. */
    method Destroy(t: nat)
      requires Valid() && t in timers
      modifies `timers, `order, `ledger, `undercut
      ensures Valid() && timers == old(timers) - {t} && t !in order
      ensures undercut == old(undercut) + if Unarming(frames, t) then 0 else 1
      ensures ledger == old(ledger).(dropped := old(ledger).dropped + old(timers)[t].handler.AsSet())
    {
      hide Kept;
      DestroyKeeps(timers, frames, ledger, t);
      ledger := ledger.(dropped := ledger.dropped + timers[t].handler.AsSet());
      timers, order := timers - {t}, Erased(order, t);
      undercut := if Unarming(frames, t) then undercut else undercut + 1;
    }

    method Post(fn: nat)
      requires Valid()
      modifies `posted, `allPosted
      ensures Valid() && posted == old(posted) + [fn] && allPosted == old(allPosted) + [fn]
    {
      hide Kept;
      posted, allPosted := posted + [fn], allPosted + [fn];
    }

    method Enqueue(pkt: nat)
      requires Valid()
      modifies `packets, `allPackets
      ensures Valid() && packets == old(packets) + [pkt] && allPackets == old(allPackets) + [pkt]
    {
      hide Kept;
      packets, allPackets := packets + [pkt], allPackets + [pkt];
    }

    method PushCallback()
      requires Valid()
      modifies `frames
      ensures Valid() && frames == old(frames) + [Callback]
    {
      hide Kept;
      FramesKeep(timers, frames, frames + [Callback], ledger);
      frames := frames + [Callback];
    }

    /** `step`, up to the callback it runs: posted work first, in order, then one packet, then the first
        due timer in registration order. It returns false exactly when the executor is quiet, and then
        nothing has changed. */
    method Step() returns (worked: bool, ghost at: nat)
      requires Valid()
      modifies `posted, `packets, `ranPosted, `ranPackets, `timers, `frames, `ledger
      ensures Valid() && worked == old(!Quiet())
      ensures frames == old(frames) + if worked then [Callback] else []
      ensures old(posted) != [] ==>
                && ranPosted == old(ranPosted) + [old(posted)[0]]
                && packets == old(packets) && timers == old(timers) && ledger == old(ledger)
      ensures old(posted) == [] && old(packets) != [] ==>
                && ranPackets == old(ranPackets) + [old(packets)[0]]
                && posted == [] && timers == old(timers) && ledger == old(ledger)
      ensures old(posted) == [] && old(packets) == [] ==>
                && posted == packets == []
                && (!worked ==> timers == old(timers) && ledger == old(ledger))
                && (worked ==>
                      && FirstDue(old(timers), order, clock, at)
                      && timers == old(timers)[order[at] := Timer(old(timers)[order[at]].expiry, false, None)]
                      && ledger == Fired(old(ledger), old(timers)[order[at]], clock))
    {
      hide Kept;
      if posted != [] {
        ranPosted := ranPosted + [posted[0]];
        posted := posted[1..];
        PushCallback();
        return true, 0;
      }
      if packets != [] {
        ranPackets := ranPackets + [packets[0]];
        packets := packets[1..];
        PushCallback();
        return true, 0;
      }
      worked, at := FireDueTimer();
    }

    /** The first timer of the list that is due. */
    static ghost predicate FirstDue(timers: map<nat, Timer>, order: seq<nat>, now: int, k: nat) {
      && k < |order| && order[k] in timers && Due(timers[order[k]], now)
      && forall j :: 0 <= j < k ==> order[j] in timers && !Due(timers[order[j]], now)
    }

    method FireDueTimer() returns (fired: bool, ghost at: nat)
      requires Valid()
      modifies `timers, `frames, `ledger
      ensures Valid() && fired == old(exists t :: t in timers && Due(timers[t], clock))
      ensures frames == old(frames) + if fired then [Callback] else []
      ensures !fired ==> timers == old(timers) && ledger == old(ledger)
      ensures fired ==>
                && FirstDue(old(timers), order, clock, at)
                && timers == old(timers)[order[at] := Timer(old(timers)[order[at]].expiry, false, None)]
                && ledger == Fired(old(ledger), old(timers)[order[at]], clock)
    {
      hide Kept;
      at := 0;
      var anyArmed := AnyArmed();
      if !anyArmed {
        return false, 0;
      }
      for i := 0 to |order|
        invariant Valid() && timers == old(timers) && frames == old(frames) && ledger == old(ledger)
        invariant forall j :: 0 <= j < i ==> !Due(timers[order[j]], clock)
      {
        at := i;
        fired := TryFire(order[i]);
        if fired {
          return;
        }
      }
      return false, 0;
    }

    method AnyArmed() returns (any: bool)
      requires Valid()
      ensures any <==> exists t :: t in timers && timers[t].active && timers[t].handler.Some?
    {
      hide Kept;
      for i := 0 to |order|
        invariant forall j :: 0 <= j < i ==> !(timers[order[j]].active && timers[order[j]].handler.Some?)
      {
        if timers[order[i]].active && timers[order[i]].handler.Some? {
          return true;
        }
      }
      return false;
    }

    method TryFire(t: nat) returns (fired: bool)
      requires Valid() && t in timers
      modifies `timers, `frames, `ledger
      ensures Valid() && fired == old(Due(timers[t], clock))
      ensures !fired ==> timers == old(timers) && frames == old(frames) && ledger == old(ledger)
      ensures fired ==>
                && timers == old(timers)[t := Timer(old(timers)[t].expiry, false, None)]
                && frames == old(frames) + [Callback]
                && ledger == Fired(old(ledger), old(timers)[t], clock)
    {
      hide Kept;
      if !Due(timers[t], clock) {
        return false;
      }
      Complete(t, true, Timer(timers[t].expiry, false, None), Callback);
      return true;
    }

    /** A callback returns to what called it: an `expires_after` now arms its timer, a `drain` goes on. */
    method Return()
      requires Valid() && frames != [] && !frames[|frames| - 1].Draining?
      modifies `posted, `packets, `ranPosted, `ranPackets, `timers, `frames, `ledger, `strays
      ensures Valid()
      ensures var f := old(frames)[|old(frames)| - 1];
              strays == old(strays) + if f.Arming? && f.timer !in old(timers) then 1 else 0
      ensures var (outer, f) := (old(frames)[..|old(frames)| - 1], old(frames)[|old(frames)| - 1]);
              outer == [] || !outer[|outer| - 1].Draining? ==>
                && frames == outer && posted == old(posted) && packets == old(packets)
                && ledger == (if f.Arming? && f.timer in old(timers)
                              then Rearmed(old(ledger), old(timers)[f.timer].handler, clock + f.delay) else old(ledger))
                && timers == if f.Arming? && f.timer in old(timers)
                             then old(timers)[f.timer := Timer(clock + f.delay, true, old(timers)[f.timer].handler)]
                             else old(timers)
      ensures |frames| < |old(frames)| - 1 ==> Quiet() && frames == old(frames)[..|old(frames)| - 2]
    {
      hide Kept;
      var (outer, f) := (frames[..|frames| - 1], frames[|frames| - 1]);
      assert f in frames;
      assert forall g :: g in outer ==> g in frames;
      if f.Arming? && f.timer in timers {
        ArmKeeps(timers, frames, outer, ledger, f.timer, clock + f.delay);
        ledger := Rearmed(ledger, timers[f.timer].handler, clock + f.delay);
        timers := timers[f.timer := Timer(clock + f.delay, true, timers[f.timer].handler)];
      } else {
        FramesKeep(timers, frames, outer, ledger);
        strays := if f.Arming? then strays + 1 else strays;
      }
      frames := outer;
      if outer != [] && outer[|outer| - 1].Draining? {
        DrainOn();
      }
    }

    /** One round of the loop of `drain`: it ends only when the executor is quiet. */
    method DrainOn()
      requires Valid() && frames != [] && frames[|frames| - 1].Draining?
      modifies `posted, `packets, `ranPosted, `ranPackets, `timers, `frames, `ledger
      ensures Valid()
      ensures frames == (if old(Quiet()) then old(frames)[..|old(frames)| - 1] else old(frames) + [Callback])
      ensures old(Quiet()) ==> Quiet()
    {
      hide Kept;
      var worked, _ := Step();
      if !worked {
        var outer := frames[..|frames| - 1];
        assert forall g :: g in outer ==> g in frames;
        FramesKeep(timers, frames, outer, ledger);
        frames := outer;
      }
    }

    /** `drain`. */
    method Drain()
      requires Valid()
      modifies `posted, `packets, `ranPosted, `ranPackets, `timers, `frames, `ledger
      ensures Valid()
      ensures (frames == old(frames) && Quiet()) || frames == old(frames) + [Draining, Callback]
    {
      hide Kept;
      FramesKeep(timers, frames, frames + [Draining], ledger);
      frames := frames + [Draining];
      DrainOn();
      assert old(frames) + [Draining] + [Callback] == old(frames) + [Draining, Callback];
    }
  }

  /** Anything a program, or a callback, may do next. */
  datatype Op =
    | New | Arm(t: nat, d: int) | Wait(t: nat) | CancelWait(t: nat) | Delete(t: nat)
    | PostFn(fn: nat) | Send(pkt: nat) | StepOnce | DrainAll | ReturnFrom | Pass(span: nat)

  method Do(e: Exec, op: Op)
    requires e.Valid()
    modifies e
    ensures e.Valid() && e.clock >= old(e.clock)
  {
    hide Exec.Valid, Exec.Quiet;
    match op
    case New => var _ := e.NewTimer();
    case Arm(t, d) => if t in e.timers { e.ExpiresAfter(t, d); }
    case Wait(t) => if t in e.timers { var _ := e.AsyncWait(t); }
    case CancelWait(t) => if t in e.timers { e.Cancel(t); }
    case Delete(t) => if t in e.timers { e.Destroy(t); }
    case PostFn(fn) => e.Post(fn);
    case Send(pkt) => e.Enqueue(pkt);
    case StepOnce => var _, _ := e.Step();
    case DrainAll => e.Drain();
    case ReturnFrom => if e.frames != [] && !e.frames[|e.frames| - 1].Draining? { e.Return(); }
    case Pass(d) => e.Elapse(d);
  }

  /** Whatever the program and its callbacks do, as long as no `expires_after` comes back to a timer that is
      gone: no handler is called twice, each is waiting, called or dropped, posted work and packets run in
      order, and a success comes at or after the last expiry set while its handler waited, which is the
      promised one after a clean wait. And an `expires_after` has come back to a timer that is gone, or is yet
      to, if and only if a timer was destroyed while one of its own was running. */
  method Run(ops: seq<Op>) returns (e: Exec)
    ensures fresh(e) && e.Valid()
    ensures e.strays == 0 ==>
              && (forall i, j :: 0 <= i <= j < |e.ledger.calls| && e.ledger.calls[i].id == e.ledger.calls[j].id ==> i == j)
              && (forall id :: 0 <= id < |e.ledger.promises| ==> Fated(e.timers, e.ledger, id))
              && (forall i :: 0 <= i < |e.ledger.calls| && e.ledger.calls[i].ok ==> DueExactly(e.ledger, e.ledger.calls[i]))
              && e.ranPosted <= e.allPosted && e.ranPackets <= e.allPackets
    ensures e.strays == 0 && Exec.Landing(e.timers, e.frames) <==> e.undercut == 0
  {
    e := new Exec();
    for k := 0 to |ops|
      invariant fresh(e) && e.Valid()
    {
      Do(e, ops[k]);
    }
    forall i, j | 0 <= i <= j < |e.ledger.calls| && e.ledger.calls[i].id == e.ledger.calls[j].id ensures i == j {
      CalledOnce(e.ledger.calls, i, j);
    }
    forall i | 0 <= i < |e.ledger.calls| && e.ledger.calls[i].ok ensures DueExactly(e.ledger, e.ledger.calls[i]) {
      EarlyIff(e.timers, e.frames, e.ledger, i);
    }
  }

  method ArmAndWait() returns (e: Exec, t: nat)
    ensures fresh(e) && e.Valid() && e.frames == [] && e.clock == e.strays == 0 && e.posted == e.packets == []
    ensures e.timers == map[t := Timer(10, true, Some(0))] && e.order == [t]
    ensures e.ledger.calls == [] && |e.ledger.promises| == |e.ledger.rearms| == 1
  {
    hide Exec.Valid;
    e := new Exec();
    t := e.NewTimer();
    e.ExpiresAfter(t, 10);
    var id := e.AsyncWait(t);
  }

  /** The handler of a wait that `expires_after(1)` cancels destroys the timer: the `expires_after` then arms
      a timer that is gone. */
  method DestroyedUnderneath() returns (e: Exec)
    ensures fresh(e) && e.Valid() && e.frames == [] && e.timers == map[] && e.strays == 1
  {
    hide Exec.Valid;
    var t;
    e, t := ArmAndWait();
    e.ExpiresAfter(t, 1);
    assert e.frames == [Arming(t, 1)];
    e.Destroy(t);
    e.Return();
  }

  /** The handler of a wait that `expires_after(1)` cancels arms the timer for 100 and waits again. */
  method WaitInside() returns (e: Exec, t: nat)
    ensures fresh(e) && e.Valid() && e.frames == [Arming(t, 1)] && e.clock == 0 && e.posted == e.packets == []
    ensures e.timers == map[t := Timer(100, true, Some(1))] && e.order == [t]
    ensures e.ledger.calls == [Call(0, false, 0, 10)]
    ensures |e.ledger.promises| == |e.ledger.rearms| == 2 && e.ledger.promises[1] == Promise(t, Some(100), false)
    ensures e.ledger.rearms[1] == []
  {
    hide Exec.Valid;
    e, t := ArmAndWait();
    e.ExpiresAfter(t, 1);
    assert e.frames == [Arming(t, 1)];
    e.ExpiresAfter(t, 100);
    var id := e.AsyncWait(t);
    assert !Unarming(e.frames, t) by { assert Arming(t, 1) in e.frames; }
  }

  /** A wait that is not clean can be cut short: when that `expires_after(1)` finishes, the handler
      promised 100 is called with success at 1. */
  method CutShort() returns (e: Exec)
    ensures fresh(e) && e.Valid() && |e.ledger.calls| == |e.ledger.promises| == |e.ledger.rearms| == 2
    ensures e.ledger.calls[1] == Call(1, true, 1, 1)
    ensures e.ledger.promises[1].due == Some(100) && e.ledger.rearms[1] == [1]
  {
    hide Exec.Valid;
    var t;
    e, t := WaitInside();
    e.Return();
    e.Elapse(1);
    assert e.timers[t] == Timer(1, true, Some(1)) && e.order == [t];
    var worked, _ := e.Step();
  }

  /** The second handler, when an `expires_after(200)` cancels it, waits again, promised 100. */
  method WaitTwiceInside() returns (e: Exec, t: nat)
    ensures fresh(e) && e.Valid() && e.frames == [Arming(t, 1), Arming(t, 200)] && e.clock == 0 && e.posted == e.packets == []
    ensures e.timers == map[t := Timer(100, true, Some(2))] && e.order == [t]
    ensures |e.ledger.calls| == 2 && |e.ledger.promises| == |e.ledger.rearms| == 3
    ensures e.ledger.promises[2].due == Some(100) && e.ledger.rearms[2] == []
  {
    hide Exec.Valid;
    e, t := WaitInside();
    e.ExpiresAfter(t, 200);
    assert e.frames == [Arming(t, 1), Arming(t, 200)];
    var id := e.AsyncWait(t);
  }

  /** Nested: the `expires_after(200)` returns first and the `expires_after(1)` around it last, and the third
      handler is called with success at 1. */
  method CutShortFromOutside() returns (e: Exec)
    ensures fresh(e) && e.Valid() && |e.ledger.calls| == |e.ledger.promises| == |e.ledger.rearms| == 3
    ensures e.ledger.calls[2] == Call(2, true, 1, 1)
    ensures e.ledger.promises[2].due == Some(100) && e.ledger.rearms[2] == [200, 1]
  {
    hide Exec.Valid;
    var t;
    e, t := WaitTwiceInside();
    e.Return();
    assert e.frames == [Arming(t, 1)] && e.timers[t] == Timer(200, true, Some(2));
    e.Return();
    e.Elapse(1);
    assert e.timers[t] == Timer(1, true, Some(2)) && e.order == [t];
    var worked, _ := e.Step();
  }
}
