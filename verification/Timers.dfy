/** The timers of the in-process executor: what becomes of every handler, whatever the handlers do when
    they are called. */
module Timers {
  import opened Options

  /** `inproc_timer`: its handler is the number of the `async_wait` that gave it. */
  datatype Timer = Timer(expiry: int, active: bool, handler: Option<nat>)

  /** What is running, innermost last: a callback, an `expires_after` that waits for the handler it
      cancelled to return, or a `drain`. */
  datatype Frame = Callback | Arming(timer: nat, delay: int) | Draining

  /** A handler called at time `at`, while its timer's expiry was `due`. */
  datatype Call = Call(id: nat, ok: bool, at: int, due: int)

  /** What `async_wait` found: the expiry, if the timer was armed, and whether no `expires_after` of
      that timer was still running. */
  datatype Promise = Promise(timer: nat, due: Option<int>, clean: bool)

  /** The history of a run: `rearms` has, for every handler, the expiries that returning `expires_after`
      calls set on its timer while it waited. */
  datatype Ledger = Ledger(calls: seq<Call>, dropped: set<nat>, promises: seq<Promise>, rearms: seq<seq<int>>)

  /** The condition of `try_fire`. */
  predicate Due(t: Timer, now: int) {
    t.active && t.handler.Some? && t.expiry <= now
  }

  ghost predicate Called(calls: seq<Call>, id: nat) {
    calls != [] && (calls[|calls| - 1].id == id || Called(calls[..|calls| - 1], id))
  }

  ghost predicate OnceEach(calls: seq<Call>) {
    calls == [] || (OnceEach(calls[..|calls| - 1]) && !Called(calls[..|calls| - 1], calls[|calls| - 1].id))
  }

  ghost predicate Unarming(frames: seq<Frame>, t: nat) {
    forall f :: f in frames && f.Arming? ==> f.timer != t
  }

  function Waiting(timers: map<nat, Timer>, t: nat): Option<nat> {
    if t in timers then timers[t].handler else None
  }

  /** Handler `id` waits on the timer it was given to. */
  ghost predicate Pending(timers: map<nat, Timer>, promises: seq<Promise>, id: nat) {
    id < |promises| && Waiting(timers, promises[id].timer) == Some(id)
  }

  /** The expiry handler `id` waits for: the last one set while it waited, or the one it was promised. */
  ghost function InForce(l: Ledger, id: nat): Option<int>
    requires id < |l.promises| == |l.rearms|
  {
    if l.rearms[id] == [] then l.promises[id].due else Some(l.rearms[id][|l.rearms[id]| - 1])
  }

  /** A handler called with success was called no earlier than the expiry in force for it. */
  ghost predicate Honest(c: Call, l: Ledger) {
    c.id < |l.promises| == |l.rearms| && (c.ok ==> c.at >= c.due && InForce(l, c.id) == Some(c.due))
  }

  /** Every handler is waiting, was called once, or was dropped; a clean wait is never re-armed. */
  ghost predicate Kept(timers: map<nat, Timer>, frames: seq<Frame>, l: Ledger) {
    && OnceEach(l.calls) && |l.promises| == |l.rearms|
    && (forall c :: c in l.calls ==> Honest(c, l))
    && (forall id :: id in l.dropped ==> id < |l.promises|)
    && (forall id :: 0 <= id < |l.promises| ==> Fated(timers, l, id))
    && (forall id :: 0 <= id < |l.promises| && l.promises[id].clean ==> l.rearms[id] == [])
    && (forall t :: t in timers && timers[t].handler.Some? ==> Held(timers, frames, l, t))
  }

  /** Exactly one of called, dropped and pending. */
  ghost predicate Fated(timers: map<nat, Timer>, l: Ledger, id: nat) {
    var called, dropped, pending := Called(l.calls, id), id in l.dropped, Pending(timers, l.promises, id);
    (called || dropped || pending) && !(called && dropped) && !(called && pending) && !(dropped && pending)
  }

  ghost predicate Held(timers: map<nat, Timer>, frames: seq<Frame>, l: Ledger, t: nat)
    requires t in timers && timers[t].handler.Some? && |l.promises| == |l.rearms|
  {
    var id := timers[t].handler.value;
    && id < |l.promises| && l.promises[id].timer == t
    && InForce(l, id) == (if timers[t].active then Some(timers[t].expiry) else None)
    && (l.promises[id].clean ==> Unarming(frames, t))
  }

  // ---- What a reader may rely on ----

  /** The calls of one handler: there are never two. */
  lemma {:induction false} CalledOnce(calls: seq<Call>, i: nat, j: nat)
    requires OnceEach(calls) && i <= j < |calls| && calls[i].id == calls[j].id
    ensures i == j
  {
    var front := calls[..|calls| - 1];
    if j < |front| {
      CalledOnce(front, i, j);
    } else if i < j {
      CalledAt(front, i);
    }
  }

  lemma {:induction false} CalledAt(calls: seq<Call>, i: nat)
    requires i < |calls|
    ensures Called(calls, calls[i].id)
  {
    if i < |calls| - 1 {
      CalledAt(calls[..|calls| - 1], i);
    }
  }

  lemma {:induction false} NewIsUncalled(calls: seq<Call>, l: Ledger)
    requires forall c :: c in calls ==> Honest(c, l)
    ensures !Called(calls, |l.promises|)
  {
    if calls != [] {
      NewIsUncalled(calls[..|calls| - 1], l);
      assert calls[|calls| - 1] in calls;
    }
  }

  /** When a success is early. It never comes before the expiry in force, which is the one that the last
      `expires_after` of the timer to return while the handler waited has set, or else the one promised. So
      that expiry is before the promise if and only if such a return set an earlier one. A handler promised
      nothing is called with success only after such a return. */
  ghost predicate DueExactly(l: Ledger, c: Call) {
    && c.id < |l.promises| == |l.rearms|
    && var (promise, rearms) := (l.promises[c.id], l.rearms[c.id]);
       && c.at >= c.due
       && Some(c.due) == (if rearms == [] then promise.due else Some(rearms[|rearms| - 1]))
       && (promise.due.Some? ==> (c.due < promise.due.value <==> rearms != [] && rearms[|rearms| - 1] < promise.due.value))
       && (promise.due.None? ==> rearms != [])
       && (promise.clean ==> promise.due.Some? && c.due == promise.due.value)
  }

  lemma EarlyIff(timers: map<nat, Timer>, frames: seq<Frame>, l: Ledger, i: nat)
    requires Kept(timers, frames, l) && i < |l.calls| && l.calls[i].ok
    ensures DueExactly(l, l.calls[i])
  {
    assert l.calls[i] in l.calls;
  }

  /** So a wait set while no `expires_after` of its timer was running is never early. */
  lemma NeverBeforePromised(timers: map<nat, Timer>, frames: seq<Frame>, l: Ledger, i: nat)
    requires Kept(timers, frames, l) && i < |l.calls| && l.calls[i].ok
    ensures var c := l.calls[i];
            && c.id < |l.promises|
            && (l.promises[c.id].clean ==> l.promises[c.id].due.Some? && c.at >= l.promises[c.id].due.value)
  {
    assert l.calls[i] in l.calls;
  }

  /** A handler that waits can still be called early, at some time from `clock` on and with its timer left
      as it is, if and only if the last re-arming set an expiry before its promise. */
  lemma CutShortIff(timers: map<nat, Timer>, frames: seq<Frame>, l: Ledger, t: nat, clock: int)
    requires Kept(timers, frames, l) && t in timers && timers[t].handler.Some?
    requires var id := timers[t].handler.value;
             id < |l.promises| && l.promises[id].due.Some? && clock < l.promises[id].due.value
    ensures var id := timers[t].handler.value;
            && id < |l.rearms|
            && ((exists now :: clock <= now < l.promises[id].due.value && Due(timers[t], now))
                <==> l.rearms[id] != [] && l.rearms[id][|l.rearms[id]| - 1] < l.promises[id].due.value)
  {
    var id := timers[t].handler.value;
    assert Held(timers, frames, l, t);
    if timers[t].expiry < l.promises[id].due.value {
      assert Due(timers[t], if timers[t].expiry > clock then timers[t].expiry else clock);
    }
  }

  // ---- Steps ----

  /** `complete_pending`: the handler leaves the timer before it is called. */
  lemma CallKeeps(timers: map<nat, Timer>, timers': map<nat, Timer>, frames: seq<Frame>, frames': seq<Frame>, l: Ledger,
                  t: nat, ok: bool, at: int)
    requires Kept(timers, frames, l) && t in timers && timers[t].handler.Some?
    requires ok ==> timers[t].active && at >= timers[t].expiry
    requires t in timers' && timers' == timers[t := timers'[t]] && timers'[t].handler == None
    requires forall u :: u != t && Unarming(frames, u) ==> Unarming(frames', u)
    ensures Kept(timers', frames', l.(calls := l.calls + [Call(timers[t].handler.value, ok, at, timers[t].expiry)]))
  {
    var id := timers[t].handler.value;
    var c := Call(id, ok, at, timers[t].expiry);
    var l' := l.(calls := l.calls + [c]);
    assert l'.calls[..|l.calls|] == l.calls;
    forall d | d in l'.calls ensures Honest(d, l') {
      assert d == c || Honest(d, l);
    }
    assert Held(timers, frames, l, t);
    assert Fated(timers, l, id);
    forall k | 0 <= k < |l.promises| ensures Fated(timers', l', k) {
      assert Fated(timers, l, k);
    }
    forall u | u in timers' && timers'[u].handler.Some? ensures Held(timers', frames', l', u) {
      assert Held(timers, frames, l, u);
    }
  }

  /** A new handler replaces the one that waited, which is dropped. */
  lemma WaitKeeps(timers: map<nat, Timer>, frames: seq<Frame>, l: Ledger, t: nat)
    requires Kept(timers, frames, l) && t in timers
    ensures var p := Promise(t, if timers[t].active then Some(timers[t].expiry) else None, Unarming(frames, t));
            Kept(timers[t := timers[t].(handler := Some(|l.promises|))], frames,
                 l.(promises := l.promises + [p], rearms := l.rearms + [[]], dropped := l.dropped + timers[t].handler.AsSet()))
  {
    var n := |l.promises|;
    var timers' := timers[t := timers[t].(handler := Some(n))];
    var p := Promise(t, if timers[t].active then Some(timers[t].expiry) else None, Unarming(frames, t));
    var l' := l.(promises := l.promises + [p], rearms := l.rearms + [[]], dropped := l.dropped + timers[t].handler.AsSet());
    if timers[t].handler.Some? {
      assert Held(timers, frames, l, t);
    }
    forall c | c in l'.calls ensures Honest(c, l') {
      assert Honest(c, l);
    }
    NewIsUncalled(l.calls, l);
    forall k | 0 <= k < |l'.promises| ensures Fated(timers', l', k) {
      if k < n {
        assert Fated(timers, l, k);
      }
    }
    forall u | u in timers' && timers'[u].handler.Some? ensures Held(timers', frames, l', u) {
      if u != t {
        assert Held(timers, frames, l, u);
      }
    }
  }

  /** The history when a timer with this handler gets an expiry. */
  ghost function Rearmed(l: Ledger, handler: Option<nat>, expiry: int): Ledger {
    if handler.None? || handler.value >= |l.rearms| then l
    else l.(rearms := l.rearms[handler.value := l.rearms[handler.value] + [expiry]])
  }

  /** `expires_after` returns: the timer is armed, and a handler that was set meanwhile stays. */
  lemma ArmKeeps(timers: map<nat, Timer>, frames: seq<Frame>, frames': seq<Frame>, l: Ledger, t: nat, expiry: int)
    requires Kept(timers, frames, l) && t in timers
    requires timers[t].handler.Some? ==> !Unarming(frames, t)
    requires forall u :: Unarming(frames, u) ==> Unarming(frames', u)
    ensures Kept(timers[t := Timer(expiry, true, timers[t].handler)], frames', Rearmed(l, timers[t].handler, expiry))
  {
    var timers' := timers[t := Timer(expiry, true, timers[t].handler)];
    var l' := Rearmed(l, timers[t].handler, expiry);
    if timers[t].handler.Some? {
      assert Held(timers, frames, l, t);
      assert Fated(timers, l, timers[t].handler.value);
    }
    forall c | c in l'.calls ensures Honest(c, l') {
      assert Honest(c, l);
      var i :| 0 <= i < |l.calls| && l.calls[i] == c;
      CalledAt(l.calls, i);
    }
    forall k | 0 <= k < |l.promises| ensures Fated(timers', l', k) {
      assert Fated(timers, l, k);
    }
    forall u | u in timers' && timers'[u].handler.Some? ensures Held(timers', frames', l', u) {
      assert Held(timers, frames, l, u);
    }
  }

  /** `cancel` with no handler waiting. */
  lemma DisarmKeeps(timers: map<nat, Timer>, frames: seq<Frame>, l: Ledger, t: nat)
    requires Kept(timers, frames, l) && t in timers && timers[t].handler == None
    ensures Kept(timers[t := timers[t].(active := false)], frames, l)
  {
    var timers' := timers[t := timers[t].(active := false)];
    forall k | 0 <= k < |l.promises| ensures Fated(timers', l, k) {
      assert Fated(timers, l, k);
    }
    forall u | u in timers' && timers'[u].handler.Some? ensures Held(timers', frames, l, u) {
      assert Held(timers, frames, l, u);
    }
  }

  lemma FramesKeep(timers: map<nat, Timer>, frames: seq<Frame>, frames': seq<Frame>, l: Ledger)
    requires Kept(timers, frames, l)
    requires forall u :: Unarming(frames, u) ==> Unarming(frames', u)
    ensures Kept(timers, frames', l)
  {
    forall u | u in timers && timers[u].handler.Some? ensures Held(timers, frames', l, u) {
      assert Held(timers, frames, l, u);
    }
  }

  lemma NewTimerKeeps(timers: map<nat, Timer>, frames: seq<Frame>, l: Ledger, t: nat)
    requires Kept(timers, frames, l) && t !in timers
    ensures Kept(timers[t := Timer(0, false, None)], frames, l)
  {
    var timers' := timers[t := Timer(0, false, None)];
    forall k | 0 <= k < |l.promises| ensures Fated(timers', l, k) {
      assert Fated(timers, l, k);
    }
    forall u | u in timers' && timers'[u].handler.Some? ensures Held(timers', frames, l, u) {
      assert Held(timers, frames, l, u);
    }
  }

  /** A timer is destroyed, and with it the handler that waits. */
  lemma DestroyKeeps(timers: map<nat, Timer>, frames: seq<Frame>, l: Ledger, t: nat)
    requires Kept(timers, frames, l) && t in timers
    ensures Kept(timers - {t}, frames, l.(dropped := l.dropped + timers[t].handler.AsSet()))
  {
    var l' := l.(dropped := l.dropped + timers[t].handler.AsSet());
    if timers[t].handler.Some? {
      assert Held(timers, frames, l, t);
    }
    forall k | 0 <= k < |l.promises| ensures Fated(timers - {t}, l', k) {
      assert Fated(timers, l, k);
    }
    forall u | u in timers - {t} && (timers - {t})[u].handler.Some? ensures Held(timers - {t}, frames, l', u) {
      assert Held(timers, frames, l, u);
    }
  }
}
