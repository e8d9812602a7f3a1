/** What follows from the direct-edit specification for every run, whatever the callbacks do. */
module DispatchLaws {
  import opened Options
  import opened DispatchSpec

  /** Between two states of a run: ids are only issued upwards, the list stays in registration
      order, a subscriber that has gone neither comes back nor is called again, and nothing but
      subscribers in `from` is called. */
  ghost predicate Evolves(from: seq<Entry>, s: Logic, t: Logic) {
    && s.next <= t.next && s.counting == t.counting
    && Ordered(t.live, t.next)
    && s.called <= t.called
    && (forall e :: e in t.live && e.rid < s.next ==> e in s.live)
    && (forall i :: |s.called| <= i < |t.called| ==> MayBeCalled(from, s, t.called[i]))
  }

  /** `rid` names a subscriber in `from` that, if it was issued before `s`, is live in `s`. */
  ghost predicate MayBeCalled(from: seq<Entry>, s: Logic, rid: nat) {
    exists e :: e in from && e.rid == rid && (rid < s.next ==> e in s.live)
  }

  lemma EvolvesStep(from: seq<Entry>, s: Logic, t: Logic, u: Logic)
    requires Evolves(from, s, t) && Evolves(from, t, u)
    ensures Evolves(from, s, u)
  {
    forall i | |s.called| <= i < |u.called| ensures MayBeCalled(from, s, u.called[i]) {
      if i < |t.called| {
        assert MayBeCalled(from, s, t.called[i]);
      } else {
        assert MayBeCalled(from, t, u.called[i]);
      }
    }
  }

  lemma {:induction false} EditEvolves(from: seq<Entry>, base: Option<seq<Entry>>, s: Logic, a: Action)
    requires Ordered(s.live, s.next) && !a.Dispatch?
    ensures Evolves(from, s, Edit(base, s, a))
  {
    match a
    case Register(fqn, key) =>
      assert (s.live + [Entry(s.next, fqn, key)])[..|s.live|] == s.live;
    case Retire(rid) =>
      WithoutOrdered(s.live, [rid], s.next);
      forall e | e in Without(s.live, [rid]) ensures e in s.live {
        WithoutMembers(s.live, [rid], e);
      }
    case _ =>
  }

  lemma {:induction false} PerformEvolves(base: seq<Entry>, s: Logic, a: Action)
    requires Ordered(s.live, s.next) && Ordered(base, s.next)
    ensures Evolves(base, s, Perform(Some(base), s, a))
    decreases a, 0
  {
    if a.Dispatch? {
      FanEvolves(base, base, s, a.fan, a.scripts);
    } else {
      EditEvolves(base, Some(base), s, a);
    }
  }

  lemma {:induction false} FanEvolves(base: seq<Entry>, rest: seq<Entry>, s: Logic, fan: Fan, scripts: seq<Script>)
    requires Ordered(s.live, s.next) && Ordered(base, s.next)
    requires forall e :: e in rest ==> e in base
    ensures Evolves(base, s, FanOut(base, rest, s, fan, scripts))
    decreases scripts, |rest| + 1
  {
    if rest != [] {
      var t := Reach(base, rest[0], s, fan, scripts);
      ReachEvolves(base, rest[0], s, fan, scripts);
      FanEvolves(base, rest[1..], t, fan, ScriptsAfter(rest[0], s, fan, scripts));
      EvolvesStep(base, s, t, FanOut(base, rest, s, fan, scripts));
    }
  }

  lemma {:induction false} ReachEvolves(base: seq<Entry>, e: Entry, s: Logic, fan: Fan, scripts: seq<Script>)
    requires Ordered(s.live, s.next) && Ordered(base, s.next) && e in base
    ensures Evolves(base, s, Reach(base, e, s, fan, scripts))
    decreases scripts, 0
  {
    if Calls(fan, e, s) {
      var s' := s.(called := s.called + [e.rid]);
      assert Evolves(base, s, s');
      if scripts != [] {
        ScriptEvolves(base, s', scripts[0].acts);
        EvolvesStep(base, s, s', PerformAll(Some(base), s', scripts[0].acts));
      }
    }
  }

  lemma {:induction false} ScriptEvolves(base: seq<Entry>, s: Logic, acts: seq<Action>)
    requires Ordered(s.live, s.next) && Ordered(base, s.next)
    ensures Evolves(base, s, PerformAll(Some(base), s, acts))
    decreases acts
  {
    if acts != [] {
      var t := Perform(Some(base), s, acts[0]);
      PerformEvolves(base, s, acts[0]);
      ScriptEvolves(base, t, acts[1..]);
      EvolvesStep(base, s, t, PerformAll(Some(base), t, acts[1..]));
    }
  }

  /** The same for an action outside any fan: a dispatch calls nobody who was not registered
      when it began, so a subscriber registered by a callback waits for the next dispatch. */
  lemma OutermostEvolves(s: Logic, a: Action)
    requires Ordered(s.live, s.next)
    ensures Evolves(s.live, s, Perform(None, s, a))
  {
    if a.Dispatch? {
      FanEvolves(s.live, s.live, s, a.fan, a.scripts);
    } else {
      EditEvolves(s.live, None, s, a);
    }
  }

  /** The subscribers a fan calls when no callback subscribes, unsubscribes or dispatches: the accepting
      ones, in registration order. */
  ghost function Targets(fan: Fan, es: seq<Entry>): seq<nat> {
    if es == [] then [] else (if Accepts(fan, es[0]) then [es[0].rid] else []) + Targets(fan, es[1..])
  }

  lemma {:induction false} UndisturbedFan(base: seq<Entry>, s: Logic, fan: Fan, rest: seq<Entry>, scripts: seq<Script>)
    requires forall e :: e in rest ==> e in s.live
    requires forall x :: x in scripts ==> LeavesList(x.acts)
    ensures FanOut(base, rest, s, fan, scripts).called == s.called + Targets(fan, rest)
    ensures FanOut(base, rest, s, fan, scripts).live == s.live
    decreases |rest|
  {
    if rest != [] {
      var t := Reach(base, rest[0], s, fan, scripts);
      var hit := if Accepts(fan, rest[0]) then [rest[0].rid] else [];
      assert rest[0] in s.live;
      if Accepts(fan, rest[0]) && scripts != [] {
        ListLeft(Some(base), s.(called := s.called + hit), scripts[0].acts);
      }
      assert t.live == s.live && t.called == s.called + hit;
      UndisturbedFan(base, t, fan, rest[1..], ScriptsAfter(rest[0], s, fan, scripts));
      assert s.called + hit + Targets(fan, rest[1..]) == s.called + (hit + Targets(fan, rest[1..]));
    }
  }

  /** Actions on publishers and peers only. */
  ghost predicate LeavesList(acts: seq<Action>) {
    forall a :: a in acts ==> !a.Register? && !a.Retire? && !a.Dispatch?
  }

  lemma {:induction false} ListLeft(base: Option<seq<Entry>>, s: Logic, acts: seq<Action>)
    requires LeavesList(acts)
    ensures PerformAll(base, s, acts).live == s.live && PerformAll(base, s, acts).called == s.called
    decreases |acts|
  {
    if acts != [] {
      ListLeft(base, Perform(base, s, acts[0]), acts[1..]);
    }
  }

  /** Nobody is missed: an entry the fan accepts, of those it started from, that is live when the fan is over
      was called by it, whatever the callbacks did. */
  lemma {:induction false} FanMissesNobody(base: seq<Entry>, rest: seq<Entry>, s: Logic, fan: Fan, scripts: seq<Script>, e: Entry)
    requires Ordered(s.live, s.next) && Ordered(base, s.next)
    requires forall x :: x in rest ==> x in base
    requires e in rest && Accepts(fan, e) && e in FanOut(base, rest, s, fan, scripts).live
    ensures |s.called| <= |FanOut(base, rest, s, fan, scripts).called|
    ensures e.rid in FanOut(base, rest, s, fan, scripts).called[|s.called|..]
    decreases scripts, |rest| + 1
  {
    var t, left := Reach(base, rest[0], s, fan, scripts), ScriptsAfter(rest[0], s, fan, scripts);
    var u := FanOut(base, rest[1..], t, fan, left);
    ReachEvolves(base, rest[0], s, fan, scripts);
    FanEvolves(base, rest[1..], t, fan, left);
    if e in rest[1..] {
      FanMissesNobody(base, rest[1..], t, fan, left, e);
      var i :| |t.called| <= i < |u.called| && u.called[i] == e.rid;
      assert u.called[|s.called|..][i - |s.called|] == e.rid;
    } else {
      OrderedBelow(base, s.next, e);
      assert e in t.live && e in s.live;
      CalledFirst(base, e, s, fan, scripts);
      assert u.called[|s.called|..][0] == e.rid;
    }
  }

  /** A callback that runs is the next one in the record. */
  lemma CalledFirst(base: seq<Entry>, e: Entry, s: Logic, fan: Fan, scripts: seq<Script>)
    requires Calls(fan, e, s) && Ordered(s.live, s.next) && Ordered(base, s.next)
    ensures |Reach(base, e, s, fan, scripts).called| > |s.called| && Reach(base, e, s, fan, scripts).called[|s.called|] == e.rid
  {
    if scripts != [] {
      ScriptEvolves(base, s.(called := s.called + [e.rid]), scripts[0].acts);
    }
  }

  /** Declaring and then retiring a publisher restores the counts, which never hold a zero. */
  lemma PublisherBalance(m: map<Topic, nat>, fqn: Topic)
    requires forall f :: f in m ==> m[f] >= 1
    ensures CountDown(CountUp(m, fqn), fqn) == m
    ensures forall f :: f in CountUp(m, fqn) ==> CountUp(m, fqn)[f] >= 1
    ensures forall f :: f in CountDown(m, fqn) ==> CountDown(m, fqn)[f] >= 1
  {
  }

  // ---- Peer demands ----

  /** Every known peer is asked for every live topic. */
  ghost predicate Covered(s: Logic) {
    Pairs(s.peers, Topics(s.live)) <= s.demands
  }

  /** Every known peer is asked for exactly the live topics, and no other peer for any. */
  ghost predicate Exact(s: Logic) {
    s.demands == Pairs(s.peers, Topics(s.live))
  }

  /** The peers stay, nothing new is asked for in vain and nothing new is missed. */
  ghost predicate DemandsKeepUp(s: Logic, t: Logic) {
    && s.peers == t.peers
    && t.demands - Pairs(t.peers, Topics(t.live)) <= s.demands - Pairs(s.peers, Topics(s.live))
    && Pairs(t.peers, Topics(t.live)) - t.demands <= Pairs(s.peers, Topics(s.live)) - s.demands
  }

  lemma KeepUpKeeps(s: Logic, t: Logic)
    requires DemandsKeepUp(s, t)
    ensures Covered(s) ==> Covered(t)
    ensures Exact(s) ==> Exact(t)
  {
    var want := Pairs(t.peers, Topics(t.live));
    if Covered(s) {
      assert want - t.demands == {};
      assert forall d :: d in want ==> d in t.demands || d in want - t.demands;
    }
    if Exact(s) {
      assert t.demands - want == {} && want - t.demands == {};
      assert forall d :: d in t.demands ==> d in want || d in t.demands - want;
      assert forall d :: d in want ==> d in t.demands || d in want - t.demands;
    }
  }

  /** The action neither notes nor forgets a peer, nor does any callback it runs. */
  ghost predicate LeavesPeers(a: Action) {
    match a
    case NotePeer(_) => false
    case ForgetPeer(_) => false
    case Dispatch(_, scripts) => forall s :: s in scripts ==> AllLeavePeers(s.acts)
    case _ => true
  }

  ghost predicate AllLeavePeers(acts: seq<Action>) {
    forall a :: a in acts ==> LeavesPeers(a)
  }

  lemma {:induction false} EditKeepsUp(base: Option<seq<Entry>>, s: Logic, a: Action)
    requires !a.Dispatch? && LeavesPeers(a)
    ensures DemandsKeepUp(s, Edit(base, s, a))
  {
    match a
    case Register(fqn, key) =>
      var e := Entry(s.next, fqn, key);
      assert (s.live + [e])[..|s.live|] == s.live;
      assert Topics(s.live + [e]) == Topics(s.live) + {fqn};
      assert Pairs(s.peers, Topics(s.live) + {fqn}) == Pairs(s.peers, Topics(s.live)) + Pairs(s.peers, {fqn});
    case Retire(rid) =>
      var before, after := Topics(s.live), Topics(Without(s.live, [rid]));
      TopicsShrink(s.live, [rid]);
      assert Pairs(s.peers, before) == Pairs(s.peers, after) + Pairs(s.peers, before - after);
      assert Pairs(s.peers, after) !! Pairs(s.peers, before - after);
    case _ =>
  }

  lemma {:induction false} TopicsShrink(es: seq<Entry>, gone: seq<nat>)
    ensures Topics(Without(es, gone)) <= Topics(es)
  {
    if es != [] {
      var n := |es| - 1;
      TopicsShrink(es[..n], gone);
      assert es[n].rid in gone ==> Without(es, gone) == Without(es[..n], gone);
      assert es[n].rid !in gone ==> Without(es, gone)[..|Without(es, gone)| - 1] == Without(es[..n], gone);
    }
  }

  lemma {:induction false} PerformKeepsUp(base: Option<seq<Entry>>, s: Logic, a: Action)
    requires LeavesPeers(a)
    ensures DemandsKeepUp(s, Perform(base, s, a))
    decreases a, 0
  {
    if a.Dispatch? {
      FanKeepsUp(Physical(base, s), Physical(base, s), s, a.fan, a.scripts);
    } else {
      EditKeepsUp(base, s, a);
    }
  }

  lemma {:induction false} FanKeepsUp(base: seq<Entry>, rest: seq<Entry>, s: Logic, fan: Fan, scripts: seq<Script>)
    requires forall x :: x in scripts ==> AllLeavePeers(x.acts)
    ensures DemandsKeepUp(s, FanOut(base, rest, s, fan, scripts))
    decreases scripts, |rest| + 1
  {
    if rest != [] {
      var t := Reach(base, rest[0], s, fan, scripts);
      if Calls(fan, rest[0], s) && scripts != [] {
        AllKeepUp(Some(base), s.(called := s.called + [rest[0].rid]), scripts[0].acts);
      }
      assert DemandsKeepUp(s, t);
      FanKeepsUp(base, rest[1..], t, fan, ScriptsAfter(rest[0], s, fan, scripts));
    }
  }

  lemma {:induction false} AllKeepUp(base: Option<seq<Entry>>, s: Logic, acts: seq<Action>)
    requires AllLeavePeers(acts)
    ensures DemandsKeepUp(s, PerformAll(base, s, acts))
    decreases acts
  {
    if acts != [] {
      PerformKeepsUp(base, s, acts[0]);
      AllKeepUp(base, Perform(base, s, acts[0]), acts[1..]);
    }
  }

  /** A run outside any fan, peers being noted and forgotten only there: every known peer stays
      asked for every live topic; and for exactly those, if no peer is ever forgotten. */
  lemma {:induction false} RunKeepsDemands(s: Logic, events: seq<Action>)
    requires forall a :: a in events ==> a.NotePeer? || a.ForgetPeer? || LeavesPeers(a)
    ensures Covered(s) ==> Covered(PerformAll(None, s, events))
    ensures Exact(s) && (forall a :: a in events ==> !a.ForgetPeer?) ==> Exact(PerformAll(None, s, events))
    decreases |events|
  {
    if events != [] {
      var t := Perform(None, s, events[0]);
      if LeavesPeers(events[0]) {
        PerformKeepsUp(None, s, events[0]);
        KeepUpKeeps(s, t);
      } else {
        PeerEventKeeps(s, events[0]);
      }
      RunKeepsDemands(t, events[1..]);
    }
  }

  lemma PeerEventKeeps(s: Logic, a: Action)
    requires a.NotePeer? || a.ForgetPeer?
    ensures Covered(s) ==> Covered(Edit(None, s, a))
    ensures Exact(s) && a.NotePeer? ==> Exact(Edit(None, s, a))
  {
    if a.NotePeer? {
      assert Pairs(AddPeer(s.peers, a.peer), Topics(s.live)) == Pairs(s.peers, Topics(s.live)) + Pairs([a.peer], Topics(s.live));
    }
  }

  /** Noting a peer outside a fan asks it for exactly the live topics if and only if nothing the
      engine remembered for it has died; a goodbye never clears what is remembered. */
  lemma NoteExactIff(s: Logic, p: Peer)
    ensures var t := Edit(None, s, NotePeer(p));
            (forall f :: (p, f) in t.demands <==> f in Topics(t.live))
            <==> forall f :: (p, f) in s.demands ==> f in Topics(s.live)
  {
    assert forall f :: (p, f) in Pairs([p], Topics(s.live)) <==> f in Topics(s.live);
  }

  /** A state with no publishers and no calls yet. */
  ghost function Plain(live: seq<Entry>, next: nat, peers: seq<Peer>, demands: set<(Peer, Topic)>): Logic {
    Logic(live, next, false, map[], peers, demands, [], 0)
  }

  lemma StaleSteps()
    ensures var e := Entry(1, 1, None);
            && Edit(None, Plain([], 1, [], {}), Register(1, None)) == Plain([e], 2, [], {})
            && Edit(None, Plain([e], 2, [], {}), NotePeer(7)) == Plain([e], 2, [7], {(7, 1)})
            && Edit(None, Plain([e], 2, [7], {(7, 1)}), ForgetPeer(7)) == Plain([e], 2, [], {(7, 1)})
            && Edit(None, Plain([e], 2, [], {(7, 1)}), Retire(1)) == Plain([], 2, [], {(7, 1)})
            && Edit(None, Plain([], 2, [], {(7, 1)}), NotePeer(7)) == Plain([], 2, [7], {(7, 1)})
  {
    var e := Entry(1, 1, None);
    assert Topics([e]) == {1};
    assert Without([e], [1]) == [];
  }

  /** A peer forgotten while asked for a topic, and noted again after the topic has died, is left
      with a demand nobody wants. */
  lemma StaleDemandAfterForget()
    ensures var s := Plain([], 1, [], {});
            var t := PerformAll(None, s, [Register(1, None), NotePeer(7), ForgetPeer(7), Retire(1), NotePeer(7)]);
            Exact(s) && t == Plain([], 2, [7], {(7, 1)}) && !ExactKnown(t)
  {
    var e := Entry(1, 1, None);
    var events := [Register(1, None), NotePeer(7), ForgetPeer(7), Retire(1), NotePeer(7)];
    StaleSteps();
    hide PerformAll, Edit;
    PerformOne(None, Plain([], 1, [], {}), events[0], events[1..]);
    PerformOne(None, Plain([e], 2, [], {}), events[1], events[2..]);
    PerformOne(None, Plain([e], 2, [7], {(7, 1)}), events[2], events[3..]);
    PerformOne(None, Plain([e], 2, [], {(7, 1)}), events[3], events[4..]);
    PerformOne(None, Plain([], 2, [], {(7, 1)}), events[4], []);
    assert events == [events[0]] + events[1..] && events[1..] == [events[1]] + events[2..];
    assert events[2..] == [events[2]] + events[3..] && events[3..] == [events[3]] + events[4..] && events[4..] == [events[4]] + [];
    assert 7 in [7] && (7, 1) in {(7, 1)};
  }

  // ---- Exactness over every run ----

  /** Every known peer is asked for exactly the live topics. */
  ghost predicate ExactKnown(s: Logic) {
    forall p, f :: p in s.peers ==> ((p, f) in s.demands <==> f in Topics(s.live))
  }

  lemma KeepUpKeepsKnown(s: Logic, t: Logic)
    requires DemandsKeepUp(s, t) && ExactKnown(s)
    ensures ExactKnown(t)
  {
    var want, had := Pairs(t.peers, Topics(t.live)), Pairs(s.peers, Topics(s.live));
    forall p, f | p in t.peers ensures (p, f) in t.demands <==> f in Topics(t.live) {
      assert (p, f) in t.demands - want ==> (p, f) in s.demands - had;
      assert (p, f) in want - t.demands ==> (p, f) in had - s.demands;
    }
  }

  /** Noting the peer is safe here: nothing remembered for it has died; the live fan, if any, has taken the
      last subscriber of no topic, and has first-subscribed none that is not remembered. */
  ghost predicate NoteFits(base: Option<seq<Entry>>, s: Logic, p: Peer) {
    && (forall f :: (p, f) in s.demands ==> f in Topics(s.live))
    && (forall f :: f in Topics(Physical(base, s)) ==> f in Topics(s.live))
    && (forall f :: f in Topics(s.live) && f !in Topics(Physical(base, s)) ==> (p, f) in s.demands)
  }

  /** Of the edits only a note can spoil exactness, and it does if and only if it does not fit. */
  lemma {:induction false} EditExactIff(base: Option<seq<Entry>>, s: Logic, a: Action)
    requires !a.Dispatch? && ExactKnown(s)
    ensures ExactKnown(Edit(base, s, a)) <==> (a.NotePeer? ==> NoteFits(base, s, a.peer))
  {
    if a.NotePeer? {
      NoteKeepsIff(base, s, a.peer);
    } else if !a.ForgetPeer? {
      EditKeepsUp(base, s, a);
      KeepUpKeepsKnown(s, Edit(base, s, a));
    }
  }

  lemma NoteKeepsIff(base: Option<seq<Entry>>, s: Logic, p: Peer)
    requires ExactKnown(s)
    ensures ExactKnown(Edit(base, s, NotePeer(p))) <==> NoteFits(base, s, p)
  {
    var t := Edit(base, s, NotePeer(p));
    assert p in t.peers && forall q :: q in t.peers <==> q in s.peers || q == p;
    assert forall q, f :: (q, f) in t.demands <==> (q, f) in s.demands || (q == p && f in Topics(Physical(base, s)));
    if NoteFits(base, s, p) {
      forall q, f | q in t.peers ensures (q, f) in t.demands <==> f in Topics(t.live) {
      }
    } else {
      var f :| || ((p, f) in s.demands && f !in Topics(s.live))
               || (f in Topics(Physical(base, s)) && f !in Topics(s.live))
               || (f in Topics(s.live) && f !in Topics(Physical(base, s)) && (p, f) !in s.demands);
      assert (p, f) in t.demands <==> f !in Topics(t.live);
    }
  }

  /** An edit in the course of a run, with the state it meets and the start list of the live fan, if any. */
  datatype Moment = Moment(base: Option<seq<Entry>>, before: Logic, act: Action)

  /** The edits of an action and of all its callbacks, in the order they happen. */
  ghost function Moments(base: Option<seq<Entry>>, s: Logic, a: Action): seq<Moment>
    decreases a, 0
  {
    match a
    case Dispatch(fan, scripts) => FanMoments(Physical(base, s), Physical(base, s), s, fan, scripts)
    case _ => [Moment(base, s, a)]
  }

  ghost function ReachMoments(snapshot: seq<Entry>, e: Entry, s: Logic, fan: Fan, scripts: seq<Script>): seq<Moment>
    decreases scripts, 0
  {
    if !Calls(fan, e, s) || scripts == [] then []
    else AllMoments(Some(snapshot), s.(called := s.called + [e.rid]), scripts[0].acts)
  }

  ghost function FanMoments(snapshot: seq<Entry>, rest: seq<Entry>, s: Logic, fan: Fan, scripts: seq<Script>): seq<Moment>
    decreases scripts, |rest| + 1
  {
    if rest == [] then []
    else ReachMoments(snapshot, rest[0], s, fan, scripts)
         + FanMoments(snapshot, rest[1..], Reach(snapshot, rest[0], s, fan, scripts), fan, ScriptsAfter(rest[0], s, fan, scripts))
  }

  ghost function AllMoments(base: Option<seq<Entry>>, s: Logic, acts: seq<Action>): seq<Moment>
    decreases acts
  {
    if acts == [] then []
    else Moments(base, s, acts[0]) + AllMoments(base, Perform(base, s, acts[0]), acts[1..])
  }

  /** The same subscribers, peers and demands. */
  ghost predicate Same(s: Logic, t: Logic) {
    s.live == t.live && s.peers == t.peers && s.demands == t.demands
  }

  /** The edits lead from `s` to `t`. */
  ghost predicate Chained(s: Logic, ms: seq<Moment>, t: Logic)
    decreases |ms|
  {
    if ms == [] then Same(s, t)
    else !ms[0].act.Dispatch? && Same(s, ms[0].before) && Chained(Edit(ms[0].base, ms[0].before, ms[0].act), ms[1..], t)
  }

  lemma {:induction false} ChainedJoin(s: Logic, ms: seq<Moment>, t: Logic, ns: seq<Moment>, u: Logic)
    requires Chained(s, ms, t) && Chained(t, ns, u)
    ensures Chained(s, ms + ns, u)
    decreases |ms|
  {
    if ms == [] {
      assert ms + ns == ns;
      if ns != [] {
        assert Same(s, ns[0].before);
      }
    } else {
      ChainedJoin(Edit(ms[0].base, ms[0].before, ms[0].act), ms[1..], t, ns, u);
      assert (ms + ns)[1..] == ms[1..] + ns;
    }
  }

  lemma {:induction false} MomentsChained(base: Option<seq<Entry>>, s: Logic, a: Action)
    ensures Chained(s, Moments(base, s, a), Perform(base, s, a))
    decreases a, 0
  {
    if a.Dispatch? {
      FanChained(Physical(base, s), Physical(base, s), s, a.fan, a.scripts);
    } else {
      assert Chained(Edit(base, s, a), [], Perform(base, s, a));
    }
  }

  lemma {:induction false} FanChained(snapshot: seq<Entry>, rest: seq<Entry>, s: Logic, fan: Fan, scripts: seq<Script>)
    ensures Chained(s, FanMoments(snapshot, rest, s, fan, scripts), FanOut(snapshot, rest, s, fan, scripts))
    decreases scripts, |rest| + 1
  {
    if rest != [] {
      var t, left := Reach(snapshot, rest[0], s, fan, scripts), ScriptsAfter(rest[0], s, fan, scripts);
      ReachChained(snapshot, rest[0], s, fan, scripts);
      FanChained(snapshot, rest[1..], t, fan, left);
      ChainedJoin(s, ReachMoments(snapshot, rest[0], s, fan, scripts), t,
                  FanMoments(snapshot, rest[1..], t, fan, left), FanOut(snapshot, rest[1..], t, fan, left));
    }
  }

  lemma {:induction false} ReachChained(snapshot: seq<Entry>, e: Entry, s: Logic, fan: Fan, scripts: seq<Script>)
    ensures Chained(s, ReachMoments(snapshot, e, s, fan, scripts), Reach(snapshot, e, s, fan, scripts))
    decreases scripts, 0
  {
    if Calls(fan, e, s) && scripts != [] {
      var s' := s.(called := s.called + [e.rid]);
      AllChained(Some(snapshot), s', scripts[0].acts);
      ChainedJoin(s, [], s', AllMoments(Some(snapshot), s', scripts[0].acts), PerformAll(Some(snapshot), s', scripts[0].acts));
      assert [] + AllMoments(Some(snapshot), s', scripts[0].acts) == AllMoments(Some(snapshot), s', scripts[0].acts);
    }
  }

  lemma {:induction false} AllChained(base: Option<seq<Entry>>, s: Logic, acts: seq<Action>)
    ensures Chained(s, AllMoments(base, s, acts), PerformAll(base, s, acts))
    decreases acts
  {
    if acts != [] {
      var t := Perform(base, s, acts[0]);
      MomentsChained(base, s, acts[0]);
      AllChained(base, t, acts[1..]);
      ChainedJoin(s, Moments(base, s, acts[0]), t, AllMoments(base, t, acts[1..]), PerformAll(base, t, acts[1..]));
    }
  }

  /** Every edit leaves the demands of the known peers exact. */
  ghost predicate ExactThroughout(ms: seq<Moment>) {
    forall i :: 0 <= i < |ms| ==> !ms[i].act.Dispatch? && ExactKnown(Edit(ms[i].base, ms[i].before, ms[i].act))
  }

  /** Every note, wherever it happens, fits. */
  ghost predicate NotesFit(ms: seq<Moment>) {
    forall i :: 0 <= i < |ms| && ms[i].act.NotePeer? ==> NoteFits(ms[i].base, ms[i].before, ms[i].act.peer)
  }

  lemma {:induction false} ChainExactIff(s: Logic, ms: seq<Moment>, t: Logic)
    requires Chained(s, ms, t) && ExactKnown(s)
    ensures ExactThroughout(ms) <==> NotesFit(ms)
    ensures NotesFit(ms) ==> ExactKnown(t)
    decreases |ms|
  {
    if ms != [] {
      var m, rest := ms[0], ms[1..];
      EditExactIff(m.base, m.before, m.act);
      assert ms == [m] + rest;
      var u := Edit(m.base, m.before, m.act);
      if ExactKnown(u) {
        ChainExactIff(u, rest, t);
      }
    }
  }

  /** Over every run, with peers noted and forgotten anywhere, also in callbacks at any depth: the known
      peers are asked for exactly the live topics after every edit if and only if every note fits. */
  lemma RunExactIff(s: Logic, events: seq<Action>)
    requires ExactKnown(s)
    ensures ExactThroughout(AllMoments(None, s, events)) <==> NotesFit(AllMoments(None, s, events))
    ensures NotesFit(AllMoments(None, s, events)) ==> ExactKnown(PerformAll(None, s, events))
  {
    AllChained(None, s, events);
    ChainExactIff(s, AllMoments(None, s, events), PerformAll(None, s, events));
  }

  /** What the callback of `MissedTopicInFan` does. */
  lemma RegisterThenNote(s: Logic)
    requires s.live == [Entry(1, 1, None)] && s.next == 2 && s.peers == [] && s.demands == {}
    ensures PerformAll(Some([Entry(1, 1, None)]), s, [Register(2, None), NotePeer(7)])
         == s.(live := [Entry(1, 1, None), Entry(2, 2, None)], next := 3, peers := [7], demands := {(7, 1)})
  {
    var e, g := Entry(1, 1, None), Entry(2, 2, None);
    var acts := [Register(2, None), NotePeer(7)];
    var t := Edit(Some([e]), s, acts[0]);
    assert t == s.(live := [e, g], next := 3);
    assert Topics([e]) == {1};
    var u := Edit(Some([e]), t, acts[1]);
    assert u == t.(peers := [7], demands := {(7, 1)});
    PerformOne(Some([e]), s, acts[0], acts[1..]);
    PerformOne(Some([e]), t, acts[1], []);
    assert acts == [acts[0]] + acts[1..] && acts[1..] == [acts[1]] + [];
  }

  lemma PerformOne(base: Option<seq<Entry>>, s: Logic, a: Action, rest: seq<Action>)
    requires !a.Dispatch?
    ensures PerformAll(base, s, [a] + rest) == PerformAll(base, Edit(base, s, a), rest)
    ensures PerformAll(base, s, []) == s
  {
    assert ([a] + rest)[1..] == rest;
  }

  lemma FanOne(snapshot: seq<Entry>, e: Entry, s: Logic, fan: Fan, scripts: seq<Script>)
    requires Calls(fan, e, s) && scripts != []
    ensures FanOut(snapshot, [e], s, fan, scripts) == Reach(snapshot, e, s, fan, scripts)
    ensures Reach(snapshot, e, s, fan, scripts) == PerformAll(Some(snapshot), s.(called := s.called + [e.rid]), scripts[0].acts)
  {
    assert [e][1..] == [];
  }

  /** A peer noted in a callback, after the callback first-subscribed a topic, is never asked for it: the fan
      started from a list without it. */
  lemma MissedTopicInFan()
    ensures var s := Logic([Entry(1, 1, None)], 2, false, map[], [], {}, [], 0);
            var t := Perform(None, s, Dispatch(Message(1), [Script([Register(2, None), NotePeer(7)])]));
            ExactKnown(s) && Topics(t.live) == {1, 2} && t.peers == [7] && t.demands == {(7, 1)} && !ExactKnown(t)
  {
    var e, g := Entry(1, 1, None), Entry(2, 2, None);
    var s := Logic([e], 2, false, map[], [], {}, [], 0);
    var scripts := [Script([Register(2, None), NotePeer(7)])];
    var s' := s.(called := [1]);
    RegisterThenNote(s');
    FanOne([e], e, s, Message(1), scripts);
    hide PerformAll, Edit, FanOut, Reach;
    var t := Reach([e], e, s, Message(1), scripts);
    assert t == s'.(live := [e, g], next := 3, peers := [7], demands := {(7, 1)});
    assert [e, g][..1] == [e] && Topics([e]) == {1} && Topics([e, g]) == {1, 2};
    assert (7, 2) !in t.demands;
  }
}
