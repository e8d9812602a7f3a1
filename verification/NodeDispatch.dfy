/** The node: subscription and publisher seams, dispatch fans that run arbitrary callbacks, and
    the self-route and peer demands that must follow them. */
module NodeDispatch {
  import opened Options
  import opened DispatchSpec
  import opened DispatchLaws
  import opened Rosters
  import opened SelfRoutes

  /** What a discovery card says: a well-formed node id, if it has one, and whether it has a host and a
      usable port. */
  datatype Card = Card(peer: Option<Peer>, host: bool, port: bool)

  class Node {
    const id: Peer
    var roster: Roster
    var route: Route
    var publishers: map<Topic, nat>
    var peers: seq<Peer>
    /** The demands the engine remembers, peer by peer. */
    var demands: set<(Peer, Topic)>
    var mismatches: nat
    /** The callbacks invoked so far. */
    ghost var called: seq<nat>

    ghost function State(): Logic
      reads this
    {
      Logic(roster.Live(), roster.next, route.kind.ShmRing?, publishers, peers, demands, called, mismatches)
    }

    /** The staged list is well-formed and the self-route follows the logical one. */
    ghost predicate Valid()
      reads this
    {
      && roster.Valid()
      && (forall f :: f in publishers ==> publishers[f] >= 1)
      && route.Follows(publishers.Keys, roster.LiveTopics())
    }

    constructor (id: Peer, kind: Kind)
      ensures Valid() && this.id == id && route.kind == kind && roster.depth == 0
      ensures State() == Logic([], 1, kind.ShmRing?, map[], [], {}, [], 0)
    {
      this.id := id;
      roster, route := Roster([], [], [], 0, 1), Route(kind, {}, {}, {}, []);
      publishers, peers, demands, mismatches, called := map[], [], {}, 0, [];
    }

    // ---- Seams ----

    method RegisterSubscriber(fqn: Topic, key: Option<nat>) returns (rid: nat)
      requires Valid()
      modifies this`roster, this`route, this`demands
      ensures Valid() && rid == old(roster).next && roster == old(roster).Add(fqn, key)
      ensures State() == Edit(old(roster).Base(), old(State()), Register(fqn, key))
    {
      hide Roster.Valid, Route.Follows, Without, Ordered;
      rid := roster.next;
      var first := !roster.AnySubscriberFor(fqn);
      ghost var topics := roster.LiveTopics();
      roster := roster.Add(fqn, key);
      SelfAttach(fqn, first, topics);
      SubscribePeers(fqn);
    }

    /** The first subscriber of a topic attaches the self-route. */
    method SelfAttach(fqn: Topic, first: bool, ghost topics: set<Topic>)
      requires route.Follows(publishers.Keys, topics) && (first <==> fqn !in topics)
      modifies this`route
      ensures route.kind == old(route).kind && route.Follows(publishers.Keys, topics + {fqn})
    {
      if first {
        var minted: bool := *;
        route := route.AttachTo(fqn, fqn in publishers, minted, publishers.Keys, topics);
      } else {
        assert topics + {fqn} == topics;
      }
    }

    method SubscribePeers(fqn: Topic)
      modifies this`demands
      ensures demands == old(demands) + Pairs(peers, {fqn})
    {
      for i := 0 to |peers|
        invariant demands == old(demands) + Pairs(peers[..i], {fqn})
      {
        demands := demands + {(peers[i], fqn)};
      }
      assert peers[..|peers|] == peers;
    }

    method RetireSubscriber(rid: nat)
      requires Valid()
      modifies this`roster, this`route, this`demands
      ensures Valid() && roster == old(roster).Drop(rid)
      ensures State() == Edit(old(roster).Base(), old(State()), Retire(rid))
    {
      hide Roster.Valid, Route.Follows, Without, Ordered;
      ghost var topics := roster.LiveTopics();
      var (left, lost) := roster.Retired(rid);
      roster := left;
      RetireFqnDemand(lost, topics);
      assert topics - roster.LiveTopics() == lost.AsSet();
    }

    /** The last subscriber of a topic is gone: detach the self-route and withdraw the demands. */
    method RetireFqnDemand(lost: Option<Topic>, ghost topics: set<Topic>)
      requires route.Follows(publishers.Keys, topics) && lost.AsSet() <= topics
      modifies this`route, this`demands
      ensures route.kind == old(route).kind && route.Follows(publishers.Keys, topics - lost.AsSet())
      ensures demands == old(demands) - Pairs(peers, lost.AsSet())
    {
      if lost.Some? {
        route := route.DetachFrom(lost.value, publishers.Keys, topics);
        UnsubscribePeers(lost.value);
      } else {
        assert topics - {} == topics;
      }
    }

    method UnsubscribePeers(fqn: Topic)
      modifies this`demands
      ensures demands == old(demands) - Pairs(peers, {fqn})
    {
      for i := 0 to |peers|
        invariant demands == old(demands) - Pairs(peers[..i], {fqn})
      {
        demands := demands - {(peers[i], fqn)};
      }
      assert peers[..|peers|] == peers;
    }

    method DeclarePublisher(fqn: Topic)
      requires Valid()
      modifies this`publishers, this`route
      ensures Valid()
      ensures State() == Edit(roster.Base(), old(State()), Declare(fqn))
    {
      hide Roster.Valid, Route.Follows, Without, Ordered;
      if route.kind.ShmRing? {
        PublisherBalance(publishers, fqn);
        ghost var was := publishers.Keys;
        publishers := CountUp(publishers, fqn);
        var minted: bool := *;
        route := route.Republish(fqn, roster.AnySubscriberFor(fqn), minted, was, publishers.Keys, roster.LiveTopics());
      }
    }

    method ForgetPublisher(fqn: Topic)
      requires Valid()
      modifies this`publishers, this`route
      ensures Valid()
      ensures State() == Edit(roster.Base(), old(State()), RetirePublisher(fqn))
    {
      hide Roster.Valid, Route.Follows, Without, Ordered;
      if route.kind.ShmRing? {
        PublisherBalance(publishers, fqn);
        ghost var was := publishers.Keys;
        publishers := CountDown(publishers, fqn);
        var want := fqn in publishers && roster.AnySubscriberFor(fqn);
        var minted: bool := *;
        route := route.Republish(fqn, want, minted, was, publishers.Keys, roster.LiveTopics());
      }
    }

    /** Notes a peer and fans the topics of the physical list to it. */
    method Note(p: Peer)
      requires Valid()
      modifies this`peers, this`demands
      ensures Valid()
      ensures State() == Edit(roster.Base(), old(State()), NotePeer(p))
    {
      if p !in peers {
        peers := peers + [p];
      }
      FanDemandsTo(p);
      if roster.depth == 0 {
        roster.Settled();
      }
    }

    method FanDemandsTo(p: Peer)
      modifies this`demands
      ensures demands == old(demands) + Pairs([p], Topics(roster.subscriptions))
    {
      var list := roster.subscriptions;
      for i := 0 to |list|
        invariant demands == old(demands) + Pairs([p], Topics(list[..i]))
      {
        demands := demands + {(p, list[i].fqn)};
        assert list[..i + 1][..i] == list[..i];
      }
      assert list[..|list|] == list;
    }

    /** A goodbye drops awareness only: the engine keeps the remembered demands. */
    method Forget(p: Peer)
      requires Valid()
      modifies this`peers
      ensures Valid()
      ensures State() == Edit(roster.Base(), old(State()), ForgetPeer(p))
    {
      peers := ErasePeer(peers, p);
    }

    /** `note_from_card`: a card without an id, of the node itself, without a host or without a port is
        ignored. */
    method NoteFromCard(card: Card)
      requires Valid()
      modifies this`peers, this`demands
      ensures Valid()
      ensures State() == if card.peer.Some? && card.peer.value != id && card.host && card.port
                         then Edit(roster.Base(), old(State()), NotePeer(card.peer.value)) else old(State())
    {
      if card.peer.None? || card.peer.value == id || !card.host {
        return;
      }
      if card.port {
        Note(card.peer.value);
      }
    }

    /** `forget_from_card`: a goodbye without an id, or of the node itself, is ignored. */
    method ForgetFromCard(card: Card)
      requires Valid()
      modifies this`peers
      ensures Valid()
      ensures State() == if card.peer.Some? && card.peer.value != id
                         then Edit(roster.Base(), old(State()), ForgetPeer(card.peer.value)) else old(State())
    {
      if card.peer.None? || card.peer.value == id {
        return;
      }
      Forget(card.peer.value);
    }

    method DoEdit(a: Action)
      requires Valid() && !a.Dispatch?
      modifies this
      ensures Valid() && roster.depth == old(roster).depth
      ensures roster.depth > 0 ==> roster.subscriptions == old(roster).subscriptions
      ensures State() == Edit(old(roster).Base(), old(State()), a)
    {
      match a
      case Register(fqn, key) =>
        var rid := RegisterSubscriber(fqn, key);
      case Retire(rid) =>
        RetireSubscriber(rid);
      case Declare(fqn) =>
        DeclarePublisher(fqn);
      case RetirePublisher(fqn) =>
        ForgetPublisher(fqn);
      case NotePeer(p) =>
        Note(p);
      case ForgetPeer(p) =>
        Forget(p);
    }

    // ---- Dispatch ----

    /** One action, whatever it is and however deep inside callbacks: the staged list follows the
        directly edited one, and does not move while a fan is live. */
    method Do(a: Action)
      requires Valid()
      modifies this
      ensures Valid() && roster.depth == old(roster).depth
      ensures roster.depth > 0 ==> roster.subscriptions == old(roster).subscriptions
      ensures State() == Perform(old(roster).Base(), old(State()), a)
      decreases a, 0
    {
      if a.Dispatch? {
        if roster.depth == 0 {
          roster.Settled();
        }
        DispatchFan(a.fan, a.scripts);
      } else {
        DoEdit(a);
      }
    }

    /** `dispatch_message` and `dispatch_object`: the edits the callbacks make are staged until
        the outermost fan leaves. */
    method DispatchFan(fan: Fan, scripts: seq<Script>)
      requires Valid()
      modifies this
      ensures Valid() && roster.depth == old(roster).depth
      ensures roster.depth > 0 ==> roster.subscriptions == old(roster).subscriptions
      ensures roster.depth == 0 ==> roster.subscriptions == roster.Live()
      ensures State() == FanOut(old(roster).subscriptions, old(roster).subscriptions, old(State()), fan, scripts)
      decreases scripts, 1
    {
      hide FanOut, Reach, ScriptsAfter, Roster.Live, Roster.Valid, Route.Follows, Without, Ordered, Topics;
      ghost var snapshot := roster.subscriptions;
      ghost var goal := FanOut(snapshot, snapshot, State(), fan, scripts);
      roster := roster.Enter();
      var i, k := 0, 0;
      assert snapshot[0..] == snapshot && scripts[0..] == scripts;
      while i < |roster.subscriptions|
        invariant Valid() && roster.depth == old(roster).depth + 1 && roster.subscriptions == snapshot
        invariant 0 <= i <= |snapshot| && 0 <= k <= |scripts|
        invariant FanOut(snapshot, snapshot[i..], State(), fan, scripts[k..]) == goal
      {
        FanUnfold(snapshot, snapshot[i..], State(), fan, scripts[k..]);
        assert snapshot[i..][0] == snapshot[i] && snapshot[i..][1..] == snapshot[i + 1..];
        k := Visit(roster.subscriptions[i], fan, scripts, k);
        i := i + 1;
      }
      assert snapshot[i..] == [];
      FanUnfold(snapshot, [], State(), fan, scripts[k..]);
      roster := roster.Leave();
    }

    /** One turn of the fan's loop. */
    method Visit(e: Entry, fan: Fan, scripts: seq<Script>, k: nat) returns (k': nat)
      requires Valid() && roster.depth > 0 && e in roster.subscriptions && k <= |scripts|
      modifies this
      ensures Valid() && roster.depth == old(roster).depth && roster.subscriptions == old(roster).subscriptions
      ensures k <= k' <= |scripts| && scripts[k'..] == ScriptsAfter(e, old(State()), fan, scripts[k..])
      ensures State() == Reach(roster.subscriptions, e, old(State()), fan, scripts[k..])
      decreases scripts, 0
    {
      hide Roster.Valid, Route.Follows, Without, Ordered;
      k' := k;
      roster.ReachedIsLive(e);
      if !Concerns(fan, e) || roster.PendingRemoved(e.rid) {
        return;
      }
      if !Accepts(fan, e) {
        mismatches := mismatches + 1;
        return;
      }
      called := called + [e.rid];
      if k < |scripts| {
        assert scripts[k..][0] == scripts[k] && scripts[k..][1..] == scripts[k + 1..];
        RunCallback(scripts[k].acts);
        k' := k + 1;
      }
    }

    method RunCallback(acts: seq<Action>)
      requires Valid() && roster.depth > 0
      modifies this
      ensures Valid() && roster.depth == old(roster).depth && roster.subscriptions == old(roster).subscriptions
      ensures State() == PerformAll(old(roster).Base(), old(State()), acts)
      decreases acts
    {
      if acts != [] {
        Do(acts[0]);
        RunCallback(acts[1..]);
      }
    }

    /** A whole run outside any fan: between events the physical list is the one direct edits
        give, and the self-route, the self-carriers and the peer demands have kept up with it. */
    method Run(events: seq<Action>)
      requires Valid() && roster.depth == 0
      modifies this
      ensures Valid() && roster.depth == 0 && roster.subscriptions == roster.Live()
      ensures State() == PerformAll(None, old(State()), events)
      ensures old(ExactKnown(State())) && NotesFit(AllMoments(None, old(State()), events)) ==> ExactKnown(State())
      ensures old(Covered(State())) && (forall a :: a in events ==> a.NotePeer? || a.ForgetPeer? || LeavesPeers(a)) ==>
                Covered(State())
    {
      hide Roster.Valid, Route.Follows, Without, Ordered;
      if ExactKnown(State()) {
        RunExactIff(State(), events);
      }
      if forall a :: a in events ==> a.NotePeer? || a.ForgetPeer? || LeavesPeers(a) {
        RunKeepsDemands(State(), events);
      }
      ghost var goal := PerformAll(None, State(), events);
      for i := 0 to |events|
        invariant Valid() && roster.depth == 0
        invariant PerformAll(None, State(), events[i..]) == goal
      {
        assert events[i..][0] == events[i] && events[i..][1..] == events[i + 1..];
        Do(events[i]);
      }
      roster.Settled();
    }
  }
}
