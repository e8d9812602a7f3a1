/** What a node owes its subscribers, stated without any staging: every subscribe and
    unsubscribe edits one list at once, also from inside a callback. */
module DispatchSpec {
  import opened Options

  /** Topic names and peer identities are only ever compared for equality. */
  type Topic = nat
  type Peer = nat

  /** A registered subscriber; `key` is the native type witness of its object entry, if any. */
  datatype Entry = Entry(rid: nat, fqn: Topic, key: Option<nat>)

  /** A delivery being fanned out: framed bytes, or an object with its native type witness. */
  datatype Fan = Message(fqn: Topic) | Object(fqn: Topic, typeKey: nat)

  /** Everything a callback, or the code outside any callback, may do to the node. A dispatch
      carries the scripts of the callbacks it invokes, in invocation order; a callback beyond
      the last script does nothing. Quantifying over actions quantifies over every finite
      behaviour of every callback. */
  datatype Action =
    | Register(fqn: Topic, key: Option<nat>)
    | Retire(rid: nat)
    | Declare(fqn: Topic)
    | RetirePublisher(fqn: Topic)
    | NotePeer(peer: Peer)
    | ForgetPeer(peer: Peer)
    | Dispatch(fan: Fan, scripts: seq<Script>)

  /** What one invocation of a callback does. */
  datatype Script = Script(acts: seq<Action>)

  /** The observable state: the live subscribers in registration order, the next registration
      id, the publisher counts (kept only by a node with a shared-memory self-ring), the known
      peers with the demands the engine remembers for any peer, and what the callbacks saw. */
  datatype Logic = Logic(live: seq<Entry>, next: nat, counting: bool, publishers: map<Topic, nat>,
                         peers: seq<Peer>, demands: set<(Peer, Topic)>, called: seq<nat>, mismatches: nat)

  /** `es` without the entries whose ids are in `gone`. */
  function Without(es: seq<Entry>, gone: seq<nat>): seq<Entry> {
    if es == [] then []
    else
      var (front, last) := (es[..|es| - 1], es[|es| - 1]);
      Without(front, gone) + if last.rid in gone then [] else [last]
  }

  function Topics(es: seq<Entry>): set<Topic> {
    if es == [] then {} else Topics(es[..|es| - 1]) + {es[|es| - 1].fqn}
  }

  /** The fan concerns this entry at all. */
  predicate Concerns(fan: Fan, e: Entry) {
    e.fqn == fan.fqn && (fan.Object? ==> e.key.Some?)
  }

  /** The fan calls this entry, rather than counting a type mismatch. */
  predicate Accepts(fan: Fan, e: Entry) {
    Concerns(fan, e) && (fan.Object? ==> e.key == Some(fan.typeKey))
  }

  function CountUp(m: map<Topic, nat>, fqn: Topic): map<Topic, nat> {
    m[fqn := (if fqn in m then m[fqn] else 0) + 1]
  }

  function CountDown(m: map<Topic, nat>, fqn: Topic): map<Topic, nat> {
    if fqn !in m then m
    else if m[fqn] <= 1 then m - {fqn}
    else m[fqn := m[fqn] - 1]
  }

  /** A demand for each of the topics at each of the peers. */
  function Pairs(peers: seq<Peer>, topics: set<Topic>): set<(Peer, Topic)> {
    set p, f | p in peers && f in topics :: (p, f)
  }

  function AddPeer(peers: seq<Peer>, p: Peer): seq<Peer> {
    if p in peers then peers else peers + [p]
  }

  function ErasePeer(peers: seq<Peer>, p: Peer): (r: seq<Peer>)
    ensures forall q :: q in r <==> q in peers && q != p
  {
    if peers == [] then [] else (if peers[0] == p then [] else [peers[0]]) + ErasePeer(peers[1..], p)
  }

  /** The list a fan iterates, and a newly noted peer is told about: the one the outermost live
      fan started from, if a fan is live. */
  ghost function Physical(base: Option<seq<Entry>>, s: Logic): seq<Entry> {
    if base.Some? then base.value else s.live
  }

  /** An action that runs no callback. */
  ghost function Edit(base: Option<seq<Entry>>, s: Logic, a: Action): Logic
    requires !a.Dispatch?
  {
    match a
    case Register(fqn, key) =>
      s.(live := s.live + [Entry(s.next, fqn, key)], next := s.next + 1, demands := s.demands + Pairs(s.peers, {fqn}))
    case Retire(rid) =>
      var left := Without(s.live, [rid]);
      s.(live := left, demands := s.demands - Pairs(s.peers, Topics(s.live) - Topics(left)))
    case Declare(fqn) => if s.counting then s.(publishers := CountUp(s.publishers, fqn)) else s
    case RetirePublisher(fqn) => if s.counting then s.(publishers := CountDown(s.publishers, fqn)) else s
    case NotePeer(p) => s.(peers := AddPeer(s.peers, p), demands := s.demands + Pairs([p], Topics(Physical(base, s))))
    case ForgetPeer(p) => s.(peers := ErasePeer(s.peers, p))
  }

  /** Any action, with all that its callbacks do. */
  ghost function Perform(base: Option<seq<Entry>>, s: Logic, a: Action): Logic
    decreases a, 0
  {
    match a
    case Dispatch(fan, scripts) => FanOut(Physical(base, s), Physical(base, s), s, fan, scripts)
    case _ => Edit(base, s, a)
  }

  /** The fan calls `e` if it reaches it in state `s`: an accepting entry that still is live. */
  ghost predicate Calls(fan: Fan, e: Entry, s: Logic) {
    Accepts(fan, e) && e in s.live
  }

  /** The fan reaches `e`. */
  ghost function Reach(snapshot: seq<Entry>, e: Entry, s: Logic, fan: Fan, scripts: seq<Script>): Logic
    decreases scripts, 0
  {
    if !Concerns(fan, e) || e !in s.live then s
    else if !Accepts(fan, e) then s.(mismatches := s.mismatches + 1)
    else
      var s' := s.(called := s.called + [e.rid]);
      if scripts == [] then s' else PerformAll(Some(snapshot), s', scripts[0].acts)
  }

  /** The scripts left for the callbacks after `e`. */
  ghost function ScriptsAfter(e: Entry, s: Logic, fan: Fan, scripts: seq<Script>): seq<Script> {
    if Calls(fan, e, s) && scripts != [] then scripts[1..] else scripts
  }

  /** A fan over the `rest` of its snapshot. */
  ghost function FanOut(snapshot: seq<Entry>, rest: seq<Entry>, s: Logic, fan: Fan, scripts: seq<Script>): Logic
    decreases scripts, |rest| + 1
  {
    if rest == [] then s
    else FanOut(snapshot, rest[1..], Reach(snapshot, rest[0], s, fan, scripts), fan, ScriptsAfter(rest[0], s, fan, scripts))
  }

  lemma FanUnfold(snapshot: seq<Entry>, rest: seq<Entry>, s: Logic, fan: Fan, scripts: seq<Script>)
    ensures FanOut(snapshot, rest, s, fan, scripts) ==
              if rest == [] then s
              else FanOut(snapshot, rest[1..], Reach(snapshot, rest[0], s, fan, scripts), fan, ScriptsAfter(rest[0], s, fan, scripts))
  {
  }

  ghost function PerformAll(base: Option<seq<Entry>>, s: Logic, acts: seq<Action>): Logic
    decreases acts
  {
    if acts == [] then s
    else PerformAll(base, Perform(base, s, acts[0]), acts[1..])
  }

  // ---- Laws of the list ----

  /** Registration ids increase along the list and stay below the next one to be issued. */
  ghost predicate Ordered(es: seq<Entry>, next: nat) {
    es == [] || (es[|es| - 1].rid < next && Ordered(es[..|es| - 1], es[|es| - 1].rid))
  }

  /** In other words: positions and ids increase together. */
  lemma {:induction false} OrderedAt(es: seq<Entry>, next: nat, i: nat, j: nat)
    requires Ordered(es, next) && i <= j < |es|
    ensures es[i].rid <= es[j].rid < next && (i < j ==> es[i].rid < es[j].rid)
  {
    var n := |es| - 1;
    if j < n {
      OrderedAt(es[..n], es[n].rid, i, j);
    } else if i < n {
      OrderedAt(es[..n], es[n].rid, i, i);
    }
  }

  lemma OrderedBelow(es: seq<Entry>, next: nat, e: Entry)
    requires Ordered(es, next) && e in es
    ensures e.rid < next
  {
    var i :| 0 <= i < |es| && es[i] == e;
    OrderedAt(es, next, i, i);
  }

  lemma OrderedUnique(es: seq<Entry>, next: nat, e: Entry, f: Entry)
    requires Ordered(es, next) && e in es && f in es && e.rid == f.rid
    ensures e == f
  {
    var i :| 0 <= i < |es| && es[i] == e;
    var j :| 0 <= j < |es| && es[j] == f;
    if i <= j {
      OrderedAt(es, next, i, j);
    } else {
      OrderedAt(es, next, j, i);
    }
  }

  lemma {:induction false} OrderedGrows(es: seq<Entry>, next: nat, more: nat)
    requires Ordered(es, next) && next <= more
    ensures Ordered(es, more)
  {
  }

  lemma {:induction false} TopicsMembers(es: seq<Entry>, f: Topic)
    ensures f in Topics(es) <==> exists e :: e in es && e.fqn == f
  {
    if es != [] {
      var n := |es| - 1;
      TopicsMembers(es[..n], f);
      assert es == es[..n] + [es[n]];
    }
  }

  lemma {:induction false} WithoutMembers(es: seq<Entry>, gone: seq<nat>, e: Entry)
    ensures e in Without(es, gone) <==> e in es && e.rid !in gone
  {
    if es != [] {
      var n := |es| - 1;
      WithoutMembers(es[..n], gone, e);
      assert es == es[..n] + [es[n]];
    }
  }

  lemma {:induction false} WithoutOrdered(es: seq<Entry>, gone: seq<nat>, next: nat)
    requires Ordered(es, next)
    ensures Ordered(Without(es, gone), next)
  {
    if es != [] {
      var n := |es| - 1;
      WithoutOrdered(es[..n], gone, es[n].rid);
      OrderedGrows(Without(es[..n], gone), es[n].rid, next);
      assert es[n].rid in gone ==> Without(es, gone) == Without(es[..n], gone);
      assert es[n].rid !in gone ==> Without(es, gone)[..|Without(es, gone)| - 1] == Without(es[..n], gone);
    }
  }

  lemma {:induction false} WithoutAppend(es: seq<Entry>, fs: seq<Entry>, gone: seq<nat>)
    ensures Without(es + fs, gone) == Without(es, gone) + Without(fs, gone)
  {
    if fs == [] {
      assert es + fs == es;
    } else {
      assert (es + fs)[..|es + fs| - 1] == es + fs[..|fs| - 1];
      WithoutAppend(es, fs[..|fs| - 1], gone);
    }
  }

  lemma {:induction false} WithoutNone(es: seq<Entry>, gone: seq<nat>)
    requires forall e :: e in es ==> e.rid !in gone
    ensures Without(es, gone) == es
  {
    if es != [] {
      WithoutNone(es[..|es| - 1], gone);
      assert es[|es| - 1] in es;
      assert es == es[..|es| - 1] + [es[|es| - 1]];
    }
  }

  lemma {:induction false} WithoutTwice(es: seq<Entry>, a: seq<nat>, b: seq<nat>)
    ensures Without(Without(es, a), b) == Without(es, a + b)
  {
    if es != [] {
      var n := |es| - 1;
      WithoutTwice(es[..n], a, b);
      WithoutAppend(Without(es[..n], a), if es[n].rid in a then [] else [es[n]], b);
    }
  }
}
