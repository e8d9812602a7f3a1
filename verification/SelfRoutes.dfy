/** The node's self-route: the loopback channel attached to its own forwarder, or the
    shared-memory self-rings minted where a local publisher and a local subscriber coexist. */
module SelfRoutes {
  import opened Options
  import opened DispatchSpec

  /** Which self-route the transports give the node; at most one exists. */
  datatype Kind = Loopback | ShmRing | Idle

  datatype Edge = Attach(fqn: Topic) | Detach(fqn: Topic)

  /** The topics attached after a list of edges, if attaches and detaches alternate per topic. */
  ghost function Replay(edges: seq<Edge>): Option<set<Topic>> {
    if edges == [] then Some({})
    else
      var before, e := Replay(edges[..|edges| - 1]), edges[|edges| - 1];
      if before.None? then None
      else if e.Attach? && e.fqn !in before.value then Some(before.value + {e.fqn})
      else if e.Detach? && e.fqn in before.value then Some(before.value - {e.fqn})
      else None
  }

  lemma ReplayPush(edges: seq<Edge>, e: Edge)
    requires Replay(edges).Some? && (e.Attach? <==> e.fqn !in Replay(edges).value)
    ensures Replay(edges + [e])
         == Some(if e.Attach? then Replay(edges).value + {e.fqn} else Replay(edges).value - {e.fqn})
  {
    assert (edges + [e])[..|edges|] == edges;
  }

  /** `attached` is the forwarder's local registry; `unminted` the topics that want a self-ring
      whose last mint failed; `edges` every self-attach and self-detach so far. */
  datatype Route = Route(kind: Kind, attached: set<Topic>, carriers: set<Topic>, unminted: set<Topic>, edges: seq<Edge>) {

    /** The route is attached to exactly `topics`, by edges that alternate; a self-ring exists
        exactly where a publisher and a subscriber coexist, unless its mint failed. */
    ghost predicate Follows(publishers: set<Topic>, topics: set<Topic>) {
      && Replay(edges) == Some(topics)
      && attached == (if kind.Loopback? then topics else {})
      && (kind.ShmRing? ==> CarriersMatch(publishers * topics))
      && (!kind.ShmRing? ==> carriers == {} && unminted == {})
    }

    ghost predicate CarriersMatch(wanted: set<Topic>) {
      carriers !! unminted && carriers + unminted == wanted
    }

    /** `sync_shm_self_carrier`: `minted` is what the operating system answers to a mint. */
    function Sync(fqn: Topic, want: bool, minted: bool, ghost wanted: set<Topic>): (r: Route)
      requires CarriersMatch(carriers + unminted) && carriers + unminted - {fqn} == wanted - {fqn}
      requires want <==> fqn in wanted
      ensures r.CarriersMatch(wanted)
      ensures r.kind == kind && r.attached == attached && r.edges == edges
      ensures minted && want ==> fqn in r.carriers
      ensures forall f :: f != fqn ==> (f in r.carriers <==> f in carriers)
    {
      assert wanted == if want then wanted - {fqn} + {fqn} else wanted - {fqn};
      var have := fqn in carriers;
      if want && !have then
        if minted then this.(carriers := carriers + {fqn}, unminted := unminted - {fqn})
        else this.(unminted := unminted + {fqn})
      else if !want && have then this.(carriers := carriers - {fqn})
      else if !want then this.(unminted := unminted - {fqn})
      else this
    }

    /** `self_attach`, on the first subscriber of a topic. */
    function AttachTo(fqn: Topic, published: bool, minted: bool, ghost publishers: set<Topic>, ghost topics: set<Topic>): (r: Route)
      requires Follows(publishers, topics) && fqn !in topics
      requires published <==> fqn in publishers
      ensures r.kind == kind && r.Follows(publishers, topics + {fqn})
    {
      ReplayPush(edges, Attach(fqn));
      var r := this.(edges := edges + [Attach(fqn)]);
      if kind.Loopback? then r.(attached := attached + {fqn})
      else if kind.ShmRing? then r.Sync(fqn, published, minted, publishers * (topics + {fqn}))
      else r
    }

    /** `self_detach`, after the last subscriber of a topic. */
    function DetachFrom(fqn: Topic, ghost publishers: set<Topic>, ghost topics: set<Topic>): (r: Route)
      requires Follows(publishers, topics) && fqn in topics
      ensures r.kind == kind && r.Follows(publishers, topics - {fqn})
    {
      ReplayPush(edges, Detach(fqn));
      var r := this.(edges := edges + [Detach(fqn)]);
      if kind.Loopback? then r.(attached := attached - {fqn})
      else if kind.ShmRing? then r.Sync(fqn, false, false, publishers * (topics - {fqn}))
      else r
    }

    /** A publisher declared or retired. */
    function Republish(fqn: Topic, want: bool, minted: bool,
                       ghost was: set<Topic>, ghost publishers: set<Topic>, ghost topics: set<Topic>): (r: Route)
      requires Follows(was, topics) && was - {fqn} == publishers - {fqn}
      requires want <==> fqn in publishers && fqn in topics
      ensures r.kind == kind && r.Follows(publishers, topics)
    {
      if kind.ShmRing? then
        assert was * topics - {fqn} == publishers * topics - {fqn} by {
          assert (was - {fqn}) * topics == (publishers - {fqn}) * topics;
          assert was * topics - {fqn} == (was - {fqn}) * topics;
        }
        Sync(fqn, want, minted, publishers * topics)
      else this
    }
  }
}
