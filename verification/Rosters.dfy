/** The node's subscription list as the source keeps it: edits made while a dispatch fan is live
    are staged beside the list and applied by the outermost fan on its way out. */
module Rosters {
  import opened Options
  import opened DispatchSpec

  datatype Roster = Roster(subscriptions: seq<Entry>, adds: seq<Entry>, removes: seq<nat>, depth: nat, next: nat) {

    /** The subscribers that logically exist. */
    ghost function Live(): seq<Entry> {
      Without(subscriptions + adds, removes)
    }

    ghost function LiveTopics(): set<Topic> {
      Topics(Live())
    }

    ghost predicate Valid() {
      && Ordered(subscriptions + adds, next)
      && (forall r :: r in removes ==> r < next)
      && (depth == 0 ==> adds == [] && removes == [])
    }

    /** The list the live fan iterates, if one is live. */
    ghost function Base(): Option<seq<Entry>> {
      if depth > 0 then Some(subscriptions) else None
    }

    predicate PendingRemoved(rid: nat) {
      rid in removes
    }

    /** `any_subscriber_for` scans the list and the staged additions for an unremoved match. */
    predicate AnySubscriberFor(fqn: Topic)
      ensures AnySubscriberFor(fqn) <==> fqn in LiveTopics()
    {
      AnyIsLive(fqn);
      || (exists e :: e in subscriptions && e.fqn == fqn && !PendingRemoved(e.rid))
      || (exists e :: e in adds && e.fqn == fqn && !PendingRemoved(e.rid))
    }

    lemma AnyIsLive(fqn: Topic)
      ensures (exists e :: e in subscriptions + adds && e.fqn == fqn && e.rid !in removes) <==> fqn in LiveTopics()
    {
      TopicsMembers(Live(), fqn);
      if e :| e in subscriptions + adds && e.fqn == fqn && e.rid !in removes {
        WithoutMembers(subscriptions + adds, removes, e);
      }
      if e :| e in Live() && e.fqn == fqn {
        WithoutMembers(subscriptions + adds, removes, e);
      }
    }

    /** The topic registered under `rid`, also if it is staged or pending removal. */
    function FqnOf(rid: nat): (r: Option<Topic>)
      ensures r.None? ==> forall e :: e in subscriptions + adds ==> e.rid != rid
      ensures r.Some? ==> exists e :: e in subscriptions + adds && e.rid == rid && e.fqn == r.value
    {
      FqnIn(subscriptions + adds, rid)
    }

    /** An entry about to be called is live exactly when its removal is not pending. */
    lemma ReachedIsLive(e: Entry)
      requires e in subscriptions
      ensures e in Live() <==> !PendingRemoved(e.rid)
    {
      WithoutMembers(subscriptions + adds, removes, e);
    }

    /** `register_subscriber_seam`'s edit: staged inside a fan, appended outside. */
    function Add(fqn: Topic, key: Option<nat>): (r: Roster)
      requires Valid()
      ensures r.Valid() && r.depth == depth && r.next == next + 1
      ensures r.Live() == Live() + [Entry(next, fqn, key)]
      ensures r.LiveTopics() == LiveTopics() + {fqn}
      ensures depth > 0 ==> r.subscriptions == subscriptions
    {
      var entry := Entry(next, fqn, key);
      AppendLaw(subscriptions + adds, removes, entry);
      assert subscriptions + (adds + [entry]) == subscriptions + adds + [entry];
      assert adds == [] ==> subscriptions + [entry] + adds == subscriptions + adds + [entry];
      if depth > 0 then this.(adds := adds + [entry], next := next + 1)
      else this.(subscriptions := subscriptions + [entry], next := next + 1)
    }

    /** `retire_subscriber_seam`'s edit: a pending removal inside a fan, an erase outside. */
    function Drop(rid: nat): (r: Roster)
      requires Valid()
      ensures r.Valid() && r.depth == depth && r.next == next
      ensures r.Live() == Without(Live(), [rid])
      ensures depth > 0 ==> r.subscriptions == subscriptions
    {
      DropLaw(rid);
      if depth > 0 then
        if FqnOf(rid).None? || PendingRemoved(rid) then this
        else this.(removes := removes + [rid])
      else this.(subscriptions := Without(subscriptions, [rid]))
    }

    lemma DropLaw(rid: nat)
      requires Valid()
      ensures depth == 0 ==>
                && Ordered(Without(subscriptions, [rid]), next)
                && Without(subscriptions, [rid]) + adds == Without(subscriptions, [rid])
                && Without(Without(subscriptions, [rid]) + adds, removes) == Without(Live(), [rid])
      ensures Without(subscriptions + adds, removes + [rid]) == Without(Live(), [rid])
      ensures FqnOf(rid).None? || PendingRemoved(rid) ==> Without(Live(), [rid]) == Live()
      ensures FqnOf(rid).None? || PendingRemoved(rid) || rid < next
    {
      WithoutTwice(subscriptions + adds, removes, [rid]);
      if depth == 0 {
        assert subscriptions + adds == subscriptions;
        WithoutNone(subscriptions, []);
        WithoutOrdered(subscriptions, [rid], next);
        WithoutNone(Without(subscriptions, [rid]), []);
        assert Without(subscriptions, [rid]) + adds == Without(subscriptions, [rid]);
      }
      if FqnOf(rid).None? || PendingRemoved(rid) {
        forall e | e in Live() ensures e.rid != rid {
          WithoutMembers(subscriptions + adds, removes, e);
        }
        WithoutNone(Live(), [rid]);
      } else {
        var e :| e in subscriptions + adds && e.rid == rid;
        OrderedBelow(subscriptions + adds, next, e);
      }
    }

    /** `retire_subscriber_seam`: the edit, and the topic whose last subscriber it took, if any. */
    function Retired(rid: nat): (r: (Roster, Option<Topic>))
      requires Valid()
      ensures r.0 == Drop(rid)
      ensures r.1.AsSet() <= LiveTopics() && r.0.LiveTopics() == LiveTopics() - r.1.AsSet()
    {
      DropTopics(rid);
      var fqn := FqnOf(rid);
      if fqn.None? || PendingRemoved(rid) then (Drop(rid), None)
      else if Drop(rid).AnySubscriberFor(fqn.value) then (Drop(rid), None)
      else (Drop(rid), fqn)
    }

    lemma DropTopics(rid: nat)
      requires Valid()
      ensures FqnOf(rid).None? || PendingRemoved(rid) ==> Drop(rid).LiveTopics() == LiveTopics()
      ensures FqnOf(rid).Some? && !PendingRemoved(rid) ==>
                && FqnOf(rid).value in LiveTopics()
                && Drop(rid).LiveTopics() + {FqnOf(rid).value} == LiveTopics()
    {
      DropLaw(rid);
      if FqnOf(rid).Some? && !PendingRemoved(rid) {
        var e :| e in subscriptions + adds && e.rid == rid && e.fqn == FqnOf(rid).value;
        WithoutMembers(subscriptions + adds, removes, e);
        WithoutOrdered(subscriptions + adds, removes, next);
        TopicsWithout(Live(), next, e);
      }
    }

    /** Outside any fan the physical list is the logical one. */
    lemma Settled()
      requires Valid() && depth == 0
      ensures subscriptions == Live()
    {
      assert subscriptions + adds == subscriptions;
      WithoutNone(subscriptions, []);
    }

    function Enter(): (r: Roster)
      requires Valid()
      ensures r.Valid() && r.Live() == Live() && r.Base() == Some(subscriptions)
      ensures Base().None? ==> subscriptions == Live()
    {
      if depth == 0 then Settled(); this.(depth := 1) else this.(depth := depth + 1)
    }

    /** `~dispatch_guard`: the outermost fan applies the staged edits, and the list becomes what
        direct edits would have made it. */
    function Leave(): (r: Roster)
      requires Valid() && depth > 0
      ensures r.Valid() && r.depth == depth - 1 && r.next == next && r.Live() == Live()
      ensures r.depth == 0 ==> r.subscriptions == Live()
      ensures r.depth > 0 ==> r.subscriptions == subscriptions
    {
      if depth > 1 then this.(depth := depth - 1)
      else
        var applied := Without(subscriptions, removes) + Without(adds, removes);
        WithoutAppend(subscriptions, adds, removes);
        WithoutOrdered(subscriptions + adds, removes, next);
        WithoutNone(applied, []);
        assert applied + [] == applied;
        this.(subscriptions := applied, adds := [], removes := [], depth := 0)
    }
  }

  function FqnIn(es: seq<Entry>, rid: nat): (r: Option<Topic>)
    ensures r.None? ==> forall e :: e in es ==> e.rid != rid
    ensures r.Some? ==> exists e :: e in es && e.rid == rid && e.fqn == r.value
  {
    if es == [] then None
    else if es[0].rid == rid then Some(es[0].fqn)
    else FqnIn(es[1..], rid)
  }

  /** Taking one entry out takes away its topic or nothing. */
  lemma TopicsWithout(es: seq<Entry>, next: nat, e: Entry)
    requires Ordered(es, next) && e in es
    ensures e.fqn in Topics(es) && Topics(Without(es, [e.rid])) + {e.fqn} == Topics(es)
  {
    TopicsMembers(es, e.fqn);
    forall f ensures f in Topics(Without(es, [e.rid])) + {e.fqn} <==> f in Topics(es) {
      TopicsMembers(es, f);
      TopicsMembers(Without(es, [e.rid]), f);
      if g :| g in es && g.fqn == f {
        WithoutMembers(es, [e.rid], g);
        if g.rid == e.rid {
          OrderedUnique(es, next, e, g);
        }
      }
      if g :| g in Without(es, [e.rid]) && g.fqn == f {
        WithoutMembers(es, [e.rid], g);
      }
    }
  }

  /** A newly issued id goes to the end of the list and adds its topic. */
  lemma AppendLaw(all: seq<Entry>, gone: seq<nat>, entry: Entry)
    requires Ordered(all, entry.rid) && forall r :: r in gone ==> r < entry.rid
    ensures Ordered(all + [entry], entry.rid + 1)
    ensures Without(all + [entry], gone) == Without(all, gone) + [entry]
    ensures Topics(Without(all, gone) + [entry]) == Topics(Without(all, gone)) + {entry.fqn}
  {
    assert (all + [entry])[..|all|] == all;
    assert (Without(all, gone) + [entry])[..|Without(all, gone)|] == Without(all, gone);
  }
}
