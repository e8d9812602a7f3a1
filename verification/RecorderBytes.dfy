/** The recorder on its bytes: the frames of `Recorder` are the records of `ByteRing`, run in step. */
module RecorderBytes {
  import R = Recorder
  import opened B = ByteRing
  import opened Varint

  /** The recorder's frames have the sizes of the framed records. */
  ghost predicate Abstracts(rs: seq<B.Record>, fs: seq<R.Frame>) {
    |fs| == |rs| && forall i :: 0 <= i < |rs| ==> |B.Frame(rs[i])| == fs[i].bytes + 1
  }

  lemma {:induction false} SameSize(rs: seq<B.Record>, fs: seq<R.Frame>)
    requires Abstracts(rs, fs)
    ensures R.Size(fs) == |Framed(rs)| && |fs| == |rs|
  {
    if rs == [] {
      FrameNotEmpty(rs);
    } else {
      var n := |rs| - 1;
      SameSize(rs[..n], fs[..n]);
      FramedNext(rs, n);
      assert rs[..n + 1] == rs;
      hide B.Frame, Framed;
    }
  }

  lemma AbstractsParts(rs: seq<B.Record>, fs: seq<R.Frame>, k: nat)
    requires Abstracts(rs, fs) && k <= |rs|
    ensures Abstracts(rs[k..], fs[k..]) && Abstracts(rs[..k], fs[..k])
    ensures R.Size(fs[..k]) == |Framed(rs[..k])| && R.Size(fs[k..]) == |Framed(rs[k..])|
  {
    hide B.Frame, Framed, R.Size;
    SameSize(rs[..k], fs[..k]);
    SameSize(rs[k..], fs[k..]);
  }

  lemma AbstractsJoin(rs: seq<B.Record>, fs: seq<R.Frame>, qs: seq<B.Record>, gs: seq<R.Frame>)
    requires Abstracts(rs, fs) && Abstracts(qs, gs)
    ensures Abstracts(rs + qs, fs + gs)
  {
    hide B.Frame;
  }

  /** Longer prefixes are strictly longer in bytes. */
  lemma SizeGrows(fs: seq<R.Frame>, j: nat, k: nat)
    requires j <= k <= |fs|
    ensures R.Size(fs[..j]) <= R.Size(fs[..k]) && (j < k ==> R.Size(fs[..j]) < R.Size(fs[..k]))
    ensures R.Size(fs[k..]) <= R.Size(fs[j..])
  {
    assert fs[..k] == fs[..j] + fs[j..k];
    R.SizeConcat(fs[..j], fs[j..k]);
    assert fs[j..] == fs[j..k] + fs[k..];
    R.SizeConcat(fs[j..k], fs[k..]);
  }

  /** A batch that ends at the budget, or with what is due, is the recorder's batch. */
  lemma SameBatch(fs: seq<R.Frame>, limit: nat, budget: nat, k: nat)
    requires k <= limit <= |fs|
    requires k < limit ==> R.Size(fs[..k]) >= budget
    requires k > 0 ==> R.Size(fs[..k - 1]) < budget
    ensures k == R.Shipped(fs, limit, budget)
  {
    hide R.Size, R.ShipFrom;
    var s := R.Shipped(fs, limit, budget);
    if s < k {
      SizeGrows(fs, s, k - 1);
    } else if k < s {
      SizeGrows(fs, k, s - 1);
    }
  }

  /** The fewest evictions that make room are the recorder's. */
  lemma SameEvictions(fs: seq<R.Frame>, room: int, j: nat, k: nat)
    requires j <= |fs| && k <= |fs|
    requires R.Size(fs[j..]) <= room && (j > 0 ==> R.Size(fs[j - 1..]) > room)
    requires R.Size(fs[k..]) <= room && (k > 0 ==> R.Size(fs[k - 1..]) > room)
    ensures j == k
  {
    hide R.Size;
    if j < k {
      SizeGrows(fs, j, k - 1);
    } else if k < j {
      SizeGrows(fs, k, j - 1);
    }
  }

  /** The frozen head is on the boundary after the frozen window, or behind the tail once that is gone. */
  ghost predicate OnBoundary(frozenHead: nat, tail: nat, rs: seq<B.Record>, window: nat)
    requires window <= |rs|
  {
    if window > 0 then frozenHead == tail + |Framed(rs[..window])| else frozenHead <= tail
  }

  /** After the first `k` records have gone. */
  lemma BoundaryAfter(frozenHead: nat, tail: nat, rs: seq<B.Record>, window: nat, k: nat, more: seq<B.Record>)
    requires window <= |rs| && k <= |rs| && OnBoundary(frozenHead, tail, rs, window)
    ensures var left := if window > k then window - k else 0;
            OnBoundary(frozenHead, tail + |Framed(rs[..k])|, rs[k..] + more, left)
  {
    if window > k {
      FramedAppend(rs[..k], rs[k..window]);
      assert rs[..k] + rs[k..window] == rs[..window];
      assert (rs[k..] + more)[..window - k] == rs[k..window];
    } else if window > 0 {
      FramedAppend(rs[..window], rs[window..k]);
      assert rs[..window] + rs[window..k] == rs[..k];
    }
  }

  /** So `drain_window` stops at the budget or with the window, and nowhere else. */
  lemma SameWindow(frozenHead: nat, tail: nat, rs: seq<B.Record>, fs: seq<R.Frame>, window: nat, budget: nat, k: nat)
    requires Abstracts(rs, fs) && window <= |rs| && k <= |rs| && OnBoundary(frozenHead, tail, rs, window)
    requires k > 0 ==> tail + |Framed(rs[..k])| <= frozenHead && |Framed(rs[..k - 1])| < budget
    requires k < |rs| ==> |Framed(rs[..k])| >= budget || tail + |Framed(rs[..k])| + |B.Frame(rs[k])| > frozenHead
    ensures k == R.Shipped(fs, window, budget)
    ensures rs[k..] != [] && tail + |Framed(rs[..k])| < frozenHead <==> window - k > 0
  {
    hide B.Frame, Framed, R.Size, R.ShipFrom;
    AbstractsParts(rs, fs, k);
    AbstractsParts(rs, fs, window);
    if k > 0 {
      AbstractsParts(rs, fs, k - 1);
      SizeGrows(fs, 0, k);
      if window < k {
        SizeGrows(fs, window, k);
        assert false;
      }
    }
    if k < window {
      AbstractsParts(rs, fs, k + 1);
      FramedNext(rs, k);
      SizeGrows(fs, k + 1, window);
      SizeGrows(fs, k, window);
    }
    SameBatch(fs, window, budget, k);
  }

  /** Both rings evict the same before they take `record`. */
  lemma SamePush(rs: seq<B.Record>, fs: seq<R.Frame>, record: B.Record, f: R.Frame, capacity: nat, e: nat, k: nat)
    requires Abstracts(rs, fs) && |B.Frame(record)| == f.bytes + 1 && e <= |fs| && k <= |rs|
    requires R.Size(fs[e..] + [f]) <= capacity && (e > 0 ==> R.Size(fs[e - 1..]) + f.bytes + 1 > capacity)
    requires |Framed(rs[k..] + [record])| <= capacity && (k > 0 ==> |Framed(rs[k - 1..])| + |B.Frame(record)| > capacity)
    ensures e == k
  {
    hide Framed, R.Size, B.Frame, Leb;
    R.SizeAppend(fs[e..], f);
    FramedSnoc(rs[k..], record);
    FrameIs(record);
    AbstractsParts(rs, fs, k);
    if k > 0 {
      AbstractsParts(rs, fs, k - 1);
    }
    SameEvictions(fs, capacity - f.bytes - 1, e, k);
  }

  lemma FrameIs(r: B.Record)
    ensures B.Frame(r) == Leb(|r|) + r && |B.Frame(r)| > 0
  {
    FrameNotEmpty([r]);
  }

  lemma OneAbstracts(r: B.Record, f: R.Frame)
    requires |B.Frame(r)| == f.bytes + 1
    ensures Abstracts([r], [f]) && Abstracts([], [])
  {
  }

  lemma TailAfter(rs: seq<B.Record>, k: nat, more: seq<B.Record>)
    requires k <= |rs|
    ensures |Framed(rs[..k])| + |Framed(rs[k..] + more)| == |Framed(rs)| + |Framed(more)|
  {
    FramedAppend(rs[k..], more);
    FramedAppend(rs[..k], rs[k..]);
    assert rs[..k] + rs[k..] == rs;
  }

  lemma SizedParts(rs: seq<B.Record>, qs: seq<B.Record>, k: nat)
    requires Sized(rs) && Sized(qs) && k <= |qs|
    ensures Sized(rs + qs[..k])
  {
  }

  /** `drain` stops at the budget, or with the ring. */
  lemma DrainedAll(rs: seq<B.Record>, fs: seq<R.Frame>, budget: nat, k: nat)
    requires Abstracts(rs, fs) && k <= |rs|
    requires k < |rs| ==> |Framed(rs[..k])| >= budget
    requires k > 0 ==> |Framed(rs[..k - 1])| < budget
    ensures k == R.Shipped(fs, |fs|, budget)
  {
    hide B.Frame, Framed, R.Size, R.Shipped, R.ShipFrom;
    AbstractsParts(rs, fs, k);
    if k > 0 {
      AbstractsParts(rs, fs, k - 1);
    }
    SameBatch(fs, |fs|, budget, k);
  }

  /** The rings, the sinks and everything taken are alike; a continuous recording loses nothing it took. */
  ghost predicate Like(rs: seq<B.Record>, fs: seq<R.Frame>, shipped: seq<B.Record>, sink: seq<R.Frame>,
                       taken: seq<B.Record>, admitted: seq<R.Frame>, out: Bytes, continuous: bool) {
    && Abstracts(rs, fs) && Abstracts(shipped, sink) && Abstracts(taken, admitted)
    && Sized(shipped) && out == Framed(shipped)
    && (continuous ==> taken == shipped + rs)
  }

  lemma LikePush(rs: seq<B.Record>, fs: seq<R.Frame>, shipped: seq<B.Record>, sink: seq<R.Frame>,
                 taken: seq<B.Record>, admitted: seq<R.Frame>, out: Bytes, continuous: bool,
                 k: nat, more: seq<B.Record>, moreFrames: seq<R.Frame>)
    requires Like(rs, fs, shipped, sink, taken, admitted, out, continuous) && Abstracts(more, moreFrames)
    requires k <= |rs| && (continuous ==> k == 0)
    ensures |fs| == |rs|
    ensures Like(rs[k..] + more, fs[k..] + moreFrames, shipped, sink, taken + more, admitted + moreFrames, out, continuous)
  {
    hide Framed, B.Frame, Sized;
    AbstractsJoin(rs[k..], fs[k..], more, moreFrames);
    AbstractsJoin(taken, admitted, more, moreFrames);
    assert shipped + rs + more == shipped + (rs[0..] + more);
  }

  lemma LikeShip(rs: seq<B.Record>, fs: seq<R.Frame>, shipped: seq<B.Record>, sink: seq<R.Frame>,
                 taken: seq<B.Record>, admitted: seq<R.Frame>, out: Bytes, continuous: bool, k: nat)
    requires Like(rs, fs, shipped, sink, taken, admitted, out, continuous) && k <= |rs| && Sized(rs)
    ensures |fs| == |rs|
    ensures Like(rs[k..], fs[k..], shipped + rs[..k], sink + fs[..k], taken, admitted, out + Framed(rs[..k]), continuous)
  {
    hide Framed, B.Frame, Sized;
    FramedAppend(shipped, rs[..k]);
    SizedParts(shipped, rs, k);
    AbstractsJoin(shipped, sink, rs[..k], fs[..k]);
    assert shipped + rs[..k] + rs[k..] == shipped + rs;
  }

  /** The records of `rs` that a ring holding `used` bytes takes. */
  ghost function Fitting(evicting: bool, capacity: nat, used: nat, rs: seq<B.Record>): seq<B.Record> {
    if rs == [] then []
    else
      var (front, r) := (Fitting(evicting, capacity, used, rs[..|rs| - 1]), rs[|rs| - 1]);
      if |B.Frame(r)| <= capacity && (evicting || used + |Framed(front)| + |B.Frame(r)| <= capacity) then front + [r] else front
  }

  class Twin {
    const block: R.Block
    const ring: B.Ring
    /** `m_frozen_head`. */
    var frozenHead: nat
    /** What the sink was given. */
    var out: Bytes
    /** The records it was given, and all that the ring took. */
    ghost var shipped: seq<B.Record>
    ghost var taken: seq<B.Record>

    ghost predicate Alike()
      reads this, block, ring
    {
      Like(ring.records, block.ring, shipped, block.sink, taken, block.admitted, out, block.mode.Continuous?)
    }

    /** The two rings hold the same, and so do the two sinks. */
    ghost predicate InStep()
      reads this, block, ring, ring.store
    {
      && block.Conserved() && ring.Valid()
      && block.capacity == ring.store.Length && (ring.evicting <==> block.mode.PreBuffer?)
      && Alike()
      && (block.frozen ==> OnBoundary(frozenHead, ring.tail, ring.records, block.window))
    }

    ghost predicate Valid()
      reads this, block, ring, ring.store
    {
      InStep() && block.Valid()
    }

    constructor (mode: R.Mode, capacity: nat, batch: nat)
      ensures Valid() && block.alive && out == [] && taken == [] && fresh(block) && fresh(ring) && fresh(ring.store)
      ensures block.mode == mode && block.batch == batch && ring.store.Length == capacity
    {
      block := new R.Block(mode, capacity, batch);
      ring := new B.Ring(capacity, mode.PreBuffer?);
      frozenHead, out, shipped, taken := 0, [], [], [];
    }

    lemma Positions()
      requires ring.Valid()
      ensures ring.head == ring.tail + |Framed(ring.records)|
    {
    }

    /** `try_push` takes the record on the bytes exactly if the recorder takes its frame, and evicts the same
        records for it. */
    method Push(record: B.Record, id: nat) returns (ok: bool)
      requires InStep() && |record| < 0x1_0000_0000_0000_0000
      modifies this`taken, ring, ring.store, block`ring, block`window, block`admitted, block`departed, block`marks
      ensures InStep() && (ok <==> old(block.Admits(R.Frame(|B.Frame(record)| - 1, id))))
      ensures ok <==>
                && |B.Frame(record)| <= ring.store.Length
                && (ring.evicting || |Framed(old(ring.records))| + |B.Frame(record)| <= ring.store.Length)
      ensures taken == old(taken) + if ok then [record] else []
      ensures !ring.evicting ==> ring.records == old(ring.records) + if ok then [record] else []
    {
      hide R.Block.Conserved, B.Ring.Valid, Framed, B.Frame, R.Size, Abstracts, OnBoundary, Sized, Like;
      FrameIs(record);
      WithinCapacity();
      Positions();
      var f := R.Frame(|B.Frame(record)| - 1, id);
      ghost var rs, fs := ring.records, block.ring;
      SameLength();
      SameSize(rs, fs);
      ghost var evicted := block.TryPush(f);
      ghost var k;
      ok, k := ring.TryPush(record);
      Positions();
      WithinCapacity();
      ghost var more, moreFrames := if ok then [record] else [], if ok then [f] else [];
      if ok {
        SamePush(rs, fs, record, f, block.capacity, evicted, k);
      }
      OneAbstracts(record, f);
      LikePush(rs, fs, shipped, block.sink, taken, old(block.admitted), out, block.mode.Continuous?, k, more, moreFrames);
      taken := taken + more;
      FramedOne(record);
      FrameNotEmpty([]);
      TailAfter(rs, k, more);
      if block.frozen {
        BoundaryAfter(frozenHead, old(ring.tail), rs, old(block.window), k, more);
      }
    }

    lemma WithinCapacity()
      requires block.Conserved() && ring.Valid()
      ensures R.Size(block.ring) <= block.capacity && block.window <= |block.ring|
      ensures |Framed(ring.records)| <= ring.store.Length && Sized(ring.records)
    {
    }

    /** `trigger`: the frozen head is the head. */
    method Freeze()
      requires InStep() && block.mode.PreBuffer?
      modifies this`frozenHead, block`frozen, block`window
      ensures InStep() && block.frozen && block.window == |block.ring|
    {
      hide B.Ring.Valid, Framed, B.Frame, R.Size, R.Pick, Sized;
      Positions();
      assert ring.records[..|ring.records|] == ring.records;
      FrameNotEmpty(ring.records);
      block.frozen, block.window := true, |block.ring|;
      frozenHead := ring.head;
    }

    /** `trigger` by hand: nothing in continuous mode. */
    method Trigger()
      requires Valid() && block.alive
      modifies this`frozenHead, block`frozen, block`window, block`armed, block`tasks
      ensures Valid() && (block.mode.PreBuffer? ==> block.frozen && block.window == |block.ring| && block.armed)
    {
      hide InStep;
      if block.mode.PreBuffer? {
        Freeze();
        StillConserved();
        Kicked();
      }
    }

    /** `record`, on the bytes: one or more records are offered, and the drain is kicked. */
    method Record(records: seq<B.Record>, anomaly: bool)
      requires Valid() && block.alive && Sized(records)
      modifies this, ring, ring.store, block
      ensures Valid() && block.alive && block.armed && out == old(out)
      ensures taken == old(taken) + Fitting(ring.evicting, ring.store.Length, |Framed(old(ring.records))|, records)
      ensures block.mode.PreBuffer? && anomaly ==> block.frozen && block.window == |block.ring|
    {
      hide InStep, Framed, Fitting;
      Offer(records);
      StillConserved();
      if block.mode.PreBuffer? && anomaly {
        Freeze();
        StillConserved();
      }
      Kicked();
    }

    method Offer(records: seq<B.Record>)
      requires InStep() && Sized(records)
      modifies this`taken, ring, ring.store, block`ring, block`window, block`admitted, block`departed, block`marks
      ensures InStep()
      ensures taken == old(taken) + Fitting(ring.evicting, ring.store.Length, |Framed(old(ring.records))|, records)
    {
      hide InStep, Framed, B.Frame, R.Block.Admits;
      ghost var used := |Framed(ring.records)|;
      for i := 0 to |records|
        invariant InStep() && taken == old(taken) + Fitting(ring.evicting, ring.store.Length, used, records[..i])
        invariant !ring.evicting ==> ring.records == old(ring.records) + Fitting(false, ring.store.Length, used, records[..i])
      {
        assert records[..i + 1][..i] == records[..i];
        FramedAppend(old(ring.records), Fitting(false, ring.store.Length, used, records[..i]));
        var _ := Push(records[i], i);
      }
      assert records[..|records|] == records;
    }

    lemma SameLength()
      requires Alike()
      ensures |ring.records| == |block.ring| && Abstracts(ring.records, block.ring)
    {
    }

    lemma StillConserved()
      requires InStep()
      ensures block.Conserved()
    {
    }

    method Kicked()
      requires InStep() && block.Conserved()
      requires block.alive && block.draining && block.tasks == (if block.armed then 1 else 0)
      modifies block`armed, block`tasks
      ensures Valid() && block.armed
    {
      hide B.Ring.Valid, Like, OnBoundary, R.Size, R.Pick;
      block.Kick();
    }

    /** The byte ring's part of a pump. */
    method Drained() returns (o: Bytes, more: bool, ghost k: nat)
      requires InStep()
      modifies ring`tail, ring`records
      ensures ring.Valid() && k == R.Shipped(block.ring, block.Due(), block.batch) <= |old(ring.records)|
      ensures ring.records == old(ring.records)[k..] && o == Framed(old(ring.records)[..k])
      ensures more == (block.Due() > k)
      ensures block.frozen ==>
                k <= block.window && OnBoundary(frozenHead, ring.tail, ring.records, block.window - k)
    {
      hide B.Ring.Valid, Framed, B.Frame, R.Size, R.Pick, OnBoundary, R.ShipFrom, Sized;
      SameLength();
      hide Like;
      ghost var rs, tail := ring.records, ring.tail;
      WithinCapacity();
      FrameNotEmpty([]);
      if block.mode.Continuous? {
        o, more, k := ring.Drain(block.batch);
        DrainedAll(rs, block.ring, block.batch, k);
      } else if block.frozen {
        o, more, k := ring.DrainWindow(frozenHead, block.batch);
        SameWindow(frozenHead, tail, rs, block.ring, block.window, block.batch, k);
        BoundaryAfter(frozenHead, tail, rs, block.window, k, []);
        assert rs[k..] + [] == rs[k..];
      } else {
        o, more, k := [], false, 0;
        assert rs[..0] == [] && rs[0..] == rs;
      }
    }

    /** `pump`: the bytes that go out are the frames of the recorder's batch, and both say the same about what
        is left. As the frozen head is on a boundary, a positive budget always gets somewhere. */
    method Pump() returns (more: bool)
      requires Valid()
      modifies this`out, this`shipped, ring`tail, ring`records, block`ring, block`window, block`frozen, block`sink, block`departed, block`marks
      ensures Valid() && more == (block.Due() > 0) && old(out) <= out
      ensures var k := R.Shipped(old(block.ring), old(block.Due()), block.batch);
              k <= |old(ring.records)| && shipped == old(shipped) + old(ring.records)[..k] && ring.records == old(ring.records)[k..]
      ensures block.Due() == old(block.Due()) - R.Shipped(old(block.ring), old(block.Due()), block.batch)
      ensures block.batch > 0 && old(block.Due()) > 0 ==> block.Due() < old(block.Due())
    {
      hide B.Ring.Valid, Framed, B.Frame, R.Size, R.Pick, Like, OnBoundary, R.Shipped, Sized;
      ghost var rs, fs, due := ring.records, block.ring, block.Due();
      WithinCapacity();
      SameLength();
      R.ShipsIff(fs, due, block.batch);
      var o;
      ghost var k;
      o, more, k := Drained();
      LikeShip(rs, fs, shipped, block.sink, taken, block.admitted, out, block.mode.Continuous?, k);
      var same := block.Pump();
      out, shipped := out + o, shipped + rs[..k];
    }

    /** The destructor's loop, cut off after `rounds` pumps if it has not ended by then. */
    method DrainFor(rounds: nat) returns (ended: bool)
      requires Valid()
      modifies this`out, this`shipped, ring`tail, ring`records, block`ring, block`window, block`frozen, block`sink, block`departed, block`marks
      ensures Valid() && (ended ==> block.Due() == 0)
      ensures block.batch > 0 && rounds > ring.store.Length ==> ended
    {
      hide Valid, InStep, R.Shipped;
      DueInBytes();
      ended := false;
      var i := 0;
      while !ended && i < rounds
        invariant Valid() && i <= rounds && (ended ==> block.Due() == 0)
        invariant i == 0 ==> block.Due() == old(block.Due())
        invariant !ended && block.batch > 0 && i > 0 ==> 0 < block.Due() <= old(block.Due()) - i
        decreases rounds - i
      {
        var more := Pump();
        i, ended := i + 1, !more;
      }
    }

    lemma DueInBytes()
      requires Valid()
      ensures block.Due() <= ring.store.Length
    {
      hide B.Ring.Valid, Like, OnBoundary, R.Pick;
      R.FramesInSize(block.ring);
    }

    /** The bytes in the sink are the framing of the records shipped and of no others; a continuous recording
        with nothing due has shipped all that the ring took. */
    lemma Recorded()
      requires Valid()
      ensures out == Framed(shipped)
      ensures forall qs :: Sized(qs) && Framed(qs) == out ==> qs == shipped
      ensures block.mode.Continuous? && block.Due() == 0 ==> shipped == taken
    {
      hide R.Block.Conserved, B.Ring.Valid, Framed, B.Frame, Abstracts, OnBoundary;
      forall qs | Sized(qs) && Framed(qs) == out ensures qs == shipped {
        FramedUnique(qs, shipped);
      }
      SameLength();
    }
  }

  datatype Event = Offered(records: seq<B.Record>, anomaly: bool) | Frozen | Pumped

  /** Any mix of records, triggers and pumps, then the destructor's loop, on the bytes: the two rings stay in
      step, and the sink's bytes are the framing of the records shipped and of no others, in a continuous
      recording that ends of all the records taken. */
  method Run(mode: R.Mode, capacity: nat, batch: nat, events: seq<Event>, rounds: nat)
    returns (t: Twin, ended: bool)
    requires forall e :: e in events && e.Offered? ==> Sized(e.records)
    ensures fresh(t) && t.Valid() && t.block.mode == mode && t.block.batch == batch
    ensures t.out == Framed(t.shipped) && forall qs :: Sized(qs) && Framed(qs) == t.out ==> qs == t.shipped
    ensures batch > 0 && rounds > capacity ==> ended
    ensures ended && mode.Continuous? ==> t.shipped == t.taken && t.out == Framed(t.taken)
  {
    t := new Twin(mode, capacity, batch);
    hide Twin.Valid, Twin.InStep, Framed, R.Shipped;
    for i := 0 to |events|
      invariant fresh(t) && fresh(t.block) && fresh(t.ring) && fresh(t.ring.store)
      invariant t.Valid() && t.block.alive && t.ring.store.Length == capacity
    {
      assert events[i] in events;
      match events[i]
      case Offered(records, anomaly) => t.Record(records, anomaly);
      case Frozen => t.Trigger();
      case Pumped => var _ := t.Pump();
    }
    ended := t.DrainFor(rounds);
    t.Recorded();
  }
}
