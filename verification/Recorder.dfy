/** The recorder's drain: a task that re-posts itself while records remain, armed again by the next
    record once it has gone quiet. */
module Recorder {

  /** `Continuous` drains every record and drops the newest on overflow; `PreBuffer` keeps the newest
      and drains only a frozen window of them. */
  datatype Mode = Continuous | PreBuffer

  /** A framed record of `bytes + 1` bytes: with its length prefix a frame is never empty. */
  datatype Frame = Frame(bytes: nat, id: nat)

  function Size(fs: seq<Frame>): nat {
    if fs == [] then 0 else Size(fs[..|fs| - 1]) + fs[|fs| - 1].bytes + 1
  }

  lemma {:induction false} SizeDrop(fs: seq<Frame>, k: nat)
    requires k <= |fs|
    ensures Size(fs[k..]) <= Size(fs)
  {
    if k < |fs| {
      assert fs[k..][..|fs| - k - 1] == fs[..|fs| - 1][k..];
      SizeDrop(fs[..|fs| - 1], k);
    } else {
      assert fs[k..] == [];
    }
  }

  lemma SizeAppend(fs: seq<Frame>, f: Frame)
    ensures Size(fs + [f]) == Size(fs) + f.bytes + 1
  {
    assert (fs + [f])[..|fs|] == fs;
  }

  lemma {:induction false} SizeConcat(fs: seq<Frame>, gs: seq<Frame>)
    ensures Size(fs + gs) == Size(fs) + Size(gs)
  {
    if gs == [] {
      assert fs + gs == fs;
    } else {
      assert (fs + gs)[..|fs + gs| - 1] == fs + gs[..|gs| - 1];
      SizeConcat(fs, gs[..|gs| - 1]);
    }
  }

  lemma {:induction false} FramesInSize(fs: seq<Frame>)
    ensures |fs| <= Size(fs)
  {
    if fs != [] {
      FramesInSize(fs[..|fs| - 1]);
    }
  }

  /** The frames of `fs` that a ring holding `used` bytes takes: those that fit it whole, and without
      eviction those that fit beside what it holds. */
  ghost function Accepted(mode: Mode, capacity: nat, used: nat, fs: seq<Frame>): seq<Frame> {
    if fs == [] then []
    else
      var (front, f) := (Accepted(mode, capacity, used, fs[..|fs| - 1]), fs[|fs| - 1]);
      if f.bytes + 1 <= capacity && (mode.PreBuffer? || used + Size(front) + f.bytes + 1 <= capacity) then front + [f] else front
  }

  /** How many of the first `limit` frames one batch ships: frames go out whole until the budget is
      reached, and the last may overshoot it. */
  function Shipped(fs: seq<Frame>, limit: nat, budget: nat): (k: nat)
    requires limit <= |fs|
    ensures k <= limit
    ensures k < limit ==> Size(fs[..k]) >= budget
    ensures k > 0 ==> Size(fs[..k - 1]) < budget
  {
    ShipFrom(fs, limit, budget, 0)
  }

  function ShipFrom(fs: seq<Frame>, limit: nat, budget: nat, from: nat): (k: nat)
    requires from <= limit <= |fs|
    requires from > 0 ==> Size(fs[..from - 1]) < budget
    ensures from <= k <= limit
    ensures k < limit ==> Size(fs[..k]) >= budget
    ensures k > 0 ==> Size(fs[..k - 1]) < budget
    decreases limit - from
  {
    if from == limit || Size(fs[..from]) >= budget then from else ShipFrom(fs, limit, budget, from + 1)
  }

  /** A batch makes progress if and only if its budget is positive or there is nothing to ship. */
  lemma ShipsIff(fs: seq<Frame>, limit: nat, budget: nat)
    requires limit <= |fs|
    ensures Shipped(fs, limit, budget) > 0 <==> limit > 0 && budget > 0
  {
    assert fs[..0] == [];
  }

  /** What is due after `n` pumps in a row. */
  ghost function DueAfter(fs: seq<Frame>, due: nat, budget: nat, n: nat): nat
    requires due <= |fs|
    decreases n
  {
    if n == 0 then due
    else
      var k := Shipped(fs, due, budget);
      DueAfter(fs[k..], due - k, budget, n - 1)
  }

  /** Pumping goes on for ever if and only if something is due and the budget is zero; otherwise as many
      pumps as there are frames due, and one to find that out, are enough. */
  lemma NeverEndsIff(fs: seq<Frame>, due: nat, budget: nat)
    requires due <= |fs|
    ensures (forall n: nat :: DueAfter(fs, due, budget, n) > 0) <==> due > 0 && budget == 0
    ensures budget > 0 ==> forall n: nat :: n >= due ==> DueAfter(fs, due, budget, n) == 0
  {
    forall n: nat
      ensures budget == 0 ==> DueAfter(fs, due, budget, n) == due
      ensures budget > 0 ==> DueAfter(fs, due, budget, n) <= if n < due then due - n else 0
    {
      DueFalls(fs, due, budget, n);
    }
    assert budget > 0 ==> DueAfter(fs, due, budget, due) == 0;
    assert DueAfter(fs, due, budget, 0) == due;
  }

  lemma {:induction false} DueFalls(fs: seq<Frame>, due: nat, budget: nat, n: nat)
    requires due <= |fs|
    ensures budget == 0 ==> DueAfter(fs, due, budget, n) == due
    ensures budget > 0 ==> DueAfter(fs, due, budget, n) <= if n < due then due - n else 0
    decreases n
  {
    if n > 0 {
      var k := Shipped(fs, due, budget);
      ShipsIff(fs, due, budget);
      DueFalls(fs[k..], due - k, budget, n - 1);
    }
  }

  lemma NothingDue(fs: seq<Frame>, budget: nat, n: nat)
    ensures DueAfter(fs, 0, budget, n) == 0
    decreases n
  {
    if n > 0 {
      NothingDue(fs, budget, n - 1);
      assert fs[0..] == fs;
    }
  }

  /** The frames marked as shipped. */
  ghost function Pick(fs: seq<Frame>, marks: seq<bool>): seq<Frame>
    requires |fs| == |marks|
  {
    if fs == [] then []
    else Pick(fs[..|fs| - 1], marks[..|fs| - 1]) + if marks[|fs| - 1] then [fs[|fs| - 1]] else []
  }

  ghost function All(n: nat, mark: bool): (m: seq<bool>)
    ensures |m| == n
  {
    seq(n, _ => mark)
  }

  lemma {:induction false} PickMore(fs: seq<Frame>, marks: seq<bool>, gs: seq<Frame>, mark: bool)
    requires |fs| == |marks|
    ensures Pick(fs + gs, marks + All(|gs|, mark)) == Pick(fs, marks) + if mark then gs else []
  {
    if gs == [] {
      assert fs + gs == fs && marks + All(0, mark) == marks;
    } else {
      var n := |gs| - 1;
      PickMore(fs, marks, gs[..n], mark);
      assert (fs + gs)[..|fs| + n] == fs + gs[..n];
      assert (marks + All(n + 1, mark))[..|fs| + n] == marks + All(n, mark);
      assert gs == gs[..n] + [gs[n]];
    }
  }

  class Block {
    const mode: Mode
    const capacity: nat
    const batch: nat
    var ring: seq<Frame>
    /** In pre-buffer mode: whether a window is frozen, and how many of its frames are still here. */
    var frozen: bool
    var window: nat
    var draining: bool
    var armed: bool
    var alive: bool
    /** The drain tasks waiting on the executor. */
    var tasks: nat
    var sink: seq<Frame>
    /** Every frame the ring ever took; those that have left it, in order; and which of them went to
        the sink rather than being evicted. */
    ghost var admitted: seq<Frame>
    ghost var departed: seq<Frame>
    ghost var marks: seq<bool>

    /** How many frames a pump may ship. */
    function Due(): (n: nat)
      reads this
    {
      if mode.Continuous? then |ring| else if frozen && window <= |ring| then window else 0
    }

    /** Every frame is in the ring, in the sink or evicted, in the order it was taken; a continuous
        recording evicts none. */
    ghost predicate Conserved()
      reads this
    {
      && window <= |ring| && |marks| == |departed| && Size(ring) <= capacity
      && admitted == departed + ring && sink == Pick(departed, marks)
      && (mode.Continuous? ==> !frozen && window == 0 && sink == departed)
    }

    /** While the recorder lives: there is a drain task if and only if it is armed, never two, and work
        to ship implies it is armed. */
    ghost predicate Valid()
      reads this
    {
      && Conserved()
      && tasks <= 1
      && (alive ==> draining && tasks == (if armed then 1 else 0))
      && (alive && (frozen || (mode.Continuous? && ring != [])) ==> armed)
      && (!alive ==> !draining)
    }

    constructor (mode: Mode, capacity: nat, batch: nat)
      ensures Valid() && alive && admitted == [] && sink == [] && tasks == 0
      ensures this.mode == mode && this.capacity == capacity && this.batch == batch
    {
      this.mode, this.capacity, this.batch := mode, capacity, batch;
      ring, frozen, window, sink := [], false, 0, [];
      admitted, departed, marks := [], [], [];
      draining, armed, alive, tasks := true, false, true, 0;
    }

    ghost predicate Admits(f: Frame)
      reads this
    {
      f.bytes + 1 <= capacity && (mode.PreBuffer? || Size(ring) + f.bytes + 1 <= capacity)
    }

    /** `try_push`: refuse what does not fit, or evict the oldest until it does, and no more. */
    method TryPush(f: Frame) returns (ghost evicted: nat)
      requires Conserved()
      modifies this`ring, this`window, this`admitted, this`departed, this`marks
      ensures Conserved() && evicted <= |old(ring)|
      ensures admitted == old(admitted) + if old(Admits(f)) then [f] else []
      ensures ring == old(ring)[evicted..] + if old(Admits(f)) then [f] else []
      ensures evicted > 0 ==> mode.PreBuffer? && old(Admits(f)) && Size(old(ring)[evicted - 1..]) + f.bytes + 1 > capacity
      ensures window == if old(window) > evicted then old(window) - evicted else 0
    {
      evicted := 0;
      assert ring[0..] == ring;
      if f.bytes + 1 > capacity {
        return;
      }
      if mode.PreBuffer? {
        evicted := EvictUntil(f.bytes + 1);
      } else if Size(ring) + f.bytes + 1 > capacity {
        return;
      }
      Append(f);
    }

    method Append(f: Frame)
      requires Conserved() && Size(ring) + f.bytes + 1 <= capacity
      modifies this`ring, this`admitted
      ensures Conserved() && ring == old(ring) + [f] && admitted == old(admitted) + [f]
    {
      SizeAppend(ring, f);
      assert departed + (ring + [f]) == departed + ring + [f];
      ring, admitted := ring + [f], admitted + [f];
    }

    /** `evict_until`: whole frames go, oldest first, until `need` bytes are free. */
    method EvictUntil(need: nat) returns (ghost evicted: nat)
      requires Conserved() && mode.PreBuffer? && need <= capacity
      modifies this`ring, this`window, this`departed, this`marks
      ensures Conserved() && Size(ring) + need <= capacity
      ensures evicted <= |old(ring)| && ring == old(ring)[evicted..]
      ensures evicted > 0 ==> Size(old(ring)[evicted - 1..]) + need > capacity
      ensures window == if old(window) > evicted then old(window) - evicted else 0
    {
      hide Pick;
      evicted := 0;
      while Size(ring) + need > capacity
        invariant Conserved()
        invariant evicted <= |old(ring)| && ring == old(ring)[evicted..]
        invariant evicted > 0 ==> Size(old(ring)[evicted - 1..]) + need > capacity
        invariant window == if old(window) > evicted then old(window) - evicted else 0
        decreases |ring|
      {
        Evict();
        evicted := evicted + 1;
      }
    }

    /** The oldest frame is dropped, also from a frozen window. */
    method Evict()
      requires Conserved() && mode.PreBuffer? && ring != []
      modifies this`ring, this`window, this`departed, this`marks
      ensures Conserved() && ring == old(ring)[1..] && window == if old(window) > 0 then old(window) - 1 else 0
    {
      PickMore(departed, marks, ring[..1], false);
      SizeDrop(ring, 1);
      assert departed + ring[..1] + ring[1..] == departed + ring;
      departed, marks := departed + ring[..1], marks + All(1, false);
      ring, window := ring[1..], if window > 0 then window - 1 else 0;
    }

    method Kick()
      requires draining && tasks == (if armed then 1 else 0)
      modifies this`armed, this`tasks
      ensures armed && tasks == 1
    {
      if !armed {
        armed := true;
        tasks := tasks + 1;
      }
    }

    /** `record`: one or more frames are offered to the ring, then the drain is kicked. In pre-buffer
        mode the anomaly predicate may freeze the window. */
    method Record(frames: seq<Frame>, anomaly: bool)
      requires Valid() && alive
      modifies this`ring, this`window, this`admitted, this`departed, this`marks, this`frozen, this`armed, this`tasks
      ensures Valid() && armed
      ensures admitted == old(admitted) + Accepted(mode, capacity, Size(old(ring)), frames)
      ensures mode.Continuous? ==> ring == old(ring) + Accepted(mode, capacity, Size(old(ring)), frames)
      ensures mode.PreBuffer? && anomaly ==> frozen && window == |ring|
    {
      Offer(frames);
      if mode.PreBuffer? && anomaly {
        frozen, window := true, |ring|;
      }
      Kick();
    }

    method Offer(frames: seq<Frame>)
      requires Conserved()
      modifies this`ring, this`window, this`admitted, this`departed, this`marks
      ensures Conserved() && admitted == old(admitted) + Accepted(mode, capacity, Size(old(ring)), frames)
      ensures mode.Continuous? ==> ring == old(ring) + Accepted(mode, capacity, Size(old(ring)), frames)
    {
      hide Conserved, Size;
      ghost var used := Size(ring);
      for i := 0 to |frames|
        invariant Conserved() && admitted == old(admitted) + Accepted(mode, capacity, used, frames[..i])
        invariant mode.Continuous? ==> ring == old(ring) + Accepted(mode, capacity, used, frames[..i])
      {
        assert frames[..i + 1][..i] == frames[..i];
        SizeConcat(old(ring), Accepted(mode, capacity, used, frames[..i]));
        var _ := TryPush(frames[i]);
      }
      assert frames[..|frames|] == frames;
    }

    /** `trigger`: freezes the held window; nothing in continuous mode. */
    method Trigger()
      requires Valid() && alive
      modifies this`window, this`frozen, this`armed, this`tasks
      ensures Valid() && (mode.PreBuffer? ==> frozen && window == |ring| && armed)
    {
      if mode.PreBuffer? {
        frozen, window := true, |ring|;
        Kick();
      }
    }

    /** `pump`: one bounded batch from the front goes to the sink; says whether work remains. */
    method Pump() returns (more: bool)
      requires Valid()
      modifies this`ring, this`window, this`frozen, this`sink, this`departed, this`marks
      ensures Valid() && more == (Due() > 0)
      ensures var k := Shipped(old(ring), old(Due()), batch);
              sink == old(sink) + old(ring)[..k] && ring == old(ring)[k..] && Due() == old(Due()) - k
      ensures frozen <==> old(frozen) && more
    {
      var k := Shipped(ring, Due(), batch);
      Ship(k);
      if mode.PreBuffer? && frozen {
        frozen := window > 0;
      }
      more := Due() > 0;
    }

    /** The first `k` frames go out to the sink. */
    method Ship(k: nat)
      requires Conserved() && k <= Due()
      modifies this`ring, this`window, this`sink, this`departed, this`marks
      ensures Conserved() && sink == old(sink) + old(ring)[..k] && ring == old(ring)[k..]
      ensures window == if mode.PreBuffer? && frozen then old(window) - k else old(window)
    {
      PickMore(departed, marks, ring[..k], true);
      SizeDrop(ring, k);
      assert departed + ring[..k] + ring[k..] == departed + ring;
      departed, marks := departed + ring[..k], marks + All(k, true);
      sink, ring := sink + ring[..k], ring[k..];
      if mode.PreBuffer? && frozen {
        window := window - k;
      }
    }

    /** The posted drain task: ships a batch and re-posts itself, or goes quiet. */
    method RunTask()
      requires Valid() && tasks > 0
      modifies this`ring, this`window, this`frozen, this`sink, this`departed, this`marks, this`armed, this`tasks
      ensures Valid() && (alive ==> tasks == if Due() > 0 then 1 else 0) && (!alive ==> tasks == 0)
      ensures var k := if alive then Shipped(old(ring), old(Due()), batch) else 0;
              sink == old(sink) + old(ring)[..k] && ring == old(ring)[k..]
      ensures Due() == old(Due()) - if alive then Shipped(old(ring), old(Due()), batch) else 0
    {
      if !alive || !draining {
        tasks := tasks - 1;
        return;
      }
      var more := Pump();
      if !more {
        tasks, armed := tasks - 1, false;
      }
    }

    /** Left alone, the executor drains a live recorder in finitely many turns, if the batch budget is
        positive. */
    method DrainQuiet()
      requires Valid() && alive && batch > 0
      modifies this`ring, this`window, this`frozen, this`sink, this`departed, this`marks, this`armed, this`tasks
      ensures Valid() && tasks == 0 && Due() == 0
      ensures mode.Continuous? ==> ring == [] && sink == admitted
    {
      while tasks > 0
        invariant Valid()
        decreases Due(), tasks
      {
        ShipsIff(ring, Due(), batch);
        RunTask();
      }
    }

    /** `n` turns of a posted drain task of a live recorder: it is posted again after the last exactly if
        something is then due. With a zero budget that is for ever. */
    method Turns(n: nat)
      requires Valid() && alive && armed && n > 0
      modifies this`ring, this`window, this`frozen, this`sink, this`departed, this`marks, this`armed, this`tasks
      ensures Valid() && (tasks == 1 <==> DueAfter(old(ring), old(Due()), batch, n) > 0)
      ensures batch == 0 && old(Due()) > 0 ==> tasks == 1 && Due() == old(Due()) && ring == old(ring) && sink == old(sink)
    {
      hide Pick, Size;
      for i := 0 to n
        invariant Valid() && alive && (i == 0 ==> tasks == 1) && (i > 0 ==> (tasks == 1 <==> Due() > 0))
        invariant DueAfter(old(ring), old(Due()), batch, n) == DueAfter(ring, Due(), batch, n - i)
        invariant batch == 0 && old(Due()) > 0 ==> tasks == 1 && Due() == old(Due()) && ring == old(ring) && sink == old(sink)
      {
        ShipsIff(ring, Due(), batch);
        NothingDue(ring, batch, n - i);
        NothingDue(ring, batch, n - i - 1);
        if tasks > 0 {
          RunTask();
        }
      }
    }

    /** The destructor, its loop cut off after `rounds` pumps if it has not ended by then. */
    method Destroy(rounds: nat) returns (ended: bool)
      requires Valid() && alive
      modifies this
      ensures Valid() && !alive && tasks == old(tasks) && admitted == old(admitted)
      ensures ended <==> rounds > 0 && DueAfter(old(ring), old(Due()), batch, rounds) == 0
      ensures batch == 0 ==> Due() == old(Due())
      ensures ended ==> Due() == 0 && (mode.Continuous? ==> ring == [] && sink == admitted)
    {
      hide Pick, Size;
      draining, alive, ended := false, false, false;
      var i := 0;
      while !ended && i < rounds
        invariant Valid() && !alive && tasks == old(tasks) && admitted == old(admitted) && i <= rounds
        invariant ended ==> i > 0 && Due() == 0
        invariant !ended && i > 0 ==> Due() > 0
        invariant DueAfter(old(ring), old(Due()), batch, rounds) == DueAfter(ring, Due(), batch, rounds - i)
        invariant batch == 0 ==> Due() == old(Due())
        decreases rounds - i
      {
        ShipsIff(ring, Due(), batch);
        var more := Pump();
        i, ended := i + 1, !more;
      }
      NothingDue(ring, batch, rounds - i);
    }
  }

  datatype Event = Records(frames: seq<Frame>, anomaly: bool) | Freeze | ManualPump | Turn

  /** Any mix of records, triggers, manual pumps and executor turns, then destruction, its loop cut off
      after `rounds` pumps, then the turn of a task still posted: the sink holds frames the ring took, each
      once and in order, and in a continuous recording whose destructor ended it holds all of them. With a
      positive batch budget the destructor ends, within as many pumps as the ring has bytes and one; with a
      budget of zero it ends, at the first, exactly if nothing is due. */
  method Run(mode: Mode, capacity: nat, batch: nat, events: seq<Event>, rounds: nat) returns (b: Block, ended: bool)
    ensures fresh(b) && b.Valid() && b.mode == mode && b.batch == batch && !b.alive && b.tasks == 0
    ensures |b.marks| == |b.departed| && b.sink == Pick(b.departed, b.marks) && b.admitted == b.departed + b.ring
    ensures batch > 0 && rounds > capacity ==> ended
    ensures batch == 0 ==> (ended <==> rounds > 0 && b.Due() == 0)
    ensures ended ==> b.Due() == 0 && (mode.Continuous? ==> b.ring == [] && b.sink == b.admitted)
  {
    b := new Block(mode, capacity, batch);
    for i := 0 to |events|
      invariant fresh(b) && b.Valid() && b.alive && b.capacity == capacity
    {
      match events[i]
      case Records(frames, anomaly) => b.Record(frames, anomaly);
      case Freeze => b.Trigger();
      case ManualPump => var _ := b.Pump();
      case Turn => if b.tasks > 0 { b.RunTask(); }
    }
    FramesInSize(b.ring);
    assert b.Due() <= capacity;
    DueFalls(b.ring, b.Due(), batch, rounds);
    ended := b.Destroy(rounds);
    if b.tasks > 0 {
      b.RunTask();
    }
  }
}
