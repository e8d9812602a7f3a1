/** The pipelined request/echo probe of the microcontroller benchmark: a window of tagged slots kept in
    flight over three payload tiers, driven by echoes and by a stall timer, writing a log of lines. */
module WindowedProbe {
  import opened Options

  const TIERS: seq<nat> := [16, 256, 4096]
  const WARMUP: nat := 8
  const SAMPLED: nat := 128
  const MAX_WINDOW: nat := 16
  const STALL: int := 2_000_000
  const DEADLINE: int := 20_000_000

  datatype Slot = Slot(inUse: bool, tag: nat, issued: int)

  /** The lines a run prints. */
  datatype Line =
    | Sample(tier: nat, index: nat, rtt: int)
    | Throughput(tier: nat, completed: nat, elapsed: int)
    | Resource

  // ---- The log a reader may rely on ----

  /** What comes next: sample `samples` or the throughput line of tier number `tier`; past the last
      tier, the resource line. */
  datatype Stage = At(tier: nat, samples: nat) | Finished

  /** The samples a tier has when `count` round trips completed. */
  function Sampled(count: nat): nat {
    if count <= WARMUP then 0 else count - WARMUP
  }

  /** A throughput line closes its tier: in full after 128 samples, or past the deadline with the gross
      count. */
  ghost predicate Closes(samples: nat, completed: nat, elapsed: int) {
    || (samples == completed == SAMPLED && elapsed >= 0)
    || (completed < WARMUP + SAMPLED && samples == Sampled(completed) && elapsed > DEADLINE)
  }

  ghost function Follow(stage: Stage, line: Line): Option<Stage> {
    match (stage, line)
    case (At(t, n), Sample(tier, index, rtt)) =>
      if t < |TIERS| && tier == TIERS[t] && index == n < SAMPLED && rtt >= 0 then Some(At(t, n + 1)) else None
    case (At(t, n), Throughput(tier, completed, elapsed)) =>
      if t < |TIERS| && tier == TIERS[t] && Closes(n, completed, elapsed) then Some(At(t + 1, 0)) else None
    case (At(t, _), Resource) =>
      if t == |TIERS| then Some(Finished) else None
    case (Finished, _) => None
  }

  ghost function Recognise(log: seq<Line>): Option<Stage> {
    if log == [] then Some(At(0, 0))
    else
      var stage :- Recognise(log[..|log| - 1]);
      Follow(stage, log[|log| - 1])
  }

  lemma RecogniseSnoc(log: seq<Line>, line: Line)
    requires Recognise(log).Some?
    ensures Recognise(log + [line]) == Follow(Recognise(log).value, line)
  {
    assert (log + [line])[..|log|] == log;
  }

  ghost function Reports(log: seq<Line>, tier: nat): nat {
    if log == [] then 0
    else Reports(log[..|log| - 1], tier) + if log[|log| - 1].Throughput? && log[|log| - 1].tier == tier then 1 else 0
  }

  /** The sample indices printed for a tier, in order. */
  ghost function Indices(log: seq<Line>, tier: nat): seq<nat> {
    if log == [] then []
    else Indices(log[..|log| - 1], tier)
         + if log[|log| - 1].Sample? && log[|log| - 1].tier == tier then [log[|log| - 1].index] else []
  }

  ghost predicate Counting(s: seq<nat>) {
    forall i :: 0 <= i < |s| ==> s[i] == i
  }

  ghost predicate Past(stage: Stage, t: nat) {
    stage.Finished? || t < stage.tier
  }

  /** What the grammar means: exactly one throughput line for every tier that is over and none for the
      others, and sample indices counting up from 0, at most 128 of them. */
  lemma {:induction false} GrammarMeans(log: seq<Line>, t: nat)
    requires Recognise(log).Some? && t < |TIERS|
    ensures var stage := Recognise(log).value;
            && Reports(log, TIERS[t]) == (if Past(stage, t) then 1 else 0)
            && Counting(Indices(log, TIERS[t])) && |Indices(log, TIERS[t])| <= SAMPLED
            && (stage.At? ==> stage.tier <= |TIERS| && stage.samples <= SAMPLED)
            && (stage.At? && stage.tier <= t ==>
                  |Indices(log, TIERS[t])| == if stage.tier == t then stage.samples else 0)
  {
    if log != [] {
      GrammarMeans(log[..|log| - 1], t);
    }
  }

  /** The tier a line is about; the resource line comes after all. */
  ghost function TierOf(line: Line): nat {
    if line.Resource? then 5000 else line.tier
  }

  /** The tiers of the lines never go down. */
  lemma {:induction false} TiersNeverDecrease(log: seq<Line>, i: nat, j: nat)
    requires Recognise(log).Some? && i <= j < |log|
    ensures TierOf(log[i]) <= TierOf(log[j])
    ensures Recognise(log).value.At? ==> TierOf(log[j]) <= TIERS[if Recognise(log).value.tier < 2 then Recognise(log).value.tier else 2]
  {
    var front := log[..|log| - 1];
    if j < |front| {
      TiersNeverDecrease(front, i, j);
    } else if i < |front| {
      TiersNeverDecrease(front, i, i);
    }
  }

  lemma {:induction false} PrefixRecognised(log: seq<Line>, i: nat)
    requires Recognise(log).Some? && i <= |log|
    ensures Recognise(log[..i]).Some?
  {
    if i < |log| {
      PrefixRecognised(log[..|log| - 1], i);
      assert log[..|log| - 1][..i] == log[..i];
    } else {
      assert log[..i] == log;
    }
  }

  /** What a throughput line says of its tier, in any log of the probe: with another number than 128 the
      tier was cut off; with 128, and no more than the deadline gone, it was not. Below 128 it was cut off,
      but not only then: a tier cut off shows 128 or more if it had 120 samples or more. */
  lemma LineTells(log: seq<Line>, i: nat)
    requires Recognise(log).Some? && i < |log| && log[i].Throughput?
    ensures var samples := |Indices(log[..i], log[i].tier)|;
            && (log[i].completed != SAMPLED ==> samples < SAMPLED)
            && (log[i].completed == SAMPLED && log[i].elapsed <= DEADLINE ==> samples == SAMPLED)
            && (samples < SAMPLED ==> log[i].elapsed > DEADLINE)
            && (samples < SAMPLED ==> (log[i].completed < SAMPLED <==> samples < SAMPLED - WARMUP))
  {
    PrefixRecognised(log, i + 1);
    assert log[..i + 1][..i] == log[..i];
    var stage := Recognise(log[..i]).value;
    GrammarMeans(log[..i], stage.tier);
  }

  // ---- The probe ----

  class Probe {
    const window: nat
    const slots: array<Slot>
    var tier: nat
    var nextTag: nat
    var tierIndex: nat
    var count: nat
    var sampleStart: int
    var tierStart: int
    var draining: bool
    var running: bool
    /** The last reading of the clock, which never goes back: `jitter` is the time that passes before each
        reading inside the handlers. */
    var clock: int
    const jitter: nat -> nat
    var readings: nat
    var log: seq<Line>

    /** No time passes inside the handlers. */
    ghost predicate Steady() {
      forall n :: jitter(n) == 0
    }

    twostate predicate Ticked()
      reads this
    {
      clock >= old(clock) && (Steady() ==> clock == old(clock))
    }

    /** What holds at every moment, also inside a handler. */
    ghost predicate Sound()
      reads this, slots
    {
      && 1 <= window <= MAX_WINDOW == slots.Length
      && nextTag < 256
      && (forall i :: 0 <= i < window ==> slots[i].issued <= clock)
      && tierStart <= clock
      && Recognise(log).Some?
    }

    ghost predicate AllBusy()
      requires window <= slots.Length
      reads slots
    {
      forall i :: 0 <= i < window ==> slots[i].inUse
    }

    ghost predicate AllIdle()
      requires window <= slots.Length
      reads slots
    {
      forall i :: 0 <= i < window ==> !slots[i].inUse
    }

    /** The window is full while a tier runs, and not empty while it drains; the log is at the line the
        counters say. */
    ghost predicate Valid()
      reads this, slots
    {
      && Sound()
      && (running ==> tierIndex < |TIERS| && tier == TIERS[tierIndex])
      && (running && !draining ==>
            && AllBusy() && count < WARMUP + SAMPLED && (count > WARMUP ==> sampleStart <= clock)
            && Recognise(log).value == At(tierIndex, Sampled(count)))
      && (running && draining ==> !AllIdle() && Recognise(log).value == At(tierIndex + 1, 0))
      && (!running ==> Recognise(log).value == Finished)
    }

    /** Constructed and started. */
    constructor (window: nat, jitter: nat -> nat)
      requires 1 <= window <= MAX_WINDOW
      ensures Valid() && fresh(slots) && running && !draining && log == [] && this.window == window
      ensures this.jitter == jitter && tierIndex == count == 0 && (Steady() ==> clock == tierStart == 0)
    {
      this.window, this.jitter := window, jitter;
      slots := new Slot[MAX_WINDOW](_ => Slot(false, 0, 0));
      tier, nextTag, tierIndex, count, sampleStart, tierStart, clock, readings := TIERS[0], 0, 0, 0, 0, 0, 0, 0;
      draining, running, log := false, true, [];
      new;
      Start();
    }

    /** `esp_timer_get_time`. */
    method Now() returns (t: int)
      modifies `clock, `readings
      ensures t == clock && Ticked()
    {
      clock, readings := clock + jitter(readings), readings + 1;
      t := clock;
    }

    method Emit(line: Line)
      requires Recognise(log).Some? && Follow(Recognise(log).value, line).Some?
      modifies `log
      ensures log == old(log) + [line] && Recognise(log) == Follow(old(Recognise(log)).value, line)
    {
      RecogniseSnoc(log, line);
      log := log + [line];
    }

    method IssueSlot(i: nat)
      requires Sound() && i < window
      modifies this`clock, this`readings, this`nextTag, slots
      ensures Sound() && Ticked()
      ensures slots[..] == old(slots[..])[i := Slot(true, old(nextTag), clock)]
      ensures nextTag == (old(nextTag) + 1) % 256
    {
      var now := Now();
      slots[i] := Slot(true, nextTag, now);
      nextTag := (nextTag + 1) % 256;
    }

    /** Issues the first idle slot, if any. */
    method IssueOne()
      requires Sound()
      modifies this`clock, this`readings, this`nextTag, slots
      ensures Sound() && Ticked()
      ensures old(AllBusy()) ==> slots[..] == old(slots[..])
      ensures forall k :: 0 <= k < window && !old(slots[k]).inUse && (forall j :: 0 <= j < k ==> old(slots[j]).inUse) ==>
                slots[..] == old(slots[..])[k := Slot(true, old(nextTag), clock)]
    {
      for i := 0 to window
        invariant Sound() && slots[..] == old(slots[..]) && nextTag == old(nextTag) && clock == old(clock)
        invariant forall j :: 0 <= j < i ==> old(slots[j]).inUse
      {
        if !slots[i].inUse {
          IssueSlot(i);
          return;
        }
      }
    }

    method Start()
      requires Sound() && tierIndex < |TIERS|
      modifies this`clock, this`readings, this`nextTag, this`tier, this`tierStart, slots
      ensures Sound() && AllBusy() && tier == TIERS[tierIndex] && clock >= tierStart >= old(clock) && Ticked()
      ensures forall i :: 0 <= i < window ==> slots[i].issued >= tierStart
    {
      tier := TIERS[tierIndex];
      tierStart := Now();
      for i := 0 to window
        invariant Sound() && clock >= tierStart >= old(clock) && tier == TIERS[tierIndex] && Ticked()
        invariant forall j :: 0 <= j < i ==> slots[j].inUse && slots[j].issued >= tierStart
      {
        IssueSlot(i);
      }
    }

    method AllFree() returns (free: bool)
      requires window <= slots.Length
      ensures free <==> AllIdle()
    {
      for i := 0 to window
        invariant forall j :: 0 <= j < i ==> !slots[j].inUse
      {
        if slots[i].inUse {
          return false;
        }
      }
      return true;
    }

    /** Closes the tier, whose throughput line is out. */
    method NextTier()
      requires Sound() && tierIndex < |TIERS| && Recognise(log).value == At(tierIndex + 1, 0) && running
      modifies this, slots
      ensures Valid() && Ticked() && tierIndex == old(tierIndex) + 1
      ensures running ==> !draining && count == 0 && tierStart >= old(clock)
      ensures running <==> tierIndex < |TIERS|
      ensures log == old(log) + if running then [] else [Resource]
    {
      tierIndex := tierIndex + 1;
      if tierIndex >= |TIERS| {
        running := false;
        Emit(Resource);
        return;
      }
      count, draining := 0, false;
      Start();
    }

    /** A round trip of a draining tier came back. */
    method Drained()
      requires Sound() && running && draining && tierIndex < |TIERS| && tier == TIERS[tierIndex]
      requires Recognise(log).value == At(tierIndex + 1, 0)
      modifies this, slots
      ensures Valid() && Ticked()
      ensures tierIndex == old(tierIndex) + if old(AllIdle()) then 1 else 0
      ensures log == old(log) + if running then [] else [Resource]
      ensures !old(AllIdle()) ==> running && draining && slots[..] == old(slots[..])
    {
      var free := AllFree();
      if free {
        NextTier();
      }
    }

    /** Slot `i` of a full window came back and is not refilled yet. */
    ghost predicate OneBack(i: nat)
      reads this, slots
    {
      && Sound() && running && !draining && tierIndex < |TIERS| && tier == TIERS[tierIndex]
      && i < window && !slots[i].inUse && (forall j :: 0 <= j < window && j != i ==> slots[j].inUse)
      && count <= WARMUP + SAMPLED && Recognise(log).value == At(tierIndex, Sampled(count))
      && (count > WARMUP ==> sampleStart <= clock)
    }

    /** The first part of `complete`: counted, with a sample line after the warm-up. */
    method TakeSample(rtt: int, ghost i: nat)
      requires OneBack(i) && count < WARMUP + SAMPLED && rtt >= 0
      modifies `clock, `readings, `sampleStart, `count, `log
      ensures OneBack(i) && Ticked() && count == old(count) + 1
      ensures log == old(log) + if old(count) >= WARMUP then [Sample(tier, old(count) - WARMUP, rtt)] else []
      ensures SamplingFrom()
    {
      hide Recognise;
      if count == WARMUP {
        sampleStart := Now();
      }
      if count >= WARMUP {
        Emit(Sample(tier, count - WARMUP, rtt));
      }
      count := count + 1;
    }

    /** The last round trip of a tier: the throughput line, then the tier drains what is in flight. */
    method CloseTier(ghost i: nat)
      requires OneBack(i) && count == WARMUP + SAMPLED
      modifies this, slots
      ensures Valid() && Ticked()
      ensures tierIndex == old(tierIndex) + if window == 1 then 1 else 0
      ensures old(log) <= log && |log| > |old(log)|
      ensures log[|old(log)|].Throughput? && log[|old(log)|].completed == SAMPLED && log[|old(log)|].tier == old(tier)
      ensures Steady() ==> log[|old(log)|].elapsed == clock - old(sampleStart)
    {
      assert window > 1 ==> slots[if i == 0 then 1 else 0].inUse;
      ReportFull();
      Drained();
    }

    method ReportFull()
      requires Sound() && running && !draining && tierIndex < |TIERS| && tier == TIERS[tierIndex] && sampleStart <= clock
      requires Recognise(log).value == At(tierIndex, SAMPLED)
      modifies `clock, `readings, `log, `draining
      ensures Sound() && Ticked() && draining && Recognise(log).value == At(tierIndex + 1, 0)
      ensures |log| == |old(log)| + 1 && old(log) <= log && log[|old(log)|].Throughput?
      ensures log[|old(log)|].tier == tier && log[|old(log)|].completed == SAMPLED
      ensures Steady() ==> log[|old(log)|].elapsed == clock - sampleStart
    {
      var now := Now();
      Emit(Throughput(tier, SAMPLED, now - sampleStart));
      draining := true;
    }

    /** `complete`, after slot `i` of a full window came back. */
    method Complete(rtt: int, ghost i: nat)
      requires OneBack(i) && count < WARMUP + SAMPLED && rtt >= 0
      modifies this, slots
      ensures Valid() && Ticked()
      ensures old(log) <= log && tierIndex >= old(tierIndex)
      ensures old(count) + 1 < WARMUP + SAMPLED ==>
                && running && !draining && tierIndex == old(tierIndex) && count == old(count) + 1
                && log == old(log) + (if old(count) >= WARMUP then [Sample(tier, old(count) - WARMUP, rtt)] else [])
                && slots[..] == old(slots[..])[i := Slot(true, old(nextTag), clock)]
                && SamplingFrom() && tierStart == old(tierStart)
      ensures old(count) + 1 == WARMUP + SAMPLED ==>
                ClosedInFull() && log[|old(log)|] == Sample(old(tier), SAMPLED - 1, rtt)
    {
      hide OneBack, Valid, Sound;
      StillRunning(i);
      TakeSample(rtt, i);
      if count == WARMUP + SAMPLED {
        CloseTier(i);
        return;
      }
      Refill(i);
    }

    lemma StillRunning(i: nat)
      requires OneBack(i)
      ensures running && !draining
    {
    }

    /** The last part of `complete`: the slot that came back is issued again. */
    method Refill(ghost i: nat)
      requires OneBack(i) && count < WARMUP + SAMPLED
      modifies this`clock, this`readings, this`nextTag, slots
      ensures Valid() && Ticked()
      ensures slots[..] == old(slots[..])[i := Slot(true, old(nextTag), clock)]
    {
      hide Recognise;
      IssueOne();
    }

    /** The first slot an echo with this tag answers. */
    ghost predicate Answers(i: nat, tag: nat)
      requires window <= slots.Length
      reads slots
    {
      && i < window && slots[i].inUse && slots[i].tag == tag
      && forall j :: 0 <= j < i ==> !(slots[j].inUse && slots[j].tag == tag)
    }

    method OnReply(echo: seq<nat>) returns (ghost hit: Option<nat>)
      requires Valid()
      modifies this, slots
      ensures Valid() && Ticked()
      ensures old(log) <= log && tierIndex >= old(tierIndex)
      ensures hit.Some? ==> old(running) && echo != [] && old(Answers(hit.value, echo[0]))
      ensures hit.None? && echo != [] && old(running) ==>
                forall i :: 0 <= i < window ==> !(old(slots[i]).inUse && old(slots[i]).tag == echo[0])
      ensures hit.None? ==>
                && log == old(log) && slots[..] == old(slots[..]) && tierIndex == old(tierIndex)
                && count == old(count) && draining == old(draining) && running == old(running)
      ensures hit.Some? && old(draining) ==> Freed(hit.value)
      ensures hit.Some? && !old(draining) && old(count) + 1 < WARMUP + SAMPLED ==> Refilled(hit.value)
      ensures hit.Some? && !old(draining) && old(count) + 1 == WARMUP + SAMPLED ==>
                ClosedInFull()
      ensures hit.Some? && !old(draining) && old(count) + 1 < WARMUP + SAMPLED ==> SamplingFrom() && tierStart == old(tierStart)
    {
      hit := None;
      if !running || echo == [] {
        return;
      }
      for i := 0 to window
        invariant Valid() && log == old(log) && slots[..] == old(slots[..]) && tierIndex == old(tierIndex)
        invariant count == old(count) && draining == old(draining) && running && nextTag == old(nextTag) && clock == old(clock)
        invariant tier == old(tier) && hit == None
        invariant forall j :: 0 <= j < i ==> !(slots[j].inUse && slots[j].tag == echo[0])
      {
        if slots[i].inUse && slots[i].tag == echo[0] {
          Answer(i);
          return Some(i);
        }
      }
    }

    /** A slot of a draining tier is free, and the tier over if it was the last. */
    twostate predicate Freed(i: nat)
      requires i < window <= slots.Length
      reads this, slots
    {
      if forall j :: 0 <= j < window && j != i ==> !old(slots[j]).inUse then tierIndex == old(tierIndex) + 1
      else log == old(log) && tierIndex == old(tierIndex) && slots[..] == old(slots[..])[i := old(slots[i]).(inUse := false)]
    }

    /** One more round trip of a running tier: sampled after the warm-up with the time since its issue,
        and the slot issued again with the next tag. */
    twostate predicate Refilled(i: nat)
      requires i < window <= slots.Length
      reads this, slots
    {
      && count == old(count) + 1 && tierIndex == old(tierIndex) && running && !draining
      && slots[..] == old(slots[..])[i := Slot(true, old(nextTag), slots[i].issued)] && slots[i].issued == clock
      && if old(count) < WARMUP then log == old(log)
         else
           && |log| == |old(log)| + 1 && log[|old(log)|].Sample?
           && log[|old(log)|].tier == tier && log[|old(log)|].index == old(count) - WARMUP
           && old(clock - slots[i].issued) <= log[|old(log)|].rtt <= clock - old(slots[i].issued)
    }

    /** When sampling started. */
    twostate predicate SamplingFrom()
      reads this
    {
      Steady() ==> sampleStart == if old(count) == WARMUP then clock else old(sampleStart)
    }

    /** The line that closes a full tier, after its last sample. */
    twostate predicate ClosedInFull()
      reads this
    {
      && |log| > |old(log)| + 1 && log[|old(log)|].Sample?
      && log[|old(log)| + 1].Throughput? && log[|old(log)| + 1].tier == old(tier) && log[|old(log)| + 1].completed == SAMPLED
      && (Steady() ==> log[|old(log)| + 1].elapsed == clock - old(sampleStart))
      && tierIndex == old(tierIndex) + if window == 1 then 1 else 0
    }

    /** The body of the loop of `on_reply`, at the slot that the echo answers. */
    method Answer(i: nat)
      requires Valid() && running && i < window && slots[i].inUse
      modifies this, slots
      ensures Valid() && Ticked()
      ensures old(log) <= log && tierIndex >= old(tierIndex)
      ensures old(draining) ==> Freed(i)
      ensures !old(draining) && old(count) + 1 < WARMUP + SAMPLED ==> Refilled(i)
      ensures !old(draining) && old(count) + 1 == WARMUP + SAMPLED ==>
                ClosedInFull()
      ensures !old(draining) && old(count) + 1 < WARMUP + SAMPLED ==> SamplingFrom() && tierStart == old(tierStart)
    {
      var now := Now();
      var rtt := now - slots[i].issued;
      slots[i] := slots[i].(inUse := false);
      if draining {
        assert forall j :: 0 <= j < window && j != i ==> slots[j] == old(slots[j]);
        Drained();
      } else {
        Complete(rtt, i);
      }
    }

    /** The body of the stall timer's loop over the window, started at `now`. */
    method SweepStalled(now: int)
      requires Sound() && now <= clock && running && (!draining ==> AllBusy())
      modifies this`clock, this`readings, this`nextTag, slots
      ensures Sound() && Ticked() && (!draining ==> AllBusy())
      ensures draining ==> forall i :: 0 <= i < window ==>
                slots[i] == if now - old(slots[i]).issued > STALL then old(slots[i]).(inUse := false) else old(slots[i])
      ensures !draining ==> forall i :: 0 <= i < window ==>
                if now - old(slots[i]).issued > STALL then slots[i].issued >= now else slots[i] == old(slots[i])
    {
      for i := 0 to window
        invariant Sound() && Ticked() && (!draining ==> AllBusy())
        invariant forall j :: i <= j < window ==> slots[j] == old(slots[j])
        invariant draining ==> forall j :: 0 <= j < i ==>
                    slots[j] == if now - old(slots[j]).issued > STALL then old(slots[j]).(inUse := false) else old(slots[j])
        invariant !draining ==> forall j :: 0 <= j < i ==>
                    if now - old(slots[j]).issued > STALL then slots[j].issued >= now else slots[j] == old(slots[j])
      {
        if slots[i].inUse && now - slots[i].issued > STALL {
          if draining {
            slots[i] := slots[i].(inUse := false);
          } else {
            IssueSlot(i);
          }
        }
      }
    }

    /** Every slot in flight, or the tier itself, was started too long before time `t`. */
    ghost predicate Overdue(t: int)
      requires window <= slots.Length
      reads this, slots
    {
      if draining then forall i :: 0 <= i < window && slots[i].inUse ==> t - slots[i].issued > STALL
      else t - tierStart > DEADLINE
    }

    method PumpStalled()
      requires Valid()
      modifies this, slots
      ensures Valid() && Ticked()
      ensures old(log) <= log && old(tierIndex) <= tierIndex <= old(tierIndex) + 1
      ensures old(!running) ==> log == old(log) && slots[..] == old(slots[..])
      ensures old(running && Overdue(clock)) ==> tierIndex == old(tierIndex) + 1
      ensures old(running && !draining) && tierIndex == old(tierIndex) ==>
                && log == old(log) && count == old(count) && !draining
                && forall i :: 0 <= i < window ==> slots[i] == old(slots[i]) || slots[i].issued >= old(clock)
      ensures old(running && !draining) && tierIndex == old(tierIndex) ==>
                forall i :: 0 <= i < window && old(clock - slots[i].issued) > STALL ==> slots[i].issued >= old(clock)
      ensures old(running && !draining) && tierIndex > old(tierIndex) ==>
                && |log| > |old(log)| && log[|old(log)|].Throughput? && log[|old(log)|].completed == old(count)
                && log[|old(log)|].tier == old(tier) && (Steady() ==> log[|old(log)|].elapsed == clock - old(tierStart))
    {
      if !running {
        return;
      }
      var now := Now();
      if !draining && now - tierStart > DEADLINE {
        FinalizeTierPartial(now);
        return;
      }
      SweepStalled(now);
      if draining {
        Drained();
      }
    }

    method FinalizeTierPartial(now: int)
      requires Valid() && running && !draining && tierStart + DEADLINE < now <= clock
      modifies this, slots
      ensures Valid() && Ticked() && tierIndex == old(tierIndex) + 1
      ensures log == old(log) + [Throughput(old(tier), old(count), now - old(tierStart))] + if running then [] else [Resource]
    {
      Emit(Throughput(tier, count, now - tierStart));
      NextTier();
    }

    /** Time passes. */
    method Elapse(d: nat)
      requires Valid()
      modifies `clock
      ensures Valid() && clock == old(clock) + d
    {
      clock := clock + d;
    }

    /** The sweep cannot wedge: from any state, even if no echo ever comes again, three ticks of the
        stall timer more than a tier's budget apart finish it. */
    method Finish()
      requires Valid()
      modifies this, slots
      ensures Valid() && !running && old(log) <= log
    {
      for k := 0 to |TIERS|
        invariant Valid() && old(log) <= log && (running ==> tierIndex >= k)
      {
        Elapse(DEADLINE + 1);
        PumpStalled();
      }
    }
  }

  datatype Event = Reply(echo: seq<nat>) | Tick | Elapse(d: nat)

  /** Any echoes and ticks in any order leave the probe valid and its log a sentence of the grammar;
      left alone it then finishes, with one throughput line for every tier. */
  method Run(window: nat, jitter: nat -> nat, events: seq<Event>) returns (probe: Probe, now: seq<Line>)
    requires 1 <= window <= MAX_WINDOW
    ensures fresh(probe) && probe.Valid() && !probe.running && now <= probe.log
    ensures forall t :: 0 <= t < |TIERS| ==> Reports(now, TIERS[t]) <= 1 && Counting(Indices(now, TIERS[t]))
    ensures forall t :: 0 <= t < |TIERS| ==> Reports(probe.log, TIERS[t]) == 1 && |Indices(probe.log, TIERS[t])| <= SAMPLED
  {
    probe := new Probe(window, jitter);
    for k := 0 to |events|
      invariant probe.Valid() && fresh(probe) && fresh(probe.slots)
    {
      match events[k]
      case Reply(echo) => var _ := probe.OnReply(echo);
      case Tick => probe.PumpStalled();
      case Elapse(d) => probe.Elapse(d);
    }
    now := probe.log;
    forall t | 0 <= t < |TIERS| ensures Reports(now, TIERS[t]) <= 1 && Counting(Indices(now, TIERS[t])) {
      GrammarMeans(now, t);
    }
    probe.Finish();
    forall t | 0 <= t < |TIERS| ensures Reports(probe.log, TIERS[t]) == 1 && |Indices(probe.log, TIERS[t])| <= SAMPLED {
      GrammarMeans(probe.log, t);
    }
  }

  // ---- The throughput line does not always tell ----

  /** `n` echoes, each answering the one slot in flight, while no time passes. */
  method Echoes(p: Probe, n: nat)
    requires p.Valid() && p.running && !p.draining && p.window == 1 && p.Steady() && p.count + n < WARMUP + SAMPLED
    modifies p, p.slots
    ensures p.Valid() && p.running && !p.draining && p.count == old(p.count) + n && p.tierIndex == old(p.tierIndex)
    ensures p.clock == old(p.clock) && p.tierStart == old(p.tierStart)
    ensures p.sampleStart == if old(p.count) <= WARMUP < p.count then p.clock else old(p.sampleStart)
  {
    for k := 0 to n
      invariant p.Valid() && p.running && !p.draining && p.count == old(p.count) + k && p.tierIndex == old(p.tierIndex)
      invariant p.clock == old(p.clock) && p.tierStart == old(p.tierStart)
      invariant p.sampleStart == if old(p.count) <= WARMUP < p.count then p.clock else old(p.sampleStart)
    {
      hide Recognise;
      assert p.slots[0].inUse;
      var hit := p.OnReply([p.slots[0].tag]);
      assert hit == Some(0);
    }
  }

  /** A tier cut off at its deadline after 128 round trips, warm-up included: 120 samples. */
  method CutOffTier(elapsed: nat) returns (p: Probe, at: nat)
    requires elapsed > DEADLINE
    ensures fresh(p) && p.Valid() && at < |p.log| && p.log[at] == Throughput(TIERS[0], 128, elapsed)
    ensures |Indices(p.log[..at], TIERS[0])| == 120
  {
    p := new Probe(1, _ => 0);
    Echoes(p, 128);
    ghost var before := p.log;
    at := |p.log|;
    GrammarMeans(p.log, 0);
    p.Elapse(elapsed);
    p.PumpStalled();
    assert p.log[..at] == before;
  }

  /** All round trips of a tier but the last, the time passing after the first sample. */
  method AlmostFull(elapsed: nat) returns (p: Probe)
    ensures fresh(p) && fresh(p.slots) && p.Valid() && p.running && !p.draining && p.window == 1 && p.Steady()
    ensures p.count == WARMUP + SAMPLED - 1 && p.tierIndex == 0 && p.sampleStart == 0 && p.clock == elapsed
  {
    hide Recognise;
    p := new Probe(1, _ => 0);
    Echoes(p, WARMUP + 1);
    p.Elapse(elapsed);
    Echoes(p, SAMPLED - 2);
  }

  /** A tier that completed, the timer being late: 128 samples. */
  method FullTier(elapsed: nat) returns (p: Probe, at: nat)
    ensures fresh(p) && p.Valid() && at < |p.log| && p.log[at] == Throughput(TIERS[0], 128, elapsed)
    ensures |Indices(p.log[..at], TIERS[0])| == 128
  {
    hide Recognise, Indices;
    p := AlmostFull(elapsed);
    ghost var before := p.log;
    at := |p.log| + 1;
    GrammarMeans(p.log, 0);
    assert p.slots[0].inUse;
    var hit := p.OnReply([p.slots[0].tag]);
    assert hit == Some(0);
    LastSample(before, p.log, at);
  }

  /** The sample between two moments of a log. */
  lemma LastSample(before: seq<Line>, log: seq<Line>, at: nat)
    requires before <= log && at == |before| + 1 <= |log| && Recognise(log).Some?
    requires Recognise(before) == Some(At(0, SAMPLED - 1)) && log[|before|].Sample?
    ensures |Indices(log[..at], TIERS[0])| == SAMPLED
  {
    PrefixRecognised(log, at);
    assert log[..at][..|before|] == before;
    GrammarMeans(log[..at], 0);
  }

  /** So past the deadline a line with 128 does not tell: both kinds of tier print the same. Up to the
      deadline, and with any other number, `LineTells` tells them apart. */
  method SameLine(elapsed: nat) returns (a: Probe, i: nat, b: Probe, j: nat)
    requires elapsed > DEADLINE
    ensures a.Valid() && b.Valid() && i < |a.log| && j < |b.log| && a.log[i] == b.log[j] && a.log[i].Throughput?
    ensures |Indices(a.log[..i], a.log[i].tier)| < SAMPLED == |Indices(b.log[..j], b.log[j].tier)|
  {
    a, i := CutOffTier(elapsed);
    b, j := FullTier(elapsed);
  }
}
