/** The cross-process notifier: producers bump a 32-bit generation word and always wake; the consumer
    reads the word, drains, and waits on the value it read. Every interleaving of their atomic steps
    is a behaviour. */
module Futex {
  import opened Options

  /** A producer: idle, with an item published but not signalled, or between the bump and the wake of
      `notifier_signal`. */
  datatype Producer = Idle | Published(item: nat) | Bumped(item: nat)

  /** The consumer; `seen` counts all bumps up to its read of the word. */
  datatype Consumer = Working | HasRead(seen: nat) | Drained(seen: nat) | Asleep(seen: nat)

  /** Items are numbered as they are published; the consumer has drained those below `drained`; the
      signals of the items in `signalled` have completed. `bumps` counts all bumps, of which the word
      shows the low 32 bits. */
  datatype State = State(producers: seq<Producer>, consumer: Consumer, bumps: nat,
                         published: nat, drained: nat, signalled: set<nat>)

  datatype Step =
    | Publish(p: nat)
    | Bump(p: nat)
    | Wake(p: nat)
    | Read
    | Drain
    | Wait
    | Interrupt

  function Word(n: nat): nat {
    n % 0x1_0000_0000
  }

  ghost predicate Enabled(t: State, step: Step) {
    match step
    case Publish(p) => p < |t.producers| && t.producers[p].Idle?
    case Bump(p) => p < |t.producers| && t.producers[p].Published?
    case Wake(p) => p < |t.producers| && t.producers[p].Bumped?
    case Read => t.consumer.Working?
    case Drain => t.consumer.HasRead?
    case Wait => t.consumer.Drained?
    case Interrupt => t.consumer.Asleep?
  }

  ghost function Next(t: State, step: Step): State
    requires Enabled(t, step)
  {
    match step
    case Publish(p) => t.(producers := t.producers[p := Published(t.published)], published := t.published + 1)
    case Bump(p) => t.(producers := t.producers[p := Bumped(t.producers[p].item)], bumps := t.bumps + 1)
    case Wake(p) =>
      t.(producers := t.producers[p := Idle], signalled := t.signalled + {t.producers[p].item},
         consumer := if t.consumer.Asleep? then Working else t.consumer)
    case Read => t.(consumer := HasRead(t.bumps))
    case Drain => t.(consumer := Drained(t.consumer.seen), drained := t.published)
    case Wait => t.(consumer := if Word(t.bumps) == Word(t.consumer.seen) then Asleep(t.consumer.seen) else Working)
    case Interrupt => t.(consumer := Working)
  }

  /** The item's bump has happened. */
  ghost predicate Announced(t: State, item: nat) {
    item in t.signalled || exists p :: 0 <= p < |t.producers| && t.producers[p] == Bumped(item)
  }

  /** What every step keeps: a bump that announces an item the consumer has not drained came after the
      consumer's read, and a sleeping consumer slept before any such bump's wake. */
  ghost predicate Valid(t: State) {
    && t.drained <= t.published
    && (forall i :: i in t.signalled ==> i < t.published)
    && (forall p :: 0 <= p < |t.producers| && !t.producers[p].Idle? ==> t.producers[p].item < t.published)
    && (!t.consumer.Working? ==> t.consumer.seen <= t.bumps)
    && (t.consumer.Drained? && t.consumer.seen == t.bumps ==> forall i: nat :: t.drained <= i ==> !Announced(t, i))
    && (t.consumer.Asleep? ==> NoLostWakeup(t))
  }

  /** No item whose signal has completed is left waiting, and an announced one has its wake coming. */
  ghost predicate NoLostWakeup(t: State) {
    && (forall i :: i in t.signalled ==> i < t.drained)
    && (forall i: nat :: t.drained <= i && Announced(t, i) ==>
          exists p :: 0 <= p < |t.producers| && t.producers[p] == Bumped(i))
  }

  /** The assumption under which the word tells bumps apart: fewer than 2^32 between a read and the
      wait on it. */
  ghost predicate Distinguishable(t: State, step: Step) {
    step.Wait? && t.consumer.Drained? ==> t.bumps - t.consumer.seen < 0x1_0000_0000
  }

  lemma {:induction false} NextValid(t: State, step: Step)
    requires Valid(t) && Enabled(t, step) && Distinguishable(t, step)
    ensures Valid(Next(t, step))
  {
    var u := Next(t, step);
    match step
    case Publish(p) =>
      forall i: nat | Announced(u, i) ensures Announced(t, i) {}
    case Bump(p) =>
    case Wake(p) =>
      forall i: nat | Announced(u, i) ensures Announced(t, i) {}
    case Drain =>
      forall i: nat | u.drained <= i ensures !Announced(u, i) {}
    case Wait =>
      SameWord(t.bumps, t.consumer.seen);
      forall i: nat | i in t.signalled ensures Announced(t, i) {}
      forall i: nat | Announced(u, i) ensures Announced(t, i) {}
    case _ =>
  }

  lemma SameWord(a: nat, b: nat)
    requires b <= a
    ensures Word(a) == Word(b) <==> (a - b) % 0x1_0000_0000 == 0
  {
  }

  ghost function Init(producers: nat): State {
    State(seq(producers, _ => Idle), Working, 0, 0, 0, {})
  }

  /** The state after a run, if every step was possible and no wait was on an indistinguishable word. */
  ghost function After(producers: nat, steps: seq<Step>): Option<State> {
    if steps == [] then Some(Init(producers))
    else
      var t, step := After(producers, steps[..|steps| - 1]), steps[|steps| - 1];
      if t.Some? && Enabled(t.value, step) && Distinguishable(t.value, step) then Some(Next(t.value, step)) else None
  }

  /** Over every interleaving: a sleeping consumer never sleeps past a completed signal. */
  lemma {:induction false} NeverAsleepPastSignal(producers: nat, steps: seq<Step>)
    requires After(producers, steps).Some?
    ensures Valid(After(producers, steps).value)
    ensures After(producers, steps).value.consumer.Asleep? ==> NoLostWakeup(After(producers, steps).value)
  {
    if steps != [] {
      NeverAsleepPastSignal(producers, steps[..|steps| - 1]);
      NextValid(After(producers, steps[..|steps| - 1]).value, steps[|steps| - 1]);
    }
  }

  /** The assumption is exact: with a completed signal undrained, the wait goes to sleep if and only if
      the bumps since the read are a multiple of 2^32. */
  lemma WaitLosesIff(t: State)
    requires Valid(t) && t.consumer.Drained? && exists i :: i in t.signalled && i >= t.drained
    ensures t.bumps > t.consumer.seen
    ensures Next(t, Wait).consumer.Asleep? <==> (t.bumps - t.consumer.seen) % 0x1_0000_0000 == 0
  {
    SameWord(t.bumps, t.consumer.seen);
    var i :| i in t.signalled && i >= t.drained;
    assert Announced(t, i);
  }

  /** A consumer that has read and drained, and a producer that then publishes and signals `n` items. */
  ghost function Burst(n: nat): seq<Step> {
    if n == 0 then [Read] + [Drain] else Burst(n - 1) + [Publish(0)] + [Bump(0)] + [Wake(0)]
  }

  lemma AfterOne(steps: seq<Step>, step: Step)
    requires After(1, steps).Some? && Enabled(After(1, steps).value, step) && !step.Wait?
    ensures After(1, steps + [step]) == Some(Next(After(1, steps).value, step))
  {
    assert (steps + [step])[..|steps|] == steps;
  }

  ghost predicate Waiting(t: State, n: nat) {
    && t.producers == [Idle] && t.consumer == Drained(0) && t.bumps == n && t.published == n && t.drained == 0
    && forall i: nat :: i < n ==> i in t.signalled
  }

  lemma AfterRead()
    ensures After(1, [Read] + [Drain]).Some? && Waiting(After(1, [Read] + [Drain]).value, 0)
  {
    assert After(1, []) == Some(Init(1));
    AfterOne([], Read);
    assert [] + [Read] == [Read];
    hide After;
    AfterOne([Read], Drain);
  }

  lemma OneMore(t: State, n: nat)
    requires Waiting(t, n)
    ensures Enabled(t, Publish(0)) && Enabled(Next(t, Publish(0)), Bump(0))
    ensures Enabled(Next(Next(t, Publish(0)), Bump(0)), Wake(0))
    ensures Waiting(Next(Next(Next(t, Publish(0)), Bump(0)), Wake(0)), n + 1)
  {
  }

  lemma {:induction false} AfterBurst(n: nat)
    ensures After(1, Burst(n)).Some? && Waiting(After(1, Burst(n)).value, n)
  {
    hide After, Next, Enabled, Waiting;
    if n == 0 {
      AfterRead();
    } else {
      AfterBurst(n - 1);
      var a := Burst(n - 1);
      OneMore(After(1, a).value, n - 1);
      AfterOne(a, Publish(0));
      AfterOne(a + [Publish(0)], Bump(0));
      AfterOne(a + [Publish(0)] + [Bump(0)], Wake(0));
    }
  }

  /** The run that loses a wake-up: 2^32 signals between the read and the wait. */
  lemma LostAfterWrap()
    ensures var t := After(1, Burst(0x1_0000_0000));
            t.Some? && Enabled(t.value, Wait) && Next(t.value, Wait).consumer.Asleep?
            && 0 in Next(t.value, Wait).signalled && Next(t.value, Wait).drained == 0
  {
    hide Burst, After;
    AfterBurst(0x1_0000_0000);
  }
}
