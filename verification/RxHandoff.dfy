/** The FreeRTOS receive hand-off: one receive task per channel fills slots of that channel's pool
    and posts them through a bounded queue to the single executor task, which feeds the bytes and
    returns the slot. Every interleaving of their atomic steps is a behaviour. */
module RxHandoff {
  import opened Options
  import opened LittleEndian
  import opened DistinctLists

  type Bytes = seq<Byte>

  /** The fixed layout: slot `s` belongs to the pool of channel `owner[s]`; the executor queue
      carries `depth` posts. */
  datatype Config = Config(owner: seq<nat>, channels: nat, depth: nat) {
    ghost predicate Valid() {
      forall s :: 0 <= s < |owner| ==> owner[s] < channels
    }
  }

  /** What a receive task is doing. */
  datatype Rx = Idle | Acquired(slot: nat) | Filled(slot: nat)

  /** The bytes of one receive, and whether its post was refused. */
  datatype Chunk = Chunk(bytes: Bytes, lost: bool)

  datatype State = State(
    free: set<nat>,           // the pools' free-index queues
    rx: seq<Rx>,              // each channel's receive task
    queue: seq<nat>,          // posted slots, oldest first
    feeding: Option<nat>,     // the slot the executor is feeding
    lost: set<nat>,           // slots whose post the full queue refused
    buffer: seq<Bytes>,       // each slot's bytes
    received: seq<Bytes>,     // each channel's socket stream so far
    fed: seq<Bytes>,          // each channel's bytes delivered to its framing so far
    posts: seq<seq<Chunk>>)   // each channel's posts so far

  datatype Step =
    | Acquire(ch: nat, slot: nat)
    | Receive(ch: nat, bytes: Bytes)
    | ReceiveNothing(ch: nat)
    | Post(ch: nat)
    | BeginFeed
    | EndFeed

  ghost function Slots(n: nat): (r: set<nat>)
    ensures forall s: nat :: s in r <==> s < n
  {
    if n == 0 then {} else Slots(n - 1) + {n - 1}
  }

  ghost function Init(c: Config): State {
    State(Slots(|c.owner|), seq(c.channels, _ => Idle), [], None, {},
          seq(|c.owner|, _ => []), seq(c.channels, _ => []), seq(c.channels, _ => []), seq(c.channels, _ => []))
  }

  ghost predicate Below(list: seq<nat>, n: nat) {
    forall i :: 0 <= i < |list| ==> list[i] < n
  }

  ghost predicate Shaped(c: Config, t: State) {
    && |t.rx| == |t.received| == |t.fed| == |t.posts| == c.channels
    && |t.buffer| == |c.owner|
    && (forall s :: s in t.free ==> s < |c.owner|)
    && Below(t.queue, |c.owner|)
    && (t.feeding.Some? ==> t.feeding.value < |c.owner|)
    && (forall i :: 0 <= i < |t.rx| && !t.rx[i].Idle? ==> t.rx[i].slot < |c.owner|)
  }

  /** The steps the code can take from a state. */
  ghost predicate Enabled(c: Config, t: State, step: Step)
    requires Shaped(c, t)
  {
    match step
    case Acquire(ch, slot) => ch < c.channels && t.rx[ch].Idle? && slot in t.free && c.owner[slot] == ch
    case Receive(ch, bytes) => ch < c.channels && t.rx[ch].Acquired? && bytes != []
    case ReceiveNothing(ch) => ch < c.channels && t.rx[ch].Acquired?
    case Post(ch) => ch < c.channels && t.rx[ch].Filled?
    case BeginFeed => t.feeding.None? && t.queue != []
    case EndFeed => t.feeding.Some?
  }

  ghost function Next(c: Config, t: State, step: Step): State
    requires c.Valid() && Shaped(c, t) && Enabled(c, t, step)
  {
    match step
    case Acquire(ch, slot) => t.(free := t.free - {slot}, rx := t.rx[ch := Acquired(slot)])
    case Receive(ch, bytes) =>
      t.(rx := t.rx[ch := Filled(t.rx[ch].slot)], buffer := t.buffer[t.rx[ch].slot := bytes],
         received := t.received[ch := t.received[ch] + bytes])
    case ReceiveNothing(ch) => t.(free := t.free + {t.rx[ch].slot}, rx := t.rx[ch := Idle])
    case Post(ch) =>
      var (s, full) := (t.rx[ch].slot, |t.queue| >= c.depth);
      var posted := t.(rx := t.rx[ch := Idle], posts := t.posts[ch := t.posts[ch] + [Chunk(t.buffer[s], full)]]);
      if full then posted.(lost := t.lost + {s}) else posted.(queue := t.queue + [s])
    case BeginFeed => t.(feeding := Some(t.queue[0]), queue := t.queue[1..])
    case EndFeed =>
      var s := t.feeding.value;
      var ch := c.owner[s];
      t.(feeding := None, free := t.free + {s}, fed := t.fed[ch := t.fed[ch] + t.buffer[s]])
  }

  // ---- Where a slot is ----

  ghost predicate HeldByRx(c: Config, t: State, s: nat)
    requires c.Valid() && Shaped(c, t) && s < |c.owner|
  {
    !t.rx[c.owner[s]].Idle? && t.rx[c.owner[s]].slot == s
  }

  /** The places a slot can be, as a number of hits. */
  ghost function Places(c: Config, t: State, s: nat): nat
    requires c.Valid() && Shaped(c, t) && s < |c.owner|
  {
    (if s in t.free then 1 else 0) + (if HeldByRx(c, t, s) then 1 else 0) + (if s in t.queue then 1 else 0)
    + (if t.feeding == Some(s) then 1 else 0) + (if s in t.lost then 1 else 0)
  }

  /** Every slot is in exactly one place, queued once at most, and held only by its own channel's
      task. */
  ghost predicate Placed(c: Config, t: State) {
    && c.Valid() && Shaped(c, t)
    && (forall s: nat :: s < |c.owner| ==> Places(c, t, s) == 1)
    && Distinct(t.queue) && |t.queue| <= c.depth
    && (forall ch :: 0 <= ch < c.channels && !t.rx[ch].Idle? ==> c.owner[t.rx[ch].slot] == ch)
  }

  lemma InitPlaced(c: Config)
    requires c.Valid()
    ensures Placed(c, Init(c))
  {
  }

  lemma RxPlaced(c: Config, t: State, step: Step)
    requires Placed(c, t) && Enabled(c, t, step)
    requires step.Acquire? || step.Receive? || step.ReceiveNothing?
    ensures Placed(c, Next(c, t, step))
  {
    var u := Next(c, t, step);
    assert Shaped(c, u);
    var x := if step.Acquire? then step.slot else t.rx[step.ch].slot;
    assert Places(c, t, x) == 1;
    forall s: nat | s < |c.owner| ensures Places(c, u, s) == 1 {
      assert Places(c, t, s) == 1;
    }
  }

  lemma PostPlaced(c: Config, t: State, ch: nat)
    requires Placed(c, t) && Enabled(c, t, Post(ch))
    ensures Placed(c, Next(c, t, Post(ch)))
  {
    var u, x := Next(c, t, Post(ch)), t.rx[ch].slot;
    assert Shaped(c, u);
    assert Places(c, t, x) == 1;
    DistinctAppend(t.queue, x);
    forall s: nat | s < |c.owner| ensures Places(c, u, s) == 1 {
      assert Places(c, t, s) == 1;
    }
  }

  lemma FeedPlaced(c: Config, t: State, step: Step)
    requires Placed(c, t) && Enabled(c, t, step) && (step.BeginFeed? || step.EndFeed?)
    ensures Placed(c, Next(c, t, step))
  {
    var u := Next(c, t, step);
    if step.BeginFeed? {
      assert t.queue == [t.queue[0]] + t.queue[1..];
    }
    assert Shaped(c, u);
    forall s: nat | s < |c.owner| ensures Places(c, u, s) == 1 {
      assert Places(c, t, s) == 1;
    }
  }

  /** Every step of every task keeps every slot in exactly one place. */
  lemma NextPlaced(c: Config, t: State, step: Step)
    requires Placed(c, t) && Enabled(c, t, step)
    ensures Placed(c, Next(c, t, step))
  {
    match step
    case Post(ch) => PostPlaced(c, t, ch);
    case BeginFeed => FeedPlaced(c, t, step);
    case EndFeed => FeedPlaced(c, t, step);
    case _ => RxPlaced(c, t, step);
  }

  /** When the pools together fit the executor queue, no post is refused: a slot about to be posted
      is not queued, so the queue has room. */
  lemma PostFits(c: Config, t: State, ch: nat)
    requires Placed(c, t) && Enabled(c, t, Post(ch)) && |c.owner| <= c.depth
    ensures |t.queue| < c.depth
  {
    assert Places(c, t, t.rx[ch].slot) == 1;
    assert forall s :: s in t.queue ==> s < |c.owner|;
    Pigeonhole(t.queue, |c.owner|);
  }

  // ---- The bytes ----

  /** The bytes of channel `ch` in the posted slots, oldest first. */
  ghost function Queued(c: Config, queue: seq<nat>, buffer: seq<Bytes>, ch: nat): Bytes
    requires |buffer| == |c.owner| && Below(queue, |c.owner|)
  {
    if queue == [] then []
    else
      var (front, last) := (queue[..|queue| - 1], queue[|queue| - 1]);
      Queued(c, front, buffer, ch) + if c.owner[last] == ch then buffer[last] else []
  }

  lemma {:induction false} QueuedFront(c: Config, queue: seq<nat>, buffer: seq<Bytes>, ch: nat)
    requires |buffer| == |c.owner| && Below(queue, |c.owner|)
    requires queue != []
    ensures Queued(c, queue, buffer, ch)
         == (if c.owner[queue[0]] == ch then buffer[queue[0]] else []) + Queued(c, queue[1..], buffer, ch)
  {
    if |queue| > 1 {
      QueuedFront(c, queue[..|queue| - 1], buffer, ch);
      assert queue[..|queue| - 1][1..] == queue[1..][..|queue| - 2];
    }
  }

  lemma {:induction false} QueuedFrame(c: Config, queue: seq<nat>, buffer: seq<Bytes>, ch: nat, x: nat, bytes: Bytes)
    requires |buffer| == |c.owner| && Below(queue, |c.owner|)
    requires x < |buffer| && x !in queue
    ensures Queued(c, queue, buffer[x := bytes], ch) == Queued(c, queue, buffer, ch)
  {
    if queue != [] {
      QueuedFrame(c, queue[..|queue| - 1], buffer, ch, x, bytes);
    }
  }

  ghost function Feeding(c: Config, t: State, ch: nat): Bytes
    requires Shaped(c, t)
  {
    if t.feeding.Some? && c.owner[t.feeding.value] == ch then t.buffer[t.feeding.value] else []
  }

  ghost function InHand(c: Config, t: State, ch: nat): Bytes
    requires Shaped(c, t) && ch < c.channels
  {
    if t.rx[ch].Filled? then t.buffer[t.rx[ch].slot] else []
  }

  /** The bytes of some posts, and of those that were not refused. */
  ghost function Stream(cs: seq<Chunk>): Bytes {
    if cs == [] then [] else Stream(cs[..|cs| - 1]) + cs[|cs| - 1].bytes
  }

  ghost function Delivered(cs: seq<Chunk>): Bytes {
    if cs == [] then [] else Delivered(cs[..|cs| - 1]) + if cs[|cs| - 1].lost then [] else cs[|cs| - 1].bytes
  }

  /** A channel's stream is its posts and what is in its receiver's hand; what was fed, then what is being
      fed and queued, is that stream without the posts that were refused. */
  ghost predicate Accounted(c: Config, t: State, ch: nat)
    requires Shaped(c, t) && ch < c.channels
  {
    && t.received[ch] == Stream(t.posts[ch]) + InHand(c, t, ch)
    && Delivered(t.posts[ch]) == t.fed[ch] + Feeding(c, t, ch) + Queued(c, t.queue, t.buffer, ch)
  }

  lemma PostsGrow(cs: seq<Chunk>, x: Chunk)
    ensures Stream(cs + [x]) == Stream(cs) + x.bytes
    ensures Delivered(cs + [x]) == Delivered(cs) + if x.lost then [] else x.bytes
  {
    assert (cs + [x])[..|cs|] == cs;
  }

  lemma ReceiveAccounted(c: Config, t: State, other: nat, bytes: Bytes, ch: nat)
    requires Placed(c, t) && Enabled(c, t, Receive(other, bytes)) && ch < c.channels && Accounted(c, t, ch)
    ensures Shaped(c, Next(c, t, Receive(other, bytes))) && Accounted(c, Next(c, t, Receive(other, bytes)), ch)
  {
    var x := t.rx[other].slot;
    assert Places(c, t, x) == 1;
    QueuedFrame(c, t.queue, t.buffer, ch, x, bytes);
    assert InHand(c, t, other) == [] && Stream(t.posts[other]) + [] == Stream(t.posts[other]);
  }

  lemma PostAccounted(c: Config, t: State, other: nat, ch: nat)
    requires Placed(c, t) && Enabled(c, t, Post(other)) && ch < c.channels && Accounted(c, t, ch)
    ensures Shaped(c, Next(c, t, Post(other))) && Accounted(c, Next(c, t, Post(other)), ch)
  {
    hide Placed, Places, HeldByRx, Next, Queued, Stream, Delivered, Enabled, Feeding, InHand;
    PostFacts(c, t, other);
    PostHands(c, t, other, ch);
    var u := Next(c, t, Post(other));
    var x, full := t.rx[other].slot, |t.queue| >= c.depth;
    QueueGrows(c, t.queue, t.buffer, ch, x);
    PostsGrow(t.posts[other], Chunk(t.buffer[x], full));
    Joins(t.fed[ch] + Feeding(c, t, ch), Queued(c, t.queue, t.buffer, ch), t.buffer[x]);
    Joins(Stream(t.posts[ch]), t.buffer[x], []);
    Joins(Delivered(t.posts[ch]), [], []);
  }

  lemma Joins(a: Bytes, b: Bytes, d: Bytes)
    ensures a + b + d == a + (b + d)
    ensures a + [] == a && b + [] == b && a + b + [] == a + b
  {
  }

  lemma PostHands(c: Config, t: State, other: nat, ch: nat)
    requires Placed(c, t) && Enabled(c, t, Post(other)) && ch < c.channels
    ensures Shaped(c, Next(c, t, Post(other)))
    ensures Feeding(c, Next(c, t, Post(other)), ch) == Feeding(c, t, ch)
    ensures InHand(c, Next(c, t, Post(other)), ch) == if other == ch then [] else InHand(c, t, ch)
    ensures other == ch ==> InHand(c, t, ch) == t.buffer[t.rx[ch].slot]
  {
    PostFacts(c, t, other);
  }

  /** What a post changes. */
  lemma PostFacts(c: Config, t: State, ch: nat)
    requires Placed(c, t) && Enabled(c, t, Post(ch))
    ensures c.Valid() && Shaped(c, t) && ch < c.channels && t.rx[ch].Filled? && t.rx[ch].slot < |c.owner| && c.owner[t.rx[ch].slot] == ch
    ensures var (u, x, full) := (Next(c, t, Post(ch)), t.rx[ch].slot, |t.queue| >= c.depth);
            && Shaped(c, u) && u.rx == t.rx[ch := Idle] && u.posts == t.posts[ch := t.posts[ch] + [Chunk(t.buffer[x], full)]]
            && u.queue == (if full then t.queue else t.queue + [x])
            && u.fed == t.fed && u.received == t.received && u.buffer == t.buffer && u.feeding == t.feeding
  {
    PostPlaced(c, t, ch);
  }

  lemma QueueGrows(c: Config, queue: seq<nat>, buffer: seq<Bytes>, ch: nat, x: nat)
    requires |buffer| == |c.owner| && Below(queue, |c.owner|) && x < |c.owner|
    ensures Below(queue + [x], |c.owner|)
    ensures Queued(c, queue + [x], buffer, ch) == Queued(c, queue, buffer, ch) + if c.owner[x] == ch then buffer[x] else []
  {
    assert (queue + [x])[..|queue|] == queue;
  }

  lemma BeginFeedAccounted(c: Config, t: State, ch: nat)
    requires Placed(c, t) && Enabled(c, t, BeginFeed) && ch < c.channels && Accounted(c, t, ch)
    ensures Shaped(c, Next(c, t, BeginFeed)) && Accounted(c, Next(c, t, BeginFeed), ch)
  {
    FeedPlaced(c, t, BeginFeed);
    QueuedFront(c, t.queue, t.buffer, ch);
    var first := if c.owner[t.queue[0]] == ch then t.buffer[t.queue[0]] else [];
    var rest := Queued(c, t.queue[1..], t.buffer, ch);
    assert Feeding(c, t, ch) == [];
    assert t.fed[ch] + [] + (first + rest) == t.fed[ch] + first + rest;
  }

  lemma EndFeedAccounted(c: Config, t: State, ch: nat)
    requires Placed(c, t) && Enabled(c, t, EndFeed) && ch < c.channels && Accounted(c, t, ch)
    ensures Shaped(c, Next(c, t, EndFeed)) && Accounted(c, Next(c, t, EndFeed), ch)
  {
    FeedPlaced(c, t, EndFeed);
  }

  lemma NextAccounted(c: Config, t: State, step: Step, ch: nat)
    requires Placed(c, t) && Enabled(c, t, step) && ch < c.channels && Accounted(c, t, ch)
    ensures Shaped(c, Next(c, t, step)) && Accounted(c, Next(c, t, step), ch)
  {
    match step
    case Receive(other, bytes) => ReceiveAccounted(c, t, other, bytes, ch);
    case Post(other) => PostAccounted(c, t, other, ch);
    case BeginFeed => BeginFeedAccounted(c, t, ch);
    case EndFeed => EndFeedAccounted(c, t, ch);
    case _ => RxPlaced(c, t, step);
  }

  /** As long as no slot is lost no post was refused. */
  ghost predicate LossShows(c: Config, t: State)
    requires Shaped(c, t)
  {
    t.lost == {} ==> forall ch :: 0 <= ch < c.channels ==> Unbroken(t.posts[ch])
  }

  ghost predicate Unbroken(cs: seq<Chunk>) {
    forall i :: 0 <= i < |cs| ==> !cs[i].lost
  }

  lemma {:induction false} UnbrokenStream(cs: seq<Chunk>)
    requires Unbroken(cs)
    ensures Delivered(cs) == Stream(cs)
  {
    if cs != [] {
      UnbrokenStream(cs[..|cs| - 1]);
    }
  }

  // ---- Whole runs ----

  /** The state after a run from the start, if every step was possible when it was taken. */
  ghost function After(c: Config, steps: seq<Step>): Option<State>
    requires c.Valid()
  {
    if steps == [] then Some(Init(c))
    else
      var t := After(c, steps[..|steps| - 1]);
      if t.Some? && Shaped(c, t.value) && Enabled(c, t.value, steps[|steps| - 1])
      then Some(Next(c, t.value, steps[|steps| - 1])) else None
  }

  lemma {:induction false} RunPlaced(c: Config, steps: seq<Step>)
    requires c.Valid() && After(c, steps).Some?
    ensures Placed(c, After(c, steps).value)
  {
    if steps == [] {
      InitPlaced(c);
    } else {
      RunPlaced(c, steps[..|steps| - 1]);
      NextPlaced(c, After(c, steps[..|steps| - 1]).value, steps[|steps| - 1]);
    }
  }

  /** Over every interleaving, losses or not: what was fed to a channel is an in-order prefix of its stream
      with exactly the bytes of the refused posts missing. */
  lemma {:induction false} RunBytes(c: Config, steps: seq<Step>)
    requires c.Valid() && After(c, steps).Some?
    ensures var t := After(c, steps).value;
            && Placed(c, t) && LossShows(c, t)
            && forall ch: nat :: ch < c.channels ==>
                 && Accounted(c, t, ch)
                 && t.fed[ch] <= Delivered(t.posts[ch]) && Stream(t.posts[ch]) <= t.received[ch]
  {
    hide Placed, Next, Enabled, Accounted, Stream, Delivered, Queued, LossShows, Init;
    RunPlaced(c, steps);
    if steps == [] {
      InitAccounted(c);
    } else {
      var t, step := After(c, steps[..|steps| - 1]).value, steps[|steps| - 1];
      RunBytes(c, steps[..|steps| - 1]);
      LossKeepsShowing(c, t, step);
      forall ch: nat | ch < c.channels ensures Accounted(c, Next(c, t, step), ch) {
        NextAccounted(c, t, step, ch);
      }
    }
    var u := After(c, steps).value;
    forall ch: nat | ch < c.channels ensures u.fed[ch] <= Delivered(u.posts[ch]) && Stream(u.posts[ch]) <= u.received[ch] {
      Prefixes(c, u, ch);
    }
  }

  lemma InitAccounted(c: Config)
    requires c.Valid()
    ensures Shaped(c, Init(c)) && LossShows(c, Init(c)) && forall ch: nat :: ch < c.channels ==> Accounted(c, Init(c), ch)
  {
  }

  lemma LossKeepsShowing(c: Config, t: State, step: Step)
    requires Placed(c, t) && Enabled(c, t, step) && LossShows(c, t)
    ensures Shaped(c, Next(c, t, step)) && LossShows(c, Next(c, t, step))
  {
    NextPlaced(c, t, step);
    hide Places, HeldByRx;
  }

  lemma Prefixes(c: Config, t: State, ch: nat)
    requires Shaped(c, t) && ch < c.channels && Accounted(c, t, ch)
    ensures t.fed[ch] <= Delivered(t.posts[ch]) && Stream(t.posts[ch]) <= t.received[ch]
  {
  }

  /** Over every interleaving, if the pools together fit the queue: no slot is ever lost, every slot
      is in exactly one place, and the bytes fed are an in-order prefix of the bytes received. */
  lemma {:induction false} RunSafe(c: Config, steps: seq<Step>)
    requires c.Valid() && |c.owner| <= c.depth && After(c, steps).Some?
    ensures var t := After(c, steps).value;
            && Placed(c, t) && t.lost == {}
            && forall ch: nat :: ch < c.channels ==> t.fed[ch] <= t.received[ch]
  {
    RunBytes(c, steps);
    if steps != [] {
      var t, step := After(c, steps[..|steps| - 1]).value, steps[|steps| - 1];
      RunSafe(c, steps[..|steps| - 1]);
      if step.Post? {
        PostFits(c, t, step.ch);
      }
    }
    var t := After(c, steps).value;
    forall ch: nat | ch < c.channels ensures t.fed[ch] <= t.received[ch] {
      UnbrokenStream(t.posts[ch]);
    }
  }

  // ---- The bound is exact ----

  /** Receive tasks outrunning the executor: slot after slot is filled and posted, none is fed. */
  ghost function Flood(c: Config, n: nat): seq<Step>
    requires n <= |c.owner|
  {
    if n == 0 then []
    else Turn(c, Flood(c, n - 1), n - 1)
  }

  /** One turn of a receive task that gets slot `n`. */
  ghost function Turn(c: Config, steps: seq<Step>, n: nat): seq<Step>
    requires n < |c.owner|
  {
    steps + [Acquire(c.owner[n], n)] + [Receive(c.owner[n], [0])] + [Post(c.owner[n])]
  }

  lemma AfterOne(c: Config, steps: seq<Step>, step: Step)
    requires c.Valid() && After(c, steps).Some?
    requires Shaped(c, After(c, steps).value) && Enabled(c, After(c, steps).value, step)
    ensures After(c, steps + [step]) == Some(Next(c, After(c, steps).value, step))
  {
    assert (steps + [step])[..|steps|] == steps;
  }

  /** After a flood of `n` posts: all of them queued as far as the queue goes, every task idle and
      every later slot free. */
  ghost predicate Flooded(c: Config, t: State, n: nat) {
    && Shaped(c, t) && |t.queue| == (if n <= c.depth then n else c.depth)
    && (forall ch :: 0 <= ch < c.channels ==> t.rx[ch].Idle?)
    && (forall s: nat :: n <= s < |c.owner| ==> s in t.free)
    && (n == c.depth + 1 ==> c.depth in t.lost)
  }

  lemma FloodOne(c: Config, steps: seq<Step>, n: nat)
    requires c.Valid() && n < |c.owner| && n <= c.depth
    requires After(c, steps).Some? && Flooded(c, After(c, steps).value, n)
    ensures After(c, Turn(c, steps, n)).Some? && Flooded(c, After(c, Turn(c, steps, n)).value, n + 1)
  {
    var ch := c.owner[n];
    AfterOne(c, steps, Acquire(ch, n));
    var one := steps + [Acquire(ch, n)];
    AfterOne(c, one, Receive(ch, [0]));
    var two := one + [Receive(ch, [0])];
    AfterOne(c, two, Post(ch));
  }

  lemma FloodNone(c: Config)
    requires c.Valid()
    ensures After(c, []).Some? && Flooded(c, After(c, []).value, 0)
  {
  }

  lemma {:induction false} FloodFills(c: Config, n: nat)
    requires c.Valid() && n <= |c.owner| && n <= c.depth + 1
    ensures After(c, Flood(c, n)).Some? && Flooded(c, After(c, Flood(c, n)).value, n)
  {
    hide After, Flooded, Turn;
    if n == 0 {
      FloodNone(c);
    } else {
      FloodFills(c, n - 1);
      FloodOne(c, Flood(c, n - 1), n - 1);
    }
  }

  /** A post can be refused, and its slot and bytes lost for good, if and only if the pools together
      outsize the queue; that each pool alone fits it is not enough. */
  lemma LossIff(c: Config)
    requires c.Valid()
    ensures |c.owner| > c.depth <==>
              exists steps :: After(c, steps).Some? && After(c, steps).value.lost != {}
  {
    if |c.owner| > c.depth {
      FloodFills(c, c.depth + 1);
      assert After(c, Flood(c, c.depth + 1)).value.lost != {};
    } else {
      forall steps | After(c, steps).Some? ensures After(c, steps).value.lost == {} {
        RunSafe(c, steps);
      }
    }
  }
}
