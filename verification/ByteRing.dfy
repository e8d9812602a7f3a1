/** The byte ring under the recorder: framed records in a fixed store, written and read across its end,
    against the list of records it holds. */
module ByteRing {
  import opened Options
  import opened Words
  import opened LittleEndian
  import opened Varint

  type Bytes = seq<Byte>

  type Record = Bytes

  /** The size of a record is a 64-bit number. */
  predicate Sized(rs: seq<Record>) {
    forall i :: 0 <= i < |rs| ==> |rs[i]| < 0x1_0000_0000_0000_0000
  }

  function Frame(r: Record): Bytes {
    Leb(|r|) + r
  }

  function Framed(rs: seq<Record>): Bytes {
    if rs == [] then [] else Frame(rs[0]) + Framed(rs[1..])
  }

  lemma FramedStep(rs: seq<Record>)
    ensures Framed(rs) == if rs == [] then [] else Frame(rs[0]) + Framed(rs[1..])
  {
  }

  lemma {:induction false} FramedAppend(rs: seq<Record>, qs: seq<Record>)
    ensures Framed(rs + qs) == Framed(rs) + Framed(qs)
  {
    FramedStep(rs);
    FramedStep(rs + qs);
    hide Frame, Framed;
    if rs == [] {
      assert rs + qs == qs;
    } else {
      FramedAppend(rs[1..], qs);
      assert (rs + qs)[0] == rs[0] && (rs + qs)[1..] == rs[1..] + qs;
      assert Frame(rs[0]) + (Framed(rs[1..]) + Framed(qs)) == Frame(rs[0]) + Framed(rs[1..]) + Framed(qs);
    }
  }

  lemma FramedOne(r: Record)
    ensures Framed([r]) == Frame(r)
  {
    assert [r][1..] == [];
  }

  lemma FramedSnoc(rs: seq<Record>, r: Record)
    ensures Framed(rs + [r]) == Framed(rs) + (Leb(|r|) + r)
    ensures Sized(rs) && |r| < 0x1_0000_0000_0000_0000 ==> Sized(rs + [r])
  {
    FramedAppend(rs, [r]);
    FramedOne(r);
  }

  /** The header of the first record is found in any part of the bytes that is ten long, or is all of them. */
  lemma FirstHeader(rs: seq<Record>, hdr: Bytes)
    requires rs != [] && Sized(rs) && hdr <= Framed(rs) && (|hdr| >= 10 || hdr == Framed(rs))
    ensures Parse(hdr, 0) == Some((|rs[0]|, |Leb(|rs[0]|)|))
    ensures |Frame(rs[0])| == |Leb(|rs[0]|)| + |rs[0]| <= |Framed(rs)|
  {
    var leb := Leb(|rs[0]|);
    RoundTrip(|rs[0]|, []);
    assert leb <= Framed(rs) && |leb| <= |hdr|;
    assert hdr[..|leb|] == leb && hdr == leb + hdr[|leb|..];
    RoundTrip(|rs[0]|, hdr[|leb|..]);
  }

  lemma FramedNext(rs: seq<Record>, k: nat)
    requires k < |rs|
    ensures Framed(rs[..k + 1]) == Framed(rs[..k]) + Frame(rs[k])
  {
    assert rs[..k + 1] == rs[..k] + [rs[k]];
    FramedAppend(rs[..k], [rs[k]]);
    FramedOne(rs[k]);
  }

  /** The bytes give the records back. */
  lemma {:induction false} FramedUnique(rs: seq<Record>, qs: seq<Record>)
    requires Sized(rs) && Sized(qs) && Framed(rs) == Framed(qs)
    ensures rs == qs
  {
    FrameNotEmpty(rs);
    FrameNotEmpty(qs);
    if rs != [] && qs != [] {
      FirstHeader(rs, Framed(rs));
      FirstHeader(qs, Framed(qs));
      var leb, n := |Leb(|rs[0]|)|, |Frame(rs[0])|;
      FramedStep(rs);
      FramedStep(qs);
      hide Framed, Leb;
      assert rs[0] == Framed(rs)[leb..n] == qs[0];
      assert Framed(rs[1..]) == Framed(rs)[n..] == Framed(qs[1..]);
      FramedUnique(rs[1..], qs[1..]);
    }
  }

  // ---- Positions ----

  /** Positions wrap around once on the way. */
  lemma Wrap(at: nat, i: nat, n: nat)
    requires i <= n && n > 0
    ensures (at + i) % n == if at % n + i < n then at % n + i else at % n + i - n
  {
    var q, r := at / n, at % n;
    assert at == n * q + r;
    if r + i < n {
      DivModUnique(at + i, n, q, r + i);
    } else {
      assert n * (q + 1) == n * q + n;
      DivModUnique(at + i, n, q + 1, r + i - n);
    }
  }

  /** What the store holds between two positions. */
  ghost function Held(store: Bytes, tail: nat, head: nat): (s: Bytes)
    requires tail <= head && (store == [] ==> tail == head)
    ensures |s| == head - tail
  {
    seq(head - tail, i requires 0 <= i < head - tail => store[(tail + i) % |store|])
  }

  /** Writing the byte at the head appends it, as long as there is room. */
  lemma HeldPush(store: Bytes, tail: nat, head: nat, b: Byte)
    requires tail <= head < tail + |store|
    ensures Held(store[head % |store| := b], tail, head + 1) == Held(store, tail, head) + [b]
  {
    var store' := store[head % |store| := b];
    forall i | 0 <= i < head - tail ensures Held(store', tail, head + 1)[i] == Held(store, tail, head)[i] {
      Wrap(tail + i, head - tail - i, |store|);
    }
  }

  lemma HeldDrop(store: Bytes, tail: nat, mid: nat, head: nat)
    requires tail <= mid <= head && (store == [] ==> tail == head)
    ensures Held(store, mid, head) == Held(store, tail, head)[mid - tail..]
    ensures Held(store, tail, mid) == Held(store, tail, head)[..mid - tail]
  {
  }

  class Ring {
    const store: array<Byte>
    /** `drop_oldest`, rather than `drop_newest`. */
    const evicting: bool
    var head: nat
    var tail: nat
    ghost var records: seq<Record>

    ghost predicate Valid()
      reads this, store
    {
      && tail <= head <= tail + store.Length
      && Held(store[..], tail, head) == Framed(records) && Sized(records)
    }

    constructor (capacity: nat, evicting: bool)
      ensures Valid() && records == [] && store.Length == capacity && this.evicting == evicting && fresh(store)
    {
      store := new Byte[capacity](_ => 0);
      this.evicting, head, tail, records := evicting, 0, 0, [];
    }

    function Used(): nat
      requires tail <= head
      reads this
    {
      head - tail
    }

    /** `write_wrapped`: the bytes go in from position `at` on, over the end of the store if need be. */
    method WriteWrapped(at: nat, src: Bytes)
      requires tail <= at && at + |src| <= tail + store.Length
      modifies store
      ensures Held(store[..], tail, at + |src|) == old(Held(store[..], tail, at)) + src
    {
      for i := 0 to |src|
        invariant Held(store[..], tail, at + i) == old(Held(store[..], tail, at)) + src[..i]
      {
        HeldPush(store[..], tail, at + i, src[i]);
        ghost var was := store[..];
        store[(at + i) % store.Length] := src[i];
        assert store[..] == was[(at + i) % |was| := src[i]];
        assert old(Held(store[..], tail, at)) + src[..i] + [src[i]] == old(Held(store[..], tail, at)) + src[..i + 1];
      }
      assert src[..|src|] == src;
    }

    /** `copy_out`: at most two writes to the sink, the second from the start of the store. */
    method CopyOut(at: nat, n: nat) returns (out: Bytes)
      requires n <= store.Length && store.Length > 0
      ensures out == Held(store[..], at, at + n)
    {
      var first := at % store.Length;
      var run := if n < store.Length - first then n else store.Length - first;
      out := store[first..first + run];
      if run < n {
        out := out + store[..n - run];
      }
      forall i | 0 <= i < n ensures out[i] == Held(store[..], at, at + n)[i] {
        Wrap(at, i, store.Length);
      }
    }

    /** `peek_length`: the size of the oldest record and of its header, if there is one. */
    method PeekLength() returns (r: Option<(nat, nat)>)
      requires Valid()
      ensures r == if records == [] then None else Some((|records[0]|, |Leb(|records[0]|)|))
      ensures records != [] ==> |Frame(records[0])| == |Leb(|records[0]|)| + |records[0]| <= Used()
    {
      if Used() == 0 {
        Empty();
        return None;
      }
      var avail := if Used() < 10 then Used() else 10;
      var hdr: Bytes := [];
      for i := 0 to avail
        invariant |hdr| == i && hdr == Held(store[..], tail, head)[..i]
      {
        hdr := hdr + [store[(tail + i) % store.Length]];
      }
      assert records != [];
      FirstHeader(records, hdr);
      r := ReadVarint(hdr);
    }

    lemma Empty()
      requires Valid() && Used() == 0
      ensures records == []
    {
    }

    /** The oldest record leaves the ring. */
    method Pop(n: nat)
      requires Valid() && records != [] && n == |Frame(records[0])| <= Used()
      modifies this`tail, this`records
      ensures Valid() && tail == old(tail) + n && records == old(records)[1..]
    {
      HeldDrop(store[..], tail, tail + n, head);
      tail, records := tail + n, records[1..];
    }

    /** `evict_until`: whole records go, oldest first, until `need` bytes are free, and no more. */
    method EvictUntil(need: nat) returns (ghost k: nat)
      requires Valid() && need <= store.Length
      modifies this`tail, this`records
      ensures Valid() && Used() + need <= store.Length
      ensures k <= |old(records)| && records == old(records)[k..]
      ensures k > 0 ==> |Framed(old(records)[k - 1..])| + need > store.Length
    {
      k := 0;
      while store.Length - Used() < need
        invariant Valid() && k <= |old(records)| && records == old(records)[k..]
        invariant k > 0 ==> |Framed(old(records)[k - 1..])| + need > store.Length
        decreases |records|
      {
        var first := PeekLength();
        assert records != [];
        Pop(first.value.1 + first.value.0);
        k := k + 1;
      }
    }

    /** `try_push`: refused if it can never fit or, without eviction, does not fit now; otherwise the ring
        holds the record last, after evicting as little as needed. */
    method TryPush(record: Record) returns (ok: bool, ghost k: nat)
      requires Valid() && |record| < 0x1_0000_0000_0000_0000
      modifies this`head, this`tail, this`records, store
      ensures Valid() && k <= |old(records)|
      ensures ok <==> |Frame(record)| <= store.Length && (evicting || old(Used()) + |Frame(record)| <= store.Length)
      ensures records == old(records)[k..] + if ok then [record] else []
      ensures k > 0 ==> ok && evicting && |Framed(old(records)[k - 1..])| + |Frame(record)| > store.Length
      ensures head == old(head) + if ok then |Frame(record)| else 0
    {
      var header := WriteVarint(|record|);
      var frame := |header| + |record|;
      k := 0;
      assert records == records[0..];
      if frame > store.Length {
        return false, 0;
      }
      if evicting {
        k := EvictUntil(frame);
      } else if store.Length - Used() < frame {
        return false, 0;
      }
      Append(record, header);
      ok := true;
    }

    method Append(record: Record, header: Bytes)
      requires Valid() && |record| < 0x1_0000_0000_0000_0000 && header == Leb(|record|) && Used() + |header| + |record| <= store.Length
      modifies this`head, this`records, store
      ensures Valid() && records == old(records) + [record] && tail == old(tail)
      ensures head == old(head) + |header| + |record|
    {
      hide Framed, Held, Leb, Sized;
      FramedSnoc(records, record);
      ghost var was := Framed(records);
      var mid := head + |header|;
      WriteWrapped(head, header);
      WriteWrapped(mid, record);
      assert was + header + record == was + (header + record);
      head, records := mid + |record|, records + [record];
    }

    /** The body of the drain loops: the oldest record goes out, framed. */
    method ShipOne(n: nat) returns (frame: Bytes)
      requires Valid() && records != [] && n == |Frame(records[0])| <= Used()
      modifies this`tail, this`records
      ensures Valid() && tail == old(tail) + n && records == old(records)[1..] && frame == Frame(old(records)[0])
    {
      HeldDrop(store[..], tail, tail + n, head);
      FramedStep(records);
      hide Framed, Frame, Held;
      frame := CopyOut(tail, n);
      Pop(n);
    }

    /** `drain`: whole records go to the sink, framed and in order, until the budget is reached; says whether
        any are left. */
    method Drain(budget: nat) returns (out: Bytes, more: bool, ghost k: nat)
      requires Valid()
      modifies this`tail, this`records
      ensures Valid() && k <= |old(records)| && records == old(records)[k..] && out == Framed(old(records)[..k])
      ensures more <==> records != []
      ensures k < |old(records)| ==> |out| >= budget
      ensures k > 0 ==> |Framed(old(records)[..k - 1])| < budget
    {
      hide Held, Framed, Frame;
      out, k := [], 0;
      FramedStep([]);
      assert records[..0] == [];
      while |out| < budget
        invariant Valid() && k <= |old(records)| && records == old(records)[k..] && out == Framed(old(records)[..k])
        invariant k > 0 ==> |Framed(old(records)[..k - 1])| < budget
        decreases |records|
      {
        var first := PeekLength();
        if first.None? {
          break;
        }
        FramedNext(old(records), k);
        var frame := ShipOne(first.value.1 + first.value.0);
        out, k := out + frame, k + 1;
      }
      FrameNotEmpty(records);
      more := Used() != 0;
    }

    /** `drain_window`: the same, but nothing that ends past the frozen head. */
    method DrainWindow(frozen: nat, budget: nat) returns (out: Bytes, more: bool, ghost k: nat)
      requires Valid()
      modifies this`tail, this`records
      ensures Valid() && k <= |old(records)| && records == old(records)[k..] && out == Framed(old(records)[..k])
      ensures tail == old(tail) + |out| && (k > 0 ==> tail <= frozen)
      ensures more <==> records != [] && tail < frozen
      ensures k < |old(records)| ==> |out| >= budget || tail + |Frame(old(records)[k])| > frozen
      ensures k > 0 ==> |Framed(old(records)[..k - 1])| < budget
    {
      hide Held, Framed, Frame;
      out, k := [], 0;
      FramedStep([]);
      assert records[..0] == [];
      while |out| < budget
        invariant Valid() && k <= |old(records)| && records == old(records)[k..] && out == Framed(old(records)[..k])
        invariant tail == old(tail) + |out| && (k > 0 ==> tail <= frozen)
        invariant k > 0 ==> |Framed(old(records)[..k - 1])| < budget
        decreases |records|
      {
        var first := PeekLength();
        if tail >= frozen || first.None? {
          FrameNotEmpty(records);
          break;
        }
        var n := first.value.1 + first.value.0;
        if tail + n > frozen {
          break;
        }
        FramedNext(old(records), k);
        var frame := ShipOne(n);
        out, k := out + frame, k + 1;
      }
      FrameNotEmpty(records);
      more := tail < frozen && Used() != 0;
    }
  }

  lemma FrameNotEmpty(rs: seq<Record>)
    ensures rs != [] ==> |Frame(rs[0])| > 0 && |Framed(rs)| > 0
    ensures rs == [] ==> Framed(rs) == []
  {
  }
}
