/** The LEB128 counters that frame records: seven bits a byte, least significant first, the top bit set on
    all but the last. */
module Varint {
  import opened Options
  import opened Words
  import opened LittleEndian

  function Leb(v: nat): (s: seq<Byte>)
    ensures |s| >= 1
  {
    if v < 128 then [v] else [v % 128 + 128] + Leb(v / 128)
  }

  /** What a reader that has consumed `i` bytes makes of the rest: at most ten bytes in all, and no more
      than one bit in the tenth. */
  function Parse(data: seq<Byte>, i: nat): (r: Option<(nat, nat)>)
    ensures r.Some? ==> 1 <= r.value.1 <= |data|
    decreases |data|
  {
    if i >= 10 || data == [] || (i == 9 && data[0] % 128 > 1) then None
    else if data[0] < 128 then Some((data[0], 1))
    else
      var (v, n) :- Parse(data[1..], i + 1);
      Some((data[0] % 128 + 128 * v, n + 1))
  }

  /** `writer::varint`. */
  method WriteVarint(v: nat) returns (s: seq<Byte>)
    ensures s == Leb(v)
  {
    s := [];
    var rest := v;
    while true
      invariant s + Leb(rest) == Leb(v)
      decreases rest
    {
      if rest / 128 == 0 {
        s := s + [rest % 128];
        return;
      }
      assert s + ([rest % 128 + 128] + Leb(rest / 128)) == s + [rest % 128 + 128] + Leb(rest / 128);
      s := s + [rest % 128 + 128];
      rest := rest / 128;
    }
  }

  // ---- The reader's accumulation ----

  lemma {:induction false} OrZero(b: nat)
    ensures Bitwise((x, y) => x || y, 0, b) == b
  {
    if b != 0 {
      OrZero(b / 2);
    }
  }

  /** Putting bits above those a number has adds them. */
  lemma {:induction false} OrAbove(a: nat, b: nat, s: nat)
    requires a < Pow2(s)
    ensures Bitwise((x, y) => x || y, a, Doubled(b, s)) == a + Doubled(b, s)
    decreases s
  {
    if s == 0 {
      OrZero(b);
    } else {
      OrAbove(a / 2, b, s - 1);
      assert Doubled(b, s) / 2 == Doubled(b, s - 1) && Doubled(b, s) % 2 == 0;
    }
  }

  lemma {:induction false} DoubledBound(w: nat, n: nat, s: nat)
    requires w < Pow2(n)
    ensures Doubled(w, s) < Pow2(n + s)
  {
    if s > 0 {
      DoubledBound(w, n, s - 1);
    }
  }

  lemma {:induction false} DoubledSum(a: nat, b: nat, s: nat)
    ensures Doubled(a + b, s) == Doubled(a, s) + Doubled(b, s)
  {
    if s > 0 {
      DoubledSum(a, b, s - 1);
    }
  }

  lemma {:induction false} DoubledSeven(v: nat, s: nat)
    ensures Doubled(128 * v, s) == Doubled(v, s + 7)
  {
    if s > 0 {
      DoubledSeven(v, s - 1);
    } else {
      assert Doubled(v, 7) == 128 * v;
    }
  }

  lemma {:induction false} Pow2Mono(a: nat, b: nat)
    requires a <= b
    ensures Pow2(a) <= Pow2(b)
  {
    if a < b {
      Pow2Mono(a, b - 1);
    }
  }

  /** One accumulation of the reader: nothing overflows, and the groups add up. */
  lemma Accumulate(value: Word, payload: Word, i: nat)
    requires i < 10 && value < Pow2(7 * i) && payload < 128 && (i == 9 ==> payload <= 1)
    ensures Or(value, Shl(payload, 7 * i)) == value + Doubled(payload, 7 * i)
    ensures i < 9 ==> value + Doubled(payload, 7 * i) < Pow2(7 * (i + 1))
  {
    hide Pow2, Doubled, Bitwise;
    LimitIsPow2();
    SmallPowers();
    var n := if i == 9 then 1 else 7;
    DoubledBound(payload, n, 7 * i);
    Pow2Mono(n + 7 * i, 64);
    OrAbove(value, payload, 7 * i);
    DoubledAtMost(payload, 7 * i);
  }

  lemma SmallPowers()
    ensures Pow2(0) == 1 && Pow2(1) == 2 && Pow2(7) == 128
  {
  }

  lemma {:induction false} DoubledAtMost(payload: nat, s: nat)
    requires payload < 128
    ensures Doubled(payload, s) + Pow2(s) <= Pow2(s + 7)
  {
    if s > 0 {
      DoubledAtMost(payload, s - 1);
    } else {
      assert Pow2(7) == 128;
    }
  }

  /** What has been read so far, put below the rest. */
  ghost function Onto(value: nat, i: nat, rest: Option<(nat, nat)>): Option<(nat, nat)> {
    if rest.None? then None else Some((value + Doubled(rest.value.0, 7 * i), i + rest.value.1))
  }

  lemma OntoMore(value: nat, i: nat, data: seq<Byte>)
    requires i < 10 && data != [] && data[0] >= 128 && !(i == 9 && data[0] % 128 > 1)
    ensures Onto(value, i, Parse(data, i)) == Onto(value + Doubled(data[0] % 128, 7 * i), i + 1, Parse(data[1..], i + 1))
  {
    var rest := Parse(data[1..], i + 1);
    if rest.Some? {
      DoubledSum(data[0] % 128, 128 * rest.value.0, 7 * i);
      DoubledSeven(rest.value.0, 7 * i);
    }
  }

  /** `read_varint`, with its cap of ten bytes and its guard against bits past the 64th. */
  method ReadVarint(data: seq<Byte>) returns (r: Option<(nat, nat)>)
    ensures r == Parse(data, 0)
  {
    hide Doubled, Pow2, Or, Shl;
    var value: Word := 0;
    SmallPowers();
    assert data[0..] == data;
    OntoNothing(Parse(data, 0));
    for i := 0 to 10
      invariant i <= |data| && (i < 10 ==> value < Pow2(7 * i))
      invariant Onto(value, i, Parse(data[i..], i)) == Parse(data, 0)
    {
      if i >= |data| {
        return None;
      }
      var payload: Word := data[i] % 128;
      assert data[i..][0] == data[i] && data[i..][1..] == data[i + 1..];
      if i == 9 && payload > 1 {
        return None;
      }
      Accumulate(value, payload, i);
      if data[i] < 128 {
        return Some((Or(value, Shl(payload, 7 * i)), i + 1));
      }
      OntoMore(value, i, data[i..]);
      value := Or(value, Shl(payload, 7 * i));
    }
    return None;
  }

  lemma OntoNothing(rest: Option<(nat, nat)>)
    ensures Onto(0, 0, rest) == rest
  {
  }

  // ---- The round trip ----

  /** One more than the largest value of `n` groups of seven bits. */
  lemma {:induction false} LebSize(v: nat, n: nat)
    requires v < Pow2(7 * n) && n >= 1
    ensures |Leb(v)| <= n
    decreases n
  {
    if v >= 128 {
      SmallPowers();
      assert n != 1;
      PowSeven(n - 1);
      LebSize(v / 128, n - 1);
    }
  }

  lemma PowSeven(n: nat)
    ensures Pow2(7 * (n + 1)) == 128 * Pow2(7 * n)
  {
    var s := 7 * n;
    assert Pow2(s + 7) == 2 * Pow2(s + 6);
    assert Pow2(s + 6) == 2 * Pow2(s + 5);
    assert Pow2(s + 5) == 2 * Pow2(s + 4);
    Pow2Nibble(s);
  }

  /** A counter of at most ten groups, the tenth of one bit, reads back whatever follows it. */
  lemma {:induction false} ParseLeb(v: nat, i: nat, rest: seq<Byte>)
    requires i < 10 && v < Pow2(64 - 7 * i)
    ensures Parse(Leb(v) + rest, i) == Some((v, |Leb(v)|))
    decreases 10 - i
  {
    assert Pow2(1) == 2;
    if v >= 128 {
      assert i != 9;
      PowSeven8(i);
      ParseLeb(v / 128, i + 1, rest);
      assert (Leb(v) + rest)[1..] == Leb(v / 128) + rest;
    }
  }

  lemma PowSeven8(i: nat)
    requires i < 9
    ensures Pow2(64 - 7 * i) == 128 * Pow2(64 - 7 * (i + 1))
  {
    var s := 57 - 7 * i;
    assert Pow2(s + 7) == 2 * Pow2(s + 6);
    assert Pow2(s + 6) == 2 * Pow2(s + 5);
    assert Pow2(s + 5) == 2 * Pow2(s + 4);
    Pow2Nibble(s);
  }

  /** Every 64-bit counter takes at most ten bytes and reads back, whatever follows it. */
  lemma RoundTrip(v: Word, rest: seq<Byte>)
    ensures Parse(Leb(v) + rest, 0) == Some((v, |Leb(v)|)) && |Leb(v)| <= 10
  {
    hide Pow2;
    LimitIsPow2();
    ParseLeb(v, 0, rest);
    Pow2Mono(64, 70);
    LebSize(v, 10);
  }
}
