/** Little-endian byte strings, as the node identity and the pcapng container lay numbers out. */
module LittleEndian {
  import opened Words

  /** `std::byte`. */
  type Byte = x: nat | x < 256

  /** `(v >> (8 * i)) & 0xff`. */
  function ByteAt(v: nat, i: nat): Byte {
    Shr(v, 8 * i) % 256
  }

  /** The `n` low bytes of `v`, least significant first. */
  function Encode(v: nat, n: nat): (s: seq<Byte>)
    ensures |s| == n
  {
    if n == 0 then [] else [v % 256] + Encode(v / 256, n - 1)
  }

  function Decode(s: seq<Byte>): nat {
    if s == [] then 0 else s[0] + 256 * Decode(s[1..])
  }

  lemma {:induction false} EncodeAt(v: nat, n: nat, i: nat)
    requires i < n
    ensures Encode(v, n)[i] == ByteAt(v, i)
  {
    if i > 0 {
      EncodeAt(v / 256, n - 1, i - 1);
      ShrByte(v);
      ShrSum(v, 8, 8 * (i - 1));
    }
  }

  lemma ShrByte(v: nat)
    ensures Shr(v, 8) == v / 256
  {
    var a := v / 2 / 2;
    var b := a / 2 / 2;
    var c := b / 2 / 2;
    assert Shr(v, 8) == Shr(a, 6);
    assert Shr(a, 6) == Shr(b, 4);
    assert Shr(b, 4) == Shr(c, 2);
  }

  /** One more than the largest value of `n` bytes. */
  function Limit(n: nat): (l: nat)
    ensures l >= 1
  {
    if n == 0 then 1 else 256 * Limit(n - 1)
  }

  /** Decoding undoes encoding exactly for the values that fit. */
  lemma {:induction false} DecodeEncode(v: nat, n: nat)
    ensures Decode(Encode(v, n)) < Limit(n)
    ensures Decode(Encode(v, n)) == v <==> v < Limit(n)
  {
    if n > 0 {
      DecodeEncode(v / 256, n - 1);
      assert Encode(v, n)[1..] == Encode(v / 256, n - 1);
    }
  }

  /** Values that fit in `n` bytes and encode alike are equal. */
  lemma EncodeInjective(a: nat, b: nat, n: nat)
    requires a < Limit(n) && b < Limit(n)
    requires Encode(a, n) == Encode(b, n)
    ensures a == b
  {
    DecodeEncode(a, n);
    DecodeEncode(b, n);
  }

  lemma Limits()
    ensures Limit(2) == 0x1_0000 && Limit(4) == 0x1_0000_0000 && Limit(8) == LIMIT
  {
  }
}
