/** The node identity: two FNV-1a style digests of the name, folded into sixteen bytes. */
module NodeHash {
  import opened Words
  import opened LittleEndian

  const PRIME: Word := 1099511628211
  const BASIS_LO: Word := 1469598103934665603
  const BASIS_HI: Word := 0x9e3779b97f4a7c15

  /** The multiplicative inverse of `PRIME` modulo 2^64. */
  ghost const INVERSE: Word := 0xce965057aff6957b

  /** One round: `(h ^ byte) * k_prime` on 64 bits. */
  function Step(h: Word, b: Byte): Word {
    (Xor(h, b) * PRIME) % 0x1_0000_0000_0000_0000
  }

  /** The round that takes `Step` back. */
  ghost function Unstep(h: Word, b: Byte): Word {
    Xor((h * INVERSE) % 0x1_0000_0000_0000_0000, b)
  }

  function Digest(basis: Word, name: seq<Byte>): Word {
    if name == [] then basis else Step(Digest(basis, name[..|name| - 1]), name[|name| - 1])
  }

  function NodeId(name: seq<Byte>): seq<Byte> {
    Encode(Digest(BASIS_LO, name), 8) + Encode(Digest(BASIS_HI, name), 8)
  }

  /** The loop of the source computes the two digests side by side and lays them out in order. */
  method HashNodeId(name: seq<Byte>) returns (id: seq<Byte>)
    ensures |id| == 16
    ensures id == NodeId(name)
  {
    var lo, hi := BASIS_LO, BASIS_HI;
    for n := 0 to |name|
      invariant lo == Digest(BASIS_LO, name[..n]) && hi == Digest(BASIS_HI, name[..n])
    {
      lo, hi := Step(lo, name[n]), Step(hi, name[n]);
      assert name[..n + 1][..n] == name[..n];
    }
    assert name[..|name|] == name;
    id := seq(16, _ => 0);
    for i := 0 to 8
      invariant |id| == 16
      invariant forall j :: 0 <= j < i ==> id[j] == ByteAt(lo, j) && id[8 + j] == ByteAt(hi, j)
    {
      id := id[i := ByteAt(lo, i)][8 + i := ByteAt(hi, i)];
    }
    forall j | 0 <= j < 8 ensures id[j] == Encode(lo, 8)[j] && id[8 + j] == Encode(hi, 8)[j] {
      EncodeAt(lo, 8, j);
      EncodeAt(hi, 8, j);
    }
  }

  lemma {:induction false} XorTwice(a: nat, b: nat)
    ensures Bitwise((x, y) => x != y, Bitwise((x, y) => x != y, a, b), b) == a
  {
    if a != 0 || b != 0 {
      XorTwice(a / 2, b / 2);
    }
  }

  lemma XorCancels(a: Word, b: Word)
    ensures Xor(Xor(a, b), b) == a
  {
    XorTwice(a, b);
  }

  /** Multiplying by the prime and then by its inverse, or the other way round, is the identity on
      64 bits: their product is one more than 887285111055 times 2^64. */
  lemma PrimeCancels(x: Word)
    ensures (((x * PRIME) % 0x1_0000_0000_0000_0000) * INVERSE) % 0x1_0000_0000_0000_0000 == x
    ensures (((x * INVERSE) % 0x1_0000_0000_0000_0000) * PRIME) % 0x1_0000_0000_0000_0000 == x
  {
    var k, r := (x * 1099511628211) / 0x1_0000_0000_0000_0000, (x * 1099511628211) % 0x1_0000_0000_0000_0000;
    var m := 887285111055 * x - k * 0xce965057aff6957b;
    assert r * 0xce965057aff6957b == 0x1_0000_0000_0000_0000 * m + x;
    Residue(r * 0xce965057aff6957b, m, x);
    var k', r' := (x * 0xce965057aff6957b) / 0x1_0000_0000_0000_0000, (x * 0xce965057aff6957b) % 0x1_0000_0000_0000_0000;
    var m' := 887285111055 * x - k' * 1099511628211;
    assert r' * 1099511628211 == 0x1_0000_0000_0000_0000 * m' + x;
    Residue(r' * 1099511628211, m', x);
  }

  lemma Residue(y: nat, m: int, x: Word)
    requires y == 0x1_0000_0000_0000_0000 * m + x
    ensures y % 0x1_0000_0000_0000_0000 == x
  {
  }

  /** Each round is a bijection on 64-bit states, whatever byte it absorbs. */
  lemma StepIsBijection(h: Word, b: Byte)
    ensures Unstep(Step(h, b), b) == h
    ensures Step(Unstep(h, b), b) == h
  {
    PrimeCancels(Xor(h, b));
    XorCancels(h, b);
    PrimeCancels(h);
    XorCancels((h * INVERSE) % 0x1_0000_0000_0000_0000, b);
  }

  lemma {:induction false} XorCommutes(a: nat, b: nat)
    ensures Bitwise((x, y) => x != y, a, b) == Bitwise((x, y) => x != y, b, a)
  {
    if a != 0 || b != 0 {
      XorCommutes(a / 2, b / 2);
    }
  }

  /** From one state, different bytes lead to different states. */
  lemma StepSeparatesBytes(h: Word, b: Byte, c: Byte)
    requires b != c
    ensures Step(h, b) != Step(h, c)
  {
    if Step(h, b) == Step(h, c) {
      PrimeCancels(Xor(h, b));
      PrimeCancels(Xor(h, c));
      XorCommutes(h, b);
      XorCommutes(h, c);
      XorCancels(b, h);
      XorCancels(c, h);
      assert false;
    }
  }

  /** Names of equal length that differ in exactly one byte have different digests. */
  lemma {:induction false} DigestSeparates(basis: Word, a: seq<Byte>, b: seq<Byte>, i: nat)
    requires |a| == |b| && i < |a| && a[i] != b[i]
    requires forall j :: 0 <= j < |a| && j != i ==> a[j] == b[j]
    ensures Digest(basis, a) != Digest(basis, b)
  {
    var n := |a| - 1;
    if i == n {
      assert a[..n] == b[..n];
      StepSeparatesBytes(Digest(basis, a[..n]), a[n], b[n]);
    } else {
      DigestSeparates(basis, a[..n], b[..n], i);
      StepIsBijection(Digest(basis, a[..n]), a[n]);
      StepIsBijection(Digest(basis, b[..n]), a[n]);
    }
  }

  /** Such names differ in both halves of their identity. */
  lemma NeighbouringNamesDiffer(a: seq<Byte>, b: seq<Byte>, i: nat)
    requires |a| == |b| && i < |a| && a[i] != b[i]
    requires forall j :: 0 <= j < |a| && j != i ==> a[j] == b[j]
    ensures |NodeId(a)| == 16 == |NodeId(b)|
    ensures NodeId(a)[..8] != NodeId(b)[..8] && NodeId(a)[8..] != NodeId(b)[8..]
  {
    Limits();
    DigestSeparates(BASIS_LO, a, b, i);
    DigestSeparates(BASIS_HI, a, b, i);
    if NodeId(a)[..8] == NodeId(b)[..8] {
      EncodeInjective(Digest(BASIS_LO, a), Digest(BASIS_LO, b), 8);
    }
    if NodeId(a)[8..] == NodeId(b)[8..] {
      EncodeInjective(Digest(BASIS_HI, a), Digest(BASIS_HI, b), 8);
    }
  }
}
