/** Reading back the text the transcoder writes into packet comments. */
module PcapngText {
  import opened Options
  import opened Words
  import opened LittleEndian
  import opened Pcapng

  function Strip(bs: Bytes, prefix: Bytes): Option<Bytes> {
    if prefix <= bs then Some(bs[|prefix|..]) else None
  }

  lemma StripLaw(prefix: Bytes, rest: Bytes)
    ensures Strip(prefix + rest, prefix) == Some(rest)
  {
    assert (prefix + rest)[|prefix|..] == rest;
  }

  // ---- Decimal numbers ----

  predicate IsDigit(b: Byte) {
    48 <= b < 58
  }

  function DigitCount(bs: Bytes): (n: nat)
    ensures n <= |bs|
  {
    if bs == [] || !IsDigit(bs[0]) then 0 else 1 + DigitCount(bs[1..])
  }

  function DecimalValue(ds: Bytes): int {
    if ds == [] then 0 else 10 * DecimalValue(ds[..|ds| - 1]) + ds[|ds| - 1] - 48
  }

  lemma {:induction false} DecimalLaw(n: nat)
    ensures DecimalValue(Decimal(n)) == n && Decimal(n) != []
    ensures forall i :: 0 <= i < |Decimal(n)| ==> IsDigit(Decimal(n)[i])
  {
    if n >= 10 {
      DecimalLaw(n / 10);
      assert Decimal(n)[..|Decimal(n)| - 1] == Decimal(n / 10);
    }
  }

  lemma {:induction false} DigitCountLaw(ds: Bytes, rest: Bytes)
    requires forall i :: 0 <= i < |ds| ==> IsDigit(ds[i])
    requires rest != [] && !IsDigit(rest[0])
    ensures DigitCount(ds + rest) == |ds|
  {
    if ds == [] {
      assert ds + rest == rest;
    } else {
      DigitCountLaw(ds[1..], rest);
      assert (ds + rest)[1..] == ds[1..] + rest;
    }
  }

  /** A number below `2^k` has at most `k` digits. */
  lemma {:induction false} DecimalLength(n: nat, k: nat)
    requires n < Pow2(k) && k > 0
    ensures |Decimal(n)| <= k
  {
    if n >= 10 {
      assert k > 1;
      DecimalLength(n / 10, k - 1);
    }
  }

  // ---- Hexadecimal identities ----

  function HexValue(b: Byte): int {
    if b < 58 then b - 48 else b - 87
  }

  function ReadHex(hs: Bytes): Option<Bytes> {
    if hs == [] then Some([])
    else if |hs| == 1 then None
    else
      var front :- ReadHex(hs[..|hs| - 2]);
      var v := 16 * HexValue(hs[|hs| - 2]) + HexValue(hs[|hs| - 1]);
      if 0 <= v < 256 then Some(front + [v]) else None
  }

  lemma DigitsLaw(b: Byte)
    ensures 16 * HexValue(HexDigit(b / 16)) + HexValue(HexDigit(b % 16)) == b
  {
  }

  lemma ReadHexStep(hs: Bytes)
    requires |hs| >= 2
    ensures var (front, v) := (ReadHex(hs[..|hs| - 2]), 16 * HexValue(hs[|hs| - 2]) + HexValue(hs[|hs| - 1]));
            ReadHex(hs) == if front.Some? && 0 <= v < 256 then Some(front.value + [v]) else None
  {
  }

  lemma ReadHexSnoc(hs: Bytes, x: Byte, y: Byte, v: Byte)
    requires ReadHex(hs).Some? && 16 * HexValue(x) + HexValue(y) == v
    ensures ReadHex(hs + [x, y]) == Some(ReadHex(hs).value + [v])
  {
    hide HexValue, ReadHex;
    var all := hs + [x, y];
    ReadHexStep(all);
    assert |all| - 2 == |hs| && all[..|hs|] == hs && all[|hs|] == x && all[|hs| + 1] == y;
  }

  lemma {:induction false} HexLaw(bs: Bytes)
    ensures |Hex(bs)| == 2 * |bs| && ReadHex(Hex(bs)) == Some(bs)
  {
    if bs != [] {
      hide HexDigit, HexValue, ReadHex;
      var front, last := bs[..|bs| - 1], bs[|bs| - 1];
      HexLaw(front);
      DigitsLaw(last);
      assert Hex(bs) == Hex(front) + [HexDigit(last / 16), HexDigit(last % 16)];
      hide Hex;
      ReadHexSnoc(Hex(front), HexDigit(last / 16), HexDigit(last % 16), last);
      assert bs == front + [last];
    }
  }

  // ---- The packet comment ----

  datatype Stamp = Stamp(wireSeq: nat, dir: Direction, peer: Bytes, ciphertext: bool)

  function ReadDirection(bs: Bytes): Option<(Direction, Bytes)> {
    if IN <= bs then Some((In, bs[2..])) else if OUT <= bs then Some((Out, bs[3..])) else None
  }

  function ReadCrypto(bs: Bytes): Option<bool> {
    if bs == CIPHERTEXT then Some(true) else if bs == CLEARTEXT then Some(false) else None
  }

  function ReadComment(text: Bytes): Option<Stamp> {
    var b0 :- Strip(text, SEQ);
    var n := DigitCount(b0);
    var v := DecimalValue(b0[..n]);
    if v < 0 then None
    else
      var b1 :- Strip(b0[n..], DIR);
      var (dir, b2) :- ReadDirection(b1);
      var b3 :- Strip(b2, PEER);
      if |b3| < 32 then None
      else
        var peer :- ReadHex(b3[..32]);
        var b4 :- Strip(b3[32..], CRYPTO);
        var ciphertext :- ReadCrypto(b4);
        Some(Stamp(v, dir, peer, ciphertext))
  }

  lemma DirectionLaw(dir: Direction, rest: Bytes)
    ensures ReadDirection(DirToken(dir) + rest) == Some((dir, rest))
  {
    var bs := DirToken(dir) + rest;
    if dir.In? {
      assert bs[2..] == rest;
    } else {
      assert bs[0] == 111;
      assert bs[3..] == rest;
    }
  }

  /** Sequence, direction, peer and tap position come back out of the comment. */
  lemma CommentLaw(r: Record, ciphertext: bool)
    ensures ReadComment(EpbComment(r, ciphertext)) == Some(Stamp(r.wireSeq, r.dir, r.peer, ciphertext))
  {
    hide Decimal, Hex, DigitCount, DecimalValue, ReadHex, ReadDirection, DirToken, Strip;
    var b4 := CryptoToken(ciphertext);
    var b3' := CRYPTO + b4;
    var b3 := Hex(r.peer) + b3';
    var b2 := PEER + b3;
    var b1 := DirToken(r.dir) + b2;
    var b0' := DIR + b1;
    var b0 := Decimal(r.wireSeq) + b0';
    StripLaw(SEQ, b0);
    DecimalLaw(r.wireSeq);
    DigitCountLaw(Decimal(r.wireSeq), b0');
    assert b0[..|Decimal(r.wireSeq)|] == Decimal(r.wireSeq) && b0[|Decimal(r.wireSeq)|..] == b0';
    StripLaw(DIR, b1);
    DirectionLaw(r.dir, b2);
    StripLaw(PEER, b3);
    HexLaw(r.peer);
    assert b3[..32] == Hex(r.peer) && b3[32..] == b3';
    StripLaw(CRYPTO, b4);
  }

  /** A comment always fits its option's 16-bit length. */
  lemma CommentLength(r: Record, ciphertext: bool)
    ensures |EpbComment(r, ciphertext)| <= 200
  {
    LimitIsPow2();
    DecimalLength(r.wireSeq, BITS);
    HexLaw(r.peer);
  }
}
