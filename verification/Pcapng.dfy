/** The pcapng container the capture transcoder writes (sections 3.1, 3.5 and 4.1 to 4.3 of
    draft-ietf-opsawg-pcapng). */
module Pcapng {
  import opened Words
  import opened LittleEndian

  type Bytes = seq<Byte>

  // ---- What is captured ----

  datatype Direction = In | Out

  type Peer = s: Bytes | |s| == 16 witness seq(16, _ => 0)

  /** One record of the flat stream; only wire frames are transcoded. */
  datatype Record = Record(wireFrame: bool, captureTs: Word, dir: Direction, wireSeq: Word, peer: Peer, payload: Bytes)

  /** The capture's definitions: the crypto tap position and the clock epoch. */
  datatype Definitions = Definitions(ciphertext: bool, clockEpoch: Word)

  // ---- Text ----

  function Decimal(n: nat): Bytes {
    if n < 10 then [48 + n] else Decimal(n / 10) + [48 + n % 10]
  }

  function HexDigit(v: nat): Byte
    requires v < 16
  {
    if v < 10 then 48 + v else 87 + v
  }

  function Hex(bs: Bytes): Bytes {
    if bs == [] then [] else Hex(bs[..|bs| - 1]) + [HexDigit(bs[|bs| - 1] / 16), HexDigit(bs[|bs| - 1] % 16)]
  }

  /** `peer_hex`. */
  method PeerHex(peer: Bytes) returns (s: Bytes)
    ensures s == Hex(peer)
  {
    s := [];
    for i := 0 to |peer|
      invariant s == Hex(peer[..i])
    {
      s := s + [HexDigit(peer[i] / 16)] + [HexDigit(peer[i] % 16)];
      assert peer[..i + 1][..i] == peer[..i];
    }
    assert peer[..|peer|] == peer;
  }

  /** "seq=", " dir=", " peer=", " crypto_position=" and the tokens, in ASCII. */
  const SEQ: Bytes := [115, 101, 113, 61]
  const DIR: Bytes := [32, 100, 105, 114, 61]
  const PEER: Bytes := [32, 112, 101, 101, 114, 61]
  const CRYPTO: Bytes := [32, 99, 114, 121, 112, 116, 111, 95, 112, 111, 115, 105, 116, 105, 111, 110, 61]
  const IN: Bytes := [105, 110]
  const OUT: Bytes := [111, 117, 116]
  const CIPHERTEXT: Bytes := [99, 105, 112, 104, 101, 114, 116, 101, 120, 116]
  const CLEARTEXT: Bytes := [99, 108, 101, 97, 114, 116, 101, 120, 116]
  /** "plexus" and ".crypto_position=", ".clock_epoch_ns=". */
  const PLEXUS: Bytes := [112, 108, 101, 120, 117, 115]
  const DOT_CRYPTO: Bytes := [46, 99, 114, 121, 112, 116, 111, 95, 112, 111, 115, 105, 116, 105, 111, 110, 61]
  const DOT_EPOCH: Bytes := [46, 99, 108, 111, 99, 107, 95, 101, 112, 111, 99, 104, 95, 110, 115, 61]

  function CryptoToken(ciphertext: bool): Bytes {
    if ciphertext then CIPHERTEXT else CLEARTEXT
  }

  function DirToken(dir: Direction): Bytes {
    if dir.In? then IN else OUT
  }

  function EpbComment(r: Record, ciphertext: bool): Bytes {
    SEQ + (Decimal(r.wireSeq) + (DIR + (DirToken(r.dir) + (PEER + (Hex(r.peer) + (CRYPTO + CryptoToken(ciphertext)))))))
  }

  // ---- The writer ----

  function Gap(n: nat): nat {
    (4 - n % 4) % 4
  }

  function Zeros(n: nat): Bytes {
    seq(n, _ => 0)
  }

  /** `pad4`. */
  method Pad4(out: Bytes) returns (r: Bytes)
    ensures r == out + Zeros(Gap(|out|)) && |r| % 4 == 0
  {
    r := out;
    while |r| % 4 != 0
      invariant |out| <= |r| <= |out| + Gap(|out|) && r == out + Zeros(|r| - |out|)
      decreases |out| + Gap(|out|) - |r|
    {
      r := r + [0];
    }
  }

  /** `put_u16`, `put_u32` and `put_u64`, for two, four and eight bytes. */
  method PutLe(out: Bytes, v: nat, n: nat) returns (r: Bytes)
    ensures r == out + Encode(v, n)
  {
    r := out;
    for i := 0 to n
      invariant |r| == |out| + i && r[..|out|] == out
      invariant forall j :: 0 <= j < i ==> r[|out| + j] == ByteAt(v, j)
    {
      r := r + [ByteAt(v, i)];
    }
    forall j | 0 <= j < n ensures r[|out| + j] == Encode(v, n)[j] {
      EncodeAt(v, n, j);
    }
  }

  /** An option: code, unpadded length, value padded to four bytes. */
  function Opt(code: nat, value: Bytes): Bytes {
    Encode(code, 2) + (Encode(|value|, 2) + (value + Zeros(Gap(|value|))))
  }

  const END_OF_OPTIONS: Bytes := [0, 0, 0, 0]

  function ShbBody(defs: Definitions): Bytes {
    Encode(0x1A2B3C4D, 4) + (Encode(1, 2) + (Encode(0, 2) + (Encode(0xFFFF_FFFF_FFFF_FFFF, 8)
    + (Opt(1, PLEXUS + DOT_CRYPTO + CryptoToken(defs.ciphertext))
    + (Opt(1, PLEXUS + DOT_EPOCH + Decimal(defs.clockEpoch)) + END_OF_OPTIONS)))))
  }

  function IdbBody(): Bytes {
    Encode(147, 2) + (Encode(0, 2) + (Encode(0, 4) + (Opt(9, [9]) + END_OF_OPTIONS)))
  }

  function EpbBody(r: Record, ciphertext: bool): Bytes {
    Encode(0, 4) + (Encode(r.captureTs / 0x1_0000_0000, 4) + (Encode(r.captureTs % 0x1_0000_0000, 4)
    + (Encode(|r.payload|, 4) + (Encode(|r.payload|, 4) + (r.payload + (Zeros(Gap(|r.payload|))
    + (Opt(2, Encode(if r.dir.In? then 1 else 2, 4)) + (Opt(1, EpbComment(r, ciphertext)) + END_OF_OPTIONS))))))))
  }

  /** `seal_block`. */
  function Block(kind: nat, body: Bytes): Bytes {
    Encode(kind, 4) + (Encode(|body| + 12, 4) + (body + Encode(|body| + 12, 4)))
  }

  const SHB: nat := 0x0A0D0D0A
  const IDB: nat := 1
  const EPB: nat := 6

  function Packets(records: seq<Record>, ciphertext: bool): Bytes {
    if records == [] then []
    else
      var (front, last) := (records[..|records| - 1], records[|records| - 1]);
      Packets(front, ciphertext) + if last.wireFrame then Block(EPB, EpbBody(last, ciphertext)) else []
  }

  function File(defs: Definitions, records: seq<Record>): Bytes {
    Block(SHB, ShbBody(defs)) + Block(IDB, IdbBody()) + Packets(records, defs.ciphertext)
  }

  // ---- The writers ----

  /** `put_option`. The padding is up to the length of the whole buffer, so it is the option's own exactly
      because every option starts on a word. */
  method PutOption(out: Bytes, code: nat, value: Bytes) returns (r: Bytes)
    ensures r == out + (Encode(code, 2) + (Encode(|value|, 2) + (value + Zeros(Gap(|out| + 4 + |value|)))))
    ensures |r| % 4 == 0
    ensures |out| % 4 == 0 ==> r == out + Opt(code, value)
  {
    hide Encode, Zeros, Gap;
    r := PutLe(out, code, 2);
    r := PutLe(r, |value|, 2);
    r := r + value;
    var padded := Pad4(r);
    assert |r| == |out| + 4 + |value|;
    GapPeriod(|out|, 4 + |value|);
    GapPeriod(4, |value|);
    assert r == out + (Encode(code, 2) + (Encode(|value|, 2) + value));
    assert padded == out + (Encode(code, 2) + (Encode(|value|, 2) + (value + Zeros(Gap(|r|)))));
    r := padded;
  }

  lemma GapPeriod(m: nat, n: nat)
    ensures m % 4 == 0 ==> Gap(m + n) == Gap(n)
  {
  }

  method PutEndOfOptions(out: Bytes) returns (r: Bytes)
    ensures r == out + END_OF_OPTIONS
  {
    r := PutLe(out, 0, 2);
    r := PutLe(r, 0, 2);
    assert Encode(0, 2) == [0] + Encode(0, 1);
    assert Encode(0, 1) == [0] + Encode(0, 0);
  }

  method SealBlock(out: Bytes, kind: nat, body: Bytes) returns (r: Bytes)
    ensures r == out + Block(kind, body)
  {
    hide Encode;
    r := PutLe(out, kind, 4);
    r := PutLe(r, |body| + 12, 4);
    r := r + body;
    r := PutLe(r, |body| + 12, 4);
  }

  method WriteShb(out: Bytes, defs: Definitions) returns (r: Bytes)
    ensures r == out + Block(SHB, ShbBody(defs))
  {
    hide Encode, Opt, Block, Decimal, CryptoToken;
    var body := ShbFixed();
    body := PutOption(body, 1, PLEXUS + DOT_CRYPTO + CryptoToken(defs.ciphertext));
    body := PutOption(body, 1, PLEXUS + DOT_EPOCH + Decimal(defs.clockEpoch));
    body := PutEndOfOptions(body);
    assert body == ShbBody(defs);
    r := SealBlock(out, SHB, body);
  }

  method ShbFixed() returns (body: Bytes)
    ensures body == Encode(0x1A2B3C4D, 4) + (Encode(1, 2) + (Encode(0, 2) + Encode(0xFFFF_FFFF_FFFF_FFFF, 8)))
    ensures |body| == 16
  {
    hide Encode;
    body := PutLe([], 0x1A2B3C4D, 4);
    body := PutLe(body, 1, 2);
    body := PutLe(body, 0, 2);
    body := PutLe(body, 0xFFFF_FFFF_FFFF_FFFF, 8);
  }

  method WriteIdb(out: Bytes) returns (r: Bytes)
    ensures r == out + Block(IDB, IdbBody())
  {
    hide Encode, Opt, Block;
    var body := PutLe([], 147, 2);
    body := PutLe(body, 0, 2);
    body := PutLe(body, 0, 4);
    body := PutOption(body, 9, [9]);
    body := PutEndOfOptions(body);
    assert body == IdbBody();
    r := SealBlock(out, IDB, body);
  }

  method CommentText(r: Record, ciphertext: bool) returns (text: Bytes)
    ensures text == EpbComment(r, ciphertext)
  {
    hide Decimal, Hex, DirToken, CryptoToken;
    var hex := PeerHex(r.peer);
    var about := DIR + (DirToken(r.dir) + (PEER + (hex + (CRYPTO + CryptoToken(ciphertext)))));
    text := SEQ + (Decimal(r.wireSeq) + about);
  }

  /** The fixed fields, the payload and its padding. */
  method EpbFixed(r: Record) returns (body: Bytes)
    ensures body == Encode(0, 4) + (Encode(r.captureTs / 0x1_0000_0000, 4) + (Encode(r.captureTs % 0x1_0000_0000, 4)
                    + (Encode(|r.payload|, 4) + (Encode(|r.payload|, 4) + (r.payload + Zeros(Gap(|r.payload|)))))))
    ensures |body| % 4 == 0
  {
    hide Encode, Gap, Zeros;
    body := PutLe([], 0, 4);
    body := PutLe(body, r.captureTs / 0x1_0000_0000, 4);
    body := PutLe(body, r.captureTs % 0x1_0000_0000, 4);
    body := PutLe(body, |r.payload|, 4);
    body := PutLe(body, |r.payload|, 4);
    body := body + r.payload;
    GapPeriod(20, |r.payload|);
    body := Pad4(body);
  }

  method WriteEpb(out: Bytes, r: Record, ciphertext: bool) returns (result: Bytes)
    ensures result == out + Block(EPB, EpbBody(r, ciphertext))
  {
    hide Encode, Opt, Block, Gap, Zeros, EpbComment;
    var body := EpbFixed(r);
    var flags := PutLe([], if r.dir.In? then 1 else 2, 4);
    assert flags == Encode(if r.dir.In? then 1 else 2, 4);
    body := PutOption(body, 2, flags);
    var text := CommentText(r, ciphertext);
    body := PutOption(body, 1, text);
    body := PutEndOfOptions(body);
    assert body == EpbBody(r, ciphertext);
    result := SealBlock(out, EPB, body);
  }

  /** The record loop of `flat_to_pcap`. */
  method Transcode(defs: Definitions, records: seq<Record>) returns (bytes: Bytes, packets: nat)
    ensures bytes == File(defs, records)
    ensures packets == |Selected(records)|
  {
    hide Block, EpbBody, ShbBody, IdbBody;
    bytes := WriteShb([], defs);
    bytes := WriteIdb(bytes);
    packets := 0;
    ghost var head := bytes;
    assert head == Block(SHB, ShbBody(defs)) + Block(IDB, IdbBody());
    for i := 0 to |records|
      invariant bytes == head + Packets(records[..i], defs.ciphertext) && packets == |Selected(records[..i])|
    {
      assert records[..i + 1][..i] == records[..i];
      if records[i].wireFrame {
        ghost var before := bytes;
        bytes := WriteEpb(bytes, records[i], defs.ciphertext);
        packets := packets + 1;
        assert before + Block(EPB, EpbBody(records[i], defs.ciphertext))
            == head + (Packets(records[..i], defs.ciphertext) + Block(EPB, EpbBody(records[i], defs.ciphertext)));
      }
    }
    assert records[..|records|] == records;
  }

  /** The wire frames, in order. */
  function Selected(records: seq<Record>): seq<Record> {
    if records == [] then []
    else Selected(records[..|records| - 1]) + if records[|records| - 1].wireFrame then [records[|records| - 1]] else []
  }
}
