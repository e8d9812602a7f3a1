/** The transcoded file read back: one section, one interface, and exactly the captured wire frames. */
module PcapngRoundTrip {
  import opened Options
  import opened Words
  import opened LittleEndian
  import opened Pcapng
  import opened PcapngReader
  import opened PcapngText

  /** A packet as a reader sees it. */
  datatype Packet = Packet(timestamp: nat, payload: Bytes, inbound: bool, stamp: Stamp)

  /** Section 4.3: the fixed fields and the packet data, then flags and comment. */
  function ReadEpb(body: Bytes): Option<Packet> {
    var (iface, b1) :- TakeNum(body, 4);
    var (high, b2) :- TakeNum(b1, 4);
    var (low, b3) :- TakeNum(b2, 4);
    var (captured, b4) :- TakeNum(b3, 4);
    var (original, b5) :- TakeNum(b4, 4);
    var (payload, b6) :- TakeBytes(b5, captured);
    var (_, b7) :- TakeBytes(b6, Gap(captured));
    var options :- ReadOptions(b7);
    if iface != 0 || original != captured then None
    else ReadPacketOptions(0x1_0000_0000 * high + low, payload, options)
  }

  function ReadPacketOptions(timestamp: nat, payload: Bytes, options: seq<RawOption>): Option<Packet> {
    if |options| != 2 || options[0].code != 2 || |options[0].value| != 4 || options[1].code != 1 then None
    else
      var stamp :- ReadComment(options[1].value);
      Some(Packet(timestamp, payload, Decode(options[0].value) == 1, stamp))
  }

  /** Section 4.1: byte order, version 1.0, unknown section length, and the options. */
  function ReadShb(body: Bytes): Option<seq<RawOption>> {
    var (magic, b1) :- TakeNum(body, 4);
    var (major, b2) :- TakeNum(b1, 2);
    var (minor, b3) :- TakeNum(b2, 2);
    var (length, b4) :- TakeNum(b3, 8);
    if magic != 0x1A2B3C4D || major != 1 || minor != 0 || length != 0xFFFF_FFFF_FFFF_FFFF then None
    else ReadOptions(b4)
  }

  /** Section 4.2: link type DLT_USER0, no snap length, nanosecond timestamps. */
  function ReadIdb(body: Bytes): Option<seq<RawOption>> {
    var (link, b1) :- TakeNum(body, 2);
    var (reserved, b2) :- TakeNum(b1, 2);
    var (snaplen, b3) :- TakeNum(b2, 4);
    if link != 147 || reserved != 0 || snaplen != 0 then None else ReadOptions(b3)
  }

  /** What the captured record says of itself. */
  function View(r: Record, ciphertext: bool): Packet {
    Packet(r.captureTs, r.payload, r.dir.In?, Stamp(r.wireSeq, r.dir, r.peer, ciphertext))
  }

  // ---- Bodies ----

  lemma OptLength(code: nat, value: Bytes)
    ensures |Opt(code, value)| == 4 + |value| + Gap(|value|) && |Opt(code, value)| % 4 == 0
  {
  }

  /** The options of a packet. */
  lemma EpbOptionsLaw(r: Record, ciphertext: bool)
    ensures ReadOptions(Opt(2, Encode(if r.dir.In? then 1 else 2, 4)) + (Opt(1, EpbComment(r, ciphertext)) + END_OF_OPTIONS))
         == Some([RawOption(2, Encode(if r.dir.In? then 1 else 2, 4)), RawOption(1, EpbComment(r, ciphertext))])
  {
    hide Opt, EpbComment, ReadOptions;
    EndLaw();
    CommentLength(r, ciphertext);
    ReadOptionLaw(1, EpbComment(r, ciphertext), END_OF_OPTIONS);
    ReadOptionLaw(2, Encode(if r.dir.In? then 1 else 2, 4), Opt(1, EpbComment(r, ciphertext)) + END_OF_OPTIONS);
    var flags, comment := RawOption(2, Encode(if r.dir.In? then 1 else 2, 4)), RawOption(1, EpbComment(r, ciphertext));
    assert [comment] + [] == [comment];
    assert [flags] + [comment] == [flags, comment];
  }

  /** A packet body read back, if the payload's length fits its field. */
  lemma EpbLaw(r: Record, ciphertext: bool)
    requires |r.payload| < 0x1_0000_0000
    ensures ReadEpb(EpbBody(r, ciphertext)) == Some(View(r, ciphertext))
  {
    hide Opt, EpbComment, ReadOptions, TakeNum, TakeBytes, ReadComment, Decode, Gap, Zeros;
    Limits();
    var n := |r.payload|;
    var flags := Encode(if r.dir.In? then 1 else 2, 4);
    var b7 := Opt(2, flags) + (Opt(1, EpbComment(r, ciphertext)) + END_OF_OPTIONS);
    var pad := Zeros(Gap(n));
    var b6 := pad + b7;
    var b5 := r.payload + b6;
    var b4 := Encode(n, 4) + b5;
    var b3 := Encode(n, 4) + b4;
    var b2 := Encode(r.captureTs % 0x1_0000_0000, 4) + b3;
    var b1 := Encode(r.captureTs / 0x1_0000_0000, 4) + b2;
    TakeNumLaw(0, 4, b1);
    TakeNumLaw(r.captureTs / 0x1_0000_0000, 4, b2);
    TakeNumLaw(r.captureTs % 0x1_0000_0000, 4, b3);
    TakeNumLaw(n, 4, b4);
    TakeNumLaw(n, 4, b5);
    TakeBytesLaw(r.payload, b6);
    ZerosLength(Gap(n));
    TakeBytesLaw(pad, b7);
    EpbOptionsLaw(r, ciphertext);
    CommentLaw(r, ciphertext);
    DecodeEncode(if r.dir.In? then 1 else 2, 4);
  }

  lemma ZerosLength(n: nat)
    ensures |Zeros(n)| == n
  {
  }

  lemma GapFills(n: nat)
    ensures (n + Gap(n)) % 4 == 0 && Gap(n) < 4
  {
  }

  /** The size of a packet block, and so when it can be sealed. */
  lemma EpbSize(r: Record, ciphertext: bool)
    ensures |EpbBody(r, ciphertext)| % 4 == 0
    ensures |r.payload| <= |EpbBody(r, ciphertext)| <= |r.payload| + 300
  {
    hide Opt, EpbComment, Encode, Gap, Zeros;
    var n := |r.payload|;
    var flags := Opt(2, Encode(if r.dir.In? then 1 else 2, 4));
    var comment := Opt(1, EpbComment(r, ciphertext));
    OptLength(2, Encode(if r.dir.In? then 1 else 2, 4));
    OptLength(1, EpbComment(r, ciphertext));
    CommentLength(r, ciphertext);
    ZerosLength(Gap(n));
    GapFills(4);
    GapFills(|EpbComment(r, ciphertext)|);
    GapFills(n);
    assert |EpbBody(r, ciphertext)| == 24 + (n + Gap(n)) + |flags| + |comment|;
  }

  function CryptoComment(defs: Definitions): Bytes {
    PLEXUS + DOT_CRYPTO + CryptoToken(defs.ciphertext)
  }

  function EpochComment(defs: Definitions): Bytes {
    PLEXUS + DOT_EPOCH + Decimal(defs.clockEpoch)
  }

  lemma ShbOptionsLaw(defs: Definitions)
    ensures ReadOptions(Opt(1, CryptoComment(defs)) + (Opt(1, EpochComment(defs)) + END_OF_OPTIONS))
         == Some([RawOption(1, CryptoComment(defs)), RawOption(1, EpochComment(defs))])
    ensures |Opt(1, CryptoComment(defs))| % 4 == 0 && |Opt(1, CryptoComment(defs))| < 200
    ensures |Opt(1, EpochComment(defs))| % 4 == 0 && |Opt(1, EpochComment(defs))| < 200
  {
    hide Opt, ReadOptions, Decimal;
    LimitIsPow2();
    DecimalLength(defs.clockEpoch, BITS);
    var crypto, epoch := CryptoComment(defs), EpochComment(defs);
    EndLaw();
    ReadOptionLaw(1, epoch, END_OF_OPTIONS);
    ReadOptionLaw(1, crypto, Opt(1, epoch) + END_OF_OPTIONS);
    OptLength(1, crypto);
    OptLength(1, epoch);
    assert [RawOption(1, epoch)] + [] == [RawOption(1, epoch)];
    assert [RawOption(1, crypto)] + [RawOption(1, epoch)] == [RawOption(1, crypto), RawOption(1, epoch)];
  }

  lemma ShbLaw(defs: Definitions)
    ensures ReadShb(ShbBody(defs)) == Some([RawOption(1, CryptoComment(defs)), RawOption(1, EpochComment(defs))])
    ensures Sealable(SHB, ShbBody(defs))
  {
    hide Opt, ReadOptions, TakeNum, Decimal, Encode;
    Limits();
    ShbOptionsLaw(defs);
    var b4 := Opt(1, CryptoComment(defs)) + (Opt(1, EpochComment(defs)) + END_OF_OPTIONS);
    var b3 := Encode(0xFFFF_FFFF_FFFF_FFFF, 8) + b4;
    var b2 := Encode(0, 2) + b3;
    var b1 := Encode(1, 2) + b2;
    TakeNumLaw(0x1A2B3C4D, 4, b1);
    TakeNumLaw(1, 2, b2);
    TakeNumLaw(0, 2, b3);
    TakeNumLaw(0xFFFF_FFFF_FFFF_FFFF, 8, b4);
  }

  lemma IdbLaw()
    ensures ReadIdb(IdbBody()) == Some([RawOption(9, [9])])
    ensures Sealable(IDB, IdbBody())
  {
    hide Opt, ReadOptions, TakeNum;
    Limits();
    EndLaw();
    ReadOptionLaw(9, [9], END_OF_OPTIONS);
    OptLength(9, [9]);
    var b3 := Opt(9, [9]) + END_OF_OPTIONS;
    var b2 := Encode(0, 4) + b3;
    var b1 := Encode(0, 2) + b2;
    TakeNumLaw(147, 2, b1);
    TakeNumLaw(0, 2, b2);
    TakeNumLaw(0, 4, b3);
    assert [RawOption(9, [9])] + [] == [RawOption(9, [9])];
  }

  // ---- The file ----

  /** Every wire frame's block can be sealed. */
  ghost predicate Fit(records: seq<Record>, ciphertext: bool) {
    forall i :: 0 <= i < |records| && records[i].wireFrame ==> |EpbBody(records[i], ciphertext)| + 12 < 0x1_0000_0000
  }

  /** The blocks a file should hold. */
  ghost function PacketBlocks(records: seq<Record>, ciphertext: bool): seq<RawBlock> {
    if records == [] then []
    else PacketBlocks(records[..|records| - 1], ciphertext)
         + if records[|records| - 1].wireFrame then [RawBlock(EPB, EpbBody(records[|records| - 1], ciphertext))] else []
  }

  ghost function FileBlocks(defs: Definitions, records: seq<Record>): seq<RawBlock> {
    [RawBlock(SHB, ShbBody(defs)), RawBlock(IDB, IdbBody())] + PacketBlocks(records, defs.ciphertext)
  }

  /** Appending a block appends it to both walks. */
  lemma WalksAppend(a: Bytes, blocks: seq<RawBlock>, kind: nat, body: Bytes)
    requires Sealable(kind, body) && |a| % 4 == 0
    requires ReadBlocks(a) == Some(blocks) && ReadBack(a) == Some(blocks)
    ensures ReadBlocks(a + Block(kind, body)) == Some(blocks + [RawBlock(kind, body)])
    ensures ReadBack(a + Block(kind, body)) == Some(blocks + [RawBlock(kind, body)])
    ensures |a + Block(kind, body)| % 4 == 0
  {
    hide ReadBlocks, ReadBack, Block;
    FirstBlockLaw(kind, body, []);
    ReadOneLaw(kind, body);
    ReadAppend(a, Block(kind, body));
    ReadBackLaw(a, kind, body);
  }

  lemma HeadWalks(defs: Definitions)
    ensures ReadBlocks(File(defs, [])) == Some(FileBlocks(defs, []))
    ensures ReadBack(File(defs, [])) == Some(FileBlocks(defs, []))
    ensures |File(defs, [])| % 4 == 0
  {
    hide ReadBlocks, ReadBack, Block, Sealable, ShbBody, IdbBody, EpbBody, ReadShb, ReadIdb, CryptoComment, EpochComment;
    EmptyReads();
    ShbLaw(defs);
    IdbLaw();
    var shb, idb := Block(SHB, ShbBody(defs)), Block(IDB, IdbBody());
    WalksAppend([], [], SHB, ShbBody(defs));
    assert [] + shb == shb && [] + [RawBlock(SHB, ShbBody(defs))] == [RawBlock(SHB, ShbBody(defs))];
    WalksAppend(shb, [RawBlock(SHB, ShbBody(defs))], IDB, IdbBody());
    assert shb + idb + [] == shb + idb;
    assert FileBlocks(defs, []) == [RawBlock(SHB, ShbBody(defs))] + [RawBlock(IDB, IdbBody())];
  }

  /** What one more record adds to the file and to the blocks it should hold. */
  lemma FileStep(defs: Definitions, records: seq<Record>)
    requires records != []
    ensures var front, last := records[..|records| - 1], records[|records| - 1];
            var body := EpbBody(last, defs.ciphertext);
            && File(defs, records) == File(defs, front) + (if last.wireFrame then Block(EPB, body) else [])
            && FileBlocks(defs, records) == FileBlocks(defs, front) + (if last.wireFrame then [RawBlock(EPB, body)] else [])
  {
    hide Block, ShbBody, IdbBody, EpbBody;
  }

  /** Walking forwards and walking backwards find the same blocks, all of whole words: the section
      header, the interface, and one packet block per wire frame. */
  lemma {:induction false} WalksAgree(defs: Definitions, records: seq<Record>)
    requires Fit(records, defs.ciphertext)
    ensures ReadBlocks(File(defs, records)) == Some(FileBlocks(defs, records))
    ensures ReadBack(File(defs, records)) == Some(FileBlocks(defs, records))
    ensures |File(defs, records)| % 4 == 0
  {
    hide ReadBlocks, ReadBack, File, FileBlocks, Block, EpbBody;
    if records == [] {
      HeadWalks(defs);
    } else {
      var front, last := records[..|records| - 1], records[|records| - 1];
      WalksAgree(defs, front);
      FileStep(defs, records);
      if last.wireFrame {
        EpbSize(last, defs.ciphertext);
        WalksAppend(File(defs, front), FileBlocks(defs, front), EPB, EpbBody(last, defs.ciphertext));
      } else {
        assert File(defs, front) + [] == File(defs, front);
        assert FileBlocks(defs, front) + [] == FileBlocks(defs, front);
      }
    }
  }

  /** A file read whole. */
  datatype Capture = Capture(section: seq<RawOption>, interface: seq<RawOption>, packets: seq<Packet>)

  function ReadPackets(blocks: seq<RawBlock>): Option<seq<Packet>> {
    if blocks == [] then Some([])
    else
      var front :- ReadPackets(blocks[..|blocks| - 1]);
      if blocks[|blocks| - 1].kind != EPB then None
      else
        var packet :- ReadEpb(blocks[|blocks| - 1].body);
        Some(front + [packet])
  }

  function ReadCapture(bytes: Bytes): Option<Capture> {
    var blocks :- ReadBlocks(bytes);
    if |blocks| < 2 || blocks[0].kind != SHB || blocks[1].kind != IDB then None
    else
      var section :- ReadShb(blocks[0].body);
      var interface :- ReadIdb(blocks[1].body);
      var packets :- ReadPackets(blocks[2..]);
      Some(Capture(section, interface, packets))
  }

  function Views(records: seq<Record>, ciphertext: bool): seq<Packet> {
    if records == [] then [] else Views(records[..|records| - 1], ciphertext) + [View(records[|records| - 1], ciphertext)]
  }

  lemma {:induction false} PacketsLaw(records: seq<Record>, ciphertext: bool)
    requires Fit(records, ciphertext)
    ensures ReadPackets(PacketBlocks(records, ciphertext)) == Some(Views(Selected(records), ciphertext))
  {
    hide EpbBody, ReadEpb;
    if records != [] {
      var front, last := records[..|records| - 1], records[|records| - 1];
      PacketsLaw(front, ciphertext);
      var blocks := PacketBlocks(front, ciphertext);
      if last.wireFrame {
        EpbSize(last, ciphertext);
        EpbLaw(last, ciphertext);
        var block := RawBlock(EPB, EpbBody(last, ciphertext));
        assert (blocks + [block])[..|blocks|] == blocks;
        assert (Selected(front) + [last])[..|Selected(front)|] == Selected(front);
      } else {
        assert blocks + [] == blocks && Selected(front) + [] == Selected(front);
      }
    }
  }

  /** The round trip: for every record list whose packets fit, the reader recovers one section, one
      nanosecond interface, and exactly the wire frames in order, with timestamp, payload, direction,
      sequence, peer and tap position. */
  lemma RoundTrip(defs: Definitions, records: seq<Record>)
    requires Fit(records, defs.ciphertext)
    ensures ReadCapture(File(defs, records)) ==
            Some(Capture([RawOption(1, CryptoComment(defs)), RawOption(1, EpochComment(defs))], [RawOption(9, [9])],
                         Views(Selected(records), defs.ciphertext)))
  {
    hide ReadBlocks, File, ShbBody, IdbBody, ReadShb, ReadIdb, CryptoComment, EpochComment;
    WalksAgree(defs, records);
    ShbLaw(defs);
    IdbLaw();
    PacketsLaw(records, defs.ciphertext);
    assert FileBlocks(defs, records)[2..] == PacketBlocks(records, defs.ciphertext);
  }

  /** Whatever follows it, a sealed packet block reads back as itself if and only if it is shorter than
      2^32 bytes: a longer one carries its length modulo 2^32. Payloads up to 2^32 - 512 bytes fit. */
  lemma SealIff(r: Record, ciphertext: bool, rest: Bytes)
    ensures var body := EpbBody(r, ciphertext);
            FirstBlock(Block(EPB, body) + rest) == Some((RawBlock(EPB, body), |body| + 12))
            <==> |body| + 12 < 0x1_0000_0000
    ensures |r.payload| <= 0xFFFF_FE00 ==> |EpbBody(r, ciphertext)| + 12 < 0x1_0000_0000
  {
    hide EpbBody;
    EpbSize(r, ciphertext);
    var body := EpbBody(r, ciphertext);
    if |body| + 12 < 0x1_0000_0000 {
      FirstBlockLaw(EPB, body, rest);
    } else {
      Limits();
      DecodeEncode(|body| + 12, 4);
      assert (Block(EPB, body) + rest)[4..8] == Encode(|body| + 12, 4);
    }
  }
}
