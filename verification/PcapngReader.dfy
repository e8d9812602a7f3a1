/** A pcapng reader, forwards and backwards, and the proof that it recovers what was captured. */
module PcapngReader {
  import opened Options
  import opened LittleEndian
  import opened Pcapng

  // ---- Fields ----

  function TakeBytes(bs: Bytes, n: nat): (r: Option<(Bytes, Bytes)>)
    ensures r.Some? ==> |r.value.1| == |bs| - n
  {
    if n <= |bs| then Some((bs[..n], bs[n..])) else None
  }

  function TakeNum(bs: Bytes, n: nat): (r: Option<(nat, Bytes)>)
    ensures r.Some? ==> |r.value.1| == |bs| - n
  {
    if n <= |bs| then Some((Decode(bs[..n]), bs[n..])) else None
  }

  lemma TakeBytesLaw(xs: Bytes, rest: Bytes)
    ensures TakeBytes(xs + rest, |xs|) == Some((xs, rest))
  {
    assert (xs + rest)[..|xs|] == xs && (xs + rest)[|xs|..] == rest;
  }

  lemma TakeNumLaw(v: nat, n: nat, rest: Bytes)
    requires v < Limit(n)
    ensures TakeNum(Encode(v, n) + rest, n) == Some((v, rest))
  {
    DecodeEncode(v, n);
    TakeBytesLaw(Encode(v, n), rest);
    assert (Encode(v, n) + rest)[..n] == Encode(v, n);
  }

  // ---- Options ----

  datatype RawOption = RawOption(code: nat, value: Bytes)

  /** Section 3.5: options up to the end-of-options option, or to the end of the block. */
  function ReadOptions(bs: Bytes): Option<seq<RawOption>>
    decreases |bs|
  {
    if bs == [] then Some([])
    else
      var (code, b1) :- TakeNum(bs, 2);
      var (len, b2) :- TakeNum(b1, 2);
      if code == 0 then if len == 0 then Some([]) else None
      else
        var (value, b3) :- TakeBytes(b2, len);
        var (_, b4) :- TakeBytes(b3, Gap(len));
        var more :- ReadOptions(b4);
        Some([RawOption(code, value)] + more)
  }

  lemma ReadOptionLaw(code: nat, value: Bytes, rest: Bytes)
    requires 0 < code < 0x1_0000 && |value| < 0x1_0000 && ReadOptions(rest).Some?
    ensures ReadOptions(Opt(code, value) + rest) == Some([RawOption(code, value)] + ReadOptions(rest).value)
  {
    Limits();
    var pad := Zeros(Gap(|value|));
    var b3 := pad + rest;
    var b2 := value + b3;
    var b1 := Encode(|value|, 2) + b2;
    assert Opt(code, value) + rest == Encode(code, 2) + b1;
    TakeNumLaw(code, 2, b1);
    TakeNumLaw(|value|, 2, b2);
    TakeBytesLaw(value, b3);
    TakeBytesLaw(pad, rest);
  }

  lemma EndLaw()
    ensures ReadOptions(END_OF_OPTIONS) == Some([])
  {
    assert Decode(END_OF_OPTIONS[..2]) == 0 by { assert END_OF_OPTIONS[..2] == [0, 0]; }
    assert END_OF_OPTIONS[2..] == [0, 0];
    assert Decode([0, 0]) == 0;
    assert [0, 0][..2] == [0, 0];
  }

  // ---- Blocks ----

  datatype RawBlock = RawBlock(kind: nat, body: Bytes)

  /** The block at the start of `bs`: a whole number of words, its length repeated at its end. */
  function FirstBlock(bs: Bytes): (r: Option<(RawBlock, nat)>)
    ensures r.Some? ==> 12 <= r.value.1 <= |bs| && r.value.1 % 4 == 0
  {
    if |bs| < 12 then None
    else
      var total := Decode(bs[4..8]);
      if total < 12 || total % 4 != 0 || total > |bs| || Decode(bs[total - 4..total]) != total then None
      else Some((RawBlock(Decode(bs[..4]), bs[8..total - 4]), total))
  }

  /** Section 3.1, walking forwards. */
  function ReadBlocks(bs: Bytes): Option<seq<RawBlock>>
    decreases |bs|
  {
    if bs == [] then Some([])
    else
      var (block, total) :- FirstBlock(bs);
      var more :- ReadBlocks(bs[total..]);
      Some([block] + more)
  }

  /** Section 3.1, walking backwards by the trailing lengths. */
  function ReadBack(bs: Bytes): Option<seq<RawBlock>>
    decreases |bs|
  {
    if bs == [] then Some([])
    else if |bs| < 12 then None
    else
      var total := Decode(bs[|bs| - 4..]);
      if total < 12 || total > |bs| then None
      else
        var (block, size) :- FirstBlock(bs[|bs| - total..]);
        var before :- ReadBack(bs[..|bs| - total]);
        Some(before + [block])
  }

  lemma ReadBlocksStep(bs: Bytes)
    requires bs != []
    ensures ReadBlocks(bs).Some? <==> FirstBlock(bs).Some? && ReadBlocks(bs[FirstBlock(bs).value.1..]).Some?
    ensures ReadBlocks(bs).Some? ==>
              ReadBlocks(bs).value == [FirstBlock(bs).value.0] + ReadBlocks(bs[FirstBlock(bs).value.1..]).value
  {
  }

  lemma ReadBackStep(bs: Bytes, total: nat)
    requires |bs| >= 12 && Decode(bs[|bs| - 4..]) == total && 12 <= total <= |bs|
    requires FirstBlock(bs[|bs| - total..]).Some? && ReadBack(bs[..|bs| - total]).Some?
    ensures ReadBack(bs) == Some(ReadBack(bs[..|bs| - total]).value + [FirstBlock(bs[|bs| - total..]).value.0])
  {
  }

  /** A block of this kind and body can be sealed: both fit their words, and the body is aligned. */
  ghost predicate Sealable(kind: nat, body: Bytes) {
    kind < 0x1_0000_0000 && |body| + 12 < 0x1_0000_0000 && |body| % 4 == 0
  }

  lemma FirstBlockLaw(kind: nat, body: Bytes, rest: Bytes)
    requires Sealable(kind, body)
    ensures |Block(kind, body)| == |body| + 12
    ensures Block(kind, body)[|body| + 8..] == Encode(|body| + 12, 4)
    ensures FirstBlock(Block(kind, body) + rest) == Some((RawBlock(kind, body), |body| + 12))
  {
    Limits();
    var total := |body| + 12;
    var bs := Block(kind, body) + rest;
    DecodeEncode(kind, 4);
    DecodeEncode(total, 4);
    assert bs[..4] == Encode(kind, 4);
    assert bs[4..8] == Encode(total, 4);
    assert bs[8..total - 4] == body;
    assert bs[total - 4..total] == Encode(total, 4);
  }

  lemma {:induction false} ReadAppend(a: Bytes, b: Bytes)
    requires ReadBlocks(a).Some? && ReadBlocks(b).Some?
    ensures ReadBlocks(a + b) == Some(ReadBlocks(a).value + ReadBlocks(b).value)
    decreases |a|
  {
    hide FirstBlock, ReadBlocks;
    if a == [] {
      EmptyReads();
      assert a + b == b;
      assert [] + ReadBlocks(b).value == ReadBlocks(b).value;
    } else {
      ReadBlocksStep(a);
      ReadBlocksStep(a + b);
      var (block, total) := FirstBlock(a).value;
      FirstPrefix(a, b);
      ReadAppend(a[total..], b);
      assert (a + b)[total..] == a[total..] + b;
      var more := ReadBlocks(a[total..]).value;
      assert [block] + more + ReadBlocks(b).value == [block] + (more + ReadBlocks(b).value);
    }
  }

  lemma EmptyReads()
    ensures ReadBlocks([]) == Some([]) == ReadBack([])
  {
  }

  lemma FirstPrefix(a: Bytes, b: Bytes)
    requires FirstBlock(a).Some?
    ensures FirstBlock(a + b) == FirstBlock(a)
  {
    var total := FirstBlock(a).value.1;
    assert (a + b)[4..8] == a[4..8] && (a + b)[..4] == a[..4];
    assert (a + b)[total - 4..total] == a[total - 4..total] && (a + b)[8..total - 4] == a[8..total - 4];
  }

  lemma ReadOneLaw(kind: nat, body: Bytes)
    requires Sealable(kind, body)
    ensures ReadBlocks(Block(kind, body)) == Some([RawBlock(kind, body)])
  {
    FirstBlockLaw(kind, body, []);
    var b := Block(kind, body);
    assert b + [] == b;
    assert b[|b|..] == [];
    assert [RawBlock(kind, body)] + [] == [RawBlock(kind, body)];
  }

  lemma ReadBackLaw(a: Bytes, kind: nat, body: Bytes)
    requires Sealable(kind, body) && ReadBack(a).Some?
    ensures ReadBack(a + Block(kind, body)) == Some(ReadBack(a).value + [RawBlock(kind, body)])
  {
    hide FirstBlock, Block, ReadBack;
    Limits();
    var b, total := Block(kind, body), |body| + 12;
    FirstBlockLaw(kind, body, []);
    assert b + [] == b;
    DecodeEncode(total, 4);
    var bs := a + b;
    assert bs[|bs| - 4..] == b[total - 4..];
    assert bs[|bs| - total..] == b && bs[..|bs| - total] == a;
    ReadBackStep(bs, total);
  }
}
