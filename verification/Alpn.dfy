/** ALPN selection over a protocol_name_list (section 3.1 of RFC 7301): length-prefixed names, of which
    exactly `plexus/1` is acceptable. */
module Alpn {
  import opened LittleEndian

  type Name = s: seq<Byte> | |s| < 256

  /** "plexus/1". */
  const WANTED: seq<Byte> := [112, 108, 101, 120, 117, 115, 47, 49]

  /** The wire form of a list of names. */
  function Wire(names: seq<Name>): seq<Byte> {
    if names == [] then [] else Wire(names[..|names| - 1]) + [|names[|names| - 1]|] + names[|names| - 1]
  }

  /** Nothing more can be read: no bytes, or fewer than the length byte says. */
  predicate Truncated(rest: seq<Byte>) {
    rest == [] || 1 + rest[0] > |rest|
  }

  /** The names of the longest well-formed prefix of a list. */
  function Names(list: seq<Byte>): (names: seq<Name>) {
    if Truncated(list) then []
    else [list[1..1 + list[0]]] + Names(list[1 + list[0]..])
  }

  lemma {:induction false} WireFront(name: Name, names: seq<Name>)
    ensures Wire([name] + names) == [|name|] + name + Wire(names)
  {
    if names == [] {
      assert [name] + names == [name];
      assert Wire([name]) == Wire([]) + [|name|] + name by { assert [name][..0] == []; }
    } else {
      var n := |names| - 1;
      assert ([name] + names)[..n + 1] == [name] + names[..n];
      WireFront(name, names[..n]);
    }
  }

  /** Every list is the wire form of its names and a remainder that reads no further; and there is no
      other way to read it. */
  lemma {:induction false} NamesReadList(list: seq<Byte>)
    ensures |Wire(Names(list))| <= |list|
    ensures list[..|Wire(Names(list))|] == Wire(Names(list)) && Truncated(list[|Wire(Names(list))|..])
    decreases |list|
  {
    if !Truncated(list) {
      var name: Name := list[1..1 + list[0]];
      var more := list[1 + list[0]..];
      NamesReadList(more);
      WireFront(name, Names(more));
      var w := Wire(Names(more));
      assert Wire(Names(list)) == [|name|] + name + w;
      assert list == [|name|] + name + more;
      assert list[1 + |name| + |w|..] == more[|w|..];
    }
  }

  lemma {:induction false} NamesSplit(names: seq<Name>, rest: seq<Byte>)
    ensures Names(Wire(names) + rest) == names + Names(rest)
    decreases |names|
  {
    if names == [] {
      assert Wire(names) + rest == rest;
      assert names + Names(rest) == Names(rest);
    } else {
      var name, more := names[0], names[1..];
      var head, tail := [|name|] + name, Wire(more);
      calc {
        Names(Wire(names) + rest);
        { assert names == [name] + more; WireFront(name, more); }
        Names(head + tail + rest);
        { assert head + tail + rest == head + (tail + rest); }
        Names(head + (tail + rest));
        { ReadOne(name, tail + rest); }
        [name] + Names(tail + rest);
        { NamesSplit(more, rest); }
        [name] + (more + Names(rest));
        { assert [name] + (more + Names(rest)) == [name] + more + Names(rest); }
        names + Names(rest);
      }
    }
  }

  lemma ReadOne(name: Name, more: seq<Byte>)
    ensures Names([|name|] + name + more) == [name] + Names(more)
  {
    var list := [|name|] + name + more;
    assert list[1..1 + |name|] == name && list[1 + |name|..] == more;
  }

  lemma NamesUnique(names: seq<Name>, rest: seq<Byte>)
    requires Truncated(rest)
    ensures Names(Wire(names) + rest) == names
  {
    NamesSplit(names, rest);
  }

  /** `Overrun`: a 32-bit sum of the scan wrapped around, and the bounds checks no longer hold. */
  datatype Outcome = Selected(at: nat) | Fatal | Overrun

  /** A scan that has come to `i` gets to an index where a 32-bit sum wraps. */
  predicate Overruns(list: seq<Byte>, i: nat)
    requires i <= |list|
    decreases |list| - i
  {
    if i + 1 == 0x1_0000_0000 then true
    else if i == |list| then false
    else if i + 1 + list[i] >= 0x1_0000_0000 then true
    else if i + 1 + list[i] > |list| then false
    else if list[i + 1..i + 1 + list[i]] == WANTED then false
    else Overruns(list, i + 1 + list[i])
  }

  lemma OverrunsStep(list: seq<Byte>, i: nat)
    requires i <= |list|
    ensures i + 1 == 0x1_0000_0000 ==> Overruns(list, i)
    ensures i + 1 < 0x1_0000_0000 && i == |list| ==> !Overruns(list, i)
    ensures i + 1 < 0x1_0000_0000 && i < |list| ==>
              && (i + 1 + list[i] >= 0x1_0000_0000 ==> Overruns(list, i))
              && (|list| < i + 1 + list[i] < 0x1_0000_0000 ==> !Overruns(list, i))
              && (i + 1 + list[i] < 0x1_0000_0000 && i + 1 + list[i] <= |list| ==>
                    if list[i + 1..i + 1 + list[i]] == WANTED then !Overruns(list, i)
                    else Overruns(list, i) <==> Overruns(list, i + 1 + list[i]))
  {
  }

  /** The scan selects exactly when `plexus/1` is one of the names, and then returns where the first
      such name stands: never bytes that straddle two names. No index leaves the list. A sum can wrap
      only on a list within 255 bytes of the top of the index range. */
  method Select(list: seq<Byte>) returns (r: Outcome)
    requires |list| < 0x1_0000_0000
    ensures r.Overrun? <==> Overruns(list, 0)
    ensures !r.Overrun? ==> (r.Selected? <==> WANTED in Names(list))
    ensures r.Selected? ==>
              exists k :: 0 <= k < |Names(list)| && Names(list)[k] == WANTED && WANTED !in Names(list)[..k]
                          && r.at == |Wire(Names(list)[..k])| + 1
    ensures r.Selected? ==> r.at + 8 <= |list| && list[r.at..r.at + 8] == WANTED
  {
    hide Names, Wire, Overruns;
    EmptyWire();
    var i := 0;
    ghost var seen: seq<Name> := [];
    while i + 1 <= |list| || i + 1 == 0x1_0000_0000
      invariant 0 <= i <= |list| && list[..i] == Wire(seen)
      invariant WANTED !in seen && (Overruns(list, i) <==> Overruns(list, 0))
      decreases |list| - i
    {
      OverrunsStep(list, i);
      if i + 1 == 0x1_0000_0000 {
        return Overrun;
      }
      var nameLen := list[i];
      if i + 1 + nameLen >= 0x1_0000_0000 {
        return Overrun;
      }
      if i + 1 + nameLen > |list| {
        break;
      }
      ghost var name: Name := list[i + 1..i + 1 + nameLen];
      ScanOne(list, i, seen, name);
      if nameLen == 8 && list[i + 1..i + 9] == WANTED {
        return Selected(i + 1);
      }
      seen := seen + [name];
      i := i + 1 + nameLen;
    }
    OverrunsStep(list, i);
    ScanEnd(list, i, seen);
    return Fatal;
  }

  lemma EmptyWire()
    ensures Wire([]) == []
  {
  }

  lemma ScanOne(list: seq<Byte>, i: nat, seen: seq<Name>, name: Name)
    requires i < |list| && list[..i] == Wire(seen)
    requires |name| == list[i] && i + 1 + |name| <= |list| && list[i + 1..i + 1 + |name|] == name
    ensures |Names(list)| > |seen| && Names(list)[|seen|] == name && Names(list)[..|seen|] == seen
    ensures list[..i + 1 + |name|] == Wire(seen + [name])
  {
    var tail, rest := list[i..], list[i + 1 + |name|..];
    assert Names(list) == seen + ([name] + Names(rest)) by {
      assert tail == [|name|] + name + rest;
      assert list == list[..i] + tail;
      NamesSplit(seen, tail);
      ReadOne(name, rest);
    }
    WireBack(seen, name);
    assert list[..i + 1 + |name|] == list[..i] + ([|name|] + name);
  }

  lemma WireBack(names: seq<Name>, name: Name)
    ensures Wire(names + [name]) == Wire(names) + ([|name|] + name)
  {
    assert (names + [name])[..|names|] == names;
    assert Wire(names) + [|name|] + name == Wire(names) + ([|name|] + name);
  }

  lemma ScanEnd(list: seq<Byte>, i: nat, seen: seq<Name>)
    requires i <= |list| && list[..i] == Wire(seen) && Truncated(list[i..])
    ensures Names(list) == seen
  {
    assert list == Wire(seen) + list[i..];
    NamesUnique(seen, list[i..]);
  }

  lemma {:induction false} NoOverrun(list: seq<Byte>, i: nat)
    requires i <= |list| <= 0xFFFF_FF00
    ensures !Overruns(list, i)
    decreases |list| - i
  {
    if i < |list| && i + 1 + list[i] <= |list| && list[i + 1..i + 1 + list[i]] != WANTED {
      NoOverrun(list, i + 1 + list[i]);
    }
  }

  /** Empty names, and a last length byte of 255. */
  ghost function Endless(n: nat): (list: seq<Byte>)
    requires n > 0
    ensures |list| == n
  {
    seq(n, i => if i == n - 1 then 255 else 0)
  }

  lemma {:induction false} EndlessOverruns(n: nat, i: nat)
    requires 0xFFFF_FF00 < n < 0x1_0000_0000 && i < n
    ensures Overruns(Endless(n), i)
    decreases n - i
  {
    if i < n - 1 {
      assert Endless(n)[i] == 0 && Endless(n)[i + 1..i + 1] == [];
      EndlessOverruns(n, i + 1);
    } else {
      assert Endless(n)[i] == 255;
    }
  }

  /** Some list of length `n` sends the scan past the 32-bit range if and only if `n` is above 2^32 - 256. */
  lemma OverrunIff(n: nat)
    requires n < 0x1_0000_0000
    ensures n > 0xFFFF_FF00 <==> exists list: seq<Byte> :: |list| == n && Overruns(list, 0)
  {
    if n > 0xFFFF_FF00 {
      EndlessOverruns(n, 0);
      assert |Endless(n)| == n;
    } else {
      forall list: seq<Byte> | |list| == n ensures !Overruns(list, 0) {
        NoOverrun(list, 0);
      }
    }
  }
}
