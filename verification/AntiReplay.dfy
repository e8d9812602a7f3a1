/** The datagram anti-replay window: a bitmap over 64-bit words, slid in place, against the
    unbounded set of accepted sequences it stands for (section 3.4.3 of RFC 4303). */
module AntiReplay {
  import opened Words

  datatype Verdict = Accept | RejectReplay | RejectOld

  // ---- The simple form: the set of every sequence accepted since the reset ----

  /** What the filter owes a sequence, given everything accepted so far. */
  ghost function Judge(width: nat, accepted: set<Word>, s: Word): Verdict {
    if exists a :: a in accepted && a - s >= width then RejectOld
    else if s in accepted then RejectReplay
    else Accept
  }

  ghost function Absorb(width: nat, accepted: set<Word>, s: Word): set<Word> {
    if Judge(width, accepted, s) == Accept then accepted + {s} else accepted
  }

  ghost function AbsorbAll(width: nat, accepted: set<Word>, ss: seq<Word>): set<Word> {
    if ss == [] then accepted
    else Absorb(width, AbsorbAll(width, accepted, ss[..|ss| - 1]), ss[|ss| - 1])
  }

  /** The verdict on the `i`-th datagram of a run that starts from `accepted`. */
  ghost function VerdictAt(width: nat, accepted: set<Word>, ss: seq<Word>, i: nat): Verdict
    requires i < |ss|
  {
    Judge(width, AbsorbAll(width, accepted, ss[..i]), ss[i])
  }

  lemma {:induction false} AbsorbGrows(width: nat, accepted: set<Word>, ss: seq<Word>, i: nat)
    requires i <= |ss|
    ensures AbsorbAll(width, accepted, ss[..i]) <= AbsorbAll(width, accepted, ss)
  {
    if i < |ss| {
      assert ss[..|ss| - 1][..i] == ss[..i];
      AbsorbGrows(width, accepted, ss[..|ss| - 1], i);
    } else {
      assert ss[..i] == ss;
    }
  }

  /** Replay protection over a whole run: one sequence is accepted at most once. */
  lemma NeverAcceptedTwice(width: nat, accepted: set<Word>, ss: seq<Word>, i: nat, j: nat)
    requires i < j < |ss| && ss[i] == ss[j]
    ensures !(VerdictAt(width, accepted, ss, i) == Accept && VerdictAt(width, accepted, ss, j) == Accept)
  {
    if VerdictAt(width, accepted, ss, i) == Accept {
      assert ss[..i + 1][..i] == ss[..i];
      assert ss[i] in AbsorbAll(width, accepted, ss[..i + 1]);
      assert ss[..j][..i + 1] == ss[..i + 1];
      AbsorbGrows(width, accepted, ss[..j], i + 1);
    }
  }

  lemma {:induction false} AbsorbedWasSeen(width: nat, accepted: set<Word>, ss: seq<Word>)
    ensures AbsorbAll(width, accepted, ss) <= accepted + set s | s in ss
  {
    if ss != [] {
      AbsorbedWasSeen(width, accepted, ss[..|ss| - 1]);
    }
  }

  /** No false rejection over a whole run since a reset: a sequence not seen before, and less
      than `width` below every sequence seen before, is accepted. */
  lemma UnseenInWindowAccepted(width: nat, ss: seq<Word>, i: nat)
    requires i < |ss|
    requires ss[i] !in ss[..i]
    requires forall j :: 0 <= j < i ==> ss[j] - ss[i] < width
    ensures VerdictAt(width, {}, ss, i) == Accept
  {
    AbsorbedWasSeen(width, {}, ss[..i]);
    forall a | a in AbsorbAll(width, {}, ss[..i]) ensures a - ss[i] < width {
      var j :| 0 <= j < i && ss[..i][j] == a;
      assert ss[j] == a;
    }
  }

  // ---- The fast form ----

  /** Bit `b` of a word vector, word 0 holding bits 0 to 63. */
  predicate BitAt(ws: seq<Word>, b: nat)
    requires b < |ws| * 64
  {
    Bit(ws[b / 64], b % 64)
  }

  /** The bits a vector of `width` bits has after moving every bit up by `dist`. */
  ghost predicate Slid(width: nat, dist: nat, before: seq<Word>, after: seq<Word>) {
    && |before| == |after|
    && forall b: nat :: b < |after| * 64 ==>
         (BitAt(after, b) <==> dist <= b < width && BitAt(before, b - dist))
  }

  /** The bits set for the sequences of `accepted` less than `width` below `highest`. */
  ghost predicate Tracks(ws: seq<Word>, width: nat, highest: Word, accepted: set<Word>) {
    forall b: nat :: b < |ws| * 64 ==> (BitAt(ws, b) <==> Marked(width, highest, accepted, b))
  }

  ghost predicate Marked(width: nat, highest: Word, accepted: set<Word>, b: nat) {
    b < width && b <= highest && highest - b in accepted
  }

  /** `after` is `before` with bit `b` set. */
  ghost predicate WithBit(before: seq<Word>, after: seq<Word>, b: nat) {
    && |before| == |after|
    && forall k: nat :: k < |after| * 64 ==> (BitAt(after, k) <==> k == b || BitAt(before, k))
  }

  /** Accepting the first sequence since the reset. */
  lemma FirstTracks(before: seq<Word>, after: seq<Word>, width: nat, s: Word)
    requires Tracks(before, width, 0, {}) && width >= 1 && WithBit(before, after, 0)
    ensures Tracks(after, width, s, {s})
  {
    forall b: nat | b < |after| * 64 ensures BitAt(after, b) <==> Marked(width, s, {s}, b) {
      assert !Marked(width, 0, {}, b);
    }
  }

  /** Accepting a sequence inside the window. */
  lemma MarkTracks(before: seq<Word>, after: seq<Word>, width: nat, highest: Word, accepted: set<Word>, s: Word)
    requires Tracks(before, width, highest, accepted) && s <= highest && highest - s < width
    requires WithBit(before, after, highest - s)
    ensures Tracks(after, width, highest, accepted + {s})
  {
    forall b: nat | b < |after| * 64
      ensures BitAt(after, b) <==> Marked(width, highest, accepted + {s}, b)
    {
    }
  }

  /** Accepting a sequence above the window. */
  lemma AdvanceTracks(before: seq<Word>, slid: seq<Word>, after: seq<Word>, width: nat, highest: Word, accepted: set<Word>, s: Word)
    requires Tracks(before, width, highest, accepted) && s > highest && width >= 1
    requires forall a :: a in accepted ==> a <= highest
    requires Slid(width, s - highest, before, slid) && WithBit(slid, after, 0)
    ensures Tracks(after, width, s, accepted + {s})
  {
    forall b: nat | b < |after| * 64
      ensures BitAt(after, b) <==> Marked(width, s, accepted + {s}, b)
    {
      if b >= s - highest {
        assert BitAt(before, b - (s - highest)) <==> Marked(width, highest, accepted, b - (s - highest));
      }
    }
  }

  class Window {
    const width: nat
    const bitmap: array<Word>
    var highest: Word
    var seenAny: bool
    /** Everything accepted since the last reset. */
    ghost var accepted: set<Word>

    /** The bitmap is the part of `accepted` less than `width` below the highest. */
    ghost predicate Valid()
      reads this, bitmap
    {
      && width >= 1
      && bitmap.Length == (width + 63) / 64
      && (seenAny <==> accepted != {})
      && (seenAny ==> highest in accepted)
      && (!seenAny ==> highest == 0)
      && (forall a :: a in accepted ==> a <= highest)
      && Tracks(bitmap[..], width, highest, accepted)
    }

    constructor (width: nat)
      requires width >= 1
      ensures Valid() && this.width == width && accepted == {} && fresh(bitmap)
    {
      this.width := width;
      bitmap := new Word[(width + 63) / 64](_ => 0);
      highest := 0;
      seenAny := false;
      accepted := {};
      new;
      forall b: nat | b < bitmap.Length * 64 ensures !BitAt(bitmap[..], b) {
        BitOfZero(b % 64);
      }
    }

    method TestBit(b: nat) returns (r: bool)
      requires b < bitmap.Length * 64
      ensures r == BitAt(bitmap[..], b)
    {
      MaskTest(bitmap[b / 64], b % 64);
      r := And(bitmap[b / 64], Shl(1, b % 64)) != 0;
    }

    method SetBit(b: nat)
      requires b < bitmap.Length * 64
      modifies bitmap
      ensures WithBit(old(bitmap[..]), bitmap[..], b)
    {
      ghost var was := bitmap[..];
      bitmap[b / 64] := Or(bitmap[b / 64], Shl(1, b % 64));
      forall k: nat | k < bitmap.Length * 64
        ensures BitAt(bitmap[..], k) == (k == b || BitAt(was, k))
      {
        if k / 64 == b / 64 {
          BitOfOr(was[b / 64], Shl(1, b % 64), k % 64);
          BitOfSingle(b % 64, k % 64);
        }
      }
    }

    method Fill()
      modifies bitmap
      ensures forall b: nat :: b < bitmap.Length * 64 ==> !BitAt(bitmap[..], b)
    {
      for i := 0 to bitmap.Length
        invariant forall j :: 0 <= j < i ==> bitmap[j] == 0
      {
        bitmap[i] := 0;
      }
      forall b: nat | b < bitmap.Length * 64 ensures !BitAt(bitmap[..], b) {
        BitOfZero(b % 64);
      }
    }

    /** The descending word loop is one shift of the whole `width`-bit vector. */
    method Slide(dist: nat)
      requires width >= 1 && bitmap.Length == (width + 63) / 64
      modifies bitmap
      ensures Slid(width, dist, old(bitmap[..]), bitmap[..])
    {
      if dist >= width {
        Fill();
        return;
      }
      ghost var was := bitmap[..];
      var wordShift, bitShift := dist / 64, dist % 64;
      var i := bitmap.Length;
      while i > 0
        invariant 0 <= i <= bitmap.Length
        invariant forall j :: 0 <= j < i ==> bitmap[j] == was[j]
        invariant forall j :: i <= j < bitmap.Length ==> bitmap[j] == ShiftedWord(was, wordShift, bitShift, j)
      {
        i := i - 1;
        var w := if i >= wordShift then Shl(bitmap[i - wordShift], bitShift) else 0;
        if bitShift != 0 && i > wordShift {
          w := Or(w, Shr(bitmap[i - wordShift - 1], BITS - bitShift));
        }
        bitmap[i] := w;
      }
      ghost var moved := bitmap[..];
      MaskAboveWidth();
      forall b: nat | b < bitmap.Length * 64
        ensures BitAt(bitmap[..], b) <==> dist <= b < width && BitAt(was, b - dist)
      {
        ShiftedWordBits(was, dist, b);
        assert moved[b / 64] == ShiftedWord(was, wordShift, bitShift, b / 64);
      }
    }

    /** Clears the bits at or above `width` and leaves the others alone. */
    method MaskAboveWidth()
      requires width >= 1 && bitmap.Length == (width + 63) / 64
      modifies bitmap
      ensures forall b: nat :: b < bitmap.Length * 64 ==>
                BitAt(bitmap[..], b) == (b < width && BitAt(old(bitmap[..]), b))
    {
      ghost var was := bitmap[..];
      var topBits := width % 64;
      if topBits != 0 {
        var last := bitmap.Length - 1;
        MaskIsWord(topBits);
        bitmap[last] := And(bitmap[last], Shl(1, topBits) - 1);
        forall b: nat | b < bitmap.Length * 64
          ensures BitAt(bitmap[..], b) == (b < width && BitAt(was, b))
        {
          if b / 64 == last {
            BitOfAnd(was[last], Shl(1, topBits) - 1, b % 64);
            BitOfMask(topBits, b % 64);
          }
        }
      }
    }

    /** The read-only probe gives the simple form's verdict. */
    method WouldAccept(s: Word) returns (v: Verdict)
      requires Valid()
      ensures v == Judge(width, accepted, s)
    {
      if !seenAny || s > highest {
        return Accept;
      }
      var back := highest - s;
      if back >= width {
        return RejectOld;
      }
      var hit := TestBit(back);
      return if hit then RejectReplay else Accept;
    }

    method AcceptFirst(s: Word)
      requires Valid() && !seenAny
      modifies this, bitmap
      ensures Valid() && accepted == {s}
    {
      hide Tracks, Slid, WithBit;
      seenAny := true;
      highest := s;
      SetBit(0);
      FirstTracks(old(bitmap[..]), bitmap[..], width, s);
      accepted := {s};
    }

    method AcceptAhead(s: Word)
      requires Valid() && seenAny && s > highest
      modifies this, bitmap
      ensures Valid() && accepted == old(accepted) + {s}
    {
      hide Tracks, Slid, WithBit;
      Slide(s - highest);
      ghost var slid := bitmap[..];
      highest := s;
      SetBit(0);
      AdvanceTracks(old(bitmap[..]), slid, bitmap[..], width, old(highest), accepted, s);
      accepted := accepted + {s};
    }

    method AcceptBehind(s: Word)
      requires Valid() && seenAny && s <= highest && highest - s < width
      modifies this`accepted, bitmap
      ensures Valid() && accepted == old(accepted) + {s}
    {
      hide Tracks, Slid, WithBit;
      SetBit(highest - s);
      MarkTracks(old(bitmap[..]), bitmap[..], width, highest, accepted, s);
      accepted := accepted + {s};
    }

    /** The committing check gives the same verdict, and changes nothing when it rejects. */
    method CheckAndSet(s: Word) returns (v: Verdict)
      requires Valid()
      modifies this, bitmap
      ensures Valid()
      ensures v == Judge(width, old(accepted), s)
      ensures accepted == Absorb(width, old(accepted), s)
      ensures v != Accept ==> bitmap[..] == old(bitmap[..]) && highest == old(highest) && seenAny == old(seenAny)
    {
      if !seenAny {
        AcceptFirst(s);
        return Accept;
      }
      if s > highest {
        AcceptAhead(s);
        return Accept;
      }
      var back := highest - s;
      if back >= width {
        return RejectOld;
      }
      var hit := TestBit(back);
      if hit {
        return RejectReplay;
      }
      AcceptBehind(s);
      return Accept;
    }

    method Reset()
      requires Valid()
      modifies this, bitmap
      ensures Valid() && accepted == {}
    {
      Fill();
      highest := 0;
      seenAny := false;
      accepted := {};
    }

    /** Every run of the fast form gives, datagram by datagram, the verdicts of the simple form. */
    method Run(ss: seq<Word>) returns (vs: seq<Verdict>)
      requires Valid()
      modifies this, bitmap
      ensures Valid() && |vs| == |ss|
      ensures accepted == AbsorbAll(width, old(accepted), ss)
      ensures forall i :: 0 <= i < |ss| ==> vs[i] == VerdictAt(width, old(accepted), ss, i)
    {
      vs := [];
      for i := 0 to |ss|
        invariant Valid() && |vs| == i
        invariant accepted == AbsorbAll(width, old(accepted), ss[..i])
        invariant forall j :: 0 <= j < i ==> vs[j] == VerdictAt(width, old(accepted), ss, j)
      {
        var v := CheckAndSet(ss[i]);
        vs := vs + [v];
        assert ss[..i + 1][..i] == ss[..i];
      }
      assert ss[..|ss|] == ss;
    }
  }

  /** Word `i` of the shifted vector, read from the vector before the shift. */
  ghost function ShiftedWord(was: seq<Word>, wordShift: nat, bitShift: nat, i: nat): Word
    requires i < |was| && bitShift < BITS
  {
    var w: Word := if i >= wordShift then Shl(was[i - wordShift], bitShift) else 0;
    if bitShift != 0 && i > wordShift then Or(w, Shr(was[i - wordShift - 1], BITS - bitShift)) else w
  }

  lemma ShiftedWordBits(was: seq<Word>, dist: nat, b: nat)
    requires b < |was| * 64
    ensures Bit(ShiftedWord(was, dist / 64, dist % 64, b / 64), b % 64)
         == (b >= dist && BitAt(was, b - dist))
  {
    var ws, bs, i, k := dist / 64, dist % 64, b / 64, b % 64;
    if i < ws {
      BitOfZero(k);
      return;
    }
    Borrow(b, dist);
    BitOfShl(was[i - ws], bs, k);
    if bs != 0 && i > ws {
      CarriedBits(was[i - ws], was[i - ws - 1], bs, k);
    }
  }

  /** The two source words of one shifted word: the low word's top bits fill the gap. */
  lemma CarriedBits(high: Word, low: Word, bs: nat, k: nat)
    requires 0 < bs < BITS && k < BITS
    ensures Bit(Or(Shl(high, bs), Shr(low, BITS - bs)), k)
         == if k >= bs then Bit(high, k - bs) else Bit(low, k + BITS - bs)
  {
    BitOfOr(Shl(high, bs), Shr(low, BITS - bs), k);
    BitOfShl(high, bs, k);
    BitOfShr(low, BITS - bs, k);
    if k >= bs {
      NoHighBit(low, k + (BITS - bs));
    }
  }

  /** Word and bit position of a difference of bit indices. */
  lemma Borrow(b: nat, dist: nat)
    ensures b >= dist && b % 64 >= dist % 64 ==>
              (b - dist) / 64 == b / 64 - dist / 64 && (b - dist) % 64 == b % 64 - dist % 64
    ensures b >= dist && b % 64 < dist % 64 ==>
              && b / 64 > dist / 64
              && (b - dist) / 64 == b / 64 - dist / 64 - 1
              && (b - dist) % 64 == b % 64 + BITS - dist % 64
  {
  }

  lemma NoHighBit(w: Word, k: nat)
    requires k >= BITS
    ensures !Bit(w, k)
  {
    LimitIsPow2();
    BitOfRemainder(w, BITS, k);
  }

  lemma MaskIsWord(t: nat)
    requires t < BITS
    ensures 1 <= Shl(1, t) == Pow2(t)
  {
    DoubledOne(t);
    LimitIsPow2();
    Pow2Grows(t, BITS);
  }

  lemma {:induction false} Pow2Grows(a: nat, b: nat)
    requires a < b
    ensures Pow2(a) < Pow2(b)
  {
    if a < b - 1 {
      Pow2Grows(a, b - 1);
    }
  }
}
