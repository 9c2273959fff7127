/**
 What the frame check sequence detects: every burst of at most sixteen bits and
 every odd number of wrong bits, in messages of any length; and how a receiver
 recognises it, by a residue that no message influences.
 */
module CrcDetection {
  import opened Common
  import opened Crc

  // ----- shifting is injective ------------------------------------------------

  lemma {:induction false} ShiftsAreInjective(a: Word, b: Word, n: nat)
    requires Shifts(a, n) == Shifts(b, n)
    ensures a == b
    decreases n
  {
    if n > 0 {
      ShiftsAreInjective(Shift(a), Shift(b), n - 1);
      ShiftIsInjective(a, b);
    }
  }

  lemma {:induction false} ShiftsOfZero(n: nat)
    ensures Shifts(0, n) == 0
    decreases n
  {
    if n > 0 {
      assert Shift(0) == 0;
      ShiftsOfZero(n - 1);
    }
  }

  function Silence(n: nat): seq<bool> { seq(n, _ => false) }

  /** Zero bits only shift the register. */
  lemma {:induction false} SilenceShifts(c: Word, n: nat)
    ensures FeedBits(c, Silence(n)) == Shifts(c, n)
    decreases n
  {
    if n > 0 {
      assert Silence(n) == [false] + Silence(n - 1);
      FeedFirst(c, false, Silence(n - 1));
      SilenceShifts(Shift(c), n - 1);
    }
  }

  // ----- differences ----------------------------------------------------------

  /** Where two bit strings differ. */
  function Difference(a: seq<bool>, b: seq<bool>): (d: seq<bool>)
    requires |a| == |b|
    ensures |d| == |a| && forall i :: 0 <= i < |a| ==> d[i] == (a[i] != b[i])
  {
    seq(|a|, i requires 0 <= i < |a| => a[i] != b[i])
  }

  lemma XorBoth(c: Word, d: Word)
    ensures Xor(Xor(c, 1), Xor(d, 1)) == Xor(c, d)
  {}

  lemma XorLeft(c: Word, d: Word)
    ensures Xor(Xor(c, 1), d) == Xor(Xor(c, d), 1)
  {}

  lemma XorRight(c: Word, d: Word)
    ensures Xor(c, Xor(d, 1)) == Xor(Xor(c, d), 1)
  {}

  /** Two registers fed two bits differ by what the difference register becomes
      when fed the difference of the bits. */
  lemma EnterIsLinear(c: Word, d: Word, p: bool, q: bool)
    ensures Enter(Xor(c, d), p != q) == Xor(Enter(c, p), Enter(d, q))
  {
    XorBoth(c, d);
    XorLeft(c, d);
    XorRight(c, d);
    ShiftIsLinear(Added(c, p), Added(d, q));
  }

  lemma {:induction false} DifferenceFeeds(c: Word, d: Word, a: seq<bool>, b: seq<bool>)
    requires |a| == |b|
    ensures FeedBits(Xor(c, d), Difference(a, b)) == Xor(FeedBits(c, a), FeedBits(d, b))
    decreases |a|
  {
    if a != [] {
      EnterIsLinear(c, d, a[0], b[0]);
      DifferenceFeeds(Enter(c, a[0]), Enter(d, b[0]), a[1..], b[1..]);
      FeedFirst(c, a[0], a[1..]);
      FeedFirst(d, b[0], b[1..]);
      FeedFirst(Xor(c, d), a[0] != b[0], Difference(a[1..], b[1..]));
      assert a == [a[0]] + a[1..] && b == [b[0]] + b[1..];
      assert Difference(a, b) == [a[0] != b[0]] + Difference(a[1..], b[1..]);
    }
  }

  lemma XorSelf(a: Word, b: Word)
    ensures Xor(a, a) == 0
    ensures Xor(a, b) == 0 <==> a == b
  {}

  lemma XorCancels(a: Word, b: Word, m: Word)
    ensures Xor(a, m) == Xor(b, m) <==> a == b
  {}

  lemma {:induction false} BitCount(data: Bytes)
    ensures |Bits(data)| == 8 * |data|
  {
    if data != [] {
      BitCount(data[1..]);
      LowBitCount(data[0] as Word, 8);
    }
  }

  lemma {:induction false} LowBitCount(w: Word, n: nat)
    ensures |LowBits(w, n)| == n
    decreases n
  {
    if n > 0 {
      LowBitCount(w >> 1, n - 1);
    }
  }

  /** The bits in which two messages of equal length differ. */
  function ErrorPattern(x: Bytes, y: Bytes): (e: seq<bool>)
    requires |x| == |y|
    ensures |e| == 8 * |x|
  {
    BitCount(x);
    BitCount(y);
    Difference(Bits(x), Bits(y))
  }

  /** Two messages have the same CRC exactly when their error pattern leaves an
      empty register empty. */
  lemma SameCrc(x: Bytes, y: Bytes)
    requires |x| == |y|
    ensures Compute(x) == Compute(y) <==> FeedBits(0, ErrorPattern(x, y)) == 0
  {
    BitCount(x);
    BitCount(y);
    DifferenceFeeds(0xFFFF, 0xFFFF, Bits(x), Bits(y));
    XorSelf(0xFFFF, 0);
    XorSelf(Feed(0xFFFF, x), Feed(0xFFFF, y));
    XorCancels(Feed(0xFFFF, x), Feed(0xFFFF, y), 0xFFFF);
  }

  // ----- bursts ---------------------------------------------------------------

  function Doubled(x: Word, bit: bool): Word { Added(x << 1, bit) }

  /** The word whose low bits are `bits`. */
  function WordOf(bits: seq<bool>): Word {
    if bits == [] then 0 else Doubled(WordOf(bits[1..]), bits[0])
  }

  lemma {:induction false} RestOfZero(n: nat)
    ensures Rest(0, n) == 0
    decreases n
  {
    if n > 0 { RestOfZero(n - 1); }
  }

  lemma RestOfFifteen(w: Word)
    requires Rest(w, 15) == 0
    ensures w & 0x8000 == 0
  {
    var v := w >> 8;
    RestInTwo(w, 8, 7);
    RestOfEight(w, v);
    RestInTwo(v, 4, 3);
    RestOfFour(v, v >> 2, v >> 2 >> 2);
    RestOfSeven(w, v >> 2 >> 2);
  }

  lemma RestOfSeven(w: Word, u: Word)
    requires u == (w >> 8) >> 2 >> 2 && Rest(u, 3) == 0
    ensures w & 0x8000 == 0
  {
    RestInTwo(u, 2, 1);
    RestOfTwo(u, u >> 2);
    assert Rest(u >> 2, 1) == (u >> 2) >> 1;
  }

  lemma DoubledOdd(x: Word)
    ensures ((x << 1) ^ 1) & 1 == 1
    ensures x & 0x8000 == 0 ==> ((x << 1) ^ 1) >> 1 == x
  {}

  lemma DoubledEven(x: Word)
    ensures (x << 1) & 1 == 0
    ensures x & 0x8000 == 0 ==> (x << 1) >> 1 == x
  {}

  lemma DoubledWord(x: Word, bit: bool, w: Word)
    requires x & 0x8000 == 0 && w == Doubled(x, bit)
    ensures w & 1 == 1 <==> bit
    ensures w >> 1 == x
  {
    if bit {
      DoubledOdd(x);
    } else {
      DoubledEven(x);
    }
  }

  lemma WordOfUnfolds(bits: seq<bool>, x: Word, w: Word)
    requires bits != [] && x == WordOf(bits[1..]) && w == WordOf(bits)
    ensures w == Doubled(x, bits[0])
  {}

  lemma NextBit(w: Word, x: Word, bit: bool, n: nat)
    requires (w & 1 == 1) == bit && w >> 1 == x
    ensures LowBits(w, n + 1) == [bit] + LowBits(x, n)
    ensures Rest(w, n + 1) == Rest(x, n)
  {}

  lemma TopClear(x: Word, n: nat)
    requires n <= 15 && Rest(x, n) == 0
    ensures x & 0x8000 == 0
  {
    RestInTwo(x, n, 15 - n);
    RestOfZero(15 - n);
    RestOfFifteen(x);
  }

  lemma {:induction false} WordOfFits(bits: seq<bool>)
    requires |bits| <= 16
    ensures LowBits(WordOf(bits), |bits|) == bits && Rest(WordOf(bits), |bits|) == 0
    decreases |bits|
  {
    if bits != [] {
      var w, x, n := WordOf(bits), WordOf(bits[1..]), |bits| - 1;
      WordOfFits(bits[1..]);
      TopClear(x, n);
      WordOfUnfolds(bits, x, w);
      DoubledWord(x, bits[0], w);
      NextBit(w, x, bits[0], n);
      assert bits == [bits[0]] + bits[1..];
    }
  }

  /** Sixteen bits fed to an empty register are the register shifted out. */
  lemma SixteenBits(bits: seq<bool>)
    requires |bits| == 16
    ensures FeedBits(0, bits) == Shifts(WordOf(bits), 16)
  {
    WordOfFits(bits);
    LoadingIsFeeding(0, WordOf(bits), 16);
    XorZero(FeedBits(0, bits));
    ZeroXor(WordOf(bits));
  }

  lemma ZeroXor(c: Word)
    ensures Xor(0, c) == c
  {}

  lemma WordOfNonZero(bits: seq<bool>)
    requires |bits| == 16 && bits[0]
    ensures WordOf(bits) != 0
  {
    WordOfFits(bits);
    assert LowBits(0, 16)[0] == false;
  }

  /** A pattern that starts with a wrong bit and has no wrong bit beyond the
      sixteenth is always detected. */
  lemma BurstFromStart(e: seq<bool>)
    requires e != [] && e[0]
    requires forall i :: 16 <= i < |e| ==> !e[i]
    ensures FeedBits(0, e) != 0
  {
    var padded := e + Silence(16);
    var head, n := padded[..16], |padded| - 16;
    assert padded == head + Silence(n);
    FeedBitsInPieces(0, e, Silence(16));
    SilenceShifts(FeedBits(0, e), 16);
    FeedBitsInPieces(0, head, Silence(n));
    SilenceShifts(FeedBits(0, head), n);
    SixteenBits(head);
    WordOfNonZero(head);
    if FeedBits(0, e) == 0 {
      ShiftsOfZero(16);
      ShiftsOfZero(n);
      ShiftsAreInjective(FeedBits(0, head), 0, n);
      ShiftsAreInjective(WordOf(head), 0, 16);
    }
  }

  lemma BurstFromFirst(x: Bytes, y: Bytes, first: nat)
    requires |x| == |y| && first < 8 * |x| && ErrorPattern(x, y)[first]
    requires forall i :: 0 <= i < first || first + 16 <= i < 8 * |x| ==> !ErrorPattern(x, y)[i]
    ensures Compute(x) != Compute(y)
  {
    var e := ErrorPattern(x, y);
    assert e == Silence(first) + e[first..];
    FeedBitsInPieces(0, Silence(first), e[first..]);
    SilenceShifts(0, first);
    ShiftsOfZero(first);
    BurstFromStart(e[first..]);
    SameCrc(x, y);
  }

  lemma LowBitsDetermineByte(a: Byte, b: Byte)
    requires LowBits(a as Word, 8) == LowBits(b as Word, 8)
    ensures a == b
  {
    ByteStep(0, a);
    ByteStep(0, b);
    ZeroXor(a as Word);
    ZeroXor(b as Word);
    ShiftsAreInjective(a as Word, b as Word, 8);
  }

  lemma {:induction false} BitsDetermineMessage(x: Bytes, y: Bytes)
    requires |x| == |y| && Bits(x) == Bits(y)
    ensures x == y
  {
    if x != [] {
      var ax, ay := LowBits(x[0] as Word, 8), LowBits(y[0] as Word, 8);
      LowBitCount(x[0] as Word, 8);
      LowBitCount(y[0] as Word, 8);
      assert ax == Bits(x)[..8] && ay == Bits(y)[..8];
      assert Bits(x[1..]) == Bits(x)[8..] && Bits(y[1..]) == Bits(y)[8..];
      LowBitsDetermineByte(x[0], y[0]);
      BitsDetermineMessage(x[1..], y[1..]);
    }
  }

  /** Two different messages of equal length whose differences lie within
      sixteen consecutive bits never have the same CRC. */
  lemma BurstDetected(x: Bytes, y: Bytes, from: nat)
    requires |x| == |y| && x != y
    requires forall i :: 0 <= i < 8 * |x| && ErrorPattern(x, y)[i] ==> from <= i < from + 16
    ensures Compute(x) != Compute(y)
  {
    var e := ErrorPattern(x, y);
    if forall i :: 0 <= i < |e| ==> !e[i] {
      BitCount(x);
      BitCount(y);
      BitsDetermineMessage(x, y);
    } else {
      var first :| 0 <= first < |e| && e[first];
      while exists i :: 0 <= i < first && e[i]
        invariant 0 <= first < |e| && e[first]
        decreases first
      {
        var earlier :| 0 <= earlier < first && e[earlier];
        first := earlier;
      }
      BurstFromFirst(x, y, first);
    }
  }

  // ----- odd numbers of errors --------------------------------------------------

  /** Whether an odd number of bits of the register are set. */
  predicate OddWord(c: Word) {
    ((((c & 1 != 0) != (c & 2 != 0)) != ((c & 4 != 0) != (c & 8 != 0))) !=
    (((c & 0x10 != 0) != (c & 0x20 != 0)) != ((c & 0x40 != 0) != (c & 0x80 != 0)))) !=
    ((((c & 0x100 != 0) != (c & 0x200 != 0)) != ((c & 0x400 != 0) != (c & 0x800 != 0))) !=
    (((c & 0x1000 != 0) != (c & 0x2000 != 0)) != ((c & 0x4000 != 0) != (c & 0x8000 != 0))))
  }

  /** The polynomial has an odd number of terms below the leading one, so what
      a shift feeds back makes up for the bit it drops. */
  lemma ShiftKeepsParity(c: Word)
    ensures OddWord(Shift(c)) == OddWord(c)
  {}

  lemma Flipped(c: Word) returns (x: Word)
    ensures x == Xor(c, 1) && OddWord(x) == !OddWord(c)
  {
    x := c ^ 1;
  }

  lemma EnterParity(c: Word, bit: bool)
    ensures OddWord(Enter(c, bit)) == (OddWord(c) != bit)
  {
    if bit {
      var x := Flipped(c);
      ShiftKeepsParity(x);
    } else {
      ShiftKeepsParity(c);
    }
  }

  function Ones(e: seq<bool>): nat {
    if e == [] then 0 else (if e[0] then 1 else 0) + Ones(e[1..])
  }

  lemma {:induction false} FeedParity(c: Word, e: seq<bool>)
    ensures OddWord(FeedBits(c, e)) == (OddWord(c) != (Ones(e) % 2 == 1))
    decreases |e|
  {
    if e != [] {
      assert e == [e[0]] + e[1..];
      FeedFirst(c, e[0], e[1..]);
      FeedParity(Enter(c, e[0]), e[1..]);
      EnterParity(c, e[0]);
    }
  }

  /** An odd number of wrong bits, wherever they are, is always detected. */
  lemma OddErrorsDetected(x: Bytes, y: Bytes)
    requires |x| == |y| && Ones(ErrorPattern(x, y)) % 2 == 1
    ensures Compute(x) != Compute(y)
  {
    SameCrc(x, y);
    FeedParity(0, ErrorPattern(x, y));
  }

  // ----- the residue ------------------------------------------------------------

  lemma {:induction false} LowBitsInTwo(w: Word, m: nat, n: nat)
    ensures LowBits(w, m + n) == LowBits(w, m) + LowBits(Rest(w, m), n)
    decreases m
  {
    if m > 0 {
      LowBitsInTwo(w >> 1, m - 1, n);
    }
  }

  lemma LowPair(w: Word, v: Word)
    requires w & 3 == v & 3
    ensures LowBits(w, 2) == LowBits(v, 2)
  {
    assert w & 1 == v & 1;
    assert (w >> 1) & 1 == (v >> 1) & 1;
    assert LowBits(w >> 1, 1) == LowBits(v >> 1, 1);
  }

  lemma LowBitsAfterPair(w: Word, w2: Word, n: nat)
    requires w2 == w >> 2
    ensures LowBits(w, 2 + n) == LowBits(w, 2) + LowBits(w2, n)
  {
    LowBitsInTwo(w, 2, n);
    RestOfTwo(w, w2);
  }

  lemma LowByteInPairs(w: Word, w2: Word, w4: Word, w6: Word)
    requires w2 == w >> 2 && w4 == w2 >> 2 && w6 == w4 >> 2
    ensures LowBits(w, 8) == LowBits(w, 2) + (LowBits(w2, 2) + (LowBits(w4, 2) + LowBits(w6, 2)))
  {
    LowBitsAfterPair(w, w2, 6);
    LowBitsAfterPair(w2, w4, 4);
    LowBitsAfterPair(w4, w6, 2);
  }

  lemma LowPairsOfByte(w: Word, v: Word)
    requires v == w & 0xFF
    ensures w & 3 == v & 3 && (w >> 2) & 3 == (v >> 2) & 3
    ensures (w >> 2 >> 2) & 3 == (v >> 2 >> 2) & 3 && (w >> 2 >> 2 >> 2) & 3 == (v >> 2 >> 2 >> 2) & 3
  {}

  lemma LowByteBits(w: Word, v: Word)
    requires v == w & 0xFF
    ensures LowBits(w, 8) == LowBits(v, 8)
  {
    var w2, v2 := w >> 2, v >> 2;
    var w4, v4 := w2 >> 2, v2 >> 2;
    var w6, v6 := w4 >> 2, v4 >> 2;
    LowPairsOfByte(w, v);
    LowByteInPairs(w, w2, w4, w6);
    LowByteInPairs(v, v2, v4, v6);
    LowPair(w, v);
    LowPair(w2, v2);
    LowPair(w4, v4);
    LowPair(w6, v6);
  }

  lemma WordBits(w: Word, lo: Byte, hi: Byte)
    requires lo as Word == w & 0xFF && hi as Word == w >> 8
    ensures LowBits(w, 16) == LowBits(lo as Word, 8) + LowBits(hi as Word, 8)
  {
    LowBitsInTwo(w, 8, 8);
    RestOfEight(w, w >> 8);
    LowByteBits(w, lo as Word);
  }

  /** Two bytes fed one after the other are one word loaded. */
  lemma TwoBytes(c: Word, w: Word)
    ensures Feed(c, LowByteFirst(w)) == Shifts(Xor(c, w), 16)
  {
    var lo, hi := (w & 0xFF) as Byte, (w >> 8) as Byte;
    FeedInPieces(c, [lo], [hi]);
    assert [lo] + [hi] == LowByteFirst(w);
    BitsOfOne(lo);
    BitsOfOne(hi);
    FeedBitsInPieces(c, LowBits(lo as Word, 8), LowBits(hi as Word, 8));
    SplitWord(w);
    WordBits(w, lo, hi);
    LoadingIsFeeding(c, w, 16);
    Exhausted(0, w);
    XorZero(FeedBits(c, LowBits(w, 16)));
  }

  const RESIDUE: Word := 0x0F47

  lemma {:induction false} ShiftsInTwo(c: Word, m: nat, n: nat)
    ensures Shifts(c, m + n) == Shifts(Shifts(c, m), n)
    decreases m
  {
    if m > 0 {
      ShiftsInTwo(Shift(c), m - 1, n);
    }
  }

  lemma FourShifts(c: Word, c1: Word, c2: Word, c3: Word, c4: Word)
    requires c1 == Shift(c) && c2 == Shift(c1) && c3 == Shift(c2) && c4 == Shift(c3)
    ensures Shifts(c, 4) == c4
  {
    assert Shifts(c, 4) == Shifts(c1, 3) == Shifts(c2, 2) == Shifts(c3, 1);
  }

  lemma ShiftedOnes()
    ensures Shifts(0xFFFF, 16) == 0xF0B8
  {
    FourShifts(0xFFFF, 0xFBF7, 0xF9F3, 0xF8F1, 0xF870);
    FourShifts(0xF870, 0x7C38, 0x3E1C, 0x1F0E, 0x0F87);
    FourShifts(0x0F87, 0x83CB, 0xC5ED, 0xE6FE, 0x737F);
    FourShifts(0x737F, 0xBDB7, 0xDAD3, 0xE961, 0xF0B8);
    ShiftsInTwo(0xFFFF, 4, 12);
    ShiftsInTwo(0xF870, 4, 8);
    ShiftsInTwo(0x0F87, 4, 4);
  }

  lemma XorTwice(s: Word, w: Word)
    ensures Xor(s, Xor(s, w)) == w
  {}

  lemma OnesPattern(s: Word, w: Word)
    ensures Xor(s, w) == 0xFFFF <==> w == Xor(s, 0xFFFF)
  {
    XorTwice(s, w);
    XorTwice(s, 0xFFFF);
  }

  lemma ResidueIsInverted(c: Word)
    ensures Xor(c, 0xFFFF) == RESIDUE <==> c == 0xF0B8
  {}

  lemma OnlyOnesShiftToResidue(x: Word)
    ensures Shifts(x, 16) == 0xF0B8 <==> x == 0xFFFF
  {
    ShiftedOnes();
    if Shifts(x, 16) == 0xF0B8 {
      ShiftsAreInjective(x, 0xFFFF, 16);
    }
  }

  /** A message followed by two check bytes has the constant residue exactly
      when those bytes are its check sequence, low byte first. */
  lemma ResidueExactlyForOwnFcs(message: Bytes, w: Word)
    ensures Compute(message + LowByteFirst(w)) == RESIDUE <==> w == Compute(message)
  {
    var s := Feed(0xFFFF, message);
    FeedInPieces(0xFFFF, message, LowByteFirst(w));
    TwoBytes(s, w);
    ResidueIsInverted(Feed(0xFFFF, message + LowByteFirst(w)));
    OnlyOnesShiftToResidue(Xor(s, w));
    OnesPattern(s, w);
  }
}
