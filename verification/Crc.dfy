/**
 CRC-16/X.25, the AX.25 frame check sequence (section 3.7 of AX.25 v2.2).

 The reference definition is the bit-serial shift register: the bits of the
 message, least significant bit of each byte first, enter one at a time.
 `Crc16.Update` is the byte-at-a-time loop of the source, proved to compute the
 same register. Error detection follows from three facts about one shift: it is
 linear, it is injective, and it keeps the parity of the register.
 */
module Crc {
  import opened Common

  type Word = bv16

  /** One iteration of the inner loop; 0x8408 is the reflected polynomial. */
  function Shift(c: Word): Word {
    if c & 1 != 0 then (c >> 1) ^ 0x8408 else c >> 1
  }

  function Xor(a: Word, b: Word): Word { a ^ b }

  /** A message bit is added to the lowest bit of the register. */
  function Added(c: Word, bit: bool): Word { if bit then Xor(c, 1) else c }

  /** The register takes one message bit. */
  function Enter(c: Word, bit: bool): Word { Shift(Added(c, bit)) }

  function Fold<S>(step: (S, bool) -> S, s: S, bits: seq<bool>): S
    decreases |bits|
  {
    if bits == [] then s else Fold(step, step(s, bits[0]), bits[1..])
  }

  function FeedBits(c: Word, bits: seq<bool>): Word { Fold(Enter, c, bits) }

  /** The `n` low bits of a word, least significant first. */
  function LowBits(w: Word, n: nat): seq<bool>
    decreases n, w
  {
    if n == 0 then [] else [w & 1 == 1] + LowBits(w >> 1, n - 1)
  }

  /** The bits of a message in the order they are sent. */
  function Bits(data: Bytes): seq<bool> {
    if data == [] then [] else LowBits(data[0] as Word, 8) + Bits(data[1..])
  }

  function Feed(c: Word, data: Bytes): Word { FeedBits(c, Bits(data)) }

  function Compute(data: Bytes): Word { Xor(Feed(0xFFFF, data), 0xFFFF) }

  lemma {:induction false} FoldInPieces<S>(step: (S, bool) -> S, s: S, first: seq<bool>, second: seq<bool>)
    ensures Fold(step, s, first + second) == Fold(step, Fold(step, s, first), second)
    decreases |first|
  {
    if first == [] {
      assert first + second == second;
    } else {
      assert (first + second)[1..] == first[1..] + second;
      FoldInPieces(step, step(s, first[0]), first[1..], second);
    }
  }

  lemma FeedBitsInPieces(c: Word, first: seq<bool>, second: seq<bool>)
    ensures FeedBits(c, first + second) == FeedBits(FeedBits(c, first), second)
  {
    FoldInPieces(Enter, c, first, second);
  }

  lemma FeedFirst(c: Word, bit: bool, bits: seq<bool>)
    ensures FeedBits(c, [bit] + bits) == FeedBits(Enter(c, bit), bits)
  {
    assert ([bit] + bits)[1..] == bits;
  }

  /** A check word as it is stored and sent: low byte first. */
  function LowByteFirst(crc: Word): Bytes { [(crc & 0xFF) as Byte, (crc >> 8) as Byte] }

  function WordFrom(lo: Byte, hi: Byte): Word { (lo as Word) | ((hi as Word) << 8) }

  lemma SplitWord(w: Word)
    ensures ((w & 0xFF) as Byte) as Word == w & 0xFF
    ensures ((w >> 8) as Byte) as Word == w >> 8
  {}

  lemma WordReadBack(w: Word)
    ensures WordFrom(LowByteFirst(w)[0], LowByteFirst(w)[1]) == w
  {
    SplitWord(w);
  }

  lemma {:induction false} BitsInPieces(first: Bytes, second: Bytes)
    ensures Bits(first + second) == Bits(first) + Bits(second)
  {
    if first == [] {
      assert first + second == second;
    } else {
      assert (first + second)[1..] == first[1..] + second;
      BitsInPieces(first[1..], second);
    }
  }

  /** Data may be fed in any pieces. */
  lemma FeedInPieces(c: Word, first: Bytes, second: Bytes)
    ensures Feed(c, first + second) == Feed(Feed(c, first), second)
  {
    BitsInPieces(first, second);
    FeedBitsInPieces(c, Bits(first), Bits(second));
  }

  // ----- one shift ----------------------------------------------------------

  lemma XorShifted(a: Word, b: Word)
    ensures (a ^ b) >> 1 == (a >> 1) ^ (b >> 1)
    ensures (a ^ b) & 1 == (a & 1) ^ (b & 1)
    ensures a & 1 == 0 || a & 1 == 1
  {}

  lemma XorPolynomial(a: Word, b: Word, p: Word)
    ensures (a ^ p) ^ (b ^ p) == a ^ b && (a ^ p) ^ b == (a ^ b) ^ p && a ^ (b ^ p) == (a ^ b) ^ p
  {}

  lemma ShiftIsLinear(a: Word, b: Word)
    ensures Shift(Xor(a, b)) == Xor(Shift(a), Shift(b))
  {
    XorShifted(a, b);
    XorShifted(b, a);
    XorPolynomial(a >> 1, b >> 1, 0x8408);
  }

  lemma ShiftIsInjective(a: Word, b: Word)
    requires Shift(a) == Shift(b)
    ensures a == b
  {}

  // ----- loading a word at once is feeding its bits --------------------------

  function Shifts(c: Word, n: nat): Word
    decreases n, c
  {
    if n == 0 then c else Shifts(Shift(c), n - 1)
  }

  /** What is left of a word after `n` of its bits have been taken. */
  function Rest(w: Word, n: nat): Word
    decreases n, w
  {
    if n == 0 then w else Rest(w >> 1, n - 1)
  }

  lemma OddSplit(c: Word, w: Word)
    requires w & 1 == 1
    ensures Xor(c, w) == Xor(Xor(c, 1), (w >> 1) << 1)
  {}

  lemma EvenSplit(c: Word, w: Word)
    requires w & 1 != 1
    ensures Xor(c, w) == Xor(c, (w >> 1) << 1)
  {}

  lemma ShiftOfHigh(w: Word, high: Word)
    requires high == (w >> 1) << 1
    ensures Shift(high) == w >> 1
  {}

  /** One shift of a loaded word consumes its lowest bit. */
  lemma ShiftSplit(c: Word, w: Word)
    ensures Shift(Xor(c, w)) == Xor(Enter(c, w & 1 == 1), w >> 1)
  {
    var high := (w >> 1) << 1;
    ShiftOfHigh(w, high);
    if w & 1 == 1 {
      OddSplit(c, w);
      ShiftIsLinear(Xor(c, 1), high);
    } else {
      EvenSplit(c, w);
      ShiftIsLinear(c, high);
    }
  }

  lemma TakeBit(c: Word, w: Word, n: nat)
    requires 0 < n
    ensures FeedBits(c, LowBits(w, n)) == FeedBits(Enter(c, w & 1 == 1), LowBits(w >> 1, n - 1))
    ensures Rest(w, n) == Rest(w >> 1, n - 1)
  {
    FeedFirst(c, w & 1 == 1, LowBits(w >> 1, n - 1));
  }

  /** Loading a word into the register and shifting it out `n` times is
      feeding its `n` low bits. */
  lemma {:induction false} LoadingIsFeeding(c: Word, w: Word, n: nat)
    ensures Shifts(Xor(c, w), n) == Xor(FeedBits(c, LowBits(w, n)), Rest(w, n))
    decreases n
  {
    if n > 0 {
      ShiftSplit(c, w);
      TakeBit(c, w, n);
      LoadingIsFeeding(Enter(c, w & 1 == 1), w >> 1, n - 1);
    }
  }

  lemma {:induction false} RestInTwo(w: Word, m: nat, n: nat)
    ensures Rest(w, m + n) == Rest(Rest(w, m), n)
    decreases m
  {
    if m > 0 {
      RestInTwo(w >> 1, m - 1, n);
    }
  }

  lemma ShiftTwice(w: Word)
    ensures w >> 1 >> 1 == w >> 2
  {}

  lemma RestOfOne(w: Word, v: Word)
    requires v == w >> 1
    ensures Rest(w, 1) == v
  {
    assert Rest(v, 0) == v;
  }

  lemma RestOfTwo(w: Word, v: Word)
    requires v == w >> 2
    ensures Rest(w, 2) == v
  {
    var u := w >> 1;
    ShiftTwice(w);
    RestOfOne(u, v);
  }

  lemma RestOfFour(w: Word, w2: Word, w4: Word)
    requires w2 == w >> 2 && w4 == w2 >> 2
    ensures Rest(w, 4) == w4
  {
    RestInTwo(w, 2, 2);
    RestOfTwo(w, w2);
    RestOfTwo(w2, w4);
  }

  lemma RestOfEightNamed(w: Word, w2: Word, w4: Word, w6: Word, w8: Word)
    requires w2 == w >> 2 && w4 == w2 >> 2 && w6 == w4 >> 2 && w8 == w6 >> 2
    ensures Rest(w, 8) == w8
  {
    RestInTwo(w, 4, 4);
    RestOfFour(w, w2, w4);
    RestOfFour(w4, w6, w8);
  }

  lemma RightByEight(w: Word)
    ensures w >> 2 >> 2 >> 2 >> 2 == w >> 8
  {}

  lemma RestOfEight(w: Word, v: Word)
    requires v == w >> 8
    ensures Rest(w, 8) == v
  {
    RightByEight(w);
    RestOfEightNamed(w, w >> 2, w >> 2 >> 2, w >> 2 >> 2 >> 2, v);
  }

  /** A byte is exhausted after eight bits, a word after sixteen. */
  lemma Exhausted(b: Byte, w: Word)
    ensures Rest(b as Word, 8) == 0
    ensures Rest(w, 16) == 0
  {
    RestOfEight(b as Word, 0);
    var v := w >> 8;
    RestInTwo(w, 8, 8);
    RestOfEight(w, v);
    RestOfEight(v, 0);
  }

  lemma XorZero(c: Word)
    ensures Xor(c, 0) == c
  {}

  lemma ByteStep(c: Word, b: Byte)
    ensures Shifts(Xor(c, b as Word), 8) == FeedBits(c, LowBits(b as Word, 8))
  {
    LoadingIsFeeding(c, b as Word, 8);
    Exhausted(b, 0);
    XorZero(FeedBits(c, LowBits(b as Word, 8)));
  }

  lemma BitsOfOne(b: Byte)
    ensures Bits([b]) == LowBits(b as Word, 8)
  {
    assert [b][1..] == [];
    assert LowBits(b as Word, 8) + [] == LowBits(b as Word, 8);
  }

  lemma FeedByte(c: Word, prefix: Bytes, b: Byte)
    ensures Feed(c, prefix + [b]) == Shifts(Xor(Feed(c, prefix), b as Word), 8)
  {
    FeedInPieces(c, prefix, [b]);
    BitsOfOne(b);
    ByteStep(Feed(c, prefix), b);
  }

  class Crc16 {
    var state: Word

    constructor ()
      ensures state == 0xFFFF
    {
      state := 0xFFFF;
    }

    /** Feed more bytes. */
    method Update(data: Bytes)
      modifies this
      ensures state == Feed(old(state), data)
    {
      var crc := state;
      for i := 0 to |data|
        invariant crc == Feed(old(state), data[..i]) && state == old(state)
      {
        FeedByte(old(state), data[..i], data[i]);
        crc := crc ^ (data[i] as Word);
        assert data[..i + 1] == data[..i] + [data[i]];
        ghost var target := Shifts(crc, 8);
        for n := 0 to 8
          invariant Shifts(crc, 8 - n) == target
        {
          if crc & 1 != 0 {
            crc := (crc >> 1) ^ 0x8408;
          } else {
            crc := crc >> 1;
          }
        }
      }
      assert data[..|data|] == data;
      state := crc;
    }

    /** The CRC of everything fed so far. */
    method Finish() returns (crc: Word)
      ensures crc == state ^ 0xFFFF
    {
      crc := state ^ 0xFFFF;
    }
  }

  method ComputeCrc(data: Bytes) returns (crc: Word)
    ensures crc == Compute(data)
  {
    var c := new Crc16();
    c.Update(data);
    crc := c.Finish();
  }
}
