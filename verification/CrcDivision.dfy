/** What the CRC-32 register computes: the remainder of a division of polynomials over the two-element
    field, as section 8.1.1.6.2 of ITU-T V.42 defines the checksum. A polynomial is the list of its
    coefficients, the highest power first; addition is exclusive or. */
module CrcDivision {
  import opened Crc32

  /** The exponents of the generator polynomial. */
  predicate InGenerator(exponent: int) {
    exponent in {32, 26, 23, 22, 16, 12, 11, 10, 8, 7, 5, 4, 2, 1, 0}
  }

  /** The generator, its highest power under the highest one of `p`, subtracted from `p`. */
  function Subtracted(p: seq<bool>): (r: seq<bool>)
    ensures |r| == |p|
  {
    seq(|p|, i requires 0 <= i < |p| => p[i] != InGenerator(32 - i))
  }

  /** Long division by the generator: what remains has less than 33 coefficients. */
  function Remainder(p: seq<bool>): seq<bool>
    decreases |p|
  {
    if |p| <= 32 then p else Remainder((if p[0] then Subtracted(p) else p)[1..])
  }

  /** Bit `i` of a word, the lowest one first. */
  function BitOf(w: bv32, i: nat): bool
    decreases i
  {
    if i == 0 then LowBit(w) else BitOf(DropBit(w), i - 1)
  }

  /** The coefficients of a register: the lowest bit belongs to the highest power. */
  function Coefficients(w: bv32): (p: seq<bool>)
    ensures |p| == 32
  {
    seq(32, i requires 0 <= i < 32 => BitOf(w, i))
  }

  /** A message times x^32, with the register's coefficients added to the highest powers. */
  function Dividend(c: bv32, bits: seq<bool>): (p: seq<bool>)
    ensures |p| == |bits| + 32
  {
    seq(|bits| + 32, i requires 0 <= i < |bits| + 32 => (i < |bits| && bits[i]) != (i < 32 && BitOf(c, i)))
  }

  // ------------------------------------------------------------ bits of words

  lemma SecondBit(w: bv32)
    ensures (w >> 1) & 1 == 1 <==> w & 2 == 2
  {}

  lemma ThirdBit(w: bv32)
    ensures (w >> 2) & 1 == 1 <==> w & 4 == 4
  {}

  lemma FourthBit(w: bv32)
    ensures (w >> 3) & 1 == 1 <==> w & 8 == 8
  {}

  lemma DroppedBits(w: bv32)
    ensures DropBit(w) == w >> 1 && DropBit(DropBit(w)) == w >> 2 && DropBit(DropBit(DropBit(w))) == w >> 3
    ensures DropBit(DropBit(DropBit(DropBit(w)))) == w >> 4
  {}

  lemma MaskedBits(w: bv32)
    ensures LowBit(w) == (w & 1 == 1) && LowBit(DropBit(w)) == (w & 2 == 2)
    ensures LowBit(DropBit(DropBit(w))) == (w & 4 == 4) && LowBit(DropBit(DropBit(DropBit(w)))) == (w & 8 == 8)
    ensures DropBit(DropBit(DropBit(DropBit(w)))) == w >> 4
  {
    hide DropBit;
    DroppedBits(w);
    SecondBit(w);
    ThirdBit(w);
    FourthBit(w);
  }

  lemma FourBits(w: bv32)
    ensures BitOf(w, 0) == (w & 1 == 1) && BitOf(w, 1) == (w & 2 == 2)
    ensures BitOf(w, 2) == (w & 4 == 4) && BitOf(w, 3) == (w & 8 == 8)
  {
    hide LowBit, DropBit;
    MaskedBits(w);
    var v := DropBit(w);
    assert BitOf(w, 1) == BitOf(v, 0);
    assert BitOf(w, 2) == BitOf(v, 1) == BitOf(DropBit(v), 0);
    assert BitOf(w, 3) == BitOf(v, 2) == BitOf(DropBit(v), 1) == BitOf(DropBit(DropBit(v)), 0);
  }

  lemma FourOn(w: bv32, i: nat)
    requires i >= 4
    ensures BitOf(w, i) == BitOf(w >> 4, i - 4)
  {
    hide LowBit, DropBit;
    MaskedBits(w);
    var v := DropBit(DropBit(w));
    assert BitOf(w, i) == BitOf(DropBit(w), i - 1) == BitOf(v, i - 2) == BitOf(DropBit(v), i - 3);
  }

  lemma LowestAndRest(a: bv32, b: bv32)
    ensures LowBit(Mix(a, b)) == (LowBit(a) != LowBit(b))
    ensures DropBit(Mix(a, b)) == Mix(DropBit(a), DropBit(b))
  {}

  lemma {:induction false} MixedBit(a: bv32, b: bv32, i: nat)
    ensures BitOf(Mix(a, b), i) == (BitOf(a, i) != BitOf(b, i))
    decreases i
  {
    hide Mix, LowBit, DropBit;
    LowestAndRest(a, b);
    if i > 0 {
      MixedBit(DropBit(a), DropBit(b), i - 1);
    }
  }

  lemma {:induction false} TopBit(w: bv32, i: nat)
    ensures BitOf(w, i) == LowBit(Rest(w, i))
    decreases i
  {
    hide LowBit, DropBit;
    if i > 0 {
      TopBit(DropBit(w), i - 1);
    }
  }

  lemma NothingAbove(w: bv32)
    ensures !BitOf(w, 32)
  {
    TopBit(w, 32);
    RestOfEight(w, 24);
    RestOfEight(DropByte(w), 16);
    RestOfEight(DropByte(DropByte(w)), 8);
    RestOfEight(DropByte(DropByte(DropByte(w))), 0);
    assert DropByte(DropByte(DropByte(DropByte(w)))) == 0;
  }

  /** The polynomial's word holds the generator's coefficients below x^32. */
  lemma GeneratorWord(i: nat)
    requires i < 32
    ensures BitOf(POLYNOMIAL, i) == InGenerator(31 - i)
  {
    hide BitOf;
    if i < 4 { FourBits(0xEDB88320); }
    else { FourOn(0xEDB88320, i); GeneratorAbove(i); }
  }

  lemma GeneratorAbove(i: nat)
    requires 4 <= i < 32
    ensures BitOf(0x0EDB8832, i - 4) == InGenerator(31 - i)
  {
    hide BitOf;
    if i < 8 { FourBits(0x0EDB8832); } else { FourOn(0x0EDB8832, i - 4);
    if i < 12 { FourBits(0x00EDB883); } else { FourOn(0x00EDB883, i - 8);
    if i < 16 { FourBits(0x000EDB88); } else { FourOn(0x000EDB88, i - 12);
    if i < 20 { FourBits(0x0000EDB8); } else { FourOn(0x0000EDB8, i - 16);
    if i < 24 { FourBits(0x00000EDB); } else { FourOn(0x00000EDB, i - 20);
    if i < 28 { FourBits(0x000000ED); } else { FourOn(0x000000ED, i - 24);
    FourBits(0x0000000E); } } } } } }
  }

  lemma StepInBits(c: bv32)
    ensures Step(c) == if LowBit(c) then Mix(DropBit(c), POLYNOMIAL) else DropBit(c)
  {}

  /** One step of the register, coefficient by coefficient. */
  lemma AbsorbedBit(c: bv32, bit: bool, i: nat)
    requires i < 32
    ensures BitOf(Absorb(c, bit), i)
            == ((i < 31 && BitOf(c, i + 1)) != ((bit != BitOf(c, 0)) && InGenerator(31 - i)))
  {
    hide Mix, LowBit, DropBit, Step;
    var d := if bit then Mix(c, 1) else c;
    StepInBits(d);
    FirstBit(c);
    MixedBit(DropBit(d), POLYNOMIAL, i);
    GeneratorWord(i);
    NothingAbove(c);
  }

  lemma FirstBit(c: bv32)
    ensures LowBit(Mix(c, 1)) == !LowBit(c) && DropBit(Mix(c, 1)) == DropBit(c)
  {}

  // ------------------------------------------------------------ the register is a remainder

  /** One step of the division is one step of the register. */
  lemma DivisionStep(c: bv32, bits: seq<bool>)
    requires bits != []
    ensures var p := Dividend(c, bits);
            (if p[0] then Subtracted(p) else p)[1..] == Dividend(Absorb(c, bits[0]), bits[1..])
  {
    hide Absorb;
    var p, q := Dividend(c, bits), Dividend(Absorb(c, bits[0]), bits[1..]);
    forall i | 0 <= i < |q| ensures (if p[0] then Subtracted(p) else p)[1..][i] == q[i] {
      if i < 32 {
        AbsorbedBit(c, bits[0], i);
      }
    }
  }

  lemma {:induction false} RegisterIsRemainder(c: bv32, bits: seq<bool>)
    ensures Remainder(Dividend(c, bits)) == Coefficients(Feed(c, bits))
    decreases |bits|
  {
    hide Absorb, Dividend, BitOf, Subtracted;
    if bits == [] {
      NothingFed(c);
    } else {
      DivisionStep(c, bits);
      RegisterIsRemainder(Absorb(c, bits[0]), bits[1..]);
    }
  }

  lemma NothingFed(c: bv32)
    ensures Dividend(c, []) == Coefficients(c)
  {}

  /** Bit `i` of a message that starts with the lowest bit of its first byte. */
  function MessageBit(data: seq<bv8>, i: nat): bool
    requires i < 8 * |data|
  {
    BitOf(data[i / 8] as bv32, i % 8)
  }

  lemma {:induction false} LowBitsAt(w: bv32, n: nat, i: nat)
    requires i < n
    ensures LowBits(w, n)[i] == BitOf(w, i)
    decreases n
  {
    hide LowBit, DropBit;
    if i > 0 {
      LowBitsAt(DropBit(w), n - 1, i - 1);
    }
  }

  lemma {:induction false} BitsAt(data: seq<bv8>, i: nat)
    requires i < 8 * |data|
    ensures Bits(data)[i] == MessageBit(data, i)
    decreases |data|
  {
    hide BitOf, LowBits;
    var front := data[..|data| - 1];
    if i < 8 * |front| {
      BitsAt(front, i);
      assert front[i / 8] == data[i / 8];
    } else {
      LowBitsAt(Widen(data[|data| - 1]), 8, i - 8 * |front|);
      assert i / 8 == |data| - 1 && i % 8 == i - 8 * |front|;
    }
  }

  /** A message with its first 32 bits complemented, times x^32. */
  function Extended(data: seq<bv8>): (p: seq<bool>)
    ensures |p| == 8 * |data| + 32
  {
    seq(8 * |data| + 32, i requires 0 <= i < 8 * |data| + 32 => (i < 8 * |data| && MessageBit(data, i)) != (i < 32))
  }

  lemma AllOnes(i: nat)
    requires i < 32
    ensures BitOf(INITIAL, i)
  {
    hide BitOf;
    OnesFrom(0xFFFF_FFFF, i);
    if i >= 8 { OnesFrom(0x00FF_FFFF, i - 8); }
    if i >= 16 { OnesFrom(0x0000_FFFF, i - 16); }
    if i >= 24 { OnesFrom(0x0000_00FF, i - 24); }
  }

  lemma OnesFrom(w: bv32, i: nat)
    requires w & 0xFF == 0xFF
    ensures if i < 8 then BitOf(w, i) else BitOf(w, i) == BitOf(w >> 8, i - 8)
  {
    hide BitOf;
    assert w & 0xF == 0xF && (w >> 4) & 0xF == 0xF;
    OnesInNibble(w);
    OnesInNibble(w >> 4);
    assert (w >> 4) >> 4 == w >> 8;
    if i < 4 { FourBits(w); } else {
      FourOn(w, i);
      if i < 8 { FourBits(w >> 4); } else { FourOn(w >> 4, i - 4); }
    }
  }

  lemma OnesInNibble(w: bv32)
    requires w & 0xF == 0xF
    ensures w & 1 == 1 && w & 2 == 2 && w & 4 == 4 && w & 8 == 8
  {}

  lemma ComplementedBit(w: bv32, i: nat)
    requires i < 32
    ensures BitOf(Complement(w), i) == !BitOf(w, i)
  {
    hide BitOf;
    assert Complement(w) == Mix(w, INITIAL);
    MixedBit(w, INITIAL, i);
    AllOnes(i);
  }

  /** The checksum is the complement of the remainder of the extended message. */
  lemma ChecksumIsRemainder(data: seq<bv8>)
    ensures |Remainder(Extended(data))| == 32
    ensures forall i :: 0 <= i < 32 ==> BitOf(Checksum(data), i) == !Remainder(Extended(data))[i]
  {
    hide Remainder, Feed, Register, BitOf, Complement, MessageBit;
    RegisterIsFeed(INITIAL, data);
    RegisterIsRemainder(INITIAL, Bits(data));
    forall i | 0 <= i < 8 * |data| + 32 ensures Dividend(INITIAL, Bits(data))[i] == Extended(data)[i] {
      if i < 8 * |data| { BitsAt(data, i); }
      if i < 32 { AllOnes(i); }
    }
    assert Dividend(INITIAL, Bits(data)) == Extended(data);
    forall i | 0 <= i < 32 ensures BitOf(Checksum(data), i) == !Remainder(Extended(data))[i] {
      ComplementedBit(Register(INITIAL, data), i);
    }
  }
}
