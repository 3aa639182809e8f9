/** The CRC-32 of the serial packets (lib/StreamProtocol/StreamProtocol.cpp): the reflected
    polynomial of section 8 of RFC 1952, computed byte by byte. The theorem of this module is
    the guarantee the checksum exists for: flipping any bits inside a window of 32
    consecutive bits changes the register, whatever the message around the window is. */
module Crc32 {

  const POLYNOMIAL: bv32 := 0xEDB88320
  const INITIAL: bv32 := 0xFFFFFFFF

  function Mix(c: bv32, w: bv32): bv32 {
    c ^ w
  }

  /** One shift of the register. */
  function Step(c: bv32): bv32 {
    (c >> 1) ^ (POLYNOMIAL & (0 - (c & 1)))
  }

  function Steps(c: bv32, n: nat): bv32
    decreases n
  {
    if n == 0 then c else Steps(Step(c), n - 1)
  }

  function Widen(b: bv8): bv32 {
    b as bv32
  }

  function Update(c: bv32, b: bv8): bv32 {
    Steps(Mix(c, Widen(b)), 8)
  }

  function Register(c: bv32, data: seq<bv8>): bv32 {
    if data == [] then c else Update(Register(c, data[..|data| - 1]), data[|data| - 1])
  }

  function Checksum(data: seq<bv8>): bv32 {
    Complement(Register(INITIAL, data))
  }

  function Complement(w: bv32): bv32 {
    !w
  }

  lemma RegisterGrows(c: bv32, data: seq<bv8>, i: nat)
    requires i < |data|
    ensures Register(c, data[..i + 1]) == Update(Register(c, data[..i]), data[i])
  {
    assert data[..i + 1][..i] == data[..i];
  }

  /** The checksum of the first `length` bytes of a buffer. */
  method Compute(data: array<bv8>, length: nat) returns (crc: bv32)
    requires length <= data.Length
    ensures crc == Checksum(data[..length])
  {
    crc := INITIAL;
    for i := 0 to length
      invariant crc == Register(INITIAL, data[..i])
    {
      RegisterGrows(INITIAL, data[..], i);
      assert data[..][..i + 1] == data[..i + 1] && data[..][..i] == data[..i];
      crc := ShiftByte(crc, data[i]);
    }
    crc := !crc;
  }

  method ShiftByte(c: bv32, b: bv8) returns (crc: bv32)
    ensures crc == Update(c, b)
  {
    crc := c ^ (b as bv32);
    for j := 0 to 8
      invariant Steps(crc, 8 - j) == Update(c, b)
    {
      var mask := 0 - (crc & 1);
      crc := (crc >> 1) ^ (POLYNOMIAL & mask);
    }
  }

  // ------------------------------------------------------------ a step can be undone

  /** The polynomial has its top bit set, so a step tells odd registers from even ones. */
  lemma StepInjective(x: bv32, y: bv32)
    requires Step(x) == Step(y)
    ensures x == y
  {}

  lemma {:induction false} StepsInjective(x: bv32, y: bv32, n: nat)
    requires Steps(x, n) == Steps(y, n)
    ensures x == y
    decreases n
  {
    if n > 0 {
      StepsInjective(Step(x), Step(y), n - 1);
      StepInjective(x, y);
    }
  }

  lemma MixInjective(x: bv32, y: bv32, w: bv32)
    requires Mix(x, w) == Mix(y, w)
    ensures x == y
  {}

  // ------------------------------------------------------------ one bit at a time

  function LowBit(w: bv32): bool {
    w & 1 == 1
  }

  function DropBit(w: bv32): bv32 {
    w >> 1
  }

  function Absorb(c: bv32, bit: bool): bv32 {
    Step(if bit then Mix(c, 1) else c)
  }

  /** The register after a message given bit by bit. */
  function Feed(c: bv32, bits: seq<bool>): bv32
    decreases |bits|
  {
    if bits == [] then c else Feed(Absorb(c, bits[0]), bits[1..])
  }

  /** The `n` low bits of a word, lowest first. */
  function LowBits(w: bv32, n: nat): (bits: seq<bool>)
    ensures |bits| == n
  {
    if n == 0 then [] else [LowBit(w)] + LowBits(DropBit(w), n - 1)
  }

  /** What remains of a word when its `n` low bits are shifted out. */
  function Rest(w: bv32, n: nat): bv32 {
    if n == 0 then w else Rest(DropBit(w), n - 1)
  }

  /** The bits of a message, in the order in which the register takes them. */
  function Bits(data: seq<bv8>): (bits: seq<bool>)
    ensures |bits| == 8 * |data|
  {
    if data == [] then [] else Bits(data[..|data| - 1]) + LowBits(Widen(data[|data| - 1]), 8)
  }

  lemma EvenWordShifts(c: bv32, w: bv32)
    requires w & 1 == 0
    ensures Step(c ^ w) == Step(c) ^ (w >> 1)
  {
    LowBitStays(c, w);
    ShiftOfBoth(c, w);
    SwapLast(c >> 1, w >> 1, POLYNOMIAL & (0 - (c & 1)));
  }

  lemma LowBitStays(c: bv32, w: bv32)
    requires w & 1 == 0
    ensures (c ^ w) & 1 == c & 1
  {}

  lemma ShiftOfBoth(c: bv32, w: bv32)
    ensures (c ^ w) >> 1 == (c >> 1) ^ (w >> 1)
  {}

  lemma SwapLast(a: bv32, b: bv32, c: bv32)
    ensures (a ^ b) ^ c == (a ^ c) ^ b
  {}

  /** Bits that a step does not test are merely shifted. */
  lemma StepShifts(c: bv32, w: bv32)
    requires !LowBit(w)
    ensures Step(Mix(c, w)) == Mix(Step(c), DropBit(w))
  {
    hide Step;
    assert w & 1 == 0;
    EvenWordShifts(c, w);
  }

  lemma MixTwice(c: bv32, w: bv32)
    ensures Mix(Mix(c, w), w) == c
  {}

  lemma MixCommutes(c: bv32, w: bv32)
    ensures Mix(Mix(c, w), 1) == Mix(Mix(c, 1), w)
  {}

  lemma MixOdd(c: bv32, w: bv32)
    ensures Mix(c, w) == Mix(Mix(c, 1), Mix(w, 1))
  {}

  lemma ClearLowBit(w: bv32)
    requires LowBit(w)
    ensures !LowBit(Mix(w, 1)) && DropBit(Mix(w, 1)) == DropBit(w)
  {}

  /** A word mixed in before a step: its lowest bit meets the step, the others are shifted. */
  lemma StepMixes(c: bv32, w: bv32)
    ensures Step(Mix(c, w)) == Mix(Absorb(c, LowBit(w)), DropBit(w))
  {
    hide Step, Mix, LowBit, DropBit;
    if LowBit(w) {
      MixOdd(c, w);
      ClearLowBit(w);
      StepShifts(Mix(c, 1), Mix(w, 1));
    } else {
      StepShifts(c, w);
    }
  }

  /** Flipping a register bit is flipping the message bit that meets it. */
  lemma AbsorbMixes(c: bv32, e: bv32, bit: bool)
    ensures Absorb(Mix(c, e), bit) == Mix(Absorb(c, bit != LowBit(e)), DropBit(e))
  {
    hide Step, Mix, LowBit, DropBit;
    if bit {
      MixCommutes(c, e);
      StepMixes(Mix(c, 1), e);
      MixTwice(c, 1);
    } else {
      StepMixes(c, e);
    }
  }

  lemma AbsorbInjective(x: bv32, y: bv32, bit: bool)
    requires Absorb(x, bit) == Absorb(y, bit)
    ensures x == y
  {
    hide Step, Mix;
    if bit {
      StepInjective(Mix(x, 1), Mix(y, 1));
      MixInjective(x, y, 1);
    } else {
      StepInjective(x, y);
    }
  }

  /** Mixing a whole word in before the steps is feeding its bits one by one. */
  lemma {:induction false} FeedWord(c: bv32, w: bv32, n: nat)
    ensures Mix(Feed(c, LowBits(w, n)), Rest(w, n)) == Steps(Mix(c, w), n)
    decreases n
  {
    hide Mix, Step, Absorb, LowBit, DropBit;
    if n > 0 {
      StepMixes(c, w);
      FeedWord(Absorb(c, LowBit(w)), DropBit(w), n - 1);
      assert LowBits(w, n)[1..] == LowBits(DropBit(w), n - 1);
    }
  }

  lemma {:induction false} FeedAppend(c: bv32, a: seq<bool>, b: seq<bool>)
    ensures Feed(c, a + b) == Feed(Feed(c, a), b)
    decreases |a|
  {
    hide Absorb;
    if a == [] {
      assert a + b == b;
    } else {
      FeedAppend(Absorb(c, a[0]), a[1..], b);
      assert (a + b)[1..] == a[1..] + b;
    }
  }

  lemma RestOfEight(w: bv32, n: nat)
    ensures Rest(w, n + 8) == Rest(DropByte(w), n)
  {
    assert Rest(w, n + 8) == Rest(w >> 1, n + 7) == Rest(w >> 2, n + 6) == Rest(w >> 3, n + 5);
    assert Rest(w >> 3, n + 5) == Rest(w >> 4, n + 4) == Rest(w >> 5, n + 3) == Rest(w >> 6, n + 2);
    assert Rest(w >> 6, n + 2) == Rest(w >> 7, n + 1) == Rest(w >> 8, n);
  }

  lemma ByteRest(b: bv8)
    ensures Rest(Widen(b), 8) == 0
  {
    RestOfEight(Widen(b), 0);
  }

  lemma MixNothing(c: bv32)
    ensures Mix(c, 0) == c
  {}

  lemma {:induction false} RegisterIsFeed(c: bv32, data: seq<bv8>)
    ensures Register(c, data) == Feed(c, Bits(data))
    decreases |data|
  {
    hide Mix, Feed, Steps, LowBits, Rest, Widen;
    if data == [] {
      assert Feed(c, []) == c by { FeedNothing(c); }
    } else {
      var front, b := data[..|data| - 1], data[|data| - 1];
      RegisterIsFeed(c, front);
      FeedAppend(c, Bits(front), LowBits(Widen(b), 8));
      FeedWord(Feed(c, Bits(front)), Widen(b), 8);
      ByteRest(b);
      MixNothing(Feed(Feed(c, Bits(front)), LowBits(Widen(b), 8)));
    }
  }

  lemma FeedNothing(c: bv32)
    ensures Feed(c, []) == c
  {}

  lemma {:induction false} FeedInjective(x: bv32, y: bv32, bits: seq<bool>)
    requires Feed(x, bits) == Feed(y, bits)
    ensures x == y
    decreases |bits|
  {
    hide Absorb;
    if bits != [] {
      FeedInjective(Absorb(x, bits[0]), Absorb(y, bits[0]), bits[1..]);
      AbsorbInjective(x, y, bits[0]);
    }
  }

  // ------------------------------------------------------------ bursts

  /** A message with the bits selected by `e` flipped, from its first bit on. */
  function Flip(bits: seq<bool>, e: bv32): (flipped: seq<bool>)
    ensures |flipped| == |bits|
  {
    if bits == [] then [] else [bits[0] != LowBit(e)] + Flip(bits[1..], DropBit(e))
  }

  /** Flipping bits of the message is the same as flipping bits of the register before it. */
  lemma {:induction false} FlipMovesToRegister(c: bv32, bits: seq<bool>, e: bv32)
    ensures Mix(Feed(c, Flip(bits, e)), Rest(e, |bits|)) == Feed(Mix(c, e), bits)
    decreases |bits|
  {
    hide Mix, Absorb, LowBit, DropBit;
    if bits != [] {
      AbsorbMixes(c, e, bits[0]);
      FlipMovesToRegister(Absorb(c, bits[0] != LowBit(e)), bits[1..], DropBit(e));
      assert Flip(bits, e)[1..] == Flip(bits[1..], DropBit(e));
    }
  }

  /** The message `sent` arrives with at least one bit flipped, all inside the 32 bits from
      bit `at` on, and inside the message. */
  ghost predicate Burst(sent: seq<bv8>, arrived: seq<bv8>, at: nat, e: bv32) {
    && at <= 8 * |sent|
    && e != 0
    && Rest(e, 8 * |sent| - at) == 0
    && Bits(arrived) == Bits(sent)[..at] + Flip(Bits(sent)[at..], e)
  }

  lemma MixSomething(c: bv32, e: bv32)
    requires e != 0
    ensures Mix(c, e) != c
  {}

  /** Any burst of up to 32 bits, anywhere in a message of any length, changes the register. */
  lemma BurstChangesRegister(c: bv32, sent: seq<bv8>, arrived: seq<bv8>, at: nat, e: bv32)
    requires Burst(sent, arrived, at, e)
    ensures Register(c, arrived) != Register(c, sent)
  {
    hide Mix, Feed, Flip, Rest, Register, Bits;
    var front, back := Bits(sent)[..at], Bits(sent)[at..];
    RegisterIsFeed(c, sent);
    RegisterIsFeed(c, arrived);
    assert Bits(sent) == front + back;
    FeedAppend(c, front, back);
    FeedAppend(c, front, Flip(back, e));
    var r := Feed(c, front);
    FlipMovesToRegister(r, back, e);
    MixNothing(Feed(r, Flip(back, e)));
    MixSomething(r, e);
    if Feed(Mix(r, e), back) == Feed(r, back) {
      FeedInjective(Mix(r, e), r, back);
    }
  }

  // ------------------------------------------------------------ whole words

  function Word(bytes: seq<bv8>): bv32
    requires |bytes| == 4
  {
    (bytes[0] as bv32) | ((bytes[1] as bv32) << 8) | ((bytes[2] as bv32) << 16) | ((bytes[3] as bv32) << 24)
  }

  /** The four bytes of a word, lowest first. */
  function WordBytes(w: bv32): (bytes: seq<bv8>)
    ensures |bytes| == 4 && Word(bytes) == w
  {
    [LowByte(w), LowByte(DropByte(w)), LowByte(DropByte(DropByte(w))), LowByte(DropByte(DropByte(DropByte(w))))]
  }

  function DropByte(w: bv32): bv32 {
    w >> 8
  }

  function LowByte(w: bv32): bv8 {
    (w & 0xFF) as bv8
  }

  lemma WordBytesOfWord(bytes: seq<bv8>)
    requires |bytes| == 4
    ensures WordBytes(Word(bytes)) == bytes
  {}

  lemma {:induction false} RegisterAppend(c: bv32, a: seq<bv8>, b: seq<bv8>)
    ensures Register(c, a + b) == Register(Register(c, a), b)
    decreases |b|
  {
    hide Update;
    if b == [] {
      assert a + b == a;
    } else {
      RegisterAppend(c, a, b[..|b| - 1]);
      assert (a + b)[..|a + b| - 1] == a + b[..|b| - 1];
    }
  }

  lemma {:induction false} StepsAdd(c: bv32, m: nat, n: nat)
    ensures Steps(c, m + n) == Steps(Steps(c, m), n)
    decreases m
  {
    hide Step;
    if m > 0 {
      StepsAdd(Step(c), m - 1, n);
    }
  }

  predicate LowZeros(w: bv32, n: nat)
    decreases n
  {
    n == 0 || (!LowBit(w) && LowZeros(DropBit(w), n - 1))
  }

  lemma {:induction false} StepsShift(c: bv32, w: bv32, n: nat)
    requires LowZeros(w, n)
    ensures Steps(Mix(c, w), n) == Mix(Steps(c, n), Rest(w, n))
    decreases n
  {
    hide Step, Mix, LowBit, DropBit;
    if n > 0 {
      StepShifts(c, w);
      StepsShift(Step(c), DropBit(w), n - 1);
    }
  }

  lemma EightZeros(h: bv32)
    requires h & 0xFF == 0
    ensures LowZeros(h, 8)
  {
    assert h & 1 == 0 && (h >> 1) & 1 == 0 && (h >> 2) & 1 == 0 && (h >> 3) & 1 == 0;
    assert (h >> 4) & 1 == 0 && (h >> 5) & 1 == 0 && (h >> 6) & 1 == 0 && (h >> 7) & 1 == 0;
    assert LowZeros(h >> 8, 0);
    assert LowZeros(h >> 7, 1);
    assert LowZeros(h >> 6, 2);
    assert LowZeros(h >> 5, 3);
    assert LowZeros(h >> 4, 4);
    assert LowZeros(h >> 3, 5);
    assert LowZeros(h >> 2, 6);
    assert LowZeros(h >> 1, 7);
  }

  lemma HighPart(w: bv32)
    ensures (w & 0xFFFFFF00) & 0xFF == 0 && (w & 0xFFFFFF00) >> 8 == w >> 8
  {}

  lemma HighBytes(w: bv32)
    ensures LowZeros(w & 0xFFFFFF00, 8) && Rest(w & 0xFFFFFF00, 8) == DropByte(w)
  {
    hide LowZeros, Rest;
    HighPart(w);
    EightZeros(w & 0xFFFFFF00);
    RestOfEight(w & 0xFFFFFF00, 0);
    RestOfNone(DropByte(w));
  }

  lemma RestOfNone(w: bv32)
    ensures Rest(w, 0) == w
  {}

  lemma SplitWord(c: bv32, w: bv32)
    ensures Mix(c, w) == Mix(Mix(c, Widen(LowByte(w))), w & 0xFFFFFF00)
  {}

  /** Eight steps on a register with a word mixed in take the word's lowest byte. */
  lemma TakeByte(c: bv32, w: bv32, n: nat)
    ensures Steps(Mix(c, w), 8 + n) == Steps(Mix(Update(c, LowByte(w)), DropByte(w)), n)
  {
    hide Step, Steps, Mix, Widen, LowByte, LowZeros, Rest, DropByte;
    var x := Mix(c, Widen(LowByte(w)));
    SplitWord(c, w);
    HighBytes(w);
    StepsShift(x, w & 0xFFFFFF00, 8);
    StepsAdd(Mix(c, w), 8, n);
  }

  lemma FourBytesGone(w: bv32)
    ensures DropByte(DropByte(DropByte(DropByte(w)))) == 0
  {}

  lemma TakeWord(c: bv32, w: bv32)
    ensures Register(c, WordBytes(w)) == Steps(Mix(c, w), 32)
  {
    hide Steps, Mix, Update, LowByte, DropByte, Register;
    var w1 := DropByte(w);
    var w2 := DropByte(w1);
    var w3 := DropByte(w2);
    var bytes := WordBytes(w);
    var c1 := Update(c, bytes[0]);
    var c2 := Update(c1, bytes[1]);
    var c3 := Update(c2, bytes[2]);
    var c4 := Update(c3, bytes[3]);
    TakeByte(c, w, 24);
    TakeByte(c1, w1, 16);
    TakeByte(c2, w2, 8);
    TakeByte(c3, w3, 0);
    FourBytesGone(w);
    MixNothing(c4);
    NoSteps(c4);
    FourUpdates(c, bytes);
  }

  lemma NoSteps(c: bv32)
    ensures Steps(c, 0) == c
  {}

  lemma FourUpdates(c: bv32, bytes: seq<bv8>)
    requires |bytes| == 4
    ensures Register(c, bytes) == Update(Update(Update(Update(c, bytes[0]), bytes[1]), bytes[2]), bytes[3])
  {
    hide Update;
    RegisterGrows(c, bytes, 0);
    RegisterGrows(c, bytes, 1);
    RegisterGrows(c, bytes, 2);
    RegisterGrows(c, bytes, 3);
    assert bytes[..4] == bytes;
  }

  /** What the register shows after any message followed by its own checksum. */
  function Residue(): bv32 {
    Steps(INITIAL, 32)
  }

  lemma MixComplement(w: bv32)
    ensures Mix(w, Complement(w)) == INITIAL
  {}

  lemma MixDetermines(w: bv32, x: bv32, y: bv32)
    requires Mix(w, x) == Mix(w, y)
    ensures x == y
  {}

  /** A trailer is the checksum of what precedes it exactly when the register over both shows
      the residue; so altering the trailer is as visible as altering the message. */
  lemma ChecksumIffResidue(body: seq<bv8>, trailer: bv32)
    ensures trailer == Checksum(body) <==> Register(INITIAL, body + WordBytes(trailer)) == Residue()
  {
    hide Steps, Mix, Register, WordBytes, Complement;
    var c := Register(INITIAL, body);
    RegisterAppend(INITIAL, body, WordBytes(trailer));
    TakeWord(c, trailer);
    MixComplement(c);
    if Steps(Mix(c, trailer), 32) == Steps(INITIAL, 32) {
      StepsInjective(Mix(c, trailer), INITIAL, 32);
      MixDetermines(c, trailer, Complement(c));
    }
  }

  // ------------------------------------------------------------ four altered bytes

  lemma {:induction false} BitsAppend(a: seq<bv8>, b: seq<bv8>)
    ensures Bits(a + b) == Bits(a) + Bits(b)
    decreases |b|
  {
    hide LowBits;
    if b == [] {
      assert a + b == a;
    } else {
      BitsAppend(a, b[..|b| - 1]);
      assert (a + b)[..|a + b| - 1] == a + b[..|b| - 1];
    }
  }

  lemma MixBits(w: bv32, e: bv32)
    ensures LowBit(Mix(w, e)) == (LowBit(w) != LowBit(e))
    ensures DropBit(Mix(w, e)) == Mix(DropBit(w), DropBit(e))
  {}

  lemma FlipFirst(bit: bool, bits: seq<bool>, e: bv32)
    ensures Flip([bit] + bits, e) == [bit != LowBit(e)] + Flip(bits, DropBit(e))
  {
    assert ([bit] + bits)[1..] == bits;
  }

  lemma FirstInFront(bit: bool, bits: seq<bool>, rest: seq<bool>)
    ensures ([bit] + bits) + rest == [bit] + (bits + rest)
  {}

  lemma {:induction false} FlipWord(w: bv32, n: nat, rest: seq<bool>, e: bv32)
    ensures Flip(LowBits(w, n) + rest, e) == LowBits(Mix(w, e), n) + Flip(rest, Rest(e, n))
    decreases n
  {
    hide Mix, LowBit, DropBit, Flip;
    if n == 0 {
      assert LowBits(w, n) + rest == rest;
    } else {
      var d, f := DropBit(w), DropBit(e);
      var more := LowBits(d, n - 1) + rest;
      MixBits(w, e);
      FlipWord(d, n - 1, rest, f);
      FlipFirst(LowBit(w), more, e);
      FirstInFront(LowBit(w), LowBits(d, n - 1), rest);
      FirstInFront(LowBit(Mix(w, e)), LowBits(Mix(d, f), n - 1), Flip(rest, Rest(f, n - 1)));
    }
  }

  lemma {:induction false} ZerosKeepLowBits(v: bv32, h: bv32, n: nat)
    requires LowZeros(h, n)
    ensures LowBits(Mix(v, h), n) == LowBits(v, n)
    decreases n
  {
    hide Mix, LowBit, DropBit;
    if n > 0 {
      MixBits(v, h);
      ZerosKeepLowBits(DropBit(v), DropBit(h), n - 1);
    }
  }

  lemma ByteAndRest(w: bv32)
    ensures w == Mix(Widen(LowByte(w)), w & 0xFFFFFF00)
  {}

  /** The low bits of a word are those of its lowest byte. */
  lemma LowEight(w: bv32)
    ensures LowBits(w, 8) == LowBits(Widen(LowByte(w)), 8)
  {
    hide Widen, LowByte, Mix, LowBits, LowZeros, Rest;
    HighBytes(w);
    ByteAndRest(w);
    ZerosKeepLowBits(Widen(LowByte(w)), w & 0xFFFFFF00, 8);
  }

  /** Flipping the bits in which two bytes differ turns one into the other. */
  lemma FlipByte(b: bv8, a: bv8, rest: seq<bool>, e: bv32)
    requires LowByte(e) == b ^ a
    ensures Flip(Before(b, rest), e) == Before(a, Flip(rest, DropByte(e)))
  {
    hide Widen, LowByte, DropByte, LowBits, Rest, Flip, Mix;
    FlipWord(Widen(b), 8, rest, e);
    LowEight(Mix(Widen(b), e));
    MixBytes(b, a, e);
    RestOfEight(e, 0);
    RestOfNone(DropByte(e));
  }

  lemma MixBytes(b: bv8, a: bv8, e: bv32)
    requires LowByte(e) == b ^ a
    ensures LowByte(Mix(Widen(b), e)) == a
  {}

  /** Messages of one length that agree except in four consecutive bytes differ by a burst. */
  lemma FourBytesAreABurst(sent: seq<bv8>, arrived: seq<bv8>, k: nat) returns (e: bv32)
    requires |sent| == |arrived| && k + 4 <= |sent| && sent != arrived
    requires sent[..k] == arrived[..k] && sent[k + 4..] == arrived[k + 4..]
    ensures Burst(sent, arrived, 8 * k, e)
  {
    var b, a := sent[k..k + 4], arrived[k..k + 4];
    var front, back := sent[..k], sent[k + 4..];
    assert sent == front + b + back && arrived == front + a + back;
    e := Word(Differences(b, a));
    FlipFour(b, a, Bits(back));
    BitsOfThree(front, b, back);
    BitsOfThree(front, a, back);
    assert Bits(sent)[..8 * k] == Bits(front);
    assert Bits(sent)[8 * k..] == Bits(b) + Bits(back);
    WordVanishes(e, 8 * |sent| - 8 * k - 32);
    if e == 0 {
      NoDifference(b, a);
    }
  }

  lemma BitsOfThree(front: seq<bv8>, middle: seq<bv8>, back: seq<bv8>)
    ensures Bits(front + middle + back) == Bits(front) + (Bits(middle) + Bits(back))
  {
    hide Bits;
    BitsAppend(front + middle, back);
    BitsAppend(front, middle);
  }

  function Differences(b: seq<bv8>, a: seq<bv8>): (d: seq<bv8>)
    requires |b| == |a| == 4
    ensures |d| == 4
  {
    [b[0] ^ a[0], b[1] ^ a[1], b[2] ^ a[2], b[3] ^ a[3]]
  }

  lemma NoDifference(b: seq<bv8>, a: seq<bv8>)
    requires |b| == |a| == 4 && Word(Differences(b, a)) == 0
    ensures a == b
  {
    WordBytesOfWord(Differences(b, a));
    assert WordBytes(0) == [0, 0, 0, 0];
    SameByte(b[0], a[0]);
    SameByte(b[1], a[1]);
    SameByte(b[2], a[2]);
    SameByte(b[3], a[3]);
  }

  lemma SameByte(b: bv8, a: bv8)
    ensures b ^ a == 0 ==> a == b
  {}

  lemma {:induction false} NothingVanishes(n: nat)
    ensures Rest(0, n) == 0
    decreases n
  {
    if n > 0 {
      NothingVanishes(n - 1);
    }
  }

  /** A word is gone after 32 of its bits. */
  lemma WordVanishes(w: bv32, n: nat)
    ensures Rest(w, 32 + n) == 0
  {
    hide Rest, DropByte;
    var w1 := DropByte(w);
    var w2 := DropByte(w1);
    var w3 := DropByte(w2);
    RestOfEight(w, 24 + n);
    RestOfEight(w1, 16 + n);
    RestOfEight(w2, 8 + n);
    RestOfEight(w3, n);
    FourBytesGone(w);
    NothingVanishes(n);
  }

  lemma {:induction false} FlipNothing(bits: seq<bool>)
    ensures Flip(bits, 0) == bits
    decreases |bits|
  {
    if bits != [] {
      FlipNothing(bits[1..]);
    }
  }

  lemma BitsOfFour(b: seq<bv8>, rest: seq<bool>)
    requires |b| == 4
    ensures Bits(b) + rest == Before(b[0], Before(b[1], Before(b[2], Before(b[3], rest))))
  {
    hide Before, Bits;
    BitsOfMore(b, 3, rest);
    var r3 := Before(b[3], rest);
    BitsOfMore(b[..3], 2, r3);
    var r2 := Before(b[2], r3);
    BitsOfMore(b[..2], 1, r2);
    BitsOfMore(b[..1], 0, Before(b[1], r2));
    FourSlices(b);
    NoBits(Before(b[0], Before(b[1], r2)));
  }

  /** The bits of one byte, in front of others. */
  function Before(b: bv8, rest: seq<bool>): seq<bool> {
    LowBits(Widen(b), 8) + rest
  }

  lemma FourSlices(b: seq<bv8>)
    requires |b| == 4
    ensures b[..3][2] == b[2] && b[..2][1] == b[1] && b[..1][0] == b[0]
    ensures b[..3][..2] == b[..2] && b[..2][..1] == b[..1] && b[..1][..0] == []
  {}

  lemma NoBits(rest: seq<bool>)
    ensures Bits([]) + rest == rest
  {}

  /** The bits of a message, its last byte split off. */
  lemma BitsOfMore(b: seq<bv8>, n: nat, rest: seq<bool>)
    requires |b| == n + 1
    ensures Bits(b) + rest == Bits(b[..n]) + Before(b[n], rest)
  {
    hide LowBits, Widen;
  }

  lemma FlipFour(b: seq<bv8>, a: seq<bv8>, rest: seq<bool>)
    requires |b| == |a| == 4
    ensures Flip(Bits(b) + rest, Word(Differences(b, a))) == Bits(a) + rest
  {
    hide Before, Bits, Flip, Word, DropByte, LowByte;
    var d := Differences(b, a);
    var e := Word(d);
    WordBytesOfWord(d);
    assert WordBytes(e) == d;
    var e1 := DropByte(e);
    var e2 := DropByte(e1);
    var e3 := DropByte(e2);
    var r3 := Before(b[3], rest);
    var r2 := Before(b[2], r3);
    var r1 := Before(b[1], r2);
    BitsOfFour(b, rest);
    BitsOfFour(a, rest);
    FlipByte(b[0], a[0], r1, e);
    FlipByte(b[1], a[1], r2, e1);
    FlipByte(b[2], a[2], r3, e2);
    FlipByte(b[3], a[3], rest, e3);
    FourBytesGone(e);
    FlipNothing(rest);
  }
}
