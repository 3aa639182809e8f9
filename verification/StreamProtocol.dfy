/** The serial packets (lib/StreamProtocol/StreamProtocol.cpp): an 8-byte header whose fields
    are packed into one 64-bit word, the payload, and the CRC-32 of both. */
module StreamProtocol {
  import opened Crc32

  const HEADER_SIZE: nat := 8
  const TRAILER_SIZE: nat := 4
  const LENGTH_LIMIT: nat := 0x2000_0000_0000
  const LENGTH_MASK: bv64 := 0x1FFF_FFFF_FFFF
  const FRAGED: bv8 := 1
  const UNFRAGED: bv8 := 0

  datatype Code = Ok | BufferTooSmall | PayloadTooLarge | InvalidArgument | CrcMismatch

  datatype Packet = Packet(version: bv8, length: nat, fragment: bv8, payloadType: bv8, user: bv16, payload: seq<bv8>)

  datatype Result = Parsed(packet: Packet) | Failed(code: Code)

  // ------------------------------------------------------------ numbers as machine words

  /** The 64-bit representation of a number. */
  function ToWord(n: nat): bv64
    decreases n
  {
    if n == 0 then 0 else Shifted(ToWord(n / 2), n % 2 == 1)
  }

  function Shifted(w: bv64, low: bool): bv64 {
    (w << 1) | (if low then 1 else 0)
  }

  function Half(w: bv64): bv64 {
    w >> 1
  }

  lemma HalfSmaller(w: bv64)
    requires w != 0
    ensures Half(w) < w
  {}

  /** The number a 64-bit word represents. */
  function ToNat(w: bv64): nat
    decreases w
  {
    if w == 0 then 0 else
      HalfSmaller(w);
      2 * ToNat(Half(w)) + if w & 1 == 1 then 1 else 0
  }

  lemma TakeShifted(w: bv64, low: bool)
    requires w <= 0xFFF_FFFF_FFFF
    ensures Shifted(w, low) <= LENGTH_MASK
    ensures Half(Shifted(w, low)) == w
    ensures Shifted(w, low) & 1 == if low then 1 else 0
  {}

  lemma ToNatShifted(w: bv64, low: bool)
    requires w <= 0xFFF_FFFF_FFFF
    ensures ToNat(Shifted(w, low)) == 2 * ToNat(w) + if low then 1 else 0
  {
    TakeShifted(w, low);
  }

  lemma HalfOfNat(w: bv64)
    ensures ToNat(w) >= 2 * ToNat(Half(w))
  {}

  function Sixteenth(w: bv64): bv64 {
    Half(Half(Half(Half(w))))
  }

  lemma SixteenthOfNat(w: bv64)
    ensures ToNat(w) >= 16 * ToNat(Sixteenth(w))
  {
    hide ToNat, Half;
    HalfOfNat(w);
    HalfOfNat(Half(w));
    HalfOfNat(Half(Half(w)));
    HalfOfNat(Half(Half(Half(w))));
  }

  lemma HighBits(w: bv64)
    requires w > 0xFFF_FFFF_FFFF
    ensures Sixteenth(Sixteenth(Sixteenth(Sixteenth(Sixteenth(Sixteenth(
              Sixteenth(Sixteenth(Sixteenth(Sixteenth(Sixteenth(w))))))))))) != 0
  {}

  lemma WideWord(w: bv64)
    requires w > 0xFFF_FFFF_FFFF
    ensures ToNat(w) >= 0x1000_0000_0000
  {
    HighBits(w);
    WordWithTop(w);
  }

  lemma WordWithTop(w: bv64)
    requires Sixteenth(Sixteenth(Sixteenth(Sixteenth(Sixteenth(Sixteenth(
               Sixteenth(Sixteenth(Sixteenth(Sixteenth(Sixteenth(w))))))))))) != 0
    ensures ToNat(w) >= 0x1000_0000_0000
  {
    hide ToNat, Sixteenth;
    var w3 := Sixteenth(Sixteenth(Sixteenth(w)));
    var w6 := Sixteenth(Sixteenth(Sixteenth(w3)));
    var w9 := Sixteenth(Sixteenth(Sixteenth(w6)));
    SixteenthOfNat(w);
    SixteenthOfNat(Sixteenth(w));
    SixteenthOfNat(Sixteenth(Sixteenth(w)));
    SixteenthOfNat(w3);
    SixteenthOfNat(Sixteenth(w3));
    SixteenthOfNat(Sixteenth(Sixteenth(w3)));
    SixteenthOfNat(w6);
    SixteenthOfNat(Sixteenth(w6));
    SixteenthOfNat(Sixteenth(Sixteenth(w6)));
    SixteenthOfNat(w9);
    SixteenthOfNat(Sixteenth(w9));
    PositiveNat(Sixteenth(Sixteenth(w9)));
  }

  lemma PositiveNat(w: bv64)
    ensures w != 0 ==> ToNat(w) >= 1
  {
    if w != 0 && w & 1 == 0 {
      HalfSmaller(w);
      PositiveNat(Half(w));
    }
  }

  /** A 45-bit number survives its passage through the header's word. */
  lemma {:induction false} NatRoundTrip(n: nat)
    requires n < LENGTH_LIMIT
    ensures ToNat(ToWord(n)) == n && ToWord(n) <= LENGTH_MASK
    decreases n
  {
    hide Shifted, ToNat;
    if n == 0 {
      NoNat();
    } else {
      var w := ToWord(n / 2);
      NatRoundTrip(n / 2);
      if w > 0xFFF_FFFF_FFFF {
        WideWord(w);
      }
      TakeShifted(w, n % 2 == 1);
      ToNatShifted(w, n % 2 == 1);
    }
  }

  lemma NoNat()
    ensures ToNat(0) == 0
  {}

  lemma Reshift(w: bv64)
    ensures Shifted(Half(w), w & 1 == 1) == w
  {}

  lemma {:induction false} WordRoundTrip(w: bv64)
    ensures ToWord(ToNat(w)) == w
    decreases w
  {
    hide Shifted;
    if w != 0 {
      HalfSmaller(w);
      WordRoundTrip(Half(w));
      PositiveNat(w);
      Reshift(w);
    }
  }

  // ------------------------------------------------------------ the header

  function PackHeader(length: bv64, fragment: bv8, payloadType: bv8, user: bv16): bv64 {
    (1 & 0x0F)
    | ((length & LENGTH_MASK) << 4)
    | (((fragment as bv64) & 0x01) << 49)
    | (((payloadType as bv64) & 0x0F) << 50)
    | (((user as bv64) & 0x3FF) << 54)
  }

  function Version(h: bv64): bv8 { (h & 0x0F) as bv8 }
  function LengthField(h: bv64): bv64 { (h >> 4) & LENGTH_MASK }
  function Fragment(h: bv64): bv8 { ((h >> 49) & 0x01) as bv8 }
  function PayloadType(h: bv64): bv8 { ((h >> 50) & 0x0F) as bv8 }
  function User(h: bv64): bv16 { ((h >> 54) & 0x3FF) as bv16 }

  predicate FieldsFit(fragment: bv8, payloadType: bv8, user: bv16) {
    && (fragment == FRAGED || fragment == UNFRAGED)
    && payloadType <= 0x0F
    && user <= 0x3FF
  }

  lemma UnpackPacked(length: bv64, fragment: bv8, payloadType: bv8, user: bv16)
    requires FieldsFit(fragment, payloadType, user) && length <= LENGTH_MASK
    ensures var h := PackHeader(length, fragment, payloadType, user);
            && Version(h) == 1 && LengthField(h) == length && Fragment(h) == fragment
            && PayloadType(h) == payloadType && User(h) == user
  {}

  lemma PackUnpacked(h: bv64)
    requires Version(h) == 1
    ensures PackHeader(LengthField(h), Fragment(h), PayloadType(h), User(h)) == h
  {}

  lemma FieldsAlwaysFit(h: bv64)
    ensures FieldsFit(Fragment(h), PayloadType(h), User(h))
  {}

  function LowByte64(w: bv64): bv8 {
    (w & 0xFF) as bv8
  }

  function ByteUp(w: bv64): bv64 {
    w << 8
  }

  function ByteDown(w: bv64): bv64 {
    w >> 8
  }

  function Either(w: bv64, x: bv64): bv64 {
    w | x
  }

  /** The word shifted down by `8 * n` bits. */
  function Down(w: bv64, n: nat): bv64 {
    if n == 0 then w else ByteDown(Down(w, n - 1))
  }

  /** The byte moved up by `8 * n` bits. */
  function Up(b: bv8, n: nat): bv64 {
    if n == 0 then b as bv64 else ByteUp(Up(b, n - 1))
  }

  function HeaderBytes(h: bv64): (bytes: seq<bv8>)
    ensures |bytes| == HEADER_SIZE
  {
    seq(HEADER_SIZE, i requires 0 <= i => LowByte64(Down(h, i)))
  }

  /** The word made of the first `n` bytes, lowest first. */
  function Assemble(bytes: seq<bv8>, n: nat): bv64
    requires n <= |bytes|
  {
    if n == 0 then 0 else Either(Assemble(bytes, n - 1), Up(bytes[n - 1], n - 1))
  }

  lemma EitherUp(a: bv64, x: bv64, y: bv64)
    ensures Either(Either(a, ByteUp(x)), ByteUp(y)) == Either(a, ByteUp(Either(x, y)))
    ensures Either(0, a) == Either(a, ByteUp(0)) == a
  {}

  /** The lowest byte, and the rest of the bytes one byte higher. */
  lemma {:induction false} AssembleFirst(bytes: seq<bv8>, n: nat)
    requires 0 < n <= |bytes|
    ensures Assemble(bytes, n) == Either(bytes[0] as bv64, ByteUp(Assemble(bytes[1..], n - 1)))
  {
    hide Either, ByteUp;
    var b := bytes[0] as bv64;
    if n == 1 {
      assert Assemble(bytes, 0) == 0 && Assemble(bytes[1..], 0) == 0;
      EitherUp(b, 0, 0);
    } else {
      AssembleFirst(bytes, n - 1);
      EitherUp(b, Assemble(bytes[1..], n - 2), Up(bytes[n - 1], n - 2));
    }
  }

  lemma LowAndRest(w: bv64)
    ensures Either(LowByte64(w) as bv64, ByteUp(ByteDown(w))) == w
  {}

  lemma {:induction false} AssembleBytes(bytes: seq<bv8>, w: bv64)
    requires Down(w, |bytes|) == 0
    requires forall i :: 0 <= i < |bytes| ==> bytes[i] == LowByte64(Down(w, i))
    ensures Assemble(bytes, |bytes|) == w
    decreases |bytes|
  {
    hide Either, ByteUp, ByteDown, LowByte64;
    if bytes == [] {
    } else {
      var more := bytes[1..];
      forall i: nat | i < |bytes| ensures Down(w, i + 1) == Down(ByteDown(w), i) {
        DownFirst(w, i);
      }
      assert forall i :: 0 <= i < |more| ==> more[i] == bytes[i + 1] == LowByte64(Down(w, i + 1));
      AssembleBytes(more, ByteDown(w));
      AssembleFirst(bytes, |bytes|);
      assert bytes[0] == LowByte64(w);
      LowAndRest(w);
    }
  }

  lemma {:induction false} DownFirst(w: bv64, n: nat)
    ensures Down(w, n + 1) == Down(ByteDown(w), n)
  {
    hide ByteDown;
    if n > 0 {
      DownFirst(w, n - 1);
    }
  }

  lemma EightBytesDown(w: bv64)
    ensures ByteDown(ByteDown(ByteDown(ByteDown(ByteDown(ByteDown(ByteDown(ByteDown(w)))))))) == 0
  {}

  lemma DownEight(w: bv64)
    ensures Down(w, 8) == 0
  {
    hide ByteDown;
    var w2, w5 := ByteDown(ByteDown(w)), ByteDown(ByteDown(ByteDown(ByteDown(ByteDown(w)))));
    assert Down(w, 1) == ByteDown(w) by {
      assert Down(w, 0) == w;
    }
    assert Down(w, 2) == w2;
    assert Down(w, 3) == ByteDown(w2);
    assert Down(w, 4) == ByteDown(ByteDown(w2));
    assert Down(w, 5) == w5;
    assert Down(w, 6) == ByteDown(w5);
    assert Down(w, 7) == ByteDown(ByteDown(w5));
    EightBytesDown(w);
  }

  lemma HeaderRoundTrip(h: bv64)
    ensures Assemble(HeaderBytes(h), HEADER_SIZE) == h
  {
    DownEight(h);
    AssembleBytes(HeaderBytes(h), h);
  }

  /** The largest word of `n` bytes, for up to seven. */
  function Limit(n: nat): bv64 {
    if n == 0 then 0
    else if n == 1 then 0xFF
    else if n == 2 then 0xFFFF
    else if n == 3 then 0xFF_FFFF
    else if n == 4 then 0xFFFF_FFFF
    else if n == 5 then 0xFF_FFFF_FFFF
    else if n == 6 then 0xFFFF_FFFF_FFFF
    else 0xFF_FFFF_FFFF_FFFF
  }

  /** The word is made of at most `n` bytes. */
  predicate Within(w: bv64, n: nat) {
    w <= Limit(n)
  }

  lemma NextLimit(b: bv8, w: bv64, n: nat)
    requires n <= 6 && Within(w, n)
    ensures Within(Either(b as bv64, ByteUp(w)), n + 1)
  {
    var limit := Limit(n);
    assert Limit(n + 1) == (limit << 8) | 0xFF;
    UpWithin(b, w, limit);
  }

  lemma UpWithin(b: bv8, w: bv64, limit: bv64)
    requires w <= limit <= 0xFFFF_FFFF_FFFF
    ensures Either(b as bv64, ByteUp(w)) <= (limit << 8) | 0xFF
  {}

  lemma NothingWithin(n: nat)
    ensures Within(0, n)
  {}

  lemma {:induction false} AssembleWithin(bytes: seq<bv8>, n: nat)
    requires n <= 7 && n <= |bytes|
    ensures Within(Assemble(bytes, n), n)
  {
    hide Either, ByteUp, Within;
    if n == 0 {
      NothingWithin(0);
    } else {
      AssembleFirst(bytes, n);
      AssembleWithin(bytes[1..], n - 1);
      NextLimit(bytes[0], Assemble(bytes[1..], n - 1), n - 1);
    }
  }

  lemma TakeApart(b: bv8, w: bv64, n: nat)
    requires n <= 7 && Within(w, n)
    ensures LowByte64(Either(b as bv64, ByteUp(w))) == b
    ensures ByteDown(Either(b as bv64, ByteUp(w))) == w
  {
    assert w <= 0xFF_FFFF_FFFF_FFFF;
    TakeSevenApart(b, w);
  }

  lemma TakeSevenApart(b: bv8, w: bv64)
    requires w <= 0xFF_FFFF_FFFF_FFFF
    ensures LowByte64(Either(b as bv64, ByteUp(w))) == b
    ensures ByteDown(Either(b as bv64, ByteUp(w))) == w
  {}

  lemma {:induction false} BytesOfAssembled(bytes: seq<bv8>, n: nat, i: nat)
    requires i < n <= 8 && n <= |bytes|
    ensures LowByte64(Down(Assemble(bytes, n), i)) == bytes[i]
    decreases i
  {
    hide Either, ByteUp, ByteDown, LowByte64, Within;
    var w := Assemble(bytes[1..], n - 1);
    AssembleFirst(bytes, n);
    AssembleWithin(bytes[1..], n - 1);
    TakeApart(bytes[0], w, n - 1);
    if i > 0 {
      BytesOfAssembled(bytes[1..], n - 1, i - 1);
      DownFirst(Assemble(bytes, n), i - 1);
    }
  }

  lemma HeaderBytesOfAssembled(bytes: seq<bv8>)
    requires |bytes| >= HEADER_SIZE
    ensures HeaderBytes(Assemble(bytes, HEADER_SIZE)) == bytes[..HEADER_SIZE]
  {
    var h := Assemble(bytes, HEADER_SIZE);
    forall i: nat | i < HEADER_SIZE ensures HeaderBytes(h)[i] == bytes[i] {
      BytesOfAssembled(bytes, HEADER_SIZE, i);
    }
  }

  // ------------------------------------------------------------ the header as bytes

  /** The length in the first eight bytes of a packet. */
  function LengthIn(data: seq<bv8>): int
    requires |data| >= 8
  {
    data[0] as int / 16 + 0x10 * data[1] as int + 0x1000 * data[2] as int + 0x10_0000 * data[3] as int
    + 0x1000_0000 * data[4] as int + 0x10_0000_0000 * data[5] as int + 0x1000_0000_0000 * (data[6] as int % 2)
  }

  function Value(w: bv32): int {
    w as int
  }

  /** The four bytes in front of place n are the checksum of those before them, the low byte first. */
  predicate TrailerSays(data: seq<bv8>, n: int)
    requires 4 <= n <= |data|
  {
    Value(Checksum(data[..n - 4]))
    == data[n - 4] as int + 0x100 * data[n - 3] as int + 0x1_0000 * data[n - 2] as int + 0x100_0000 * data[n - 1] as int
  }

  lemma WordValue(a: bv8, b: bv8, c: bv8, d: bv8)
    ensures ((a as bv32) | ((b as bv32) << 8) | ((c as bv32) << 16) | ((d as bv32) << 24)) as int
            == a as int + 0x100 * b as int + 0x1_0000 * c as int + 0x100_0000 * d as int
  {}

  lemma ValueOfWord(bytes: seq<bv8>)
    requires |bytes| == 4
    ensures Value(Word(bytes))
         == bytes[0] as int + 0x100 * bytes[1] as int + 0x1_0000 * bytes[2] as int + 0x100_0000 * bytes[3] as int
  {
    WordValue(bytes[0], bytes[1], bytes[2], bytes[3]);
  }

  lemma TrailerIsWord(data: seq<bv8>, n: int)
    requires 4 <= n <= |data|
    ensures TrailerSays(data, n) <==> Checksum(data[..n - 4]) == Word(data[n - 4..n])
  {
    hide Checksum, Word, Value;
    ValueOfWord(data[n - 4..n]);
    SameNumber(Checksum(data[..n - 4]), Word(data[n - 4..n]));
  }

  lemma SameNumber(x: bv32, y: bv32)
    ensures Value(x) == Value(y) ==> x == y
  {
    if x as int == y as int {
      assert (x as int) as bv32 == x;
      assert (y as int) as bv32 == y;
    }
  }

  /** What the first eight bytes of a packet say, by their numerical values. */
  predicate HeaderSays(data: seq<bv8>, version: int, length: int, fragment: int, payloadType: int, user: int) {
    && |data| >= 8
    && version == data[0] as int % 16
    && length == LengthIn(data)
    && fragment == data[6] as int / 2 % 2
    && payloadType == data[6] as int / 4 % 16
    && user == data[6] as int / 64 + 4 * data[7] as int
  }

  function LowNibble(b: bv8): bv8 { b & 0x0F }
  function HighNibble(b: bv8): bv8 { b >> 4 }
  function FragmentBit(b: bv8): bv8 { (b >> 1) & 1 }
  function TypeBits(b: bv8): bv8 { (b >> 2) & 0x0F }
  function LastBit(b: bv8): bv64 { (b & 1) as bv64 }
  function UserBits(b: bv8, c: bv8): bv16 { ((c as bv16) << 2) | ((b >> 6) as bv16) }

  lemma LowPart(b: bv8)
    ensures (b & 0x0F) as int == b as int % 16
  {}

  lemma LowestBit(b: bv8)
    ensures (b & 1) as int == b as int % 2
  {}

  lemma HighParts(b: bv8)
    ensures (b >> 1) as int == b as int / 2
    ensures (b >> 2) as int == b as int / 4
    ensures (b >> 4) as int == b as int / 16
    ensures (b >> 6) as int == b as int / 64
  {}

  lemma NibblesOfByte(b: bv8)
    ensures LowNibble(b) as int == b as int % 16 && HighNibble(b) as int == b as int / 16
  {
    LowPart(b);
    HighParts(b);
  }

  lemma FlagsOfByte(b: bv8)
    ensures FragmentBit(b) as int == b as int / 2 % 2 && TypeBits(b) as int == b as int / 4 % 16
  {
    HighParts(b);
    LowestBit(b >> 1);
    LowPart(b >> 2);
  }

  lemma TwoBelow(c: bv16, b: bv16)
    requires b < 4 && c < 256
    ensures ((c << 2) | b) as int == 4 * c as int + b as int
  {}

  lemma UserOfBytes(b: bv8, c: bv8)
    ensures UserBits(b, c) as int == b as int / 64 + 4 * c as int
  {
    HighParts(b);
    TwoBelow(c as bv16, (b >> 6) as bv16);
  }

  /** Eight bytes as one word, written out. */
  function WordOf(b0: bv8, b1: bv8, b2: bv8, b3: bv8, b4: bv8, b5: bv8, b6: bv8, b7: bv8): bv64 {
    (b0 as bv64) | ((b1 as bv64) << 8) | ((b2 as bv64) << 16) | ((b3 as bv64) << 24)
    | ((b4 as bv64) << 32) | ((b5 as bv64) << 40) | ((b6 as bv64) << 48) | ((b7 as bv64) << 56)
  }

  lemma MovedUp(b: bv8)
    ensures ByteUp(b as bv64) == (b as bv64) << 8
    ensures ByteUp((b as bv64) << 8) == (b as bv64) << 16
    ensures ByteUp((b as bv64) << 16) == (b as bv64) << 24
    ensures ByteUp((b as bv64) << 24) == (b as bv64) << 32
    ensures ByteUp((b as bv64) << 32) == (b as bv64) << 40
    ensures ByteUp((b as bv64) << 40) == (b as bv64) << 48
    ensures ByteUp((b as bv64) << 48) == (b as bv64) << 56
  {}

  /** A byte moved up by whole bytes, written out. */
  function Place(b: bv8, n: nat): bv64
    requires n < 8
  {
    if n == 0 then b as bv64 else if n == 1 then (b as bv64) << 8 else if n == 2 then (b as bv64) << 16
    else if n == 3 then (b as bv64) << 24 else if n == 4 then (b as bv64) << 32 else if n == 5 then (b as bv64) << 40
    else if n == 6 then (b as bv64) << 48 else (b as bv64) << 56
  }

  lemma {:induction false} UpIsPlace(b: bv8, n: nat)
    requires n < 8
    ensures Up(b, n) == Place(b, n)
  {
    hide ByteUp;
    MovedUp(b);
    if n > 0 {
      UpIsPlace(b, n - 1);
    }
  }

  lemma EitherAll(b0: bv8, b1: bv8, b2: bv8, b3: bv8, b4: bv8, b5: bv8, b6: bv8, b7: bv8)
    ensures Either(Either(Either(Either(Either(Either(Either(Either(0, Place(b0, 0)), Place(b1, 1)), Place(b2, 2)),
              Place(b3, 3)), Place(b4, 4)), Place(b5, 5)), Place(b6, 6)), Place(b7, 7))
            == WordOf(b0, b1, b2, b3, b4, b5, b6, b7)
  {}

  lemma AssembledIsWord(data: seq<bv8>)
    requires |data| >= 8
    ensures Assemble(data, 8) == WordOf(data[0], data[1], data[2], data[3], data[4], data[5], data[6], data[7])
  {
    hide Either, Up, Place, WordOf;
    forall n: nat | n < 8 ensures Up(data[n], n) == Place(data[n], n) {
      UpIsPlace(data[n], n);
    }
    EitherAll(data[0], data[1], data[2], data[3], data[4], data[5], data[6], data[7]);
    assert Assemble(data, 2) == Either(Either(0, Place(data[0], 0)), Place(data[1], 1)) by {
      assert Assemble(data, 1) == Either(Assemble(data, 0), Up(data[0], 0));
    }
    assert Assemble(data, 4) == Either(Either(Assemble(data, 2), Place(data[2], 2)), Place(data[3], 3)) by {
      assert Assemble(data, 3) == Either(Assemble(data, 2), Up(data[2], 2));
    }
    assert Assemble(data, 6) == Either(Either(Assemble(data, 4), Place(data[4], 4)), Place(data[5], 5)) by {
      assert Assemble(data, 5) == Either(Assemble(data, 4), Up(data[4], 4));
    }
    assert Assemble(data, 8) == Either(Either(Assemble(data, 6), Place(data[6], 6)), Place(data[7], 7)) by {
      assert Assemble(data, 7) == Either(Assemble(data, 6), Up(data[6], 6));
    }
  }

  /** Four bits below a word. */
  function Nibble(n: bv8, w: bv64): bv64 {
    (n as bv64) | (w << 4)
  }

  lemma FirstOfNibble(n: bv8, w: bv64)
    requires n <= 15
    ensures Shifted(w, n & 8 == 8) == ((n as bv64) >> 3) | (w << 1)
  {}

  lemma SecondOfNibble(n: bv8, w: bv64)
    requires n <= 15
    ensures Shifted(((n as bv64) >> 3) | (w << 1), n & 4 == 4) == ((n as bv64) >> 2) | (w << 2)
  {}

  lemma ThirdOfNibble(n: bv8, w: bv64)
    requires n <= 15
    ensures Shifted(((n as bv64) >> 2) | (w << 2), n & 2 == 2) == ((n as bv64) >> 1) | (w << 3)
  {}

  lemma FourthOfNibble(n: bv8, w: bv64)
    requires n <= 15
    ensures Shifted(((n as bv64) >> 1) | (w << 3), n & 1 == 1) == (n as bv64) | (w << 4)
  {}

  lemma NibbleIsShifted(n: bv8, w: bv64)
    requires n <= 15
    ensures Nibble(n, w) == Shifted(Shifted(Shifted(Shifted(w, n & 8 == 8), n & 4 == 4), n & 2 == 2), n & 1 == 1)
  {
    hide Shifted;
    FirstOfNibble(n, w);
    SecondOfNibble(n, w);
    ThirdOfNibble(n, w);
    FourthOfNibble(n, w);
  }

  lemma ShiftedBelow(w: bv64, low: bool)
    ensures w <= 0x1FF_FFFF_FFFF ==> Shifted(w, low) <= 0x3FF_FFFF_FFFF
    ensures w <= 0x3FF_FFFF_FFFF ==> Shifted(w, low) <= 0x7FF_FFFF_FFFF
    ensures w <= 0x7FF_FFFF_FFFF ==> Shifted(w, low) <= 0xFFF_FFFF_FFFF
  {}

  lemma BitsOfNibble(n: bv8)
    requires n <= 15
    ensures n as int == (if n & 1 == 1 then 1 else 0) + 2 * (if n & 2 == 2 then 1 else 0)
                        + 4 * (if n & 4 == 4 then 1 else 0) + 8 * (if n & 8 == 8 then 1 else 0)
  {}

  lemma NatOfNibble(n: bv8, w: bv64)
    requires n <= 15 && w <= 0x1FF_FFFF_FFFF
    ensures ToNat(Nibble(n, w)) == n as int + 16 * ToNat(w)
  {
    hide ToNat, Shifted, Nibble;
    NibbleIsShifted(n, w);
    BitsOfNibble(n);
    var w3 := Shifted(w, n & 8 == 8);
    var w2 := Shifted(w3, n & 4 == 4);
    ShiftedBelow(w, n & 8 == 8);
    ShiftedBelow(w3, n & 4 == 4);
    ShiftedBelow(w2, n & 2 == 2);
    ToNatShifted(w, n & 8 == 8);
    ToNatShifted(w3, n & 4 == 4);
    ToNatShifted(w2, n & 2 == 2);
    ToNatShifted(Shifted(w2, n & 2 == 2), n & 1 == 1);
  }

  /** A byte below a word. */
  function Under(b: bv8, w: bv64): bv64 {
    (b as bv64) | (w << 8)
  }

  lemma UnderIs(b: bv8, w: bv64)
    ensures Under(b, w) == Nibble(LowNibble(b), Nibble(HighNibble(b), w))
    ensures HighNibble(b) <= 15 && LowNibble(b) <= 15
    ensures w <= 0x1_FFFF_FFFF ==> Nibble(HighNibble(b), w) <= 0x1FF_FFFF_FFFF
  {}

  /** The word is made of n bytes and a bit. */
  predicate Below(w: bv64, n: nat) {
    w <= if n == 0 then 1 else if n == 1 then 0x1FF else if n == 2 then 0x1_FFFF
         else if n == 3 then 0x1FF_FFFF else if n == 4 then 0x1_FFFF_FFFF else 0x1FF_FFFF_FFFF
  }

  lemma UnderBelow(b: bv8, w: bv64, n: nat)
    requires n < 5 && Below(w, n)
    ensures Below(Under(b, w), n + 1) && w <= 0x1_FFFF_FFFF
  {}

  lemma NatUnder(b: bv8, w: bv64, n: nat)
    requires n < 5 && Below(w, n)
    ensures Below(Under(b, w), n + 1) && ToNat(Under(b, w)) == b as int + 256 * ToNat(w)
  {
    hide ToNat, Nibble, Under, Below, LowNibble, HighNibble;
    UnderIs(b, w);
    UnderBelow(b, w, n);
    NibblesOfByte(b);
    NatOfNibble(HighNibble(b), w);
    NatOfNibble(LowNibble(b), Nibble(HighNibble(b), w));
  }

  lemma NatOfLastBit(b: bv8)
    ensures ToNat(LastBit(b)) == b as int % 2 && Below(LastBit(b), 0)
  {
    LowestBit(b);
    assert LastBit(b) == if b & 1 == 1 then 1 else 0;
    assert ToNat(0) == 0 && ToNat(1) == 1;
  }

  lemma FieldsOfWord(b0: bv8, b1: bv8, b2: bv8, b3: bv8, b4: bv8, b5: bv8, b6: bv8, b7: bv8)
    ensures var h := WordOf(b0, b1, b2, b3, b4, b5, b6, b7);
            && Version(h) == LowNibble(b0) && Fragment(h) == FragmentBit(b6) && PayloadType(h) == TypeBits(b6)
            && User(h) == UserBits(b6, b7)
  {}

  lemma LengthOfWord(b0: bv8, b1: bv8, b2: bv8, b3: bv8, b4: bv8, b5: bv8, b6: bv8, b7: bv8)
    ensures LengthField(WordOf(b0, b1, b2, b3, b4, b5, b6, b7))
            == Nibble(HighNibble(b0), Under(b1, Under(b2, Under(b3, Under(b4, Under(b5, LastBit(b6)))))))
  {}

  lemma NatOfLength(b0: bv8, b1: bv8, b2: bv8, b3: bv8, b4: bv8, b5: bv8, b6: bv8)
    ensures ToNat(Nibble(HighNibble(b0), Under(b1, Under(b2, Under(b3, Under(b4, Under(b5, LastBit(b6))))))))
            == b0 as int / 16 + 0x10 * b1 as int + 0x1000 * b2 as int + 0x10_0000 * b3 as int
               + 0x1000_0000 * b4 as int + 0x10_0000_0000 * b5 as int + 0x1000_0000_0000 * (b6 as int % 2)
  {
    hide ToNat, Nibble, Under, HighNibble, LowNibble, LastBit, Below;
    var w5 := Under(b5, LastBit(b6));
    var w3 := Under(b3, Under(b4, w5));
    NatOfLastBit(b6);
    NatUnder(b5, LastBit(b6), 0);
    NatUnder(b4, w5, 1);
    NatUnder(b3, Under(b4, w5), 2);
    NatUnder(b2, w3, 3);
    NatUnder(b1, Under(b2, w3), 4);
    TopNibble(b0, Under(b1, Under(b2, w3)));
  }

  lemma TopNibble(b: bv8, w: bv64)
    requires Below(w, 5)
    ensures ToNat(Nibble(HighNibble(b), w)) == b as int / 16 + 16 * ToNat(w)
  {
    hide ToNat, Nibble;
    NibblesOfByte(b);
    UnderIs(b, 0);
    NatOfNibble(HighNibble(b), w);
  }

  /** The header word says what its bytes say. */
  lemma HeaderFields(data: seq<bv8>)
    requires |data| >= HEADER_SIZE
    ensures var h := Assemble(data, HEADER_SIZE);
            HeaderSays(data, Version(h) as int, PacketLength(data), Fragment(h) as int, PayloadType(h) as int, User(h) as int)
  {
    hide ToNat, Nibble, Under, HighNibble, LowNibble, LastBit, FragmentBit, TypeBits, UserBits, Assemble, WordOf;
    hide Version, LengthField, Fragment, PayloadType, User;
    var b0, b6 := data[0], data[6];
    AssembledIsWord(data);
    FieldsOfWord(b0, data[1], data[2], data[3], data[4], data[5], b6, data[7]);
    LengthOfWord(b0, data[1], data[2], data[3], data[4], data[5], b6, data[7]);
    NatOfLength(b0, data[1], data[2], data[3], data[4], data[5], b6);
    NibblesOfByte(b0);
    FlagsOfByte(b6);
    UserOfBytes(b6, data[7]);
  }

  // ------------------------------------------------------------ encoding

  function Body(payload: seq<bv8>, fragment: bv8, payloadType: bv8, user: bv16): (body: seq<bv8>)
    ensures |body| == HEADER_SIZE + |payload|
  {
    var length := ToWord(HEADER_SIZE + |payload| + TRAILER_SIZE);
    HeaderBytes(PackHeader(length, fragment, payloadType, user)) + payload
  }

  /** The bytes of a packet. */
  function Encode(payload: seq<bv8>, fragment: bv8, payloadType: bv8, user: bv16): (packet: seq<bv8>)
    ensures |packet| == HEADER_SIZE + |payload| + TRAILER_SIZE
  {
    var body := Body(payload, fragment, payloadType, user);
    body + WordBytes(Checksum(body))
  }

  function EncodeCode(size: nat, fragment: bv8, payloadType: bv8, user: bv16, capacity: nat): Code {
    if !FieldsFit(fragment, payloadType, user) then InvalidArgument
    else if HEADER_SIZE + size + TRAILER_SIZE > capacity then BufferTooSmall
    else if HEADER_SIZE + size + TRAILER_SIZE >= LENGTH_LIMIT then PayloadTooLarge
    else Ok
  }

  method WriteHeader(h: bv64, buffer: array<bv8>)
    requires buffer.Length >= HEADER_SIZE
    modifies buffer
    ensures buffer[..] == HeaderBytes(h) + old(buffer[HEADER_SIZE..])
  {
    for i := 0 to HEADER_SIZE
      invariant buffer[..i] == HeaderBytes(h)[..i]
      invariant buffer[HEADER_SIZE..] == old(buffer[HEADER_SIZE..])
    {
      buffer[i] := LowByte64(Down(h, i));
      assert buffer[..i + 1] == buffer[..i] + [buffer[i]];
      assert HeaderBytes(h)[..i + 1] == HeaderBytes(h)[..i] + [HeaderBytes(h)[i]];
    }
  }

  method CopyPayload(payload: seq<bv8>, buffer: array<bv8>)
    requires buffer.Length >= HEADER_SIZE + |payload|
    modifies buffer
    ensures buffer[..] == old(buffer[..HEADER_SIZE]) + payload + old(buffer[HEADER_SIZE + |payload|..])
  {
    for i := 0 to |payload|
      invariant buffer[..HEADER_SIZE] == old(buffer[..HEADER_SIZE])
      invariant buffer[HEADER_SIZE..HEADER_SIZE + i] == payload[..i]
      invariant buffer[HEADER_SIZE + |payload|..] == old(buffer[HEADER_SIZE + |payload|..])
    {
      buffer[HEADER_SIZE + i] := payload[i];
      assert buffer[HEADER_SIZE..HEADER_SIZE + i + 1] == buffer[HEADER_SIZE..HEADER_SIZE + i] + [payload[i]];
    }
  }

  method WriteTrailer(crc: bv32, buffer: array<bv8>, offset: nat)
    requires offset + TRAILER_SIZE <= buffer.Length
    modifies buffer
    ensures buffer[..] == old(buffer[..offset]) + WordBytes(crc) + old(buffer[offset + TRAILER_SIZE..])
  {
    var bytes := WordBytes(crc);
    buffer[offset] := bytes[0];
    buffer[offset + 1] := bytes[1];
    buffer[offset + 2] := bytes[2];
    buffer[offset + 3] := bytes[3];
  }

  /** Writes a packet into the caller's buffer, or reports why it cannot and writes nothing. */
  method EncodePacket(payload: seq<bv8>, fragment: bv8, payloadType: bv8, user: bv16, buffer: array<bv8>)
    returns (code: Code, length: nat)
    requires buffer.Length < 0x1_0000_0000
    modifies buffer
    ensures code == EncodeCode(|payload|, fragment, payloadType, user, buffer.Length)
    ensures code == Ok ==>
              && length == HEADER_SIZE + |payload| + TRAILER_SIZE
              && buffer[..] == Encode(payload, fragment, payloadType, user) + old(buffer[length..])
              && HeaderSays(buffer[..], 1, length, fragment as int, payloadType as int, user as int)
              && buffer[8..length - 4] == payload
    ensures code != Ok ==> buffer[..] == old(buffer[..])
    ensures code == InvalidArgument <==> fragment as int > 1 || payloadType as int > 15 || user as int > 1023
    ensures code == BufferTooSmall <==> code != InvalidArgument && 12 + |payload| > buffer.Length
    ensures code in {Ok, InvalidArgument, BufferTooSmall}
    ensures code == Ok ==> TrailerSays(buffer[..], length)
  {
    hide PackHeader, LowByte64, Checksum, WordBytes, HeaderSays, HeaderBytes, ToWord;
    length := 0;
    if fragment != FRAGED && fragment != UNFRAGED {
      return InvalidArgument, 0;
    }
    if payloadType > 0x0F {
      return InvalidArgument, 0;
    }
    if user > 0x3FF {
      return InvalidArgument, 0;
    }
    var total := HEADER_SIZE + |payload| + TRAILER_SIZE;
    if total > buffer.Length {
      return BufferTooSmall, 0;
    }
    if total >= LENGTH_LIMIT {
      code := PayloadTooLarge;
      return;
    }
    ghost var was := buffer[..];
    var h := PackHeader(ToWord(total), fragment, payloadType, user);
    WriteHeader(h, buffer);
    CopyPayload(payload, buffer);
    assert buffer[total..] == was[HEADER_SIZE..][|payload| + TRAILER_SIZE..] == was[total..];
    assert buffer[..HEADER_SIZE + |payload|] == Body(payload, fragment, payloadType, user);
    var crc := Compute(buffer, HEADER_SIZE + |payload|);
    WriteTrailer(crc, buffer, total - TRAILER_SIZE);
    assert buffer[total..] == was[total..];
    assert buffer[..] == Encode(payload, fragment, payloadType, user) + was[total..];
    assert buffer[HEADER_SIZE..total - TRAILER_SIZE] == payload;
    EncodedHeader(payload, fragment, payloadType, user, was[total..]);
    EncodedTrailer(payload, fragment, payloadType, user, was[total..]);
    return Ok, total;
  }

  // ------------------------------------------------------------ parsing

  function PacketLength(data: seq<bv8>): nat
    requires |data| >= HEADER_SIZE
  {
    ToNat(LengthField(Assemble(data, HEADER_SIZE)))
  }

  /** The packet at the front of some bytes. More bytes may follow it. */
  function Parse(data: seq<bv8>): Result {
    if |data| < HEADER_SIZE + TRAILER_SIZE then Failed(BufferTooSmall) else
    var h := Assemble(data, HEADER_SIZE);
    var length := PacketLength(data);
    if length < HEADER_SIZE + TRAILER_SIZE || |data| < length then Failed(BufferTooSmall)
    else if Checksum(data[..length - TRAILER_SIZE]) != Word(data[length - TRAILER_SIZE..length]) then Failed(CrcMismatch)
    else
      Parsed(Packet(Version(h), length, Fragment(h), PayloadType(h), User(h),
                    data[HEADER_SIZE..length - TRAILER_SIZE]))
  }

  /** Too few bytes for a packet, or for its length; otherwise the checksum decides. */
  predicate ParsesTo(data: seq<bv8>, result: Result) {
    if |data| < 12 || LengthIn(data) < 12 || |data| < LengthIn(data) then result == Failed(BufferTooSmall)
    else if !TrailerSays(data, LengthIn(data)) then result == Failed(CrcMismatch)
    else result.Parsed?
  }

  lemma ParseMeans(data: seq<bv8>)
    ensures ParsesTo(data, Parse(data))
  {
    hide Version, LengthField, Fragment, PayloadType, User, ToNat, Checksum, Word, Assemble, LengthIn, TrailerSays;
    if |data| >= 12 {
      HeaderFields(data);
      var n := PacketLength(data);
      if 12 <= n <= |data| {
        TrailerIsWord(data, n);
      }
    }
  }

  method ParsePacket(packet: array<bv8>, packetLen: nat) returns (result: Result)
    requires packetLen <= packet.Length
    ensures result == Parse(packet[..packetLen])
    ensures result.Parsed? ==>
              var p := result.packet;
              && HeaderSays(packet[..packetLen], p.version as int, p.length, p.fragment as int, p.payloadType as int,
                            p.user as int)
              && 12 <= p.length <= packetLen && p.payload == packet[8..p.length - 4]
    ensures ParsesTo(packet[..packetLen], result)
  {
    hide HeaderSays, ParsesTo, Version, LengthField, Fragment, PayloadType, User, ToNat, Checksum, Word;
    if packetLen < HEADER_SIZE + TRAILER_SIZE {
      ParseMeans(packet[..packetLen]);
      return Failed(BufferTooSmall);
    }
    ghost var data := packet[..packetLen];
    ParseMeans(data);
    var h: bv64 := 0;
    for i := 0 to HEADER_SIZE
      invariant h == Assemble(data, i)
    {
      h := Either(h, Up(packet[i], i));
    }
    var length := ToNat(LengthField(h));
    if length < HEADER_SIZE + TRAILER_SIZE {
      return Failed(BufferTooSmall);
    }
    if packetLen < length {
      return Failed(BufferTooSmall);
    }
    var offset := length - TRAILER_SIZE;
    var received := Word(packet[offset..offset + 4]);
    var computed := Compute(packet, offset);
    assert data[..offset] == packet[..offset] && data[offset..length] == packet[offset..offset + 4];
    if computed != received {
      return Failed(CrcMismatch);
    }
    assert data[HEADER_SIZE..offset] == packet[HEADER_SIZE..offset];
    ParsedHeader(data);
    return Parsed(Packet(Version(h), length, Fragment(h), PayloadType(h), User(h), packet[HEADER_SIZE..offset]));
  }

  // ------------------------------------------------------------ round trips

  /** The header depends on the first eight bytes only. */
  lemma {:induction false} AssembleSame(data: seq<bv8>, other: seq<bv8>, n: nat)
    requires n <= |data| && n <= |other| && data[..n] == other[..n]
    ensures Assemble(data, n) == Assemble(other, n)
  {
    hide Either, Up;
    if n > 0 {
      assert data[n - 1] == data[..n][n - 1] == other[n - 1];
      assert data[..n - 1] == data[..n][..n - 1] == other[..n][..n - 1] == other[..n - 1];
      AssembleSame(data, other, n - 1);
    }
  }

  lemma HeaderOfEncoded(payload: seq<bv8>, fragment: bv8, payloadType: bv8, user: bv16, data: seq<bv8>)
    requires FieldsFit(fragment, payloadType, user) && HEADER_SIZE + |payload| + TRAILER_SIZE < LENGTH_LIMIT
    requires |data| >= HEADER_SIZE
    requires data[..HEADER_SIZE] == Encode(payload, fragment, payloadType, user)[..HEADER_SIZE]
    ensures PacketLength(data) == HEADER_SIZE + |payload| + TRAILER_SIZE
    ensures var h := Assemble(data, HEADER_SIZE);
            Version(h) == 1 && Fragment(h) == fragment && PayloadType(h) == payloadType && User(h) == user
  {
    hide PackHeader, Version, LengthField, Fragment, PayloadType, User, ToNat, ToWord, Checksum, WordBytes, Assemble;
    var total := HEADER_SIZE + |payload| + TRAILER_SIZE;
    var h := PackHeader(ToWord(total), fragment, payloadType, user);
    assert Encode(payload, fragment, payloadType, user)[..HEADER_SIZE] == HeaderBytes(h);
    HeaderRoundTrip(h);
    AssembleSame(data, HeaderBytes(h), HEADER_SIZE);
    NatRoundTrip(total);
    UnpackPacked(ToWord(total), fragment, payloadType, user);
  }

  /** The numbers in the first eight bytes of everything that is written ... */
  lemma EncodedHeader(payload: seq<bv8>, fragment: bv8, payloadType: bv8, user: bv16, more: seq<bv8>)
    requires FieldsFit(fragment, payloadType, user) && HEADER_SIZE + |payload| + TRAILER_SIZE < LENGTH_LIMIT
    ensures HeaderSays(Encode(payload, fragment, payloadType, user) + more, 1, HEADER_SIZE + |payload| + TRAILER_SIZE,
                       fragment as int, payloadType as int, user as int)
  {
    hide Version, LengthField, Fragment, PayloadType, User, ToNat, Assemble, Encode, HeaderSays, PacketLength;
    var data := Encode(payload, fragment, payloadType, user) + more;
    HeaderOfEncoded(payload, fragment, payloadType, user, data);
    HeaderFields(data);
  }

  lemma EncodedTrailer(payload: seq<bv8>, fragment: bv8, payloadType: bv8, user: bv16, more: seq<bv8>)
    ensures TrailerSays(Encode(payload, fragment, payloadType, user) + more, HEADER_SIZE + |payload| + TRAILER_SIZE)
  {
    hide Body, Checksum, WordBytes, Word, TrailerSays;
    var data, n := Encode(payload, fragment, payloadType, user) + more, HEADER_SIZE + |payload| + TRAILER_SIZE;
    var body := Body(payload, fragment, payloadType, user);
    assert data[..n - 4] == body && data[n - 4..n] == WordBytes(Checksum(body));
    TrailerIsWord(data, n);
  }

  /** ... and of everything that is accepted. */
  lemma ParsedHeader(data: seq<bv8>)
    requires Parse(data).Parsed?
    ensures var p := Parse(data).packet;
            HeaderSays(data, p.version as int, p.length, p.fragment as int, p.payloadType as int, p.user as int)
  {
    hide Version, LengthField, Fragment, PayloadType, User, ToNat, Checksum, Word, Assemble, HeaderSays;
    HeaderFields(data);
  }

  /** Parsing what was encoded gives back every field, whatever bytes follow. */
  lemma ParseEncoded(payload: seq<bv8>, fragment: bv8, payloadType: bv8, user: bv16, more: seq<bv8>)
    requires FieldsFit(fragment, payloadType, user) && HEADER_SIZE + |payload| + TRAILER_SIZE < LENGTH_LIMIT
    ensures Parse(Encode(payload, fragment, payloadType, user) + more)
         == Parsed(Packet(1, HEADER_SIZE + |payload| + TRAILER_SIZE, fragment, payloadType, user, payload))
  {
    hide PackHeader, Version, LengthField, Fragment, PayloadType, User, ToNat, ToWord, Checksum, WordBytes, Word, Assemble;
    var packet := Encode(payload, fragment, payloadType, user);
    var body := Body(payload, fragment, payloadType, user);
    var data := packet + more;
    assert data[..HEADER_SIZE] == packet[..HEADER_SIZE];
    HeaderOfEncoded(payload, fragment, payloadType, user, data);
    assert data[..|packet| - TRAILER_SIZE] == body;
    assert data[|packet| - TRAILER_SIZE..|packet|] == WordBytes(Checksum(body));
    assert data[HEADER_SIZE..|packet| - TRAILER_SIZE] == payload;
  }

  /** A packet that has not arrived in full is reported as too short, never as corrupt. */
  lemma ParseUnfinished(payload: seq<bv8>, fragment: bv8, payloadType: bv8, user: bv16, k: nat)
    requires FieldsFit(fragment, payloadType, user) && HEADER_SIZE + |payload| + TRAILER_SIZE < LENGTH_LIMIT
    requires k < HEADER_SIZE + |payload| + TRAILER_SIZE
    ensures Parse(Encode(payload, fragment, payloadType, user)[..k]) == Failed(BufferTooSmall)
  {
    hide Version, LengthField, Fragment, PayloadType, User, ToNat, Checksum, Word, Assemble, Encode;
    var data := Encode(payload, fragment, payloadType, user)[..k];
    if k >= HEADER_SIZE + TRAILER_SIZE {
      HeaderOfEncoded(payload, fragment, payloadType, user, data);
    }
  }

  /** The parser accepts nothing but what the encoder writes, up to the version number. */
  lemma ParsedIsEncoded(data: seq<bv8>)
    requires Parse(data).Parsed? && Parse(data).packet.version == 1
    ensures var p := Parse(data).packet;
            && FieldsFit(p.fragment, p.payloadType, p.user)
            && data[..p.length] == Encode(p.payload, p.fragment, p.payloadType, p.user)
  {
    hide PackHeader, Version, LengthField, Fragment, PayloadType, User, ToNat, ToWord, Checksum, WordBytes, Word, Assemble;
    hide HeaderBytes, FieldsFit;
    var p := Parse(data).packet;
    var h := Assemble(data, HEADER_SIZE);
    var offset := p.length - TRAILER_SIZE;
    FieldsAlwaysFit(h);
    PackUnpacked(h);
    WordRoundTrip(LengthField(h));
    HeaderBytesOfAssembled(data);
    WordBytesOfWord(data[offset..p.length]);
    assert data[..offset] == data[..HEADER_SIZE] + p.payload;
    assert data[..p.length] == data[..offset] + data[offset..p.length];
  }

  // ------------------------------------------------------------ error detection

  lemma AcceptedIffResidue(data: seq<bv8>)
    requires |data| >= HEADER_SIZE + TRAILER_SIZE && PacketLength(data) == |data|
    ensures Parse(data).Parsed? <==> Register(INITIAL, data) == Residue()
    ensures !Parse(data).Parsed? ==> Parse(data) == Failed(CrcMismatch)
  {
    hide Register, Residue, Checksum, Word, WordBytes, Version, Fragment, PayloadType, User, PacketLength, Assemble;
    var offset := |data| - TRAILER_SIZE;
    var trailer := Word(data[offset..]);
    WordBytesOfWord(data[offset..]);
    ChecksumIffResidue(data[..offset], trailer);
    assert data == data[..offset] + data[offset..];
    assert data[offset..|data|] == data[offset..];
  }

  /** An accepted packet in which any bits of any 32 consecutive bits are flipped, in the
      header, the payload or the trailer, is refused as corrupt, as long as its length field
      still says the same. */
  lemma BurstIsDetected(sent: seq<bv8>, arrived: seq<bv8>, at: nat, e: bv32)
    requires Parse(sent).Parsed? && Parse(sent).packet.length == |sent|
    requires Burst(sent, arrived, at, e) && PacketLength(arrived) == |sent|
    ensures Parse(arrived) == Failed(CrcMismatch)
  {
    hide Register, Residue, Parse, PacketLength, Rest;
    ParsedLength(sent);
    assert |Bits(arrived)| == |Bits(sent)|;
    AcceptedIffResidue(sent);
    AcceptedIffResidue(arrived);
    BurstChangesRegister(INITIAL, sent, arrived, at, e);
  }

  lemma ParsedLength(data: seq<bv8>)
    requires Parse(data).Parsed?
    ensures |data| >= HEADER_SIZE + TRAILER_SIZE && Parse(data).packet.length == PacketLength(data)
  {}

  /** The same for a packet altered only inside four consecutive bytes. */
  lemma AlterationIsDetected(sent: seq<bv8>, arrived: seq<bv8>, k: nat)
    requires Parse(sent).Parsed? && Parse(sent).packet.length == |sent|
    requires |arrived| == |sent| && k + 4 <= |sent| && arrived != sent
    requires sent[..k] == arrived[..k] && sent[k + 4..] == arrived[k + 4..]
    requires |sent| >= HEADER_SIZE && PacketLength(arrived) == |sent|
    ensures Parse(arrived) == Failed(CrcMismatch)
  {
    var e := FourBytesAreABurst(sent, arrived, k);
    BurstIsDetected(sent, arrived, 8 * k, e);
  }
}
