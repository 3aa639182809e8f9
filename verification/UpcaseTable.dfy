/** The compressed up-case table of an exFAT volume: the formatter's run-length coder
    (lib/SdFat/src/ExFatLib/ExFatFormatter.cpp) against the decoder that checks it
    (lib/SdFat/src/ExFatLib/ExFatDbg.cpp). The case map itself is any map of code units. */
module UpcaseTable {
  import opened SectorMap

  const UNITS: nat := 0x1_0000
  const MARK: nat := 0xFFFF
  const MINIMUM_SKIP: nat := 512

  type CaseMap = m: seq<nat> | |m| == UNITS && forall c :: 0 <= c < UNITS ==> m[c] < UNITS
    witness seq(UNITS, _ => 0)

  /** The end of the run of units from `n` on that are their own upper case. */
  function RunEnd(cases: CaseMap, n: nat): (end: nat)
    requires n <= UNITS
    ensures n <= end <= UNITS
    ensures forall c :: n <= c < end ==> cases[c] == c
    ensures end < UNITS ==> cases[end] != end
    decreases UNITS - n
  {
    if n < UNITS && cases[n] == n then RunEnd(cases, n + 1) else n
  }

  function Literals(first: nat, end: nat): (units: seq<nat>)
    requires first <= end
    ensures |units| == end - first && forall i :: 0 <= i < |units| ==> units[i] == first + i
  {
    seq(end - first, i requires 0 <= i => first + i)
  }

  /** The coded units from code unit `ch` on. A run's length is cut to 16 bits. */
  function Encode(cases: CaseMap, ch: nat): seq<nat>
    requires ch <= UNITS
    decreases UNITS - ch
  {
    if ch == UNITS then []
    else if cases[ch] != ch then [cases[ch]] + Encode(cases, ch + 1)
    else
      var n := RunEnd(cases, ch + 1);
      if n - ch >= MINIMUM_SKIP then [MARK, (n - ch) % UNITS] + Encode(cases, n)
      else Literals(ch, n) + Encode(cases, n)
  }

  /** The values that a coded table gives to the code units from `u` on. */
  function Decode(units: seq<nat>, skip: bool, u: nat): seq<nat>
    decreases |units|
  {
    if units == [] then []
    else if units[0] == MARK then Decode(units[1..], true, u)
    else if skip then Identities(u, units[0]) + Decode(units[1..], false, (u + units[0]) % UNITS)
    else [units[0]] + Decode(units[1..], false, (u + 1) % UNITS)
  }

  function Identities(u: nat, count: nat): (values: seq<nat>)
    ensures |values| == count && forall i :: 0 <= i < count ==> values[i] == (u + i) % UNITS
  {
    seq(count, i requires 0 <= i => (u + i) % UNITS)
  }

  // ------------------------------------------------------------ when decoding gives the map back

  /** No unit but 0xFFFF itself has the upper case 0xFFFF. */
  predicate MarkFree(cases: CaseMap) {
    forall c :: 0 <= c < UNITS ==> cases[c] == MARK ==> c == MARK
  }

  /** The last unit is its own upper case, at the end of a run too short to be compressed. */
  predicate LastLost(cases: CaseMap) {
    cases[MARK] == MARK && exists c :: UNITS - MINIMUM_SKIP <= c < UNITS && cases[c] != c
  }

  /** A run of 65535 or 65536 units, whose length is taken for the mark or for nothing. */
  predicate OneRun(cases: CaseMap) {
    (forall c :: 0 <= c < UNITS - 1 ==> cases[c] == c) || (forall c :: 1 <= c < UNITS ==> cases[c] == c)
  }

  predicate Codable(cases: CaseMap) {
    MarkFree(cases) && !LastLost(cases) && !OneRun(cases)
  }

  /** A run starts here, if any does. */
  predicate AtStart(cases: CaseMap, ch: nat) {
    ch <= UNITS && (0 < ch < UNITS ==> cases[ch - 1] != ch - 1 || cases[ch] != ch)
  }

  lemma DecodeOne(unit: nat, more: seq<nat>, u: nat)
    requires unit != MARK
    ensures Decode([unit] + more, false, u) == [unit] + Decode(more, false, (u + 1) % UNITS)
  {
    assert ([unit] + more)[1..] == more;
  }

  lemma DecodeMark(more: seq<nat>, skip: bool, u: nat)
    ensures Decode([MARK] + more, skip, u) == Decode(more, true, u)
  {
    assert ([MARK] + more)[1..] == more;
  }

  lemma DecodeCount(count: nat, more: seq<nat>, u: nat)
    requires count != MARK
    ensures Decode([count] + more, true, u) == Identities(u, count) + Decode(more, false, (u + count) % UNITS)
  {
    assert ([count] + more)[1..] == more;
  }

  lemma LiteralsStep(first: nat, end: nat)
    requires first < end
    ensures Literals(first, end) == [first] + Literals(first + 1, end)
  {}

  lemma {:induction false} DecodeLiterals(first: nat, end: nat, more: seq<nat>)
    requires first <= end <= MARK
    ensures Decode(Literals(first, end) + more, false, first) == Literals(first, end) + Decode(more, false, end)
    decreases end - first
  {
    hide Literals, Decode;
    if first == end {
      assert Literals(first, end) + more == more;
      assert Literals(first, end) + Decode(more, false, end) == Decode(more, false, end);
    } else {
      var rest := Literals(first + 1, end);
      LiteralsStep(first, end);
      assert [first] + rest + more == [first] + (rest + more);
      DecodeOne(first, rest + more, first);
      DecodeLiterals(first + 1, end, more);
      assert [first] + (rest + Decode(more, false, end)) == [first] + rest + Decode(more, false, end);
    }
  }

  lemma DecodeRun(ch: nat, count: nat, more: seq<nat>)
    requires count < MARK
    ensures Decode([MARK, count] + more, false, ch) == Identities(ch, count) + Decode(more, false, (ch + count) % UNITS)
  {
    hide Decode;
    assert [MARK, count] + more == [MARK] + ([count] + more);
    DecodeMark([count] + more, false, ch);
    DecodeCount(count, more, ch);
  }

  /** All the values decoded, except that of a lost last unit. */
  function Kept(cases: CaseMap, ch: nat): seq<nat>
    requires ch <= UNITS
  {
    if LastLost(cases) && ch < UNITS then cases[ch..MARK] else cases[ch..]
  }

  lemma KeptStep(cases: CaseMap, ch: nat, n: nat)
    requires ch < n <= UNITS && (n == UNITS ==> !LastLost(cases))
    ensures cases[ch..n] + Kept(cases, n) == Kept(cases, ch)
  {}

  lemma RunLength(cases: CaseMap, ch: nat)
    requires ch < UNITS && !OneRun(cases) && cases[ch] == ch
    ensures RunEnd(cases, ch + 1) - ch < MARK
  {}

  lemma LastIsLost(cases: CaseMap, ch: nat)
    requires UNITS - MINIMUM_SKIP < ch < UNITS && cases[ch - 1] != ch - 1 && forall c :: ch <= c < UNITS ==> cases[c] == c
    ensures LastLost(cases)
  {}

  lemma MarkDecodesToNothing()
    ensures Decode([MARK], false, MARK) == []
  {
    assert [MARK][1..] == [];
  }

  /** A short run at the very end loses its last unit. */
  lemma LastRun(cases: CaseMap, ch: nat)
    requires ch < UNITS && AtStart(cases, ch) && cases[ch] == ch
    requires RunEnd(cases, ch + 1) == UNITS && UNITS - ch < MINIMUM_SKIP
    ensures LastLost(cases)
    ensures Decode(Encode(cases, ch), false, ch) == cases[ch..MARK]
  {
    hide Decode, RunEnd, Literals, Encode, LastLost;
    LastIsLost(cases, ch);
    EncodeShortRun(cases, ch, UNITS);
    EndOfTable(cases);
    LiteralsEnd(cases, ch);
    DecodeLiterals(ch, MARK, [MARK]);
    MarkDecodesToNothing();
    assert Literals(ch, UNITS) + [] == Literals(ch, MARK) + [MARK];
    assert Literals(ch, MARK) + [] == Literals(ch, MARK);
  }

  lemma LiteralsEnd(cases: CaseMap, ch: nat)
    requires ch < UNITS && forall c :: ch <= c < UNITS ==> cases[c] == c
    ensures Literals(ch, UNITS) == Literals(ch, MARK) + [MARK]
    ensures Literals(ch, MARK) == cases[ch..MARK]
  {}

  lemma DecodeChanged(cases: CaseMap, ch: nat)
    requires ch < UNITS && cases[ch] != ch && MarkFree(cases)
    requires Decode(Encode(cases, ch + 1), false, (ch + 1) % UNITS) == Kept(cases, ch + 1)
    ensures Decode(Encode(cases, ch), false, ch) == Kept(cases, ch)
  {
    hide Kept, LastLost;
    var units := Encode(cases, ch);
    assert units == [cases[ch]] + Encode(cases, ch + 1);
    assert units[1..] == Encode(cases, ch + 1);
    LastNotLost(cases, ch, ch + 1);
    KeptStep(cases, ch, ch + 1);
    assert cases[ch..ch + 1] == [cases[ch]];
  }

  lemma EncodeLongRun(cases: CaseMap, ch: nat, n: nat)
    requires ch < UNITS && cases[ch] == ch
    requires n == RunEnd(cases, ch + 1) && MINIMUM_SKIP <= n - ch < MARK
    ensures Encode(cases, ch) == [MARK, n - ch] + Encode(cases, n)
  {}

  lemma IdentitiesAre(cases: CaseMap, ch: nat, n: nat)
    requires ch <= n <= UNITS && forall c :: ch <= c < n ==> cases[c] == c
    ensures Identities(ch, n - ch) == cases[ch..n]
  {}

  lemma DecodeLongRun(cases: CaseMap, ch: nat, n: nat)
    requires ch < UNITS && cases[ch] == ch && !OneRun(cases)
    requires n == RunEnd(cases, ch + 1) && n - ch >= MINIMUM_SKIP
    requires Decode(Encode(cases, n), false, n % UNITS) == Kept(cases, n)
    ensures Decode(Encode(cases, ch), false, ch) == Kept(cases, ch)
  {
    hide Kept, LastLost, OneRun, Decode, Encode, RunEnd;
    RunLength(cases, ch);
    EncodeLongRun(cases, ch, n);
    DecodeRun(ch, n - ch, Encode(cases, n));
    IdentitiesAre(cases, ch, n);
    LastNotLost(cases, ch, n);
    KeptStep(cases, ch, n);
  }

  lemma DecodeShortRun(cases: CaseMap, ch: nat, n: nat)
    requires ch < UNITS && cases[ch] == ch
    requires n == RunEnd(cases, ch + 1) && n - ch < MINIMUM_SKIP && n < UNITS
    requires Decode(Encode(cases, n), false, n % UNITS) == Kept(cases, n)
    ensures Decode(Encode(cases, ch), false, ch) == Kept(cases, ch)
  {
    hide Kept, LastLost, Decode;
    assert Encode(cases, ch) == Literals(ch, n) + Encode(cases, n);
    DecodeLiterals(ch, n, Encode(cases, n));
    assert Literals(ch, n) == cases[ch..n];
    KeptStep(cases, ch, n);
  }

  lemma {:induction false} DecodeEncodedFrom(cases: CaseMap, ch: nat)
    requires MarkFree(cases) && !OneRun(cases) && AtStart(cases, ch)
    ensures Decode(Encode(cases, ch), false, ch % UNITS) == Kept(cases, ch)
    decreases UNITS - ch
  {
    hide RunEnd, OneRun, LastLost, MarkFree, Decode, Encode;
    if ch == UNITS {
      EndOfTable(cases);
    } else if cases[ch] != ch {
      DecodeEncodedFrom(cases, ch + 1);
      DecodeChanged(cases, ch);
    } else {
      var n := RunEnd(cases, ch + 1);
      DecodeEncodedFrom(cases, n);
      if n - ch >= MINIMUM_SKIP {
        DecodeLongRun(cases, ch, n);
      } else if n == UNITS {
        LastRun(cases, ch);
      } else {
        DecodeShortRun(cases, ch, n);
      }
    }
  }

  lemma EndOfTable(cases: CaseMap)
    ensures Encode(cases, UNITS) == [] && Decode([], false, 0) == []
  {}

  lemma LastNotLost(cases: CaseMap, ch: nat, n: nat)
    requires ch < n <= UNITS
    requires if cases[ch] != ch then n == ch + 1
             else n - ch >= MINIMUM_SKIP && forall c :: ch <= c < n ==> cases[c] == c
    ensures n == UNITS ==> !LastLost(cases)
  {}

  lemma WrapAdd(u: nat, v: nat, i: int)
    ensures ((u + v) % UNITS + i) % UNITS == (u + v + i) % UNITS
  {}

  /** Only the last code unit can decode to 0xFFFF. */
  lemma {:induction false} DecodedMark(units: seq<nat>, skip: bool, u: nat, i: nat)
    requires i < |Decode(units, skip, u)| && Decode(units, skip, u)[i] == MARK && u < UNITS
    ensures (u + i) % UNITS == MARK
    decreases |units|
  {
    var v := units[0];
    if v == MARK {
      DecodedMark(units[1..], true, u, i);
    } else if skip {
      if i >= v {
        var w := (u + v) % UNITS;
        WrapAdd(u, v, i - v);
        assert Decode(units, skip, u)[i] == Decode(units[1..], false, w)[i - v];
        DecodedMark(units[1..], false, w, i - v);
      }
    } else if i > 0 {
      var w := (u + 1) % UNITS;
      WrapAdd(u, 1, i - 1);
      assert Decode(units, skip, u)[i] == Decode(units[1..], false, w)[i - 1];
      DecodedMark(units[1..], false, w, i - 1);
    }
  }

  lemma {:induction false} RunEndIs(cases: CaseMap, n: nat, end: nat)
    requires n <= end <= UNITS && (forall c :: n <= c < end ==> cases[c] == c) && (end < UNITS ==> cases[end] != end)
    ensures RunEnd(cases, n) == end
  {}

  /** What the coder writes: a changed unit as it is; a run of 512 or more unchanged ones as the mark and
      its length, a shorter one unit by unit. */
  lemma EncodedFrom(cases: CaseMap, ch: nat, n: nat)
    requires ch < n <= 0x1_0000
    requires forall c :: ch <= c < n ==> cases[c] == c
    requires n < 0x1_0000 ==> cases[n] != n
    ensures n - ch >= 512 ==> Encode(cases, ch) == [0xFFFF, (n - ch) % 0x1_0000] + Encode(cases, n)
    ensures n - ch < 512 ==>
              && |Encode(cases, ch)| == n - ch + |Encode(cases, n)| && Encode(cases, ch)[n - ch..] == Encode(cases, n)
              && forall i :: 0 <= i < n - ch ==> Encode(cases, ch)[i] == ch + i
  {
    RunEndIs(cases, ch + 1, n);
  }

  lemma NothingDecodes(skip: bool, u: nat)
    ensures Decode([], skip, u) == []
  {}

  lemma DecodeFew(a: nat, c: nat)
    ensures Decode([MARK, 0], false, 0) == []
    ensures Decode([MARK, MARK], false, 0) == []
    ensures c != MARK ==> Decode([MARK, MARK, c], false, 0) == Identities(0, c)
    ensures a != MARK ==> Decode([a, MARK, MARK], false, 0) == [a]
  {
    hide Decode;
    NothingDecodes(true, 0);
    NothingDecodes(true, 1);
    NothingDecodes(false, 0);
    NothingDecodes(false, c % UNITS);
    assert [MARK, 0] == [MARK] + ([0] + []);
    DecodeMark([0] + [], false, 0);
    DecodeCount(0, [], 0);
    TwoMarks(0);
    TwoMarks(1);
    if c != MARK {
      assert [MARK, MARK, c] == [MARK] + ([MARK] + ([c] + []));
      DecodeMark([MARK] + ([c] + []), false, 0);
      DecodeMark([c] + [], true, 0);
      DecodeCount(c, [], 0);
      assert Identities(0, c) + [] == Identities(0, c);
    }
    if a != MARK {
      assert [a, MARK, MARK] == [a] + [MARK, MARK];
      DecodeOne(a, [MARK, MARK], 0);
    }
  }

  lemma TwoMarks(u: nat)
    ensures Decode([MARK, MARK], false, u) == []
  {
    hide Decode;
    assert [MARK, MARK] == [MARK] + ([MARK] + []);
    DecodeMark([MARK] + [], false, u);
    DecodeMark([], true, u);
    NothingDecodes(true, u);
  }

  /** One run over all units but at most one: the decoder gives too few values. */
  lemma OneRunDecodes(cases: CaseMap)
    requires MarkFree(cases) && OneRun(cases)
    ensures |Decode(Encode(cases, 0), false, 0)| < UNITS
  {
    hide Encode, Decode;
    if (forall c :: 0 <= c < UNITS - 1 ==> cases[c] == c) && cases[MARK] == MARK {
      WholeRun(cases);
      DecodeFew(0, 0);
    } else if forall c :: 0 <= c < UNITS - 1 ==> cases[c] == c {
      RunButLast(cases);
      DecodeFew(0, cases[MARK]);
    } else {
      assert cases[0] != 0;
      RunButFirst(cases);
      DecodeFew(cases[0], 0);
    }
  }

  lemma WholeRun(cases: CaseMap)
    requires forall c :: 0 <= c < UNITS ==> cases[c] == c
    ensures Encode(cases, 0) == [MARK, 0]
  {
    RunEndIs(cases, 1, UNITS);
    hide RunEnd;
  }

  lemma RunButLast(cases: CaseMap)
    requires forall c :: 0 <= c < UNITS - 1 ==> cases[c] == c
    requires cases[MARK] != MARK
    ensures Encode(cases, 0) == [MARK, MARK, cases[MARK]]
  {
    RunEndIs(cases, 1, MARK);
    hide RunEnd;
    assert Encode(cases, MARK) == [cases[MARK]] + Encode(cases, UNITS);
  }

  lemma RunButFirst(cases: CaseMap)
    requires forall c :: 1 <= c < UNITS ==> cases[c] == c
    requires cases[0] != 0
    ensures Encode(cases, 0) == [cases[0], MARK, MARK]
  {
    RunEndIs(cases, 2, UNITS);
    hide RunEnd;
    assert Encode(cases, 1) == [MARK, MARK];
  }

  /** Decoding the written table gives back the case map exactly when no unit has the upper case
      0xFFFF but 0xFFFF itself, 0xFFFF is not at the end of a run shorter than 512, and the
      map changes at least two units, or one that is neither the first nor the last. */
  lemma RoundTrip(cases: CaseMap)
    ensures Decode(Encode(cases, 0), false, 0) == cases <==> Codable(cases)
  {
    hide MarkFree, LastLost, OneRun, Encode, Decode, Kept;
    if !MarkFree(cases) {
      MarkIsLost(cases);
    } else if OneRun(cases) {
      OneRunDecodes(cases);
    } else {
      DecodeEncodedFrom(cases, 0);
      KeptWhole(cases);
    }
  }

  lemma MarkIsLost(cases: CaseMap)
    requires !MarkFree(cases)
    ensures Decode(Encode(cases, 0), false, 0) != cases
  {
    hide Encode, Decode;
    var c :| 0 <= c < UNITS && cases[c] == MARK && c != MARK;
    if Decode(Encode(cases, 0), false, 0) == cases {
      DecodedMark(Encode(cases, 0), false, 0, c);
    }
  }

  lemma KeptWhole(cases: CaseMap)
    ensures Kept(cases, 0) == cases <==> !LastLost(cases)
  {
    hide LastLost;
  }

  function Same(): CaseMap {
    seq(UNITS, c requires 0 <= c < UNITS => c)
  }

  function TwoOthers(at: nat): CaseMap
    requires at < UNITS
  {
    Same()[5 := 6][at := 6]
  }

  /** Maps that do not come back: every unit its own upper case; one that has the upper case 0xFFFF;
      two that have another upper case, one of them among the last 512. One place earlier it does
      come back. */
  lemma MapsThatAreLost()
    ensures Decode(Encode(Same(), 0), false, 0) != Same()
    ensures Decode(Encode(Same()[5 := MARK], 0), false, 0) != Same()[5 := MARK]
    ensures Decode(Encode(TwoOthers(0xFE00), 0), false, 0) != TwoOthers(0xFE00)
    ensures Decode(Encode(TwoOthers(0xFDFF), 0), false, 0) == TwoOthers(0xFDFF)
  {
    hide Encode, Decode;
    var late, early := TwoOthers(0xFE00), TwoOthers(0xFDFF);
    RoundTrip(Same());
    assert Same()[5 := MARK][5] == MARK;
    RoundTrip(Same()[5 := MARK]);
    assert late[0xFE00] != 0xFE00 && late[MARK] == MARK;
    RoundTrip(late);
    assert early[5] != 5 && early[0xFDFF] != 0xFDFF;
    RoundTrip(early);
  }

  // ------------------------------------------------------------ the table on the device

  function LowHalf(unit: nat): Byte {
    (unit % 256) as Byte
  }

  function HighHalf(unit: nat): Byte {
    (unit / 256 % 256) as Byte
  }

  /** The bytes of the coded units, low byte first. */
  function Bytes(units: seq<nat>): (bytes: seq<Byte>)
    ensures |bytes| == 2 * |units|
  {
    if units == [] then []
    else Bytes(units[..|units| - 1]) + [LowHalf(units[|units| - 1]), HighHalf(units[|units| - 1])]
  }

  /** The checksum of the table, a rotating sum in 32 bits. */
  function NextSum(sum: nat, b: Byte): nat {
    (sum % 2 * 0x8000_0000 + sum / 2 + b as nat) % 0x1_0000_0000
  }

  function Sum(bytes: seq<Byte>): nat {
    if bytes == [] then 0 else NextSum(Sum(bytes[..|bytes| - 1]), bytes[|bytes| - 1])
  }

  lemma SumIsWord(bytes: seq<Byte>)
    ensures Sum(bytes) < 0x1_0000_0000
  {}

  lemma TurnedWord(sum: nat, b: Byte)
    requires sum < 0x1_0000_0000
    ensures NextSum(sum, 0) == (if sum % 2 == 1 then 0x8000_0000 else 0) + sum / 2
    ensures NextSum(sum, b) == (NextSum(sum, 0) + b as nat) % 0x1_0000_0000
  {}

  /** The checksum turns right by one bit, in 32 bits, and adds the next byte. */
  lemma SumTurns(bytes: seq<Byte>, b: Byte, i: nat)
    requires i < 32
    ensures Sum([]) == 0 && Sum(bytes) < 0x1_0000_0000
    ensures var turned := NextSum(Sum(bytes), 0);
            && Sum(bytes + [b]) == (turned + b as nat) % 0x1_0000_0000
            && (Bit(turned, i) <==> Bit(Sum(bytes), if i == 31 then 0 else i + 1))
  {
    assert (bytes + [b])[..|bytes|] == bytes;
    SumIsWord(bytes);
    TurnedWord(Sum(bytes), b);
    PowersOf32();
    hide Bit, Pow2, NextSum;
    RotatedBits(Sum(bytes), 32, i);
  }

  lemma PowersOf32()
    ensures Pow2(31) == 0x8000_0000 && Pow2(32) == 0x1_0000_0000
  {
    PowersMultiply(16, 16);
    PowersMultiply(8, 8);
    assert Pow2(4) == 16 && Pow2(6) == 64 && Pow2(8) == 256;
    assert Pow2(32) == 2 * Pow2(31);
  }

  /** The bytes lie on the device from a sector on. */
  predicate Stored(device: seq<Sector>, sector: nat, bytes: seq<Byte>, count: nat) {
    && count <= |bytes|
    && forall i :: 0 <= i < count ==>
         sector + i / BYTES_PER_SECTOR < |device| && device[sector + i / BYTES_PER_SECTOR][i % BYTES_PER_SECTOR] == bytes[i]
  }

  /** The table is at most as long as two bytes for every code unit, which fits any cluster the
      formatter chooses. */
  lemma {:induction false} EncodedLength(cases: CaseMap, ch: nat)
    requires ch <= UNITS
    ensures |Encode(cases, ch)| <= UNITS - ch
    decreases UNITS - ch
  {
    if ch < UNITS {
      if cases[ch] != ch {
        EncodedLength(cases, ch + 1);
      } else {
        EncodedLength(cases, RunEnd(cases, ch + 1));
      }
    }
  }

  /** `q` full sectors of the bytes are on the device, the other `r` bytes in the buffer. */
  /** The rest of the last sector of a table is zero. */
  predicate ZeroBehind(device: seq<Sector>, first: nat, size: nat) {
    size % 512 != 0 ==>
      && first + size / 512 < |device|
      && var last := device[first + size / 512]; forall i :: size % 512 <= i < 512 ==> last[i] == 0
  }

  predicate Filled(device: seq<Sector>, buffer: seq<Byte>, first: nat, bytes: seq<Byte>, q: nat, r: nat) {
    && |buffer| == BYTES_PER_SECTOR && r <= BYTES_PER_SECTOR && |bytes| == BYTES_PER_SECTOR * q + r
    && Stored(device, first, bytes, BYTES_PER_SECTOR * q)
    && forall i :: 0 <= i < r ==> buffer[i] == bytes[BYTES_PER_SECTOR * q + i]
  }

  lemma FillByte(device: seq<Sector>, buffer: seq<Byte>, first: nat, bytes: seq<Byte>, q: nat, r: nat, b: Byte)
    requires Filled(device, buffer, first, bytes, q, r) && r < BYTES_PER_SECTOR
    ensures Filled(device, buffer[r := b], first, bytes + [b], q, r + 1)
  {}

  /** One more full sector. */
  lemma FillSector(device: seq<Sector>, buffer: seq<Byte>, first: nat, bytes: seq<Byte>, q: nat)
    requires Filled(device, buffer, first, bytes, q, BYTES_PER_SECTOR) && first + q < |device|
    ensures Filled(device[first + q := buffer], buffer, first, bytes, q + 1, 0)
  {
    var after := device[first + q := buffer];
    forall i | 0 <= i < BYTES_PER_SECTOR * (q + 1)
      ensures first + i / BYTES_PER_SECTOR < |after| && after[first + i / BYTES_PER_SECTOR][i % BYTES_PER_SECTOR] == bytes[i]
    {
      if i >= BYTES_PER_SECTOR * q {
        assert i / BYTES_PER_SECTOR == q && i % BYTES_PER_SECTOR == i - BYTES_PER_SECTOR * q;
      } else {
        assert i / BYTES_PER_SECTOR < q;
      }
    }
  }

  lemma FilledExactly(device: seq<Sector>, buffer: seq<Byte>, first: nat, bytes: seq<Byte>, q: nat)
    requires Filled(device, buffer, first, bytes, q, 0)
    ensures Stored(device, first, bytes, |bytes|)
  {}

  /** The last, partly filled sector. */
  lemma FillRest(device: seq<Sector>, buffer: seq<Byte>, padded: seq<Byte>, first: nat, bytes: seq<Byte>, q: nat, r: nat)
    requires Filled(device, buffer, first, bytes, q, r) && first + q < |device| && r < BYTES_PER_SECTOR
    requires |padded| == BYTES_PER_SECTOR && forall i :: 0 <= i < r ==> padded[i] == buffer[i]
    ensures Stored(device[first + q := padded], first, bytes, |bytes|)
  {
    var after := device[first + q := padded];
    forall i | 0 <= i < |bytes|
      ensures first + i / BYTES_PER_SECTOR < |after| && after[first + i / BYTES_PER_SECTOR][i % BYTES_PER_SECTOR] == bytes[i]
    {
      if i >= BYTES_PER_SECTOR * q {
        assert i / BYTES_PER_SECTOR == q && i % BYTES_PER_SECTOR == i - BYTES_PER_SECTOR * q;
      } else {
        assert i / BYTES_PER_SECTOR < q;
      }
    }
  }

  class Writer {
    const device: array<Sector>
    const buffer: array<Byte>
    const first: nat
    var size: nat
    var checksum: nat
    var sector: nat
    ghost var written: seq<Byte>

    /** Full sectors are on the device, the rest of the bytes in the buffer. */
    ghost predicate Valid()
      reads this, device, buffer
    {
      && buffer.Length == BYTES_PER_SECTOR
      && size == |written| && checksum == Sum(written)
      && sector == first + size / BYTES_PER_SECTOR <= device.Length
      && Filled(device[..], buffer[..], first, written, size / BYTES_PER_SECTOR, size % BYTES_PER_SECTOR)
    }

    /** Sectors outside the table are not touched. */
    twostate predicate Kept()
      reads device
    {
      forall k :: 0 <= k < device.Length && !(first <= k < first + UNITS / 256) ==> device[k] == old(device[k])
    }

    constructor (target: array<Sector>, at: nat)
      requires at <= target.Length
      ensures Valid() && device == target && first == at && written == [] && fresh(buffer)
    {
      device, first := target, at;
      buffer := new Byte[BYTES_PER_SECTOR];
      size, checksum, sector, written := 0, 0, at, [];
    }

    method WriteByte(b: Byte)
      requires Valid() && size < 2 * UNITS && first + UNITS / 256 <= device.Length
      modifies this`size, this`checksum, this`sector, this`written, device, buffer
      ensures Valid() && written == old(written) + [b] && Kept()
    {
      hide NextSum, Filled;
      var index := size % BYTES_PER_SECTOR;
      ghost var q := size / BYTES_PER_SECTOR;
      FillByte(device[..], buffer[..], first, written, q, index, b);
      buffer[index] := b;
      checksum := NextSum(checksum, b);
      size := size + 1;
      assert (written + [b])[..|written|] == written;
      written := written + [b];
      assert buffer[..] == old(buffer[..])[index := b];
      if index == BYTES_PER_SECTOR - 1 {
        FillSector(device[..], buffer[..], first, written, q);
        device[sector] := buffer[..];
        sector := sector + 1;
        assert device[..] == old(device[..])[first + q := buffer[..]];
      }
    }

    method WriteUnit(unit: nat, ghost units: seq<nat>)
      requires Valid() && first + UNITS / 256 <= device.Length
      requires written == Bytes(units) && |units| < UNITS && unit < UNITS
      modifies this`size, this`checksum, this`sector, this`written, device, buffer
      ensures Valid() && written == Bytes(units + [unit]) && Kept()
    {
      hide Filled;
      WriteByte((unit % 256) as Byte);
      WriteByte((unit / 256 % 256) as Byte);
      assert (units + [unit])[..|units|] == units;
    }

    /** Pads the last sector with zeros and writes it. */
    method Sync()
      requires Valid() && first + UNITS / 256 <= device.Length && size <= 2 * UNITS
      modifies device, buffer
      ensures buffer.Length == BYTES_PER_SECTOR && Stored(device[..], first, written, size) && Kept()
      ensures ZeroBehind(device[..], first, size)
    {
      hide Stored, Filled;
      var index := size % BYTES_PER_SECTOR;
      if index == 0 {
        FilledExactly(device[..], buffer[..], first, written, size / BYTES_PER_SECTOR);
        return;
      }
      for i := index to BYTES_PER_SECTOR
        modifies buffer
        invariant forall k :: 0 <= k < index ==> buffer[k] == old(buffer[k])
        invariant forall k :: index <= k < i ==> buffer[k] == 0
      {
        buffer[i] := 0;
      }
      assert device[..] == old(device[..]);
      FillRest(device[..], old(buffer[..]), buffer[..], first, written, size / BYTES_PER_SECTOR, index);
      device[sector] := buffer[..];
      assert device[..] == old(device[..])[sector := buffer[..]];
    }

    /** Writes the compressed table of a case map, and leaves its size and checksum. */
    method Write(cases: CaseMap)
      requires Valid() && written == [] && first + UNITS / 256 <= device.Length
      modifies this`size, this`checksum, this`sector, this`written, device, buffer
      ensures written == Bytes(Encode(cases, 0)) && size == |written| <= 2 * UNITS && checksum == Sum(written)
      ensures Stored(device[..], first, written, size) && Kept() && ZeroBehind(device[..], first, size)
    {
      hide Stored, Filled, ZeroBehind, Sum, Bytes, RunEnd, Encode;
      EncodedLength(cases, 0);
      ghost var goal := Encode(cases, 0);
      ghost var units: seq<nat> := [];
      NoBytes();
      var ch := 0;
      while ch < UNITS
        invariant ch <= UNITS && Valid() && Kept()
        invariant written == Bytes(units) && units + Encode(cases, ch) == goal
        decreases UNITS - ch
      {
        var uc := cases[ch];
        if uc != ch {
          EncodeChanged(cases, ch);
          assert goal == (units + [uc]) + Encode(cases, ch + 1);
          WriteUnit(uc, units);
          units := units + [uc];
          ch := ch + 1;
        } else {
          var n := FindRunEnd(cases, ch);
          if n - ch >= MINIMUM_SKIP {
            EncodeAnyLongRun(cases, ch, n);
            units := WriteRun(n - ch, units, Encode(cases, n), goal);
            ch := n;
          } else {
            EncodeShortRun(cases, ch, n);
            ch, units := WriteLiterals(ch, n, units, Encode(cases, n), goal);
          }
        }
      }
      EncodeNothing(cases);
      assert units + [] == units;
      Sync();
    }

    method WriteRun(ns: nat, ghost units: seq<nat>, ghost rest: seq<nat>, ghost goal: seq<nat>) returns (ghost after: seq<nat>)
      requires Valid() && first + UNITS / 256 <= device.Length
      requires written == Bytes(units) && units + ([MARK, ns % UNITS] + rest) == goal && |goal| <= UNITS
      modifies this`size, this`checksum, this`sector, this`written, device, buffer
      ensures Valid() && Kept() && written == Bytes(after) && after + rest == goal
    {
      hide Filled, Sum, Bytes;
      WriteUnit(MARK, units);
      WriteUnit(ns % UNITS, units + [MARK]);
      after := units + [MARK] + [ns % UNITS];
      assert after + rest == units + ([MARK, ns % UNITS] + rest);
    }

    method WriteLiterals(from: nat, n: nat, ghost units: seq<nat>, ghost rest: seq<nat>, ghost goal: seq<nat>)
      returns (ch: nat, ghost after: seq<nat>)
      requires Valid() && from <= n <= UNITS && first + UNITS / 256 <= device.Length
      requires written == Bytes(units) && units + (Literals(from, n) + rest) == goal && |goal| <= UNITS
      modifies this`size, this`checksum, this`sector, this`written, device, buffer
      ensures Valid() && Kept() && ch == n && written == Bytes(after) && after + rest == goal
    {
      hide Filled, Sum, Bytes;
      ch, after := from, units;
      while ch < n
        invariant from <= ch <= n && Valid() && Kept()
        invariant written == Bytes(after) && after + (Literals(ch, n) + rest) == goal
      {
        assert Literals(ch, n) == [ch] + Literals(ch + 1, n);
        assert goal == (after + [ch]) + (Literals(ch + 1, n) + rest);
        WriteUnit(ch, after);
        after := after + [ch];
        ch := ch + 1;
      }
      assert Literals(n, n) + rest == rest;
    }
  }

  method FindRunEnd(cases: CaseMap, ch: nat) returns (n: nat)
    requires ch < UNITS
    ensures n == RunEnd(cases, ch + 1)
  {
    n := ch + 1;
    while n < UNITS && n == cases[n]
      invariant ch < n <= UNITS && RunEnd(cases, ch + 1) == RunEnd(cases, n)
    {
      n := n + 1;
    }
  }

  lemma EncodeAnyLongRun(cases: CaseMap, ch: nat, n: nat)
    requires ch < UNITS && cases[ch] == ch
    requires n == RunEnd(cases, ch + 1) && MINIMUM_SKIP <= n - ch
    ensures Encode(cases, ch) == [MARK, (n - ch) % UNITS] + Encode(cases, n)
  {}

  lemma NoBytes()
    ensures Bytes([]) == []
  {}

  lemma EncodeShortRun(cases: CaseMap, ch: nat, n: nat)
    requires ch < UNITS && cases[ch] == ch
    requires n == RunEnd(cases, ch + 1) && n - ch < MINIMUM_SKIP
    ensures Encode(cases, ch) == Literals(ch, n) + Encode(cases, n)
  {}

  // ------------------------------------------------------------ checking

  /** A unit for which the table disagrees with the case map. */
  datatype Report = Report(unit: nat, expected: nat)

  function RunReports(cases: CaseMap, u: nat, count: nat): seq<Report>
    requires u < UNITS
    decreases count
  {
    if count == 0 then []
    else (if cases[u] != u then [Report(u, cases[u])] else []) + RunReports(cases, (u + 1) % UNITS, count - 1)
  }

  /** What the decoder reports about a table. */
  function Reports(cases: CaseMap, units: seq<nat>, skip: bool, u: nat): seq<Report>
    requires u < UNITS
    decreases |units|
  {
    if units == [] then []
    else if units[0] == MARK then Reports(cases, units[1..], true, u)
    else if skip then RunReports(cases, u, units[0]) + Reports(cases, units[1..], false, (u + units[0]) % UNITS)
    else (if units[0] != cases[u] then [Report(u, cases[u])] else []) + Reports(cases, units[1..], false, (u + 1) % UNITS)
  }

  /** Every value is the map's value of its unit, counted from `u` on. */
  predicate Right(cases: CaseMap, values: seq<nat>, u: nat)
    requires u < UNITS
    decreases |values|
  {
    values == [] || (values[0] == cases[u] && Right(cases, values[1..], (u + 1) % UNITS))
  }

  lemma {:induction false} RightAppend(cases: CaseMap, head: seq<nat>, rest: seq<nat>, u: nat)
    requires u < UNITS
    ensures Right(cases, head + rest, u) <==> Right(cases, head, u) && Right(cases, rest, (u + |head|) % UNITS)
    decreases |head|
  {
    if head == [] {
      assert head + rest == rest;
    } else {
      assert (head + rest)[1..] == head[1..] + rest;
      RightAppend(cases, head[1..], rest, (u + 1) % UNITS);
      WrapAdd(u, 1, |head| - 1);
    }
  }

  /** Values that start at unit 0 and are right at every unit are the map. */
  lemma {:induction false} RightIsMap(cases: CaseMap, values: seq<nat>, u: nat)
    requires u + |values| <= UNITS && u < UNITS
    ensures Right(cases, values, u) <==> values == cases[u..u + |values|]
    decreases |values|
  {
    if values != [] {
      if u + 1 < UNITS {
        RightIsMap(cases, values[1..], u + 1);
      } else {
        assert values[1..] == [];
      }
      assert cases[u..u + |values|] == [cases[u]] + cases[u + 1..u + |values|];
      assert values == [values[0]] + values[1..];
    }
  }

  lemma {:induction false} NoRunReports(cases: CaseMap, u: nat, count: nat)
    requires u < UNITS
    ensures RunReports(cases, u, count) == [] <==> Right(cases, Identities(u, count), u)
    decreases count
  {
    hide Identities;
    if count > 0 {
      var w := (u + 1) % UNITS;
      NoRunReports(cases, w, count - 1);
      IdentitiesTail(u, count);
    }
  }

  lemma IdentitiesTail(u: nat, count: nat)
    requires u < UNITS && count > 0
    ensures Identities(u, count)[0] == u && Identities(u, count)[1..] == Identities((u + 1) % UNITS, count - 1)
  {
    forall i | 0 <= i < count - 1 ensures Identities(u, count)[1..][i] == Identities((u + 1) % UNITS, count - 1)[i] {
      WrapAdd(u, 1, i);
    }
  }

  /** The values that are not the map's, from unit `u` on, each with its unit and what the map has. */
  function Wrong(cases: CaseMap, values: seq<nat>, u: nat): seq<Report>
    requires u < UNITS
    decreases |values|
  {
    if values == [] then []
    else (if values[0] != cases[u] then [Report(u, cases[u])] else []) + Wrong(cases, values[1..], (u + 1) % 0x1_0000)
  }

  lemma {:induction false} WrongAppend(cases: CaseMap, head: seq<nat>, rest: seq<nat>, u: nat)
    requires u < UNITS
    ensures Wrong(cases, head + rest, u) == Wrong(cases, head, u) + Wrong(cases, rest, (u + |head|) % UNITS)
    decreases |head|
  {
    if head == [] {
      assert head + rest == rest;
    } else {
      var w := (u + 1) % UNITS;
      assert (head + rest)[1..] == head[1..] + rest;
      WrongAppend(cases, head[1..], rest, w);
      WrapAdd(u, 1, |head| - 1);
      WrongStep(cases, head, u);
      WrongStep(cases, head + rest, u);
      hide Wrong;
      Regroup(if head[0] != cases[u] then [Report(u, cases[u])] else [], Wrong(cases, head[1..], w),
              Wrong(cases, rest, (u + |head|) % UNITS));
    }
  }

  lemma WrongStep(cases: CaseMap, values: seq<nat>, u: nat)
    requires u < UNITS && values != []
    ensures Wrong(cases, values, u)
         == (if values[0] != cases[u] then [Report(u, cases[u])] else []) + Wrong(cases, values[1..], (u + 1) % UNITS)
  {}

  lemma Regroup(a: seq<Report>, b: seq<Report>, c: seq<Report>)
    ensures (a + b) + c == a + (b + c)
  {}

  lemma {:induction false} RunReportsAreWrong(cases: CaseMap, u: nat, count: nat)
    requires u < UNITS
    ensures RunReports(cases, u, count) == Wrong(cases, Identities(u, count), u)
    decreases count
  {
    hide Identities;
    if count > 0 {
      RunReportsAreWrong(cases, (u + 1) % UNITS, count - 1);
      IdentitiesTail(u, count);
    }
  }

  /** What is reported about any table is the list of the values it decodes to that are wrong. */
  lemma {:induction false} ReportsAreWrong(cases: CaseMap, units: seq<nat>, skip: bool, u: nat)
    requires u < UNITS
    ensures Reports(cases, units, skip, u) == Wrong(cases, Decode(units, skip, u), u)
    decreases |units|
  {
    hide RunReports;
    if units == [] {
    } else if units[0] == MARK {
      ReportsAreWrong(cases, units[1..], true, u);
    } else if skip {
      var v := units[0];
      ReportsAreWrong(cases, units[1..], false, (u + v) % UNITS);
      RunReportsAreWrong(cases, u, v);
      WrongAppend(cases, Identities(u, v), Decode(units[1..], false, (u + v) % UNITS), u);
    } else {
      var rest := Decode(units[1..], false, (u + 1) % UNITS);
      ReportsAreWrong(cases, units[1..], false, (u + 1) % UNITS);
      assert ([units[0]] + rest)[1..] == rest;
    }
  }

  /** The check is silent exactly when every value that the table decodes to is right. */
  lemma {:induction false} SilentIffRight(cases: CaseMap, units: seq<nat>, skip: bool, u: nat)
    requires u < UNITS
    ensures Reports(cases, units, skip, u) == [] <==> Right(cases, Decode(units, skip, u), u)
    decreases |units|
  {
    hide Right, RunReports;
    if units == [] {
      NothingIsRight(cases, u);
    } else if units[0] == MARK {
      SilentIffRight(cases, units[1..], true, u);
    } else if skip {
      var v := units[0];
      SilentIffRight(cases, units[1..], false, (u + v) % UNITS);
      NoRunReports(cases, u, v);
      RightAppend(cases, Identities(u, v), Decode(units[1..], false, (u + v) % UNITS), u);
    } else {
      var rest := Decode(units[1..], false, (u + 1) % UNITS);
      SilentIffRight(cases, units[1..], false, (u + 1) % UNITS);
      RightAppend(cases, [units[0]], rest, u);
      OneIsRight(cases, units[0], u);
    }
  }

  lemma NothingIsRight(cases: CaseMap, u: nat)
    requires u < UNITS
    ensures Right(cases, [], u)
  {}

  lemma OneIsRight(cases: CaseMap, value: nat, u: nat)
    requires u < UNITS
    ensures Right(cases, [value], u) <==> value == cases[u]
  {
    NothingIsRight(cases, (u + 1) % UNITS);
    assert [value][1..] == [];
  }

  /** The check of a freshly written table is silent, for every map that can be coded. */
  lemma WrittenTableIsSilent(cases: CaseMap)
    requires Codable(cases)
    ensures Reports(cases, Encode(cases, 0), false, 0) == []
  {
    hide Codable, Reports, Encode, Decode;
    RoundTrip(cases);
    SilentIffRight(cases, Encode(cases, 0), false, 0);
    RightIsMap(cases, cases, 0);
    assert cases[0..UNITS] == cases;
  }

  /** A check that is silent over all units, of any table, says the table decodes to the map. */
  lemma SilentTableIsMap(cases: CaseMap, units: seq<nat>)
    requires Reports(cases, units, false, 0) == [] && |Decode(units, false, 0)| == UNITS
    ensures Decode(units, false, 0) == cases
  {
    hide Reports, Decode;
    SilentIffRight(cases, units, false, 0);
    RightIsMap(cases, Decode(units, false, 0), 0);
    assert cases[0..UNITS] == cases;
  }

  function UnitAt(bytes: seq<Byte>, i: nat): nat
    requires 2 * i + 1 < |bytes|
  {
    bytes[2 * i] as nat + 256 * bytes[2 * i + 1] as nat
  }

  /** The units of a stored table, read back from its bytes. */
  function Units(bytes: seq<Byte>, count: nat): (units: seq<nat>)
    requires 2 * count <= |bytes|
    ensures |units| == count
  {
    seq(count, i requires 0 <= i < count => UnitAt(bytes, i))
  }

  lemma {:induction false} UnitsOfBytes(units: seq<nat>)
    requires forall i :: 0 <= i < |units| ==> units[i] < UNITS
    ensures Units(Bytes(units), |units|) == units
    ensures forall i :: 0 <= i < |units| ==> Bytes(units)[2 * i] as int + 0x100 * Bytes(units)[2 * i + 1] as int == units[i]
    decreases |units|
  {
    if units != [] {
      var front := units[..|units| - 1];
      UnitsOfBytes(front);
      forall i: nat | i < |front| ensures UnitAt(Bytes(units), i) == units[i] {
        assert Bytes(units)[2 * i] == Bytes(front)[2 * i] && Bytes(units)[2 * i + 1] == Bytes(front)[2 * i + 1];
        assert Units(Bytes(front), |front|)[i] == UnitAt(Bytes(front), i);
      }
    }
  }

  /** Reads a table of `size` bytes from the device and compares it with the case map. */
  method Check(device: array<Sector>, first: nat, size: nat, cases: CaseMap, ghost bytes: seq<Byte>) returns (reports: seq<Report>)
    requires |bytes| == size && Stored(device[..], first, bytes, size)
    ensures reports == Reports(cases, Units(bytes, size / 2), false, 0)
  {
    hide Stored, Reports, Units;
    var skip, u := false, 0;
    reports := [];
    ghost var units := Units(bytes, size / 2);
    var i := 0;
    while i < size / 2
      invariant 0 <= i <= size / 2 && 0 <= u < UNITS
      invariant reports + Reports(cases, units[i..], skip, u) == Reports(cases, units, false, 0)
    {
      var v := ReadUnit(device, first, i, size, bytes);
      UnitsFrom(bytes, size / 2, i);
      var found;
      skip, u, found := CheckUnit(cases, v, skip, u, units[i..]);
      reports := reports + found;
      i := i + 1;
    }
    NoReports(cases, skip, u);
    assert units[i..] == [];
  }

  lemma NoReports(cases: CaseMap, skip: bool, u: nat)
    requires u < UNITS
    ensures Reports(cases, [], skip, u) == []
  {}

  lemma UnitsFrom(bytes: seq<Byte>, count: nat, i: nat)
    requires 2 * count <= |bytes| && i < count
    ensures var units := Units(bytes, count);
            |units| == count && units[i..] != [] && units[i..][0] == UnitAt(bytes, i) && units[i..][1..] == units[i + 1..]
  {}

  method ReadUnit(device: array<Sector>, first: nat, i: nat, size: nat, ghost bytes: seq<Byte>) returns (v: nat)
    requires |bytes| == size && Stored(device[..], first, bytes, size) && 2 * i + 1 < size
    ensures v == UnitAt(bytes, i)
  {
    var sector := first + i / 256;
    StoredAt(device[..], first, bytes, size, i);
    v := device[sector][2 * (i % 256)] as nat + 256 * device[sector][2 * (i % 256) + 1] as nat;
  }

  method CheckUnit(cases: CaseMap, v: nat, skip: bool, u: nat, ghost units: seq<nat>)
    returns (skip': bool, u': nat, reports: seq<Report>)
    requires units != [] && units[0] == v && u < UNITS
    ensures u' < UNITS && Reports(cases, units, skip, u) == reports + Reports(cases, units[1..], skip', u')
  {
    hide RunReports;
    if v == MARK {
      return true, u, [];
    } else if skip {
      reports := CheckRun(cases, u, v);
      return false, (u + v) % UNITS, reports;
    } else {
      return false, (u + 1) % UNITS, if v != cases[u] then [Report(u, cases[u])] else [];
    }
  }

  lemma StoredAt(device: seq<Sector>, first: nat, bytes: seq<Byte>, size: nat, i: nat)
    requires |bytes| == size && Stored(device, first, bytes, size) && 2 * i + 1 < size
    ensures first + i / 256 < |device|
    ensures device[first + i / 256][2 * (i % 256)] == bytes[2 * i]
    ensures device[first + i / 256][2 * (i % 256) + 1] == bytes[2 * i + 1]
  {
    assert (2 * i) / BYTES_PER_SECTOR == i / 256 && (2 * i) % BYTES_PER_SECTOR == 2 * (i % 256);
    assert (2 * i + 1) / BYTES_PER_SECTOR == i / 256 && (2 * i + 1) % BYTES_PER_SECTOR == 2 * (i % 256) + 1;
  }

  method CheckRun(cases: CaseMap, u: nat, v: nat) returns (reports: seq<Report>)
    requires u < UNITS
    ensures reports == RunReports(cases, u, v)
  {
    hide RunReports;
    reports := [];
    for k := 0 to v
      invariant reports + RunReports(cases, (u + k) % UNITS, v - k) == RunReports(cases, u, v)
    {
      var c := (u + k) % UNITS;
      WrapAdd(u, k, 1);
      RunReportsStep(cases, c, v - k, reports);
      if cases[c] != c {
        reports := reports + [Report(c, cases[c])];
      }
    }
    EmptyRun(cases, (u + v) % UNITS);
  }

  lemma RunReportsStep(cases: CaseMap, u: nat, count: nat, before: seq<Report>)
    requires u < UNITS && count > 0
    ensures before + RunReports(cases, u, count)
         == (if cases[u] != u then before + [Report(u, cases[u])] else before) + RunReports(cases, (u + 1) % UNITS, count - 1)
  {}

  lemma EmptyRun(cases: CaseMap, u: nat)
    requires u < UNITS
    ensures RunReports(cases, u, 0) == []
  {}

  lemma EncodeChanged(cases: CaseMap, ch: nat)
    requires ch < UNITS && cases[ch] != ch
    ensures Encode(cases, ch) == [cases[ch]] + Encode(cases, ch + 1)
  {}

  lemma EncodeNothing(cases: CaseMap)
    ensures Encode(cases, UNITS) == []
  {}

  lemma SomethingEncoded(cases: CaseMap)
    ensures Encode(cases, 0) != []
  {
    var n := RunEnd(cases, 1);
    assert |Literals(0, n)| == n;
  }

  lemma {:induction false} EncodedUnits(cases: CaseMap, ch: nat)
    requires ch <= UNITS
    ensures forall k :: 0 <= k < |Encode(cases, ch)| ==> Encode(cases, ch)[k] < UNITS
    decreases UNITS - ch
  {
    if ch < UNITS {
      if cases[ch] != ch {
        EncodedUnits(cases, ch + 1);
      } else {
        EncodedUnits(cases, RunEnd(cases, ch + 1));
      }
    }
  }

  /** Formatting and then checking: silent for every map that can be coded. */
  method WriteThenCheck(device: array<Sector>, first: nat, cases: CaseMap) returns (reports: seq<Report>)
    requires first + UNITS / 256 <= device.Length
    modifies device
    ensures reports == Reports(cases, Encode(cases, 0), false, 0)
    ensures Codable(cases) ==> reports == []
  {
    hide Stored, Filled, Encode, Reports, Codable, Bytes, Units, Sum;
    var writer := new Writer(device, first);
    writer.Write(cases);
    reports := Check(device, first, writer.size, cases, writer.written);
    EncodedUnits(cases, 0);
    UnitsOfBytes(Encode(cases, 0));
    if Codable(cases) {
      WrittenTableIsSilent(cases);
    }
  }
}
