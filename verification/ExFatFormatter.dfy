/** Formatting a device as exFAT (lib/SdFat/src/ExFatLib/ExFatFormatter.cpp): the layout of the
    volume, its first allocation table and bitmap, and what mounting makes of them. */
module ExFatFormatter {
  import opened PartitionTable
  import opened SectorMap
  import opened FatTable
  import opened ExFatPartition
  import opened ExFatLists
  import ExFatFile
  import UpcaseTable

  const MINIMUM: nat := 0x10_0000
  const BACKUP_OFFSET: nat := 12
  const BITMAP_CLUSTER: nat := 2
  const UPCASE_CLUSTER: nat := 3
  const ROOT_CLUSTER: nat := 4
  const PARTITION_TYPE: nat := 7
  const SECTOR_SHIFT: nat := 9
  const LABEL_TYPE: Byte := 0x83
  const BITMAP_TYPE: Byte := 0x81
  const UPCASE_TYPE: Byte := 0x82

  function BitmapSectorsOf(clusters: nat): nat {
    ((clusters + 7) / 8 + BYTES_PER_SECTOR - 1) / BYTES_PER_SECTOR
  }

  datatype Layout = Layout(
    shift: nat, fatLength: nat, fatOffset: nat, partitionOffset: nat, clusterHeapOffset: nat,
    clusterCount: nat, volumeLength: nat) {

    function SectorsPerCluster(): (n: nat)
      ensures n > 0
    {
      Pow2(shift)
    }

    function FatStart(): nat {
      partitionOffset + fatOffset
    }

    function HeapStart(): nat {
      partitionOffset + clusterHeapOffset
    }

    /** Sectors of the allocation table that are written. */
    function FatSectors(): nat {
      ((clusterCount + 2) * 4 + BYTES_PER_SECTOR - 1) / BYTES_PER_SECTOR
    }

    /** Sectors of the allocation bitmap. */
    function BitmapSectors(): nat {
      BitmapSectorsOf(clusterCount)
    }

    /** The boot region and its backup come before the table, the table before the cluster heap,
        and the volume ends inside the device; the table has room for every cluster and the two
        reserved entries; the bitmap and the up-case table each fit one cluster. */
    predicate Sound(sectorCount: nat) {
      && SectorsPerCluster() in {256, 512, 1024}
      && 2 * BACKUP_OFFSET <= fatOffset && fatOffset + fatLength <= clusterHeapOffset && 0 < partitionOffset
      && partitionOffset + volumeLength == HeapStart() + clusterCount * SectorsPerCluster() <= sectorCount
      && fatLength * 128 >= clusterCount + 2
      && 32 <= FatSectors() <= fatLength
      && 0 < BitmapSectors() <= SectorsPerCluster() && BitmapSectors() * 4096 >= clusterCount
      && 4 <= clusterCount < 0x40_0000
      && UpcaseTable.UNITS / 256 <= SectorsPerCluster()
    }
  }

  // ------------------------------------------------------------ the layout

  /** The least power of two not below `n`: its exponent. */
  predicate Exponent(n: nat, vs: nat) {
    n <= Pow2(vs) && (vs > 0 ==> Pow2(vs - 1) < n)
  }

  lemma Powers()
    ensures Pow2(8) == 256 && Pow2(9) == 512 && Pow2(10) == 1024
    ensures Pow2(13) == 8192 && Pow2(14) == 16384 && Pow2(15) == 32768 && Pow2(16) == 65536
    ensures Pow2(19) == 0x8_0000 && Pow2(20) == 0x10_0000 && Pow2(21) == 0x20_0000 && Pow2(22) == 0x40_0000
    ensures Pow2(23) == 0x80_0000 && Pow2(24) == 0x100_0000 && Pow2(25) == 0x200_0000 && Pow2(26) == 0x400_0000
    ensures Pow2(27) == 0x800_0000 && Pow2(28) == 0x1000_0000 && Pow2(29) == 0x2000_0000
    ensures Pow2(30) == 0x4000_0000 && Pow2(31) == 0x8000_0000 && Pow2(32) == WORD
  {
    assert Pow2(2) == 4;
    assert Pow2(4) == 16;
    assert Pow2(6) == 64;
    assert Pow2(8) == 256;
    assert Pow2(10) == 1024;
    assert Pow2(12) == 4096;
    assert Pow2(14) == 16384;
    assert Pow2(16) == 65536;
    assert Pow2(18) == 0x4_0000;
    assert Pow2(20) == 0x10_0000;
    assert Pow2(22) == 0x40_0000;
    assert Pow2(24) == 0x100_0000;
    assert Pow2(26) == 0x400_0000;
    assert Pow2(28) == 0x1000_0000;
    assert Pow2(30) == 0x4000_0000;
  }

  function LayoutFor(n: nat, vs: nat): Layout
    requires n < WORD && 20 <= vs <= 32 && 4 * Pow2(if vs < 27 then 13 else (vs + 1) / 2) <= n
  {
    var shift := if vs < 29 then 8 else (vs - 11) / 2;
    var fatLength := Pow2(if vs < 27 then 13 else (vs + 1) / 2);
    var clusters := (n - 4 * fatLength) / Pow2(shift);
    Layout(shift, fatLength, fatLength, 2 * fatLength, 2 * fatLength, clusters, 2 * fatLength + clusters * Pow2(shift))
  }

  lemma ExponentRange(n: nat, vs: nat)
    requires MINIMUM <= n < WORD && Exponent(n, vs)
    ensures 20 <= vs <= 32 && 4 * Pow2(if vs < 27 then 13 else (vs + 1) / 2) <= n
  {
    Powers();
    if vs < 20 {
      PowersGrow(vs, 19);
    }
    if vs > 32 {
      PowersGrow(32, vs - 1);
    }
    PowersGrow(20, vs);
  }

  lemma {:induction false} PowersGrow(a: nat, b: nat)
    ensures a <= b ==> Pow2(a) <= Pow2(b)
    decreases b
  {
    if a < b {
      PowersGrow(a, b - 1);
    }
  }

  lemma ArithmeticOfLayout(n: nat, f: nat, spc: nat, c: nat)
    requires spc > 0 && c == (n - 4 * f) / spc && n >= 4 * f
    requires || (f == 8192 && spc == 256 && MINIMUM <= n <= 0x400_0000)
             || (f == 16384 && spc == 256 && 0x400_0000 < n <= 0x1000_0000)
             || (f == 32768 && spc == 512 && 0x1000_0000 < n <= 0x4000_0000)
             || (f == 65536 && spc == 1024 && 0x4000_0000 < n < WORD)
    ensures c * spc <= n - 4 * f
    ensures f * 128 >= c + 2 && 32 <= ((c + 2) * 4 + 511) / 512 <= f
    ensures 0 < ((c + 7) / 8 + 511) / 512 <= spc && ((c + 7) / 8 + 511) / 512 * 4096 >= c
    ensures 4 <= c < 0x40_0000
  {
    if f == 8192 {
    } else if f == 16384 {
    } else if f == 32768 {
    } else {
      assert f == 65536;
    }
  }

  /** For every device of at least 512 MB, and of any 32-bit size, the layout is sound. */
  lemma LayoutIsSound(n: nat, vs: nat)
    requires MINIMUM <= n < WORD && Exponent(n, vs) && 20 <= vs <= 32
    requires 4 * Pow2(if vs < 27 then 13 else (vs + 1) / 2) <= n
    ensures LayoutFor(n, vs).Sound(n)
  {
    var l := LayoutFor(n, vs);
    RangeOf(n, vs);
    hide Pow2;
    ArithmeticOfLayout(n, l.fatLength, l.SectorsPerCluster(), l.clusterCount);
  }

  lemma RangeOf(n: nat, vs: nat)
    requires MINIMUM <= n < WORD && Exponent(n, vs) && 20 <= vs <= 32
    ensures var f := Pow2(if vs < 27 then 13 else (vs + 1) / 2);
            var spc := Pow2(if vs < 29 then 8 else (vs - 11) / 2);
            || (f == 8192 && spc == 256 && MINIMUM <= n <= 0x400_0000)
            || (f == 16384 && spc == 256 && 0x400_0000 < n <= 0x1000_0000)
            || (f == 32768 && spc == 512 && 0x1000_0000 < n <= 0x4000_0000)
            || (f == 65536 && spc == 1024 && 0x4000_0000 < n < WORD)
  {
    hide Pow2;
    Powers();
    PowersGrow(vs, 26);
    PowersGrow(vs, 28);
    PowersGrow(vs, 30);
    PowersGrow(26, vs - 1);
    PowersGrow(28, vs - 1);
    PowersGrow(30, vs - 1);
  }

  // ------------------------------------------------------------ the first table and bitmap

  /** Two reserved entries, and one each for the bitmap, the up-case table and the root. */
  function FirstFatSector(): Sector {
    seq(BYTES_PER_SECTOR, i requires 0 <= i < BYTES_PER_SECTOR => if i == 0 then 0xF8 else if i < 20 then 0xFF else 0)
  }

  function FirstBitmapSector(): Sector {
    seq(BYTES_PER_SECTOR, i requires 0 <= i < BYTES_PER_SECTOR => if i == 0 then 7 else 0)
  }

  /** `count` sectors from `at` on: the first one given, the others zero. */
  predicate Begun(device: seq<Sector>, at: nat, count: nat, first: Sector) {
    at + count <= |device| && forall i :: at <= i < at + count ==> device[i] == BegunSector(at, first, i)
  }

  function BegunSector(at: nat, first: Sector, i: nat): Sector {
    if i == at then first else ZeroSector()
  }

  function Entry(device: seq<Sector>, fatStart: nat, c: nat): nat
    requires fatStart + c / 128 < |device|
  {
    var s, o := device[fatStart + c / 128], 4 * (c % 128);
    s[o] as int + 256 * s[o + 1] as int + 65536 * s[o + 2] as int + 16777216 * s[o + 3] as int
  }

  /** An entry is the number whose four bytes lie at its place, the low one first. */
  lemma EntryReads(device: seq<Sector>, fatStart: nat, c: nat, n: nat)
    requires n < 0x1_0000_0000 && fatStart + 4 * c / 512 < |device|
    requires var s, o := device[fatStart + 4 * c / 512], 4 * c % 512;
             && s[o] as int == n % 0x100 && s[o + 1] as int == n / 0x100 % 0x100
             && s[o + 2] as int == n / 0x1_0000 % 0x100 && s[o + 3] as int == n / 0x100_0000
    ensures fatStart + c / 128 < |device| && Entry(device, fatStart, c) == n
  {
    PlaceOfEntry(c);
    BytesOfNumber(n);
  }

  function Table(device: seq<Sector>, fatStart: nat, size: nat): (fat: seq<nat>)
    requires fatStart + (size + 127) / 128 <= |device|
    ensures |fat| == size
  {
    seq(size, c requires 0 <= c < size => Entry(device, fatStart, c))
  }

  function BitOf(b: Byte, k: nat): bool {
    b as nat / Pow2(k) % 2 == 1
  }

  function Bitmap(device: seq<Sector>, at: nat, sectors: nat): (bits: seq<bool>)
    requires at + sectors <= |device|
    ensures |bits| == 4096 * sectors
  {
    seq(4096 * sectors, i requires 0 <= i < 4096 * sectors => BitOf(device[at + i / 4096][i % 4096 / 8], i % 8))
  }

  function BitValue(bit: bool, value: nat): nat {
    if bit then value else 0
  }

  /** Each byte of the bitmap is the sum of its eight bits, the lowest one first. */
  lemma BytesOfBitmap(device: seq<Sector>, at: nat, sectors: nat, j: nat)
    requires at + sectors <= |device| && j < 512 * sectors
    ensures var bits := Bitmap(device, at, sectors);
            device[at + j / 512][j % 512] as nat
            == BitValue(bits[8 * j], 1) + BitValue(bits[8 * j + 1], 2) + BitValue(bits[8 * j + 2], 4)
               + BitValue(bits[8 * j + 3], 8) + BitValue(bits[8 * j + 4], 16) + BitValue(bits[8 * j + 5], 32)
               + BitValue(bits[8 * j + 6], 64) + BitValue(bits[8 * j + 7], 128)
  {
    hide BitOf, BitValue, Bitmap;
    BitsOfByte(device[at + j / 512][j % 512]);
    BitAt(device, at, sectors, j, 0);
    BitAt(device, at, sectors, j, 1);
    BitAt(device, at, sectors, j, 2);
    BitAt(device, at, sectors, j, 3);
    BitAt(device, at, sectors, j, 4);
    BitAt(device, at, sectors, j, 5);
    BitAt(device, at, sectors, j, 6);
    BitAt(device, at, sectors, j, 7);
  }

  lemma BitAt(device: seq<Sector>, at: nat, sectors: nat, j: nat, k: nat)
    requires at + sectors <= |device| && j < 512 * sectors && k < 8
    ensures Bitmap(device, at, sectors)[8 * j + k] == BitOf(device[at + j / 512][j % 512], k)
  {
    hide BitOf;
    PlaceOfBit(j, k);
  }

  lemma PlaceOfBit(j: nat, k: nat)
    requires k < 8
    ensures (8 * j + k) / 4096 == j / 512 && (8 * j + k) % 4096 / 8 == j % 512 && (8 * j + k) % 8 == k
  {}

  lemma BitsOfByte(b: Byte)
    ensures b as nat == BitValue(BitOf(b, 0), 1) + BitValue(BitOf(b, 1), 2) + BitValue(BitOf(b, 2), 4)
                        + BitValue(BitOf(b, 3), 8) + BitValue(BitOf(b, 4), 16) + BitValue(BitOf(b, 5), 32)
                        + BitValue(BitOf(b, 6), 64) + BitValue(BitOf(b, 7), 128)
  {
    assert Pow2(2) == 4 && Pow2(4) == 16 && Pow2(6) == 64;
    assert Pow2(0) == 1 && Pow2(1) == 2 && Pow2(3) == 8 && Pow2(5) == 32 && Pow2(7) == 128;
    hide Pow2, BitOf, BitValue;
    BitWeight(b, 0, 1);
    BitWeight(b, 1, 2);
    BitWeight(b, 2, 4);
    BitWeight(b, 3, 8);
    BitWeight(b, 4, 16);
    BitWeight(b, 5, 32);
    BitWeight(b, 6, 64);
    BitWeight(b, 7, 128);
    Halved(b as nat);
  }

  lemma BitWeight(b: Byte, k: nat, p: nat)
    requires p == Pow2(k) > 0
    ensures BitValue(BitOf(b, k), p) == p * (b as nat / p % 2)
  {}

  lemma Halved(n: nat)
    requires n < 256
    ensures n == n / 1 % 2 + 2 * (n / 2 % 2) + 4 * (n / 4 % 2) + 8 * (n / 8 % 2) + 16 * (n / 16 % 2)
                 + 32 * (n / 32 % 2) + 64 * (n / 64 % 2) + 128 * (n / 128 % 2)
  {
    LowestLeft(n, 1, 2);
    LowestLeft(n, 2, 4);
    LowestLeft(n, 4, 8);
    LowestLeft(n, 8, 16);
    LowestLeft(n, 16, 32);
    LowestLeft(n, 32, 64);
    LowestLeft(n, 64, 128);
    LowestLeft(n, 128, 256);
  }

  lemma LowestLeft(n: nat, p: nat, twice: nat)
    requires p > 0 && twice == 2 * p
    ensures n / p == n / p % 2 + 2 * (n / twice)
  {
    HalvedTwice(n, p);
  }

  lemma HalvedTwice(n: nat, p: nat)
    requires p > 0
    ensures n / (2 * p) == n / p / 2
  {
    var q, r, k := n / p, n % p, n / p / 2;
    DivBounds(n, p);
    if q == 2 * k {
      TwiceAsWide(n, p, k, r);
    } else {
      assert q == 2 * k + 1;
      assert (2 * k + 1) * p == 2 * k * p + p;
      TwiceAsWide(n, p, k, p + r);
    }
  }

  lemma TwiceAsWide(n: nat, p: nat, k: nat, r: nat)
    requires n == 2 * k * p + r && r < 2 * p
    ensures n / (2 * p) == k
  {
    assert k * (2 * p) == 2 * k * p;
    DivUnique(n, 2 * p, k, r);
  }

  lemma FreshTable(device: seq<Sector>, fatStart: nat, sectors: nat, c: nat)
    requires Begun(device, fatStart, sectors, FirstFatSector()) && c < 128 * sectors
    ensures Entry(device, fatStart, c) == if c == 0 then 0xFFFF_FFF8 else if c <= 4 then 0xFFFF_FFFF else 0
  {}

  lemma FreshBit(b: Byte, k: nat)
    requires k < 8
    ensures b == 7 ==> (BitOf(b, k) <==> k < 3)
    ensures b == 0 ==> !BitOf(b, k)
  {
    assert Pow2(1) == 2 && Pow2(2) == 4;
    assert Pow2(3) == 8;
    assert k >= 3 ==> Pow2(k) >= 8 by {
      PowersGrow(3, k);
    }
  }

  lemma FreshBitmap(device: seq<Sector>, at: nat, sectors: nat, i: nat)
    requires Begun(device, at, sectors, FirstBitmapSector()) && i < 4096 * sectors
    ensures Bitmap(device, at, sectors)[i] <==> i < 3
  {
    FreshBit(device[at + i / 4096][i % 4096 / 8], i % 8);
  }

  // ------------------------------------------------------------ the root directory

  /** Byte `k` of a number, low byte first, and back. */
  function ByteOf(n: nat, k: nat): Byte
    decreases k
  {
    if k == 0 then (n % 256) as Byte else ByteOf(n / 256, k - 1)
  }

  function GetLe(s: seq<Byte>, at: nat, count: nat): nat
    requires at + count <= |s|
    decreases count
  {
    if count == 0 then 0 else s[at] as nat + 256 * GetLe(s, at + 1, count - 1)
  }

  lemma {:induction false} NumberReadsBack(s: seq<Byte>, at: nat, count: nat, n: nat)
    requires at + count <= |s| && n < Pow2(8 * count)
    requires forall k :: 0 <= k < count ==> s[at + k] == ByteOf(n, k)
    ensures GetLe(s, at, count) == n
    decreases count
  {
    if count > 0 {
      EightTimes(8 * count - 8);
      assert s[at] == s[at + 0] == ByteOf(n, 0);
      forall k: nat | k < count - 1 ensures s[at + 1 + k] == ByteOf(n / 256, k) {
        assert s[at + (k + 1)] == ByteOf(n, k + 1);
      }
      NumberReadsBack(s, at + 1, count - 1, n / 256);
    }
  }

  lemma EightTimes(e: nat)
    ensures Pow2(e + 8) == 256 * Pow2(e)
  {
    assert Pow2(e + 2) == 4 * Pow2(e);
    assert Pow2(e + 4) == 16 * Pow2(e);
    assert Pow2(e + 6) == 64 * Pow2(e);
  }

  /** The first sector of the root: an unused label, the bitmap, and the up-case table. */
  function RootSector(bitmapSize: nat, upcaseSize: nat, checksum: nat): Sector {
    seq(BYTES_PER_SECTOR, i requires 0 <= i < BYTES_PER_SECTOR => RootByte(bitmapSize, upcaseSize, checksum, i))
  }

  function RootByte(bitmapSize: nat, upcaseSize: nat, checksum: nat, i: nat): Byte {
    if i == 0 then LABEL_TYPE - 0x80
    else if i == 32 then BITMAP_TYPE
    else if 52 <= i < 56 then ByteOf(BITMAP_CLUSTER, i - 52)
    else if 56 <= i < 64 then ByteOf(bitmapSize, i - 56)
    else if i == 64 then UPCASE_TYPE
    else if 68 <= i < 72 then ByteOf(checksum, i - 68)
    else if 84 <= i < 88 then ByteOf(UPCASE_CLUSTER, i - 84)
    else if 88 <= i < 96 then ByteOf(upcaseSize, i - 88)
    else 0
  }

  /** The first entries of the root, as they read back: an unused label, the bitmap in cluster 2, and the
      up-case table in cluster 3 with its checksum. */
  lemma RootEntries(bitmapSize: nat, upcaseSize: nat, checksum: nat)
    requires upcaseSize < WORD
    ensures var s := RootSector(bitmapSize, upcaseSize, checksum);
            && s[0] == 0x03
            && s[32] == 0x81 && GetLe(s, 52, 4) == 2 && (bitmapSize < WORD ==> GetLe(s, 56, 8) == bitmapSize)
            && s[64] == 0x82 && GetLe(s, 84, 4) == 3 && GetLe(s, 88, 8) == upcaseSize
            && (checksum < WORD ==> GetLe(s, 68, 4) == checksum)
            && forall i :: 96 <= i < 512 ==> s[i] == 0
  {
    hide GetLe, ByteOf, Pow2;
    var s := RootSector(bitmapSize, upcaseSize, checksum);
    Powers();
    PowersGrow(32, 64);
    RootFields(bitmapSize, upcaseSize, checksum);
    NumberReadsBack(s, 52, 4, BITMAP_CLUSTER);
    if bitmapSize < WORD { NumberReadsBack(s, 56, 8, bitmapSize); }
    if checksum < WORD { NumberReadsBack(s, 68, 4, checksum); }
    NumberReadsBack(s, 84, 4, UPCASE_CLUSTER);
    NumberReadsBack(s, 88, 8, upcaseSize);
  }

  lemma RootFields(bitmapSize: nat, upcaseSize: nat, checksum: nat)
    ensures var s := RootSector(bitmapSize, upcaseSize, checksum);
            && (forall k :: 0 <= k < 4 ==> s[52 + k] == ByteOf(BITMAP_CLUSTER, k))
            && (forall k :: 0 <= k < 8 ==> s[56 + k] == ByteOf(bitmapSize, k))
            && (forall k :: 0 <= k < 4 ==> s[68 + k] == ByteOf(checksum, k))
            && (forall k :: 0 <= k < 4 ==> s[84 + k] == ByteOf(UPCASE_CLUSTER, k))
            && (forall k :: 0 <= k < 8 ==> s[88 + k] == ByteOf(upcaseSize, k))
  {
    hide ByteOf;
  }

  /** A number of four or eight bytes, lowest first, is their weighted sum. */
  lemma NumberOfBytes(s: seq<Byte>, at: nat)
    requires at + 4 <= |s|
    ensures GetLe(s, at, 4)
         == s[at] as nat + 0x100 * s[at + 1] as nat + 0x1_0000 * s[at + 2] as nat + 0x100_0000 * s[at + 3] as nat
    ensures at + 8 <= |s| ==> GetLe(s, at, 8) == GetLe(s, at, 4) + 0x1_0000_0000 * GetLe(s, at + 4, 4)
  {
    assert GetLe(s, at + 2, 2) == s[at + 2] as nat + 256 * GetLe(s, at + 3, 1);
    if at + 8 <= |s| {
      assert GetLe(s, at + 2, 6) == s[at + 2] as nat + 256 * GetLe(s, at + 3, 5);
      assert GetLe(s, at + 3, 5) == s[at + 3] as nat + 256 * GetLe(s, at + 4, 4);
    }
  }

  function FreshChains(): Chains {
    map[BITMAP_CLUSTER := [BITMAP_CLUSTER], UPCASE_CLUSTER := [UPCASE_CLUSTER], ROOT_CLUSTER := [ROOT_CLUSTER]]
  }

  lemma FreshLists(fat: seq<nat>)
    requires 6 <= |fat| <= EXFAT_EOC && forall c :: 2 <= c <= 4 ==> fat[c] == EXFAT_EOC
    ensures AllLists(fat, FreshChains(), {}) && Disjoint(FreshChains())
  {
    assert XChain(fat, [2]) && XChain(fat, [3]) && XChain(fat, [4]);
  }

  lemma FreshBits(fat: seq<nat>, bits: seq<bool>)
    requires 6 <= |fat| && |bits| == |fat| - 2 && forall i :: 0 <= i < |bits| ==> (bits[i] <==> i < 3)
    ensures ExFatLists.BitsAgree(fat, bits, FreshChains())
  {
    var chains := FreshChains();
    forall c: nat | InTable(fat, c) ensures bits[c - 2] <==> Owned(chains, c) {
      if c <= 4 {
        assert Owns(chains, c, c);
      } else {
        assert forall h :: h in chains ==> c !in chains[h];
      }
    }
  }

  /** A fresh volume: the bitmap, the up-case table and the root directory, one cluster each. */
  lemma FreshIsWellFormed(fat: seq<nat>, bits: seq<bool>)
    requires 6 <= |fat| <= EXFAT_EOC && |bits| == |fat| - 2
    requires forall c :: 2 <= c <= 4 ==> fat[c] == EXFAT_EOC
    requires forall i :: 0 <= i < |bits| ==> (bits[i] <==> i < 3)
    ensures XWellFormed(fat, bits, FreshChains(), {})
    ensures HasRun(bits, 0, |bits|, 1)
  {
    hide AllLists, Disjoint, ExFatLists.BitsAgree;
    FreshLists(fat);
    FreshBits(fat, bits);
    assert ClearRun(bits, 3, 1);
  }

  // ------------------------------------------------------------ mounting

  /** What a mount reads of a boot sector: the name, and offsets that count from the sector itself. */
  datatype BootRecord = BootRecord(
    oemName: string, bytesPerSectorShift: nat, sectorsPerClusterShift: nat, fatOffset: nat, fatLength: nat,
    clusterHeapOffset: nat, clusterCount: nat, rootDirectoryCluster: nat)

  datatype Volume = Volume(
    fatStart: nat, fatLength: nat, heapStart: nat, clusterCount: nat, rootCluster: nat, shift: nat)

  datatype Mounted = Refused | Volumed(volume: Volume)

  function MountedFrom(pbs: BootRecord, start: nat): Mounted {
    if pbs.oemName[..Min(|pbs.oemName|, 5)] != "EXFAT" || pbs.bytesPerSectorShift != SECTOR_SHIFT then Refused
    else Volumed(Volume(U32(start + pbs.fatOffset), pbs.fatLength, U32(start + pbs.clusterHeapOffset),
                        pbs.clusterCount, pbs.rootDirectoryCluster, pbs.sectorsPerClusterShift))
  }

  /** Mounting partition `part` of a device, or with `part` 0 the boot sector at `start`. */
  method Mount(mbr: seq<PartitionEntry>, boot: map<nat, BootRecord>, part: nat, start: nat) returns (m: Mounted)
    requires |mbr| == 4
    ensures var at := VolumeStart(mbr, part, start);
            m == if !Selectable(mbr, part) || at !in boot then Refused else MountedFrom(boot[at], at)
    ensures m.Volumed? ==>
              var at := if part == 0 then start else mbr[part - 1].relativeSectors;
              && part <= 4 && at in boot
              && boot[at].bytesPerSectorShift == 9 && |boot[at].oemName| >= 5 && boot[at].oemName[..5] == "EXFAT"
              && m.volume.clusterCount == boot[at].clusterCount && m.volume.fatLength == boot[at].fatLength
              && m.volume.shift == boot[at].sectorsPerClusterShift
              && m.volume.rootCluster == boot[at].rootDirectoryCluster
              && (at + boot[at].fatOffset <= 0xFFFF_FFFF ==> m.volume.fatStart == at + boot[at].fatOffset)
              && (at + boot[at].clusterHeapOffset <= 0xFFFF_FFFF ==>
                    m.volume.heapStart == at + boot[at].clusterHeapOffset)
  {
    var found, at := Select(mbr, part, start);
    if !found || at !in boot {
      return Refused;
    }
    var pbs := boot[at];
    if pbs.oemName[..Min(|pbs.oemName|, 5)] != "EXFAT" {
      return Refused;
    }
    if pbs.bytesPerSectorShift != SECTOR_SHIFT {
      return Refused;
    }
    return Volumed(Volume(U32(at + pbs.fatOffset), pbs.fatLength, U32(at + pbs.clusterHeapOffset),
                          pbs.clusterCount, pbs.rootDirectoryCluster, pbs.sectorsPerClusterShift));
  }

  /** The boot sector written for a layout, with its 32-bit fields. */
  function BootOf(l: Layout): BootRecord {
    BootRecord("EXFAT   ", SECTOR_SHIFT, l.shift, U32(l.fatOffset), U32(l.fatLength), U32(l.clusterHeapOffset),
               U32(l.clusterCount), ROOT_CLUSTER)
  }

  /** Mounting recovers the starts, the counts and the cluster size that formatting chose. */
  lemma MountRecoversLayout(l: Layout, sectorCount: nat)
    requires l.Sound(sectorCount) && sectorCount < WORD
    ensures MountedFrom(BootOf(l), l.partitionOffset)
            == Volumed(Volume(l.FatStart(), l.fatLength, l.HeapStart(), l.clusterCount, ROOT_CLUSTER, l.shift))
  {
    hide Layout.SectorsPerCluster;
    assert l.HeapStart() <= sectorCount;
    Small(l.fatOffset);
    Small(l.fatLength);
    Small(l.clusterHeapOffset);
    Small(l.clusterCount);
    Small(l.FatStart());
    Small(l.HeapStart());
    assert "EXFAT   "[..5] == "EXFAT";
  }

  lemma Small(n: int)
    requires 0 <= n < WORD
    ensures U32(n) == n
  {}

  /** The sizes of a volume, its partition entry and its boot sector: f sectors are reserved for the
      table and twice as many for the boot region and the table together, and the clusters start there. */
  ghost predicate Described(n: nat, l: Layout, mbr: PartitionEntry, pbs: BootRecord) {
    var f := if n <= 0x400_0000 then 8192 else if n <= 0x1000_0000 then 16384 else if n <= 0x4000_0000 then 32768 else 65536;
    var shift := if n <= 0x1000_0000 then 8 else if n <= 0x4000_0000 then 9 else 10;
    var spc := if n <= 0x1000_0000 then 256 else if n <= 0x4000_0000 then 512 else 1024;
    && l.FatSectors() == (l.clusterCount + 2 + 127) / 128 && l.BitmapSectors() == (l.clusterCount + 4095) / 4096
    && n >= 4 * f && l.clusterCount == (n - 4 * f) / spc && l.shift == shift && l.SectorsPerCluster() == spc
    && l.partitionOffset == 2 * f && l.FatStart() == 3 * f && l.HeapStart() == 4 * f
    && mbr == PartitionEntry(0x07, 0, 2 * f, 2 * f + l.clusterCount * spc)
    && pbs == BootRecord("EXFAT   ", 9, shift, f, f, 2 * f, l.clusterCount, 4)
  }

  lemma LayoutDescribed(n: nat, vs: nat)
    requires MINIMUM <= n < WORD && Exponent(n, vs) && 20 <= vs <= 32
    requires 4 * Pow2(if vs < 27 then 13 else (vs + 1) / 2) <= n
    ensures var l := LayoutFor(n, vs);
            Described(n, l, PartitionEntry(PARTITION_TYPE, 0, l.partitionOffset, l.volumeLength), BootOf(l))
  {
    var l := LayoutFor(n, vs);
    RangeOf(n, vs);
    ShiftOf(n, vs);
    hide Pow2, U32, Layout.FatSectors, Layout.BitmapSectors;
    SectorsOfTables(l);
    Small(l.fatLength);
    Small(l.clusterHeapOffset);
    CountIsSmall(n, l.fatLength, l.SectorsPerCluster());
    Small(l.clusterCount);
  }

  lemma SectorsOfTables(l: Layout)
    ensures l.FatSectors() == (l.clusterCount + 2 + 127) / 128 && l.BitmapSectors() == (l.clusterCount + 4095) / 4096
  {}

  lemma CountIsSmall(n: nat, f: nat, spc: nat)
    requires 4 * f <= n < WORD && spc > 0
    ensures 0 <= (n - 4 * f) / spc < WORD
  {
    DivBounds(n - 4 * f, spc);
  }

  lemma ShiftOf(n: nat, vs: nat)
    requires MINIMUM <= n < WORD && Exponent(n, vs) && 20 <= vs <= 32
    ensures (if vs < 29 then 8 else (vs - 11) / 2)
         == if n <= 0x1000_0000 then 8 else if n <= 0x4000_0000 then 9 else 10
  {
    hide Pow2;
    Powers();
    PowersGrow(vs, 28);
    PowersGrow(vs, 30);
    PowersGrow(28, vs - 1);
    PowersGrow(30, vs - 1);
  }

  // ------------------------------------------------------------ what formatting leaves

  ghost predicate TablesOn(d: seq<Sector>, l: Layout) {
    && Begun(d, l.FatStart(), l.FatSectors(), FirstFatSector())
    && Begun(d, l.HeapStart(), l.BitmapSectors(), FirstBitmapSector())
  }

  ghost predicate UpcaseOn(d: seq<Sector>, l: Layout, table: seq<Byte>) {
    && |table| <= BYTES_PER_SECTOR * l.SectorsPerCluster()
    && UpcaseTable.Stored(d, l.HeapStart() + l.SectorsPerCluster(), table, |table|)
  }

  ghost predicate RootOn(d: seq<Sector>, l: Layout, upcaseSize: nat, checksum: nat) {
    Begun(d, l.HeapStart() + 2 * l.SectorsPerCluster(), l.SectorsPerCluster(),
          RootSector((l.clusterCount + 7) / 8, upcaseSize, checksum))
  }

  /** Nothing before sector `at` has changed. */
  ghost predicate KeptBefore(d: seq<Sector>, d': seq<Sector>, at: nat) {
    |d'| == |d| && forall i :: 0 <= i < |d| && i < at ==> d'[i] == d[i]
  }

  lemma TablesStay(d: seq<Sector>, d': seq<Sector>, l: Layout, at: nat)
    requires l.Sound(|d|) && TablesOn(d, l) && KeptBefore(d, d', at) && at >= l.HeapStart() + l.SectorsPerCluster()
    ensures TablesOn(d', l)
  {
    hide Begun, Layout.SectorsPerCluster, Layout.FatSectors, Layout.BitmapSectors;
    InDevice(d, l.FatStart(), l.FatSectors(), FirstFatSector());
    InDevice(d, l.HeapStart(), l.BitmapSectors(), FirstBitmapSector());
    BegunStays(d, d', l.FatStart(), l.FatSectors(), FirstFatSector());
    BegunStays(d, d', l.HeapStart(), l.BitmapSectors(), FirstBitmapSector());
  }

  lemma UpcaseStays(d: seq<Sector>, d': seq<Sector>, l: Layout, table: seq<Byte>, at: nat)
    requires UpcaseOn(d, l, table) && KeptBefore(d, d', at) && at == l.HeapStart() + 2 * l.SectorsPerCluster()
    ensures UpcaseOn(d', l, table)
  {
    hide Layout.SectorsPerCluster;
    var first := l.HeapStart() + l.SectorsPerCluster();
    forall i | 0 <= i < |table|
      ensures first + i / BYTES_PER_SECTOR < |d'|
      ensures d'[first + i / BYTES_PER_SECTOR][i % BYTES_PER_SECTOR] == table[i]
    {
      assert i / BYTES_PER_SECTOR < l.SectorsPerCluster();
    }
  }

  lemma RootStands(d: seq<Sector>, l: Layout, upcaseSize: nat, checksum: nat)
    requires Begun(d, l.HeapStart() + 2 * l.SectorsPerCluster(), l.SectorsPerCluster(),
                   RootSector((l.clusterCount + 7) / 8, upcaseSize, checksum))
    ensures RootOn(d, l, upcaseSize, checksum)
  {}

  lemma RootReads(d: seq<Sector>, l: Layout, upcaseSize: nat, checksum: nat)
    requires RootOn(d, l, upcaseSize, checksum)
    ensures var at := l.HeapStart() + 2 * l.SectorsPerCluster();
            at < |d| && d[at] == RootSector((l.clusterCount + 7) / 8, upcaseSize, checksum)
  {}

  lemma TableShort(cases: UpcaseTable.CaseMap)
    ensures |UpcaseTable.Bytes(UpcaseTable.Encode(cases, 0))| <= 2 * UpcaseTable.UNITS
  {
    UpcaseTable.EncodedLength(cases, 0);
  }

  /** The clusters of the up-case table and the root lie on the device, and the table fits its own. */
  lemma UpcaseClusterFits(l: Layout, sectorCount: nat)
    requires l.Sound(sectorCount)
    ensures l.HeapStart() + 3 * l.SectorsPerCluster() <= sectorCount
    ensures UpcaseTable.UNITS / 256 <= l.SectorsPerCluster()
  {}

  class Formatter {
    const device: array<Sector>
    var mbr: PartitionEntry
    var boot: map<nat, BootRecord>
    var layout: Layout
    var upcaseSize: nat
    var upcaseChecksum: nat

    constructor (sectors: array<Sector>)
      ensures device == sectors
    {
      device := sectors;
      layout := Layout(0, 0, 0, 0, 0, 0, 0);
      mbr, boot := NoPartition(), map[];
    }

    /** The exponent of the volume size; `m` is a 32-bit number, and becomes zero at the end. */
    method FindExponent(n: nat) returns (vs: nat)
      requires MINIMUM <= n < WORD
      ensures Exponent(n, vs)
    {
      var m := 1;
      vs := 0;
      while m != 0 && n > m
        invariant vs <= 32 && m == (if vs == 32 then 0 else Pow2(vs))
        invariant vs > 0 ==> Pow2(vs - 1) < n
        decreases 32 - vs
      {
        Powers();
        PowersGrow(vs, 31);
        m := (2 * m) % WORD;
        vs := vs + 1;
      }
      Powers();
    }

    /** Writes a first sector and zeros behind it. */
    method WriteArea(at: nat, count: nat, first: Sector)
      requires at + count <= device.Length && count > 0
      modifies device
      ensures Begun(device[..], at, count, first)
      ensures forall i :: 0 <= i < device.Length && !(at <= i < at + count) ==> device[i] == old(device[i])
    {
      var content := first;
      for i := 0 to count
        invariant content == if i == 0 then first else ZeroSector()
        invariant forall k :: at <= k < at + i ==> device[k] == BegunSector(at, first, k)
        invariant forall k :: 0 <= k < device.Length && !(at <= k < at + i) ==> device[k] == old(device[k])
      {
        device[at + i] := content;
        if i == 0 {
          content := ZeroSector();
        }
      }
    }

    /** One partition, whose boot sector and its backup describe the layout. */
    ghost predicate Bootable()
      reads this
    {
      && mbr.kind != 0 && mbr.boot == 0 && mbr.relativeSectors == layout.partitionOffset
      && mbr.totalSectors == layout.volumeLength
      && layout.partitionOffset in boot && boot[layout.partitionOffset] == BootOf(layout)
      && layout.partitionOffset + BACKUP_OFFSET in boot
      && boot[layout.partitionOffset + BACKUP_OFFSET] == BootOf(layout)
    }

    method WriteBoot()
      modifies this`mbr, this`boot
      ensures Bootable() && mbr == PartitionEntry(PARTITION_TYPE, 0, layout.partitionOffset, layout.volumeLength)
    {
      mbr := PartitionEntry(PARTITION_TYPE, 0, layout.partitionOffset, layout.volumeLength);
      boot := boot[layout.partitionOffset := BootOf(layout)][layout.partitionOffset + BACKUP_OFFSET := BootOf(layout)];
    }

    ghost predicate Formatted(cases: UpcaseTable.CaseMap)
      reads this, device
    {
      var table := UpcaseTable.Bytes(UpcaseTable.Encode(cases, 0));
      && layout.Sound(device.Length) && Bootable()
      && TablesOn(device[..], layout) && UpcaseOn(device[..], layout, table)
      && upcaseSize == |table| && upcaseChecksum == UpcaseTable.Sum(table)
      && RootOn(device[..], layout, upcaseSize, upcaseChecksum)
    }

    /** The allocation table, and the bitmap, which always fits its cluster. */
    method WriteTables() returns (ok: bool)
      requires layout.Sound(device.Length)
      modifies device
      ensures ok && TablesOn(device[..], layout)
    {
      hide Layout.SectorsPerCluster, Layout.BitmapSectors, Layout.FatSectors, Begun;
      WriteArea(layout.FatStart(), layout.FatSectors(), FirstFatSector());
      ghost var d0 := device[..];
      if layout.BitmapSectors() > layout.SectorsPerCluster() {
        ok := false;
        return;
      }
      WriteArea(layout.HeapStart(), layout.BitmapSectors(), FirstBitmapSector());
      BegunStays(d0, device[..], layout.FatStart(), layout.FatSectors(), FirstFatSector());
      ok := true;
    }

    /** The up-case table in its cluster, which it always fits. */
    method WriteUpcase(cases: UpcaseTable.CaseMap) returns (ok: bool)
      requires layout.Sound(device.Length) && TablesOn(device[..], layout)
      modifies this`upcaseSize, this`upcaseChecksum, device
      ensures ok && TablesOn(device[..], layout)
      ensures var table := UpcaseTable.Bytes(UpcaseTable.Encode(cases, 0));
              && UpcaseOn(device[..], layout, table) && upcaseSize == |table| <= 2 * UpcaseTable.UNITS
              && upcaseChecksum == UpcaseTable.Sum(table)
    {
      hide Layout.SectorsPerCluster, TablesOn, UpcaseTable.Bytes, UpcaseTable.Encode, UpcaseTable.Sum, UpcaseTable.Stored;
      var spc := layout.SectorsPerCluster();
      ghost var d0 := device[..];
      UpcaseClusterFits(layout, device.Length);
      var writer := new UpcaseTable.Writer(device, layout.HeapStart() + spc);
      writer.Write(cases);
      upcaseSize, upcaseChecksum := writer.size, writer.checksum;
      TablesStay(d0, device[..], layout, layout.HeapStart() + spc);
      if upcaseSize > BYTES_PER_SECTOR * spc {
        ok := false;
        return;
      }
      ok := true;
    }

    /** The root directory: its first sector, and zeros in the rest of its cluster. */
    method WriteRoot(ghost table: seq<Byte>)
      requires layout.Sound(device.Length) && TablesOn(device[..], layout) && UpcaseOn(device[..], layout, table)
      modifies device
      ensures TablesOn(device[..], layout) && UpcaseOn(device[..], layout, table)
      ensures RootOn(device[..], layout, upcaseSize, upcaseChecksum)
    {
      hide Layout.SectorsPerCluster, TablesOn, UpcaseOn, RootOn, Begun;
      ghost var d0 := device[..];
      var at := layout.HeapStart() + 2 * layout.SectorsPerCluster();
      UpcaseClusterFits(layout, device.Length);
      WriteArea(at, layout.SectorsPerCluster(), RootSector((layout.clusterCount + 7) / 8, upcaseSize, upcaseChecksum));
      RootStands(device[..], layout, upcaseSize, upcaseChecksum);
      TablesStay(d0, device[..], layout, at);
      UpcaseStays(d0, device[..], layout, table, at);
    }

    /** Formats the device, if it is large enough. */
    method Format(cases: UpcaseTable.CaseMap) returns (ok: bool)
      requires device.Length < WORD
      modifies this`layout, this`mbr, this`boot, this`upcaseSize, this`upcaseChecksum, device
      ensures ok <==> device.Length >= 0x10_0000
      ensures ok ==> Formatted(cases) && Described(device.Length, layout, mbr, boot[layout.partitionOffset])
      ensures ok ==> layout.partitionOffset + 12 in boot
                     && boot[layout.partitionOffset + 12] == boot[layout.partitionOffset]
    {
      hide Described, Layout.Sound, LayoutFor, TablesOn, UpcaseOn, RootOn, BootOf, Exponent;
      hide UpcaseTable.Bytes, UpcaseTable.Encode, UpcaseTable.Sum, Pow2;
      var n := device.Length;
      if n < MINIMUM {
        return false;
      }
      var vs := FindExponent(n);
      ExponentRange(n, vs);
      LayoutIsSound(n, vs);
      LayoutDescribed(n, vs);
      layout := LayoutFor(n, vs);
      WriteBoot();
      ok := WriteTables();
      if !ok {
        return;
      }
      ok := WriteUpcase(cases);
      if !ok {
        return;
      }
      WriteRoot(UpcaseTable.Bytes(UpcaseTable.Encode(cases, 0)));
    }

    /** Looks the up-case table up in the root directory and compares it with the case map, if it is
        there and not empty. */
    method CheckUpcase(v: Volume, cases: UpcaseTable.CaseMap, ghost table: seq<Byte>)
      returns (found: bool, reports: seq<UpcaseTable.Report>)
      requires Formatted(cases) && table == UpcaseTable.Bytes(UpcaseTable.Encode(cases, 0))
      requires v.heapStart == layout.HeapStart() && v.shift == layout.shift && v.rootCluster == ROOT_CLUSTER
      ensures found <==> |table| > 0
      ensures found ==> reports == UpcaseTable.Reports(cases, UpcaseTable.Units(table, |table| / 2), false, 0)
    {
      hide Begun, TablesOn, Bootable, UpcaseTable.Bytes, UpcaseTable.Encode, UpcaseTable.Sum, UpcaseTable.Stored,
        UpcaseTable.Reports, UpcaseTable.Units, RootSector, GetLe, Layout.Sound;
      var spc := Pow2(v.shift);
      var sector := v.heapStart + (v.rootCluster - 2) * spc;
      TableShort(cases);
      RootReads(device[..], layout, upcaseSize, upcaseChecksum);
      RootEntries((layout.clusterCount + 7) / 8, upcaseSize, upcaseChecksum);
      reports := [];
      var size := 0;
      var dir := device[sector];
      var i := 0;
      while i < 16
        invariant 0 <= i <= 2 && size == 0
        decreases 16 - i
      {
        if dir[32 * i] == UPCASE_TYPE {
          sector := v.heapStart + (GetLe(dir, 32 * i + 20, 4) - 2) * spc;
          size := GetLe(dir, 32 * i + 24, 8);
          break;
        }
        i := i + 1;
      }
      found := size != 0;
      if found {
        assert size == |table|;
        reports := UpcaseTable.Check(device, sector, size, cases, table);
      }
    }

    /** Formatting and then mounting, by what the boot sector says, gives a volume in which exactly the
        bitmap, the up-case table and the root directory are allocated, and whose search starts at the
        first free cluster. */
    method FormatAndMount(cases: UpcaseTable.CaseMap) returns (p: Partition)
      requires MINIMUM <= device.Length < WORD
      modifies this`layout, this`mbr, this`boot, this`upcaseSize, this`upcaseChecksum, device
      ensures fresh(p) && ExFatFile.Consistent(p)
      ensures p.chains == FreshChains() && p.ranges == {} && p.bitmapStart == 3
      ensures p.clusterCount == layout.clusterCount && p.geometry == Geometry(layout.HeapStart(), layout.SectorsPerCluster())
      ensures layout.Sound(device.Length) && p.sectors == device[..]
      ensures p.Shape() && forall i :: 0 <= i < p.clusterCount ==> (p.Bits()[i] <==> i < 3)
    {
      hide UpcaseTable.Bytes, UpcaseTable.Encode, UpcaseTable.Sum, TablesOn, UpcaseOn, RootOn, BootOf, Layout.Sound;
      var ok := Format(cases);
      MountRecoversLayout(layout, device.Length);
      var none := NoPartition();
      var m := Mount([mbr, none, none, none], boot, 1, 0);
      p := ReadVolume(m.volume);
    }

    /** Formatting, mounting and then checking the up-case table the root directory names: silent for
        every map that can be coded. */
    method FormatAndCheck(cases: UpcaseTable.CaseMap) returns (found: bool, reports: seq<UpcaseTable.Report>)
      requires MINIMUM <= device.Length < WORD
      modifies this`layout, this`mbr, this`boot, this`upcaseSize, this`upcaseChecksum, device
      ensures found && reports == UpcaseTable.Reports(cases, UpcaseTable.Encode(cases, 0), false, 0)
      ensures UpcaseTable.Codable(cases) ==> reports == []
    {
      hide UpcaseTable.Bytes, UpcaseTable.Encode, UpcaseTable.Codable, UpcaseTable.Reports, Formatted, BootOf;
      var ok := Format(cases);
      SoundNow(cases);
      MountRecoversLayout(layout, device.Length);
      var none := NoPartition();
      var m := Mount([mbr, none, none, none], boot, 1, 0);
      found, reports := CheckUpcase(m.volume, cases, UpcaseTable.Bytes(UpcaseTable.Encode(cases, 0)));
      UpcaseTable.SomethingEncoded(cases);
      UpcaseTable.EncodedUnits(cases, 0);
      UpcaseTable.UnitsOfBytes(UpcaseTable.Encode(cases, 0));
      if UpcaseTable.Codable(cases) {
        UpcaseTable.WrittenTableIsSilent(cases);
      }
    }

    lemma SoundNow(cases: UpcaseTable.CaseMap)
      requires Formatted(cases)
      ensures layout.Sound(device.Length) && Bootable()
    {}

    /** What a mount decodes of the table and the bitmap of a fresh volume. */
    method ReadVolume(v: Volume) returns (p: Partition)
      requires layout.Sound(device.Length) && TablesOn(device[..], layout)
      requires v.fatStart == layout.FatStart() && v.heapStart == layout.HeapStart()
      requires v.clusterCount == layout.clusterCount && v.shift == layout.shift
      ensures fresh(p) && ExFatFile.Consistent(p)
      ensures p.chains == FreshChains() && p.ranges == {} && p.bitmapStart == 3
      ensures p.clusterCount == layout.clusterCount && p.geometry == Geometry(layout.HeapStart(), layout.SectorsPerCluster())
      ensures p.sectors == device[..]
      ensures p.Shape() && forall i :: 0 <= i < p.clusterCount ==> (p.Bits()[i] <==> i < 3)
    {
      hide TablesOn, Table, Bitmap, XWellFormed, HasRun, HintSound, Layout.Sound, BitmapSectorsOf;
      MountFresh(device[..], layout);
      var fat := Table(device[..], v.fatStart, v.clusterCount + 2);
      var bits := Bitmap(device[..], v.heapStart, BitmapSectorsOf(v.clusterCount));
      p := new Partition.Init(Geometry(v.heapStart, Pow2(v.shift)), v.clusterCount, fat, bits, device[..],
                              FreshChains(), {});
      SizeDivides(p.geometry);
      ClustersOnDevice(layout, device[..]);
      assert p.Bits() == bits[..p.clusterCount];
      assert p.Bits()[p.bitmapStart] == bits[p.bitmapStart];
      FirstFree(p.Bits(), p.bitmapStart);
    }
  }

  lemma FirstFree(bits: seq<bool>, hint: nat)
    requires |bits| >= 4 && forall i :: 0 <= i < |bits| ==> (bits[i] <==> i < 3)
    requires HintSound(bits, hint) && hint < |bits| && !bits[hint]
    ensures hint == 3
  {
    assert !bits[3];
  }

  lemma ClustersOnDevice(l: Layout, device: seq<Sector>)
    requires l.Sound(|device|)
    ensures ExFatFile.OnDevice(Geometry(l.HeapStart(), l.SectorsPerCluster()), device, l.clusterCount)
  {
    hide Layout.SectorsPerCluster;
    var spc := l.SectorsPerCluster();
    var g := Geometry(l.HeapStart(), spc);
    forall c | 2 <= c < l.clusterCount + 2 ensures g.ClusterFits(device, c) {
      assert (c - 2) * spc + spc == (c - 1) * spc <= l.clusterCount * spc;
    }
  }

  lemma SizeDivides(g: Geometry)
    requires g.sectorsPerCluster in {256, 512, 1024}
    ensures ExFatFile.ClusterSize(g)
  {
    assert 32768 * (512 * 256) == 16384 * (512 * 512) == 8192 * (512 * 1024) == WORD;
    var m: nat := 32768 * 256 / g.sectorsPerCluster;
    assert m * g.BytesPerCluster() == WORD;
  }

  lemma MountFresh(device: seq<Sector>, l: Layout)
    requires l.Sound(|device|) && TablesOn(device, l)
    ensures l.clusterCount >= 4 && l.SectorsPerCluster() in {256, 512, 1024} && l.clusterCount + 2 <= EXFAT_EOC
    ensures l.FatStart() + (l.clusterCount + 2 + 127) / 128 <= |device| && l.HeapStart() + l.BitmapSectors() <= |device|
    ensures var fat := Table(device, l.FatStart(), l.clusterCount + 2);
            var bits := Bitmap(device, l.HeapStart(), l.BitmapSectors());
            && l.clusterCount <= |bits|
            && (forall i :: 0 <= i < l.clusterCount ==> (bits[i] <==> i < 3))
            && XWellFormed(fat, bits[..l.clusterCount], FreshChains(), {})
            && HasRun(bits[..l.clusterCount], 0, l.clusterCount, 1)
  {
    hide Begun, Entry, Layout.SectorsPerCluster;
    var n := l.clusterCount + 2;
    assert (n + 127) / 128 <= l.FatSectors();
    assert l.FatStart() + l.FatSectors() <= |device| by {
      InDevice(device, l.FatStart(), l.FatSectors(), FirstFatSector());
    }
    InDevice(device, l.HeapStart(), l.BitmapSectors(), FirstBitmapSector());
    var fat := Table(device, l.FatStart(), n);
    var bits := Bitmap(device, l.HeapStart(), l.BitmapSectors());
    forall c: nat | c < n ensures fat[c] == if c == 0 then 0xFFFF_FFF8 else if c <= 4 then 0xFFFF_FFFF else 0 {
      FreshTable(device, l.FatStart(), l.FatSectors(), c);
    }
    forall i: nat | i < l.clusterCount ensures bits[i] <==> i < 3 {
      FreshBitmap(device, l.HeapStart(), l.BitmapSectors(), i);
    }
    FreshIsWellFormed(fat, bits[..l.clusterCount]);
  }

  lemma InDevice(device: seq<Sector>, at: nat, count: nat, first: Sector)
    requires Begun(device, at, count, first)
    ensures at + count <= |device|
  {}

  lemma BegunStays(device: seq<Sector>, after: seq<Sector>, at: nat, count: nat, first: Sector)
    requires Begun(device, at, count, first) && |after| == |device|
    requires forall i :: at <= i < at + count ==> after[i] == device[i]
    ensures Begun(after, at, count, first)
  {}
}
