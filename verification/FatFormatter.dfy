/** Formatting a device as FAT16 or FAT32 (lib/SdFat/src/FatLib/FatFormatter.cpp) against
    mounting it (FatPartition::init). The partition table and the boot sector are records; the
    file allocation tables are sectors, and are read back as the mounted volume reads them. */
module FatFormatter {
  import opened PartitionTable
  import opened SectorMap
  import opened FatTable
  import FatPartition

  const BU16: nat := 128
  const BU32: nat := 8192
  const SECTORS_PER_MB: nat := 2048
  const ROOT_ENTRIES: nat := 512
  const ROOT_SECTORS: nat := 32
  const MIN_FAT16: nat := 4085
  const MIN_FAT32: nat := 65525
  const BIG: nat := 0x40_0000

  datatype BootSector = BootSector(
    bytesPerSector: nat, sectorsPerCluster: nat, reservedSectorCount: nat, fatCount: nat,
    rootDirEntryCount: nat, totalSectors16: nat, totalSectors32: nat,
    sectorsPerFat16: nat, sectorsPerFat32: nat, rootCluster: nat)

  // ------------------------------------------------------------ the layout

  datatype Layout = Layout(
    fatType: nat, sectorsPerCluster: nat, clusterCount: nat, relativeSectors: nat,
    reserved: nat, fatSize: nat, dataStart: nat, totalSectors: nat) {

    function FatStart(): nat {
      relativeSectors + reserved
    }

    function RootSectors(): nat {
      if fatType == 16 then ROOT_SECTORS else 0
    }

    /** The regions of the volume follow each other without a gap and end inside the device; the
        table has room for every cluster and the two reserved entries. */
    predicate Sound(sectorCount: nat) {
      && (fatType == 16 || fatType == 32)
      && sectorsPerCluster in {2, 4, 8, 16, 32, 64, 128}
      && 0 < relativeSectors && (if fatType == 16 then reserved == 1 else 9 <= reserved < 0x1_0000)
      && FatStart() + 2 * fatSize + RootSectors() == dataStart
      && dataStart + clusterCount * sectorsPerCluster <= sectorCount < WORD
      && relativeSectors + totalSectors == dataStart + clusterCount * sectorsPerCluster
      && (if fatType == 16
          then MIN_FAT16 <= clusterCount < MIN_FAT32 && 0 < fatSize <= 256 && fatSize * 256 >= clusterCount + 2
          else MIN_FAT32 <= clusterCount < 0x0FFF_FFF0 && fatSize * 128 >= clusterCount + 2)
    }
  }

  /** The cluster sizes the formatter chooses. */
  predicate Suited(n: nat, spc: nat) {
    || (spc == 2 && 12288 < n <= 32768)
    || (spc == 4 && 32768 < n <= 65536)
    || (spc == 8 && 65536 < n <= 131072)
    || (spc == 16 && 131072 < n <= 262144)
    || (spc == 32 && 262144 < n <= 2097152)
    || (spc == 64 && 2097152 < n <= 67108864)
    || (spc == 128 && 67108864 < n < WORD)
  }

  function Clusters(n: nat, dataStart: nat, spc: nat): nat
    requires spc > 0
  {
    U32(n - dataStart) / spc
  }

  /** Sectors of a table of `clusters` entries and the reserved two, `perSector` in a sector. */
  function FatSectors(clusters: nat, perSector: nat): nat
    requires perSector > 0
  {
    U32(clusters + 2 + perSector - 1) / perSector
  }

  function Required16(fatSize: nat): nat {
    BU16 + 1 + 2 * fatSize + ROOT_SECTORS
  }

  /** Whether the FAT16 volume fits in front of a data area starting at `dataStart`. */
  predicate Enough16(n: nat, spc: nat, dataStart: nat)
    requires spc > 0
  {
    dataStart >= Required16(FatSectors(Clusters(n, dataStart, spc), 256))
  }

  predicate Enough32(n: nat, spc: nat, dataStart: nat)
    requires spc > 0
  {
    dataStart >= BU32 + 9 + 2 * FatSectors(Clusters(n, dataStart, spc), 128)
  }

  lemma Clusters16(n: nat, spc: nat, dataStart: nat)
    requires Suited(n, spc) && n < BIG && 256 <= dataStart <= 768
    ensures Clusters(n, dataStart, spc) == (n - dataStart) / spc
    ensures MIN_FAT16 <= Clusters(n, dataStart, spc) <= 65531
    ensures dataStart == 768 ==> Clusters(n, dataStart, spc) < MIN_FAT32
  {}

  /** The FAT16 search ends, after at most five steps, with a legal cluster count. */
  lemma Search16(n: nat, spc: nat, dataStart: nat)
    requires Suited(n, spc) && n < BIG && 256 <= dataStart <= 768 && dataStart % BU16 == 0
    ensures FatSectors(Clusters(n, dataStart, spc), 256) <= 256
    ensures dataStart == 768 ==> Enough16(n, spc, dataStart)
    ensures Enough16(n, spc, dataStart) ==> MIN_FAT16 <= Clusters(n, dataStart, spc) < MIN_FAT32
  {
    Clusters16(n, spc, dataStart);
  }

  lemma Clusters32(n: nat, spc: nat, dataStart: nat)
    requires Suited(n, spc) && BIG <= n && dataStart <= n
    ensures Clusters(n, dataStart, spc) == (n - dataStart) / spc <= n / 64 < 0x400_0000
    ensures FatSectors(Clusters(n, dataStart, spc), 128) == (Clusters(n, dataStart, spc) + 129) / 128
  {
    Small(n - dataStart);
    hide U32;
    Quotient32(n, spc, dataStart);
    var c := Clusters(n, dataStart, spc);
    assert c == (n - dataStart) / spc;
    hide Clusters;
    Small(c + 129);
    assert c + 2 + 128 - 1 == c + 129;
  }

  lemma Quotient32(n: nat, spc: nat, dataStart: nat)
    requires (spc == 64 || spc == 128) && dataStart <= n < WORD
    ensures (n - dataStart) / spc <= n / 64 < 0x400_0000
  {}

  /** A bound on where the FAT32 search can get. */
  function Last32(n: nat): nat {
    2 * BU32 + 9 + 2 * ((n / 64 + 129) / 128)
  }

  lemma Search32(n: nat, spc: nat, dataStart: nat)
    requires Suited(n, spc) && BIG <= n && dataStart <= Last32(n)
    ensures dataStart <= n
    ensures !Enough32(n, spc, dataStart) ==> dataStart + BU32 <= Last32(n)
  {
    Clusters32(n, spc, dataStart);
  }

  /** The clusters a search step gives up. */
  lemma NextSearch32(n: nat, spc: nat, dataStart: nat)
    requires Suited(n, spc) && BIG <= n && BU32 <= dataStart <= n
    ensures Clusters(n, dataStart, spc) <= Clusters(n, dataStart - BU32, spc) <= Clusters(n, dataStart, spc) + 129
    ensures 64 * Clusters(n, dataStart - BU32, spc) <= n
  {
    hide Clusters, FatSectors;
    Clusters32(n, spc, dataStart);
    Clusters32(n, spc, dataStart - BU32);
    var k := n - dataStart;
    if spc == 64 {
      assert (k + BU32) / 64 == k / 64 + 128;
    } else {
      assert (k + BU32) / 128 == k / 128 + 64;
    }
  }

  lemma LateSearch32(n: nat, spc: nat, dataStart: nat)
    requires Suited(n, spc) && BIG <= n && 2 * BU32 < dataStart <= Last32(n) && dataStart % BU32 == 0
    requires !Enough32(n, spc, dataStart - BU32)
    ensures Clusters(n, dataStart, spc) >= MIN_FAT32 && n >= 4209984
  {
    hide Clusters, FatSectors;
    var before := Clusters(n, dataStart - BU32, spc);
    Search32(n, spc, dataStart);
    NextSearch32(n, spc, dataStart);
    Clusters32(n, spc, dataStart - BU32);
    assert dataStart - BU32 >= 2 * BU32;
    assert (before + 129) / 128 >= 4092;
  }

  lemma EnoughClusters32(n: nat, spc: nat, dataStart: nat)
    requires Suited(n, spc) && BIG <= n && 2 * BU32 <= dataStart <= Last32(n) && dataStart % BU32 == 0
    requires dataStart > 2 * BU32 ==> !Enough32(n, spc, dataStart - BU32)
    ensures Clusters(n, dataStart, spc) >= MIN_FAT32 <==> n >= 4209984
  {
    hide FatSectors, Enough32, Clusters;
    if dataStart > 2 * BU32 {
      LateSearch32(n, spc, dataStart);
    } else {
      Clusters32(n, spc, dataStart);
      assert spc == 64 || spc == 128;
    }
  }

  /** Where the FAT32 search ends: how much is reserved in front of the tables, and exactly
      which devices have enough clusters. */
  lemma Found32(n: nat, spc: nat, dataStart: nat)
    requires Suited(n, spc) && BIG <= n && 2 * BU32 <= dataStart <= Last32(n) && dataStart % BU32 == 0
    requires Enough32(n, spc, dataStart) && (dataStart > 2 * BU32 ==> !Enough32(n, spc, dataStart - BU32))
    ensures var fatSize := FatSectors(Clusters(n, dataStart, spc), 128);
            9 <= dataStart - BU32 - 2 * fatSize < 0x1_0000
    ensures Clusters(n, dataStart, spc) >= MIN_FAT32 <==> n >= 4209984
  {
    EnoughClusters32(n, spc, dataStart);
    Search32(n, spc, dataStart);
    Clusters32(n, spc, dataStart);
    if dataStart > 2 * BU32 {
      NextSearch32(n, spc, dataStart);
      Clusters32(n, spc, dataStart - BU32);
    }
  }

  // ------------------------------------------------------------ the tables on the device

  function PerSector(fatType: nat): (n: nat)
    ensures n > 0
  {
    if fatType == 16 then 256 else 128
  }

  predicate OnDevice(device: seq<Sector>, fatStart: nat, fatType: nat, c: nat) {
    fatStart + c / PerSector(fatType) < |device|
  }

  /** An entry of the table as the mounted volume reads it. */
  function Entry(device: seq<Sector>, fatStart: nat, fatType: nat, c: nat): nat
    requires OnDevice(device, fatStart, fatType, c)
  {
    if fatType == 16 then
      var s, o := device[fatStart + c / 256], 2 * (c % 256);
      s[o] as int + 256 * s[o + 1] as int
    else
      var s, o := device[fatStart + c / 128], 4 * (c % 128);
      s[o] as int + 256 * s[o + 1] as int + 65536 * s[o + 2] as int + 16777216 * s[o + 3] as int
  }

  /** An entry is the number whose bytes lie at its place, the low one first. */
  lemma EntryReads(device: seq<Sector>, fatStart: nat, fatType: nat, c: nat, n: nat)
    requires (fatType == 16 && n < 0x1_0000) || (fatType == 32 && n < 0x1_0000_0000)
    requires var width := if fatType == 16 then 2 else 4;
             && fatStart + width * c / 512 < |device|
             && var s, o := device[fatStart + width * c / 512], width * c % 512;
                && s[o] as int == n % 0x100 && s[o + 1] as int == n / 0x100 % 0x100
                && (fatType == 32 ==> s[o + 2] as int == n / 0x1_0000 % 0x100 && s[o + 3] as int == n / 0x100_0000)
    ensures OnDevice(device, fatStart, fatType, c) && Entry(device, fatStart, fatType, c) == n
  {
    PlaceOfEntry(c);
    BytesOfNumber(n);
  }

  predicate HasTable(device: seq<Sector>, fatStart: nat, fatType: nat, size: nat) {
    forall c :: 0 <= c < size ==> OnDevice(device, fatStart, fatType, c)
  }

  function Table(device: seq<Sector>, fatStart: nat, fatType: nat, size: nat): (fat: seq<nat>)
    requires HasTable(device, fatStart, fatType, size)
    ensures |fat| == size
  {
    seq(size, c requires 0 <= c < size => Entry(device, fatStart, fatType, c))
  }

  /** The first sector of a fresh table: the reserved entries, and for FAT32 the root cluster. */
  function FirstSector(fatType: nat): Sector {
    var marked := if fatType == 16 then 4 else 12;
    seq(BYTES_PER_SECTOR, i requires 0 <= i < BYTES_PER_SECTOR => if i == 0 then 0xF8 else if i < marked then 0xFF else 0)
  }

  /** Two identical fresh tables, and zeros up to `last`. */
  predicate FreshTables(device: seq<Sector>, fatStart: nat, fatSize: nat, fatType: nat, last: nat) {
    && fatStart + fatSize < last <= |device|
    && forall i :: fatStart <= i < last ==> device[i] == FreshSector(fatStart, fatSize, fatType, i)
  }

  function FreshSector(fatStart: nat, fatSize: nat, fatType: nat, i: nat): Sector {
    if i == fatStart || i == fatStart + fatSize then FirstSector(fatType) else ZeroSector()
  }

  /** What a fresh table reads as. */
  function FreshEntry(fatType: nat, c: nat): nat {
    if fatType == 16 then (if c == 0 then 0xFFF8 else if c == 1 then 0xFFFF else 0)
    else (if c == 0 then 0xFFFF_FFF8 else if c <= 2 then 0xFFFF_FFFF else 0)
  }

  lemma FreshEntryIs(device: seq<Sector>, fatStart: nat, fatSize: nat, fatType: nat, last: nat, c: nat)
    requires FreshTables(device, fatStart, fatSize, fatType, last)
    requires fatType == 16 || fatType == 32
    requires c < fatSize * PerSector(fatType)
    ensures OnDevice(device, fatStart, fatType, c)
    ensures Entry(device, fatStart, fatType, c) == FreshEntry(fatType, c)
  {}

  function FreshChains(fatType: nat): Chains {
    if fatType == 32 then map[2 := [2]] else map[]
  }

  /** A fresh table is well formed: every entry is free, but for the root directory of FAT32. */
  lemma FreshTableWellFormed(device: seq<Sector>, l: Layout, sectorCount: nat, last: nat)
    requires l.Sound(sectorCount) && FreshTables(device, l.FatStart(), l.fatSize, l.fatType, last)
    ensures HasTable(device, l.FatStart(), l.fatType, l.clusterCount + 2)
    ensures var fat := Table(device, l.FatStart(), l.fatType, l.clusterCount + 2);
            && WellFormed(fat, FreshChains(l.fatType))
            && (forall c :: 0 <= c < |fat| ==> fat[c] == FreshEntry(l.fatType, c))
            && fat[0] != 0 && fat[1] != 0
  {
    hide Entry, FirstSector, FreshTables, OnDevice;
    var n := l.clusterCount + 2;
    forall c: nat | c < n
      ensures OnDevice(device, l.FatStart(), l.fatType, c)
      ensures Entry(device, l.FatStart(), l.fatType, c) == FreshEntry(l.fatType, c)
    {
      FreshEntryIs(device, l.FatStart(), l.fatSize, l.fatType, last, c);
    }
    FreshIsWellFormed(Table(device, l.FatStart(), l.fatType, n), l.fatType);
  }

  lemma FreshIsWellFormed(fat: seq<nat>, fatType: nat)
    requires fatType == 16 || fatType == 32
    requires MIN_FAT16 <= |fat| < 0x0FFF_FFF8
    requires forall c :: 0 <= c < |fat| ==> fat[c] == FreshEntry(fatType, c)
    ensures WellFormed(fat, FreshChains(fatType))
  {
    var chains := FreshChains(fatType);
    forall c | InTable(fat, c) && fat[c] != 0 ensures Owned(chains, c) {
      assert Owns(chains, 2, c);
    }
  }

  // ------------------------------------------------------------ mounting

  /** A mounted volume. */
  datatype Volume = Volume(
    fatType: nat, sectorsPerCluster: nat, shift: nat, sectorsPerFat: nat, fatStart: nat,
    rootEntries: nat, rootDirStart: nat, dataStart: nat, lastCluster: nat)

  lemma Powers()
    ensures Pow2(0) == 1 && Pow2(1) == 2 && Pow2(2) == 4 && Pow2(3) == 8 && Pow2(4) == 16
    ensures Pow2(5) == 32 && Pow2(6) == 64 && Pow2(7) == 128 && Pow2(8) == 256
  {
    assert Pow2(2) == 4;
    assert Pow2(4) == 16;
    assert Pow2(6) == 64;
  }

  /** The state of the search for the shift: which powers of two were tried in vain. */
  predicate Tried(spc: nat, shift: nat, tmp: nat) {
    || (shift == 0 && tmp == 1)
    || (shift == 1 && tmp == 2 && spc != 1)
    || (shift == 2 && tmp == 4 && spc !in {1, 2})
    || (shift == 3 && tmp == 8 && spc !in {1, 2, 4})
    || (shift == 4 && tmp == 16 && spc !in {1, 2, 4, 8})
    || (shift == 5 && tmp == 32 && spc !in {1, 2, 4, 8, 16})
    || (shift == 6 && tmp == 64 && spc !in {1, 2, 4, 8, 16, 32})
    || (shift == 7 && tmp == 128 && spc !in {1, 2, 4, 8, 16, 32, 64})
    || (shift == 8 && tmp == 0 && spc !in {1, 2, 4, 8, 16, 32, 64, 128})
  }

  /** The shift that multiplies by the cluster size. Sizes that are not powers of two are
      refused, but zero is taken for 256. */
  method FindShift(spc: nat) returns (ok: bool, shift: nat)
    requires spc < 256
    ensures ok <==> spc in {0, 1, 2, 4, 8, 16, 32, 64, 128}
    ensures ok ==> Pow2(shift) == if spc == 0 then 256 else spc
  {
    Powers();
    var tmp: nat := 1;
    shift := 0;
    while spc != tmp
      invariant Tried(spc, shift, tmp)
      decreases 8 - shift
    {
      if tmp == 0 {
        return false, shift;
      }
      tmp := (tmp * 2) % 256;
      shift := shift + 1;
    }
    return true, shift;
  }

  /** What mounting makes of a boot sector; nothing when it refuses. */
  datatype Mounted = Refused | Volumed(volume: Volume)

  /** Values are read as stored and computed in 32 bits. */
  function MountedFrom(pbs: BootSector, start: nat, shift: nat): Mounted {
    var sectorsPerFat := if pbs.sectorsPerFat16 == 0 then pbs.sectorsPerFat32 else pbs.sectorsPerFat16;
    var fatStart := U32(start + pbs.reservedSectorCount);
    var rootDirStart := U32(fatStart + 2 * sectorsPerFat);
    var dataStart := U32(rootDirStart + (32 * pbs.rootDirEntryCount + BYTES_PER_SECTOR - 1) / BYTES_PER_SECTOR);
    var total := if pbs.totalSectors16 == 0 then pbs.totalSectors32 else pbs.totalSectors16;
    var count := U32(total - (dataStart - start)) / Pow2(shift);
    if pbs.fatCount != 2 || pbs.bytesPerSector != BYTES_PER_SECTOR || count < MIN_FAT16 then Refused
    else if count < MIN_FAT32 then
      Volumed(Volume(16, pbs.sectorsPerCluster, shift, sectorsPerFat, fatStart, pbs.rootDirEntryCount, rootDirStart, dataStart, count + 1))
    else
      Volumed(Volume(32, pbs.sectorsPerCluster, shift, sectorsPerFat, fatStart, pbs.rootDirEntryCount, pbs.rootCluster, dataStart, count + 1))
  }

  /** The boot sector written for a layout, with its 16-bit fields. */
  function BootOf(l: Layout): BootSector {
    BootSector(BYTES_PER_SECTOR, l.sectorsPerCluster, l.reserved % 0x1_0000, 2,
               if l.fatType == 16 then ROOT_ENTRIES else 0, 0, l.totalSectors,
               if l.fatType == 16 then l.fatSize % 0x1_0000 else 0,
               if l.fatType == 16 then 0 else l.fatSize,
               if l.fatType == 16 then 0 else 2)
  }

  /** The mounted volume of a layout is the one that was laid out. */
  function VolumeOf(l: Layout, shift: nat): Volume {
    Volume(l.fatType, l.sectorsPerCluster, shift, l.fatSize, l.FatStart(),
           if l.fatType == 16 then ROOT_ENTRIES else 0,
           if l.fatType == 16 then l.FatStart() + 2 * l.fatSize else 2,
           l.dataStart, l.clusterCount + 1)
  }

  lemma Small(n: int)
    requires 0 <= n < WORD
    ensures U32(n) == n
  {}

  lemma DivideBack(count: nat, size: nat)
    requires size > 0
    ensures (count * size) / size == count && count <= count * size
  {
    DivUnique(count * size, size, count, 0);
  }

  /** Mounting recovers the type, the cluster count and every start that formatting chose. */
  lemma MountRecoversLayout(l: Layout, sectorCount: nat, shift: nat)
    requires l.Sound(sectorCount) && Pow2(shift) == l.sectorsPerCluster
    ensures MountedFrom(BootOf(l), l.relativeSectors, shift) == Volumed(VolumeOf(l, shift))
  {
    hide U32, Pow2;
    var data := l.clusterCount * l.sectorsPerCluster;
    DivideBack(l.clusterCount, l.sectorsPerCluster);
    Small(l.FatStart());
    Small(l.FatStart() + 2 * l.fatSize);
    Small(l.dataStart);
    Small(data);
    var pbs := BootOf(l);
    assert pbs.reservedSectorCount == l.reserved;
    assert l.totalSectors - (l.dataStart - l.relativeSectors) == data;
    if l.fatType == 16 {
      assert pbs.sectorsPerFat16 == l.fatSize;
    } else {
      assert l.fatSize > 0;
    }
  }

  /** What a mounted volume is, in numbers: its type depends on the number of its clusters alone. */
  ghost predicate Means(pbs: BootSector, start: nat, spc: nat, m: Mounted)
    requires spc > 0
  {
    var fat := if pbs.sectorsPerFat16 != 0 then pbs.sectorsPerFat16 else pbs.sectorsPerFat32;
    var total := if pbs.totalSectors16 != 0 then pbs.totalSectors16 else pbs.totalSectors32;
    var front := pbs.reservedSectorCount + 2 * fat + (32 * pbs.rootDirEntryCount + 511) / 512;
    front <= total && start + total <= 0xFFFF_FFFF ==>
      var count := (total - front) / spc;
      if pbs.fatCount != 2 || pbs.bytesPerSector != 512 || count < 4085 then m == Refused
      else
        && m.Volumed?
        && m.volume == Volume(if count < 65525 then 16 else 32, pbs.sectorsPerCluster, m.volume.shift, fat,
                              start + pbs.reservedSectorCount, pbs.rootDirEntryCount,
                              if count < 65525 then start + pbs.reservedSectorCount + 2 * fat else pbs.rootCluster,
                              start + front, count + 1)
  }

  lemma MountMeans(pbs: BootSector, start: nat, shift: nat)
    ensures Means(pbs, start, Pow2(shift), MountedFrom(pbs, start, shift))
  {
    hide Pow2, U32;
    var fat := if pbs.sectorsPerFat16 != 0 then pbs.sectorsPerFat16 else pbs.sectorsPerFat32;
    var total := if pbs.totalSectors16 != 0 then pbs.totalSectors16 else pbs.totalSectors32;
    var front := pbs.reservedSectorCount + 2 * fat + (32 * pbs.rootDirEntryCount + 511) / 512;
    if front <= total && start + total <= 0xFFFF_FFFF {
      Small(start + pbs.reservedSectorCount);
      Small(start + pbs.reservedSectorCount + 2 * fat);
      Small(start + front);
      Small(total - front);
    }
  }

  lemma OneExponent(a: nat)
    ensures forall b: nat :: Pow2(b) == Pow2(a) ==> b == a
  {
    forall b: nat | Pow2(b) == Pow2(a) ensures b == a {
      PowersRise(a, b);
      PowersRise(b, a);
    }
  }

  lemma {:induction false} PowersRise(a: nat, b: nat)
    ensures a < b ==> Pow2(a) < Pow2(b)
    decreases b
  {
    if a < b {
      PowersRise(a, b - 1);
    }
  }

  lemma BadSectorRefused(pbs: BootSector, start: nat, shift: nat)
    ensures pbs.fatCount != 2 || pbs.bytesPerSector != 512 ==> MountedFrom(pbs, start, shift) == Refused
  {}

  /** Mounting partition `part` of a device, or with `part` 0 the boot sector at `start`. */
  method Mount(mbr: seq<PartitionEntry>, boot: map<nat, BootSector>, part: nat, start: nat) returns (m: Mounted)
    requires |mbr| == 4
    requires var at := VolumeStart(mbr, part, start); at in boot ==> boot[at].sectorsPerCluster < 256
    ensures var at := VolumeStart(mbr, part, start);
            if !Selectable(mbr, part) || at !in boot || boot[at].sectorsPerCluster !in {0, 1, 2, 4, 8, 16, 32, 64, 128}
            then m == Refused
            else forall shift: nat ::
                   Pow2(shift) == (if boot[at].sectorsPerCluster == 0 then 256 else boot[at].sectorsPerCluster)
                   ==> m == MountedFrom(boot[at], at, shift)
    ensures var at := VolumeStart(mbr, part, start);
            Selectable(mbr, part) && at in boot && boot[at].sectorsPerCluster in {0, 1, 2, 4, 8, 16, 32, 64, 128} ==>
              Means(boot[at], at, if boot[at].sectorsPerCluster == 0 then 256 else boot[at].sectorsPerCluster, m)
  {
    hide Means, MountedFrom, Pow2;
    var found, at := Select(mbr, part, start);
    if !found || at !in boot {
      return Refused;
    }
    var pbs := boot[at];
    var ok, shift := FindShift(pbs.sectorsPerCluster);
    if ok {
      OneExponent(shift);
      MountMeans(pbs, at, shift);
      BadSectorRefused(pbs, at, shift);
    }
    if pbs.fatCount != 2 || pbs.bytesPerSector != BYTES_PER_SECTOR || !ok {
      return Refused;
    }
    return MountedFrom(pbs, at, shift);
  }

  /** A boot sector that stores no sectors per cluster at all mounts, with clusters of 256. */
  method MountsClusterSizeZero() returns (m: Mounted)
    ensures m.Volumed? && m.volume.sectorsPerCluster == 0 && m.volume.lastCluster == 5001
  {
    hide MountedFrom;
    var none := NoPartition();
    var pbs := BootSector(BYTES_PER_SECTOR, 0, 1, 2, 0, 0, 41 + 256 * 5000, 20, 0, 0);
    Powers();
    ZeroSizeCounts(pbs);
    m := Mount([none, none, none, none], map[0 := pbs], 0, 0);
    assert m == MountedFrom(pbs, 0, 8);
  }

  lemma ZeroSizeCounts(pbs: BootSector)
    requires pbs == BootSector(BYTES_PER_SECTOR, 0, 1, 2, 0, 0, 41 + 256 * 5000, 20, 0, 0) && Pow2(8) == 256
    ensures MountedFrom(pbs, 0, 8) == Volumed(Volume(16, 0, 8, 20, 1, 0, 41, 41, 5001))
  {}

  /** Which devices the formatter accepts: the small ones as FAT16; between 4194304 and 4209983
      sectors neither type fits, and the largest 2047 devices count as zero megabytes. */
  predicate Formattable(n: nat) {
    12288 < n < 0x40_0000 || 4209984 <= n <= 0xFFFF_F800
  }

  // ------------------------------------------------------------ the result in numbers

  /** The sizes of a FAT16 volume, its partition entry and its boot sector. The data area starts at the
      first multiple of 128 sectors in front of which the tables and the root directory have room. */
  ghost predicate Described16(n: nat, l: Layout, mbr: PartitionEntry, pbs: BootSector) {
    && l.fatType == 16
    && l.sectorsPerCluster == (if n <= 32768 then 2 else if n <= 65536 then 4 else if n <= 131072 then 8
                               else if n <= 262144 then 16 else if n <= 2097152 then 32 else 64)
    && l.dataStart >= 256 && l.dataStart % 128 == 0 && FitsAt(n, l.sectorsPerCluster, l.dataStart, 256, 161)
    && (forall d :: 256 <= d < l.dataStart && d % 128 == 0 ==> !FitsAt(n, l.sectorsPerCluster, d, 256, 161))
    && l.clusterCount == (n - l.dataStart) / l.sectorsPerCluster
    && l.fatSize == (l.clusterCount + 2 + 255) / 256
    && l.reserved == 1 && l.relativeSectors + 1 + 2 * l.fatSize + 32 == l.dataStart
    && l.totalSectors == l.clusterCount * l.sectorsPerCluster + 2 * l.fatSize + 33
    && mbr == PartitionEntry(if l.totalSectors < 65536 then 0x04 else 0x06, 0, l.relativeSectors, l.totalSectors)
    && pbs == BootSector(512, l.sectorsPerCluster, 1, 2, 512, 0, l.totalSectors, l.fatSize, 0, 0)
  }

  /** The same for FAT32, with multiples of 8192; what the tables leave over is reserved. */
  ghost predicate Described32(n: nat, l: Layout, mbr: PartitionEntry, pbs: BootSector) {
    && l.fatType == 32 && l.sectorsPerCluster == (if n <= 67108864 then 64 else 128)
    && 16384 <= l.dataStart <= n && l.dataStart % 8192 == 0 && FitsAt(n, l.sectorsPerCluster, l.dataStart, 128, 8201)
    && (forall d :: 16384 <= d < l.dataStart && d % 8192 == 0 ==> !FitsAt(n, l.sectorsPerCluster, d, 128, 8201))
    && l.clusterCount == (n - l.dataStart) / l.sectorsPerCluster
    && l.fatSize == (l.clusterCount + 2 + 127) / 128
    && l.relativeSectors == 8192 && 8192 + l.reserved + 2 * l.fatSize == l.dataStart
    && l.totalSectors == l.clusterCount * l.sectorsPerCluster + l.dataStart - 8192
    && mbr == PartitionEntry(if 8192 + l.totalSectors <= 16450560 then 0x0B else 0x0C, 0, 8192, l.totalSectors)
    && pbs == BootSector(512, l.sectorsPerCluster, l.reserved, 2, 0, 0, l.totalSectors, 0, l.fatSize, 2)
  }

  /** Two tables with `perSector` entries in a sector, and `more` sectors, fit in front of sector d. */
  predicate FitsAt(n: nat, spc: nat, d: nat, perSector: nat, more: nat) {
    spc > 0 && perSector > 0 && d <= n && d >= more + 2 * (((n - d) / spc + 1 + perSector) / perSector)
  }

  lemma SuitedIs(n: nat, spc: nat)
    requires Suited(n, spc)
    ensures n < BIG ==>
              spc == if n <= 32768 then 2 else if n <= 65536 then 4 else if n <= 131072 then 8
                     else if n <= 262144 then 16 else if n <= 2097152 then 32 else 64
    ensures n >= BIG ==> spc == if n <= 67108864 then 64 else 128
  {}

  lemma Sizes16(n: nat, spc: nat, d: nat)
    requires Suited(n, spc) && n < BIG && 256 <= d <= 768
    ensures d <= n && spc > 0 && Clusters(n, d, spc) == (n - d) / spc < 65532
    ensures FatSectors(Clusters(n, d, spc), 256) == (Clusters(n, d, spc) + 257) / 256
  {
    Clusters16(n, spc, d);
    hide Clusters;
    Small(Clusters(n, d, spc) + 257);
  }

  lemma FitsIsEnough16(n: nat, spc: nat, d: nat)
    requires Suited(n, spc) && n < BIG && 256 <= d <= 768
    ensures FitsAt(n, spc, d, 256, 161) <==> Enough16(n, spc, d)
  {
    hide Clusters, FatSectors, Suited;
    Sizes16(n, spc, d);
  }

  lemma Describes16(n: nat, l: Layout, mbr: PartitionEntry)
    requires Suited(n, l.sectorsPerCluster) && n < BIG && 256 <= l.dataStart <= 768 && l.dataStart % BU16 == 0
    requires Enough16(n, l.sectorsPerCluster, l.dataStart)
    requires forall d :: 256 <= d < l.dataStart && d % BU16 == 0 ==> !Enough16(n, l.sectorsPerCluster, d)
    requires var nc := Clusters(n, l.dataStart, l.sectorsPerCluster);
             var size := FatSectors(nc, 256);
             l == Layout(16, l.sectorsPerCluster, nc, l.dataStart - Required16(size) + BU16, 1, size, l.dataStart,
                         nc * l.sectorsPerCluster + 2 * size + 1 + ROOT_SECTORS)
    requires mbr == PartitionEntry(if l.totalSectors < 65536 then 0x04 else 0x06, 0, l.relativeSectors, l.totalSectors)
    ensures Described16(n, l, mbr, BootOf(l))
  {
    hide Clusters, FatSectors, Suited, Enough16, FitsAt;
    SuitedIs(n, l.sectorsPerCluster);
    Sizes16(n, l.sectorsPerCluster, l.dataStart);
    FitsIsEnough16(n, l.sectorsPerCluster, l.dataStart);
    forall d | 256 <= d < l.dataStart && d % 128 == 0 ensures !FitsAt(n, l.sectorsPerCluster, d, 256, 161) {
      FitsIsEnough16(n, l.sectorsPerCluster, d);
    }
  }

  lemma FitsIsEnough32(n: nat, spc: nat, d: nat)
    requires Suited(n, spc) && BIG <= n && d <= Last32(n)
    ensures d <= n && (FitsAt(n, spc, d, 128, 8201) <==> Enough32(n, spc, d))
  {
    hide Clusters, FatSectors;
    Search32(n, spc, d);
    Clusters32(n, spc, d);
  }

  lemma Describes32(n: nat, l: Layout, mbr: PartitionEntry)
    requires Suited(n, l.sectorsPerCluster) && BIG <= n && 2 * BU32 <= l.dataStart <= Last32(n) && l.dataStart % BU32 == 0
    requires Enough32(n, l.sectorsPerCluster, l.dataStart) && l.reserved < 0x1_0000
    requires forall d :: 2 * BU32 <= d < l.dataStart && d % BU32 == 0 ==> !Enough32(n, l.sectorsPerCluster, d)
    requires var nc := Clusters(n, l.dataStart, l.sectorsPerCluster);
             var size := FatSectors(nc, 128);
             && l.dataStart - BU32 - 2 * size >= 0
             && l == Layout(32, l.sectorsPerCluster, nc, BU32, l.dataStart - BU32 - 2 * size, size, l.dataStart,
                            nc * l.sectorsPerCluster + l.dataStart - BU32)
    requires mbr == PartitionEntry(if BU32 + l.totalSectors <= 16450560 then 0x0B else 0x0C, 0, BU32, l.totalSectors)
    ensures Described32(n, l, mbr, BootOf(l))
  {
    hide Clusters, FatSectors, Suited, Enough32, FitsAt, Last32;
    SuitedIs(n, l.sectorsPerCluster);
    FitsIsEnough32(n, l.sectorsPerCluster, l.dataStart);
    Clusters32(n, l.sectorsPerCluster, l.dataStart);
    forall d | 16384 <= d < l.dataStart && d % 8192 == 0 ensures !FitsAt(n, l.sectorsPerCluster, d, 128, 8201) {
      FitsIsEnough32(n, l.sectorsPerCluster, d);
    }
  }

  class Formatter {
    const device: array<Sector>
    var mbr: PartitionEntry
    var boot: map<nat, BootSector>
    var sectorsPerCluster: nat
    var relativeSectors: nat
    var reserved: nat
    var fatSize: nat
    var fatStart: nat
    var dataStart: nat
    var totalSectors: nat
    var partType: nat
    ghost var layout: Layout

    constructor (sectors: array<Sector>)
      ensures device == sectors
    {
      device := sectors;
    }

    /** Zeros the tables and what follows them, and marks the first entries of both tables. */
    method InitFatDir(fatType: nat, count: nat)
      requires count >= 32 && fatSize > 0 && fatSize < count && fatStart + count <= device.Length
      modifies device
      ensures FreshTables(device[..], fatStart, fatSize, fatType, fatStart + count)
      ensures forall i, j :: fatStart <= i < fatStart + fatSize && j == i + fatSize < fatStart + count ==> device[j] == device[i]
      ensures forall i, o :: fatStart < i < fatStart + count && i != fatStart + fatSize && 0 <= o < 512 ==> device[i][o] == 0
      ensures forall i :: 0 <= i < device.Length && !(fatStart <= i < fatStart + count) ==> device[i] == old(device[i])
    {
      var i := 1;
      while i < count
        invariant 1 <= i <= count
        invariant forall k :: fatStart < k < fatStart + i ==> device[k] == ZeroSector()
        invariant forall k :: 0 <= k < device.Length && !(fatStart < k < fatStart + i) ==> device[k] == old(device[k])
      {
        device[fatStart + i] := ZeroSector();
        var dot := i % (count / 32) == 0;
        i := i + 1;
      }
      device[fatStart] := FirstSector(fatType);
      device[fatStart + fatSize] := FirstSector(fatType);
    }

    /** What a successful format leaves on the device. */
    ghost predicate Formatted()
      reads this, device
    {
      var l := layout;
      && l.Sound(device.Length)
      && mbr.kind != 0 && mbr.boot == 0 && mbr.relativeSectors == l.relativeSectors && mbr.totalSectors == l.totalSectors
      && l.relativeSectors in boot && boot[l.relativeSectors] == BootOf(l)
      && (l.fatType == 32 ==> l.relativeSectors + 6 in boot && boot[l.relativeSectors + 6] == BootOf(l))
      && FreshTables(device[..], l.FatStart(), l.fatSize, l.fatType,
                     if l.fatType == 16 then l.dataStart else l.dataStart + l.sectorsPerCluster)
    }

    method WriteMbr()
      modifies this`mbr
      ensures mbr == PartitionEntry(partType, 0, relativeSectors, totalSectors)
    {
      mbr := PartitionEntry(partType, 0, relativeSectors, totalSectors);
    }

    /** The search for the FAT16 layout. */
    method LayOut16() returns (nc: nat)
      requires Suited(device.Length, sectorsPerCluster) && sectorsPerCluster > 0 && device.Length < BIG
      modifies this`dataStart, this`fatSize, this`relativeSectors
      ensures MIN_FAT16 <= nc < MIN_FAT32
      ensures nc == Clusters(device.Length, dataStart, sectorsPerCluster) && fatSize == FatSectors(nc, 256)
      ensures relativeSectors == dataStart - Required16(fatSize) + BU16
      ensures 256 <= dataStart <= 768 && dataStart % BU16 == 0 && Enough16(device.Length, sectorsPerCluster, dataStart)
      ensures forall d :: 256 <= d < dataStart && d % BU16 == 0 ==> !Enough16(device.Length, sectorsPerCluster, d)
    {
      hide Suited, Clusters, FatSectors, Required16;
      dataStart := 2 * BU16;
      while true
        invariant 256 <= dataStart <= 768 && dataStart % BU16 == 0
        invariant forall d :: 256 <= d < dataStart && d % BU16 == 0 ==> !Enough16(device.Length, sectorsPerCluster, d)
        decreases 768 - dataStart
      {
        nc := Clusters(device.Length, dataStart, sectorsPerCluster);
        fatSize := FatSectors(nc, 256);
        Search16(device.Length, sectorsPerCluster, dataStart);
        var r := Required16(fatSize);
        if dataStart >= r {
          relativeSectors := dataStart - r + BU16;
          break;
        }
        dataStart := dataStart + BU16;
      }
    }

    /** The search for the FAT32 layout. */
    method LayOut32() returns (nc: nat)
      requires Suited(device.Length, sectorsPerCluster) && sectorsPerCluster > 0 && device.Length >= BIG
      modifies this`dataStart, this`fatSize, this`relativeSectors
      ensures relativeSectors == BU32
      ensures nc == Clusters(device.Length, dataStart, sectorsPerCluster) && fatSize == FatSectors(nc, 128)
      ensures 2 * BU32 <= dataStart <= Last32(device.Length) && dataStart % BU32 == 0
      ensures Enough32(device.Length, sectorsPerCluster, dataStart)
      ensures forall d :: 2 * BU32 <= d < dataStart && d % BU32 == 0 ==> !Enough32(device.Length, sectorsPerCluster, d)
    {
      hide Suited, Clusters, FatSectors;
      relativeSectors := BU32;
      dataStart := 2 * BU32;
      while true
        invariant 2 * BU32 <= dataStart <= Last32(device.Length) && dataStart % BU32 == 0
        invariant relativeSectors == BU32
        invariant forall d :: 2 * BU32 <= d < dataStart && d % BU32 == 0 ==> !Enough32(device.Length, sectorsPerCluster, d)
        decreases Last32(device.Length) - dataStart
      {
        nc := Clusters(device.Length, dataStart, sectorsPerCluster);
        fatSize := FatSectors(nc, 128);
        Search32(device.Length, sectorsPerCluster, dataStart);
        var r := relativeSectors + 9 + 2 * fatSize;
        if dataStart >= r {
          break;
        }
        dataStart := dataStart + BU32;
      }
    }

    /** Lays out and writes a FAT16 volume; the cluster count is always legal. */
    method MakeFat16() returns (ok: bool)
      requires Suited(device.Length, sectorsPerCluster) && sectorsPerCluster > 0 && device.Length < BIG
      modifies this, device
      ensures ok && Formatted() && Described16(device.Length, layout, mbr, boot[layout.relativeSectors])
    {
      hide Clusters, FatSectors, FreshTables, BootOf, Suited, Enough16, Layout.Sound;
      var nc := LayOut16();
      if nc < MIN_FAT16 || nc >= MIN_FAT32 {
        ok := false;
        return;
      }
      Sound16(device.Length, sectorsPerCluster, dataStart);
      WriteFat16(nc);
      Describes16(device.Length, layout, mbr);
      ok := true;
    }

    /** The second half of makeFat16, once the layout is known to fit. */
    method WriteFat16(nc: nat)
      requires Layout(16, sectorsPerCluster, nc, relativeSectors, 1, fatSize, dataStart,
                      nc * sectorsPerCluster + 2 * fatSize + 1 + ROOT_SECTORS).Sound(device.Length)
      requires 0 < fatSize && relativeSectors + 1 + 2 * fatSize + ROOT_SECTORS == dataStart <= device.Length
      modifies this, device
      ensures Formatted()
      ensures layout == Layout(16, old(sectorsPerCluster), nc, old(relativeSectors), 1, old(fatSize), old(dataStart),
                               nc * old(sectorsPerCluster) + 2 * old(fatSize) + 1 + ROOT_SECTORS)
      ensures mbr.kind == if layout.totalSectors < 65536 then 0x04 else 0x06
    {
      hide FreshTables, BootOf, Layout.Sound;
      reserved := 1;
      fatStart := relativeSectors + reserved;
      totalSectors := nc * sectorsPerCluster + 2 * fatSize + reserved + ROOT_SECTORS;
      partType := if totalSectors < 65536 then 0x04 else 0x06;
      WriteMbr();
      var l := Layout(16, sectorsPerCluster, nc, relativeSectors, reserved, fatSize, dataStart, totalSectors);
      boot := boot[relativeSectors := BootOf(l)];
      layout := l;
      InitFatDir(16, dataStart - fatStart);
    }

    method MakeFat32() returns (ok: bool)
      requires Suited(device.Length, sectorsPerCluster) && sectorsPerCluster > 0 && device.Length >= BIG
      modifies this, device
      ensures ok <==> device.Length >= 4209984
      ensures ok ==> Formatted() && Described32(device.Length, layout, mbr, boot[layout.relativeSectors])
      ensures !ok ==> device[..] == old(device[..]) && mbr == old(mbr) && boot == old(boot)
    {
      hide Clusters, FatSectors, FreshTables, BootOf, Enough32, Suited, Layout.Sound;
      var nc := LayOut32();
      assert dataStart > 2 * BU32 ==> !Enough32(device.Length, sectorsPerCluster, dataStart - BU32);
      Found32(device.Length, sectorsPerCluster, dataStart);
      if nc < MIN_FAT32 {
        return false;
      }
      Sound32(device.Length, sectorsPerCluster, dataStart);
      WriteFat32(nc);
      Describes32(device.Length, layout, mbr);
      ok := true;
    }

    /** The second half of makeFat32, once the layout is known to fit. */
    method WriteFat32(nc: nat)
      requires var gap := dataStart - relativeSectors - 2 * fatSize;
               && gap >= 0 && relativeSectors == BU32
               && Layout(32, sectorsPerCluster, nc, BU32, gap, fatSize, dataStart,
                         nc * sectorsPerCluster + dataStart - BU32).Sound(device.Length)
      requires 0 < fatSize && dataStart + sectorsPerCluster <= device.Length && sectorsPerCluster >= 64
      modifies this, device
      ensures Formatted()
      ensures var gap := old(dataStart) - old(relativeSectors) - 2 * old(fatSize);
              gap >= 0 && layout == Layout(32, old(sectorsPerCluster), nc, BU32, gap, old(fatSize), old(dataStart),
                                           nc * old(sectorsPerCluster) + old(dataStart) - BU32)
      ensures mbr.kind == if BU32 + layout.totalSectors <= 16450560 then 0x0B else 0x0C
    {
      hide FreshTables, BootOf, Layout.Sound;
      reserved := dataStart - relativeSectors - 2 * fatSize;
      fatStart := relativeSectors + reserved;
      totalSectors := nc * sectorsPerCluster + dataStart - relativeSectors;
      partType := if relativeSectors + totalSectors <= 16450560 then 0x0B else 0x0C;
      WriteMbr();
      var l := Layout(32, sectorsPerCluster, nc, relativeSectors, reserved, fatSize, dataStart, totalSectors);
      boot := boot[relativeSectors := BootOf(l)][relativeSectors + 6 := BootOf(l)];
      layout := l;
      InitFatDir(32, 2 * fatSize + sectorsPerCluster);
    }

    /** Formats the device, if it has an acceptable size. */
    method Format() returns (ok: bool)
      requires device.Length < WORD
      modifies this, device
      ensures ok <==> Formattable(device.Length)
      ensures ok ==> Formatted()
      ensures ok && device.Length < 0x40_0000 ==> Described16(device.Length, layout, mbr, boot[layout.relativeSectors])
      ensures ok && device.Length >= 0x40_0000 ==>
                && Described32(device.Length, layout, mbr, boot[layout.relativeSectors])
                && boot[8192 + 6] == boot[8192]
    {
      var capacity := U32(device.Length + SECTORS_PER_MB - 1) / SECTORS_PER_MB;
      if capacity <= 6 {
        return false;
      } else if capacity <= 16 {
        sectorsPerCluster := 2;
      } else if capacity <= 32 {
        sectorsPerCluster := 4;
      } else if capacity <= 64 {
        sectorsPerCluster := 8;
      } else if capacity <= 128 {
        sectorsPerCluster := 16;
      } else if capacity <= 1024 {
        sectorsPerCluster := 32;
      } else if capacity <= 32768 {
        sectorsPerCluster := 64;
      } else {
        sectorsPerCluster := 128;
      }
      if device.Length < BIG {
        ok := MakeFat16();
      } else {
        ok := MakeFat32();
      }
    }

    /** Formatting and then mounting gives a volume whose table is well formed, empty but for the
        root directory of FAT32, and whose clusters all lie on the device. */
    method FormatAndMount() returns (p: FatPartition.Partition)
      requires device.Length < WORD && Formattable(device.Length)
      modifies this, device
      ensures fresh(p) && p.Consistent()
      ensures p.chains == FreshChains(p.fatType) && p.fatType == if device.Length < BIG then 16 else 32
      ensures forall c :: 2 <= c < |p.fat| ==> p.fat[c] == FreshEntry(p.fatType, c)
      ensures p.geometry == Geometry(layout.dataStart, layout.sectorsPerCluster)
      ensures |p.fat| == layout.clusterCount + 2
      ensures p.sectors == device[..] && p.allocSearchStart == 1 && layout.Sound(device.Length)
    {
      hide FreshTables, OnDevice, Layout.Sound, MountedFrom, Pow2, BootOf, Formattable;
      var ok := Format();
      BootFits(layout, device.Length);
      var none := NoPartition();
      Powers();
      var m := Mount([mbr, none, none, none], boot, 1, 0);
      p := ReadVolume(m.volume);
    }

    /** What a mount decodes of the table of a fresh volume. */
    method ReadVolume(v: Volume) returns (p: FatPartition.Partition)
      requires layout.Sound(device.Length) && v == VolumeOf(layout, v.shift)
      requires var last := if layout.fatType == 16 then layout.dataStart else layout.dataStart + layout.sectorsPerCluster;
               FreshTables(device[..], layout.FatStart(), layout.fatSize, layout.fatType, last)
      ensures fresh(p) && p.Consistent() && p.fatType == layout.fatType && p.chains == FreshChains(p.fatType)
      ensures |p.fat| == layout.clusterCount + 2 && forall c :: 2 <= c < |p.fat| ==> p.fat[c] == FreshEntry(p.fatType, c)
      ensures p.geometry == Geometry(layout.dataStart, layout.sectorsPerCluster)
      ensures p.sectors == device[..] && p.allocSearchStart == 1
    {
      hide FreshTables, Entry, OnDevice, Layout.Sound, Table, WellFormed, FreshEntry, FreshChains;
      ghost var last := if layout.fatType == 16 then layout.dataStart else layout.dataStart + layout.sectorsPerCluster;
      BootFits(layout, device.Length);
      ClustersOnDevice(layout, device[..]);
      FreshTableWellFormed(device[..], layout, device.Length, last);
      var fat := Table(device[..], v.fatStart, v.fatType, v.lastCluster + 1);
      p := new FatPartition.Partition.Init(v.fatType, Geometry(v.dataStart, v.sectorsPerCluster), fat, device[..],
                                           FreshChains(v.fatType));
    }
  }

  lemma BootFits(l: Layout, sectorCount: nat)
    requires l.Sound(sectorCount)
    ensures BootOf(l).sectorsPerCluster == l.sectorsPerCluster
    ensures l.sectorsPerCluster in {2, 4, 8, 16, 32, 64, 128}
    ensures forall shift :: Pow2(shift) == l.sectorsPerCluster ==>
              MountedFrom(BootOf(l), l.relativeSectors, shift) == Volumed(VolumeOf(l, shift))
    ensures l.fatType == 16 || l.fatType == 32
    ensures l.fatType == 16 ==> l.clusterCount + 2 <= 0xFFFF
    ensures l.clusterCount + 2 <= 0x0FFF_FFFF
  {
    forall shift: nat | Pow2(shift) == l.sectorsPerCluster
      ensures MountedFrom(BootOf(l), l.relativeSectors, shift) == Volumed(VolumeOf(l, shift))
    {
      MountRecoversLayout(l, sectorCount, shift);
    }
  }

  lemma ClustersOnDevice(l: Layout, device: seq<Sector>)
    requires l.Sound(|device|)
    ensures forall c :: 2 <= c < l.clusterCount + 2 ==> Geometry(l.dataStart, l.sectorsPerCluster).ClusterFits(device, c)
  {
    var spc := l.sectorsPerCluster;
    forall c: nat | 2 <= c < l.clusterCount + 2 ensures Geometry(l.dataStart, spc).ClusterFits(device, c) {
      assert (c - 2) * spc + spc == (c - 1) * spc <= l.clusterCount * spc;
    }
  }

  lemma Sound16(n: nat, spc: nat, dataStart: nat)
    requires Suited(n, spc) && spc > 0 && n < BIG && 256 <= dataStart <= 768 && dataStart % BU16 == 0
    requires Enough16(n, spc, dataStart)
    ensures var nc := Clusters(n, dataStart, spc);
            var fatSize := FatSectors(nc, 256);
            var relative := dataStart - Required16(fatSize) + BU16;
            && relative >= 0
            && Layout(16, spc, nc, relative, 1, fatSize, dataStart, nc * spc + 2 * fatSize + 1 + ROOT_SECTORS).Sound(n)
            && 0 < fatSize && relative + 1 + 2 * fatSize + ROOT_SECTORS == dataStart <= n
  {
    var nc := Clusters(n, dataStart, spc);
    Search16(n, spc, dataStart);
    Clusters16(n, spc, dataStart);
    assert nc * spc <= n - dataStart;
  }

  lemma Sound32(n: nat, spc: nat, dataStart: nat)
    requires Suited(n, spc) && spc > 0 && BIG <= n && 2 * BU32 <= dataStart <= Last32(n) && dataStart % BU32 == 0
    requires Enough32(n, spc, dataStart) && (dataStart > 2 * BU32 ==> !Enough32(n, spc, dataStart - BU32))
    requires Clusters(n, dataStart, spc) >= MIN_FAT32
    ensures var nc := Clusters(n, dataStart, spc);
            var fatSize := FatSectors(nc, 128);
            var reserved := dataStart - BU32 - 2 * fatSize;
            && reserved >= 0
            && Layout(32, spc, nc, BU32, reserved, fatSize, dataStart, nc * spc + dataStart - BU32).Sound(n)
            && 0 < fatSize && BU32 + reserved + 2 * fatSize == dataStart && dataStart + spc <= n && spc >= 64
  {
    var nc := Clusters(n, dataStart, spc);
    Found32(n, spc, dataStart);
    Search32(n, spc, dataStart);
    Clusters32(n, spc, dataStart);
    assert spc <= nc * spc <= n - dataStart;
  }
}
