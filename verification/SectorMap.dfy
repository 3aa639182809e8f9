/**
  How a list of clusters lays a file out over device sectors, shared by the FAT and exFAT
  layers. Position q of a file is byte q % 512 of its logical sector q / 512, and logical
  sector k is sector k % sectorsPerCluster of cluster ch[k / sectorsPerCluster].
*/
module SectorMap {

  newtype Byte = x: int | 0 <= x < 256

  const BYTES_PER_SECTOR := 512

  type Sector = s: seq<Byte> | |s| == BYTES_PER_SECTOR witness seq(512, _ => 0)

  datatype Geometry = Geometry(dataStart: nat, sectorsPerCluster: nat) {

    function BytesPerCluster(): nat {
      BYTES_PER_SECTOR * sectorsPerCluster
    }

    function ClusterStartSector(cluster: int): int {
      dataStart + (cluster - 2) * sectorsPerCluster
    }

    /** (position >> 9) masked by sectorsPerCluster - 1. */
    function SectorOfCluster(position: nat): nat
      requires sectorsPerCluster > 0
    {
      (position / BYTES_PER_SECTOR) % sectorsPerCluster
    }

    /** Index in the cluster list of the cluster that holds a byte position. */
    function ClusterIndex(position: nat): nat
      requires sectorsPerCluster > 0
    {
      position / BytesPerCluster()
    }

    /** Number of clusters a file of `size` bytes occupies. */
    function Needed(size: nat): nat
      requires sectorsPerCluster > 0
    {
      if size == 0 then 0 else 1 + ClusterIndex(size - 1)
    }

    /** Where logical sector `k` lies: which cluster of the list, and which sector of it. */
    function Slot(k: nat): nat
      requires sectorsPerCluster > 0
    {
      k / sectorsPerCluster
    }

    function Inner(k: nat): nat
      requires sectorsPerCluster > 0
    {
      k % sectorsPerCluster
    }

    /** The device sector of logical sector `k`. */
    function Device(ch: seq<nat>, k: nat): int
      requires Holds(ch, k)
    {
      ClusterStartSector(ch[Slot(k)]) + Inner(k)
    }

    ghost predicate ClusterFits(sectors: seq<Sector>, cluster: nat) {
      2 <= cluster && ClusterStartSector(cluster) + sectorsPerCluster <= |sectors|
    }

    /** Every cluster of the list lies on the device. */
    ghost predicate Fits(sectors: seq<Sector>, ch: seq<nat>) {
      sectorsPerCluster > 0 && forall i :: 0 <= i < |ch| ==> ClusterFits(sectors, ch[i])
    }

    ghost predicate Holds(ch: seq<nat>, k: int) {
      sectorsPerCluster > 0 && k >= 0 && Slot(k) < |ch|
    }

    ghost function Logical(sectors: seq<Sector>, ch: seq<nat>, k: nat): Sector
      requires Fits(sectors, ch) && Holds(ch, k)
    {
      DeviceInRange(sectors, ch, k);
      sectors[Device(ch, k)]
    }

    lemma DeviceInRange(sectors: seq<Sector>, ch: seq<nat>, k: nat)
      requires Fits(sectors, ch) && Holds(ch, k)
      ensures 0 <= Device(ch, k) < |sectors|
    {
      assert ClusterFits(sectors, ch[Slot(k)]);
    }

    ghost function ByteAt(sectors: seq<Sector>, ch: seq<nat>, q: nat): Byte
      requires Fits(sectors, ch) && Holds(ch, q / BYTES_PER_SECTOR)
    {
      Logical(sectors, ch, q / BYTES_PER_SECTOR)[q % BYTES_PER_SECTOR]
    }

    /** The first n bytes stored under a cluster list. */
    ghost function Bytes(sectors: seq<Sector>, ch: seq<nat>, n: nat): (b: seq<Byte>)
      requires Fits(sectors, ch) && Needed(n) <= |ch|
      ensures |b| == n
    {
      seq(n, q requires 0 <= q < n => NeededHolds(ch, n, q); ByteAt(sectors, ch, q))
    }

    // ----- Where on the device that is -----

    /** Byte o of sector k of the i-th cluster of a file is byte o of the sector that many from the
        start of the data area. */
    lemma ByteLies(sectors: seq<Sector>, ch: seq<nat>, i: nat, k: nat, o: nat)
      requires Fits(sectors, ch) && i < |ch| && k < sectorsPerCluster && o < BYTES_PER_SECTOR
      ensures var q, d := (i * sectorsPerCluster + k) * 512 + o, dataStart + (ch[i] - 2) * sectorsPerCluster + k;
              && 0 <= d < |sectors| && Holds(ch, q / BYTES_PER_SECTOR)
              && ByteAt(sectors, ch, q) == sectors[d][o]
    {
      DivUnique(i * sectorsPerCluster + k, sectorsPerCluster, i, k);
      assert Holds(ch, i * sectorsPerCluster + k);
      DeviceInRange(sectors, ch, i * sectorsPerCluster + k);
    }

    /** Apart from the sectors of these clusters, the two devices are the same. */
    ghost predicate WroteOnly(before: seq<Sector>, after: seq<Sector>, ch: seq<nat>) {
      && |after| == |before|
      && forall e :: 0 <= e < |before| && after[e] != before[e] ==>
           exists c ::
             c in ch && dataStart + (c - 2) * sectorsPerCluster <= e < dataStart + (c - 1) * sectorsPerCluster
    }

    /** The sectors in front of the data area are the same. */
    ghost predicate FrontKept(before: seq<Sector>, after: seq<Sector>) {
      |after| == |before| && forall e :: 0 <= e < dataStart && e < |before| ==> after[e] == before[e]
    }

    /** Patching a run of sectors of a file writes only to its clusters. */
    lemma PatchInside(before: seq<Sector>, after: seq<Sector>, ch: seq<nat>, k: nat, ns: nat)
      requires Fits(before, ch) && Holds(ch, k) && Inner(k) + ns <= sectorsPerCluster
      requires Patched(before, after, Device(ch, k), ns)
      ensures WroteOnly(before, after, ch) && FrontKept(before, after)
    {
      var c := ch[Slot(k)];
      assert ClusterFits(before, c) && c in ch;
      assert (c - 1) * sectorsPerCluster == (c - 2) * sectorsPerCluster + sectorsPerCluster;
      assert (c - 2) * sectorsPerCluster >= 0;
    }

    lemma WroteOnlyTrans(before: seq<Sector>, between: seq<Sector>, after: seq<Sector>, ch: seq<nat>, longer: seq<nat>)
      requires WroteOnly(before, between, ch) && WroteOnly(between, after, longer) && ch <= longer
      ensures WroteOnly(before, after, longer)
    {
      forall e | 0 <= e < |before| && after[e] != before[e]
        ensures exists c ::
          c in longer && dataStart + (c - 2) * sectorsPerCluster <= e < dataStart + (c - 1) * sectorsPerCluster
      {
        if between[e] != before[e] {
          var c :| c in ch && dataStart + (c - 2) * sectorsPerCluster <= e < dataStart + (c - 1) * sectorsPerCluster;
          assert c in longer;
        }
      }
    }

    // ----- Arithmetic of positions -----

    lemma ClusterOfSector(q: nat)
      requires sectorsPerCluster > 0
      ensures ClusterIndex(q) == (q / BYTES_PER_SECTOR) / sectorsPerCluster
    {
      var s := sectorsPerCluster;
      var k := q / BYTES_PER_SECTOR;
      var i := k / s;
      assert i * s <= k < i * s + s by { DivBounds(k, s); }
      DivUnique(q, BYTES_PER_SECTOR * s, i, q - i * (BYTES_PER_SECTOR * s));
    }

    lemma NeededHolds(ch: seq<nat>, n: nat, q: nat)
      requires sectorsPerCluster > 0 && q < n && Needed(n) <= |ch|
      ensures Holds(ch, q / BYTES_PER_SECTOR) && ClusterIndex(q) < |ch|
    {
      ClusterOfSector(q);
      DivMonotonic(q, n - 1, BytesPerCluster());
    }

    lemma NeededMonotonic(a: nat, b: nat)
      requires sectorsPerCluster > 0 && a <= b
      ensures Needed(a) <= Needed(b)
    {
      if a > 0 { DivMonotonic(a - 1, b - 1, BytesPerCluster()); }
    }

    /** A position at which a new cluster starts needs exactly the clusters before it. */
    lemma ClusterBoundary(q: nat)
      requires sectorsPerCluster > 0
      ensures q % BYTES_PER_SECTOR == 0 && SectorOfCluster(q) == 0 <==> q % BytesPerCluster() == 0
      ensures q % BytesPerCluster() == 0 ==> Needed(q) == ClusterIndex(q)
      ensures q % BytesPerCluster() != 0 ==> q > 0 && ClusterIndex(q - 1) == ClusterIndex(q)
    {
      var s, b := sectorsPerCluster, BytesPerCluster();
      var k := q / BYTES_PER_SECTOR;
      ClusterOfSector(q);
      var i := k / s;
      DivBounds(k, s);
      DivBounds(q, b);
      assert q - i * b == (k - i * s) * BYTES_PER_SECTOR + q % BYTES_PER_SECTOR;
      if q % b == 0 {
        if q > 0 {
          assert i > 0;
          DivUnique(q - 1, b, i - 1, b - 1);
        }
      } else {
        DivUnique(q - 1, b, i, q - 1 - i * b);
      }
    }

    /** Positions inside one cluster share its index. */
    lemma SameCluster(q: nat, n: nat)
      requires sectorsPerCluster > 0
      requires n > 0 && q % BytesPerCluster() + n <= BytesPerCluster()
      ensures ClusterIndex(q + n - 1) == ClusterIndex(q)
      ensures Needed(q + n) == ClusterIndex(q) + 1
    {
      var b := BytesPerCluster();
      DivBounds(q, b);
      DivUnique(q + n - 1, b, q / b, q % b + n - 1);
    }

    /** A chunk that stays in one sector, or runs over whole sectors of one cluster, stays in the cluster. */
    lemma ChunkInCluster(q: nat, n: nat)
      requires sectorsPerCluster > 0
      requires
        || q % BYTES_PER_SECTOR + n <= BYTES_PER_SECTOR
        || exists ns: nat :: n == ns * BYTES_PER_SECTOR && q % BYTES_PER_SECTOR == 0
                             && SectorOfCluster(q) + ns <= sectorsPerCluster
      ensures q % BytesPerCluster() + n <= BytesPerCluster()
    {
      var s, b := sectorsPerCluster, BytesPerCluster();
      var k := q / BYTES_PER_SECTOR;
      ClusterOfSector(q);
      DivBounds(k, s);
      DivBounds(q, b);
      var i := k / s;
      assert q - i * b == (k - i * s) * BYTES_PER_SECTOR + q % BYTES_PER_SECTOR;
      assert k - i * s == SectorOfCluster(q);
    }

    // ----- Writing a run of sectors inside one cluster -----

    lemma DeviceInjective(ch: seq<nat>, j: nat, other: seq<nat>, k: nat)
      requires Holds(ch, j) && Holds(other, k) && Device(ch, j) == Device(other, k)
      ensures ch[Slot(j)] == other[Slot(k)] && Inner(j) == Inner(k)
    {
      var a: int, b: int := ch[Slot(j)], other[Slot(k)];
      BlockUnique(a - 2, Inner(j), b - 2, Inner(k), sectorsPerCluster);
    }

    lemma DeviceStep(ch: seq<nat>, k: nat, i: nat)
      requires Holds(ch, k) && Inner(k) + i < sectorsPerCluster
      ensures Holds(ch, k + i) && Device(ch, k + i) == Device(ch, k) + i
      ensures Slot(k + i) == Slot(k)
    {
      var s := sectorsPerCluster;
      DivBounds(k, s);
      DivUnique(k + i, s, k / s, k % s + i);
    }

    /** Every sector outside the `ns` device sectors from `d` keeps its contents. */
    ghost predicate Patched(sectors: seq<Sector>, sectors': seq<Sector>, d: int, ns: nat) {
      |sectors'| == |sectors|
      && forall e :: 0 <= e < |sectors| && !(d <= e < d + ns) ==> sectors'[e] == sectors[e]
    }

    /** Patching a run of sectors of a file leaves its other logical sectors alone. */
    lemma PatchKeepsSector(sectors: seq<Sector>, sectors': seq<Sector>, ch: seq<nat>, k: nat, ns: nat, j: nat)
      requires Fits(sectors, ch) && Holds(ch, k) && Holds(ch, j)
      requires forall x, y :: 0 <= x < y < |ch| ==> ch[x] != ch[y]
      requires Inner(k) + ns <= sectorsPerCluster
      requires Patched(sectors, sectors', Device(ch, k), ns) && !(k <= j < k + ns)
      ensures Fits(sectors', ch) && Logical(sectors', ch, j) == Logical(sectors, ch, j)
    {
      PatchKeepsFits(sectors, sectors', ch);
      DeviceInRange(sectors, ch, j);
      var i := Device(ch, j) - Device(ch, k);
      if 0 <= i < ns {
        DeviceStep(ch, k, i);
        SameDeviceSameSector(ch, j, k + i);
      }
    }

    lemma SameDeviceSameSector(ch: seq<nat>, j: nat, k: nat)
      requires Holds(ch, j) && Holds(ch, k) && Device(ch, j) == Device(ch, k)
      requires forall x, y :: 0 <= x < y < |ch| ==> ch[x] != ch[y]
      ensures j == k
    {
      DeviceInjective(ch, j, ch, k);
      DivBounds(j, sectorsPerCluster);
      DivBounds(k, sectorsPerCluster);
    }

    lemma PatchKeepsFits(sectors: seq<Sector>, sectors': seq<Sector>, ch: seq<nat>)
      requires Fits(sectors, ch) && |sectors'| == |sectors|
      ensures Fits(sectors', ch)
    {
      forall i | 0 <= i < |ch| ensures ClusterFits(sectors', ch[i]) {
        assert ClusterFits(sectors, ch[i]);
      }
    }

    ghost predicate SameSectors(before: seq<Sector>, after: seq<Sector>, ch: seq<nat>) {
      && Fits(before, ch) && Fits(after, ch)
      && forall j: nat :: Holds(ch, j) ==> Logical(after, ch, j) == Logical(before, ch, j)
    }

    /** ... and leaves every file with other clusters alone. */
    lemma PatchKeepsOther(sectors: seq<Sector>, sectors': seq<Sector>, ch: seq<nat>, k: nat, ns: nat, other: seq<nat>)
      requires Fits(sectors, other) && Holds(ch, k) && Inner(k) + ns <= sectorsPerCluster
      requires forall x :: 0 <= x < |other| ==> other[x] != ch[Slot(k)]
      requires Patched(sectors, sectors', Device(ch, k), ns)
      ensures SameSectors(sectors, sectors', other)
    {
      PatchKeepsFits(sectors, sectors', other);
      forall j: nat | Holds(other, j) ensures Logical(sectors', other, j) == Logical(sectors, other, j) {
        DeviceInRange(sectors, other, j);
        var i := Device(other, j) - Device(ch, k);
        if 0 <= i < ns {
          DeviceStep(ch, k, i);
          DeviceInjective(other, j, ch, k + i);
        }
      }
    }
  }

  // ----- Cluster indices as the file layers use them -----

  function Pow2(n: nat): (p: nat)
    ensures p > 0
  {
    if n == 0 then 1 else 2 * Pow2(n - 1)
  }

  /** Bit i of a number. */
  predicate Bit(n: nat, i: nat) {
    n / Pow2(i) % 2 == 1
  }

  lemma {:induction false} PowersMultiply(a: nat, b: nat)
    ensures Pow2(a + b) == Pow2(a) * Pow2(b)
    decreases a
  {
    if a > 0 {
      PowersMultiply(a - 1, b);
    }
  }

  /** Half of a number, with the bit that is lost put in front, is the number of `width` bits turned
      right by one. */
  lemma RotatedBits(n: nat, width: nat, i: nat)
    requires i < width && n < Pow2(width)
    ensures Bit((if n % 2 == 1 then Pow2(width - 1) else 0) + n / 2, i) <==> Bit(n, if i == width - 1 then 0 else i + 1)
  {
    hide Pow2;
    PowerStep(width - 1);
    PowerStep(i);
    if i == width - 1 {
      TopBitAdded(n, Pow2(i));
    } else {
      PowersMultiply(i, width - 1 - i);
      PowerStep(width - 2 - i);
      LowBitsMoved(n, Pow2(i), Pow2(width - 2 - i), Pow2(width - 1));
    }
  }

  lemma LowBitsMoved(n: nat, p: nat, m: nat, h: nat)
    requires p > 0 && h == p * (2 * m)
    ensures ((if n % 2 == 1 then h else 0) + n / 2) / p % 2 == n / (2 * p) % 2
  {
    HalfFirst(n, p);
    HighBitAdded(n / 2, p, m);
  }

  lemma PowerStep(i: nat)
    ensures Pow2(i + 1) == 2 * Pow2(i) && Pow2(0) == 1
  {}

  lemma TopBitAdded(n: nat, h: nat)
    requires n < 2 * h
    ensures ((if n % 2 == 1 then h else 0) + n / 2) / h == n % 2
  {
    var half := n / 2;
    if n % 2 == 1 {
      DivUnique(h + half, h, 1, half);
    } else {
      DivUnique(half, h, 0, half);
    }
  }

  lemma HighBitAdded(n: nat, p: nat, m: nat)
    requires p > 0
    ensures (p * (2 * m) + n) / p == 2 * m + n / p
  {
    DivBounds(n, p);
    assert p * (2 * m) + n == (2 * m + n / p) * p + n % p;
    DivUnique(p * (2 * m) + n, p, 2 * m + n / p, n % p);
  }

  lemma HalfFirst(n: nat, p: nat)
    requires p > 0
    ensures n / (2 * p) == n / 2 / p
  {
    DivBounds(n / 2, p);
    var q, r := n / 2 / p, n / 2 % p;
    DivUnique(n, 2 * p, q, 2 * r + n % 2);
  }

  function ZeroSector(): Sector {
    seq(BYTES_PER_SECTOR, _ => 0)
  }

  function Max(a: nat, b: nat): nat {
    if a < b then b else a
  }

  function Min(a: nat, b: nat): nat {
    if a < b then a else b
  }

  /** Cluster indices around a position at which the next byte is to be written. */
  lemma StepIndex(g: Geometry, size: nat, pos: nat)
    requires g.sectorsPerCluster > 0
    ensures g.Needed(Max(size, pos + 1)) == Max(g.Needed(Max(size, pos)), g.ClusterIndex(pos) + 1)
    ensures g.SectorOfCluster(pos) == 0 && pos % BYTES_PER_SECTOR == 0 ==>
      && g.Needed(Max(size, pos)) >= g.ClusterIndex(pos)
      && (g.Needed(Max(size, pos)) == g.ClusterIndex(pos) <==> size <= pos)
      && (if pos == 0 then g.ClusterIndex(pos) == 0
          else g.ClusterIndex(pos) > 0 && g.ClusterIndex(pos - 1) == g.ClusterIndex(pos) - 1)
    ensures !(g.SectorOfCluster(pos) == 0 && pos % BYTES_PER_SECTOR == 0) ==>
      && pos > 0 && g.ClusterIndex(pos - 1) == g.ClusterIndex(pos)
      && g.Needed(Max(size, pos)) > g.ClusterIndex(pos)
  {
    g.ClusterBoundary(pos);
    g.NeededMonotonic(pos, Max(size, pos));
    g.NeededMonotonic(pos + 1, Max(size, pos + 1));
    assert g.Needed(pos + 1) == g.ClusterIndex(pos) + 1;
  }

  lemma AtBoundary(g: Geometry, pos: nat)
    requires g.sectorsPerCluster > 0
    ensures pos % BYTES_PER_SECTOR == 0 && g.SectorOfCluster(pos) == 0 <==> pos % g.BytesPerCluster() == 0
    ensures pos % g.BytesPerCluster() == 0 ==> pos == g.ClusterIndex(pos) * g.BytesPerCluster()
  {
    g.ClusterBoundary(pos);
  }

  /** Cluster indices after a transfer of n bytes inside one cluster. */
  lemma ChunkIndex(g: Geometry, size: nat, p: nat, n: nat)
    requires g.sectorsPerCluster > 0 && n > 0 && p % g.BytesPerCluster() + n <= g.BytesPerCluster()
    ensures g.ClusterIndex(p + n - 1) == g.ClusterIndex(p)
    ensures g.Needed(p + n) == g.ClusterIndex(p) + 1
    ensures g.Needed(Max(size, p + n)) == g.Needed(Max(size, p + 1)) >= g.Needed(p + n)
  {
    g.SameCluster(p, n);
    g.SameCluster(p, 1);
    if p < size < p + n { g.SameCluster(p, size - p); }
    g.NeededMonotonic(p + n, Max(size, p + n));
  }

  lemma SeekIndex(g: Geometry, size: nat, from: nat, pos: nat)
    requires g.sectorsPerCluster > 0 && from <= size && 0 < pos <= size
    ensures g.ClusterIndex(pos - 1) < g.Needed(size)
    ensures from > 0 ==> g.ClusterIndex(from - 1) < g.Needed(size)
  {
    g.NeededMonotonic(pos, size);
    g.NeededMonotonic(from, size);
  }

  /** What does not fit n clusters needs more of them. */
  lemma NeedsMore(g: Geometry, n: nat, size: nat)
    requires g.sectorsPerCluster > 0
    ensures g.Needed(size) > n <==> n * g.BytesPerCluster() < size
  {
    if size > 0 {
      BlocksBelow(g.BytesPerCluster(), g.ClusterIndex(size - 1), n, size - 1);
    }
  }

  lemma BlocksBelow(b: nat, i: nat, n: nat, q: nat)
    requires b > 0 && i == q / b
    ensures n <= i <==> n * b <= q
  {
    DivBounds(q, b);
    if i < n { MulStep(i, n, b); }
    if n < i { MulStep(n, i, b); }
  }

  lemma TruncatePoint(g: Geometry, size: nat, pos: nat)
    requires g.sectorsPerCluster > 0 && pos <= size
    ensures g.Needed(pos) <= g.Needed(size)
    ensures g.Needed(pos) == if pos == 0 then 0 else g.ClusterIndex(pos - 1) + 1
    ensures g.Needed(size) == 0 ==> size == 0
  {
    g.NeededMonotonic(pos, size);
  }

  /** A number of up to four bytes is the weighted sum of its bytes. */
  lemma BytesOfNumber(n: nat)
    ensures n == n % 0x100 + 0x100 * (n / 0x100 % 0x100) + 0x1_0000 * (n / 0x1_0000 % 0x100) + 0x100_0000 * (n / 0x100_0000)
  {
    var a, b := n / 0x100, n / 0x1_0000;
    assert b == a / 0x100 && n / 0x100_0000 == b / 0x100;
  }

  /** Where entry c of a table lies, with entries of two or four bytes. */
  lemma PlaceOfEntry(c: nat)
    ensures 4 * c / 512 == c / 128 && 4 * c % 512 == 4 * (c % 128)
    ensures 2 * c / 512 == c / 256 && 2 * c % 512 == 2 * (c % 256)
  {}

  // ----- Division facts -----

  lemma DivBounds(x: nat, d: nat)
    requires d > 0
    ensures (x / d) * d <= x < (x / d) * d + d
    ensures x % d == x - (x / d) * d
  {}

  lemma DivUnique(x: nat, d: nat, q: nat, r: nat)
    requires d > 0 && r < d && x == q * d + r
    ensures x / d == q && x % d == r
  {
    DivBounds(x, d);
    BlockUnique(x / d, x % d, q, r, d);
  }

  lemma DivMonotonic(x: nat, y: nat, d: nat)
    requires d > 0 && x <= y
    ensures x / d <= y / d
  {
    DivBounds(x, d);
    DivBounds(y, d);
    if x / d > y / d { MulStep(y / d, x / d, d); }
  }

  lemma {:induction false} MulStep(a: int, b: int, d: nat)
    requires a < b
    ensures a * d + d <= b * d
    decreases b - a
  {
    assert b * d == (b - 1) * d + d;
    if a + 1 < b { MulStep(a, b - 1, d); }
  }

  lemma BlockUnique(a: int, r: nat, b: int, s: nat, d: nat)
    requires r < d && s < d && a * d + r == b * d + s
    ensures a == b && r == s
  {
    if a < b { MulStep(a, b, d); }
    if b < a { MulStep(b, a, d); }
  }
}
