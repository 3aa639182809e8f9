/**
  The exFAT partition: the allocation bitmap with its search and range update, FAT entries, and
  the release of a chain by coalesced bitmap updates (Microsoft exFAT specification, section 7.1).

  Bit i of the bitmap stands for cluster i + 2. A (sector, byte, mask) position of the source is
  the bit index 4096 * sector + 8 * byte + log2(mask), so the nested loops walk bit indices.
*/
module ExFatPartition {
  import opened FatTable
  import opened SectorMap

  const EXFAT_EOC := 0xFFFF_FFFF

  datatype Entry = BadCluster | EndOfChain | Link(next: nat)

  datatype FindResult = NoSpace | Found(cluster: nat)

  // ----- Free runs of the bitmap -----

  predicate ClearRun(bits: seq<bool>, b: int, n: int) {
    0 <= b && b + n <= |bits| && forall i :: b <= i < b + n ==> !bits[i]
  }

  /** A free run of n clusters inside [low, high). */
  predicate HasRun(bits: seq<bool>, low: nat, high: nat, n: nat) {
    exists b :: low <= b <= high - n && ClearRun(bits, b, n)
  }

  /** `b` starts the lowest free run of n clusters inside [low, high). */
  ghost predicate LowestRun(bits: seq<bool>, low: nat, high: nat, n: nat, b: int) {
    && low <= b && b + n <= high && ClearRun(bits, b, n)
    && forall a :: low <= a < b ==> !ClearRun(bits, a, n)
  }

  // ----- The scan of bitmapFind as a step machine -----

  datatype Scan = Searching(bgn: nat, end: nat) | Done(result: FindResult)

  /** One turn of the innermost loop. */
  ghost function ScanStep(bits: seq<bool>, count: nat, start: nat, s: Scan): Scan
  {
    if s.Done? || s.end >= |bits| then s
    else
      var end := s.end + 1;
      var bgn := if bits[s.end] then end else s.bgn;
      if !bits[s.end] && end - bgn == count then Done(Found(bgn + 2))
      else if end == start then Done(NoSpace)
      else if end >= |bits| then Searching(0, 0)
      else Searching(bgn, end)
  }

  ghost function ScanSteps(bits: seq<bool>, count: nat, start: nat, s: Scan, n: nat): Scan
    decreases n
  {
    if n == 0 then s else ScanSteps(bits, count, start, ScanStep(bits, count, start, s), n - 1)
  }

  ghost predicate Halts(bits: seq<bool>, count: nat, start: nat) {
    exists n :: ScanSteps(bits, count, start, Searching(start, start), n).Done?
  }

  /** What the scan knows while it searches: a free stretch, shorter than wanted, ends here. */
  ghost predicate ScanInv(bits: seq<bool>, count: nat, low: nat, s: Scan) {
    && s.Searching? && low <= s.bgn <= s.end < |bits| && s.end - s.bgn < count
    && ClearRun(bits, s.bgn, s.end - s.bgn)
    && forall a :: low <= a < s.bgn ==> !ClearRun(bits, a, count)
  }

  lemma ScanStarts(bits: seq<bool>, count: nat, at: nat)
    requires count > 0 && at < |bits|
    ensures ScanInv(bits, count, at, Searching(at, at))
  {}

  lemma ScanBounds(bits: seq<bool>, count: nat, low: nat, s: Scan)
    requires ScanInv(bits, count, low, s)
    ensures s.Searching? && low <= s.bgn <= s.end < |bits| && s.end - s.bgn < count
  {}

  /** A lowest run that ends before `high` is one below `high`. */
  lemma FoundInside(bits: seq<bool>, start: nat, high: nat, low: nat, end: nat, n: nat, b: nat)
    requires LowestRun(bits, low, end, n, b) && end <= high <= |bits|
    ensures LowestRun(bits, low, high, n, b) && HasRun(bits, low, high, n)
  {}

  /** Scanning on from a position keeps the invariant, finds the lowest run, or reaches a limit. */
  lemma ScanAdvances(bits: seq<bool>, count: nat, start: nat, low: nat, s: Scan)
    requires count > 0 && start < |bits| && ScanInv(bits, count, low, s)
    ensures var t := ScanStep(bits, count, start, s);
      match t
      case Done(Found(c)) => c >= 2 && LowestRun(bits, low, s.end + 1, count, c - 2)
      case Done(NoSpace) => s.end + 1 == start && !HasRun(bits, low, start, count)
      case Searching(bgn, end) =>
        if s.end + 1 == |bits| then t == Searching(0, 0) && !HasRun(bits, low, |bits|, count) && start != |bits|
        else end == s.end + 1 && end != start && ScanInv(bits, count, low, t)
  {
    var e := s.end;
    if bits[e] {
      forall a | low <= a <= e ensures !ClearRun(bits, a, count) {}
    } else {
      forall a | low <= a && a + count <= e + 1 && !(a == s.bgn && e + 1 - s.bgn == count)
        ensures !ClearRun(bits, a, count) {}
    }
  }

  /**
    The search halts exactly when it starts above bit 0 or a run exists: from bit 0 the test for
    having come full circle can never succeed.
  */
  lemma HaltsIff(bits: seq<bool>, count: nat, start: nat)
    requires count > 0 && start < |bits|
    ensures Halts(bits, count, start) <==> start != 0 || HasRun(bits, 0, |bits|, count)
  {
    if start != 0 || HasRun(bits, 0, |bits|, count) {
      var n := StopsAfter(bits, count, start, start, Searching(start, start));
    } else {
      forall n ensures !ScanSteps(bits, count, start, Searching(0, 0), n).Done? {
        NeverStops(bits, count, Searching(0, 0), n);
      }
    }
  }

  /** On a full bitmap a search from bit 0 never ends. */
  lemma FullSearchNeverEnds(n: nat)
    requires n > 0
    ensures !Halts(seq(n, _ => true), 1, 0)
  {
    var bits := seq(n, _ => true);
    HaltsIff(bits, 1, 0);
    forall b | 0 <= b <= n - 1 ensures !ClearRun(bits, b, 1) {
      assert bits[b];
    }
  }

  lemma {:induction false} NeverStops(bits: seq<bool>, count: nat, s: Scan, n: nat)
    requires count > 0 && |bits| > 0 && !HasRun(bits, 0, |bits|, count) && ScanInv(bits, count, 0, s)
    ensures ScanSteps(bits, count, 0, s, n).Searching?
    decreases n
  {
    if n > 0 {
      ScanAdvances(bits, count, 0, 0, s);
      var t := ScanStep(bits, count, 0, s);
      assert ScanInv(bits, count, 0, t);
      NeverStops(bits, count, t, n - 1);
    }
  }

  lemma {:induction false} StopsAfter(bits: seq<bool>, count: nat, start: nat, low: nat, s: Scan) returns (n: nat)
    requires count > 0 && start < |bits| && ScanInv(bits, count, low, s)
    requires start != 0 || HasRun(bits, 0, |bits|, count)
    requires low == start || (low == 0 && s.end < start)
    ensures ScanSteps(bits, count, start, s, n).Done?
    decreases if low == start then 1 else 0, |bits| - s.end
  {
    ScanAdvances(bits, count, start, low, s);
    var t := ScanStep(bits, count, start, s);
    if t.Done? {
      n := 1;
    } else if s.end + 1 == |bits| {
      var m := StopsAfter(bits, count, start, 0, t);
      n := m + 1;
    } else {
      var m := StopsAfter(bits, count, start, low, t);
      n := m + 1;
    }
  }

  // ----- The partition -----

  /** The bits after giving `value` to the run of n bits from b. */
  function SetRun(bits: seq<bool>, b: nat, n: nat, value: bool): (r: seq<bool>)
    requires b + n <= |bits|
    ensures |r| == |bits|
  {
    bits[..b] + seq(n, _ => value) + bits[b + n..]
  }

  lemma SetRunBits(bits: seq<bool>, b: nat, n: nat, value: bool)
    requires b + n <= |bits|
    ensures forall i :: 0 <= i < |bits| ==> SetRun(bits, b, n, value)[i] == if b <= i < b + n then value else bits[i]
  {}

  lemma SetRunStep(bits: seq<bool>, b: nat, n: nat, value: bool)
    requires b + n < |bits|
    ensures SetRun(bits, b, n, value)[b + n] == bits[b + n]
    ensures SetRun(bits, b, n, value)[b + n := value] == SetRun(bits, b, n + 1, value)
  {}

  lemma SetNone(bits: seq<bool>, b: nat, value: bool)
    requires b <= |bits|
    ensures SetRun(bits, b, 0, value) == bits
  {}

  /** A flip that met a bit already at `value` leaves exactly the bits before it changed. */
  ghost predicate StoppedShort(before: seq<bool>, after: seq<bool>, b: nat, n: nat, value: bool)
    requires b + n <= |before|
  {
    exists k :: 0 <= k < n && before[b + k] == value && after == SetRun(before, b, k, value)
  }

  /** The number of set bits. */
  function SetCount(bits: seq<bool>): nat {
    if bits == [] then 0 else SetCount(bits[..|bits| - 1]) + (if bits[|bits| - 1] then 1 else 0)
  }

  /** No cluster below the search start is free. */
  ghost predicate HintSound(bits: seq<bool>, hint: nat) {
    hint <= |bits| && forall i :: 0 <= i < hint ==> bits[i]
  }

  /** Where bitmapModify moves the search start, before it looks at the bits. */
  function HintAfterModify(hint: nat, start: nat, count: nat, value: bool, clusterCount: nat): nat {
    if value then
      if start <= hint < start + count then
        if start + count < clusterCount then start + count else 0
      else hint
    else if start < hint then start else hint
  }

  class Partition {
    const geometry: Geometry
    const clusterCount: nat
    var fat: seq<nat>
    var bitmap: seq<bool>      // whole sectors; the bits from clusterCount on are padding
    var bitmapStart: nat
    var sectors: seq<Sector>   // the device's data, read and written by the file layer
    ghost var chains: Chains   // the cluster list of every file, by first cluster
    ghost var ranges: set<nat> // the files whose list is an implicit range

    /** A mounted volume: the search start moves to the first free cluster, if there is one. On
        a full volume the search does not return, so there must be one. */
    constructor Init(clusters: Geometry, count: nat, table: seq<nat>, bits: seq<bool>, data: seq<Sector>,
                     ghost held: Chains, ghost implicit: set<nat>)
      requires 0 < count <= |bits| && |bits| % 4096 == 0 && |table| == count + 2 <= EXFAT_EOC
      requires HasRun(bits[..count], 0, count, 1)
      ensures Shape() && HintSound(Bits(), bitmapStart)
      ensures geometry == clusters && clusterCount == count && fat == table && bitmap == bits
      ensures sectors == data && chains == held && ranges == implicit
      ensures bitmapStart < count && !bits[bitmapStart]
    {
      geometry, clusterCount, fat, bitmap, bitmapStart := clusters, count, table, bits, 0;
      sectors, chains, ranges := data, held, implicit;
      new;
      var _ := BitmapFind(0, 1);
      forall i | 0 <= i < bitmapStart ensures Bits()[i] {
        assert !ClearRun(Bits(), i, 1);
      }
    }

    ghost predicate Shape()
      reads this
    {
      && 0 < clusterCount <= |bitmap| && |bitmap| % 4096 == 0
      && |fat| == clusterCount + 2 && |fat| <= EXFAT_EOC
      && bitmapStart < clusterCount
    }

    /** The bits that stand for clusters. */
    function Bits(): (b: seq<bool>)
      requires clusterCount <= |bitmap|
      reads this
      ensures |b| == clusterCount
    {
      bitmap[..clusterCount]
    }

    function StartBit(cluster: nat): (b: nat)
      requires cluster != 1 && Shape()
      reads this
      ensures b < clusterCount
      ensures 2 <= cluster < clusterCount + 2 ==> b == cluster - 2
      ensures cluster == 0 && bitmapStart < clusterCount ==> b == bitmapStart
      ensures cluster >= clusterCount + 2 || (cluster == 0 && bitmapStart >= clusterCount) ==> b == 0
    {
      var start := if cluster != 0 then cluster - 2 else bitmapStart;
      if start >= clusterCount then 0 else start
    }

    /** Searches from the given cluster, or from the hint; see HaltsIff for when it returns at all. */
    method BitmapFind(cluster: nat, count: nat) returns (r: FindResult)
      requires Shape() && cluster != 1 && count > 0
      requires StartBit(cluster) != 0 || HasRun(Bits(), 0, clusterCount, count)
      modifies this`bitmapStart
      ensures Shape()
      ensures var start := old(StartBit(cluster));
        match r
        case Found(c) =>
          && 2 <= c
          && (if HasRun(Bits(), start, clusterCount, count)
              then LowestRun(Bits(), start, clusterCount, count, c - 2)
              else LowestRun(Bits(), 0, start, count, c - 2))
        case NoSpace => !HasRun(Bits(), start, clusterCount, count) && !HasRun(Bits(), 0, start, count)
      ensures bitmapStart == if r.Found? && cluster == 0 && count == 1 then r.cluster - 2 else old(bitmapStart)
    {
      hide ScanInv, HasRun, LowestRun, ClearRun, StartBit;
      var start := StartBit(cluster);
      var endAlloc: nat, bgnAlloc: nat := start, start;
      ghost var bits, low: nat, wrapped := Bits(), start, false;
      ScanStarts(bits, count, start);
      ScanStarts(bits, count, 0);
      while true
        invariant ScanInv(bits, count, low, Searching(bgnAlloc, endAlloc)) && bitmapStart == old(bitmapStart)
        invariant if wrapped then low == 0 && endAlloc < start && !HasRun(bits, start, clusterCount, count)
                  else low == start
        decreases !wrapped, clusterCount - endAlloc
      {
        ScanBounds(bits, count, low, Searching(bgnAlloc, endAlloc));
        ScanAdvances(bits, count, start, low, Searching(bgnAlloc, endAlloc));
        endAlloc := endAlloc + 1;
        if !bitmap[endAlloc - 1] {
          if endAlloc - bgnAlloc == count {
            if cluster == 0 && count == 1 {
              bitmapStart := bgnAlloc;
            }
            FoundInside(bits, start, if wrapped then start else clusterCount, low, endAlloc, count, bgnAlloc);
            return Found(bgnAlloc + 2);
          }
        } else {
          bgnAlloc := endAlloc;
        }
        if endAlloc == start {
          return NoSpace;
        }
        if endAlloc >= clusterCount {
          endAlloc, bgnAlloc := 0, 0;
          low, wrapped := 0, true;
        }
      }
    }

    /** Flips a run of bits to `value`, stopping at the first bit that already has it. */
    method BitmapModify(cluster: nat, count: nat, value: bool) returns (ok: bool)
      requires Shape() && cluster >= 2 && count > 0
      modifies this`bitmap, this`bitmapStart
      ensures Shape()
      ensures ok <==> cluster - 2 + count <= clusterCount
                      && forall i :: cluster - 2 <= i < cluster - 2 + count ==> old(bitmap)[i] != value
      ensures ok ==> bitmap == SetRun(old(bitmap), cluster - 2, count, value)
      ensures !ok ==> bitmap == old(bitmap) || (cluster - 2 + count <= clusterCount && StoppedShort(old(bitmap), bitmap, cluster - 2, count, value))
      ensures bitmapStart == if cluster - 2 + count > clusterCount then old(bitmapStart)
                             else HintAfterModify(old(bitmapStart), cluster - 2, count, value, clusterCount)
      // A freed cluster below the search start becomes the start; past a run that contained it the start moves on.
      ensures ok && !value ==> bitmapStart == if cluster - 2 < old(bitmapStart) then cluster - 2 else old(bitmapStart)
      ensures ok && value && cluster - 2 <= old(bitmapStart) < cluster - 2 + count ==>
                bitmapStart == if cluster - 2 + count < clusterCount then cluster - 2 + count else 0
      ensures ok && value && !(cluster - 2 <= old(bitmapStart) < cluster - 2 + count) ==>
                bitmapStart == old(bitmapStart)
    {
      hide SetRun;
      var start := cluster - 2;
      if start + count > clusterCount {
        return false;
      }
      if value {
        if start <= bitmapStart < start + count {
          bitmapStart := if start + count < clusterCount then start + count else 0;
        }
      } else {
        if start < bitmapStart {
          bitmapStart := start;
        }
      }
      ok := FlipRun(start, count, value);
    }

    /** The bit loop of bitmapModify. */
    method FlipRun(start: nat, count: nat, value: bool) returns (ok: bool)
      requires count > 0 && start + count <= |bitmap|
      modifies this`bitmap
      ensures |bitmap| == |old(bitmap)|
      ensures ok <==> forall i :: start <= i < start + count ==> old(bitmap)[i] != value
      ensures if ok then bitmap == SetRun(old(bitmap), start, count, value)
              else StoppedShort(old(bitmap), bitmap, start, count, value)
    {
      hide SetRun;
      var i, left := start, count;
      SetNone(bitmap, start, value);
      while true
        invariant start <= i && i + left == start + count && left > 0
        invariant bitmap == SetRun(old(bitmap), start, i - start, value)
        invariant forall j :: start <= j < i ==> old(bitmap)[j] != value
        decreases left
      {
        SetRunStep(old(bitmap), start, i - start, value);
        if value == bitmap[i] {
          return false;
        }
        bitmap := bitmap[i := !bitmap[i]];
        left := left - 1;
        i := i + 1;
        if left == 0 {
          return true;
        }
      }
    }

    // ----- FAT entries -----

    function FatGet(cluster: nat): Entry
      reads this
    {
      if cluster > clusterCount + 1 || cluster >= |fat| then BadCluster
      else if fat[cluster] == EXFAT_EOC then EndOfChain
      else Link(fat[cluster])
    }

    method FatPut(cluster: nat, value: nat) returns (ok: bool)
      requires Shape()
      modifies this`fat
      ensures Shape()
      ensures ok == InTable(old(fat), cluster)
      ensures fat == if ok then old(fat)[cluster := value % 0x1_0000_0000] else old(fat)
    {
      if cluster < 2 || cluster > clusterCount + 1 {
        return false;
      }
      fat := fat[cluster := value % 0x1_0000_0000];
      return true;
    }

    /** Releases a chain; consecutive clusters are released by one bitmap update. */
    method FreeChain(first: nat, ghost ch: Chain) returns (ok: bool)
      requires Shape() && XChain(fat, ch) && ch[0] == first
      requires AllSet(Bits(), ch)
      modifies this`fat, this`bitmap, this`bitmapStart
      ensures Shape() && ok
      ensures Cleared(old(fat), fat, ch)
      ensures |bitmap| == |old(bitmap)| && bitmap[clusterCount..] == old(bitmap[clusterCount..])
      ensures BitsReleased(old(Bits()), Bits(), ch)
      ensures bitmapStart == HintAfterRelease(old(bitmapStart), ch)
    {
      hide SetRun, IsChain, XChain, Cleared, BitsReleased, AllSet, NoRepeats, Rising, HintAfterRelease;
      var start, cluster := first, first;
      ghost var i, r, fat0, bits0, hint0 := 0, 0, fat, Bits(), bitmapStart;
      ReleaseStarts(fat, Bits(), bitmapStart, ch);
      while true
        invariant Shape() && |fat| == |fat0|
        invariant 0 <= r <= i < |ch| && cluster == ch[i] && start == ch[r] && Rising(ch, r, i)
        invariant Cleared(fat0, fat, ch[..i])
        invariant BitsReleased(bits0, Bits(), ch[..r])
        invariant |bitmap| == |old(bitmap)| && bitmap[clusterCount..] == old(bitmap[clusterCount..])
        invariant bitmapStart == HintAfterRelease(hint0, ch[..r])
        decreases |ch| - i
      {
        XChainStep(fat0, ch, i);
        ClearedStep(fat0, fat, ch, i);
        var entry := FatGet(cluster);
        if entry == BadCluster {
          return false;
        }
        ok := FatPut(cluster, 0);
        if !ok {
          return false;
        }
        if entry == EndOfChain || cluster + 1 != entry.next {
          RisingEnd(ch, r, i);
          ReleaseRun(start, cluster - start + 1, bits0, hint0, ch, r, i);
          r := i + 1;
          if entry.Link? { start := entry.next; }
        }
        if entry == EndOfChain {
          assert ch[..i + 1] == ch;
          return true;
        }
        RisingStep(ch, r, i);
        cluster := entry.next;
        i := i + 1;
      }
    }

    /** One coalesced bitmap update of freeChain: it covers exactly ch[r..i+1]. */
    method ReleaseRun(start: nat, count: nat, ghost bits0: seq<bool>, ghost hint0: nat,
                      ghost ch: Chain, ghost r: nat, ghost i: nat)
      requires Shape() && r <= i < |ch| && Rising(ch, r, i) && NoRepeats(ch) && AllSet(bits0, ch)
      requires start == ch[r] && count == i - r + 1
      requires BitsReleased(bits0, Bits(), ch[..r]) && bitmapStart == HintAfterRelease(hint0, ch[..r])
      modifies this`bitmap, this`bitmapStart
      ensures Shape() && BitsReleased(bits0, Bits(), ch[..i + 1])
      ensures |bitmap| == |old(bitmap)| && bitmap[clusterCount..] == old(bitmap[clusterCount..])
      ensures bitmapStart == HintAfterRelease(hint0, ch[..i + 1])
    {
      hide SetRun, BitsReleased, Rising, NoRepeats, HintAfterRelease, AllSet, StoppedShort;
      ghost var bitmap1 := bitmap;
      ClustersFromTwo(bits0, ch);
      ReleasedRun(bits0, Bits(), ch, r, i);
      HintOfRun(hint0, ch, r, i);
      var ok := BitmapModify(start, count, false);
      SetRunPrefix(bitmap1, clusterCount, start - 2, count, false);
    }

    /** Counts used bits byte by byte, with a shortcut for full bytes; padding bits count as used. */
    method FreeClusterCount() returns (free: int)
      requires Shape()
      ensures free == clusterCount - SetCount(bitmap[..8 * ((clusterCount + 7) / 8)])
    {
      hide SetCount;
      CountNothing(bitmap);
      var nc, used := 0, 0;
      while true
        invariant nc % 8 == 0 && 0 <= nc < clusterCount && used == SetCount(bitmap[..nc])
        decreases clusterCount - nc
      {
        WholeBytes(nc, clusterCount, |bitmap|);
        var n := UsedInByte(nc);
        used := used + n;
        nc := nc + 8;
        if nc >= clusterCount {
          return clusterCount - used;
        }
      }
    }

    method UsedInByte(nc: nat) returns (used: nat)
      requires nc + 8 <= |bitmap|
      ensures SetCount(bitmap[..nc + 8]) == SetCount(bitmap[..nc]) + used
    {
      if bitmap[nc] && bitmap[nc + 1] && bitmap[nc + 2] && bitmap[nc + 3]
         && bitmap[nc + 4] && bitmap[nc + 5] && bitmap[nc + 6] && bitmap[nc + 7] {
        FullByte(bitmap, nc, 8);
        return 8;
      }
      used := 0;
      for j := 0 to 8
        invariant SetCount(bitmap[..nc + j]) == SetCount(bitmap[..nc]) + used
      {
        assert bitmap[..nc + j + 1][..nc + j] == bitmap[..nc + j];
        if bitmap[nc + j] {
          used := used + 1;
        }
      }
    }
  }

  lemma WholeBytes(nc: nat, clusters: nat, size: nat)
    requires nc % 8 == 0 && nc < clusters <= size && size % 4096 == 0
    ensures (nc + 8) % 8 == 0 && nc + 8 <= size
    ensures nc + 8 >= clusters ==> nc + 8 == 8 * ((clusters + 7) / 8)
  {}

  lemma CountNothing(bits: seq<bool>)
    ensures SetCount(bits[..0]) == 0
  {}

  lemma {:induction false} FullByte(bits: seq<bool>, n: nat, k: nat)
    requires n + k <= |bits| && forall j :: n <= j < n + k ==> bits[j]
    ensures SetCount(bits[..n + k]) == SetCount(bits[..n]) + k
  {
    if k > 0 {
      FullByte(bits, n, k - 1);
      assert bits[..n + k][..n + k - 1] == bits[..n + k - 1];
    }
  }

  function FreeBits(bits: seq<bool>, n: nat): set<int>
    requires n <= |bits|
  {
    set i | 0 <= i < n && !bits[i]
  }

  lemma FreeBitsBelow(bits: seq<bool>, m: nat, n: nat)
    requires n <= m <= |bits|
    ensures FreeBits(bits, n) == FreeBits(bits[..m], n)
  {}

  lemma FreeBitsGrow(bits: seq<bool>, n: nat)
    requires n < |bits|
    ensures |FreeBits(bits, n + 1)| == |FreeBits(bits[..n], n)| + if bits[n] then 0 else 1
  {
    FreeBitsBelow(bits, n, n);
    assert FreeBits(bits, n + 1) == if bits[n] then FreeBits(bits, n) else FreeBits(bits, n) + {n};
  }

  /** With clear padding the count returned is the number of free clusters. */
  lemma {:induction false} CountIsFree(bits: seq<bool>, clusterCount: nat)
    requires clusterCount <= |bits| && forall i :: clusterCount <= i < |bits| ==> !bits[i]
    ensures clusterCount - SetCount(bits) == |FreeBits(bits, clusterCount)|
  {
    var n := |bits| - 1;
    if bits == [] {
      assert clusterCount == 0;
    } else if clusterCount == |bits| {
      CountIsFree(bits[..n], n);
      FreeBitsGrow(bits, n);
    } else {
      CountIsFree(bits[..n], clusterCount);
      FreeBitsBelow(bits, n, clusterCount);
    }
  }

  // ----- Chains and bits -----

  /** An exFAT chain ends with the one end-of-chain value. */
  ghost predicate XChain(fat: seq<nat>, ch: Chain) {
    IsChain(fat, ch) && fat[ch[|ch| - 1]] == EXFAT_EOC
  }

  ghost predicate AllSet(bits: seq<bool>, ch: Chain) {
    forall i :: 0 <= i < |ch| ==> 2 <= ch[i] < |bits| + 2 && bits[ch[i] - 2]
  }

  /** Exactly the bits of the listed clusters have been cleared. */
  ghost predicate BitsReleased(before: seq<bool>, after: seq<bool>, ch: Chain) {
    && |after| == |before|
    && forall i :: 0 <= i < |before| ==> after[i] == (before[i] && i + 2 !in ch)
  }

  function HintAfterRelease(hint: nat, ch: Chain): nat
    requires forall i :: 0 <= i < |ch| ==> ch[i] >= 2
  {
    if ch == [] then hint
    else
      var h := HintAfterRelease(hint, ch[..|ch| - 1]);
      if ch[|ch| - 1] - 2 < h then ch[|ch| - 1] - 2 else h
  }

  ghost predicate Rising(ch: Chain, r: nat, i: nat)
    requires r <= i < |ch|
  {
    forall j :: r <= j <= i ==> ch[j] == ch[r] + (j - r)
  }

  lemma XChainStep(fat: seq<nat>, ch: Chain, i: nat)
    requires XChain(fat, ch) && i < |ch| && |fat| <= EXFAT_EOC
    ensures forall j :: 0 <= j < |ch| ==> ch[j] >= 2
    ensures InTable(fat, ch[i])
    ensures i + 1 < |ch| ==> fat[ch[i]] == ch[i + 1] && ch[i + 1] < EXFAT_EOC
    ensures i + 1 == |ch| ==> fat[ch[i]] == EXFAT_EOC
    ensures NoRepeats(ch)
  {
    ChainAcyclic(fat, ch);
    forall j | 0 <= j < |ch| ensures ch[j] >= 2 { assert InTable(fat, ch[j]); }
    assert InTable(fat, ch[i]);
    assert i + 1 < |ch| ==> Follows(fat, ch, i) && InTable(fat, ch[i + 1]);
  }

  lemma ClearedStep(fat: seq<nat>, fat': seq<nat>, ch: Chain, i: nat)
    requires i < |ch| && Cleared(fat, fat', ch[..i]) && ch[i] < |fat|
    requires NoRepeats(ch)
    ensures fat'[ch[i]] == fat[ch[i]]
    ensures Cleared(fat, fat'[ch[i] := 0], ch[..i + 1])
  {
    assert ch[..i + 1] == ch[..i] + [ch[i]];
  }

  lemma SetRunPrefix(bitmap: seq<bool>, cc: nat, b: nat, n: nat, value: bool)
    requires b + n <= cc <= |bitmap|
    ensures SetRun(bitmap, b, n, value)[..cc] == SetRun(bitmap[..cc], b, n, value)
    ensures SetRun(bitmap, b, n, value)[cc..] == bitmap[cc..]
  {
    SetRunBits(bitmap, b, n, value);
    SetRunBits(bitmap[..cc], b, n, value);
  }

  lemma ReleaseStarts(fat: seq<nat>, bits: seq<bool>, hint: nat, ch: Chain)
    requires XChain(fat, ch)
    ensures |ch| > 0 && ch[..0] == [] && Rising(ch, 0, 0)
    ensures Cleared(fat, fat, ch[..0]) && BitsReleased(bits, bits, ch[..0]) && hint == HintAfterRelease(hint, ch[..0])
    ensures forall j :: 0 <= j < |ch| ==> ch[j] >= 2
  {
    forall j | 0 <= j < |ch| ensures ch[j] >= 2 { assert InTable(fat, ch[j]); }
  }

  /** The stretch grows while links go to the next cluster, and restarts when they jump. */
  lemma RisingStep(ch: Chain, r: nat, i: nat)
    requires i + 1 < |ch| && (r == i + 1 || (r <= i && Rising(ch, r, i) && ch[i + 1] == ch[i] + 1))
    ensures Rising(ch, r, i + 1)
  {}

  lemma RisingEnd(ch: Chain, r: nat, i: nat)
    requires r <= i < |ch| && Rising(ch, r, i)
    ensures ch[i] == ch[r] + (i - r)
  {}

  /** Clearing the run of bits of a rising stretch releases exactly that stretch. */
  lemma ReleasedRun(bits0: seq<bool>, bits: seq<bool>, ch: Chain, r: nat, i: nat)
    requires r <= i < |ch| && Rising(ch, r, i) && NoRepeats(ch) && AllSet(bits0, ch)
    requires BitsReleased(bits0, bits, ch[..r])
    ensures ch[r] >= 2 && ch[i] == ch[r] + (i - r) && ch[r] - 2 + (i - r + 1) <= |bits|
    ensures forall b :: ch[r] - 2 <= b < ch[r] - 2 + (i - r + 1) ==> bits[b]
    ensures BitsReleased(bits0, SetRun(bits, ch[r] - 2, i - r + 1, false), ch[..i + 1])
  {
    var b0, n := ch[r] - 2, i - r + 1;
    StretchStillSet(bits0, bits, ch, r, i);
    SetRunBits(bits, b0, n, false);
    hide Rising, NoRepeats, AllSet, SetRun;
    var after := SetRun(bits, b0, n, false);
    forall b | 0 <= b < |bits0| ensures after[b] == (bits0[b] && b + 2 !in ch[..i + 1]) {
      StretchMember(ch, r, i, b + 2);
    }
  }

  lemma ClustersFromTwo(bits: seq<bool>, ch: Chain)
    requires AllSet(bits, ch)
    ensures forall j :: 0 <= j < |ch| ==> ch[j] >= 2
  {}

  lemma StretchStillSet(bits0: seq<bool>, bits: seq<bool>, ch: Chain, r: nat, i: nat)
    requires r <= i < |ch| && Rising(ch, r, i) && NoRepeats(ch) && AllSet(bits0, ch)
    requires BitsReleased(bits0, bits, ch[..r])
    ensures ch[r] >= 2 && ch[i] == ch[r] + (i - r) && ch[i] < |bits| + 2
    ensures forall b :: ch[r] - 2 <= b < ch[r] - 2 + (i - r + 1) ==> bits[b]
  {
    assert ch[i] == ch[r] + (i - r);
    forall b | ch[r] - 2 <= b < ch[r] - 2 + (i - r + 1) ensures bits[b] {
      var j := r + (b - (ch[r] - 2));
      assert ch[j] == b + 2;
      NotBefore(ch, r, j);
    }
  }

  lemma NotBefore(ch: Chain, r: nat, j: nat)
    requires NoRepeats(ch) && r <= j < |ch|
    ensures ch[j] !in ch[..r]
  {}

  lemma StretchMember(ch: Chain, r: nat, i: nat, c: nat)
    requires r <= i < |ch| && Rising(ch, r, i)
    ensures c in ch[..i + 1] <==> c in ch[..r] || ch[r] <= c <= ch[r] + (i - r)
  {
    var front, pre := ch[..i + 1], ch[..r];
    if c in front {
      var j :| 0 <= j < |front| && front[j] == c;
      assert if j < r then pre[j] == c else ch[j] == c;
    }
    if c in pre {
      var j :| 0 <= j < |pre| && pre[j] == c;
      assert front[j] == c;
    }
    if ch[r] <= c <= ch[r] + (i - r) {
      assert front[r + (c - ch[r])] == c;
    }
  }

  /** One update for a rising stretch moves the hint as releasing its clusters one by one. */
  lemma {:induction false} HintOfRun(hint: nat, ch: Chain, r: nat, i: nat)
    requires r <= i < |ch| && Rising(ch, r, i) && forall j :: 0 <= j < |ch| ==> ch[j] >= 2
    ensures var h := HintAfterRelease(hint, ch[..r]);
            HintAfterRelease(hint, ch[..i + 1]) == if ch[r] - 2 < h then ch[r] - 2 else h
    decreases i
  {
    assert ch[..i + 1][..i] == ch[..i];
    if r < i { HintOfRun(hint, ch, r, i - 1); }
  }
}
