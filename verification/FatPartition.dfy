/**
  The FAT16/FAT32 partition: entry access, the allocation searches, chain release and the
  free-cluster count. The device is error-free and the sector cache is transparent, so the
  table and the data sectors are fields.
*/
module FatPartition {
  import opened FatTable
  import opened SectorMap

  /** Result of reading an entry: -1, 0 (the caller's value is left alone) or 1 in the source. */
  datatype Entry = BadCluster | EndOfChain | Link(next: nat)

  // ----- What the searches are to find -----

  /** The lowest free cluster at or above `from`, or the table length when there is none. */
  function NextFree(fat: seq<nat>, from: nat): (r: nat)
    requires from <= |fat|
    ensures from <= r <= |fat|
    ensures r < |fat| ==> fat[r] == 0
    ensures forall c :: from <= c < r ==> fat[c] != 0
    decreases |fat| - from
  {
    if from == |fat| || fat[from] == 0 then from else NextFree(fat, from + 1)
  }

  lemma NextFreeIs(fat: seq<nat>, from: nat, r: nat)
    requires from <= r <= |fat|
    requires forall c :: from <= c < r ==> fat[c] != 0
    requires r < |fat| ==> fat[r] == 0
    ensures NextFree(fat, from) == r
  {}

  /** True when the search must give up looking above `current` and restart at the hint. */
  predicate Wraps(fat: seq<nat>, hint: nat, current: nat)
    requires hint < |fat| && current < |fat|
  {
    current <= hint || NextFree(fat, current + 1) == |fat|
  }

  function AllocChoice(fat: seq<nat>, hint: nat, current: nat): nat
    requires hint < |fat| && current < |fat|
  {
    NextFree(fat, (if Wraps(fat, hint, current) then hint else current) + 1)
  }

  /** Allocation can serve a request only from above the hint. */
  predicate FreeAbove(fat: seq<nat>, hint: nat) {
    exists c :: hint < c < |fat| && fat[c] == 0
  }

  /** The free clusters the search can reach. */
  function FreeReach(fat: seq<nat>, hint: nat): set<nat> {
    set c: nat | hint < c < |fat| && fat[c] == 0
  }

  /** An allocation takes one cluster out of the search's reach, whatever it does to the hint. */
  lemma AllocationTakesOne(fat: seq<nat>, fat': seq<nat>, hint: nat, current: nat, eoc: nat)
    requires hint < |fat| && current < |fat| && (current == 0 || fat[current] != 0) && eoc != 0
    requires FreeAbove(fat, hint) && AllocChoice(fat, hint, current) < |fat|
    requires var next := AllocChoice(fat, hint, current);
             fat' == if current == 0 then fat[next := eoc] else fat[next := eoc][current := next]
    ensures var next := AllocChoice(fat, hint, current);
            var hint' := if Wraps(fat, hint, current) then next else hint;
            |FreeReach(fat', hint')| + 1 == |FreeReach(fat, hint)|
  {
    var next := AllocChoice(fat, hint, current);
    var hint' := if Wraps(fat, hint, current) then next else hint;
    assert FreeReach(fat, hint) == FreeReach(fat', hint') + {next};
  }

  /** Every cluster above `low` up to and including `high` is in use. */
  ghost predicate InUse(fat: seq<nat>, low: int, high: int) {
    0 <= low && high < |fat| && forall c :: low < c <= high ==> fat[c] != 0
  }

  predicate FreeRun(fat: seq<nat>, b: int, n: int) {
    2 <= b && b + n <= |fat| && forall c :: b <= c < b + n ==> fat[c] == 0
  }

  // ----- Counting -----

  function ZeroCount(s: seq<nat>): nat {
    if s == [] then 0 else ZeroCount(s[..|s| - 1]) + (if s[|s| - 1] == 0 then 1 else 0)
  }

  class Partition {
    const fatType: nat
    const geometry: Geometry
    var fat: seq<nat>
    var sectors: seq<Sector>
    var allocSearchStart: nat
    ghost var chains: Chains

    /** A mounted volume; the search for free clusters starts at the bottom. */
    constructor Init(width: nat, clusters: Geometry, table: seq<nat>, device: seq<Sector>, ghost held: Chains)
      requires (width == 16 && 2 <= |table| <= 0xFFFF) || (width == 32 && 2 <= |table| <= 0x0FFF_FFFF)
      requires clusters.sectorsPerCluster > 0
      requires forall c :: 2 <= c < |table| ==> clusters.ClusterFits(device, c)
      ensures Shape() && (WellFormed(table, held) ==> Consistent())
      ensures fatType == width && geometry == clusters && fat == table && sectors == device && chains == held
      ensures allocSearchStart == 1
    {
      fatType, geometry, fat, sectors, allocSearchStart, chains := width, clusters, table, device, 1, held;
    }

    /** The table fits its entry width and the hint lies inside it. */
    ghost predicate Shape()
      reads this
    {
      && (fatType == 16 || fatType == 32)
      && 2 <= |fat| <= EocMark()
      && 1 <= allocSearchStart < |fat|
    }

    /** What mounting establishes and every file operation keeps. */
    ghost predicate Consistent()
      reads this
    {
      && Shape()
      && WellFormed(fat, chains)
      && geometry.sectorsPerCluster > 0
      && forall c :: 2 <= c < |fat| ==> geometry.ClusterFits(sectors, c)
    }

    /** The end-of-chain value as an entry of this table holds it. */
    function EocMark(): nat {
      if fatType == 16 then 0xFFFF else 0x0FFF_FFFF
    }

    function LastCluster(): int
      reads this
    {
      |fat| - 1
    }

    /** An entry holds 16 or 32 bits. */
    function Truncate(value: nat): nat {
      if fatType == 16 then value % 0x1_0000 else value % 0x1_0000_0000
    }

    function FatGet(cluster: nat): Entry
      reads this
    {
      if cluster < 2 || cluster > LastCluster() then BadCluster
      else if IsEoc(fat, fat[cluster]) then EndOfChain
      else Link(fat[cluster])
    }

    method FatPut(cluster: nat, value: nat) returns (ok: bool)
      modifies this`fat
      ensures ok == InTable(old(fat), cluster)
      ensures fat == if ok then old(fat)[cluster := Truncate(value)] else old(fat)
      ensures ok && fatType == 16 ==> fat[cluster] < 0x1_0000 && (value - fat[cluster]) % 0x1_0000 == 0
      ensures ok && fatType != 16 ==> fat[cluster] < 0x1_0000_0000 && (value - fat[cluster]) % 0x1_0000_0000 == 0
    {
      if cluster < 2 || cluster > LastCluster() {
        return false;
      }
      fat := fat[cluster := Truncate(value)];
      return true;
    }

    method FatPutEoc(cluster: nat) returns (ok: bool)
      requires Shape()
      modifies this`fat
      ensures ok == InTable(old(fat), cluster)
      ensures fat == if ok then old(fat)[cluster := EocMark()] else old(fat)
      ensures ok ==> fat[cluster] == if fatType == 16 then 0xFFFF else 0x0FFF_FFFF
    {
      ok := FatPut(cluster, 0x0FFF_FFFF);
    }

    /** The search loop of AllocateCluster: first above `current`, then above the hint. */
    method SearchFree(current: nat) returns (found: bool, find: nat, setStart: bool)
      requires Shape()
      requires current == 0 || (InTable(fat, current) && fat[current] != 0)
      ensures found <==> FreeAbove(fat, allocSearchStart)
      ensures found ==>
        && find == AllocChoice(fat, allocSearchStart, current)
        && find < |fat| && fat[find] == 0
        && setStart == Wraps(fat, allocSearchStart, current)
      ensures found && !setStart ==>
        && allocSearchStart < current < find
        && (forall c :: current < c < find ==> fat[c] != 0)
      ensures found && setStart ==>
        && (current <= allocSearchStart || forall c :: current < c < |fat| ==> fat[c] != 0)
        && allocSearchStart < find && (forall c :: allocSearchStart < c < find ==> fat[c] != 0)
    {
      if allocSearchStart < current {
        find, setStart := current, false;
      } else {
        find, setStart := allocSearchStart, true;
      }
      while true
        invariant find < |fat|
        invariant !setStart ==> allocSearchStart < current <= find && InUse(fat, current, find)
        invariant setStart ==> allocSearchStart <= find && InUse(fat, allocSearchStart, find)
        invariant setStart && allocSearchStart < current ==>
          find < current && InUse(fat, current, |fat| - 1)
        decreases !setStart, |fat| - find
      {
        find := find + 1;
        if find > LastCluster() {
          if setStart {
            return false, 0, setStart;
          }
          find, setStart := allocSearchStart, true;
          continue;
        }
        if find == current {
          return false, 0, setStart;
        }
        var entry := FatGet(find);
        if entry == Link(0) {
          break;
        }
      }
      found := true;
      if allocSearchStart < current {
        NextFreeIs(fat, current + 1, if setStart then |fat| else find);
      }
      if setStart {
        NextFreeIs(fat, allocSearchStart + 1, find);
      }
    }

    method AllocateCluster(current: nat) returns (ok: bool, next: nat)
      requires Shape()
      requires current == 0 || (InTable(fat, current) && fat[current] != 0)
      modifies this`fat, this`allocSearchStart
      ensures Shape()
      ensures ok <==> FreeAbove(old(fat), old(allocSearchStart))
      ensures !ok ==> fat == old(fat) && allocSearchStart == old(allocSearchStart)
      ensures ok ==>
        && next == AllocChoice(old(fat), old(allocSearchStart), current)
        && InTable(old(fat), next) && old(fat)[next] == 0
        && fat == (if current == 0 then old(fat)[next := EocMark()]
                   else old(fat)[next := EocMark()][current := next])
        && allocSearchStart == (if Wraps(old(fat), old(allocSearchStart), current) then next
                                else old(allocSearchStart))
      // With the hint below the current cluster, the next free one above that; the hint stays.
      ensures ok && old(allocSearchStart) < current
              && (exists c :: current < c < |old(fat)| && old(fat)[c] == 0) ==>
        && current < next && (forall c :: current < c < next ==> old(fat)[c] != 0)
        && allocSearchStart == old(allocSearchStart)
      // Otherwise the lowest one above the hint, which moves there.
      ensures ok && (current <= old(allocSearchStart)
                     || forall c :: current < c < |old(fat)| ==> old(fat)[c] != 0) ==>
        && old(allocSearchStart) < next && (forall c :: old(allocSearchStart) < c < next ==> old(fat)[c] != 0)
        && allocSearchStart == next
    {
      var find, setStart;
      ok, find, setStart := SearchFree(current);
      if !ok {
        return false, 0;
      }
      if setStart {
        allocSearchStart := find;
      }
      ok := FatPutEoc(find);
      if current != 0 {
        ok := FatPut(current, find);
      }
      next := find;
    }

    /** The search loop of AllocContiguous. */
    method SearchRun(count: nat) returns (found: bool, bgnCluster: nat, setStart: bool)
      requires Shape()
      ensures found <==> count > 0 && exists b :: allocSearchStart < b && FreeRun(fat, b, count)
      ensures found ==>
        && allocSearchStart < bgnCluster && FreeRun(fat, bgnCluster, count)
        && (forall b :: allocSearchStart < b < bgnCluster ==> !FreeRun(fat, b, count))
        && (setStart <==> forall c :: allocSearchStart < c < bgnCluster ==> fat[c] != 0)
    {
      setStart := true;
      bgnCluster := allocSearchStart + 1;
      var endCluster := bgnCluster;
      while true
        invariant allocSearchStart < bgnCluster <= endCluster <= |fat|
        invariant endCluster - bgnCluster < count || count == 0
        invariant forall c :: bgnCluster <= c < endCluster ==> fat[c] == 0
        invariant count > 0 ==> forall b :: allocSearchStart < b < bgnCluster ==> !FreeRun(fat, b, count)
        invariant setStart <==> InUse(fat, allocSearchStart, bgnCluster - 1)
        decreases |fat| - endCluster
      {
        if endCluster > LastCluster() {
          assert forall b :: bgnCluster <= b && count > 0 ==> !FreeRun(fat, b, count);
          return false, 0, false;
        }
        var entry := FatGet(endCluster);
        if entry != Link(0) {
          assert bgnCluster < endCluster ==> fat[bgnCluster] == 0;
          assert fat[endCluster] != 0;
          assert InUse(fat, allocSearchStart, endCluster)
            <==> InUse(fat, allocSearchStart, bgnCluster - 1) && bgnCluster == endCluster;
          if bgnCluster != endCluster {
            setStart := false;
          }
          bgnCluster := endCluster + 1;
        } else if endCluster - bgnCluster + 1 == count {
          break;
        }
        endCluster := endCluster + 1;
      }
      assert FreeRun(fat, bgnCluster, count);
      found := true;
    }

    method AllocContiguous(count: nat) returns (ok: bool, firstCluster: nat)
      requires Shape()
      modifies this`fat, this`allocSearchStart
      ensures Shape()
      ensures ok <==> count > 0 && exists b :: old(allocSearchStart) < b && FreeRun(old(fat), b, count)
      ensures !ok ==> fat == old(fat) && allocSearchStart == old(allocSearchStart)
      ensures ok ==>
        && old(allocSearchStart) < firstCluster
        && FreeRun(old(fat), firstCluster, count)
        && (forall b :: old(allocSearchStart) < b < firstCluster ==> !FreeRun(old(fat), b, count))
        && LinksRun(old(fat), fat, firstCluster, count)
        && allocSearchStart ==
             (if forall c :: old(allocSearchStart) < c < firstCluster ==> old(fat)[c] != 0
              then firstCluster + count - 1 else old(allocSearchStart))
    {
      var bgnCluster, setStart;
      ok, bgnCluster, setStart := SearchRun(count);
      if !ok {
        return false, 0;
      }
      if setStart {
        allocSearchStart := bgnCluster + count - 1;
      }
      LinkRun(bgnCluster, bgnCluster + count - 1);
      firstCluster := bgnCluster;
    }

    /** The linking loop of AllocContiguous, from the last cluster down to the first. */
    method LinkRun(bgnCluster: nat, last: nat)
      requires Shape() && 2 <= bgnCluster <= last < |fat|
      modifies this`fat
      ensures LinksRun(old(fat), fat, bgnCluster, last - bgnCluster + 1)
    {
      var endCluster := last;
      var ok := FatPutEoc(endCluster);
      while endCluster > bgnCluster
        invariant bgnCluster <= endCluster <= last && ok
        invariant |fat| == |old(fat)|
        invariant forall c :: 0 <= c < |fat| && !(endCluster <= c <= last) ==> fat[c] == old(fat)[c]
        invariant forall c :: endCluster <= c < last ==> fat[c] == c + 1
        invariant fat[last] == EocMark()
      {
        ok := FatPut(endCluster - 1, endCluster);
        endCluster := endCluster - 1;
      }
    }

    /** Terminates on every table, cyclic and cross-linked ones included. */
    method FreeChain(start: nat) returns (ok: bool)
      requires Shape()
      modifies this`fat, this`allocSearchStart
      ensures Shape()
      ensures (fat, ok) == FreeFrom(old(fat), start)
      ensures allocSearchStart == HintAfterFree(old(fat), start, old(allocSearchStart))
    {
      var cluster: nat := start;
      while true
        invariant |fat| == |old(fat)| && 1 <= allocSearchStart <= old(allocSearchStart)
        invariant FreeFrom(fat, cluster) == FreeFrom(old(fat), start)
        invariant HintAfterFree(fat, cluster, allocSearchStart)
               == HintAfterFree(old(fat), start, old(allocSearchStart))
        decreases NonZero(fat), cluster
      {
        var entry := FatGet(cluster);
        if entry == BadCluster {
          return false;
        }
        ClearShrinks(fat, cluster);
        assert fat[cluster] == 0 ==> fat[cluster := 0] == fat;
        ok := FatPut(cluster, 0);
        if cluster < allocSearchStart {
          allocSearchStart := cluster - 1;
        }
        if entry == EndOfChain {
          return true;
        }
        cluster := entry.next;
      }
    }

    /** The scan reads one FAT sector at a time and counts zero entries, reserved ones included. */
    method FreeClusterCount() returns (free: nat)
      requires Shape()
      ensures free == ZeroCount(fat)
    {
      free := 0;
      var todo := LastCluster() + 1;
      while todo != 0
        invariant 0 <= todo <= |fat|
        invariant free == ZeroCount(fat[..|fat| - todo])
      {
        var n := if fatType == 16 then BYTES_PER_SECTOR / 2 else BYTES_PER_SECTOR / 4;
        if todo < n {
          n := todo;
        }
        var first := |fat| - todo;
        var sector := fat[first..first + n];
        for i := 0 to n
          invariant free == ZeroCount(fat[..first + i])
        {
          assert fat[..first + i + 1][..first + i] == fat[..first + i];
          if sector[i] == 0 {
            free := free + 1;
          }
        }
        todo := todo - n;
      }
      assert fat[..|fat|] == fat;
    }
  }

  // ----- What the contracts above mean for the heap of chains -----

  /** The count returned is the number of free clusters, plus any reserved entry that is zero. */
  lemma {:induction false} ZeroCountIsFree(fat: seq<nat>)
    requires |fat| >= 2
    ensures ZeroCount(fat) == |FreeClusters(fat)| + (if fat[0] == 0 then 1 else 0) + (if fat[1] == 0 then 1 else 0)
  {
    var n := |fat| - 1;
    if |fat| == 2 {
      assert FreeClusters(fat) == {};
      assert fat[..1][..0] == [] && ZeroCount(fat[..1]) == ZeroCount([]) + (if fat[0] == 0 then 1 else 0);
    } else {
      ZeroCountIsFree(fat[..n]);
      assert FreeClusters(fat) == if fat[n] == 0 then FreeClusters(fat[..n]) + {n} else FreeClusters(fat[..n]);
    }
  }

  lemma {:induction false} HintUnderFreed(fat: seq<nat>, ch: Chain, hint: nat)
    requires IsChain(fat, ch) && hint >= 1
    ensures var hint' := HintAfterFree(fat, ch[0], hint);
            && hint' <= hint && (if ch == [hint] then hint' == hint else exists c :: c in ch && hint' < c)
            && (hint' < hint ==> hint' + 1 in ch) && forall c :: c in ch ==> hint' <= c
    decreases |ch|
  {
    assert InTable(fat, ch[0]);
    HintAfterFreeBounds(fat, ch[0], hint);
    if |ch| > 1 {
      assert Follows(fat, ch, 0) && InTable(fat, ch[1]);
      ChainAcyclic(fat, ch);
      ChainTail(fat, ch, 1);
      ChainFrame(fat, fat[ch[0] := 0], ch[1..]);
      ClearShrinks(fat, ch[0]);
      HintUnderFreed(fat[ch[0] := 0], ch[1..], if ch[0] < hint then ch[0] - 1 else hint);
      assert ch[0] in ch && forall c :: c in ch[1..] ==> c in ch;
      assert forall c :: c in ch ==> c == ch[0] || c in ch[1..];
    } else {
      assert ch == [ch[0]] && ch[0] in ch;
    }
  }

  /**
    After releasing a chain an allocation succeeds, unless it could not before and the chain was
    the single cluster the hint points at.
  */
  lemma FreedClustersUsable(fat: seq<nat>, ch: Chain, hint: nat)
    requires IsChain(fat, ch) && 1 <= hint < |fat|
    ensures FreeAbove(FreeFrom(fat, ch[0]).0, HintAfterFree(fat, ch[0], hint))
            <==> FreeAbove(fat, hint) || ch != [hint]
  {
    FreeChainClears(fat, ch);
    HintUnderFreed(fat, ch, hint);
    var fat', hint' := FreeFrom(fat, ch[0]).0, HintAfterFree(fat, ch[0], hint);
    if FreeAbove(fat, hint) {
      var c :| hint < c < |fat| && fat[c] == 0;
      assert fat'[c] == 0;
    }
    if ch != [hint] {
      var c :| c in ch && hint' < c;
      assert InTable(fat, c) && fat'[c] == 0;
    }
  }
}
