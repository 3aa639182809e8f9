/** The exFAT modules together: a file is stored on a volume exactly when it has the room, and
    from a blank device to the bytes read back. */
module ExFatSession {
  import opened SectorMap
  import opened FatTable
  import opened ExFatPartition
  import opened ExFatLists
  import opened ExFatFile
  import opened FileBytes
  import ExFatFormatter
  import PartitionTable
  import UpcaseTable

  function FreeClusterNumber(bits: seq<bool>): nat {
    |FreeBits(bits, |bits|)|
  }

  /** What a new file takes comes from the free clusters, and nothing is lost. */
  lemma TakenFromFree(fat0: seq<nat>, bits0: seq<bool>, chains0: Chains, ranges0: set<nat>,
                      fat: seq<nat>, bits: seq<bool>, chains: Chains, ranges: set<nat>, first: nat)
    requires XWellFormed(fat0, bits0, chains0, ranges0) && XWellFormed(fat, bits, chains, ranges)
    requires |bits| == |bits0| && chains - {first} == chains0 - {0}
    ensures FreeClusterNumber(bits) + |ListOf(chains, first)| == FreeClusterNumber(bits0)
  {
    ListsAndFreeAddUp(fat0, bits0, chains0, ranges0);
    ListsAndFreeAddUp(fat, bits, chains, ranges);
    forall h | h in chains ensures NoRepeats(chains[h]) {
      ListDistinct(fat, chains[h], h in ranges);
    }
    TotalWithout(chains, first);
    NoZeroList(fat0, bits0, chains0, ranges0);
    assert chains0 - {0} == chains0;
  }

  lemma NoneFree(bits: seq<bool>)
    requires !SomeFree(bits)
    ensures FreeClusterNumber(bits) == 0
  {
    assert FreeBits(bits, |bits|) == {};
  }

  /** Looking for a cluster never ends once this volume is full: its clusters are taken in order, and
      behind the volume's last one the search starts over at bit 0. */
  predicate EndlessWhenFull(bits: seq<bool>, hint: nat)
    requires bits != []
  {
    if SomeFree(bits) then !bits[|bits| - 1] else hint == 0
  }

  /** Any bytes can be written to an empty file exactly when the volume has as many free clusters
      as they need. When it has not, the write returns exactly if the last cluster of the volume
      was in use, or nothing was free and the search started above bit 0. */
  method Fill(file: File, src: seq<Byte>) returns (r: Outcome)
    requires file.Valid() && file.firstCluster == 0 && file.readable && file.writable
    modifies file, file.vol
    ensures file.vol.geometry.sectorsPerCluster > 0
    ensures r == Stepped <==> file.vol.geometry.Needed(|src|) <= FreeClusterNumber(old(file.vol.Bits()))
    ensures r == Hangs <==> r != Stepped && EndlessWhenFull(old(file.vol.Bits()), old(file.vol.bitmapStart))
    ensures r == Full <==> r != Stepped && r != Hangs
    ensures r == Stepped ==> file.Valid() && file.Contents() == src
    ensures file.readable
    ensures OthersKept(file.vol.geometry, old(file.vol.chains), old(file.vol.sectors), 0,
                       file.vol.chains, file.vol.sectors, file.firstCluster)
  {
    hide Consistent, XWellFormed, SomeFree, Agrees, Geometry.Needed, Geometry.ClusterIndex, Geometry.Bytes,
      FreeClusterNumber, OthersKept, EndlessWhenFull, PackedTo;
    ghost var vol := file.vol;
    SizePositive(vol);
    InOrder(vol);
    NothingPacked(vol.Bits());
    ghost var fat0, bits0, chains0, ranges0, hint0 := vol.fat, vol.Bits(), vol.chains, vol.ranges, vol.bitmapStart;
    file.OwnList(file.dataLength);
    r := file.Write(src);
    ChainsKept(vol.geometry, chains0, old(vol.sectors), vol.chains, vol.sectors, file.firstCluster);
    Room(vol, fat0, bits0, chains0, ranges0, file.firstCluster);
    if r != Stepped {
      NoneFree(vol.Bits());
      NeedsMore(vol.geometry, |file.Chain()|, |src|);
      CursorLast(file);
      EndOfSearch(vol, fat0, bits0, chains0, ranges0, hint0, file.firstCluster, file.curCluster);
    }
  }

  lemma NothingPacked(bits: seq<bool>)
    ensures PackedTo(bits, [], 0)
  {}

  /** A full file's cursor is on a cluster of the file, or the file has none. */
  lemma CursorLast(file: File)
    requires file.Linked(Max(file.dataLength, file.curPosition)) && file.OutOfSpace()
    ensures if file.Chain() == [] then file.curCluster == 0 else file.curCluster in file.Chain()
  {
    hide Consistent, SomeFree, Geometry.Needed, Geometry.ClusterIndex;
    SizePositive(file.vol);
    if file.Chain() != [] {
      var n, b := |file.Chain()| - 1, file.vol.geometry.BytesPerCluster();
      MulNonNegative(n, b);
      assert (n + 1) * b == n * b + b;
    }
  }

  /** On a full volume the search starts at bit 0 exactly if the last cluster taken is the last of
      the volume. */
  lemma EndOfSearch(vol: Partition, fat0: seq<nat>, bits0: seq<bool>, chains0: Chains, ranges0: set<nat>,
                    hint0: nat, first: nat, cur: nat)
    requires Consistent(vol) && |bits0| == vol.clusterCount && XWellFormed(fat0, bits0, chains0, ranges0)
    requires vol.chains - {first} == chains0 - {0} && !SomeFree(vol.Bits())
    requires PackedTo(vol.Bits(), ListOf(vol.chains, first), cur)
    requires if ListOf(vol.chains, first) == [] then cur == 0 else cur in ListOf(vol.chains, first)
    requires cur == 0 ==> vol.bitmapStart == hint0
    ensures vol.Shape()
    ensures EndlessWhenFull(bits0, hint0) <==> vol.StartBit(if cur != 0 then cur + 1 else 0) == 0
  {
    hide XWellFormed, SomeFree, FreeClusterNumber;
    var bits, n := vol.Bits(), vol.clusterCount;
    InOrder(vol);
    Room(vol, fat0, bits0, chains0, ranges0, first);
    NoneFree(bits);
    NoneOrSome(bits0);
    if ListOf(vol.chains, first) != [] {
      LastTaken(fat0, bits0, chains0, ranges0, vol.fat, bits, vol.chains, vol.ranges, first, cur);
    }
  }

  /** Of the clusters taken, which are those that were free, the last is the volume's last exactly if
      that was free. */
  lemma LastTaken(fat0: seq<nat>, bits0: seq<bool>, chains0: Chains, ranges0: set<nat>,
                  fat: seq<nat>, bits: seq<bool>, chains: Chains, ranges: set<nat>, first: nat, cur: nat)
    requires XWellFormed(fat0, bits0, chains0, ranges0) && XWellFormed(fat, bits, chains, ranges)
    requires |bits| == |bits0| > 0 && chains - {first} == chains0 - {0} && !SomeFree(bits)
    requires PackedTo(bits, ListOf(chains, first), cur) && cur in ListOf(chains, first)
    ensures 2 <= cur <= |bits| + 1 && (cur == |bits| + 1 <==> !bits0[|bits| - 1])
  {
    hide XWellFormed;
    var n := |bits|;
    assert bits[n - 1];
    BitOfTaken(fat, bits, chains, ranges, first, cur);
    TakenWasFree(fat0, bits0, chains0, ranges0, fat, bits, chains, ranges, first, n + 1);
  }

  lemma BitOfTaken(fat: seq<nat>, bits: seq<bool>, chains: Chains, ranges: set<nat>, first: nat, c: nat)
    requires XWellFormed(fat, bits, chains, ranges) && c in ListOf(chains, first)
    ensures 2 <= c <= |bits| + 1
  {
    assert Owns(chains, first, c);
    OwnedBit(fat, bits, chains, ranges, first, c);
  }

  lemma NoneOrSome(bits: seq<bool>)
    ensures SomeFree(bits) <==> FreeClusterNumber(bits) > 0
  {
    if SomeFree(bits) {
      var i :| 0 <= i < |bits| && !bits[i];
      assert i in FreeBits(bits, |bits|);
    } else {
      NoneFree(bits);
    }
  }

  /** A cluster that is in use now is the new file's exactly if it was free. */
  lemma TakenWasFree(fat0: seq<nat>, bits0: seq<bool>, chains0: Chains, ranges0: set<nat>,
                     fat: seq<nat>, bits: seq<bool>, chains: Chains, ranges: set<nat>, first: nat, c: nat)
    requires XWellFormed(fat0, bits0, chains0, ranges0) && XWellFormed(fat, bits, chains, ranges)
    requires |bits| == |bits0| && chains - {first} == chains0 - {0} && 2 <= c < |bits| + 2 && bits[c - 2]
    ensures c in ListOf(chains, first) <==> !bits0[c - 2]
  {
    NoZeroList(fat0, bits0, chains0, ranges0);
    assert InTable(fat, c) && InTable(fat0, c) && Owned(chains, c);
    if bits0[c - 2] {
      var h :| Owns(chains0, h, c);
      assert h in chains0 - {0} && h in chains - {first} && Owns(chains, h, c);
      assert c in ListOf(chains, first) ==> Owns(chains, first, c);
    } else {
      var h :| Owns(chains, h, c);
      if h != first {
        assert h in chains - {first} && h in chains0 - {0} && Owns(chains0, h, c);
      }
    }
  }

  lemma ChainsKept(g: Geometry, chains0: Chains, sectors0: seq<Sector>,
                   chains: Chains, sectors: seq<Sector>, first: nat)
    requires OthersKept(g, chains0, sectors0, 0, chains, sectors, first)
    ensures chains - {first} == chains0 - {0}
  {}

  lemma Room(vol: Partition, fat0: seq<nat>, bits0: seq<bool>, chains0: Chains, ranges0: set<nat>, first: nat)
    requires Consistent(vol) && |bits0| == vol.clusterCount && XWellFormed(fat0, bits0, chains0, ranges0)
    requires vol.chains - {first} == chains0 - {0}
    ensures vol.Shape() && FreeClusterNumber(vol.Bits()) + |ListOf(vol.chains, first)| == FreeClusterNumber(bits0)
  {
    TakenFromFree(fat0, bits0, chains0, ranges0, vol.fat, vol.Bits(), vol.chains, vol.ranges, first);
  }

  lemma InOrder(vol: Partition)
    requires Consistent(vol)
    ensures vol.Shape() && XWellFormed(vol.fat, vol.Bits(), vol.chains, vol.ranges)
  {}

  /** A freshly formatted volume has all clusters free but three. */
  lemma FreshRoom(bits: seq<bool>)
    requires |bits| >= 4 && forall i :: 0 <= i < |bits| ==> (bits[i] <==> i < 3)
    ensures FreeClusterNumber(bits) == |bits| - 3
    ensures forall hint :: EndlessWhenFull(bits, hint)
  {
    UsedAndFree(bits, |bits|);
    assert UsedClusters(bits, |bits|) == {2, 3, 4};
  }

  /** From a device that can be formatted to the bytes read back: a new file holds any bytes for
      which the clusters behind the bitmap, the up-case table and the root suffice; writing more than
      that never returns. What formatting put in front of the clusters stays. */
  method StoreAndLoad(formatter: ExFatFormatter.Formatter, cases: UpcaseTable.CaseMap, src: seq<Byte>)
    returns (r: Outcome, data: seq<Byte>, file: File)
    requires ExFatFormatter.MINIMUM <= formatter.device.Length < PartitionTable.WORD
    modifies formatter, formatter.device
    ensures formatter.layout.Sound(formatter.device.Length)
    ensures var l := formatter.layout;
            r == Stepped <==> Geometry(l.HeapStart(), l.SectorsPerCluster()).Needed(|src|) <= l.clusterCount - 3
    ensures r == Hangs <==> r != Stepped
    ensures r == Stepped ==> data == src
    ensures |file.vol.sectors| == formatter.device.Length
    ensures forall e :: 0 <= e < formatter.layout.HeapStart() && e < formatter.device.Length ==>
              file.vol.sectors[e] == formatter.device[e]
  {
    hide Consistent, ExFatFormatter.Formatter.Formatted, OthersKept, Geometry.Needed, Geometry.ClusterIndex,
      Geometry.Bytes;
    hide FreeClusterNumber, EndlessWhenFull, ExFatFormatter.Layout.Sound, ExFatFormatter.Layout.SectorsPerCluster;
    data := [];
    var vol := formatter.FormatAndMount(cases);
    SizePositive(vol);
    FreshRoom(vol.Bits());
    NeedsMore(vol.geometry, 0, 0);
    file := new File.Open(vol, 0, 0, 0, false, true, true, false);
    ghost var chains0, sectors0 := vol.chains, vol.sectors;
    r := Fill(file, src);
    FrontStays(vol.geometry, chains0, sectors0, 0, vol.chains, vol.sectors, file.firstCluster);
    if r == Stepped {
      assert file.Contents()[..|src|] == src;
      var sought := file.SeekSet(0);
      var ok;
      ok, data := file.Read(|src|);
    }
  }
}
