/** The FAT modules together: a file is stored on a volume exactly when the allocator can reach the
    room for it, and from a blank device to the bytes read back. */
module FatSession {
  import opened SectorMap
  import opened FatPartition
  import opened FatTable
  import opened FatFile
  import opened FileBytes
  import FatFormatter
  import PartitionTable

  /** Any bytes can be written to an empty file exactly when their number fits 32 bits and the free
      clusters above the allocation hint are as many as they need. */
  method Fill(file: File, src: seq<Byte>) returns (ok: bool)
    requires file.Valid() && file.firstCluster == 0 && file.readable && file.writable && !file.preallocated
    modifies file, file.vol
    ensures file.vol.geometry.sectorsPerCluster > 0
    ensures ok <==> |src| <= 0xFFFF_FFFF && file.vol.geometry.Needed(|src|) <= old(file.Room())
    ensures ok ==> file.Valid() && file.Contents() == src
    ensures file.readable
    ensures OthersKept(file.vol.geometry, old(file.vol.chains), old(file.vol.sectors), 0,
                       file.vol.chains, file.vol.sectors, file.firstCluster)
  {
    hide Partition.Consistent, OthersKept, Agrees, FreeAbove, FreeReach, Geometry.Needed, Geometry.ClusterIndex,
      Geometry.Bytes;
    file.OwnChain(file.fileSize);
    ok := file.Write(src);
    if !ok {
      NoneReached(file.vol.fat, file.vol.allocSearchStart);
      NeedsMore(file.vol.geometry, |file.Chain()|, |src|);
    }
  }

  lemma NoneReached(fat: seq<nat>, hint: nat)
    ensures !FreeAbove(fat, hint) ==> |FreeReach(fat, hint)| == 0
  {
    if !FreeAbove(fat, hint) {
      assert FreeReach(fat, hint) == {};
    }
  }

  /** On a freshly formatted volume every cluster but the root directory of FAT32 is in reach. */
  lemma {:induction false} FreshRoom(fat: seq<nat>, fatType: nat, n: nat)
    requires fatType == 16 || fatType == 32
    requires 3 <= n <= |fat| && forall c :: 2 <= c < |fat| ==> fat[c] == FatFormatter.FreshEntry(fatType, c)
    ensures |FreeReach(fat[..n], 1)| == n - 2 - if fatType == 32 then 1 else 0
  {
    if n == 3 {
      assert FreeReach(fat[..n], 1) == if fatType == 32 then {} else {2};
    } else {
      FreshRoom(fat, fatType, n - 1);
      assert FreeReach(fat[..n], 1) == FreeReach(fat[..n - 1], 1) + {n - 1};
    }
  }

  lemma SoundFacts(l: FatFormatter.Layout, n: nat)
    requires l.Sound(n)
    ensures l.sectorsPerCluster > 0 && l.clusterCount >= FatFormatter.MIN_FAT16
  {}

  /** From a device that can be formatted to the bytes read back: a new file holds any bytes for
      which 32 bits and the clusters of the volume suffice. What formatting put in front of the data
      area stays, stored or not. */
  method StoreAndLoad(formatter: FatFormatter.Formatter, src: seq<Byte>)
    returns (ok: bool, data: seq<Byte>, file: File)
    requires formatter.device.Length < PartitionTable.WORD && FatFormatter.Formattable(formatter.device.Length)
    modifies formatter, formatter.device
    ensures formatter.layout.Sound(formatter.device.Length) && formatter.layout.sectorsPerCluster > 0
    ensures var l := formatter.layout;
            ok <==> |src| <= 0xFFFF_FFFF
                    && Geometry(l.dataStart, l.sectorsPerCluster).Needed(|src|)
                       <= l.clusterCount - if formatter.device.Length < FatFormatter.BIG then 0 else 1
    ensures ok ==> data == src
    ensures |file.vol.sectors| == formatter.device.Length
    ensures forall e :: 0 <= e < formatter.layout.dataStart && e < formatter.device.Length ==>
              file.vol.sectors[e] == formatter.device[e]
  {
    hide Partition.Consistent, FatFormatter.Formattable, FatFormatter.Layout.Sound, FatFormatter.FreshEntry, OthersKept;
    hide FreeAbove, FreeReach, Geometry.Needed, Geometry.ClusterIndex, Geometry.Bytes;
    data := [];
    var vol := formatter.FormatAndMount();
    SoundFacts(formatter.layout, formatter.device.Length);
    FreshRoom(vol.fat, vol.fatType, |vol.fat|);
    assert vol.fat[..|vol.fat|] == vol.fat;
    NeedsMore(vol.geometry, 0, 0);
    file := new File.Open(vol, 0, 0, true, true, false, false);
    ghost var chains0, sectors0 := vol.chains, vol.sectors;
    ok := Fill(file, src);
    FrontStays(vol.geometry, chains0, sectors0, 0, vol.chains, vol.sectors, file.firstCluster);
    if ok {
      assert file.Contents()[..|src|] == src;
      var sought := file.SeekSet(0);
      ok, data := file.Read(|src|);
    }
  }

  /** One-cluster chains are allocated until the search finds nothing. Each moves the hint to itself. */
  method AllocateAll(vol: Partition) returns (last: nat)
    requires vol.Consistent()
    modifies vol
    ensures vol.Consistent() && !FreeAbove(vol.fat, vol.allocSearchStart)
    ensures FreeAbove(old(vol.fat), old(vol.allocSearchStart)) ==>
              last == vol.allocSearchStart && last in vol.chains && vol.chains[last] == [last]
  {
    hide WellFormed, IsChain, FreeAbove, FreeReach;
    last := 0;
    ghost var fat1, hint1 := vol.fat, vol.allocSearchStart;
    while true
      invariant vol.Consistent()
      invariant if last == 0 then vol.fat == fat1 && vol.allocSearchStart == hint1
                else last == vol.allocSearchStart && last in vol.chains && vol.chains[last] == [last]
      decreases |FreeReach(vol.fat, vol.allocSearchStart)|
    {
      ghost var fat0, chains0, hint0 := vol.fat, vol.chains, vol.allocSearchStart;
      var ok, next := vol.AllocateCluster(0);
      if !ok {
        return;
      }
      AllocationTakesOne(fat0, vol.fat, hint0, 0, vol.EocMark());
      FreeIsNoHead(fat0, chains0, next);
      NewRun(fat0, chains0, vol.fat, next, 1);
      assert Run(next, 1) == [next];
      vol.chains := chains0[next := [next]];
      last := next;
    }
  }

  /** On any device that can be formatted: when every cluster has been taken, one at a time, and the
      last one is released, then a cluster is free and none can be allocated. */
  method AllocationMissesFreeCluster(formatter: FatFormatter.Formatter) returns (vol: Partition, ok: bool)
    requires formatter.device.Length < PartitionTable.WORD && FatFormatter.Formattable(formatter.device.Length)
    modifies formatter, formatter.device
    ensures vol.Consistent() && FreeClusters(vol.fat) != {} && !ok
  {
    hide WellFormed, IsChain, FreeAbove, FreeFrom, HintAfterFree, FatFormatter.Formattable, FatFormatter.Layout.Sound;
    vol := formatter.FormatAndMount();
    SoundFacts(formatter.layout, formatter.device.Length);
    SomethingFree(vol.fat, vol.fatType);
    var last := AllocateAll(vol);
    ghost var fat, hint, chains := vol.fat, vol.allocSearchStart, vol.chains;
    ReleasedOutOfReach(fat, chains, hint, vol.EocMark());
    var freed := vol.FreeChain(last);
    vol.chains := chains - {last};
    var next;
    ok, next := vol.AllocateCluster(0);
  }

  lemma SomethingFree(fat: seq<nat>, fatType: nat)
    requires |fat| > 3 && fat[3] == FatFormatter.FreshEntry(fatType, 3)
    ensures FreeAbove(fat, 1)
  {
    assert fat[3] == 0;
  }

  lemma ReleasedOutOfReach(fat: seq<nat>, chains: Chains, hint: nat, eoc: nat)
    requires WellFormed(fat, chains) && hint in chains && chains[hint] == [hint] && 1 <= hint < |fat|
    requires !FreeAbove(fat, hint)
    ensures var fat' := FreeFrom(fat, hint).0;
            && !FreeAbove(fat', HintAfterFree(fat, hint, hint)) && hint in FreeClusters(fat')
            && WellFormed(fat', chains - {hint}) && 1 <= HintAfterFree(fat, hint, hint) <= hint && |fat'| == |fat|
  {
    ReleaseChain(fat, chains, hint, eoc);
    FreeChainClears(fat, chains[hint]);
    FreedClustersUsable(fat, chains[hint], hint);
    HintAfterFreeBounds(fat, hint, hint);
  }
}
