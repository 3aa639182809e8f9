/** Several files of one exFAT volume open at the same time. Each keeps its own cursor while the
    others take and release clusters of the shared bitmap and turn ranges into chains, and all of
    them go on meaning what they meant: under any interleaving of their operations every file is a
    byte sequence of its own. */
module ExFatVolume {
  import opened SectorMap
  import opened FatTable
  import opened ExFatPartition
  import opened ExFatLists
  import opened FileBytes
  import opened ExFatFile

  /** Different files of the volume. */
  ghost predicate Together(vol: Partition, files: seq<File>)
    reads vol, files
  {
    && (forall i :: 0 <= i < |files| ==> Ready(vol, files[i]))
    && (forall i, j :: 0 <= i < j < |files| ==> Apart(files[i], files[j]))
  }

  ghost predicate Ready(vol: Partition, f: File)
    reads vol, f
  {
    f.vol == vol && f.Valid()
  }

  ghost predicate Apart(f: File, g: File)
    reads f, g
  {
    f != g && (f.firstCluster == 0 || f.firstCluster != g.firstCluster)
  }

  /** What the files mean, each for itself. */
  ghost predicate Mean(vol: Partition, files: seq<File>, states: seq<ByteFile>)
    reads vol, files
  {
    && Together(vol, files) && |states| == |files|
    && forall i :: 0 <= i < |files| ==> Ready(vol, files[i]) && Meaning(files[i]) == states[i]
  }

  /** What the volume says about a file, in values. */
  ghost predicate Stands(g: Geometry, chains: Chains, ranges: set<nat>, sectors: seq<Sector>, f: File)
    reads f
  {
    var ch := ListOf(chains, f.firstCluster);
    && g.sectorsPerCluster > 0 && g.Fits(sectors, ch) && 0 !in chains
    && (f.firstCluster == 0 || f.firstCluster in chains)
    && (f.firstCluster != 0 ==> (f.contiguous <==> f.firstCluster in ranges))
    && |ch| == g.Needed(f.dataLength) && g.Needed(f.validLength) <= |ch|
    && f.curPosition <= f.validLength <= f.dataLength < 0x1_0000_0000_0000_0000
    && if f.curPosition == 0 then f.curCluster == 0
       else g.ClusterIndex(f.curPosition - 1) < |ch| && f.curCluster == ch[g.ClusterIndex(f.curPosition - 1)]
  }

  ghost function BytesOf(g: Geometry, chains: Chains, sectors: seq<Sector>, f: File): seq<Byte>
    requires g.sectorsPerCluster > 0
    reads f
  {
    var ch := ListOf(chains, f.firstCluster);
    if g.Fits(sectors, ch) && g.Needed(f.validLength) <= |ch| then g.Bytes(sectors, ch, f.validLength) else []
  }

  lemma StandsNow(f: File)
    requires f.Valid()
    ensures Stands(f.vol.geometry, f.vol.chains, f.vol.ranges, f.vol.sectors, f)
    ensures BytesOf(f.vol.geometry, f.vol.chains, f.vol.sectors, f) == f.Contents()
  {
    hide Consistent, Geometry.Needed, Geometry.Bytes, Geometry.Fits, Geometry.ClusterIndex;
    SizePositive(f.vol);
    f.OwnList(f.dataLength);
    f.ValidFits();
  }

  /** A file that was not operated on: its cursor, its bytes and its distance from the others stay. */
  lemma OtherStays(f: File, chains0: Chains, ranges0: set<nat>, sectors0: seq<Sector>, head0: nat, head: nat)
    requires Stands(f.vol.geometry, chains0, ranges0, sectors0, f) && Consistent(f.vol)
    requires OthersKept(f.vol.geometry, chains0, sectors0, head0, f.vol.chains, f.vol.sectors, head)
    requires f.vol.ranges - {head} == ranges0 - {head0}
    requires f.firstCluster == 0 || f.firstCluster != head0
    ensures f.Valid() && f.Contents() == BytesOf(f.vol.geometry, chains0, sectors0, f)
    ensures f.firstCluster == 0 || f.firstCluster != head
  {
    hide Consistent, OthersKept, Geometry.Needed, Geometry.Bytes, Geometry.Fits, Geometry.ClusterIndex;
    var g, h := f.vol.geometry, f.firstCluster;
    if h != 0 {
      OtherFileUnchanged(g, chains0, sectors0, head0, f.vol.chains, f.vol.sectors, head, h, f.validLength);
      assert h in f.vol.ranges - {head} <==> h in ranges0 - {head0};
    } else {
      AllFit(f.vol);
      NothingHeld(g, sectors0, f.validLength);
      NothingHeld(g, f.vol.sectors, f.validLength);
    }
  }

  /** An empty list holds no bytes, on any device. */
  lemma NothingHeld(g: Geometry, sectors: seq<Sector>, size: nat)
    requires g.sectorsPerCluster > 0 && g.Needed(size) == 0
    ensures g.Fits(sectors, []) && g.Bytes(sectors, [], size) == []
  {}

  /** How the files were opened. */
  ghost predicate Flags(files: seq<File>, append: seq<bool>)
    reads files
  {
    |append| == |files| && forall i :: 0 <= i < |files| ==> append[i] == files[i].append
  }

  function NoneLoose(n: nat): seq<bool> {
    seq(n, _ => false)
  }

  /** One operation on one of the files. */
  method PerformOn(vol: Partition, files: seq<File>, i: nat, op: Op, ghost states: seq<ByteFile>, ghost append: seq<bool>)
    returns (ok: bool, data: seq<Byte>, ghost states': seq<ByteFile>)
    requires Mean(vol, files, states) && i < |files| && Flags(files, append)
    modifies files[i], vol
    ensures Flags(files, append)
    ensures ok ==> Mean(vol, files, states')
                   && Moves(states, states', Call(i, op), data, append, MAX_POSITION, NoneLoose(|files|))
  {
    hide OthersKept, Acts, Consistent, Stands, BytesOf, File.Linked;
    var f := files[i];
    assert Ready(vol, f);
    ghost var head0, chains0, ranges0, sectors0 := f.firstCluster, vol.chains, vol.ranges, vol.sectors;
    forall j | 0 <= j < |files| && j != i
      ensures Stands(vol.geometry, chains0, ranges0, sectors0, files[j])
      ensures vol.geometry.sectorsPerCluster > 0
      ensures BytesOf(vol.geometry, chains0, sectors0, files[j]) == states[j].bytes
      ensures files[j] != f && states[j].pos == files[j].curPosition
      ensures files[j].firstCluster == 0 || files[j].firstCluster != head0
    {
      assert Ready(vol, files[j]) && if i < j then Apart(f, files[j]) else Apart(files[j], f);
      StandsNow(files[j]);
      StillConsistent(f);
    }
    ok, data := Perform(f, op);
    states' := states;
    if ok {
      states' := states[i := Meaning(f)];
      StillConsistent(f);
      forall j | 0 <= j < |files| && j != i
        ensures Ready(vol, files[j]) && Meaning(files[j]) == states[j]
        ensures files[j].firstCluster == 0 || files[j].firstCluster != f.firstCluster
      {
        OtherStays(files[j], chains0, ranges0, sectors0, head0, f.firstCluster);
      }
      forall j, k | 0 <= j < k < |files| ensures Apart(files[j], files[k]) {
        assert old(Apart(files[j], files[k]));
      }
    }
  }

  lemma StillConsistent(f: File)
    requires f.Valid()
    ensures Consistent(f.vol) && f.vol.geometry.sectorsPerCluster > 0
  {}

  /** Any interleaving of successful operations on several open files is a history of independent
      byte sequences. */
  method RunAll(vol: Partition, files: seq<File>, calls: seq<Call>, ghost start: seq<ByteFile>, ghost append: seq<bool>)
    returns (done: nat, outputs: seq<seq<Byte>>, ghost states: seq<seq<ByteFile>>)
    requires Mean(vol, files, start) && forall k :: 0 <= k < |calls| ==> calls[k].file < |files|
    requires Flags(files, append)
    modifies vol, files
    ensures done <= |calls|
    ensures Histories(states, calls[..done], outputs, append, MAX_POSITION, NoneLoose(|files|)) && states[0] == start
    ensures done == |calls| ==> Mean(vol, files, states[done])
  {
    hide Mean, Moves, NoneLoose;
    done, outputs, states := 0, [], [start];
    while done < |calls|
      invariant 0 <= done <= |calls| && |states| == done + 1
      invariant Mean(vol, files, states[done]) && states[0] == start && Flags(files, append)
      invariant Histories(states, calls[..done], outputs, append, MAX_POSITION, NoneLoose(|files|))
    {
      var c := calls[done];
      var ok, data;
      ghost var next;
      ok, data, next := PerformOn(vol, files, c.file, c.op, states[done], append);
      if !ok {
        return;
      }
      HistoriesGrow(states, calls[..done], outputs, append, MAX_POSITION, NoneLoose(|files|), c, next, data);
      assert calls[..done + 1] == calls[..done] + [c];
      outputs, states := outputs + [data], states + [next];
      done := done + 1;
    }
  }
}
