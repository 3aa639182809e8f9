/** Several files of one FAT volume open at the same time. Each keeps its own cursor while the
    others make the shared table and search start move, and all of them go on meaning what they
    meant: under any interleaving of their operations every file is a byte sequence of its own. */
module FatVolume {
  import opened SectorMap
  import opened FatTable
  import opened FatPartition
  import opened FileBytes
  import opened FatFile

  /** Different files of the volume. */
  ghost predicate Together(vol: Partition, files: seq<File>)
    reads vol, files
  {
    && (forall i :: 0 <= i < |files| ==> Ready(vol, files[i]))
    && (forall i, j :: 0 <= i < j < |files| ==> Apart(files[i], files[j]))
  }

  ghost predicate Ready(vol: Partition, f: File)
    reads vol, f
  {
    f.vol == vol && f.Valid()
  }

  ghost predicate Apart(f: File, g: File)
    reads f, g
  {
    f != g && (f.firstCluster == 0 || f.firstCluster != g.firstCluster)
  }

  /** What the files mean, each for itself. */
  ghost predicate Mean(vol: Partition, files: seq<File>, states: seq<ByteFile>)
    reads vol, files
  {
    && Together(vol, files) && |states| == |files|
    && forall i :: 0 <= i < |files| ==> Ready(vol, files[i]) && Meaning(files[i]) == states[i]
  }

  /** What the volume says about a file, in values. */
  ghost predicate Stands(g: Geometry, fat: seq<nat>, chains: Chains, sectors: seq<Sector>, f: File)
    reads f
  {
    var ch := if f.firstCluster in chains then chains[f.firstCluster] else [];
    && g.sectorsPerCluster > 0
    && WellFormed(fat, chains) && (forall c :: 2 <= c < |fat| ==> g.ClusterFits(sectors, c))
    && (f.firstCluster == 0 || f.firstCluster in chains)
    && |ch| == g.Needed(f.fileSize) && (f.contiguous ==> Contiguous(ch))
    && f.curPosition <= f.fileSize <= MAX_FILE_SIZE && CursorAt(g, ch, f.curPosition, f.curCluster)
  }

  ghost function BytesOf(g: Geometry, chains: Chains, sectors: seq<Sector>, f: File): seq<Byte>
    requires g.sectorsPerCluster > 0
    reads f
  {
    var ch := if f.firstCluster in chains then chains[f.firstCluster] else [];
    if g.Fits(sectors, ch) && g.Needed(f.fileSize) <= |ch| then g.Bytes(sectors, ch, f.fileSize) else []
  }

  lemma StandsNow(f: File)
    requires f.Valid()
    ensures Stands(f.vol.geometry, f.vol.fat, f.vol.chains, f.vol.sectors, f)
    ensures BytesOf(f.vol.geometry, f.vol.chains, f.vol.sectors, f) == f.Contents()
  {
    hide WellFormed, Geometry.Needed, Geometry.Bytes, Geometry.Fits, CursorAt, Contiguous;
    f.OwnChain(f.fileSize);
  }

  /** A file that was not operated on: its cursor, its bytes and its distance from the others stay. */
  lemma OtherStays(f: File, fat0: seq<nat>, chains0: Chains, sectors0: seq<Sector>, head0: nat, head: nat)
    requires Stands(f.vol.geometry, fat0, chains0, sectors0, f) && f.vol.Consistent()
    requires OthersKept(f.vol.geometry, chains0, sectors0, head0, f.vol.chains, f.vol.sectors, head)
    requires f.firstCluster == 0 || f.firstCluster != head0
    ensures f.Valid() && f.Contents() == BytesOf(f.vol.geometry, chains0, sectors0, f)
    ensures f.firstCluster == 0 || f.firstCluster != head
  {
    hide WellFormed, OthersKept, Geometry.Needed, Geometry.Bytes, Geometry.Fits, Geometry.ClusterFits, CursorAt, Contiguous;
    var g, h := f.vol.geometry, f.firstCluster;
    if h != 0 {
      HeldFits(g, fat0, sectors0, chains0, h);
      OtherFileUnchanged(g, chains0, sectors0, head0, f.vol.chains, f.vol.sectors, head, h, f.fileSize);
    } else {
      NoZeroHead(f.vol.fat, f.vol.chains);
      NoZeroHead(fat0, chains0);
      NothingNeeded(g, f.fileSize);
      NothingHeld(g, sectors0);
      NothingHeld(g, f.vol.sectors);
    }
  }

  lemma HeldFits(g: Geometry, fat: seq<nat>, sectors: seq<Sector>, chains: Chains, h: nat)
    requires WellFormed(fat, chains) && h in chains && g.sectorsPerCluster > 0
    requires forall c :: 2 <= c < |fat| ==> g.ClusterFits(sectors, c)
    ensures g.Fits(sectors, chains[h])
  {
    assert IsChain(fat, chains[h]);
    forall i | 0 <= i < |chains[h]| ensures g.ClusterFits(sectors, chains[h][i]) {
      assert InTable(fat, chains[h][i]);
    }
  }

  /** An empty list holds no bytes, on any device. */
  lemma NothingHeld(g: Geometry, sectors: seq<Sector>)
    requires g.sectorsPerCluster > 0
    ensures g.Fits(sectors, []) && g.Bytes(sectors, [], 0) == []
  {}

  lemma NothingNeeded(g: Geometry, size: nat)
    requires g.sectorsPerCluster > 0 && g.Needed(size) == 0
    ensures size == 0
  {}

  /** How the files were opened, and which of them were preallocated. */
  ghost predicate Flags(files: seq<File>, append: seq<bool>, loose: seq<bool>)
    reads files
  {
    && |append| == |files| == |loose|
    && forall i :: 0 <= i < |files| ==> append[i] == files[i].append && (files[i].preallocated ==> loose[i])
  }

  /** One operation on one of the files. */
  method PerformOn(vol: Partition, files: seq<File>, i: nat, op: Op, ghost states: seq<ByteFile>,
                   ghost append: seq<bool>, ghost loose: seq<bool>)
    returns (ok: bool, data: seq<Byte>, ghost states': seq<ByteFile>)
    requires Mean(vol, files, states) && i < |files| && Flags(files, append, loose)
    modifies files[i], vol
    ensures Flags(files, append, loose)
    ensures ok ==> Mean(vol, files, states') && Moves(states, states', Call(i, op), data, append, MAX_FILE_SIZE, loose)
  {
    hide OthersKept, Acts, Partition.Consistent, Stands, BytesOf, File.Linked;
    var f := files[i];
    assert Ready(vol, f);
    ghost var head0, fat0, chains0, sectors0 := f.firstCluster, vol.fat, vol.chains, vol.sectors;
    forall j | 0 <= j < |files| && j != i
      ensures Stands(vol.geometry, fat0, chains0, sectors0, files[j])
      ensures vol.geometry.sectorsPerCluster > 0 && BytesOf(vol.geometry, chains0, sectors0, files[j]) == states[j].bytes
      ensures files[j] != f && states[j].pos == files[j].curPosition
      ensures files[j].firstCluster == 0 || files[j].firstCluster != head0
    {
      assert Ready(vol, files[j]) && if i < j then Apart(f, files[j]) else Apart(files[j], f);
      StandsNow(files[j]);
      StillConsistent(f);
    }
    ghost var was := f.preallocated;
    ok, data := Perform(f, op);
    states' := states;
    if ok {
      states' := states[i := Meaning(f)];
      if loose[i] && !was {
        TightIsLoose(states[i], op, append[i], MAX_FILE_SIZE, states'[i], data);
      }
      StillConsistent(f);
      forall j | 0 <= j < |files| && j != i
        ensures Ready(vol, files[j]) && Meaning(files[j]) == states[j]
        ensures files[j].firstCluster == 0 || files[j].firstCluster != f.firstCluster
      {
        OtherStays(files[j], fat0, chains0, sectors0, head0, f.firstCluster);
      }
      forall j, k | 0 <= j < k < |files| ensures Apart(files[j], files[k]) {
        assert old(Apart(files[j], files[k]));
      }
    }
  }

  lemma StillConsistent(f: File)
    requires f.Valid()
    ensures f.vol.Consistent() && f.vol.geometry.sectorsPerCluster > 0
  {}

  /** Any interleaving of successful operations on several open files is a history of independent
      byte sequences. */
  method RunAll(vol: Partition, files: seq<File>, calls: seq<Call>, ghost start: seq<ByteFile>,
                ghost append: seq<bool>, ghost loose: seq<bool>)
    returns (done: nat, outputs: seq<seq<Byte>>, ghost states: seq<seq<ByteFile>>)
    requires Mean(vol, files, start) && forall k :: 0 <= k < |calls| ==> calls[k].file < |files|
    requires Flags(files, append, loose)
    modifies vol, files
    ensures done <= |calls|
    ensures Histories(states, calls[..done], outputs, append, MAX_FILE_SIZE, loose) && states[0] == start
    ensures done == |calls| ==> Mean(vol, files, states[done])
  {
    hide Mean, Moves;
    done, outputs, states := 0, [], [start];
    while done < |calls|
      invariant 0 <= done <= |calls| && |states| == done + 1
      invariant Mean(vol, files, states[done]) && states[0] == start && Flags(files, append, loose)
      invariant Histories(states, calls[..done], outputs, append, MAX_FILE_SIZE, loose)
    {
      var c := calls[done];
      var ok, data;
      ghost var next;
      ok, data, next := PerformOn(vol, files, c.file, c.op, states[done], append, loose);
      if !ok {
        return;
      }
      HistoriesGrow(states, calls[..done], outputs, append, MAX_FILE_SIZE, loose, c, next, data);
      assert calls[..done + 1] == calls[..done] + [c];
      outputs, states := outputs + [data], states + [next];
      done := done + 1;
    }
  }
}
