/**
  A FAT file: a lazy cursor over the file's chain, a shortcut flag for contiguous chains and
  three transfer paths. Every operation is proved against a byte sequence with a position.
*/
module FatFile {
  import opened FatTable
  import opened FatPartition
  import opened SectorMap
  import opened FileBytes

  const MAX_FILE_SIZE := 0xFFFF_FFFF

  /** The lazy cursor: it names the cluster of the byte before the position, or nothing at 0. */
  ghost predicate CursorAt(g: Geometry, ch: Chain, pos: nat, cur: nat)
    requires g.sectorsPerCluster > 0
  {
    if pos == 0 then cur == 0
    else g.ClusterIndex(pos - 1) < |ch| && cur == ch[g.ClusterIndex(pos - 1)]
  }

  ghost predicate Contiguous(ch: Chain) {
    forall i :: 0 <= i < |ch| ==> ch[i] == ch[0] + i
  }

  lemma ChainFits(vol: Partition, h: nat)
    requires vol.Consistent() && h in vol.chains
    ensures vol.geometry.Fits(vol.sectors, vol.chains[h])
    ensures NoRepeats(vol.chains[h])
  {
    var ch := vol.chains[h];
    assert IsChain(vol.fat, ch);
    ChainAcyclic(vol.fat, ch);
    forall i | 0 <= i < |ch| ensures vol.geometry.ClusterFits(vol.sectors, ch[i]) {
      assert InTable(vol.fat, ch[i]);
    }
  }

  class File {
    const vol: Partition
    var firstCluster: nat
    var curCluster: nat
    var curPosition: nat
    var fileSize: nat
    var contiguous: bool
    var preallocated: bool
    var append: bool
    var readable: bool
    var writable: bool

    /** Opening from a directory entry, at its start or its end, with the contiguous shortcut off. */
    constructor Open(vol: Partition, firstCluster: nat, fileSize: nat,
                     readable: bool, writable: bool, append: bool, atEnd: bool)
      requires vol.Consistent() && fileSize <= MAX_FILE_SIZE
      requires firstCluster == 0 || firstCluster in vol.chains
      requires vol.geometry.Needed(fileSize)
               == if firstCluster in vol.chains then |vol.chains[firstCluster]| else 0
      ensures this.vol == vol && Valid()
      ensures this.firstCluster == firstCluster && this.fileSize == fileSize
      ensures curPosition == if atEnd then fileSize else 0
      ensures !contiguous && !preallocated
      ensures this.readable == readable && this.writable == writable && this.append == append
    {
      hide WellFormed, Geometry.Needed;
      this.vol, this.firstCluster, this.fileSize := vol, firstCluster, fileSize;
      this.readable, this.writable, this.append := readable, writable, append;
      curPosition, curCluster, contiguous, preallocated := 0, 0, false, false;
      new;
      if atEnd {
        var sought := SeekSet(fileSize);
      }
    }

    /** The file's clusters in order. */
    ghost function Chain(): Chain
      reads this, vol
    {
      ListOf(vol.chains, firstCluster)
    }

    /** The file owns exactly the clusters that `extent` bytes need. */
    ghost predicate Body(extent: nat)
      reads this, vol
    {
      && vol.Consistent()
      && (firstCluster == 0 || firstCluster in vol.chains)
      && |Chain()| == vol.geometry.Needed(extent)
      && (contiguous ==> Contiguous(Chain()))
    }

    ghost predicate Linked(extent: nat)
      reads this, vol
    {
      && Body(extent)
      && curPosition <= extent <= MAX_FILE_SIZE
      && CursorAt(vol.geometry, Chain(), curPosition, curCluster)
    }

    ghost predicate Valid()
      reads this, vol
    {
      Linked(fileSize)
    }

    lemma OwnChain(extent: nat)
      requires Body(extent)
      ensures 0 !in vol.chains
      ensures firstCluster == 0 <==> extent == 0
      ensures firstCluster == 0 <==> Chain() == []
      ensures Chain() != [] ==> IsChain(vol.fat, Chain()) && Chain()[0] == firstCluster
      ensures vol.geometry.Fits(vol.sectors, Chain()) && NoRepeats(Chain())
    {
      NoZeroHead(vol.fat, vol.chains);
      if firstCluster != 0 { ChainFits(vol, firstCluster); }
    }

    /** What the file means: its bytes. The position is `curPosition`. */
    ghost function Contents(): (b: seq<Byte>)
      requires Valid()
      reads this, vol
      ensures |b| == fileSize
    {
      OwnChain(fileSize);
      vol.geometry.Bytes(vol.sectors, Chain(), fileSize)
    }

    /** Where the bytes lie: byte o of sector k of the i-th cluster, counted from the data start. */
    lemma ContentsLie(q: nat, i: nat, k: nat, o: nat)
      requires Valid() && i < |Chain()| && k < vol.geometry.sectorsPerCluster && o < 512
      requires q == (i * vol.geometry.sectorsPerCluster + k) * 512 + o < |Contents()|
      ensures var g := vol.geometry;
              var d := g.dataStart + (Chain()[i] - 2) * g.sectorsPerCluster + k;
              0 <= d < |vol.sectors| && Contents()[q] == vol.sectors[d][o]
    {
      hide Geometry.Needed, Geometry.Bytes, Geometry.ByteAt, Partition.Consistent;
      var g := vol.geometry;
      OwnChain(fileSize);
      g.ByteLies(vol.sectors, Chain(), i, k, o);
      ByteOf(g, vol.sectors, Chain(), |Contents()|, q);
    }

    // ----- read -----

    /** Moves to the cluster of the current position when a new cluster starts there. */
    method NextReadCluster() returns (ok: bool)
      requires Valid() && curPosition < fileSize
      modifies this`curCluster
      ensures ok
      ensures vol.geometry.ClusterIndex(curPosition) < |Chain()|
      ensures curCluster == Chain()[vol.geometry.ClusterIndex(curPosition)]
    {
      hide WellFormed;
      ghost var g, ch := vol.geometry, Chain();
      OwnChain(fileSize);
      g.NeededHolds(ch, fileSize, curPosition);
      g.ClusterBoundary(curPosition);
      if curPosition % BYTES_PER_SECTOR == 0 && vol.geometry.SectorOfCluster(curPosition) == 0 {
        if curPosition == 0 {
          curCluster := firstCluster;
        } else if contiguous {
          curCluster := curCluster + 1;
        } else {
          assert Follows(vol.fat, ch, g.ClusterIndex(curPosition - 1));
          assert InTable(vol.fat, ch[g.ClusterIndex(curPosition)]);
          var entry := vol.FatGet(curCluster);
          if !entry.Link? {
            return false;
          }
          curCluster := entry.next;
        }
      }
      return true;
    }

    /** One transfer, which moves the position behind the bytes it delivers. */
    method ReadPiece(toRead: nat) returns (piece: seq<Byte>)
      requires Body(fileSize) && fileSize <= MAX_FILE_SIZE && 0 < toRead <= fileSize - curPosition
      requires vol.geometry.ClusterIndex(curPosition) < |Chain()|
      requires curCluster == Chain()[vol.geometry.ClusterIndex(curPosition)]
      modifies this`curPosition
      ensures Valid() && 0 < |piece| <= toRead && curPosition == old(curPosition) + |piece|
      ensures piece == Contents()[old(curPosition)..curPosition]
    {
      hide Partition.Consistent, Loads, Geometry.Needed, Geometry.Bytes, Geometry.ClusterIndex, Contiguous, NoRepeats;
      OwnChain(fileSize);
      piece := LoadPiece(vol.geometry, vol.sectors, Chain(), curCluster, curPosition, toRead);
      LoadedBytes(vol.geometry, vol.sectors, Chain(), fileSize, curPosition, piece);
      curPosition := curPosition + |piece|;
    }

    method Read(nbyte: nat) returns (ok: bool, data: seq<Byte>)
      requires Valid()
      modifies this`curPosition, this`curCluster
      ensures Valid()
      ensures ok == readable
      ensures Contents() == old(Contents())
      ensures data == if ok then Contents()[old(curPosition)..Min(fileSize, old(curPosition) + nbyte)] else []
      ensures curPosition == old(curPosition) + |data|
    {
      hide Partition.Consistent, Loads, Geometry.Needed, Geometry.Bytes, Geometry.ClusterIndex, Contiguous;
      data := [];
      if !readable {
        return false, data;
      }
      var toRead: nat := Min(nbyte, fileSize - curPosition);
      ghost var bytes, ch, start, stop := Contents(), Chain(), curPosition, curPosition + toRead;
      while toRead > 0
        invariant Valid() && Chain() == ch && Contents() == bytes
        invariant start <= curPosition && curPosition + toRead == stop <= fileSize
        invariant data == bytes[start..curPosition]
      {
        var found := NextReadCluster();
        if !found {
          return false, data;
        }
        var piece := ReadPiece(toRead);
        NextSlice(bytes, start, curPosition - |piece|, curPosition);
        data := data + piece;
        toRead := toRead - |piece|;
      }
      assert curPosition == Min(fileSize, start + nbyte);
      ok := true;
    }

    // ----- seekSet -----

    method SeekSet(pos: nat) returns (ok: bool)
      requires Valid()
      modifies this`curPosition, this`curCluster, this`preallocated
      ensures Valid() && Contents() == old(Contents())
      ensures ok <==> pos <= fileSize
      ensures curPosition == if ok then pos else old(curPosition)
      ensures preallocated == (old(preallocated) && (!ok || pos == old(curPosition)))
    {
      hide Partition.Consistent, Geometry.ClusterIndex, Geometry.Bytes, Contiguous;
      ghost var g, ch := vol.geometry, Chain();
      OwnChain(fileSize);
      if pos == curPosition {
        return true;
      }
      if pos == 0 {
        curCluster := 0;
      } else if pos > fileSize {
        return false;
      } else {
        SeekIndex(g, fileSize, curPosition, pos);
        if contiguous {
          ContiguousAt(ch, g.ClusterIndex(pos - 1));
          curCluster := firstCluster + vol.geometry.ClusterIndex(pos - 1);
        } else {
          ok := FollowTo(pos);
          if !ok {
            return false;
          }
        }
      }
      curPosition := pos;
      preallocated := false;
      ok := true;
    }

    /** The walk of seekSet: from the current cluster when it lies ahead, else from the first. */
    method FollowTo(pos: nat) returns (ok: bool)
      requires Valid() && 0 < pos <= fileSize
      modifies this`curCluster
      ensures ok && vol.geometry.ClusterIndex(pos - 1) < |Chain()|
      ensures curCluster == Chain()[vol.geometry.ClusterIndex(pos - 1)]
    {
      hide Partition.Consistent, Geometry.Needed, Geometry.ClusterIndex, Geometry.Fits, NoRepeats, Contiguous;
      ghost var g, ch := vol.geometry, Chain();
      OwnChain(fileSize);
      SeekIndex(g, fileSize, curPosition, pos);
      assert curPosition > 0 ==> (curPosition + 0xFFFF_FFFF) % 0x1_0000_0000 == curPosition - 1;
      var nNew := vol.geometry.ClusterIndex(pos - 1);
      ghost var target := nNew;
      // the subtraction is done in 32 bits
      var nCur := vol.geometry.ClusterIndex((curPosition + 0xFFFF_FFFF) % 0x1_0000_0000);
      if nNew < nCur || curPosition == 0 {
        curCluster := firstCluster;
      } else {
        nNew := nNew - nCur;
      }
      hide Body, Geometry.Needed, Geometry.ClusterIndex, CursorAt;
      while nNew > 0
        invariant 0 <= nNew <= target < |ch| && Chain() == ch && Body(fileSize)
        invariant curCluster == ch[target - nNew]
      {
        ClusterEntry(vol, firstCluster, target - nNew);
        var entry := vol.FatGet(curCluster);
        if !entry.Link? {
          return false;
        }
        curCluster := entry.next;
        nNew := nNew - 1;
      }
      ok := true;
    }

    // ----- truncate -----

    method Truncate() returns (ok: bool)
      requires Valid()
      modifies this`firstCluster, this`fileSize, vol`fat, vol`allocSearchStart, vol`chains
      ensures Valid() && ok == writable
      ensures !ok ==> fileSize == old(fileSize) && firstCluster == old(firstCluster)
                      && vol.fat == old(vol.fat) && vol.chains == old(vol.chains)
      ensures ok ==>
        && fileSize == curPosition
        && Contents() == old(Contents())[..curPosition]
        && Shortened(old(vol.fat), vol.fat, old(Chain()), vol.geometry.Needed(curPosition), vol.EocMark())
        && Chain() == old(Chain())[..vol.geometry.Needed(curPosition)]
        && OthersKept(vol.geometry, old(vol.chains), vol.sectors, old(firstCluster),
                      vol.chains, vol.sectors, firstCluster)
    {
      hide WellFormed, Geometry.Needed, Geometry.ClusterIndex, Geometry.Bytes;
      ghost var g, ch := vol.geometry, Chain();
      OwnChain(fileSize);
      AllFit(vol);
      if !writable {
        return false;
      }
      ghost var k := g.Needed(curPosition);
      TruncatePoint(g, fileSize, curPosition);
      BytesOfPrefix(g, vol.sectors, ch, k, fileSize, curPosition);
      if firstCluster == 0 {
        assert ch[..k] == ch;
        return true;
      }
      ok := ReleaseAfterCursor(k);
      if !ok {
        return false;
      }
      assert Chain() == ch[..k];
      fileSize := curPosition;
    }

    /** The table part of truncate: everything after the cluster of the cursor is released. */
    method ReleaseAfterCursor(ghost k: nat) returns (ok: bool)
      requires vol.Consistent() && firstCluster in vol.chains && k <= |vol.chains[firstCluster]|
      requires if k == 0 then curCluster == 0 else curCluster == vol.chains[firstCluster][k - 1]
      modifies this`firstCluster, vol`fat, vol`allocSearchStart, vol`chains
      ensures ok && vol.Consistent()
      ensures Shortened(old(vol.fat), vol.fat, old(vol.chains[firstCluster]), k, vol.EocMark())
      ensures firstCluster == if k == 0 then 0 else old(firstCluster)
      ensures vol.chains == if k == 0 then old(vol.chains) - {old(firstCluster)}
                            else old(vol.chains)[firstCluster := old(vol.chains[firstCluster])[..k]]
    {
      hide WellFormed, IsChain, FreeFrom;
      ghost var ch := vol.chains[firstCluster];
      var toFree := 0;
      ClusterEntry(vol, firstCluster, if k == 0 then 0 else k - 1);
      ghost var fat0, chains0 := vol.fat, vol.chains;
      HintAfterFreeBounds(vol.fat, firstCluster, vol.allocSearchStart);
      if curCluster != 0 {
        var entry := vol.FatGet(curCluster);
        if entry == BadCluster {
          return false;
        }
        if entry.Link? {
          ShortenChain(vol.fat, vol.chains, firstCluster, k, vol.EocMark());
          toFree := entry.next;
          var _ := vol.FatPutEoc(curCluster);
        } else {
          assert ch[..k] == ch && ch[k..] == [];
        }
      } else {
        ReleaseChain(vol.fat, vol.chains, firstCluster, vol.EocMark());
        toFree := firstCluster;
        firstCluster := 0;
      }
      if toFree != 0 {
        ok := vol.FreeChain(toFree);
        if !ok {
          return false;
        }
        vol.chains := if k == 0 then chains0 - {toFree} else chains0[firstCluster := ch[..k]];
      }
      assert vol.chains == if k == 0 then chains0 - {toFree} else chains0[firstCluster := ch[..k]];
      ok := true;
    }

    // ----- write -----

    /** Appends a cluster after the current one, or starts a chain when there is none. */
    method AddCluster(ghost head: nat) returns (ok: bool)
      requires vol.Consistent()
      requires curCluster == 0 ==> head == 0
      requires curCluster != 0 ==> head in vol.chains && vol.chains[head] != []
                                   && curCluster == vol.chains[head][|vol.chains[head]| - 1]
      modifies this`curCluster, this`contiguous, vol`fat, vol`allocSearchStart, vol`chains
      ensures vol.Consistent()
      ensures ok <==> FreeAbove(old(vol.fat), old(vol.allocSearchStart))
      ensures !ok ==> curCluster == old(curCluster) && contiguous == old(contiguous) && vol.fat == old(vol.fat)
                      && vol.chains == old(vol.chains) && vol.allocSearchStart == old(vol.allocSearchStart)
      ensures Room() + (if ok then 1 else 0) == old(Room())
      ensures ok ==>
        && curCluster == AllocChoice(old(vol.fat), old(vol.allocSearchStart), old(curCluster))
        && vol.chains == (if head == 0 then old(vol.chains)[curCluster := [curCluster]]
                          else old(vol.chains)[head := old(vol.chains[head]) + [curCluster]])
        && curCluster !in old(vol.chains) && curCluster != 0
        && contiguous == (old(curCluster) == 0 || (old(contiguous) && curCluster == old(curCluster) + 1))
    {
      hide WellFormed, IsChain, NextFree, FreeAbove, FreeReach;
      var cc := curCluster;
      ghost var fat0, chains0, hint0 := vol.fat, vol.chains, vol.allocSearchStart;
      NoZeroHead(vol.fat, vol.chains);
      if head != 0 { LastInUse(vol.fat, vol.chains, head); }
      var next;
      ok, next := vol.AllocateCluster(curCluster);
      if !ok {
        return false;
      }
      AllocationTakesOne(fat0, vol.fat, hint0, cc, vol.EocMark());
      curCluster := next;
      if cc == 0 {
        contiguous := true;
      } else if curCluster != cc + 1 {
        contiguous := false;
      }
      FreeIsNoHead(fat0, chains0, next);
      if head == 0 {
        NewRun(fat0, chains0, vol.fat, next, 1);
        assert Run(next, 1) == [next];
        vol.chains := chains0[next := [next]];
      } else {
        AppendCluster(fat0, chains0, head, next, vol.EocMark());
        vol.chains := chains0[head := chains0[head] + [next]];
      }
    }

    /** The number of free clusters that an allocation can still find. */
    ghost function Room(): nat
      reads vol
    {
      |FreeReach(vol.fat, vol.allocSearchStart)|
    }

    /** The clusters of the file are full up to the position, and an allocation finds no other. */
    ghost predicate OutOfSpace()
      reads this, vol
    {
      !FreeAbove(vol.fat, vol.allocSearchStart) && curPosition == |Chain()| * vol.geometry.BytesPerCluster()
    }

    /** Moves to the cluster of the current position, adding one at the end of the chain. */
    method NextWriteCluster() returns (ok: bool)
      requires Linked(Max(fileSize, curPosition))
      modifies this`firstCluster, this`curCluster, this`contiguous
      modifies vol`fat, vol`allocSearchStart, vol`chains
      ensures !ok ==> Linked(Max(fileSize, curPosition)) && OutOfSpace()
      ensures Room() + |Chain()| == old(Room() + |Chain()|)
      ensures ok ==>
        && Body(Max(fileSize, curPosition + 1))
        && vol.geometry.ClusterIndex(curPosition) < |Chain()|
        && curCluster == Chain()[vol.geometry.ClusterIndex(curPosition)]
      ensures old(Chain()) <= Chain()
      ensures OthersKept(vol.geometry, old(vol.chains), vol.sectors, old(firstCluster),
                         vol.chains, vol.sectors, firstCluster)
    {
      hide Partition.Consistent, Geometry.Needed, Geometry.ClusterIndex, FreeAbove, FreeReach, OthersKept,
        Geometry.SameSectors;
      ghost var g, chains0, head0 := vol.geometry, vol.chains, firstCluster;
      AllFit(vol);
      SizePositive(vol);
      StepIndex(g, fileSize, curPosition);
      ok := true;
      if vol.geometry.SectorOfCluster(curPosition) == 0 && curPosition % BYTES_PER_SECTOR == 0 {
        var atEnd;
        ok, atEnd := StepInside();
        if ok && atEnd {
          AtBoundary(g, curPosition);
          ok := GrowAtEnd();
        }
      }
      KeptAside(g, chains0, head0, vol.chains, firstCluster, vol.sectors);
    }

    /** At the start of a new cluster: moves to it, or reports that the chain ends before it. */
    method StepInside() returns (ok: bool, atEnd: bool)
      requires Linked(Max(fileSize, curPosition))
      requires vol.geometry.SectorOfCluster(curPosition) == 0 && curPosition % BYTES_PER_SECTOR == 0
      modifies this`curCluster
      ensures ok
      ensures var idx := vol.geometry.ClusterIndex(curPosition);
        if atEnd then |Chain()| == idx && curCluster == old(curCluster)
          && (if idx == 0 then firstCluster == 0 && curCluster == 0
              else firstCluster != 0 && curCluster != 0 && curCluster == Chain()[idx - 1])
        else idx < |Chain()| && curCluster == Chain()[idx]
    {
      hide Partition.Consistent, Geometry.Needed, Geometry.ClusterIndex, NoRepeats, IsChain, Geometry.Fits;
      SizePositive(vol);
      ghost var g, idx := vol.geometry, vol.geometry.ClusterIndex(curPosition);
      OwnChain(Max(fileSize, curPosition));
      StepIndex(g, fileSize, curPosition);
      if firstCluster != 0 { ClusterEntry(vol, firstCluster, if idx == 0 then 0 else idx - 1); }
      ok, atEnd := true, false;
      if curCluster != 0 {
        if contiguous && fileSize > curPosition {
          curCluster := curCluster + 1;
        } else {
          var entry := vol.FatGet(curCluster);
          if entry == BadCluster {
            ok := false;
            return;
          }
          if entry.Link? {
            curCluster := entry.next;
          } else {
            atEnd := true;
          }
        }
      } else if firstCluster == 0 {
        atEnd := true;
      } else {
        curCluster := firstCluster;
      }
    }

    /** Adds a cluster behind the last one, which the cursor is on, or as the first. */
    method GrowAtEnd() returns (ok: bool)
      requires vol.Consistent() && (firstCluster == 0 || firstCluster in vol.chains)
      requires contiguous ==> Contiguous(Chain())
      requires if firstCluster == 0 then curCluster == 0
               else curCluster != 0 && Chain() != [] && curCluster == Chain()[|Chain()| - 1]
      modifies this`firstCluster, this`curCluster, this`contiguous
      modifies vol`fat, vol`allocSearchStart, vol`chains
      ensures vol.Consistent()
      ensures Room() + |Chain()| == old(Room() + |Chain()|)
      ensures !ok ==>
        && !FreeAbove(vol.fat, vol.allocSearchStart) && vol.chains == old(vol.chains)
        && firstCluster == old(firstCluster) && curCluster == old(curCluster) && contiguous == old(contiguous)
      ensures ok ==>
        && firstCluster in vol.chains && Chain() == old(Chain()) + [curCluster]
        && (contiguous ==> Contiguous(Chain()))
        && firstCluster == (if old(firstCluster) == 0 then curCluster else old(firstCluster))
      ensures vol.chains - {firstCluster} == old(vol.chains) - {old(firstCluster)}
    {
      hide WellFormed, FreeAbove, FreeReach, AllocChoice, Geometry.ClusterFits;
      NoZeroHead(vol.fat, vol.chains);
      ok := AddCluster(firstCluster);
      if !ok {
        return;
      }
      if firstCluster == 0 {
        firstCluster := curCluster;
      }
    }

    /** One transfer of a write at the current position: part of a sector, several sectors, or one. */
    method StoreChunk(src: seq<Byte>, from: nat) returns (n: nat, ghost stale: nat)
      requires vol.Consistent() && from < |src| && firstCluster in vol.chains
      requires vol.geometry.ClusterIndex(curPosition) < |Chain()|
      requires curCluster == Chain()[vol.geometry.ClusterIndex(curPosition)]
      modifies vol`sectors
      ensures vol.Consistent() && 0 < n <= |src| - from
      ensures curPosition % vol.geometry.BytesPerCluster() + n <= vol.geometry.BytesPerCluster()
      ensures Wrote(vol.geometry, old(vol.sectors), vol.sectors, Chain(), curPosition, src[from..from + n], stale)
      ensures stale == n || curPosition >= fileSize || preallocated
      ensures OnlyStored(vol.geometry, vol.chains, old(vol.sectors), firstCluster,
                         vol.chains, vol.sectors, firstCluster)
    {
      hide WellFormed, IsChain, NoRepeats, Wrote, Geometry.ClusterIndex, Geometry.Patched, Geometry.Inner,
        Geometry.Device, Geometry.SameSectors, OnlyStored;
      ghost var g, before := vol.geometry, vol.sectors;
      ChainFits(vol, firstCluster);
      AllFit(vol);
      var after;
      ghost var ns;
      after, n, stale, ns := StorePiece(vol.geometry, vol.sectors, Chain(), curCluster, curPosition, src, from,
                                        curPosition < fileSize && !preallocated);
      vol.sectors := after;
      PatchedLength(g, before, after, g.Device(Chain(), curPosition / BYTES_PER_SECTOR), ns);
      SameLengthConsistent(g, vol.fat, before, vol.sectors);
      ChainsDisjoint(vol.fat, vol.chains);
      PatchOthers(g, vol.chains, before, after, firstCluster, curPosition / BYTES_PER_SECTOR, ns);
    }

    /** Where the next write begins. */
    function WriteStart(): nat
      reads this
    {
      if append then fileSize else curPosition
    }

    /** The cluster step of the write loop: the bytes stored so far stay where they are. */
    method ReachCluster(ghost bytes: seq<Byte>, ghost want: seq<Byte>) returns (ok: bool)
      requires Linked(Max(fileSize, curPosition))
      requires Agrees(vol.geometry, vol.sectors, Chain(), want, 0, curPosition)
      requires !preallocated ==> Agrees(vol.geometry, vol.sectors, Chain(), bytes, curPosition, |bytes|)
      modifies this`firstCluster, this`curCluster, this`contiguous
      modifies vol`fat, vol`allocSearchStart, vol`chains
      ensures !ok ==> Linked(Max(fileSize, curPosition)) && OutOfSpace()
      ensures Room() + |Chain()| == old(Room() + |Chain()|)
      ensures ok ==>
        && Body(Max(fileSize, curPosition + 1)) && firstCluster in vol.chains
        && vol.geometry.Fits(vol.sectors, Chain())
        && vol.geometry.ClusterIndex(curPosition) < |Chain()|
        && curCluster == Chain()[vol.geometry.ClusterIndex(curPosition)]
      ensures Agrees(vol.geometry, vol.sectors, Chain(), want, 0, curPosition)
      ensures !preallocated ==> Agrees(vol.geometry, vol.sectors, Chain(), bytes, curPosition, |bytes|)
      ensures OnlyStored(vol.geometry, old(vol.chains), vol.sectors, old(firstCluster),
                         vol.chains, vol.sectors, firstCluster)
    {
      hide Partition.Consistent, Agrees, Geometry.Needed, Geometry.Bytes, Geometry.ClusterIndex, FreeAbove, FreeReach,
        Contiguous, NoRepeats, IsChain, Geometry.Fits, OnlyStored, OthersKept;
      ghost var g, ch0, chains0, head0 := vol.geometry, Chain(), vol.chains, firstCluster;
      ok := NextWriteCluster();
      OnlyGrown(g, chains0, head0, vol.chains, firstCluster, vol.sectors);
      OwnChain(Max(fileSize, if ok then curPosition + 1 else curPosition));
      AgreesOnLongerList(g, vol.sectors, ch0, Chain(), want, 0, curPosition);
      if !preallocated { AgreesOnLongerList(g, vol.sectors, ch0, Chain(), bytes, curPosition, |bytes|); }
    }

    /** One turn of the write loop: the cluster step and one transfer. */
    method WriteOnce(src: seq<Byte>, done: nat, ghost bytes: seq<Byte>, ghost start: nat) returns (ok: bool)
      requires start <= |bytes| == fileSize && done < |src| && curPosition == start + done
      requires start + |src| <= MAX_FILE_SIZE
      requires Linked(Max(fileSize, curPosition))
      requires Agrees(vol.geometry, vol.sectors, Chain(), Overlay(bytes, start, src), 0, curPosition)
      requires !preallocated ==> Agrees(vol.geometry, vol.sectors, Chain(), bytes, curPosition, |bytes|)
      modifies this`firstCluster, this`curCluster, this`curPosition, this`contiguous
      modifies vol`fat, vol`allocSearchStart, vol`chains, vol`sectors
      ensures Linked(Max(fileSize, curPosition))
      ensures !ok ==> curPosition == old(curPosition) && OutOfSpace()
      ensures Room() + |Chain()| == old(Room() + |Chain()|)
      ensures ok ==> old(curPosition) < curPosition <= start + |src|
      ensures Agrees(vol.geometry, vol.sectors, Chain(), Overlay(bytes, start, src), 0, curPosition)
      ensures !preallocated ==> Agrees(vol.geometry, vol.sectors, Chain(), bytes, curPosition, |bytes|)
      ensures OnlyStored(vol.geometry, old(vol.chains), old(vol.sectors), old(firstCluster),
                         vol.chains, vol.sectors, firstCluster)
    {
      hide Partition.Consistent, Wrote, Agrees, Geometry.Needed, Geometry.Bytes, Geometry.ClusterIndex, FreeAbove,
        FreeReach, Contiguous, NoRepeats, IsChain, Geometry.Fits, OnlyStored;
      ghost var g, p := vol.geometry, curPosition;
      ghost var chains0, sectors0, head0 := vol.chains, vol.sectors, firstCluster;
      ok := ReachCluster(bytes, Overlay(bytes, start, src));
      if !ok {
        return false;
      }
      SizePositive(vol);
      ghost var chains1, sectors1 := vol.chains, vol.sectors;
      var n, stale := StoreChunk(src, done);
      ChunkIndex(g, fileSize, p, n);
      StoredOnce(g, sectors1, vol.sectors, Chain(), bytes, start, src, done, n, stale, preallocated);
      OnlyStoredTrans(g, chains0, sectors0, head0, chains1, sectors1, firstCluster,
                      vol.chains, vol.sectors, firstCluster);
      curPosition := curPosition + n;
    }

    /**
      Overlays `src` at the position (at the end first, when appending). It fails only when read-only,
      when the size would pass 32 bits, or when no cluster above the allocation hint is free; then
      the bytes before the position reached are stored, but the size is not updated.
    */
    method Write(src: seq<Byte>) returns (ok: bool)
      requires Valid()
      modifies this`firstCluster, this`curCluster, this`curPosition, this`fileSize
      modifies this`contiguous, this`preallocated
      modifies vol`fat, vol`allocSearchStart, vol`chains, vol`sectors
      ensures ok ==> Valid() && writable && curPosition == old(WriteStart()) + |src|
      ensures ok ==> fileSize == Max(old(fileSize), old(WriteStart()) + |src|) <= 0xFFFF_FFFF
      ensures ok ==> Contents()[..curPosition] == old(Contents())[..old(WriteStart())] + src
      ensures ok && !preallocated ==> Contents() == Overlay(old(Contents()), old(WriteStart()), src)
      ensures Room() + |Chain()| == old(Room() + |Chain()|)
      ensures !ok && writable ==>
        && (old(WriteStart()) + |src| > 0xFFFF_FFFF || (curPosition < old(WriteStart()) + |src| && OutOfSpace()))
        && fileSize == old(fileSize)
        && old(WriteStart()) <= curPosition <= old(WriteStart()) + |src|
        && Linked(Max(fileSize, curPosition))
        && Agrees(vol.geometry, vol.sectors, Chain(), Overlay(old(Contents()), old(WriteStart()), src), 0, curPosition)
      ensures !writable ==> !ok && Valid() && Contents() == old(Contents()) && curPosition == old(curPosition)
      ensures preallocated ==> old(preallocated)
      ensures vol.geometry.WroteOnly(old(vol.sectors), vol.sectors, Chain())
      ensures OthersKept(vol.geometry, old(vol.chains), old(vol.sectors), old(firstCluster),
                         vol.chains, vol.sectors, firstCluster)
    {
      hide Partition.Consistent, Agrees, Geometry.Needed, Geometry.Bytes, Geometry.ClusterIndex, FreeAbove, FreeReach,
        Contiguous, OthersKept, Overlay, Geometry.WroteOnly;
      SelfStored(vol, firstCluster);
      if !writable {
        return false;
      }
      if append {
        var sought := SeekSet(fileSize);
        if !sought {
          return false;
        }
      }
      if |src| > MAX_FILE_SIZE - curPosition {
        OwnChain(fileSize);
        BytesAgree(vol.geometry, vol.sectors, Chain(), fileSize);
        WriteStarts(vol.geometry, vol.sectors, Chain(), Contents(), curPosition, src);
        return false;
      }
      ok := WriteHere(src);
    }

    /** The write proper, at the current position. */
    method WriteHere(src: seq<Byte>) returns (ok: bool)
      requires Valid() && curPosition + |src| <= MAX_FILE_SIZE
      modifies this`firstCluster, this`curCluster, this`curPosition, this`fileSize, this`contiguous
      modifies vol`fat, vol`allocSearchStart, vol`chains, vol`sectors
      ensures ok ==> Valid() && curPosition == old(curPosition) + |src| && fileSize == Max(old(fileSize), curPosition)
      ensures ok ==> Contents()[..curPosition] == old(Contents())[..old(curPosition)] + src
      ensures ok && !preallocated ==> Contents() == Overlay(old(Contents()), old(curPosition), src)
      ensures Room() + |Chain()| == old(Room() + |Chain()|)
      ensures !ok ==>
        && OutOfSpace()
        && fileSize == old(fileSize)
        && old(curPosition) <= curPosition < old(curPosition) + |src|
        && Linked(Max(fileSize, curPosition))
        && Agrees(vol.geometry, vol.sectors, Chain(), Overlay(old(Contents()), old(curPosition), src), 0, curPosition)
      ensures OnlyStored(vol.geometry, old(vol.chains), old(vol.sectors), old(firstCluster),
                         vol.chains, vol.sectors, firstCluster)
    {
      hide Partition.Consistent, Agrees, Geometry.Needed, Geometry.Bytes, Geometry.ClusterIndex, FreeAbove, FreeReach,
        Contiguous, OnlyStored, Overlay, Geometry.Fits, NoRepeats, File.OutOfSpace;
      ghost var g, bytes, start := vol.geometry, Contents(), curPosition;
      OwnChain(fileSize);
      BytesAgree(g, vol.sectors, Chain(), fileSize);
      WriteStarts(g, vol.sectors, Chain(), bytes, start, src);
      ok := WriteLoop(src, bytes, start);
      if !ok {
        return false;
      }
      OwnChain(Max(fileSize, curPosition));
      WriteDone(g, vol.sectors, Chain(), bytes, start, src, preallocated);
      if curPosition > fileSize {
        fileSize := curPosition;
      }
    }

    method WriteLoop(src: seq<Byte>, ghost bytes: seq<Byte>, ghost start: nat) returns (ok: bool)
      requires start <= |bytes| == fileSize && curPosition == start && start + |src| <= MAX_FILE_SIZE
      requires Linked(fileSize)
      requires Agrees(vol.geometry, vol.sectors, Chain(), Overlay(bytes, start, src), 0, curPosition)
      requires !preallocated ==> Agrees(vol.geometry, vol.sectors, Chain(), bytes, curPosition, |bytes|)
      modifies this`firstCluster, this`curCluster, this`curPosition, this`contiguous
      modifies vol`fat, vol`allocSearchStart, vol`chains, vol`sectors
      ensures Linked(Max(fileSize, curPosition)) && start <= curPosition <= start + |src|
      ensures ok ==> curPosition == start + |src|
      ensures !ok ==> curPosition < start + |src| && OutOfSpace()
      ensures Room() + |Chain()| == old(Room() + |Chain()|)
      ensures Agrees(vol.geometry, vol.sectors, Chain(), Overlay(bytes, start, src), 0, curPosition)
      ensures !preallocated ==> Agrees(vol.geometry, vol.sectors, Chain(), bytes, curPosition, |bytes|)
      ensures OnlyStored(vol.geometry, old(vol.chains), old(vol.sectors), old(firstCluster),
                         vol.chains, vol.sectors, firstCluster)
    {
      hide Partition.Consistent, Agrees, Geometry.Needed, Geometry.ClusterIndex, FreeAbove, FreeReach, Contiguous,
        OnlyStored, Overlay;
      SelfStored(vol, firstCluster);
      var done := 0;
      while done < |src|
        invariant 0 <= done <= |src| && curPosition == start + done
        invariant Linked(Max(fileSize, curPosition))
        invariant Agrees(vol.geometry, vol.sectors, Chain(), Overlay(bytes, start, src), 0, curPosition)
        invariant !preallocated ==> Agrees(vol.geometry, vol.sectors, Chain(), bytes, curPosition, |bytes|)
        invariant Room() + |Chain()| == old(Room() + |Chain()|)
        invariant OnlyStored(vol.geometry, old(vol.chains), old(vol.sectors), old(firstCluster),
                             vol.chains, vol.sectors, firstCluster)
      {
        var from := curPosition;
        ghost var chains1, sectors1, head1 := vol.chains, vol.sectors, firstCluster;
        ok := WriteOnce(src, done, bytes, start);
        OnlyStoredTrans(vol.geometry, old(vol.chains), old(vol.sectors), old(firstCluster),
                        chains1, sectors1, head1, vol.chains, vol.sectors, firstCluster);
        if !ok {
          return false;
        }
        done := done + (curPosition - from);
      }
      ok := true;
    }

    // ----- remove, preAllocate, contiguousRange -----

    /** The table part of remove: the file's clusters, and no others, become free. */
    method Remove() returns (ok: bool)
      requires Valid()
      modifies vol`fat, vol`allocSearchStart, vol`chains
      ensures vol.Consistent() && ok == writable
      ensures !ok ==> vol.fat == old(vol.fat) && vol.chains == old(vol.chains)
      ensures ok ==> Shortened(old(vol.fat), vol.fat, old(Chain()), 0, vol.EocMark())
      ensures ok ==> OthersKept(vol.geometry, old(vol.chains), vol.sectors, firstCluster,
                                vol.chains, vol.sectors, firstCluster)
      ensures ok ==> firstCluster !in vol.chains
    {
      hide WellFormed, FreeFrom;
      OwnChain(fileSize);
      AllFit(vol);
      if !writable {
        return false;
      }
      if firstCluster != 0 {
        ReleaseChain(vol.fat, vol.chains, firstCluster, vol.EocMark());
        HintAfterFreeBounds(vol.fat, firstCluster, vol.allocSearchStart);
        ok := vol.FreeChain(firstCluster);
        if !ok {
          return false;
        }
        vol.chains := vol.chains - {firstCluster};
      }
      ok := true;
    }

    /** Gives an empty file one contiguous run; what the run holds is left as found. */
    method PreAllocate(length: nat) returns (ok: bool)
      requires Valid() && length <= MAX_FILE_SIZE
      modifies this`firstCluster, this`fileSize, this`contiguous, this`preallocated
      modifies vol`fat, vol`allocSearchStart, vol`chains
      ensures Valid()
      ensures ok <==> length > 0 && writable && old(firstCluster) == 0
                      && exists b :: old(vol.allocSearchStart) < b && FreeRun(old(vol.fat), b, vol.geometry.Needed(length))
      ensures !ok ==> firstCluster == old(firstCluster) && fileSize == old(fileSize) && vol.fat == old(vol.fat)
      ensures ok ==> fileSize == length && contiguous && preallocated
                     && Chain() == Run(firstCluster, vol.geometry.Needed(length))
      ensures OthersKept(vol.geometry, old(vol.chains), vol.sectors, old(firstCluster),
                         vol.chains, vol.sectors, firstCluster)
    {
      hide WellFormed, Geometry.ClusterIndex, FreeRun, LinksRun, NoRepeats, IsChain, OthersKept, Geometry.SameSectors,
        Geometry.ClusterFits;
      OwnChain(fileSize);
      AllFit(vol);
      SelfKept(vol, firstCluster);
      if length == 0 || !writable || firstCluster != 0 {
        return false;
      }
      var need := 1 + vol.geometry.ClusterIndex(length - 1);
      ghost var fat0, chains0, head0 := vol.fat, vol.chains, firstCluster;
      var first;
      ok, first := vol.AllocContiguous(need);
      if !ok {
        return false;
      }
      NewFreeRun(fat0, chains0, vol.fat, first, need);
      vol.chains := chains0[first := Run(first, need)];
      assert vol.chains - {first} == chains0 - {head0};
      KeptAside(vol.geometry, chains0, head0, vol.chains, first, vol.sectors);
      firstCluster, fileSize, preallocated, contiguous := first, length, true, true;
    }

    /** Succeeds exactly on a nonempty contiguous file, and then names its device sectors. */
    method ContiguousRange() returns (ok: bool, bgnSector: int, endSector: int)
      requires Valid()
      modifies this`contiguous
      ensures Valid() && contiguous == (ok || old(contiguous))
      ensures ok <==> firstCluster != 0 && Contiguous(Chain())
      ensures ok ==>
        && bgnSector == vol.geometry.dataStart + (firstCluster - 2) * vol.geometry.sectorsPerCluster
        && endSector == bgnSector + |Chain()| * vol.geometry.sectorsPerCluster - 1
    {
      hide WellFormed, Geometry.Needed, Geometry.ClusterStartSector, NoRepeats, IsChain, CursorAt;
      ok, bgnSector, endSector := false, 0, 0;
      OwnChain(fileSize);
      if firstCluster == 0 {
        return;
      }
      ghost var ch := Chain();
      var c := firstCluster;
      while true
        invariant firstCluster <= c < firstCluster + |ch| && contiguous == old(contiguous)
        invariant forall i :: 0 <= i <= c - firstCluster ==> ch[i] == firstCluster + i
        decreases firstCluster + |ch| - c
      {
        ghost var k := c - firstCluster;
        ClusterEntry(vol, firstCluster, k);
        var entry := vol.FatGet(c);
        if entry == BadCluster {
          return;
        }
        if entry == EndOfChain || entry.next != c + 1 {
          if entry.Link? {
            assert ch[k + 1] != ch[0] + (k + 1);
            return;
          }
          break;
        }
        c := c + 1;
      }
      contiguous := true;
      ok := true;
      bgnSector := vol.geometry.ClusterStartSector(firstCluster);
      endSector := vol.geometry.ClusterStartSector(c) + vol.geometry.sectorsPerCluster - 1;
      RangeEnd(vol.geometry, firstCluster, |ch|);
    }
  }

  lemma NewFreeRun(fat: seq<nat>, chains: Chains, fat': seq<nat>, b: nat, n: nat)
    requires WellFormed(fat, chains) && FreeRun(fat, b, n) && LinksRun(fat, fat', b, n)
    ensures b != 0 && b !in chains && |Run(b, n)| == n && Run(b, n)[0] == b
    ensures WellFormed(fat', chains[b := Run(b, n)])
  {
    NewRun(fat, chains, fat', b, n);
  }

  lemma RangeEnd(g: Geometry, first: nat, n: nat)
    ensures g.ClusterStartSector(first) == g.dataStart + (first - 2) * g.sectorsPerCluster
    ensures g.ClusterStartSector(first + n - 1) + g.sectorsPerCluster
            == g.ClusterStartSector(first) + n * g.sectorsPerCluster
  {}

  // ----- Opening with truncation -----

  /** Opening with truncation: whatever length the entry gives, its chain is released. */
  method OpenTruncated(vol: Partition, firstCluster: nat, readable: bool, append: bool) returns (f: File)
    requires vol.Consistent() && (firstCluster == 0 || firstCluster in vol.chains)
    modifies vol`fat, vol`allocSearchStart, vol`chains
    ensures fresh(f) && f.vol == vol && f.Valid() && f.firstCluster == 0 && f.fileSize == 0 && f.Contents() == []
    ensures f.readable == readable && f.writable && f.append == append && !f.contiguous && !f.preallocated
    ensures firstCluster == 0 ==> vol.fat == old(vol.fat) && vol.chains == old(vol.chains)
    ensures firstCluster != 0 ==>
              && Shortened(old(vol.fat), vol.fat, old(vol.chains)[firstCluster], 0, vol.EocMark())
              && vol.chains == old(vol.chains) - {firstCluster}
  {
    hide WellFormed, Geometry.ClusterFits, Shortened;
    if firstCluster != 0 {
      ReleaseEntry(vol, firstCluster);
    }
    NoZeroHead(vol.fat, vol.chains);
    f := new File.Open(vol, 0, 0, readable, true, append, false);
  }

  /** The chain of a directory entry is released. */
  method ReleaseEntry(vol: Partition, first: nat)
    requires vol.Consistent() && first in vol.chains
    modifies vol`fat, vol`allocSearchStart, vol`chains
    ensures vol.Consistent() && vol.chains == old(vol.chains) - {first}
    ensures Shortened(old(vol.fat), vol.fat, old(vol.chains)[first], 0, vol.EocMark())
  {
    hide WellFormed, FreeFrom, Geometry.ClusterFits;
    ReleaseChain(vol.fat, vol.chains, first, vol.EocMark());
    HintAfterFreeBounds(vol.fat, first, vol.allocSearchStart);
    var ok := vol.FreeChain(first);
    vol.chains := vol.chains - {first};
  }

  // ----- Runs of operations -----

  ghost function Meaning(f: File): ByteFile
    requires f.Valid()
    reads f, f.vol
  {
    ByteFile(f.Contents(), f.curPosition)
  }

  /** Performs one operation; when it succeeds, the file moved as the byte sequence does. */
  method Perform(f: File, op: Op) returns (ok: bool, data: seq<Byte>)
    requires f.Valid()
    modifies f, f.vol
    ensures f.append == old(f.append)
    ensures ok ==> f.Valid()
    ensures f.preallocated ==> old(f.preallocated)
    ensures ok ==> Acts(old(Meaning(f)), op, f.append, MAX_FILE_SIZE, old(f.preallocated), Meaning(f), data)
    ensures OthersKept(f.vol.geometry, old(f.vol.chains), old(f.vol.sectors), old(f.firstCluster),
                       f.vol.chains, f.vol.sectors, f.firstCluster)
  {
    hide Partition.Consistent, OthersKept, File.Body, CursorAt, FreeAbove, Shortened, Overlay, Agrees, File.OutOfSpace,
      FreeReach, Geometry.Needed;
    data := [];
    SelfValid(f);
    match op
    case ReadOp(n) => ok, data := f.Read(n);
    case WriteOp(src) => ok := f.Write(src);
    case SeekOp(to) => ok := f.SeekSet(to);
    case TruncateOp => ok := f.Truncate();
  }

  /** Any run of successful operations is a run of the byte sequence. Only writes to a file that was
      preallocated, and not sought since, leave bytes behind the new position open. */
  method PerformAll(f: File, ops: seq<Op>)
    returns (done: nat, outputs: seq<seq<Byte>>, ghost states: seq<ByteFile>, ghost loose: nat)
    requires f.Valid()
    modifies f, f.vol
    ensures done <= |ops|
    ensures History(states, ops[..done], outputs, f.append, MAX_FILE_SIZE, loose) && states[0] == old(Meaning(f))
    ensures loose <= done && (!old(f.preallocated) ==> loose == 0)
    ensures done == |ops| ==> f.Valid() && states[done] == Meaning(f)
    ensures OthersKept(f.vol.geometry, old(f.vol.chains), old(f.vol.sectors), old(f.firstCluster),
                       f.vol.chains, f.vol.sectors, f.firstCluster)
  {
    hide Partition.Consistent, OthersKept, File.Linked, File.Contents, FreeAbove, Acts, History;
    done, outputs, states, loose := 0, [], [Meaning(f)], 0;
    NoHistory(Meaning(f), f.append, MAX_FILE_SIZE);
    assert ops[..0] == [];
    SelfValid(f);
    while done < |ops|
      invariant 0 <= done <= |ops| && |states| == done + 1
      invariant f.append == old(f.append) && f.Valid()
      invariant (f.preallocated ==> old(f.preallocated)) && loose <= done && (!old(f.preallocated) ==> loose == 0)
      invariant History(states, ops[..done], outputs, f.append, MAX_FILE_SIZE, loose)
      invariant states[0] == old(Meaning(f)) && states[done] == Meaning(f)
      invariant OthersKept(f.vol.geometry, old(f.vol.chains), old(f.vol.sectors), old(f.firstCluster),
                           f.vol.chains, f.vol.sectors, f.firstCluster)
    {
      ghost var chains1, sectors1, head1 := f.vol.chains, f.vol.sectors, f.firstCluster;
      ghost var now := f.preallocated;
      var ok, data := Perform(f, ops[done]);
      OthersKeptTrans(f.vol.geometry, old(f.vol.chains), old(f.vol.sectors), old(f.firstCluster),
                      chains1, sectors1, head1, f.vol.chains, f.vol.sectors, f.firstCluster);
      if !ok {
        return;
      }
      HistoryGrows(states, ops[..done], outputs, f.append, MAX_FILE_SIZE, loose, ops[done], Meaning(f), data, now);
      assert ops[..done + 1] == ops[..done] + [ops[done]];
      outputs, states := outputs + [data], states + [Meaning(f)];
      if now { loose := done + 1; }
      done := done + 1;
    }
  }

  lemma SelfValid(f: File)
    requires f.Valid()
    ensures OthersKept(f.vol.geometry, f.vol.chains, f.vol.sectors, f.firstCluster,
                       f.vol.chains, f.vol.sectors, f.firstCluster)
  {
    SelfKept(f.vol, f.firstCluster);
  }

  lemma SameLengthConsistent(g: Geometry, fat: seq<nat>, before: seq<Sector>, after: seq<Sector>)
    requires |before| == |after| && forall c :: 2 <= c < |fat| ==> g.ClusterFits(before, c)
    ensures forall c :: 2 <= c < |fat| ==> g.ClusterFits(after, c)
  {
    forall c | 2 <= c < |fat| ensures g.ClusterFits(after, c) {
      assert g.ClusterFits(before, c);
    }
  }

  lemma PatchedLength(g: Geometry, before: seq<Sector>, after: seq<Sector>, d: int, ns: nat)
    requires g.Patched(before, after, d, ns)
    ensures |after| == |before|
  {}

  lemma ChainsDisjoint(fat: seq<nat>, chains: Chains)
    requires WellFormed(fat, chains)
    ensures Disjoint(chains)
  {}

  lemma SizePositive(vol: Partition)
    requires vol.Consistent()
    ensures vol.geometry.sectorsPerCluster > 0
  {}

  lemma NoZeroHead(fat: seq<nat>, chains: Chains)
    requires WellFormed(fat, chains)
    ensures 0 !in chains
  {}

  lemma LastInUse(fat: seq<nat>, chains: Chains, h: nat)
    requires WellFormed(fat, chains) && h in chains
    ensures var ch := chains[h]; ch != [] && InTable(fat, ch[|ch| - 1]) && fat[ch[|ch| - 1]] != 0
  {
    LastInTable(fat, chains, h);
    OwnedInUse(fat, chains, h, chains[h][|chains[h]| - 1]);
  }

  lemma FreeIsNoHead(fat: seq<nat>, chains: Chains, c: nat)
    requires WellFormed(fat, chains) && InTable(fat, c) && fat[c] == 0
    ensures c !in chains
  {
    if c in chains {
      HeadOf(fat, chains, c);
      assert Owns(chains, c, chains[c][0]);
      OwnedInUse(fat, chains, c, c);
    }
  }

  /** What the table says about cluster k of a chain: a link to the next one, or the end mark. */
  lemma ClusterEntry(vol: Partition, h: nat, k: nat)
    requires vol.Consistent() && h in vol.chains
    ensures h != 0 && vol.chains[h] != [] && vol.chains[h][0] == h
    ensures k < |vol.chains[h]| ==>
      && vol.chains[h][k] != 0
      && vol.FatGet(vol.chains[h][k]) ==
           if k + 1 < |vol.chains[h]| then Link(vol.chains[h][k + 1]) else EndOfChain
    ensures k + 1 < |vol.chains[h]| ==> vol.chains[h][k + 1] != 0
  {
    var ch := vol.chains[h];
    HeadOf(vol.fat, vol.chains, h);
    ChainEntry(vol.fat, ch, k);
    hide WellFormed, IsChain;
  }

  lemma ChainEntry(fat: seq<nat>, ch: Chain, k: nat)
    requires IsChain(fat, ch)
    ensures ch[0] >= 2
    ensures k < |ch| ==> InTable(fat, ch[k]) && if k + 1 < |ch| then fat[ch[k]] == ch[k + 1] else IsEoc(fat, fat[ch[k]])
    ensures k + 1 < |ch| ==> InTable(fat, ch[k + 1])
  {
    assert InTable(fat, ch[0]);
    assert k + 1 < |ch| ==> Follows(fat, ch, k);
  }

  lemma SelfKept(vol: Partition, h: nat)
    requires vol.Consistent()
    ensures OthersKept(vol.geometry, vol.chains, vol.sectors, h, vol.chains, vol.sectors, h)
  {
    AllFit(vol);
  }

  lemma SelfStored(vol: Partition, h: nat)
    requires vol.Consistent()
    ensures OnlyStored(vol.geometry, vol.chains, vol.sectors, h, vol.chains, vol.sectors, h)
  {
    SelfKept(vol, h);
  }

  /** Every chain of a consistent volume lies on the device. */
  lemma AllFit(vol: Partition)
    requires vol.Consistent()
    ensures 0 !in vol.chains
    ensures forall h :: h in vol.chains ==> vol.geometry.SameSectors(vol.sectors, vol.sectors, vol.chains[h])
  {
    NoZeroHead(vol.fat, vol.chains);
    forall h | h in vol.chains ensures vol.geometry.SameSectors(vol.sectors, vol.sectors, vol.chains[h]) {
      ChainFits(vol, h);
    }
  }

  lemma ContiguousAt(ch: Chain, i: nat)
    requires Contiguous(ch) && i < |ch|
    ensures ch[i] == ch[0] + i
  {}

}
