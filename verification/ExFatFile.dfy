/**
  An exFAT file. Its list is an implicit range while the contiguous flag is set and a FAT chain
  otherwise; addCluster turns one into the other in place. Only the bytes before the valid length
  are the file's; every operation is proved against them as a byte sequence with a position.
*/
module ExFatFile {
  import opened FatTable
  import opened ExFatPartition
  import opened ExFatLists
  import opened SectorMap
  import opened FileBytes

  /** Outcome of a call that searches the bitmap; Hangs stands for a search that never returns. */
  datatype Outcome = Stepped | Refused | Full | Hangs

  /** The invariant of a volume in every reachable state. */
  ghost predicate Consistent(vol: Partition)
    reads vol
  {
    && vol.Shape()
    && XWellFormed(vol.fat, vol.Bits(), vol.chains, vol.ranges)
    && HintSound(vol.Bits(), vol.bitmapStart)
    && vol.geometry.sectorsPerCluster > 0 && ClusterSize(vol.geometry)
    && OnDevice(vol.geometry, vol.sectors, vol.clusterCount)
  }

  /** Every cluster lies on the device. */
  ghost predicate OnDevice(g: Geometry, sectors: seq<Sector>, clusterCount: nat) {
    forall c :: 2 <= c < clusterCount + 2 ==> g.ClusterFits(sectors, c)
  }

  /** Cluster sizes are powers of two up to 32 MB, so they divide 2^32. */
  ghost predicate ClusterSize(g: Geometry) {
    exists m: nat :: m * g.BytesPerCluster() == 0x1_0000_0000
  }

  predicate SomeFree(bits: seq<bool>) {
    exists i :: 0 <= i < |bits| && !bits[i]
  }

  /** The search for one cluster returns: it does not start at bit 0 of a full bitmap. */
  predicate SearchReturns(vol: Partition, cluster: nat)
    requires vol.Shape() && cluster != 1
    reads vol
  {
    vol.StartBit(cluster) != 0 || SomeFree(vol.Bits())
  }

  /** The search for a run from the hint fails: there is none above the hint, and none below it. */
  predicate NotFound(bits: seq<bool>, hint: nat, count: nat) {
    !HasRun(bits, hint, |bits|, count) && !HasRun(bits, 0, hint, count)
  }

  /** ... and from a hint of 0 it does not even return. */
  predicate NeverReturns(bits: seq<bool>, hint: nat, count: nat) {
    hint == 0 && !HasRun(bits, 0, |bits|, count)
  }

  lemma SomeFreeIsRun(bits: seq<bool>)
    ensures SomeFree(bits) <==> HasRun(bits, 0, |bits|, 1)
  {
    if SomeFree(bits) {
      var i :| 0 <= i < |bits| && !bits[i];
      assert ClearRun(bits, i, 1);
    }
    if HasRun(bits, 0, |bits|, 1) {
      var b :| 0 <= b <= |bits| - 1 && ClearRun(bits, b, 1);
      assert !bits[b];
    }
  }

  class File {
    const vol: Partition
    var firstCluster: nat
    var curCluster: nat
    var curPosition: nat
    var dataLength: nat
    var validLength: nat
    var contiguous: bool
    var append: bool
    var readable: bool
    var writable: bool

    constructor Open(vol: Partition, firstCluster: nat, dataLength: nat, validLength: nat, contiguous: bool,
                     readable: bool, writable: bool, append: bool)
      requires Consistent(vol) && validLength <= dataLength < 0x1_0000_0000_0000_0000
      requires firstCluster == 0 || firstCluster in vol.chains
      requires vol.geometry.Needed(dataLength) == |ListOf(vol.chains, firstCluster)|
      requires firstCluster in vol.chains ==> (contiguous <==> firstCluster in vol.ranges)
      ensures this.vol == vol && Valid() && Chain() == ListOf(vol.chains, firstCluster)
      ensures this.validLength == validLength && this.dataLength == dataLength && curPosition == 0
      ensures this.firstCluster == firstCluster
      ensures this.readable == readable && this.writable == writable && this.append == append
    {
      this.vol, this.firstCluster, this.dataLength, this.validLength := vol, firstCluster, dataLength, validLength;
      this.contiguous, this.readable, this.writable, this.append := contiguous, readable, writable, append;
      curPosition, curCluster := 0, 0;
    }

    /** What opening does last: it truncates, or goes to the end of the valid bytes. */
    method Enter(truncated: bool, atEnd: bool) returns (ok: bool)
      requires Valid() && curPosition == 0
      modifies this
      modifies vol`fat, vol`bitmap, vol`bitmapStart, vol`chains, vol`ranges
      ensures Valid()
      ensures ok <==> truncated ==> writable
      ensures ok && truncated ==> dataLength == 0 && Contents() == [] && Chain() == []
      ensures !truncated || !ok ==> Contents() == old(Contents()) && vol.chains == old(vol.chains) && vol.fat == old(vol.fat)
      ensures ok && !truncated && atEnd ==> curPosition == |Contents()|
      ensures vol.ranges - {firstCluster} == old(vol.ranges) - {old(firstCluster)}
      ensures OthersKept(vol.geometry, old(vol.chains), vol.sectors, old(firstCluster),
                         vol.chains, vol.sectors, firstCluster)
    {
      hide Consistent, BitsReleased, OthersKept, Geometry.Bytes;
      SelfKept(vol, firstCluster);
      ok := true;
      if truncated {
        if !writable {
          return false;
        }
        ok := SeekSet(0);
        if ok {
          ok := Truncate();
        }
      } else if atEnd {
        ok := SeekSet(validLength);
      }
    }

    ghost function Chain(): Chain
      reads this, vol
    {
      ListOf(vol.chains, firstCluster)
    }

    ghost predicate Body(extent: nat)
      reads this, vol
    {
      && Consistent(vol)
      && (firstCluster == 0 || firstCluster in vol.chains)
      && |Chain()| == vol.geometry.Needed(extent)
      && (firstCluster != 0 ==> (contiguous <==> firstCluster in vol.ranges))
    }

    ghost predicate CursorAt(pos: nat)
      requires vol.geometry.sectorsPerCluster > 0
      reads this, vol
    {
      if pos == 0 then curCluster == 0
      else vol.geometry.ClusterIndex(pos - 1) < |Chain()| && curCluster == Chain()[vol.geometry.ClusterIndex(pos - 1)]
    }

    ghost predicate Linked(extent: nat)
      reads this, vol
    {
      Body(extent) && curPosition <= extent < 0x1_0000_0000_0000_0000 && CursorAt(curPosition)
    }

    ghost predicate Valid()
      reads this, vol
    {
      Linked(dataLength) && curPosition <= validLength <= dataLength
    }

    lemma OwnList(extent: nat)
      requires Body(extent)
      ensures 0 !in vol.chains
      ensures firstCluster == 0 <==> extent == 0
      ensures firstCluster != 0 ==> Chain() != [] && Chain()[0] == firstCluster
      ensures vol.geometry.Fits(vol.sectors, Chain()) && NoRepeats(Chain())
    {
      AllFit(vol);
      if firstCluster != 0 { ListFits(vol, firstCluster); }
    }

    /** The clusters of a volume cannot hold 2^64 bytes, so no position ever wraps. */
    lemma ExtentBounded(extent: nat)
      requires Body(extent)
      ensures extent < 0x1_0000_0000_0000_0000
    {
      hide Geometry.Needed;
      OwnList(extent);
      SizePositive(vol);
      if firstCluster != 0 { ListLength(vol, firstCluster); }
      VolumeBytes(vol.geometry, extent, |Chain()|);
    }

    lemma ValidFits()
      requires Body(dataLength) && validLength <= dataLength
      ensures vol.geometry.Fits(vol.sectors, Chain())
      ensures vol.geometry.Needed(validLength) <= |Chain()|
    {
      OwnList(dataLength);
      vol.geometry.NeededMonotonic(validLength, dataLength);
    }

    /** What the file means: its valid bytes. The position is `curPosition`. */
    ghost function Contents(): (b: seq<Byte>)
      requires Valid()
      reads this, vol
      ensures |b| == validLength
    {
      ValidFits();
      vol.geometry.Bytes(vol.sectors, Chain(), validLength)
    }

    /** Where the bytes lie: byte o of sector k of the i-th cluster, counted from the data start. */
    lemma ContentsLie(q: nat, i: nat, k: nat, o: nat)
      requires Valid() && i < |Chain()| && k < vol.geometry.sectorsPerCluster && o < 512
      requires q == (i * vol.geometry.sectorsPerCluster + k) * 512 + o < |Contents()|
      ensures var g := vol.geometry;
              var d := g.dataStart + (Chain()[i] - 2) * g.sectorsPerCluster + k;
              0 <= d < |vol.sectors| && Contents()[q] == vol.sectors[d][o]
    {
      hide Geometry.Needed, Geometry.Bytes, Geometry.ByteAt, Consistent;
      var g := vol.geometry;
      SizePositive(vol);
      ValidFits();
      g.ByteLies(vol.sectors, Chain(), i, k, o);
      ByteOf(g, vol.sectors, Chain(), |Contents()|, q);
    }

    // ----- read -----

    /** Moves to the cluster of the current position when a new cluster starts there. */
    method NextReadCluster() returns (ok: bool)
      requires Valid() && curPosition < validLength
      modifies this`curCluster
      ensures ok
      ensures vol.geometry.ClusterIndex(curPosition) < |Chain()|
      ensures curCluster == Chain()[vol.geometry.ClusterIndex(curPosition)]
    {
      hide XWellFormed, OnDevice, HintSound, ClusterSize, Geometry.Needed, Geometry.ClusterIndex;
      ghost var idx := vol.geometry.ClusterIndex(curPosition);
      StepPoint(vol.geometry, dataLength, curPosition);
      OwnList(dataLength);
      ListEntry(vol, firstCluster, if idx == 0 then 0 else idx - 1);
      if curPosition % vol.geometry.BytesPerCluster() == 0 {
        if curPosition == 0 {
          curCluster := firstCluster;
        } else if contiguous {
          curCluster := curCluster + 1;
        } else {
          var entry := vol.FatGet(curCluster);
          if !entry.Link? {
            return false;
          }
          curCluster := entry.next;
        }
      }
      return true;
    }

    /** One transfer, which moves the position behind the bytes it delivers. */
    method ReadPiece(toRead: nat) returns (piece: seq<Byte>)
      requires Body(dataLength) && validLength <= dataLength < 0x1_0000_0000_0000_0000
      requires 0 < toRead <= validLength - curPosition
      requires vol.geometry.ClusterIndex(curPosition) < |Chain()|
      requires curCluster == Chain()[vol.geometry.ClusterIndex(curPosition)]
      modifies this`curPosition
      ensures Valid() && 0 < |piece| <= toRead && curPosition == old(curPosition) + |piece|
      ensures piece == Contents()[old(curPosition)..curPosition]
    {
      hide Consistent, Loads, Geometry.Needed, Geometry.Bytes, Geometry.ClusterIndex;
      SizePositive(vol);
      ValidFits();
      piece := LoadPiece(vol.geometry, vol.sectors, Chain(), curCluster, curPosition, toRead);
      LoadedBytes(vol.geometry, vol.sectors, Chain(), validLength, curPosition, piece);
      curPosition := curPosition + |piece|;
    }

    method Read(nbyte: nat) returns (ok: bool, data: seq<Byte>)
      requires Valid()
      modifies this`curPosition, this`curCluster
      ensures Valid()
      ensures ok == readable
      ensures Contents() == old(Contents())
      ensures data == if ok then Contents()[old(curPosition)..Min(validLength, old(curPosition) + nbyte)] else []
      ensures curPosition == old(curPosition) + |data|
    {
      hide Consistent, Loads, Geometry.Needed, Geometry.Bytes, Geometry.ClusterIndex;
      data := [];
      if !readable {
        return false, data;
      }
      SizePositive(vol);
      var toRead: nat := if curPosition + nbyte > validLength then validLength - curPosition else nbyte;
      ghost var bytes, ch, start, stop := Contents(), Chain(), curPosition, curPosition + toRead;
      while toRead > 0
        invariant Valid() && Chain() == ch && Contents() == bytes
        invariant start <= curPosition && curPosition + toRead == stop <= validLength
        invariant data == bytes[start..curPosition]
      {
        var found := NextReadCluster();
        if !found {
          return false, data;
        }
        var piece := ReadPiece(toRead);
        NextSlice(bytes, start, curPosition - |piece|, curPosition);
        data := data + piece;
        toRead := toRead - |piece|;
      }
      ok := true;
    }

    // ----- addCluster -----

    /** Appends exactly one cluster to the list, converting a range that cannot grow into a chain. */
    method AddCluster(ghost head: nat) returns (ok: bool)
      requires Consistent(vol) && SearchReturns(vol, if curCluster != 0 then curCluster + 1 else 0)
      requires if curCluster == 0 then head == 0
               else head in vol.chains && curCluster == vol.chains[head][|vol.chains[head]| - 1]
                    && (contiguous <==> head in vol.ranges) && (contiguous ==> firstCluster == head)
      modifies this`curCluster, this`contiguous
      modifies vol`fat, vol`bitmap, vol`bitmapStart, vol`chains, vol`ranges
      ensures Consistent(vol)
      ensures ok <==> SomeFree(old(vol.Bits()))
      ensures !ok ==> curCluster == old(curCluster) && contiguous == old(contiguous)
                      && vol.chains == old(vol.chains) && vol.ranges == old(vol.ranges)
                      && vol.fat == old(vol.fat) && vol.bitmap == old(vol.bitmap)
                      && vol.bitmapStart == old(vol.bitmapStart)
      ensures ok && UsedUpTo(old(vol.Bits()), old(curCluster)) ==>
                curCluster > old(curCluster) && UsedUpTo(vol.Bits(), curCluster)
      ensures ok ==> var h := if head == 0 then curCluster else head;
        && InTable(vol.fat, curCluster) && !old(vol.Bits())[curCluster - 2]
        && vol.Bits() == old(vol.Bits())[curCluster - 2 := true]
        && curCluster !in old(vol.chains) && curCluster !in old(vol.ranges)
        && vol.chains == old(vol.chains)[h := ListOf(old(vol.chains), head) + [curCluster]]
        && contiguous == (head == 0 || (old(contiguous) && curCluster == old(curCluster) + 1))
        && vol.ranges == if contiguous then old(vol.ranges) + {h} else old(vol.ranges) - {h}
    {
      hide XWellFormed, OnDevice, HintSound, SomeFree, Range, SearchReturns, ClusterSize, UsedUpTo;
      ghost var bits0, fat0, chains0, ranges0 := vol.Bits(), vol.fat, vol.chains, vol.ranges;
      NoZeroList(fat0, bits0, chains0, ranges0);
      if head != 0 { ListEntry(vol, head, 0); }
      var find;
      UsedUpToNone(bits0);
      ok, find := TakeCluster(if curCluster != 0 then curCluster + 1 else 0);
      if !ok {
        return false;
      }
      ok := Attach(find, head, bits0);
      if !ok {
        return false;
      }
      ghost var h := if head == 0 then find else head;
      FreeNoHead(fat0, bits0, chains0, ranges0, find);
      vol.chains := chains0[h := ListOf(chains0, head) + [find]];
      vol.ranges := if contiguous then ranges0 + {h} else ranges0 - {h};
      curCluster := find;
    }

    /** The list after one more cluster: a new range, a longer range, or a chain. */
    method Attach(find: nat, ghost head: nat, ghost bits0: seq<bool>) returns (ok: bool)
      requires vol.Shape() && XWellFormed(vol.fat, bits0, vol.chains, vol.ranges)
      requires InTable(vol.fat, find) && |bits0| == |vol.fat| - 2 && !bits0[find - 2]
      requires if curCluster == 0 then head == 0
               else head in vol.chains && vol.chains[head] != [] && curCluster == vol.chains[head][|vol.chains[head]| - 1]
                    && (contiguous <==> head in vol.ranges) && (contiguous ==> firstCluster == head)
      modifies this`contiguous, vol`fat
      ensures ok && vol.Shape() && contiguous == (head == 0 || (old(contiguous) && find == curCluster + 1))
      ensures var h := if head == 0 then find else head;
              XWellFormed(vol.fat, bits0[find - 2 := true], vol.chains[h := ListOf(vol.chains, head) + [find]],
                          if contiguous then vol.ranges + {h} else vol.ranges - {h})
    {
      hide XWellFormed, Range;
      ghost var fat0 := vol.fat;
      NoZeroList(fat0, bits0, vol.chains, vol.ranges);
      ok := true;
      if curCluster == 0 {
        contiguous := true;
        NewRange(fat0, bits0, vol.chains, vol.ranges, find, 1);
        SetOne(bits0, find - 2);
        assert Run(find, 1) == ListOf(vol.chains, head) + [find];
      } else if contiguous && find == curCluster + 1 {
        ListFacts(fat0, bits0, vol.chains, vol.ranges, head);
        ExtendRange(fat0, bits0, vol.chains, vol.ranges, head, find);
      } else {
        ListFacts(fat0, bits0, vol.chains, vol.ranges, head);
        ok := ConnectCluster(find, vol.chains[head]);
        if !ok {
          return false;
        }
        GrowChain(fat0, bits0, vol.chains, vol.ranges, vol.fat, head, find);
      }
    }

    /** The FAT part of addCluster: a range becomes a chain, and the new cluster is linked last. */
    method ConnectCluster(find: nat, ghost ch: Chain) returns (ok: bool)
      requires vol.Shape() && InTable(vol.fat, find) && find !in ch
      requires ch != [] && AllInTable(vol.fat, ch) && NoRepeats(ch) && curCluster == ch[|ch| - 1]
      requires if contiguous then firstCluster == ch[0] && Range(ch) else XChain(vol.fat, ch)
      modifies this`contiguous, vol`fat
      ensures ok && vol.Shape() && !contiguous
      ensures LinkedAfter(old(vol.fat), vol.fat, ch, find)
    {
      hide LinkedAfter, Range, XChain, NoRepeats;
      ghost var fat0 := vol.fat;
      EndInTable(vol.fat, ch);
      if contiguous {
        BecomeChain(ch);
      } else {
        LinksInside(fat0, vol.fat, ch, false);
      }
      LinkedLast(fat0, vol.fat, ch, find);
      hide AllInTable;
      ok := vol.FatPut(find, EXFAT_EOC);
      if !ok {
        return false;
      }
      ok := vol.FatPut(curCluster, find);
    }

    /** The range of the file, up to the cursor, is written out as links. */
    method BecomeChain(ghost ch: Chain)
      requires vol.Shape() && ch != [] && AllInTable(vol.fat, ch) && Range(ch)
      requires curCluster == ch[|ch| - 1] && firstCluster == ch[0]
      modifies this`contiguous, vol`fat
      ensures vol.Shape() && !contiguous && |vol.fat| == |old(vol.fat)|
      ensures forall i :: 0 <= i < |ch| - 1 ==> InTable(vol.fat, ch[i]) && vol.fat[ch[i]] == ch[i + 1]
      ensures forall d :: InTable(vol.fat, d) && d !in ch ==> vol.fat[d] == old(vol.fat)[d]
    {
      ghost var fat0 := vol.fat;
      assert InTable(vol.fat, ch[0]) && InTable(vol.fat, ch[|ch| - 1]);
      contiguous := false;
      LinkRange(firstCluster, curCluster);
      LinksInside(fat0, vol.fat, ch, true);
    }

    /** bitmapFind and bitmapModify for one cluster. */
    method TakeCluster(from: nat) returns (ok: bool, find: nat)
      requires Consistent(vol) && from != 1 && SearchReturns(vol, from)
      modifies vol`bitmap, vol`bitmapStart
      ensures vol.Shape() && HintSound(vol.Bits(), vol.bitmapStart)
      ensures ok <==> SomeFree(old(vol.Bits()))
      ensures !ok ==> vol.bitmap == old(vol.bitmap) && vol.bitmapStart == old(vol.bitmapStart)
      ensures ok ==> InTable(vol.fat, find) && !old(vol.Bits())[find - 2]
                     && vol.Bits() == old(vol.Bits())[find - 2 := true]
      ensures ok && UsedUpTo(old(vol.Bits()), from - 1) ==> find >= from && UsedUpTo(vol.Bits(), find)
    {
      hide XWellFormed, ClusterSize, HintSound, UsedUpTo;
      SomeFreeIsRun(vol.Bits());
      ghost var bits, start, hint := vol.Bits(), vol.StartBit(from), vol.bitmapStart;
      var r := vol.BitmapFind(from, 1);
      if r == NoSpace {
        NoSpaceMeansFull(bits, start);
        return false, 0;
      }
      find := r.cluster;
      assert !bits[find - 2];
      LowestIsNext(bits, hint, start, from, find);
      if from == 0 { FindKeepsHint(bits, start, find); }
      ModifyKeepsHint(bits, vol.bitmapStart, find - 2, 1, true);
      SetOne(bits, find - 2);
      ok := MarkTaken(find);
    }

    /** bitmapModify for one free cluster. */
    method MarkTaken(find: nat) returns (ok: bool)
      requires vol.Shape() && InTable(vol.fat, find) && !vol.Bits()[find - 2]
      modifies vol`bitmap, vol`bitmapStart
      ensures ok && vol.Shape() && vol.Bits() == old(vol.Bits())[find - 2 := true]
      ensures vol.bitmapStart == HintAfterModify(old(vol.bitmapStart), find - 2, 1, true, vol.clusterCount)
    {
      ghost var bitmap0, bits := vol.bitmap, vol.Bits();
      ok := vol.BitmapModify(find, 1, true);
      SetRunPrefix(bitmap0, vol.clusterCount, find - 2, 1, true);
      SetRunBits(bits, find - 2, 1, true);
      assert vol.Bits() == bits[find - 2 := true];
    }

    /** Writes the links of the range first..last into the FAT. */
    method LinkRange(first: nat, last: nat)
      requires vol.Shape() && 2 <= first <= last < |vol.fat|
      modifies vol`fat
      ensures vol.Shape()
      ensures forall c :: 0 <= c < |vol.fat| ==> vol.fat[c] == if first <= c < last then c + 1 else old(vol.fat)[c]
    {
      for c := first to last
        invariant vol.Shape()
        invariant forall d :: 0 <= d < |vol.fat| ==> vol.fat[d] == if first <= d < c then d + 1 else old(vol.fat)[d]
      {
        var _ := vol.FatPut(c, c + 1);
      }
    }

    // ----- write, as far as clusters are concerned -----

    /** The last cluster of a range as write computes it: 64-bit subtraction, 32-bit sum. */
    function LastOfRange(): nat
      requires vol.geometry.sectorsPerCluster > 0
      reads this
    {
      (firstCluster + vol.geometry.ClusterIndex((dataLength + 0xFFFF_FFFF_FFFF_FFFF) % 0x1_0000_0000_0000_0000))
      % 0x1_0000_0000
    }

    /** The clusters of the file are full up to the position, and no cluster of the volume is free. */
    ghost predicate OutOfSpace()
      reads this, vol
    {
      vol.Shape() && !SomeFree(vol.Bits()) && curPosition == |Chain()| * vol.geometry.BytesPerCluster()
    }

    /** Where the search for another cluster starts. */
    function SearchFrom(): (c: nat)
      reads this
      ensures c != 1
    {
      if curCluster != 0 then curCluster + 1 else 0
    }

    /** What a search for a cluster of a full volume comes to: from bit 0 it never returns. */
    function OnFull(): Outcome
      requires vol.Shape()
      reads this, vol
    {
      if vol.StartBit(SearchFrom()) == 0 then Hangs else Full
    }

    /** The cursor's cluster is the file's last in number, and every cluster before it is in use. */
    ghost predicate Packed()
      reads this, vol
    {
      vol.Shape() && PackedTo(vol.Bits(), Chain(), curCluster)
    }

    /** Moves to the cluster of the current position, adding one at the end of the list. */
    method NextWriteCluster() returns (r: Outcome)
      requires Linked(Max(dataLength, curPosition))
      modifies this`firstCluster, this`curCluster, this`contiguous
      modifies vol`fat, vol`bitmap, vol`bitmapStart, vol`chains, vol`ranges
      ensures r != Refused
      ensures r != Stepped ==> Linked(Max(dataLength, curPosition)) && OutOfSpace() && r == OnFull()
      ensures curCluster == 0 ==> old(curCluster) == 0 && vol.bitmapStart == old(vol.bitmapStart)
      ensures old(Packed()) && dataLength <= curPosition ==> Packed()
      ensures r == Stepped ==>
        && Body(Max(dataLength, curPosition + 1))
        && vol.geometry.ClusterIndex(curPosition) < |Chain()|
        && curCluster == Chain()[vol.geometry.ClusterIndex(curPosition)]
      ensures old(Chain()) <= Chain()
      ensures vol.chains - {firstCluster} == old(vol.chains) - {old(firstCluster)}
      ensures vol.ranges - {firstCluster} == old(vol.ranges) - {old(firstCluster)}
    {
      hide XWellFormed, OnDevice, HintSound, SomeFree, SearchReturns, Geometry.Needed, Geometry.ClusterIndex,
        ClusterSize, Range, PackedTo;
      NoZeroList(vol.fat, vol.Bits(), vol.chains, vol.ranges);
      StepPoint(vol.geometry, dataLength, curPosition);
      r := Stepped;
      if curPosition % vol.geometry.BytesPerCluster() == 0 {
        var atEnd := StepInside();
        if atEnd {
          AtBoundary(vol.geometry, curPosition);
          r := GrowAtEnd();
        }
      }
    }

    /** At the start of a new cluster: moves to it, or reports that the list ends before it. */
    method StepInside() returns (atEnd: bool)
      requires Linked(Max(dataLength, curPosition))
      requires curPosition % vol.geometry.BytesPerCluster() == 0
      modifies this`curCluster
      ensures var idx := vol.geometry.ClusterIndex(curPosition);
        if atEnd then |Chain()| == idx && curCluster == old(curCluster)
          && (if idx == 0 then firstCluster == 0 && curCluster == 0
              else firstCluster != 0 && curCluster != 0 && curCluster == Chain()[idx - 1])
        else idx < |Chain()| && curCluster == Chain()[idx]
      ensures curCluster == 0 ==> old(curCluster) == 0
    {
      hide Consistent, Geometry.Needed, Geometry.ClusterIndex, ClusterSize, Range;
      SizePositive(vol);
      ghost var g, ch, idx := vol.geometry, Chain(), vol.geometry.ClusterIndex(curPosition);
      AllFit(vol);
      StepPoint(g, dataLength, curPosition);
      atEnd := false;
      if firstCluster != 0 { ListEntry(vol, firstCluster, if idx == 0 then 0 else idx - 1); }
      if curCluster != 0 {
        if contiguous {
          g.NeededMonotonic(dataLength, Max(dataLength, curPosition));
          LastOfRangeIs(g, firstCluster, dataLength);
          if curCluster < LastOfRange() {
            curCluster := curCluster + 1;
          } else {
            atEnd := true;
          }
        } else {
          var entry := vol.FatGet(curCluster);
          if entry.Link? {
            ListEntry(vol, firstCluster, idx);
            curCluster := entry.next;
          } else {
            atEnd := true;
          }
        }
      } else if firstCluster == 0 {
        atEnd := true;
      } else {
        curCluster := firstCluster;
      }
    }

    /** Adds a cluster behind the last one, which the cursor is on, or as the first. */
    method GrowAtEnd() returns (r: Outcome)
      requires Consistent(vol) && (firstCluster == 0 || firstCluster in vol.chains)
      requires firstCluster != 0 ==> (contiguous <==> firstCluster in vol.ranges)
      requires if firstCluster == 0 then curCluster == 0
               else curCluster != 0 && Chain() != [] && curCluster == Chain()[|Chain()| - 1]
      modifies this`firstCluster, this`curCluster, this`contiguous
      modifies vol`fat, vol`bitmap, vol`bitmapStart, vol`chains, vol`ranges
      ensures Consistent(vol) && r != Refused
      ensures r != Stepped ==>
        && !SomeFree(vol.Bits()) && r == OnFull() && vol.bitmapStart == old(vol.bitmapStart)
        && vol.Bits() == old(vol.Bits()) && vol.chains == old(vol.chains) && vol.ranges == old(vol.ranges)
        && firstCluster == old(firstCluster) && curCluster == old(curCluster) && contiguous == old(contiguous)
      ensures old(Packed()) ==> Packed()
      ensures r == Stepped ==>
        && curCluster != 0
        && firstCluster in vol.chains && Chain() == old(Chain()) + [curCluster]
        && (contiguous <==> firstCluster in vol.ranges)
        && firstCluster == (if old(firstCluster) == 0 then curCluster else old(firstCluster))
      ensures vol.chains - {firstCluster} == old(vol.chains) - {old(firstCluster)}
      ensures vol.ranges - {firstCluster} == old(vol.ranges) - {old(firstCluster)}
    {
      hide XWellFormed, OnDevice, HintSound, SomeFree, ClusterSize;
      NoZeroList(vol.fat, vol.Bits(), vol.chains, vol.ranges);
      ghost var chains0, ranges0, first0 := vol.chains, vol.ranges, firstCluster;
      if !SearchReturns(vol, SearchFrom()) {
        NotReturning(vol, SearchFrom());
        return Hangs;
      }
      var ok := AddCluster(firstCluster);
      if !ok {
        return Full;
      }
      if firstCluster == 0 {
        firstCluster := curCluster;
      }
      r := Stepped;
    }

    /** One transfer of a write at the current position: part of a sector, several sectors, or one. */
    method StoreChunk(src: seq<Byte>, from: nat) returns (n: nat, ghost stale: nat)
      requires Consistent(vol) && from < |src| && firstCluster in vol.chains
      requires vol.geometry.ClusterIndex(curPosition) < |Chain()|
      requires curCluster == Chain()[vol.geometry.ClusterIndex(curPosition)]
      modifies vol`sectors
      ensures Consistent(vol) && 0 < n <= |src| - from
      ensures curPosition % vol.geometry.BytesPerCluster() + n <= vol.geometry.BytesPerCluster()
      ensures Wrote(vol.geometry, old(vol.sectors), vol.sectors, Chain(), curPosition, src[from..from + n], stale)
      ensures stale == n || curPosition >= validLength
      ensures OnlyStored(vol.geometry, vol.chains, old(vol.sectors), firstCluster,
                         vol.chains, vol.sectors, firstCluster)
    {
      hide XWellFormed, OnDevice, HintSound, ClusterSize, NoRepeats, Wrote, Geometry.ClusterIndex, Geometry.Patched,
        Geometry.Inner, Geometry.Device, Geometry.SameSectors, OnlyStored, Disjoint;
      ghost var g, before := vol.geometry, vol.sectors;
      ListFits(vol, firstCluster);
      AllFit(vol);
      var after;
      ghost var ns;
      after, n, stale, ns := StorePiece(vol.geometry, vol.sectors, Chain(), curCluster, curPosition, src, from,
                                        curPosition < validLength);
      vol.sectors := after;
      PatchedOnDevice(g, before, after, vol.clusterCount, g.Device(Chain(), curPosition / BYTES_PER_SECTOR), ns);
      PatchOthers(g, vol.chains, before, after, firstCluster, curPosition / BYTES_PER_SECTOR, ns);
    }

    /** Where the next write begins. */
    function WriteStart(): nat
      reads this
    {
      if append then validLength else curPosition
    }

    /** The cluster step of the write loop: the bytes stored so far stay where they are. */
    method ReachCluster(ghost bytes: seq<Byte>, ghost want: seq<Byte>) returns (r: Outcome)
      requires Linked(Max(dataLength, curPosition))
      requires Agrees(vol.geometry, vol.sectors, Chain(), want, 0, curPosition)
      requires Agrees(vol.geometry, vol.sectors, Chain(), bytes, curPosition, |bytes|)
      modifies this`firstCluster, this`curCluster, this`contiguous
      modifies vol`fat, vol`bitmap, vol`bitmapStart, vol`chains, vol`ranges
      ensures r != Refused
      ensures r != Stepped ==> Linked(Max(dataLength, curPosition)) && OutOfSpace() && r == OnFull()
      ensures curCluster == 0 ==> old(curCluster) == 0 && vol.bitmapStart == old(vol.bitmapStart)
      ensures old(Packed()) && dataLength <= curPosition ==> Packed()
      ensures r == Stepped ==>
        && Body(Max(dataLength, curPosition + 1)) && firstCluster in vol.chains
        && vol.geometry.Fits(vol.sectors, Chain())
        && vol.geometry.ClusterIndex(curPosition) < |Chain()|
        && curCluster == Chain()[vol.geometry.ClusterIndex(curPosition)]
      ensures Agrees(vol.geometry, vol.sectors, Chain(), want, 0, curPosition)
      ensures Agrees(vol.geometry, vol.sectors, Chain(), bytes, curPosition, |bytes|)
      ensures vol.ranges - {firstCluster} == old(vol.ranges) - {old(firstCluster)}
      ensures OnlyStored(vol.geometry, old(vol.chains), vol.sectors, old(firstCluster),
                         vol.chains, vol.sectors, firstCluster)
    {
      hide Consistent, Agrees, Geometry.Needed, Geometry.Bytes, Geometry.ClusterIndex, NoRepeats, Geometry.Fits,
        OnlyStored, OthersKept, SomeFree, Geometry.SameSectors, PackedTo;
      ghost var g, ch0, chains0, head0 := vol.geometry, Chain(), vol.chains, firstCluster;
      AllFit(vol);
      r := NextWriteCluster();
      SizePositive(vol);
      KeptAside(g, chains0, head0, vol.chains, firstCluster, vol.sectors);
      OnlyGrown(g, chains0, head0, vol.chains, firstCluster, vol.sectors);
      OwnList(Max(dataLength, if r == Stepped then curPosition + 1 else curPosition));
      AgreesOnLongerList(g, vol.sectors, ch0, Chain(), want, 0, curPosition);
      AgreesOnLongerList(g, vol.sectors, ch0, Chain(), bytes, curPosition, |bytes|);
    }

    /** One turn of the write loop: the cluster step and one transfer. */
    method WriteOnce(src: seq<Byte>, done: nat, ghost bytes: seq<Byte>, ghost start: nat) returns (r: Outcome)
      requires start <= |bytes| && done < |src| && curPosition == start + done
      requires validLength == Max(|bytes|, curPosition)
      requires Linked(Max(dataLength, curPosition))
      requires Agrees(vol.geometry, vol.sectors, Chain(), Overlay(bytes, start, src), 0, curPosition)
      requires Agrees(vol.geometry, vol.sectors, Chain(), bytes, curPosition, |bytes|)
      modifies this`firstCluster, this`curCluster, this`curPosition, this`contiguous, this`validLength
      modifies vol`fat, vol`bitmap, vol`bitmapStart, vol`chains, vol`ranges, vol`sectors
      ensures Linked(Max(dataLength, curPosition)) && validLength == Max(|bytes|, curPosition)
      ensures r != Refused
      ensures r != Stepped ==> curPosition == old(curPosition) && OutOfSpace() && r == OnFull()
      ensures curCluster == 0 ==> old(curCluster) == 0 && vol.bitmapStart == old(vol.bitmapStart)
      ensures old(Packed()) && dataLength <= old(curPosition) ==> Packed()
      ensures r == Stepped ==> old(curPosition) < curPosition <= start + |src|
      ensures Agrees(vol.geometry, vol.sectors, Chain(), Overlay(bytes, start, src), 0, curPosition)
      ensures Agrees(vol.geometry, vol.sectors, Chain(), bytes, curPosition, |bytes|)
      ensures vol.ranges - {firstCluster} == old(vol.ranges) - {old(firstCluster)}
      ensures OnlyStored(vol.geometry, old(vol.chains), old(vol.sectors), old(firstCluster),
                         vol.chains, vol.sectors, firstCluster)
    {
      hide Consistent, Wrote, Agrees, Geometry.Needed, Geometry.Bytes, Geometry.ClusterIndex, NoRepeats, Geometry.Fits,
        OnlyStored, SomeFree, Geometry.SameSectors, PackedTo, File.OutOfSpace, File.OnFull, Overlay;
      ghost var g, chains0, sectors0, head0 := vol.geometry, vol.chains, vol.sectors, firstCluster;
      r := ReachCluster(bytes, Overlay(bytes, start, src));
      if r != Stepped {
        return;
      }
      ghost var chains1, sectors1 := vol.chains, vol.sectors;
      StoreHere(src, done, bytes, start);
      OnlyStoredTrans(g, chains0, sectors0, head0, chains1, sectors1, firstCluster,
                      vol.chains, vol.sectors, firstCluster);
    }

    /** The transfer of the write loop, with the cursor on the cluster of the position. */
    method StoreHere(src: seq<Byte>, done: nat, ghost bytes: seq<Byte>, ghost start: nat)
      requires start <= |bytes| && done < |src| && curPosition == start + done
      requires validLength == Max(|bytes|, curPosition)
      requires Body(Max(dataLength, curPosition + 1)) && firstCluster in vol.chains
      requires vol.geometry.Fits(vol.sectors, Chain()) && vol.geometry.ClusterIndex(curPosition) < |Chain()|
      requires curCluster == Chain()[vol.geometry.ClusterIndex(curPosition)]
      requires Agrees(vol.geometry, vol.sectors, Chain(), Overlay(bytes, start, src), 0, curPosition)
      requires Agrees(vol.geometry, vol.sectors, Chain(), bytes, curPosition, |bytes|)
      modifies this`curPosition, this`validLength, vol`sectors
      ensures Linked(Max(dataLength, curPosition)) && validLength == Max(|bytes|, curPosition)
      ensures old(curPosition) < curPosition <= start + |src|
      ensures Agrees(vol.geometry, vol.sectors, Chain(), Overlay(bytes, start, src), 0, curPosition)
      ensures Agrees(vol.geometry, vol.sectors, Chain(), bytes, curPosition, |bytes|)
      ensures OnlyStored(vol.geometry, vol.chains, old(vol.sectors), firstCluster, vol.chains, vol.sectors, firstCluster)
    {
      hide Consistent, Wrote, Agrees, Geometry.Needed, Geometry.Bytes, Geometry.ClusterIndex, Geometry.Fits, OnlyStored,
        Overlay, Geometry.SameSectors;
      ghost var g, p, sectors1 := vol.geometry, curPosition, vol.sectors;
      SizePositive(vol);
      var n, stale := StoreChunk(src, done);
      ChunkIndex(g, dataLength, p, n);
      StoredOnce(g, sectors1, vol.sectors, Chain(), bytes, start, src, done, n, stale, false);
      curPosition := curPosition + n;
      if curPosition > validLength {
        validLength := curPosition;
      }
      ExtentBounded(Max(dataLength, curPosition));
    }

    method WriteLoop(src: seq<Byte>, ghost bytes: seq<Byte>, ghost start: nat) returns (r: Outcome)
      requires start <= |bytes| == validLength && curPosition == start
      requires Linked(Max(dataLength, curPosition))
      requires Agrees(vol.geometry, vol.sectors, Chain(), Overlay(bytes, start, src), 0, curPosition)
      requires Agrees(vol.geometry, vol.sectors, Chain(), bytes, curPosition, |bytes|)
      modifies this`firstCluster, this`curCluster, this`curPosition, this`contiguous, this`validLength
      modifies vol`fat, vol`bitmap, vol`bitmapStart, vol`chains, vol`ranges, vol`sectors
      ensures Linked(Max(dataLength, curPosition)) && validLength == Max(|bytes|, curPosition)
      ensures start <= curPosition <= start + |src|
      ensures r != Refused
      ensures if r == Stepped then curPosition == start + |src|
              else curPosition < start + |src| && OutOfSpace() && r == OnFull()
      ensures curCluster == 0 ==> old(curCluster) == 0 && vol.bitmapStart == old(vol.bitmapStart)
      ensures old(Packed()) && dataLength <= start ==> Packed()
      ensures Agrees(vol.geometry, vol.sectors, Chain(), Overlay(bytes, start, src), 0, curPosition)
      ensures Agrees(vol.geometry, vol.sectors, Chain(), bytes, curPosition, |bytes|)
      ensures vol.ranges - {firstCluster} == old(vol.ranges) - {old(firstCluster)}
      ensures OnlyStored(vol.geometry, old(vol.chains), old(vol.sectors), old(firstCluster),
                         vol.chains, vol.sectors, firstCluster)
    {
      hide Consistent, Agrees, Geometry.Needed, Geometry.ClusterIndex, OnlyStored, Overlay, SomeFree, PackedTo;
      SelfStored(vol, firstCluster);
      var done := 0;
      while done < |src|
        invariant 0 <= done <= |src| && curPosition == start + done
        invariant Linked(Max(dataLength, curPosition)) && validLength == Max(|bytes|, curPosition)
        invariant Agrees(vol.geometry, vol.sectors, Chain(), Overlay(bytes, start, src), 0, curPosition)
        invariant Agrees(vol.geometry, vol.sectors, Chain(), bytes, curPosition, |bytes|)
        invariant curCluster == 0 ==> old(curCluster) == 0 && vol.bitmapStart == old(vol.bitmapStart)
        invariant old(Packed()) && dataLength <= start ==> Packed()
        invariant vol.ranges - {firstCluster} == old(vol.ranges) - {old(firstCluster)}
        invariant OnlyStored(vol.geometry, old(vol.chains), old(vol.sectors), old(firstCluster),
                             vol.chains, vol.sectors, firstCluster)
      {
        var from := curPosition;
        ghost var chains1, sectors1, head1 := vol.chains, vol.sectors, firstCluster;
        r := WriteOnce(src, done, bytes, start);
        OnlyStoredTrans(vol.geometry, old(vol.chains), old(vol.sectors), old(firstCluster),
                        chains1, sectors1, head1, vol.chains, vol.sectors, firstCluster);
        if r != Stepped {
          return;
        }
        done := done + (curPosition - from);
      }
      r := Stepped;
    }

    /** A write that ran out of space: the new bytes before the position reached are stored, the old
        ones behind it are still there, but the data length has not been brought up to date. */
    ghost predicate Interrupted(bytes: seq<Byte>, start: nat, src: seq<Byte>)
      reads this, vol
    {
      && start <= |bytes| && start <= curPosition < start + |src|
      && validLength == Max(|bytes|, curPosition) && Linked(Max(dataLength, curPosition))
      && Agrees(vol.geometry, vol.sectors, Chain(), Overlay(bytes, start, src), 0, curPosition)
      && Agrees(vol.geometry, vol.sectors, Chain(), bytes, curPosition, |bytes|)
    }

    /**
      Overlays `src` at the position (at the end of the valid bytes first, when appending). It fails
      only when read-only or when no cluster of the volume is free; then the search for one ends
      exactly if it does not start at bit 0, and the bytes before the
      position reached are stored and valid, but the data length is not updated.
    */
    method Write(src: seq<Byte>) returns (r: Outcome)
      requires Valid()
      modifies this`firstCluster, this`curCluster, this`contiguous
      modifies this`curPosition, this`validLength, this`dataLength
      modifies vol`fat, vol`bitmap, vol`bitmapStart, vol`chains, vol`ranges, vol`sectors
      ensures r == Refused <==> !writable
      ensures r == Refused ==> Valid() && Contents() == old(Contents()) && curPosition == old(curPosition)
      ensures r == Stepped ==>
        && Valid() && curPosition == old(WriteStart()) + |src|
        && validLength == Max(old(validLength), curPosition) && dataLength == Max(old(dataLength), curPosition)
        && Contents() == Overlay(old(Contents()), old(WriteStart()), src)
      ensures r == Full || r == Hangs ==>
        && OutOfSpace() && r == OnFull() && dataLength == old(dataLength)
        && Interrupted(old(Contents()), old(WriteStart()), src)
      ensures curCluster == 0 ==> vol.bitmapStart == old(vol.bitmapStart)
      ensures old(Packed()) && old(dataLength) <= old(WriteStart()) == old(curPosition) ==> Packed()
      ensures vol.ranges - {firstCluster} == old(vol.ranges) - {old(firstCluster)}
      ensures vol.geometry.WroteOnly(old(vol.sectors), vol.sectors, Chain())
      ensures OthersKept(vol.geometry, old(vol.chains), old(vol.sectors), old(firstCluster),
                         vol.chains, vol.sectors, firstCluster)
    {
      hide Consistent, Agrees, Geometry.Needed, Geometry.Bytes, Geometry.ClusterIndex, OthersKept, Overlay, SomeFree,
        PackedTo, Geometry.WroteOnly;
      SelfStored(vol, firstCluster);
      if !writable {
        return Refused;
      }
      if append {
        var sought := SeekSet(validLength);
        if !sought {
          return Full;
        }
      }
      r := WriteHere(src);
    }

    /** The write proper, at the current position. */
    method WriteHere(src: seq<Byte>) returns (r: Outcome)
      requires Valid()
      modifies this`firstCluster, this`curCluster, this`contiguous
      modifies this`curPosition, this`validLength, this`dataLength
      modifies vol`fat, vol`bitmap, vol`bitmapStart, vol`chains, vol`ranges, vol`sectors
      ensures r != Refused
      ensures r == Stepped ==>
        && Valid() && curPosition == old(curPosition) + |src|
        && validLength == Max(old(validLength), curPosition) && dataLength == Max(old(dataLength), curPosition)
        && Contents() == Overlay(old(Contents()), old(curPosition), src)
      ensures r != Stepped ==>
        && OutOfSpace() && r == OnFull() && dataLength == old(dataLength)
        && Interrupted(old(Contents()), old(curPosition), src)
      ensures curCluster == 0 ==> vol.bitmapStart == old(vol.bitmapStart)
      ensures old(Packed()) && old(dataLength) <= old(curPosition) ==> Packed()
      ensures vol.ranges - {firstCluster} == old(vol.ranges) - {old(firstCluster)}
      ensures OnlyStored(vol.geometry, old(vol.chains), old(vol.sectors), old(firstCluster),
                         vol.chains, vol.sectors, firstCluster)
    {
      hide Consistent, Agrees, Geometry.Needed, Geometry.Bytes, Geometry.ClusterIndex, OnlyStored, Overlay, SomeFree,
        PackedTo;
      ghost var g, bytes, start := vol.geometry, Contents(), curPosition;
      ValidFits();
      BytesAgree(g, vol.sectors, Chain(), validLength);
      WriteStarts(g, vol.sectors, Chain(), bytes, start, src);
      r := WriteLoop(src, bytes, start);
      SizePositive(vol);
      if r != Stepped {
        return;
      }
      if curPosition > dataLength {
        dataLength := curPosition;
      }
      ValidFits();
      WriteDone(g, vol.sectors, Chain(), bytes, start, src, false);
    }

    // ----- truncate and remove -----

    /** truncate on a range: one bitmap update over the tail. */
    method ReleaseRangeTail(ghost k: nat) returns (ok: bool)
      requires Consistent(vol) && firstCluster in vol.chains && firstCluster in vol.ranges
      requires dataLength > 0 && vol.geometry.Needed(dataLength) == |Chain()| && k <= |Chain()|
      requires if k == 0 then curCluster == 0 else curCluster == Chain()[k - 1]
      modifies this`firstCluster, vol`bitmap, vol`bitmapStart, vol`chains, vol`ranges
      ensures ok && Consistent(vol)
      ensures BitsReleased(old(vol.Bits()), vol.Bits(), old(Chain())[k..])
      ensures firstCluster == if k == 0 then 0 else old(firstCluster)
      ensures vol.chains == Replaced(old(vol.chains), old(firstCluster), old(Chain())[..k])
      ensures vol.ranges == if k == 0 then old(vol.ranges) - {old(firstCluster)} else old(vol.ranges)
    {
      hide XWellFormed, OnDevice, HintSound, ClusterSize, BitsReleased, Geometry.ClusterIndex;
      ghost var ch, h, bits0 := Chain(), firstCluster, vol.Bits();
      ListEntry(vol, h, if k == 0 then 0 else k - 1);
      ListEntry(vol, h, |ch| - 1);
      RangeTail(vol.fat, bits0, vol.chains, vol.ranges, vol.bitmapStart, h, k);
      var nc := 1 + vol.geometry.ClusterIndex(dataLength - 1);
      var toFree;
      if curCluster != 0 {
        toFree := curCluster + 1;
        nc := nc - (1 + curCluster - firstCluster);
      } else {
        toFree := firstCluster;
        firstCluster := 0;
      }
      if nc != 0 {
        ghost var bitmap0 := vol.bitmap;
        ok := vol.BitmapModify(toFree, nc, false);
        if !ok {
          return false;
        }
        SetRunPrefix(bitmap0, vol.clusterCount, toFree - 2, nc, false);
      }
      vol.chains := Replaced(vol.chains, h, ch[..k]);
      if k == 0 { vol.ranges := vol.ranges - {h}; }
      ok := true;
    }

    /** Ends the chain at the cursor and gives the first cluster after it, or 0. */
    method CutChainHere(ghost k: nat) returns (ok: bool, toFree: nat)
      requires Consistent(vol) && firstCluster in vol.chains && firstCluster !in vol.ranges && k <= |Chain()|
      requires if k == 0 then curCluster == 0 else curCluster == Chain()[k - 1]
      modifies this`firstCluster, vol`fat
      ensures ok && vol.Shape()
      ensures toFree == if k < |old(Chain())| then old(Chain())[k] else 0
      ensures firstCluster == if k == 0 then 0 else old(firstCluster)
      ensures 0 < k < |old(Chain())| ==> old(Chain())[k - 1] < |old(vol.fat)|
      ensures vol.fat == if 0 < k < |old(Chain())| then old(vol.fat)[old(Chain())[k - 1] := EXFAT_EOC] else old(vol.fat)
    {
      hide XWellFormed, OnDevice, HintSound, ClusterSize, XChain;
      ListEntry(vol, firstCluster, if k == 0 then 0 else k - 1);
      if 0 < k < |Chain()| { ListEntry(vol, firstCluster, k); }
      toFree := 0;
      if curCluster != 0 {
        var entry := vol.FatGet(curCluster);
        if entry == BadCluster {
          ok := false;
          return;
        }
        if entry.Link? {
          toFree := entry.next;
          ok := vol.FatPut(curCluster, EXFAT_EOC);
          if !ok {
            return;
          }
        }
      } else {
        toFree := firstCluster;
        firstCluster := 0;
      }
      ok := true;
    }

    /** truncate on a chain: a new end mark, and the rest goes through freeChain. */
    method ReleaseChainTail(ghost k: nat) returns (ok: bool)
      requires Consistent(vol) && firstCluster in vol.chains && firstCluster !in vol.ranges && k <= |Chain()|
      requires if k == 0 then curCluster == 0 else curCluster == Chain()[k - 1]
      modifies this`firstCluster, vol`fat, vol`bitmap, vol`bitmapStart, vol`chains
      ensures ok && Consistent(vol)
      ensures BitsReleased(old(vol.Bits()), vol.Bits(), old(Chain())[k..])
      ensures firstCluster == if k == 0 then 0 else old(firstCluster)
      ensures vol.chains == Replaced(old(vol.chains), old(firstCluster), old(Chain())[..k])
    {
      hide XWellFormed, OnDevice, HintSound, ClusterSize, BitsReleased, XChain, AllSet, Cleared;
      ghost var ch, h, fat0, bits0, hint0 := Chain(), firstCluster, vol.fat, vol.Bits(), vol.bitmapStart;
      if k < |ch| { ChainTailReady(fat0, bits0, vol.chains, vol.ranges, h, k); }
      ListEntry(vol, h, if k < |ch| then k else 0);
      var toFree;
      ok, toFree := CutChainHere(k);
      if toFree != 0 {
        ok := vol.FreeChain(toFree, ch[k..]);
        if !ok {
          return false;
        }
        ReleaseKeepsHint(bits0, vol.Bits(), hint0, ch[k..]);
        ChainTailGone(fat0, bits0, vol.chains, vol.ranges, vol.fat, vol.Bits(), h, k);
      } else {
        assert ch[..k] == ch && ch[k..] == ch[|ch|..] && Replaced(vol.chains, h, ch) == vol.chains;
        NothingReleased(bits0, ch);
      }
      vol.chains := Replaced(vol.chains, h, ch[..k]);
      ok := true;
    }

    /** Releases exactly the clusters after the position, in either representation. */
    method Truncate() returns (ok: bool)
      requires Valid()
      modifies this`firstCluster, this`dataLength, this`validLength
      modifies vol`fat, vol`bitmap, vol`bitmapStart, vol`chains, vol`ranges
      ensures Valid() && ok == writable
      ensures !ok ==> vol.chains == old(vol.chains) && vol.bitmap == old(vol.bitmap) && dataLength == old(dataLength)
      ensures ok ==>
        && dataLength == validLength == curPosition
        && Contents() == old(Contents())[..curPosition]
        && vol.geometry.Needed(curPosition) <= |old(Chain())|
        && Chain() == old(Chain())[..vol.geometry.Needed(curPosition)]
        && BitsReleased(old(vol.Bits()), vol.Bits(), old(Chain())[vol.geometry.Needed(curPosition)..])
      ensures vol.ranges - {firstCluster} == old(vol.ranges) - {old(firstCluster)}
      ensures OthersKept(vol.geometry, old(vol.chains), vol.sectors, old(firstCluster),
                         vol.chains, vol.sectors, firstCluster)
    {
      hide Consistent, Geometry.ClusterIndex, Geometry.Needed, Geometry.Bytes, BitsReleased, OthersKept,
        Geometry.SameSectors;
      SizePositive(vol);
      ghost var g, ch, k := vol.geometry, Chain(), vol.geometry.Needed(curPosition);
      ghost var chains0, head0 := vol.chains, firstCluster;
      AllFit(vol);
      SelfKept(vol, firstCluster);
      TruncatePoint(g, dataLength, curPosition);
      NothingReleased(vol.Bits(), ch);
      if !writable {
        return false;
      }
      ValidFits();
      BytesOfPrefix(g, vol.sectors, ch, k, validLength, curPosition);
      if firstCluster == 0 {
        assert ch[..k] == ch == [] && ch[k..] == ch[|ch|..];
        return true;
      }
      ListEntry(vol, firstCluster, 0);
      if contiguous {
        ok := ReleaseRangeTail(k);
      } else {
        ok := ReleaseChainTail(k);
      }
      if !ok {
        return false;
      }
      KeptAside(g, chains0, head0, vol.chains, firstCluster, vol.sectors);
      assert Chain() == ch[..k];
      dataLength, validLength := curPosition, curPosition;
    }

    /** The table part of remove: one bitmap update over a range, or freeChain. */
    method ReleaseAll() returns (ok: bool)
      requires Valid() && firstCluster != 0
      modifies vol`fat, vol`bitmap, vol`bitmapStart, vol`chains, vol`ranges
      ensures ok && Consistent(vol)
      ensures vol.chains == old(vol.chains) - {firstCluster} && vol.ranges == old(vol.ranges) - {firstCluster}
      ensures BitsReleased(old(vol.Bits()), vol.Bits(), old(Chain()))
    {
      hide XWellFormed, OnDevice, HintSound, ClusterSize, BitsReleased, Geometry.ClusterIndex;
      if contiguous {
        ok := ReleaseWholeRange();
      } else {
        ok := ReleaseWholeChain();
      }
      assert firstCluster !in vol.ranges ==> vol.ranges - {firstCluster} == vol.ranges;
      vol.chains, vol.ranges := vol.chains - {firstCluster}, vol.ranges - {firstCluster};
    }

    method ReleaseWholeRange() returns (ok: bool)
      requires Valid() && firstCluster != 0 && contiguous
      modifies vol`bitmap, vol`bitmapStart
      ensures ok && vol.Shape() && HintSound(vol.Bits(), vol.bitmapStart)
      ensures XWellFormed(vol.fat, vol.Bits(), vol.chains - {firstCluster}, vol.ranges - {firstCluster})
      ensures BitsReleased(old(vol.Bits()), vol.Bits(), Chain())
    {
      hide XWellFormed, OnDevice, HintSound, ClusterSize, BitsReleased, Geometry.ClusterIndex;
      ghost var ch, h := Chain(), firstCluster;
      assert ch[0..] == ch && ch[..0] == [];
      ListEntry(vol, h, 0);
      RangeTail(vol.fat, vol.Bits(), vol.chains, vol.ranges, vol.bitmapStart, h, 0);
      var nc := 1 + vol.geometry.ClusterIndex(dataLength - 1);
      ghost var bitmap0 := vol.bitmap;
      ok := vol.BitmapModify(firstCluster, nc, false);
      SetRunPrefix(bitmap0, vol.clusterCount, h - 2, nc, false);
    }

    method ReleaseWholeChain() returns (ok: bool)
      requires Valid() && firstCluster != 0 && !contiguous
      modifies vol`fat, vol`bitmap, vol`bitmapStart
      ensures ok && vol.Shape() && HintSound(vol.Bits(), vol.bitmapStart)
      ensures XWellFormed(vol.fat, vol.Bits(), vol.chains - {firstCluster}, vol.ranges)
      ensures BitsReleased(old(vol.Bits()), vol.Bits(), Chain())
    {
      hide XWellFormed, OnDevice, HintSound, ClusterSize, BitsReleased, Geometry.ClusterIndex, XChain, AllSet, Cleared;
      ghost var ch, h, fat0, bits0, hint0 := Chain(), firstCluster, vol.fat, vol.Bits(), vol.bitmapStart;
      assert ch[0..] == ch && ch[..0] == [];
      ListEntry(vol, h, 0);
      ChainTailReady(fat0, bits0, vol.chains, vol.ranges, h, 0);
      ok := vol.FreeChain(firstCluster, ch);
      ReleaseKeepsHint(bits0, vol.Bits(), hint0, ch);
      ChainTailGone(fat0, bits0, vol.chains, vol.ranges, vol.fat, vol.Bits(), h, 0);
    }

    /** Releases the whole list; the file is closed afterwards. */
    method Remove() returns (ok: bool)
      requires Valid()
      modifies vol`fat, vol`bitmap, vol`bitmapStart, vol`chains, vol`ranges
      ensures Consistent(vol) && ok == writable
      ensures !ok ==> vol.chains == old(vol.chains) && vol.bitmap == old(vol.bitmap)
      ensures ok ==>
        && firstCluster !in vol.chains && vol.ranges == old(vol.ranges) - {firstCluster}
        && BitsReleased(old(vol.Bits()), vol.Bits(), old(Chain()))
        && OthersKept(vol.geometry, old(vol.chains), vol.sectors, firstCluster, vol.chains, vol.sectors, firstCluster)
    {
      hide Consistent, BitsReleased, OthersKept, Geometry.Needed, Geometry.ClusterIndex, Geometry.SameSectors;
      SizePositive(vol);
      AllFit(vol);
      SelfKept(vol, firstCluster);
      ghost var chains0, head0 := vol.chains, firstCluster;
      if !writable {
        return false;
      }
      if firstCluster == 0 {
        NothingReleased(vol.Bits(), Chain());
        assert Chain()[|Chain()|..] == Chain();
        return true;
      }
      ok := ReleaseAll();
      KeptAside(vol.geometry, chains0, head0, vol.chains, head0, vol.sectors);
    }

    // ----- preAllocate and seekSet -----

    /** Gives an empty file one free run as its range; none of its bytes are valid yet. */
    method PreAllocate(length: nat) returns (r: Outcome)
      requires Valid() && length < 0x1_0000_0000_0000_0000 && vol.geometry.Needed(length) < 0x1_0000_0000
      modifies this`firstCluster, this`dataLength, this`contiguous
      modifies vol`bitmap, vol`bitmapStart, vol`chains, vol`ranges
      ensures Valid() && Contents() == old(Contents())
      ensures r == Refused <==> length == 0 || !writable || old(firstCluster) != 0
      ensures r == Hangs <==>
                r != Refused && NeverReturns(old(vol.Bits()), old(vol.bitmapStart), vol.geometry.Needed(length))
      ensures r == Full <==>
                && r != Refused && NotFound(old(vol.Bits()), old(vol.bitmapStart), vol.geometry.Needed(length))
                && !NeverReturns(old(vol.Bits()), old(vol.bitmapStart), vol.geometry.Needed(length))
      ensures r == Stepped ==>
        && dataLength == length && contiguous
        && Chain() == Run(firstCluster, vol.geometry.Needed(length))
        && ClearRun(old(vol.Bits()), firstCluster - 2, vol.geometry.Needed(length))
        && vol.Bits() == SetRun(old(vol.Bits()), firstCluster - 2, vol.geometry.Needed(length), true)
      ensures r != Stepped ==> firstCluster == old(firstCluster) && dataLength == old(dataLength)
                               && vol.bitmap == old(vol.bitmap)
      ensures vol.ranges - {firstCluster} == old(vol.ranges) - {old(firstCluster)}
      ensures OthersKept(vol.geometry, old(vol.chains), vol.sectors, old(firstCluster),
                         vol.chains, vol.sectors, firstCluster)
    {
      hide Consistent, Geometry.Bytes, Geometry.Needed, SetRun, ClearRun, NeverReturns, NotFound, OthersKept,
        Geometry.SameSectors;
      SizePositive(vol);
      SelfKept(vol, firstCluster);
      if length == 0 || !writable || firstCluster != 0 {
        return Refused;
      }
      r := ClaimRun(length);
    }

    /** The second half of preAllocate: an empty file takes a free run. */
    method ClaimRun(length: nat) returns (r: Outcome)
      requires Valid() && 0 < length < 0x1_0000_0000_0000_0000 && vol.geometry.Needed(length) < 0x1_0000_0000
      requires firstCluster == 0
      modifies this`firstCluster, this`dataLength, this`contiguous
      modifies vol`bitmap, vol`bitmapStart, vol`chains, vol`ranges
      ensures Valid() && Contents() == old(Contents()) && r != Refused
      ensures r == Hangs <==> NeverReturns(old(vol.Bits()), old(vol.bitmapStart), vol.geometry.Needed(length))
      ensures r == Full <==>
                && NotFound(old(vol.Bits()), old(vol.bitmapStart), vol.geometry.Needed(length))
                && !NeverReturns(old(vol.Bits()), old(vol.bitmapStart), vol.geometry.Needed(length))
      ensures r == Stepped ==>
        && dataLength == length && contiguous
        && Chain() == Run(firstCluster, vol.geometry.Needed(length))
        && ClearRun(old(vol.Bits()), firstCluster - 2, vol.geometry.Needed(length))
        && vol.Bits() == SetRun(old(vol.Bits()), firstCluster - 2, vol.geometry.Needed(length), true)
      ensures r != Stepped ==> firstCluster == old(firstCluster) && dataLength == old(dataLength)
                               && vol.bitmap == old(vol.bitmap)
      ensures vol.ranges - {firstCluster} == old(vol.ranges) - {old(firstCluster)}
      ensures OthersKept(vol.geometry, old(vol.chains), vol.sectors, old(firstCluster),
                         vol.chains, vol.sectors, firstCluster)
    {
      hide XWellFormed, OnDevice, HintSound, ClusterSize, Geometry.ClusterIndex, Geometry.Bytes, SetRun, ClearRun,
        HasRun, NeverReturns, NotFound, OthersKept, Geometry.SameSectors, Geometry.Fits;
      ghost var bits0, chains0, ranges0, head0 := vol.Bits(), vol.chains, vol.ranges, firstCluster;
      AllFit(vol);
      SelfKept(vol, firstCluster);
      TableSize(vol.fat, bits0, chains0, ranges0);
      OwnList(dataLength);
      NeededIs(vol.geometry, length);
      var need := 1 + vol.geometry.ClusterIndex(length - 1);
      var find;
      r, find := TakeRun(need);
      if r != Stepped {
        return;
      }
      NewRange(vol.fat, bits0, chains0, ranges0, find, need);
      vol.chains, vol.ranges := chains0[find := Run(find, need)], ranges0 + {find};
      dataLength, firstCluster, contiguous := length, find, true;
      KeptAside(vol.geometry, chains0, head0, vol.chains, find, vol.sectors);
      EmptyStays(vol.geometry, vol.sectors, [], Chain());
    }

    /** bitmapFind from the hint and bitmapModify for a run. */
    method TakeRun(need: nat) returns (r: Outcome, find: nat)
      requires vol.Shape() && HintSound(vol.Bits(), vol.bitmapStart) && need > 0
      modifies vol`bitmap, vol`bitmapStart
      ensures vol.Shape() && HintSound(vol.Bits(), vol.bitmapStart) && r != Refused
      ensures r != Stepped ==> vol.bitmap == old(vol.bitmap)
      ensures r == Hangs <==> NeverReturns(old(vol.Bits()), old(vol.bitmapStart), need)
      ensures r == Full <==> NotFound(old(vol.Bits()), old(vol.bitmapStart), need) && r != Hangs
      ensures r == Stepped ==> find >= 2 && ClearRun(old(vol.Bits()), find - 2, need)
                               && vol.Bits() == SetRun(old(vol.Bits()), find - 2, need, true)
    {
      hide HintSound, SetRun, HasRun, LowestRun;
      ghost var bits0, hint0, bitmap0 := vol.Bits(), vol.bitmapStart, vol.bitmap;
      if vol.StartBit(0) == 0 && !HasRun(vol.Bits(), 0, vol.clusterCount, need) {
        return Hangs, 0;
      }
      var found := vol.BitmapFind(0, need);
      FindHint(bits0, hint0, need, found);
      if found == NoSpace {
        return Full, 0;
      }
      find := found.cluster;
      FoundRun(bits0, find, need);
      ModifyKeepsHint(bits0, vol.bitmapStart, find - 2, need, true);
      assert forall i :: find - 2 <= i < find - 2 + need ==> vol.bitmap[i] == bits0[i];
      var ok := vol.BitmapModify(find, need, true);
      SetRunPrefix(bitmap0, vol.clusterCount, find - 2, need, true);
      r := Stepped;
    }

    method SeekSet(pos: nat) returns (ok: bool)
      requires Valid()
      modifies this`curPosition, this`curCluster
      ensures Valid() && Contents() == old(Contents())
      ensures ok <==> pos <= validLength
      ensures curPosition == if ok then pos else old(curPosition)
    {
      hide XWellFormed, OnDevice, HintSound, ClusterSize, Geometry.ClusterIndex, Geometry.Needed, Geometry.Bytes;
      ghost var g := vol.geometry;
      if pos == curPosition {
        return true;
      }
      if pos == 0 {
        curCluster := 0;
      } else if pos > validLength {
        return false;
      } else {
        SeekIndex(g, dataLength, curPosition, pos);
        NoZeroList(vol.fat, vol.Bits(), vol.chains, vol.ranges);
        if firstCluster != 0 { ListEntry(vol, firstCluster, g.ClusterIndex(pos - 1)); }
        if contiguous {
          curCluster := firstCluster + vol.geometry.ClusterIndex(pos - 1);
        } else {
          ok := FollowTo(pos);
          if !ok {
            return false;
          }
        }
      }
      curPosition := pos;
      ok := true;
    }

    method FollowTo(pos: nat) returns (ok: bool)
      requires Valid() && 0 < pos <= validLength && !contiguous && firstCluster != 0
      modifies this`curCluster
      ensures ok && vol.geometry.ClusterIndex(pos - 1) < |Chain()|
      ensures curCluster == Chain()[vol.geometry.ClusterIndex(pos - 1)]
    {
      hide XWellFormed, OnDevice, HintSound, ClusterSize, Geometry.ClusterIndex, Geometry.Needed;
      ghost var g, ch := vol.geometry, Chain();
      SeekIndex(g, dataLength, curPosition, pos);
      ListEntry(vol, firstCluster, 0);
      var nNew := vol.geometry.ClusterIndex(pos - 1);
      ghost var target := nNew;
      var nCur := vol.geometry.ClusterIndex((curPosition + 0xFFFF_FFFF_FFFF_FFFF) % 0x1_0000_0000_0000_0000);
      if nNew < nCur || curPosition == 0 {
        curCluster := firstCluster;
      } else {
        assert (curPosition + 0xFFFF_FFFF_FFFF_FFFF) % 0x1_0000_0000_0000_0000 == curPosition - 1;
        nNew := nNew - nCur;
      }
      while nNew > 0
        invariant 0 <= nNew <= target < |ch| && Chain() == ch && Body(dataLength)
        invariant curCluster == ch[target - nNew]
      {
        ListEntry(vol, firstCluster, target - nNew);
        var entry := vol.FatGet(curCluster);
        if !entry.Link? {
          return false;
        }
        curCluster := entry.next;
        nNew := nNew - 1;
      }
      ok := true;
    }
  }

  // ----- Runs of operations -----

  const MAX_POSITION := 0xFFFF_FFFF_FFFF_FFFF

  ghost function Meaning(f: File): ByteFile
    requires f.Valid()
    reads f, f.vol
  {
    ByteFile(f.Contents(), f.curPosition)
  }

  /** Performs one operation; when it succeeds, the file moved as the byte sequence does. */
  method Perform(f: File, op: Op) returns (ok: bool, data: seq<Byte>)
    requires f.Valid()
    modifies f, f.vol
    ensures f.append == old(f.append)
    ensures ok ==> f.Valid()
    ensures ok ==> Acts(old(Meaning(f)), op, f.append, MAX_POSITION, false, Meaning(f), data)
    ensures f.vol.ranges - {f.firstCluster} == old(f.vol.ranges) - {old(f.firstCluster)}
    ensures OthersKept(f.vol.geometry, old(f.vol.chains), old(f.vol.sectors), old(f.firstCluster),
                       f.vol.chains, f.vol.sectors, f.firstCluster)
  {
    hide Consistent, OthersKept, File.Body, File.CursorAt, File.Interrupted, SomeFree, BitsReleased, Overlay,
      File.OutOfSpace, File.OnFull, PackedTo, Geometry.Needed;
    data := [];
    SelfValid(f);
    match op
    case ReadOp(n) =>
      ok, data := f.Read(n);
    case WriteOp(src) =>
      var r := f.Write(src);
      ok := r == Stepped;
    case SeekOp(to) => ok := f.SeekSet(to);
    case TruncateOp => ok := f.Truncate();
  }

  /** Any run of successful operations is a run of the byte sequence, preallocated or not. */
  method PerformAll(f: File, ops: seq<Op>)
    returns (done: nat, outputs: seq<seq<Byte>>, ghost states: seq<ByteFile>)
    requires f.Valid()
    modifies f, f.vol
    ensures done <= |ops|
    ensures History(states, ops[..done], outputs, f.append, MAX_POSITION, 0) && states[0] == old(Meaning(f))
    ensures done == |ops| ==> f.Valid() && states[done] == Meaning(f)
    ensures f.vol.ranges - {f.firstCluster} == old(f.vol.ranges) - {old(f.firstCluster)}
    ensures OthersKept(f.vol.geometry, old(f.vol.chains), old(f.vol.sectors), old(f.firstCluster),
                       f.vol.chains, f.vol.sectors, f.firstCluster)
  {
    hide Consistent, OthersKept, File.Linked, File.Contents, SomeFree, Acts, History;
    done, outputs, states := 0, [], [Meaning(f)];
    NoHistory(Meaning(f), f.append, MAX_POSITION);
    assert ops[..0] == [];
    SelfValid(f);
    while done < |ops|
      invariant 0 <= done <= |ops| && |states| == done + 1
      invariant f.append == old(f.append) && f.Valid()
      invariant History(states, ops[..done], outputs, f.append, MAX_POSITION, 0)
      invariant states[0] == old(Meaning(f)) && states[done] == Meaning(f)
      invariant f.vol.ranges - {f.firstCluster} == old(f.vol.ranges) - {old(f.firstCluster)}
      invariant OthersKept(f.vol.geometry, old(f.vol.chains), old(f.vol.sectors), old(f.firstCluster),
                           f.vol.chains, f.vol.sectors, f.firstCluster)
    {
      ghost var chains1, sectors1, head1 := f.vol.chains, f.vol.sectors, f.firstCluster;
      var ok, data := Perform(f, ops[done]);
      OthersKeptTrans(f.vol.geometry, old(f.vol.chains), old(f.vol.sectors), old(f.firstCluster),
                      chains1, sectors1, head1, f.vol.chains, f.vol.sectors, f.firstCluster);
      if !ok {
        return;
      }
      HistoryGrows(states, ops[..done], outputs, f.append, MAX_POSITION, 0, ops[done], Meaning(f), data, false);
      assert ops[..done + 1] == ops[..done] + [ops[done]];
      outputs, states := outputs + [data], states + [Meaning(f)];
      done := done + 1;
    }
  }

  lemma SelfValid(f: File)
    requires f.Valid()
    ensures OthersKept(f.vol.geometry, f.vol.chains, f.vol.sectors, f.firstCluster,
                       f.vol.chains, f.vol.sectors, f.firstCluster)
  {
    SelfKept(f.vol, f.firstCluster);
  }

  /** Every list of a consistent volume lies on the device, apart from the others. */
  lemma AllFit(vol: Partition)
    requires Consistent(vol)
    ensures 0 !in vol.chains && 0 !in vol.ranges && Disjoint(vol.chains)
    ensures forall h :: h in vol.chains ==> vol.geometry.SameSectors(vol.sectors, vol.sectors, vol.chains[h])
  {
    NoZeroList(vol.fat, vol.Bits(), vol.chains, vol.ranges);
    forall h | h in vol.chains ensures vol.geometry.SameSectors(vol.sectors, vol.sectors, vol.chains[h]) {
      ListFits(vol, h);
    }
  }

  lemma ListFits(vol: Partition, h: nat)
    requires Consistent(vol) && h in vol.chains
    ensures vol.geometry.Fits(vol.sectors, vol.chains[h]) && NoRepeats(vol.chains[h])
  {
    var ch := vol.chains[h];
    ListFacts(vol.fat, vol.Bits(), vol.chains, vol.ranges, h);
    forall i | 0 <= i < |ch| ensures vol.geometry.ClusterFits(vol.sectors, ch[i]) {
      assert InTable(vol.fat, ch[i]);
    }
  }

  lemma SelfKept(vol: Partition, h: nat)
    requires Consistent(vol)
    ensures OthersKept(vol.geometry, vol.chains, vol.sectors, h, vol.chains, vol.sectors, h)
  {
    AllFit(vol);
  }

  lemma SelfStored(vol: Partition, h: nat)
    requires Consistent(vol)
    ensures OnlyStored(vol.geometry, vol.chains, vol.sectors, h, vol.chains, vol.sectors, h)
  {
    SelfKept(vol, h);
  }

  lemma PatchedOnDevice(g: Geometry, before: seq<Sector>, after: seq<Sector>, clusterCount: nat, d: int, ns: nat)
    requires OnDevice(g, before, clusterCount) && g.Patched(before, after, d, ns)
    ensures OnDevice(g, after, clusterCount) && |after| == |before|
  {
    forall c | 2 <= c < clusterCount + 2 ensures g.ClusterFits(after, c) {
      assert g.ClusterFits(before, c);
    }
  }

  lemma ListLength(vol: Partition, h: nat)
    requires Consistent(vol) && h in vol.chains
    ensures |vol.chains[h]| < 0x1_0000_0000
  {
    var ch := vol.chains[h];
    ListFacts(vol.fat, vol.Bits(), vol.chains, vol.ranges, h);
    ElementCount(ch);
    forall c | c in Elements(ch) ensures 2 <= c < |vol.fat| {
      assert exists i :: 0 <= i < |ch| && ch[i] == c;
    }
    SetBelow(Elements(ch), |vol.fat|);
  }

  lemma {:induction false} SetBelow(s: set<nat>, n: nat)
    requires forall c :: c in s ==> c < n
    ensures |s| <= n
  {
    if n == 0 {
      assert s == {};
    } else {
      SetBelow(s - {n - 1}, n - 1);
    }
  }

  lemma VolumeBytes(g: Geometry, extent: nat, n: nat)
    requires g.sectorsPerCluster > 0 && ClusterSize(g) && n == g.Needed(extent) && n < 0x1_0000_0000
    ensures extent < 0x1_0000_0000_0000_0000
  {
    var b := g.BytesPerCluster();
    var m: nat :| m * b == 0x1_0000_0000;
    if extent > 0 {
      DivBounds(extent - 1, b);
      assert b <= m * b;
      assert extent <= n * b;
      assert n * b <= 0xFFFF_FFFF * b <= 0xFFFF_FFFF * 0x1_0000_0000;
    }
  }

  lemma SizePositive(vol: Partition)
    requires Consistent(vol)
    ensures vol.Shape() && vol.geometry.sectorsPerCluster > 0 && ClusterSize(vol.geometry)
  {}

  lemma NotReturning(vol: Partition, cluster: nat)
    requires vol.Shape() && cluster != 1 && !SearchReturns(vol, cluster)
    ensures !SomeFree(vol.Bits())
  {}

  /** (2^64 - 1) / bytesPerCluster is -1 modulo 2^32. */
  lemma WrappedIndex(g: Geometry)
    requires g.sectorsPerCluster > 0 && ClusterSize(g)
    ensures g.ClusterIndex(0xFFFF_FFFF_FFFF_FFFF) % 0x1_0000_0000 == 0xFFFF_FFFF
  {
    var b := g.BytesPerCluster();
    var m: nat :| m * b == 0x1_0000_0000;
    var q := m * 0x1_0000_0000 - 1;
    assert q * b + (b - 1) == 0xFFFF_FFFF_FFFF_FFFF by {
      assert (m * 0x1_0000_0000) * b == (m * b) * 0x1_0000_0000;
    }
    assert m > 0;
    DivUnique(0xFFFF_FFFF_FFFF_FFFF, b, q, b - 1);
    assert q == (m - 1) * 0x1_0000_0000 + 0xFFFF_FFFF;
  }

  /** In 32 bits the last cluster of a range of `size` bytes comes out right, even for size 0. */
  lemma LastOfRangeIs(g: Geometry, first: nat, size: nat)
    requires g.sectorsPerCluster > 0 && ClusterSize(g) && size < 0x1_0000_0000_0000_0000
    requires 0 < first && first + g.Needed(size) <= 0x1_0000_0000
    ensures (first + g.ClusterIndex((size + 0xFFFF_FFFF_FFFF_FFFF) % 0x1_0000_0000_0000_0000)) % 0x1_0000_0000
            == first + g.Needed(size) - 1
  {
    if size == 0 {
      WrappedIndex(g);
    } else {
      assert (size + 0xFFFF_FFFF_FFFF_FFFF) % 0x1_0000_0000_0000_0000 == size - 1;
    }
  }

  lemma NeededIs(g: Geometry, size: nat)
    requires g.sectorsPerCluster > 0 && size > 0
    ensures g.Needed(size) == 1 + g.ClusterIndex(size - 1)
  {}

  lemma EmptyStays(g: Geometry, sectors: seq<Sector>, a: Chain, b: Chain)
    requires g.sectorsPerCluster > 0
    ensures g.Needed(0) == 0
    ensures g.Fits(sectors, a) && g.Fits(sectors, b) ==> g.Bytes(sectors, a, 0) == g.Bytes(sectors, b, 0)
  {}

  lemma StepPoint(g: Geometry, size: nat, pos: nat)
    requires g.sectorsPerCluster > 0
    ensures g.Needed(Max(size, pos + 1)) == Max(g.Needed(Max(size, pos)), g.ClusterIndex(pos) + 1)
    ensures pos % g.BytesPerCluster() == 0 ==>
      && g.Needed(Max(size, pos)) >= g.ClusterIndex(pos)
      && (g.Needed(Max(size, pos)) == g.ClusterIndex(pos) <==> size <= pos)
      && (g.ClusterIndex(pos) < g.Needed(size) <==> size > pos)
      && (if pos == 0 then g.ClusterIndex(pos) == 0
          else g.ClusterIndex(pos) > 0 && g.ClusterIndex(pos - 1) == g.ClusterIndex(pos) - 1)
    ensures pos % g.BytesPerCluster() != 0 ==>
      && pos > 0 && g.ClusterIndex(pos - 1) == g.ClusterIndex(pos)
      && g.Needed(Max(size, pos)) > g.ClusterIndex(pos)
  {
    StepIndex(g, size, pos);
    g.ClusterBoundary(pos);
    if size <= pos { g.NeededMonotonic(size, pos); }
  }

  /** What the volume says about cluster k of a list, in either representation. */
  lemma ListEntry(vol: Partition, h: nat, k: nat)
    requires Consistent(vol) && h in vol.chains
    ensures var ch := vol.chains[h]; h >= 2 && ch != [] && ch[0] == h
    ensures var ch := vol.chains[h]; h in vol.ranges ==> h + |ch| <= 0x1_0000_0000
    ensures var ch := vol.chains[h]; k < |ch| ==>
      && InTable(vol.fat, ch[k])
      && (if h in vol.ranges then ch[k] == h + k && (k + 1 < |ch| ==> ch[k + 1] == ch[k] + 1)
          else vol.FatGet(ch[k]) == if k + 1 < |ch| then Link(ch[k + 1]) else EndOfChain)
  {
    var ch := vol.chains[h];
    ListFacts(vol.fat, vol.Bits(), vol.chains, vol.ranges, h);
    assert InTable(vol.fat, ch[0]) && InTable(vol.fat, ch[|ch| - 1]);
    if k < |ch| && h !in vol.ranges { XChainStep(vol.fat, ch, k); }
  }
}
