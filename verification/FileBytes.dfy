/**
  The byte sequence a cluster list stands for, and what the three transfer paths (part of a
  sector, one sector, a run of sectors) do to it.
*/
module FileBytes {
  import opened SectorMap
  import opened FatTable

  /** Writing `src` at `pos` overlays what is there and extends past the end. */
  function Overlay(bytes: seq<Byte>, pos: nat, src: seq<Byte>): (r: seq<Byte>)
    requires pos <= |bytes|
    ensures |r| == if pos + |src| > |bytes| then pos + |src| else |bytes|
  {
    bytes[..pos] + src + if pos + |src| < |bytes| then bytes[pos + |src|..] else []
  }

  lemma OverlayPrefix(bytes: seq<Byte>, pos: nat, src: seq<Byte>)
    requires pos <= |bytes|
    ensures Overlay(bytes, pos, src)[..pos + |src|] == bytes[..pos] + src
  {}

  lemma NextSlice(bytes: seq<Byte>, a: nat, b: nat, c: nat)
    requires a <= b <= c <= |bytes|
    ensures bytes[a..b] + bytes[b..c] == bytes[a..c]
  {}

  /** The contents of a run of sectors as bytes. */
  function Join(run: seq<Sector>): (b: seq<Byte>)
    ensures |b| == BYTES_PER_SECTOR * |run|
  {
    seq(BYTES_PER_SECTOR * |run|, i requires 0 <= i < BYTES_PER_SECTOR * |run| =>
      run[i / BYTES_PER_SECTOR][i % BYTES_PER_SECTOR])
  }

  /** A byte string of whole sectors as a run of sectors. */
  function Split(bytes: seq<Byte>, ns: nat): (run: seq<Sector>)
    requires |bytes| == BYTES_PER_SECTOR * ns
    ensures |run| == ns
  {
    seq(ns, i requires 0 <= i < ns =>
      var s: Sector := bytes[BYTES_PER_SECTOR * i..BYTES_PER_SECTOR * (i + 1)]; s)
  }

  /** Position q of the list holds byte q of `want`. */
  ghost predicate AgreesAt(g: Geometry, sectors: seq<Sector>, ch: seq<nat>, want: seq<Byte>, q: nat)
    requires g.Fits(sectors, ch) && q < |want|
  {
    g.Holds(ch, q / BYTES_PER_SECTOR) && g.ByteAt(sectors, ch, q) == want[q]
  }

  /** Positions of the list from `from` up to `to` hold the bytes of `want`. */
  ghost predicate Agrees(g: Geometry, sectors: seq<Sector>, ch: seq<nat>, want: seq<Byte>, from: int, to: int) {
    && g.Fits(sectors, ch) && to <= |want|
    && forall q: nat :: from <= q < to ==> AgreesAt(g, sectors, ch, want, q)
  }

  lemma BytesAgree(g: Geometry, sectors: seq<Sector>, ch: seq<nat>, n: nat)
    requires g.Fits(sectors, ch) && g.Needed(n) <= |ch|
    ensures Agrees(g, sectors, ch, g.Bytes(sectors, ch, n), 0, n)
  {
    var want := g.Bytes(sectors, ch, n);
    forall q: nat | q < n ensures AgreesAt(g, sectors, ch, want, q) {
      ByteOf(g, sectors, ch, n, q);
    }
  }

  /** Agreement with the first n bytes of a byte string is equality with them. */
  lemma PrefixBytes(g: Geometry, sectors: seq<Sector>, ch: seq<nat>, want: seq<Byte>, n: nat)
    requires g.Fits(sectors, ch) && n <= |want| && g.Needed(n) <= |ch|
    requires Agrees(g, sectors, ch, want, 0, n)
    ensures g.Bytes(sectors, ch, n) == want[..n]
  {
    forall q | 0 <= q < n ensures g.Bytes(sectors, ch, n)[q] == want[q] {
      assert AgreesAt(g, sectors, ch, want, q);
      ByteOf(g, sectors, ch, n, q);
    }
  }

  lemma ByteOf(g: Geometry, sectors: seq<Sector>, ch: seq<nat>, size: nat, q: nat)
    requires g.Fits(sectors, ch) && g.Needed(size) <= |ch| && q < size
    ensures g.Holds(ch, q / BYTES_PER_SECTOR)
    ensures g.Bytes(sectors, ch, size)[q] == g.ByteAt(sectors, ch, q)
  {
    g.NeededHolds(ch, size, q);
  }

  /** What a read collects is the next stretch of the contents. */
  lemma LoadedBytes(g: Geometry, sectors: seq<Sector>, ch: seq<nat>, size: nat, p: nat, piece: seq<Byte>)
    requires g.Fits(sectors, ch) && g.Needed(size) <= |ch|
    requires Loads(g, sectors, ch, p, piece) && p + |piece| <= size
    ensures g.Bytes(sectors, ch, size)[p..p + |piece|] == piece
    ensures piece != [] && g.ClusterIndex(p + |piece| - 1) == g.ClusterIndex(p)
  {
    hide Geometry.Bytes, Geometry.ByteAt, Geometry.ClusterIndex, Geometry.Needed;
    var b := g.Bytes(sectors, ch, size);
    forall i: nat | i < |piece| ensures b[p + i] == piece[i] {
      assert LoadsAt(g, sectors, ch, p, piece, i);
      ByteOf(g, sectors, ch, size, p + i);
    }
    g.SameCluster(p, |piece|);
  }

  /** The position p + i of a chunk, in terms of the sector that starts the chunk. */
  lemma ChunkPosition(p: nat, i: nat)
    requires p % BYTES_PER_SECTOR + i < BYTES_PER_SECTOR || p % BYTES_PER_SECTOR == 0
    ensures (p + i) / BYTES_PER_SECTOR == p / BYTES_PER_SECTOR + (p % BYTES_PER_SECTOR + i) / BYTES_PER_SECTOR
    ensures (p + i) % BYTES_PER_SECTOR == (p % BYTES_PER_SECTOR + i) % BYTES_PER_SECTOR
  {}

  /** The device sector a transfer at position `p` starts at, as the file layers compute it. */
  lemma TransferSector(g: Geometry, sectors: seq<Sector>, ch: seq<nat>, p: nat)
    requires g.Fits(sectors, ch) && g.ClusterIndex(p) < |ch|
    ensures g.Holds(ch, p / BYTES_PER_SECTOR)
    ensures g.Device(ch, p / BYTES_PER_SECTOR)
            == g.ClusterStartSector(ch[g.ClusterIndex(p)]) + g.SectorOfCluster(p)
    ensures 0 <= g.Device(ch, p / BYTES_PER_SECTOR)
    ensures g.Device(ch, p / BYTES_PER_SECTOR) + g.sectorsPerCluster - g.SectorOfCluster(p) <= |sectors|
    ensures g.SectorOfCluster(p) == g.Inner(p / BYTES_PER_SECTOR)
    ensures g.SectorOfCluster(p) < g.sectorsPerCluster
  {
    g.ClusterOfSector(p);
    assert g.ClusterFits(sectors, ch[g.ClusterIndex(p)]);
    MulNonNegative(ch[g.ClusterIndex(p)] - 2, g.sectorsPerCluster);
  }

  lemma MulNonNegative(a: nat, b: nat)
    ensures a * b >= 0
  {}

  /** Reading a run of whole sectors of one cluster yields the file's bytes. */
  lemma ReadRun(g: Geometry, sectors: seq<Sector>, ch: seq<nat>, p: nat, ns: nat, i: nat)
    requires g.Fits(sectors, ch) && g.ClusterIndex(p) < |ch|
    requires p % BYTES_PER_SECTOR == 0 && g.SectorOfCluster(p) + ns <= g.sectorsPerCluster
    requires i < BYTES_PER_SECTOR * ns
    ensures var d := g.ClusterStartSector(ch[g.ClusterIndex(p)]) + g.SectorOfCluster(p);
            && 0 <= d && d + ns <= |sectors|
            && g.Holds(ch, (p + i) / BYTES_PER_SECTOR)
            && g.ByteAt(sectors, ch, p + i) == Join(sectors[d..d + ns])[i]
  {
    TransferSector(g, sectors, ch, p);
    ChunkPosition(p, i);
    g.DeviceStep(ch, p / BYTES_PER_SECTOR, i / BYTES_PER_SECTOR);
  }

  ghost predicate LoadsAt(g: Geometry, sectors: seq<Sector>, ch: seq<nat>, p: nat, piece: seq<Byte>, i: nat)
    requires g.Fits(sectors, ch) && i < |piece|
  {
    g.Holds(ch, (p + i) / BYTES_PER_SECTOR) && g.ByteAt(sectors, ch, p + i) == piece[i]
  }

  /** A transfer of one piece at position p that moves the file's own bytes, inside one cluster. */
  ghost predicate Loads(g: Geometry, sectors: seq<Sector>, ch: seq<nat>, p: nat, piece: seq<Byte>)
    requires g.sectorsPerCluster > 0
  {
    && piece != []
    && p % g.BytesPerCluster() + |piece| <= g.BytesPerCluster()
    && g.Fits(sectors, ch)
    && forall i: nat :: i < |piece| ==> LoadsAt(g, sectors, ch, p, piece, i)
  }

  lemma ReadPart(g: Geometry, sectors: seq<Sector>, ch: seq<nat>, p: nat, i: nat)
    requires g.Fits(sectors, ch) && g.ClusterIndex(p) < |ch|
    requires p % BYTES_PER_SECTOR + i < BYTES_PER_SECTOR
    ensures var d := g.ClusterStartSector(ch[g.ClusterIndex(p)]) + g.SectorOfCluster(p);
            && 0 <= d < |sectors|
            && g.Holds(ch, (p + i) / BYTES_PER_SECTOR)
            && g.ByteAt(sectors, ch, p + i) == sectors[d][p % BYTES_PER_SECTOR + i]
  {
    TransferSector(g, sectors, ch, p);
    ChunkPosition(p, i);
  }

  lemma LoadsPart(g: Geometry, sectors: seq<Sector>, ch: seq<nat>, p: nat, n: nat)
    requires g.Fits(sectors, ch) && g.ClusterIndex(p) < |ch|
    requires 0 < n && p % BYTES_PER_SECTOR + n <= BYTES_PER_SECTOR
    ensures var d := g.ClusterStartSector(ch[g.ClusterIndex(p)]) + g.SectorOfCluster(p);
            && 0 <= d < |sectors|
            && Loads(g, sectors, ch, p, sectors[d][p % BYTES_PER_SECTOR..p % BYTES_PER_SECTOR + n])
  {
    hide Geometry.ByteAt, Geometry.ClusterIndex, Geometry.SectorOfCluster, Geometry.Device, Geometry.ClusterStartSector;
    g.ChunkInCluster(p, n);
    TransferSector(g, sectors, ch, p);
    var d := g.ClusterStartSector(ch[g.ClusterIndex(p)]) + g.SectorOfCluster(p);
    var piece := sectors[d][p % BYTES_PER_SECTOR..p % BYTES_PER_SECTOR + n];
    forall i: nat | i < |piece| ensures LoadsAt(g, sectors, ch, p, piece, i) {
      ReadPart(g, sectors, ch, p, i);
    }
  }

  lemma LoadsRun(g: Geometry, sectors: seq<Sector>, ch: seq<nat>, p: nat, ns: nat)
    requires g.Fits(sectors, ch) && g.ClusterIndex(p) < |ch|
    requires 0 < ns && p % BYTES_PER_SECTOR == 0 && g.SectorOfCluster(p) + ns <= g.sectorsPerCluster
    ensures var d := g.ClusterStartSector(ch[g.ClusterIndex(p)]) + g.SectorOfCluster(p);
            0 <= d && d + ns <= |sectors| && Loads(g, sectors, ch, p, Join(sectors[d..d + ns]))
  {
    hide Geometry.ByteAt, Geometry.ClusterIndex, Geometry.SectorOfCluster, Geometry.Device, Geometry.ClusterStartSector;
    g.ChunkInCluster(p, ns * BYTES_PER_SECTOR);
    TransferSector(g, sectors, ch, p);
    var d := g.ClusterStartSector(ch[g.ClusterIndex(p)]) + g.SectorOfCluster(p);
    var piece := Join(sectors[d..d + ns]);
    assert |piece| == ns * BYTES_PER_SECTOR && piece != [];
    assert p % g.BytesPerCluster() + |piece| <= g.BytesPerCluster();
    forall i: nat | i < |piece| ensures LoadsAt(g, sectors, ch, p, piece, i) {
      ReadRun(g, sectors, ch, p, ns, i);
    }
  }

  /**
    The effect of one transfer to the device: the chunk is stored at `p`, and apart from it only
    positions before `p + stale` may have changed.
  */
  ghost predicate Wrote(g: Geometry, sectors: seq<Sector>, sectors': seq<Sector>, ch: seq<nat>,
                        p: nat, x: seq<Byte>, stale: nat)
  {
    && g.Fits(sectors, ch) && g.Fits(sectors', ch)
    && forall q: nat :: g.Holds(ch, q / BYTES_PER_SECTOR) ==>
         && (p <= q < p + |x| ==> g.ByteAt(sectors', ch, q) == x[q - p])
         && (q < p || q >= p + stale ==> g.ByteAt(sectors', ch, q) == g.ByteAt(sectors, ch, q))
  }

  /** Writing a run of whole sectors of one cluster. */
  lemma WriteRun(g: Geometry, sectors: seq<Sector>, sectors': seq<Sector>, ch: seq<nat>, p: nat, x: seq<Byte>, ns: nat)
    requires g.Fits(sectors, ch) && g.ClusterIndex(p) < |ch|
    requires forall i, j :: 0 <= i < j < |ch| ==> ch[i] != ch[j]
    requires p % BYTES_PER_SECTOR == 0 && g.SectorOfCluster(p) + ns <= g.sectorsPerCluster
    requires |x| == BYTES_PER_SECTOR * ns
    requires var d := g.ClusterStartSector(ch[g.ClusterIndex(p)]) + g.SectorOfCluster(p);
             && 0 <= d && d + ns <= |sectors|
             && sectors' == sectors[..d] + Split(x, ns) + sectors[d + ns..]
    ensures Wrote(g, sectors, sectors', ch, p, x, |x|)
    ensures g.Holds(ch, p / BYTES_PER_SECTOR)
    ensures g.Patched(sectors, sectors', g.Device(ch, p / BYTES_PER_SECTOR), ns)
  {
    TransferSector(g, sectors, ch, p);
    var k := p / BYTES_PER_SECTOR;
    var d := g.Device(ch, k);
    g.PatchKeepsFits(sectors, sectors', ch);
    forall q: nat | g.Holds(ch, q / BYTES_PER_SECTOR)
      ensures p <= q < p + |x| ==> g.ByteAt(sectors', ch, q) == x[q - p]
      ensures q < p || q >= p + |x| ==> g.ByteAt(sectors', ch, q) == g.ByteAt(sectors, ch, q)
    {
      var j := q / BYTES_PER_SECTOR;
      if p <= q < p + |x| {
        ChunkPosition(p, q - p);
        g.DeviceStep(ch, k, j - k);
        assert sectors'[d + (j - k)] == Split(x, ns)[j - k];
      } else {
        g.PatchKeepsSector(sectors, sectors', ch, k, ns, j);
      }
    }
  }

  /** Writing inside one sector, whose other bytes either survive or become stale. */
  lemma WritePart(g: Geometry, sectors: seq<Sector>, sectors': seq<Sector>, ch: seq<nat>, p: nat, x: seq<Byte>, buffer: Sector)
    requires g.Fits(sectors, ch) && g.ClusterIndex(p) < |ch|
    requires forall i, j :: 0 <= i < j < |ch| ==> ch[i] != ch[j]
    requires p % BYTES_PER_SECTOR + |x| <= BYTES_PER_SECTOR
    requires var o := p % BYTES_PER_SECTOR;
             var d := g.ClusterStartSector(ch[g.ClusterIndex(p)]) + g.SectorOfCluster(p);
             && 0 <= d < |sectors| && (o == 0 || buffer == sectors[d])
             && sectors' == sectors[d := buffer[..o] + x + buffer[o + |x|..]]
    ensures var d := g.ClusterStartSector(ch[g.ClusterIndex(p)]) + g.SectorOfCluster(p);
            Wrote(g, sectors, sectors', ch, p, x, if buffer == sectors[d] then |x| else BYTES_PER_SECTOR)
    ensures g.Holds(ch, p / BYTES_PER_SECTOR)
    ensures g.Patched(sectors, sectors', g.Device(ch, p / BYTES_PER_SECTOR), 1)
  {
    TransferSector(g, sectors, ch, p);
    var k := p / BYTES_PER_SECTOR;
    var o, d := p % BYTES_PER_SECTOR, g.Device(ch, k);
    g.PatchKeepsFits(sectors, sectors', ch);
    var stale := if buffer == sectors[d] then |x| else BYTES_PER_SECTOR;
    forall q: nat | g.Holds(ch, q / BYTES_PER_SECTOR)
      ensures p <= q < p + |x| ==> g.ByteAt(sectors', ch, q) == x[q - p]
      ensures q < p || q >= p + stale ==> g.ByteAt(sectors', ch, q) == g.ByteAt(sectors, ch, q)
    {
      var j := q / BYTES_PER_SECTOR;
      if j != k {
        g.PatchKeepsSector(sectors, sectors', ch, k, 1, j);
      }
    }
  }

  // ----- How agreement with a byte string evolves -----

  lemma AgreesAfterWrite(g: Geometry, sectors: seq<Sector>, sectors': seq<Sector>, ch: seq<nat>,
                         want: seq<Byte>, p: nat, n: nat, stale: nat)
    requires g.Fits(sectors, ch) && p + n <= |want| && g.Needed(p + n) <= |ch|
    requires Agrees(g, sectors, ch, want, 0, p)
    requires Wrote(g, sectors, sectors', ch, p, want[p..p + n], stale)
    ensures Agrees(g, sectors', ch, want, 0, p + n)
  {
    hide Geometry.ByteAt, Geometry.Needed;
    forall q: nat | q < p + n ensures AgreesAt(g, sectors', ch, want, q) {
      g.NeededHolds(ch, p + n, q);
      if q < p {
        assert AgreesAt(g, sectors, ch, want, q);
      } else {
        assert want[q] == want[p..p + n][q - p];
      }
    }
  }

  lemma AgreesBeyondWrite(g: Geometry, sectors: seq<Sector>, sectors': seq<Sector>, ch: seq<nat>,
                          bytes: seq<Byte>, p: nat, x: seq<Byte>, stale: nat)
    requires g.Fits(sectors, ch)
    requires Agrees(g, sectors, ch, bytes, p, |bytes|)
    requires Wrote(g, sectors, sectors', ch, p, x, stale) && (stale == |x| || p >= |bytes|)
    ensures Agrees(g, sectors', ch, bytes, p + |x|, |bytes|)
  {
    hide Geometry.ByteAt;
    forall q: nat | p + |x| <= q < |bytes| ensures AgreesAt(g, sectors', ch, bytes, q) {
      assert AgreesAt(g, sectors, ch, bytes, q);
    }
  }

  lemma AgreesOnLongerList(g: Geometry, sectors: seq<Sector>, ch: seq<nat>, longer: seq<nat>,
                           want: seq<Byte>, from: int, to: int)
    requires Agrees(g, sectors, ch, want, from, to) && g.Fits(sectors, longer) && ch <= longer
    ensures Agrees(g, sectors, longer, want, from, to)
  {
    forall q: nat | from <= q < to ensures AgreesAt(g, sectors, longer, want, q) {
      assert AgreesAt(g, sectors, ch, want, q);
    }
  }

  /** Once the whole chunk is stored, the old tail completes the overlay. */
  lemma OverlayDone(g: Geometry, sectors: seq<Sector>, ch: seq<nat>, bytes: seq<Byte>, p: nat, src: seq<Byte>)
    requires g.Fits(sectors, ch) && p <= |bytes|
    requires var want := Overlay(bytes, p, src);
             && g.Needed(|want|) <= |ch|
             && Agrees(g, sectors, ch, want, 0, p + |src|)
             && Agrees(g, sectors, ch, bytes, p + |src|, |bytes|)
    ensures g.Bytes(sectors, ch, |Overlay(bytes, p, src)|) == Overlay(bytes, p, src)
  {
    hide Geometry.ByteAt, Geometry.Needed;
    var want := Overlay(bytes, p, src);
    forall q: nat | p + |src| <= q < |want| ensures AgreesAt(g, sectors, ch, want, q) {
      assert AgreesAt(g, sectors, ch, bytes, q) && want[q] == bytes[q];
    }
    PrefixBytes(g, sectors, ch, want, |want|);
  }

  /** What one transfer adds to the agreement with the overlay, and what it leaves of the old bytes. */
  lemma StoredOnce(g: Geometry, sectors: seq<Sector>, sectors': seq<Sector>, ch: Chain, bytes: seq<Byte>, start: nat,
                   src: seq<Byte>, done: nat, n: nat, stale: nat, pre: bool)
    requires g.Fits(sectors, ch) && start <= |bytes| && done + n <= |src|
    requires n > 0 && g.Needed(start + done + n) <= |ch|
    requires Agrees(g, sectors, ch, Overlay(bytes, start, src), 0, start + done)
    requires Wrote(g, sectors, sectors', ch, start + done, src[done..done + n], stale)
    requires !pre ==> (stale == n || start + done >= |bytes|) && Agrees(g, sectors, ch, bytes, start + done, |bytes|)
    ensures Agrees(g, sectors', ch, Overlay(bytes, start, src), 0, start + done + n)
    ensures !pre ==> Agrees(g, sectors', ch, bytes, start + done + n, |bytes|)
  {
    var want, p := Overlay(bytes, start, src), start + done;
    assert src[done..done + n] == want[p..p + n];
    hide Agrees, Wrote, Overlay, Geometry.Needed;
    AgreesAfterWrite(g, sectors, sectors', ch, want, p, n, stale);
    if !pre { AgreesBeyondWrite(g, sectors, sectors', ch, bytes, p, src[done..done + n], stale); }
  }

  /** What the stored bytes add up to when the loop has run to the end. */
  lemma WriteDone(g: Geometry, sectors: seq<Sector>, ch: Chain, bytes: seq<Byte>, start: nat, src: seq<Byte>, stale: bool)
    requires g.Fits(sectors, ch) && start <= |bytes|
    requires g.Needed(Max(|bytes|, start + |src|)) <= |ch|
    requires Agrees(g, sectors, ch, Overlay(bytes, start, src), 0, start + |src|)
    requires !stale ==> Agrees(g, sectors, ch, bytes, start + |src|, |bytes|)
    ensures g.Bytes(sectors, ch, Max(|bytes|, start + |src|))[..start + |src|] == bytes[..start] + src
    ensures !stale ==> g.Bytes(sectors, ch, Max(|bytes|, start + |src|)) == Overlay(bytes, start, src)
  {
    hide Geometry.Needed, Geometry.Bytes, Agrees;
    var n, size := start + |src|, Max(|bytes|, start + |src|);
    g.NeededMonotonic(n, size);
    PrefixBytes(g, sectors, ch, Overlay(bytes, start, src), n);
    OverlayPrefix(bytes, start, src);
    assert ch[..|ch|] == ch;
    BytesOfPrefix(g, sectors, ch, |ch|, size, n);
    if !stale { OverlayDone(g, sectors, ch, bytes, start, src); }
  }

  lemma WriteStarts(g: Geometry, sectors: seq<Sector>, ch: Chain, bytes: seq<Byte>, start: nat, src: seq<Byte>)
    requires start <= |bytes| && Agrees(g, sectors, ch, bytes, 0, |bytes|)
    ensures Agrees(g, sectors, ch, Overlay(bytes, start, src), 0, start)
    ensures Agrees(g, sectors, ch, bytes, start, |bytes|)
  {
    var want := Overlay(bytes, start, src);
    forall q: nat | q < start ensures AgreesAt(g, sectors, ch, want, q) {
      assert AgreesAt(g, sectors, ch, bytes, q) && want[q] == bytes[q];
    }
  }

  lemma ChunkStays(g: Geometry, p: nat, n: nat, ns: nat)
    requires g.sectorsPerCluster > 0
    requires
      || p % BYTES_PER_SECTOR + n <= BYTES_PER_SECTOR
      || (n == ns * BYTES_PER_SECTOR && p % BYTES_PER_SECTOR == 0 && g.SectorOfCluster(p) + ns <= g.sectorsPerCluster)
    ensures p % g.BytesPerCluster() + n <= g.BytesPerCluster()
  {
    g.ChunkInCluster(p, n);
  }

  lemma BytesOfPrefix(g: Geometry, sectors: seq<Sector>, ch: Chain, k: nat, size: nat, n: nat)
    requires g.Fits(sectors, ch) && k <= |ch| && n <= size && g.Needed(size) <= |ch| && g.Needed(n) <= k
    ensures g.Fits(sectors, ch[..k]) && g.Bytes(sectors, ch[..k], n) == g.Bytes(sectors, ch, size)[..n]
  {
    hide Geometry.Bytes, Geometry.Needed;
    forall q | 0 <= q < n ensures g.Bytes(sectors, ch[..k], n)[q] == g.Bytes(sectors, ch, size)[q] {
      ByteOf(g, sectors, ch, size, q);
      ByteOf(g, sectors, ch[..k], n, q);
    }
  }

  // ----- The transfer paths -----

  /** One transfer of a read: part of a sector, several sectors, or one sector. */
  method LoadPiece(g: Geometry, sectors: seq<Sector>, ghost ch: Chain, cluster: nat, position: nat, toRead: nat)
    returns (piece: seq<Byte>)
    requires g.Fits(sectors, ch) && toRead > 0
    requires g.ClusterIndex(position) < |ch| && cluster == ch[g.ClusterIndex(position)]
    ensures |piece| <= toRead && Loads(g, sectors, ch, position, piece)
  {
    hide Loads, Geometry.ClusterIndex, Geometry.ClusterStartSector, Geometry.SectorOfCluster;
    var offset := position % BYTES_PER_SECTOR;
    var sectorOfCluster := g.SectorOfCluster(position);
    var sector := g.ClusterStartSector(cluster) + sectorOfCluster;
    TransferSector(g, sectors, ch, position);
    var cached: bool := *;  // the sector may happen to be in the cache
    if offset != 0 || toRead < BYTES_PER_SECTOR || cached {
      var n := Min(BYTES_PER_SECTOR - offset, toRead);
      LoadsPart(g, sectors, ch, position, n);
      piece := sectors[sector][offset..offset + n];
    } else {
      var ns := if toRead >= 2 * BYTES_PER_SECTOR
                then Min(toRead / BYTES_PER_SECTOR, g.sectorsPerCluster - sectorOfCluster) else 1;
      LoadsRun(g, sectors, ch, position, ns);
      piece := Join(sectors[sector..sector + ns]);
    }
  }

  /**
    One transfer of a write: part of a sector, several sectors, or one sector. A sector begun at its
    first byte is read before it is changed only when `keep` is set.
  */
  method StorePiece(g: Geometry, sectors: seq<Sector>, ghost ch: Chain, cluster: nat, position: nat,
                    src: seq<Byte>, from: nat, keep: bool)
    returns (after: seq<Sector>, n: nat, ghost stale: nat, ghost ns: nat)
    requires g.Fits(sectors, ch) && NoRepeats(ch) && from < |src|
    requires g.ClusterIndex(position) < |ch| && cluster == ch[g.ClusterIndex(position)]
    ensures 0 < n <= |src| - from
    ensures position % g.BytesPerCluster() + n <= g.BytesPerCluster()
    ensures Wrote(g, sectors, after, ch, position, src[from..from + n], stale)
    ensures stale == n || !keep
    ensures g.Holds(ch, position / BYTES_PER_SECTOR) && g.Inner(position / BYTES_PER_SECTOR) + ns <= g.sectorsPerCluster
    ensures g.Patched(sectors, after, g.Device(ch, position / BYTES_PER_SECTOR), ns)
  {
    hide Wrote, Geometry.ClusterIndex, Geometry.SectorOfCluster, Geometry.ClusterStartSector, Geometry.Device;
    var sectorOfCluster := g.SectorOfCluster(position);
    var sectorOffset := position % BYTES_PER_SECTOR;
    var sector := g.ClusterStartSector(cluster) + sectorOfCluster;
    var nToWrite := |src| - from;
    TransferSector(g, sectors, ch, position);
    if sectorOffset != 0 || nToWrite < BYTES_PER_SECTOR {
      n := Min(BYTES_PER_SECTOR - sectorOffset, nToWrite);
      var buffer := sectors[sector];
      if sectorOffset == 0 && !keep {
        buffer := *;  // the buffer holds whatever it held
      }
      ns, stale := 1, if buffer == sectors[sector] then n else BYTES_PER_SECTOR;
      after := sectors[sector := buffer[..sectorOffset] + src[from..from + n] + buffer[sectorOffset + n..]];
      WritePart(g, sectors, after, ch, position, src[from..from + n], buffer);
    } else {
      var nSector := if nToWrite >= 2 * BYTES_PER_SECTOR
                     then Min(nToWrite / BYTES_PER_SECTOR, g.sectorsPerCluster - sectorOfCluster) else 1;
      n := nSector * BYTES_PER_SECTOR;
      ns, stale := nSector, n;
      after := sectors[..sector] + Split(src[from..from + n], nSector) + sectors[sector + nSector..];
      WriteRun(g, sectors, after, ch, position, src[from..from + n], nSector);
    }
    ChunkStays(g, position, n, ns);
  }

  // ----- Other files -----

  /** All chains but the file's own are the same chains with the same contents, and so is what lies
      in front of the data. */
  ghost predicate OthersKept(g: Geometry, chains0: Chains, sectors0: seq<Sector>, head0: nat,
                             chains: Chains, sectors: seq<Sector>, head: nat)
  {
    && chains - {head} == chains0 - {head0}
    && g.FrontKept(sectors0, sectors)
    && forall h :: h in chains && h != head ==> g.SameSectors(sectors0, sectors, chains[h])
  }

  lemma OthersKeptTrans(g: Geometry, chains0: Chains, sectors0: seq<Sector>, head0: nat,
                        chains1: Chains, sectors1: seq<Sector>, head1: nat,
                        chains2: Chains, sectors2: seq<Sector>, head2: nat)
    requires OthersKept(g, chains0, sectors0, head0, chains1, sectors1, head1)
    requires OthersKept(g, chains1, sectors1, head1, chains2, sectors2, head2)
    ensures OthersKept(g, chains0, sectors0, head0, chains2, sectors2, head2)
  {
    forall h | h in chains2 && h != head2 ensures g.SameSectors(sectors0, sectors2, chains2[h]) {
      assert h in (chains2 - {head2}) && h in (chains1 - {head1}) && chains2[h] == chains1[h];
    }
  }

  /** A file has at most grown, and only its own clusters were written to. */
  ghost predicate OnlyStored(g: Geometry, chains0: Chains, sectors0: seq<Sector>, head0: nat,
                             chains: Chains, sectors: seq<Sector>, head: nat)
  {
    && OthersKept(g, chains0, sectors0, head0, chains, sectors, head)
    && ListOf(chains0, head0) <= ListOf(chains, head)
    && g.WroteOnly(sectors0, sectors, ListOf(chains, head))
  }

  lemma OnlyStoredTrans(g: Geometry, chains0: Chains, sectors0: seq<Sector>, head0: nat,
                        chains1: Chains, sectors1: seq<Sector>, head1: nat,
                        chains2: Chains, sectors2: seq<Sector>, head2: nat)
    requires OnlyStored(g, chains0, sectors0, head0, chains1, sectors1, head1)
    requires OnlyStored(g, chains1, sectors1, head1, chains2, sectors2, head2)
    ensures OnlyStored(g, chains0, sectors0, head0, chains2, sectors2, head2)
  {
    hide OthersKept, Geometry.WroteOnly;
    OthersKeptTrans(g, chains0, sectors0, head0, chains1, sectors1, head1, chains2, sectors2, head2);
    g.WroteOnlyTrans(sectors0, sectors1, sectors2, ListOf(chains1, head1), ListOf(chains2, head2));
  }

  /** Whatever one file does, what lies in front of the data stays. */
  lemma FrontStays(g: Geometry, chains0: Chains, sectors0: seq<Sector>, head0: nat,
                   chains: Chains, sectors: seq<Sector>, head: nat)
    requires OthersKept(g, chains0, sectors0, head0, chains, sectors, head)
    ensures |sectors| == |sectors0|
    ensures forall e :: 0 <= e < g.dataStart && e < |sectors| ==> sectors[e] == sectors0[e]
  {}

  /** A file that has grown, with nothing written yet. */
  lemma OnlyGrown(g: Geometry, chains0: Chains, head0: nat, chains: Chains, head: nat, sectors: seq<Sector>)
    requires OthersKept(g, chains0, sectors, head0, chains, sectors, head)
    requires ListOf(chains0, head0) <= ListOf(chains, head)
    ensures OnlyStored(g, chains0, sectors, head0, chains, sectors, head)
  {}

  /** Another file of the volume keeps its clusters and its bytes. */
  lemma OtherFileUnchanged(g: Geometry, chains0: Chains, sectors0: seq<Sector>, head0: nat,
                           chains: Chains, sectors: seq<Sector>, head: nat, h: nat, size: nat)
    requires OthersKept(g, chains0, sectors0, head0, chains, sectors, head)
    requires h in chains0 && h != head0 && g.Fits(sectors0, chains0[h]) && g.Needed(size) <= |chains0[h]|
    ensures h in chains && chains[h] == chains0[h] && h != head && g.Fits(sectors, chains[h])
    ensures g.Bytes(sectors, chains[h], size) == g.Bytes(sectors0, chains0[h], size)
  {
    hide Geometry.Needed, Geometry.Bytes;
    assert h in chains0 - {head0} && h in chains - {head};
    forall q | 0 <= q < size ensures g.Bytes(sectors, chains[h], size)[q] == g.Bytes(sectors0, chains[h], size)[q] {
      ByteOf(g, sectors, chains[h], size, q);
      ByteOf(g, sectors0, chains[h], size, q);
    }
  }

  /** A transfer inside the cluster of one list cannot touch the sectors of another. */
  lemma PatchOthers(g: Geometry, chains: Chains, before: seq<Sector>, after: seq<Sector>, h: nat, k: nat, ns: nat)
    requires Disjoint(chains) && h in chains && |after| == |before|
    requires forall o :: o in chains ==> g.SameSectors(before, before, chains[o])
    requires g.Holds(chains[h], k) && g.Inner(k) + ns <= g.sectorsPerCluster
    requires g.Patched(before, after, g.Device(chains[h], k), ns)
    ensures OnlyStored(g, chains, before, h, chains, after, h)
  {
    SameFits(g, before, chains[h]);
    g.PatchInside(before, after, chains[h], k, ns);
    hide Geometry.WroteOnly, Geometry.FrontKept;
    hide Disjoint, Geometry.SameSectors, Geometry.Patched, Geometry.Device, Geometry.Slot, Geometry.Inner;
    forall o | o in chains && o != h ensures g.SameSectors(before, after, chains[o]) {
      NotShared(chains, h, o, g.Slot(k));
      SameFits(g, before, chains[o]);
      g.PatchKeepsOther(before, after, chains[h], k, ns, chains[o]);
    }
  }

  /** A change of one list leaves the bytes of all others alone. */
  lemma KeptAside(g: Geometry, chains0: Chains, head0: nat, chains: Chains, head: nat, sectors: seq<Sector>)
    requires chains - {head} == chains0 - {head0}
    requires forall h :: h in chains0 ==> g.SameSectors(sectors, sectors, chains0[h])
    ensures OthersKept(g, chains0, sectors, head0, chains, sectors, head)
  {
    hide Geometry.SameSectors;
    forall h | h in chains && h != head ensures g.SameSectors(sectors, sectors, chains[h]) {
      assert h in chains - {head} && h in chains0 - {head0};
    }
  }

  lemma SameFits(g: Geometry, sectors: seq<Sector>, ch: Chain)
    requires g.SameSectors(sectors, sectors, ch)
    ensures g.Fits(sectors, ch)
  {}

  lemma NotShared(chains: Chains, h: nat, o: nat, i: nat)
    requires Disjoint(chains) && h in chains && o in chains && o != h && i < |chains[h]|
    ensures forall x :: 0 <= x < |chains[o]| ==> chains[o][x] != chains[h][i]
  {
    forall x | 0 <= x < |chains[o]| ensures chains[o][x] != chains[h][i] {
      assert Owns(chains, h, chains[h][i]) && Owns(chains, o, chains[o][x]);
    }
  }

  // ----- Files as byte sequences -----

  /** What a caller of the file interface sees: a byte sequence and a position in it. */
  datatype ByteFile = ByteFile(bytes: seq<Byte>, pos: nat)

  datatype Op = ReadOp(n: nat) | WriteOp(src: seq<Byte>) | SeekOp(to: nat) | TruncateOp

  ghost predicate Legal(s: ByteFile, op: Op, append: bool, limit: nat) {
    && s.pos <= |s.bytes|
    && match op
       case SeekOp(to) => to <= |s.bytes|
       case WriteOp(src) => (if append then |s.bytes| else s.pos) + |src| <= limit
       case _ => true
  }

  /** The effect of one operation on the byte sequence, and the bytes it returns. */
  ghost function Effect(s: ByteFile, op: Op, append: bool): (ByteFile, seq<Byte>)
    requires s.pos <= |s.bytes| && (op.SeekOp? ==> op.to <= |s.bytes|)
  {
    match op
    case ReadOp(n) =>
      var data := s.bytes[s.pos..Min(|s.bytes|, s.pos + n)];
      (ByteFile(s.bytes, s.pos + |data|), data)
    case WriteOp(src) =>
      var start := if append then |s.bytes| else s.pos;
      (ByteFile(Overlay(s.bytes, start, src), start + |src|), [])
    case SeekOp(to) => (ByteFile(s.bytes, to), [])
    case TruncateOp => (ByteFile(s.bytes[..s.pos], s.pos), [])
  }

  /**
    What one operation may do. A loose write is one to a preallocated file that has not been sought
    since: sectors are begun without being read, so only the bytes up to the new position are known.
  */
  ghost predicate Acts(s: ByteFile, op: Op, append: bool, limit: nat, loose: bool, s': ByteFile, output: seq<Byte>) {
    && Legal(s, op, append, limit)
    && if loose && op.WriteOp? then
         var start := if append then |s.bytes| else s.pos;
         && output == [] && s'.pos == start + |op.src| <= |s'.bytes| == Max(|s.bytes|, start + |op.src|)
         && s'.bytes[..s'.pos] == s.bytes[..start] + op.src
       else (s', output) == Effect(s, op, append)
  }

  /** A history: states and outputs linked by what each operation may do; writes are loose only among
      the first `loose` operations. */
  ghost predicate History(states: seq<ByteFile>, ops: seq<Op>, outputs: seq<seq<Byte>>, append: bool, limit: nat,
                          loose: nat)
  {
    && |states| == |ops| + 1 && |outputs| == |ops|
    && forall i {:trigger ops[i]} :: 0 <= i < |ops| ==>
         Acts(states[i], ops[i], append, limit, i < loose, states[i + 1], outputs[i])
  }

  lemma NoHistory(s: ByteFile, append: bool, limit: nat)
    ensures History([s], [], [], append, limit, 0)
  {}

  lemma HistoryGrows(states: seq<ByteFile>, ops: seq<Op>, outputs: seq<seq<Byte>>, append: bool, limit: nat, loose: nat,
                     op: Op, next: ByteFile, output: seq<Byte>, now: bool)
    requires History(states, ops, outputs, append, limit, loose) && loose <= |ops|
    requires Acts(states[|ops|], op, append, limit, now, next, output)
    ensures History(states + [next], ops + [op], outputs + [output], append, limit, if now then |ops| + 1 else loose)
  {
    hide Effect, Legal;
    var loose' := if now then |ops| + 1 else loose;
    forall i | 0 <= i < |ops|
      ensures Acts(states[i], ops[i], append, limit, i < loose', states[i + 1], outputs[i])
    {
      if loose <= i { TightIsLoose(states[i], ops[i], append, limit, states[i + 1], outputs[i]); }
    }
  }

  /** What is known of a write holds all the more of one of which more is known. */
  lemma TightIsLoose(s: ByteFile, op: Op, append: bool, limit: nat, s': ByteFile, output: seq<Byte>)
    requires Acts(s, op, append, limit, false, s', output)
    ensures Acts(s, op, append, limit, true, s', output)
  {
    if op.WriteOp? {
      OverlayPrefix(s.bytes, if append then |s.bytes| else s.pos, op.src);
    }
  }

  // ----- Several files as byte sequences -----

  /** An operation, and the file it is for. */
  datatype Call = Call(file: nat, op: Op)

  ghost predicate Moves(before: seq<ByteFile>, after: seq<ByteFile>, c: Call, output: seq<Byte>,
                        append: seq<bool>, limit: nat, loose: seq<bool>)
  {
    && c.file < |before| == |append| == |loose| == |after|
    && Acts(before[c.file], c.op, append[c.file], limit, loose[c.file], after[c.file], output)
    && after == before[c.file := after[c.file]]
  }

  /** A history of calls on several byte sequences: each call moves its own and no other. */
  ghost predicate Histories(states: seq<seq<ByteFile>>, calls: seq<Call>, outputs: seq<seq<Byte>>,
                            append: seq<bool>, limit: nat, loose: seq<bool>)
  {
    && |states| == |calls| + 1 && |outputs| == |calls|
    && forall k :: 0 <= k < |calls| ==> Moves(states[k], states[k + 1], calls[k], outputs[k], append, limit, loose)
  }

  lemma HistoriesGrow(states: seq<seq<ByteFile>>, calls: seq<Call>, outputs: seq<seq<Byte>>,
                      append: seq<bool>, limit: nat, loose: seq<bool>,
                      c: Call, next: seq<ByteFile>, output: seq<Byte>)
    requires Histories(states, calls, outputs, append, limit, loose)
    requires Moves(states[|calls|], next, c, output, append, limit, loose)
    ensures Histories(states + [next], calls + [c], outputs + [output], append, limit, loose)
  {
    hide Moves;
  }
}
