/** Looking a file up in a directory (FatFile::open in lib/SdFat/src/FatLib/FatFileLFN.cpp): one
    pass over the slots that recognises a long name spread over several slots, falls back on the
    short name, and on the way finds room for a new file. */
module DirectorySearch {
  import opened SectorMap
  import opened LongNames

  const DELETED: nat := 0xE5
  const DOT: nat := 0x2E

  /** A directory slot. The first free slot ends the directory. */
  datatype Slot = Free | Deleted | Dot | Label | Long(entry: Entry) | Short(sfn: seq<Byte>)

  /** The checksum that ties long entries to their short one. */
  function Rotated(sum: nat, b: Byte): nat {
    (sum % 2 * 128 + sum / 2 + b as nat) % 256
  }

  function LfnChecksum(sfn: seq<Byte>): nat {
    if sfn == [] then 0 else Rotated(LfnChecksum(sfn[..|sfn| - 1]), sfn[|sfn| - 1])
  }

  lemma PowersOf8()
    ensures Pow2(7) == 128 && Pow2(8) == 256
  {
    assert Pow2(4) == 16 && Pow2(6) == 64;
  }

  lemma TurnedByte(sum: nat, b: Byte)
    requires sum < 256
    ensures Rotated(sum, 0) == (if sum % 2 == 1 then 128 else 0) + sum / 2
    ensures Rotated(sum, b) == (Rotated(sum, 0) + b as nat) % 256
  {}

  /** The checksum turns right by one bit, in eight bits, and adds the next byte. */
  lemma ChecksumTurns(sfn: seq<Byte>, b: Byte, i: nat)
    requires i < 8
    ensures LfnChecksum([]) == 0
    ensures var turned := Rotated(LfnChecksum(sfn), 0);
            && LfnChecksum(sfn + [b]) == (turned + b as nat) % 256
            && (Bit(turned, i) <==> Bit(LfnChecksum(sfn), if i == 7 then 0 else i + 1))
  {
    assert (sfn + [b])[..|sfn|] == sfn;
    ChecksumIsByte(sfn);
    TurnedByte(LfnChecksum(sfn), b);
    PowersOf8();
    hide Bit, Pow2, Rotated;
    RotatedBits(LfnChecksum(sfn), 8, i);
  }

  /** What is looked for. */
  datatype Wanted = Wanted(name: seq<Byte>, sfn: seq<Byte>, lostChars: bool)

  /** How much of a long name has been recognised: `order` is the number of the last piece seen. */
  datatype Progress = Idle | Reading(lfnOrd: nat, order: nat, checksum: nat)

  /** When there is no such file, `taken` says that its short name was met all the same: in a name
      that lost characters the short name is not the file's, and a new one will be needed. */
  datatype Result = Found(index: nat, lfnOrd: nat) | Missing(taken: bool) | Corrupt

  function Taken(r: Result): Result {
    if r.Missing? then Missing(true) else r
  }

  /** Long entries have an order number, which is the first byte of the slot: not the byte that marks
      free or deleted slots, nor a dot. */
  predicate SlotsShaped(slots: seq<Slot>) {
    forall i :: 0 <= i < |slots| ==> SlotShaped(slots[i])
  }

  predicate SlotShaped(s: Slot) {
    s.Long? ==> Shaped(s.entry) && 0 < s.entry.order < 256 && s.entry.order !in {DELETED, DOT}
  }

  function BlankEntry(): Entry {
    Entry(0, 0, 0, 0, 0, seq(10, _ => 0), seq(12, _ => 0), seq(4, _ => 0))
  }

  /** The slots as long entries; only those that are ones matter. */
  function Entries(slots: seq<Slot>): (entries: seq<Entry>)
    requires SlotsShaped(slots)
    ensures |entries| == |slots| && forall e :: e in entries ==> Shaped(e)
  {
    var entries := seq(|slots|, i requires 0 <= i < |slots| => if slots[i].Long? then slots[i].entry else BlankEntry());
    assert forall i :: 0 <= i < |entries| ==> SlotShaped(slots[i]) && Shaped(entries[i]);
    entries
  }

  /** The pieces seen so far lie in front of slot `cur`. */
  predicate Good(p: Progress, cur: nat) {
    p.Reading? ==> 1 <= p.order <= p.lfnOrd && p.lfnOrd - p.order + 1 <= cur
  }

  /** The progress after a long entry at slot `cur`. */
  function AfterLong(slots: seq<Slot>, cur: nat, p: Progress, w: Wanted): (q: Progress)
    requires cur < |slots| && slots[cur].Long? && SlotsShaped(slots) && Good(p, cur) && Pieces(w.name) > 0
    ensures Good(q, cur + 1)
  {
    var e := slots[cur].entry;
    assert SlotShaped(slots[cur]);
    var need := Pieces(w.name);
    var q :=
      if p.Idle? then
        if e.order % 32 != need || e.order / 64 % 2 == 0 then Idle else Reading(need, need, e.checksum as nat)
      else if e.order != p.order - 1 || p.checksum != e.checksum as nat then Idle
      else p.(order := p.order - 1);
    if q.Reading? && q.order == 1 && !Matches(Stored(Entries(slots), cur + 1, q.lfnOrd), w.name) then Idle else q
  }

  /** The search from slot `cur` on. */
  function Search(slots: seq<Slot>, cur: nat, p: Progress, w: Wanted): Result
    requires cur <= |slots| && SlotsShaped(slots) && Good(p, cur) && Pieces(w.name) > 0
    decreases |slots| - cur
  {
    if cur == |slots| then Missing(false) else
    match slots[cur]
    case Free => Missing(false)
    case Deleted => Search(slots, cur + 1, Idle, w)
    case Dot => Search(slots, cur + 1, Idle, w)
    case Label => Search(slots, cur + 1, Idle, w)
    case Long(_) => Search(slots, cur + 1, AfterLong(slots, cur, p, w), w)
    case Short(sfn) =>
      if p.Reading? then
        if p.order == 1 && LfnChecksum(sfn) == p.checksum then Found(cur, p.lfnOrd) else Corrupt
      else if sfn == w.sfn then
        if !w.lostChars then Found(cur, 0) else Taken(Search(slots, cur + 1, Idle, w))
      else Search(slots, cur + 1, Idle, w)
  }

  // ------------------------------------------------------------ directories as files

  /** A file with its long name, if it has one; or a slot without a file. */
  datatype Item = Gap | File(sfn: seq<Byte>, name: seq<Byte>)

  function Size(item: Item): nat {
    match item
    case Gap => 1
    case File(_, name) => Pieces(name) + 1
  }

  /** The item occupies the slots from `at` on. */
  predicate Lays(slots: seq<Slot>, at: nat, item: Item)
    requires SlotsShaped(slots)
  {
    && at + Size(item) <= |slots|
    && match item
       case Gap => slots[at] in {Deleted, Dot, Label}
       case File(sfn, name) =>
         && slots[at + Pieces(name)] == Short(sfn)
         && (name != [] ==> IsName(name))
         && (forall i :: at <= i < at + Pieces(name) ==> slots[i].Long?)
         && Holds(Entries(slots), at + Pieces(name), name, Pieces(name), (LfnChecksum(sfn) % 256) as Byte)
  }

  /** The directory consists of the items, up to its end. */
  predicate Consists(slots: seq<Slot>, at: nat, items: seq<Item>)
    requires SlotsShaped(slots)
    decreases |items|
  {
    if items == [] then at == |slots| || (at < |slots| && slots[at] == Free)
    else Lays(slots, at, items[0]) && Consists(slots, at + Size(items[0]), items[1..])
  }

  predicate LongMatch(item: Item, w: Wanted) {
    item.File? && item.name != [] && Pieces(item.name) == Pieces(w.name) && SameName(item.name, w.name)
  }

  predicate ShortMatch(item: Item, w: Wanted) {
    item.File? && item.sfn == w.sfn && !w.lostChars
  }

  /** The first item that has the wanted name, by its long name or by its short one. */
  function FirstMatch(items: seq<Item>, at: nat, w: Wanted): Result {
    if items == [] then Missing(false)
    else if LongMatch(items[0], w) then Found(at + Pieces(items[0].name), Pieces(items[0].name))
    else if ShortMatch(items[0], w) then Found(at + Pieces(items[0].name), 0)
    else if items[0].File? && items[0].sfn == w.sfn then Taken(FirstMatch(items[1..], at + Size(items[0]), w))
    else FirstMatch(items[1..], at + Size(items[0]), w)
  }

  /** What the first match is: the file at the lowest place that matches; without one, it says
      whether some file has the short name. */
  lemma {:induction false} FirstMatchIs(items: seq<Item>, at: nat, w: Wanted)
    ensures FirstMatch(items, at, w).Missing? <==>
              forall i :: 0 <= i < |items| ==> !LongMatch(items[i], w) && !ShortMatch(items[i], w)
    ensures FirstMatch(items, at, w).Missing? ==>
              (FirstMatch(items, at, w).taken <==> exists i :: 0 <= i < |items| && items[i].File? && items[i].sfn == w.sfn)
  {
    if items != [] {
      FirstMatchIs(items[1..], at + Size(items[0]), w);
      assert forall i :: 1 <= i < |items| ==> items[i] == items[1..][i - 1];
      assert forall i :: 0 <= i < |items| - 1 ==> items[1..][i] == items[i + 1];
    }
  }

  lemma ChecksumIsByte(sfn: seq<Byte>)
    ensures LfnChecksum(sfn) < 256
  {}

  /** Piece `order` of a file's name, as the search meets it. */
  lemma PieceOf(slots: seq<Slot>, at: nat, item: Item, order: nat)
    requires SlotsShaped(slots) && Lays(slots, at, item) && item.File? && 1 <= order <= Pieces(item.name)
    ensures var e := slots[at + Pieces(item.name) - order];
            && e.Long? && e.entry.order % 32 == order && (e.entry.order / 64 % 2 == 1 <==> order == Pieces(item.name))
            && (order < Pieces(item.name) ==> e.entry.order == order)
            && e.entry.checksum as nat == LfnChecksum(item.sfn)
  {
    hide GetLfnChar, Padded, LfnChecksum, SameName;
    var last := Pieces(item.name);
    var cs := (LfnChecksum(item.sfn) % 256) as Byte;
    ChecksumIsByte(item.sfn);
    assert PieceAt(Entries(slots), at + last, order, item.name, last, cs);
    assert Entries(slots)[at + last - order] == slots[at + last - order].entry;
    assert last <= 20;
    OrderBits(order, last);
  }

  lemma OrderBits(order: nat, last: nat)
    requires 1 <= order <= last <= 20
    ensures OrderOf(order, last) % 32 == order && (OrderOf(order, last) / 64 % 2 == 1 <==> order == last)
  {}

  /** A long name of another number of pieces is passed over. */
  lemma {:induction false} PassOver(slots: seq<Slot>, at: nat, item: Item, order: nat, w: Wanted)
    requires SlotsShaped(slots) && Lays(slots, at, item) && item.File? && order <= Pieces(item.name)
    requires Pieces(w.name) > 0 && Pieces(item.name) != Pieces(w.name)
    ensures Search(slots, at + Pieces(item.name) - order, Idle, w) == Search(slots, at + Pieces(item.name), Idle, w)
    decreases order
  {
    if order > 0 {
      PieceOf(slots, at, item, order);
      PassOver(slots, at, item, order - 1, w);
    }
  }

  /** The rest of a long name of the right number of pieces. */
  lemma {:induction false} ReadOn(slots: seq<Slot>, at: nat, item: Item, order: nat, w: Wanted)
    requires SlotsShaped(slots) && Lays(slots, at, item) && item.File? && item.name != [] && IsName(w.name)
    requires Pieces(item.name) == Pieces(w.name) && 1 <= order < Pieces(item.name)
    ensures Search(slots, at + Pieces(item.name) - order, Reading(Pieces(item.name), order + 1, LfnChecksum(item.sfn)), w)
         == Search(slots, at + Pieces(item.name), Outcome(item, w), w)
    decreases order
  {
    hide LfnChecksum, Matches, Stored;
    var last := Pieces(item.name);
    PieceOf(slots, at, item, order);
    if order == 1 {
      CompareIffSame(Entries(slots), at + last, item.name, w.name, (LfnChecksum(item.sfn) % 256) as Byte);
    } else {
      ReadOn(slots, at, item, order - 1, w);
    }
  }

  /** The progress behind the last piece: the whole name, or nothing if it is another one. */
  function Outcome(item: Item, w: Wanted): Progress
    requires item.File?
  {
    if SameName(item.name, w.name) then Reading(Pieces(item.name), 1, LfnChecksum(item.sfn)) else Idle
  }

  lemma ReadName(slots: seq<Slot>, at: nat, item: Item, w: Wanted)
    requires SlotsShaped(slots) && Lays(slots, at, item) && item.File? && item.name != [] && IsName(w.name)
    requires Pieces(item.name) == Pieces(w.name)
    ensures Search(slots, at, Idle, w) == Search(slots, at + Pieces(item.name), Outcome(item, w), w)
  {
    hide LfnChecksum, Matches, Stored;
    var last := Pieces(item.name);
    PieceOf(slots, at, item, last);
    if last == 1 {
      CompareIffSame(Entries(slots), at + last, item.name, w.name, (LfnChecksum(item.sfn) % 256) as Byte);
    } else {
      ReadOn(slots, at, item, last - 1, w);
    }
  }

  /** In every directory made of files and gaps, the search finds the first file whose long name
      is the wanted one without regard to case, or whose short name is. */
  lemma {:induction false} SearchFindsFirst(slots: seq<Slot>, at: nat, items: seq<Item>, w: Wanted)
    requires SlotsShaped(slots) && Consists(slots, at, items) && IsName(w.name) && at <= |slots|
    ensures Search(slots, at, Idle, w) == FirstMatch(items, at, w)
    decreases |items|
  {
    hide LfnChecksum, AfterLong, Lays, SlotsShaped;
    if items != [] {
      var item := items[0];
      LaysFits(slots, at, item);
      SearchFindsFirst(slots, at + Size(item), items[1..], w);
      if item.File? {
        if item.name != [] && Pieces(item.name) == Pieces(w.name) {
          ReadName(slots, at, item, w);
        } else {
          PassOver(slots, at, item, Pieces(item.name), w);
        }
      }
    }
  }

  lemma LaysFits(slots: seq<Slot>, at: nat, item: Item)
    requires SlotsShaped(slots) && Lays(slots, at, item)
    ensures at + Size(item) <= |slots|
    ensures item.Gap? ==> slots[at] in {Deleted, Dot, Label}
    ensures item.File? ==> slots[at + Pieces(item.name)] == Short(item.sfn)
  {}

  // ------------------------------------------------------------ damaged directories

  /** The first n pieces of a name of `last` pieces lie at `at`, the last one of the name first. */
  predicate PiecesAt(slots: seq<Slot>, at: nat, n: nat, last: nat, checksum: nat) {
    && 1 <= n <= last && at + n <= |slots|
    && (forall i :: at <= i < at + n ==> slots[i].Long? && slots[i].entry.checksum as nat == checksum)
    && (slots[at].Long? ==> slots[at].entry.order % 32 == last && slots[at].entry.order / 64 % 2 == 1)
    && (forall i :: at < i < at + n ==> slots[i].Long? && slots[i].entry.order == last - (i - at))
  }

  /** The whole name has been seen, and it is the wanted one. */
  predicate Recognised(slots: seq<Slot>, index: nat, w: Wanted)
    requires SlotsShaped(slots) && Pieces(w.name) <= index <= |slots|
  {
    Matches(Stored(Entries(slots), index, Pieces(w.name)), w.name)
  }

  function ProgressAfter(slots: seq<Slot>, at: nat, n: nat, w: Wanted, checksum: nat): Progress
    requires SlotsShaped(slots) && at + n <= |slots| && n <= Pieces(w.name)
  {
    if n == Pieces(w.name) && !Recognised(slots, at + n, w) then Idle
    else Reading(Pieces(w.name), Pieces(w.name) - n + 1, checksum)
  }

  lemma {:induction false} PiecesRead(slots: seq<Slot>, at: nat, n: nat, k: nat, w: Wanted, checksum: nat)
    requires SlotsShaped(slots) && PiecesAt(slots, at, n, Pieces(w.name), checksum) && k < n
    ensures Search(slots, at + k, if k == 0 then Idle else ProgressAfter(slots, at, k, w, checksum), w)
         == Search(slots, at + n, ProgressAfter(slots, at, n, w, checksum), w)
    decreases n - k
  {
    hide Stored, Entries, Matches;
    assert slots[at + k].Long?;
    if k + 1 < n {
      PiecesRead(slots, at, n, k + 1, w, checksum);
    }
  }

  /** A short entry behind such pieces ends the search: it is the file's if the name is whole, is the
      wanted one, and carries the checksum of the short name; otherwise the directory is corrupt.
      Behind a whole name that is another one it is looked at for itself. */
  lemma ShortBehindPieces(slots: seq<Slot>, at: nat, n: nat, w: Wanted, checksum: nat, sfn: seq<Byte>)
    requires SlotsShaped(slots) && PiecesAt(slots, at, n, Pieces(w.name), checksum)
    requires at + n < |slots| && slots[at + n] == Short(sfn)
    ensures var r := Search(slots, at, Idle, w);
            if n < Pieces(w.name) then r == Corrupt
            else if !Recognised(slots, at + n, w) then r == Search(slots, at + n, Idle, w)
            else r == if LfnChecksum(sfn) == checksum then Found(at + n, n) else Corrupt
  {
    hide Recognised;
    PiecesRead(slots, at, n, 0, w, checksum);
  }

  // ------------------------------------------------------------ the pass over the directory

  predicate IsFree(s: Slot) {
    s == Deleted || s == Free
  }

  /** The n slots from b on are deleted or free, and lie among the first `cur`. */
  predicate FreeRun(slots: seq<Slot>, b: int, n: nat, cur: nat) {
    0 <= b && b + n <= cur <= |slots| && forall i :: b <= i < b + n ==> slots[i] == Deleted || slots[i] == Free
  }

  /** Where the pass ends: behind the first free slot, or behind the last slot. */
  predicate EndsAt(slots: seq<Slot>, fin: nat) {
    && fin <= |slots| && (forall i :: 0 <= i < fin - 1 ==> slots[i] != Free)
    && (fin == |slots| || (fin > 0 && slots[fin - 1] == Free))
  }

  /** The room among the first `cur` slots: the lowest run of `need` free ones if there is one, and
      otherwise all that are free in front of `cur`. */
  predicate Room(slots: seq<Slot>, cur: nat, need: nat, freeFound: nat, freeIndex: nat) {
    if freeFound >= need then
      && freeFound == need && FreeRun(slots, freeIndex, need, cur)
      && forall b :: 0 <= b < freeIndex ==> !FreeRun(slots, b, need, cur)
    else
      && (forall b :: 0 <= b <= cur - need ==> !FreeRun(slots, b, need, cur))
      && FreeRun(slots, cur - freeFound, freeFound, cur)
      && (freeFound < cur ==> slots[cur - freeFound - 1] != Deleted && slots[cur - freeFound - 1] != Free)
      && (freeFound > 0 ==> freeIndex == cur - freeFound)
  }

  function ProgressOf(lfnOrd: nat, order: nat, checksum: nat): Progress {
    if lfnOrd == 0 then Idle else Reading(lfnOrd, order, checksum)
  }

  /** Looks a file up, and notes whether its short name is taken and where a new one could go: in the
      lowest run of `need` free slots, or in the free slots at the end of the pass. */
  method Find(slots: seq<Slot>, w: Wanted, need: nat)
    returns (r: Result, freeFound: nat, freeIndex: nat, ghost fin: nat)
    requires SlotsShaped(slots) && Pieces(w.name) > 0 && need > 0
    ensures r == Search(slots, 0, Idle, w)
    ensures r.Missing? ==> EndsAt(slots, fin) && Room(slots, fin, need, freeFound, freeIndex)
  {
    hide SlotsShaped, Stored, Entries, Matches;
    var lfnOrd: nat, order: nat, checksum: nat := 0, 0, 0;
    var cur: nat := 0;
    freeFound, freeIndex := 0, 0;
    var fnameFound := false;
    while cur < |slots|
      invariant cur <= |slots| && Good(ProgressOf(lfnOrd, order, checksum), cur)
      invariant Search(slots, 0, Idle, w)
             == var rest := Search(slots, cur, ProgressOf(lfnOrd, order, checksum), w);
                if fnameFound then Taken(rest) else rest
      invariant Room(slots, cur, need, freeFound, freeIndex) && forall i :: 0 <= i < cur ==> slots[i] != Free
    {
      freeFound, freeIndex := NoteRoom(slots, cur, need, freeFound, freeIndex);
      match slots[cur] {
        case Free =>
          return Missing(fnameFound), freeFound, freeIndex, cur + 1;
        case Deleted | Dot | Label =>
          lfnOrd := 0;
        case Long(_) =>
          lfnOrd, order, checksum := StepLong(slots, cur, lfnOrd, order, checksum, w);
        case Short(sfn) =>
          if lfnOrd != 0 {
            if order == 1 && LfnChecksum(sfn) == checksum {
              return Found(cur, lfnOrd), freeFound, freeIndex, 0;
            }
            return Corrupt, freeFound, freeIndex, 0;
          }
          if sfn == w.sfn {
            if !w.lostChars {
              return Found(cur, 0), freeFound, freeIndex, 0;
            }
            fnameFound := true;
          }
      }
      cur := cur + 1;
    }
    r, fin := Missing(fnameFound), |slots|;
  }

  /** A run among one more slot was there before, or ends with that slot. */
  lemma RunBefore(slots: seq<Slot>, b: int, need: nat, cur: nat)
    requires cur < |slots| && need > 0 && FreeRun(slots, b, need, cur + 1)
    ensures if b + need <= cur then FreeRun(slots, b, need, cur) else slots[cur] == Deleted || slots[cur] == Free
    ensures forall i :: b <= i < b + need ==> slots[i] == Deleted || slots[i] == Free
  {}

  /** Room that is long enough stays as it is. */
  lemma RoomStays(slots: seq<Slot>, cur: nat, need: nat, index: nat)
    requires cur < |slots| && need > 0 && Room(slots, cur, need, need, index)
    ensures Room(slots, cur + 1, need, need, index)
  {
    var next := cur + 1;
    forall b | 0 <= b < index ensures !FreeRun(slots, b, need, next) {
      if FreeRun(slots, b, need, next) {
        assert index + need <= cur;
        RunBefore(slots, b, need, cur);
      }
    }
  }

  /** Behind a slot in use there is no room yet. */
  lemma RoomEnds(slots: seq<Slot>, cur: nat, need: nat, found: nat, index: nat)
    requires cur < |slots| && found < need && Room(slots, cur, need, found, index)
    requires slots[cur] != Deleted && slots[cur] != Free
    ensures Room(slots, cur + 1, need, 0, index)
  {
    var next := cur + 1;
    forall b | 0 <= b <= next - need ensures !FreeRun(slots, b, need, next) {
      if FreeRun(slots, b, need, next) { RunBefore(slots, b, need, cur); }
    }
  }

  /** One more free slot is one more of room. */
  lemma RoomGrows(slots: seq<Slot>, cur: nat, need: nat, found: nat, index: nat)
    requires cur < |slots| && found < need && Room(slots, cur, need, found, index)
    requires slots[cur] == Deleted || slots[cur] == Free
    ensures Room(slots, cur + 1, need, found + 1, cur - found)
  {
    var next := cur + 1;
    assert FreeRun(slots, cur - found, found + 1, next);
    forall b | 0 <= b <= next - need && (found + 1 < need || b < cur - found)
      ensures !FreeRun(slots, b, need, next)
    {
      if FreeRun(slots, b, need, next) { RunBefore(slots, b, need, cur); }
    }
  }

  method NoteRoom(slots: seq<Slot>, cur: nat, need: nat, found: nat, index: nat) returns (freeFound: nat, freeIndex: nat)
    requires cur < |slots| && Room(slots, cur, need, found, index) && need > 0
    ensures Room(slots, cur + 1, need, freeFound, freeIndex)
  {
    freeFound, freeIndex := found, index;
    if found >= need {
      RoomStays(slots, cur, need, index);
    } else if IsFree(slots[cur]) {
      RoomGrows(slots, cur, need, found, index);
    } else {
      RoomEnds(slots, cur, need, found, index);
    }
    if IsFree(slots[cur]) {
      if freeFound == 0 {
        freeIndex := cur;
      }
      if freeFound < need {
        freeFound := freeFound + 1;
      }
    } else {
      if freeFound < need {
        freeFound := 0;
      }
    }
  }

  method StepLong(slots: seq<Slot>, cur: nat, lfnOrd: nat, order: nat, checksum: nat, w: Wanted)
    returns (lfnOrd': nat, order': nat, checksum': nat)
    requires cur < |slots| && slots[cur].Long? && SlotsShaped(slots) && Pieces(w.name) > 0
    requires Good(ProgressOf(lfnOrd, order, checksum), cur)
    ensures ProgressOf(lfnOrd', order', checksum') == AfterLong(slots, cur, ProgressOf(lfnOrd, order, checksum), w)
  {
    hide Stored, Entries, Matches;
    var e := slots[cur].entry;
    assert SlotShaped(slots[cur]);
    lfnOrd', order', checksum' := lfnOrd, order, checksum;
    if lfnOrd == 0 {
      order' := e.order % 32;
      if order' != Pieces(w.name) || e.order / 64 % 2 == 0 {
        return;
      }
      lfnOrd' := Pieces(w.name);
      checksum' := e.checksum as nat;
    } else {
      order' := order - 1;
      if e.order != order' || checksum != e.checksum as nat {
        lfnOrd' := 0;
        return;
      }
    }
    if order' == 1 {
      if !Matches(Stored(Entries(slots), cur + 1, lfnOrd'), w.name) {
        lfnOrd' := 0;
      }
    }
  }
}
