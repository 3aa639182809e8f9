/** Long file names of FAT directories (lib/SdFat/src/FatLib/FatFileLFN.cpp and FatName.cpp): a
    name is cut into pieces of 13 characters, each kept in a directory entry of its own, the
    first piece nearest to the file's short entry. Names have 1 to 255 characters, each of
    seven bits, and are compared without regard to ASCII case. */
module LongNames {
  import opened SectorMap

  const PIECE: nat := 13
  const MAX_LENGTH: nat := 255
  const LONG_NAME: Byte := 0x0F
  const LAST_ENTRY: nat := 0x40

  /** The characters of an entry are spread over three fields, two bytes for each. */
  datatype Entry = Entry(
    order: nat, attributes: Byte, mustBeZero1: nat, checksum: Byte, mustBeZero2: nat,
    unicode1: seq<Byte>, unicode2: seq<Byte>, unicode3: seq<Byte>)

  predicate Shaped(e: Entry) {
    |e.unicode1| == 10 && |e.unicode2| == 12 && |e.unicode3| == 4
  }

  function GetLe16(bytes: seq<Byte>, at: nat): nat
    requires at + 1 < |bytes|
  {
    bytes[at] as nat + 256 * bytes[at + 1] as nat
  }

  function SetLe16(bytes: seq<Byte>, at: nat, c: nat): (after: seq<Byte>)
    requires at + 1 < |bytes| && c < 0x1_0000
    ensures |after| == |bytes|
  {
    bytes[at := (c % 256) as Byte][at + 1 := (c / 256) as Byte]
  }

  function GetLfnChar(e: Entry, i: nat): nat
    requires Shaped(e) && i < PIECE
  {
    if i < 5 then GetLe16(e.unicode1, 2 * i)
    else if i < 11 then GetLe16(e.unicode2, 2 * (i - 5))
    else GetLe16(e.unicode3, 2 * (i - 11))
  }

  function PutLfnChar(e: Entry, i: nat, c: nat): (after: Entry)
    requires Shaped(e) && i < PIECE && c < 0x1_0000
    ensures Shaped(after)
  {
    if i < 5 then e.(unicode1 := SetLe16(e.unicode1, 2 * i, c))
    else if i < 11 then e.(unicode2 := SetLe16(e.unicode2, 2 * (i - 5), c))
    else e.(unicode3 := SetLe16(e.unicode3, 2 * (i - 11), c))
  }

  /** Each of the 13 places keeps its own character. */
  lemma PutThenGet(e: Entry, i: nat, c: nat, j: nat)
    requires Shaped(e) && i < PIECE && j < PIECE && c < 0x1_0000
    ensures GetLfnChar(PutLfnChar(e, i, c), j) == if j == i then c else GetLfnChar(e, j)
  {}

  // ------------------------------------------------------------ names

  predicate IsName(name: seq<Byte>) {
    0 < |name| <= MAX_LENGTH && forall i :: 0 <= i < |name| ==> 0 < name[i] < 0x80
  }

  /** Entries that a name takes. */
  function Pieces(name: seq<Byte>): nat {
    (|name| + PIECE - 1) / PIECE
  }

  function Upper(c: nat): nat {
    if 97 <= c <= 122 then c - 32 else c
  }

  predicate SameName(a: seq<Byte>, b: seq<Byte>) {
    |a| == |b| && forall i :: 0 <= i < |a| ==> Upper(a[i] as nat) == Upper(b[i] as nat)
  }

  /** Names are the same when they differ in nothing but the case of the letters A to Z. */
  lemma SameUpToCase(a: seq<Byte>, b: seq<Byte>)
    ensures SameName(a, b) <==> |a| == |b| && forall i :: 0 <= i < |a| ==> SameChar(a[i] as nat, b[i] as nat)
  {}

  /** The character stored at place `j`: the name, one zero, and then a filler. */
  function Padded(name: seq<Byte>, j: nat): nat {
    if j < |name| then name[j] as nat else if j == |name| then 0 else 0xFFFF
  }

  function OrderOf(order: nat, last: nat): nat {
    if order == last then LAST_ENTRY + order else order
  }

  /** Piece `order` of the name, as its directory entry. */
  predicate IsPiece(e: Entry, name: seq<Byte>, order: nat, last: nat, checksum: Byte) {
    && Shaped(e) && e.order == OrderOf(order, last) && e.attributes == LONG_NAME && e.checksum == checksum
    && e.mustBeZero1 == 0 && e.mustBeZero2 == 0 && order > 0
    && forall i :: 0 <= i < PIECE ==> GetLfnChar(e, i) == Padded(name, PIECE * (order - 1) + i)
  }

  /** The two bytes of place `j`: a character of the name, the zero behind it, or the filler. */
  predicate CharBytes(name: seq<Byte>, j: nat, low: Byte, high: Byte) {
    if j < |name| then low == name[j] && high == 0
    else if j == |name| then low == 0 && high == 0
    else low == 0xFF && high == 0xFF
  }

  /** The first field has places 0 to 4, the second 5 to 10, the third 11 and 12. */
  predicate PlaceHolds(e: Entry, i: nat, name: seq<Byte>, order: nat)
    requires Shaped(e) && i < 13 && order > 0
  {
    var j := 13 * (order - 1) + i;
    if i < 5 then CharBytes(name, j, e.unicode1[2 * i], e.unicode1[2 * i + 1])
    else if i < 11 then CharBytes(name, j, e.unicode2[2 * i - 10], e.unicode2[2 * i - 9])
    else CharBytes(name, j, e.unicode3[2 * i - 22], e.unicode3[2 * i - 21])
  }

  /** A piece byte by byte: its number, with bit 6 set in the last one, and its 13 places in order. */
  lemma PieceBytes(e: Entry, name: seq<Byte>, order: nat, last: nat, checksum: Byte)
    requires IsPiece(e, name, order, last, checksum)
    ensures e.order == (if order == last then 64 + order else order) && e.attributes == 0x0F && e.checksum == checksum
    ensures forall i: nat :: i < 13 ==> PlaceHolds(e, i, name, order)
  {
    forall i: nat | i < 13 ensures PlaceHolds(e, i, name, order) {
      assert GetLfnChar(e, i) == Padded(name, PIECE * (order - 1) + i);
    }
  }

  /** The entries in front of `index` hold the name. */
  predicate Holds(entries: seq<Entry>, index: nat, name: seq<Byte>, last: nat, checksum: Byte) {
    && last <= index <= |entries|
    && forall order :: 1 <= order <= last ==> PieceAt(entries, index, order, name, last, checksum)
  }

  predicate PieceAt(entries: seq<Entry>, index: nat, order: nat, name: seq<Byte>, last: nat, checksum: Byte) {
    order <= index <= |entries| && order > 0 && IsPiece(entries[index - order], name, order, last, checksum)
  }

  /** All the characters of the entries in front of `index`, in the order of the name. */
  function Stored(entries: seq<Entry>, index: nat, last: nat): (units: seq<nat>)
    requires last <= index <= |entries| && forall e :: e in entries ==> Shaped(e)
    ensures |units| == PIECE * last
  {
    seq(PIECE * last, j requires 0 <= j < PIECE * last => GetLfnChar(entries[index - j / PIECE - 1], j % PIECE))
  }

  lemma StoredAt(entries: seq<Entry>, index: nat, last: nat, order: nat, i: nat)
    requires last <= index <= |entries| && (forall e :: e in entries ==> Shaped(e)) && 1 <= order <= last && i < PIECE
    ensures PIECE * (order - 1) + i < PIECE * last
    ensures Stored(entries, index, last)[PIECE * (order - 1) + i] == GetLfnChar(entries[index - order], i)
  {
    var j := PIECE * (order - 1) + i;
    assert j / PIECE == order - 1 && j % PIECE == i;
  }

  lemma StoredName(entries: seq<Entry>, index: nat, name: seq<Byte>, last: nat, checksum: Byte)
    requires Holds(entries, index, name, last, checksum) && forall e :: e in entries ==> Shaped(e)
    ensures forall j :: 0 <= j < PIECE * last ==> Stored(entries, index, last)[j] == Padded(name, j)
  {
    forall j | 0 <= j < PIECE * last ensures Stored(entries, index, last)[j] == Padded(name, j) {
      var order := j / PIECE + 1;
      assert PieceAt(entries, index, order, name, last, checksum);
      assert PIECE * (order - 1) + j % PIECE == j;
    }
  }

  // ------------------------------------------------------------ comparing and reading back

  /** The comparison of stored characters with a name. */
  predicate Matches(units: seq<nat>, name: seq<Byte>)
    decreases |units|
  {
    if units == [] then true
    else if name == [] then units[0] == 0
    else units[0] <= 0x7F && Upper(units[0]) == Upper(name[0] as nat) && Matches(units[1..], name[1..])
  }

  /** The name that stored characters read back as, up to the first zero. */
  function Shown(units: seq<nat>): seq<Byte> {
    if units == [] || units[0] == 0 then []
    else [if units[0] >= 0x7F then 63 else units[0] as Byte] + Shown(units[1..])
  }

  /** The same character, apart from the case of A to Z. */
  predicate SameChar(c: nat, d: nat) {
    c == d || (65 <= c <= 90 && d == c + 32) || (65 <= d <= 90 && c == d + 32)
  }

  /** What the comparison finds of any stored characters: each has seven bits and is the name's, and behind
      the name there is a zero, if there is room for one. */
  lemma {:induction false} MatchesMeans(units: seq<nat>, name: seq<Byte>)
    ensures Matches(units, name) <==>
              && (forall j :: 0 <= j < |units| && j < |name| ==> units[j] <= 0x7F && SameChar(units[j], name[j] as nat))
              && (|name| < |units| ==> units[|name|] == 0)
    decreases |units|
  {
    if units != [] && name != [] {
      MatchesMeans(units[1..], name[1..]);
      assert forall j :: 1 <= j < |units| && j < |name| ==> units[j] == units[1..][j - 1] && name[j] == name[1..][j - 1];
      assert forall j :: 0 <= j < |units| - 1 && j < |name| - 1 ==> units[1..][j] == units[j + 1] && name[1..][j] == name[j + 1];
    }
  }

  /** What any stored characters read back as: those in front of the first zero, with a question mark for
      each from 0x7F on. */
  lemma {:induction false} ShownMeans(units: seq<nat>)
    ensures |Shown(units)| <= |units| && (|Shown(units)| < |units| ==> units[|Shown(units)|] == 0)
    ensures forall j :: 0 <= j < |Shown(units)| ==>
              units[j] != 0 && Shown(units)[j] as nat == if units[j] < 0x7F then units[j] else 63
    decreases |units|
  {
    if units != [] && units[0] != 0 {
      ShownMeans(units[1..]);
      assert Shown(units) == [Shown(units)[0]] + Shown(units[1..]);
      assert forall j :: 1 <= j < |Shown(units)| ==> Shown(units)[j] == Shown(units[1..])[j - 1] && units[j] == units[1..][j - 1];
    }
  }

  lemma NoneLeft(name: seq<Byte>)
    ensures Matches([], name) && Shown([]) == []
  {}

  lemma MatchStep(units: seq<nat>, name: seq<Byte>, k: nat)
    requires k < |units| && k <= |name|
    ensures Matches(units[k..], name[k..]) <==>
              if k == |name| then units[k] == 0
              else units[k] <= 0x7F && Upper(units[k]) == Upper(name[k] as nat) && Matches(units[k + 1..], name[k + 1..])
  {
    assert units[k..][1..] == units[k + 1..];
    if k < |name| {
      assert name[k..][1..] == name[k + 1..];
    }
  }

  lemma ShowStep(units: seq<nat>, k: nat)
    requires k < |units|
    ensures Shown(units[k..]) ==
              if units[k] == 0 then [] else [if units[k] >= 0x7F then 63 else units[k] as Byte] + Shown(units[k + 1..])
  {
    assert units[k..][1..] == units[k + 1..];
  }

  lemma RegroupName(a: seq<Byte>, b: seq<Byte>, c: seq<Byte>)
    ensures a + (b + c) == (a + b) + c
  {}

  /** One more character of the name, or its end. */
  lemma ShowNext(units: seq<nat>, name: seq<Byte>)
    requires |name| < |units| && name + Shown(units[|name|..]) == Shown(units)
    ensures var c := units[|name|];
            if c == 0 then name == Shown(units)
            else (name + [if c >= 0x7F then 63 else c as Byte]) + Shown(units[|name| + 1..]) == Shown(units)
                 && |Shown(units)| > |name|
  {
    hide Shown;
    ShowStep(units, |name|);
    var c := units[|name|];
    if c != 0 {
      var next: Byte := if c >= 0x7F then 63 else c as Byte;
      RegroupName(name, [next], Shown(units[|name| + 1..]));
    }
  }

  predicate Holding(units: seq<nat>, name: seq<Byte>) {
    |name| <= |units| && forall j :: 0 <= j < |units| ==> units[j] == Padded(name, j)
  }

  lemma HoldingTail(units: seq<nat>, name: seq<Byte>)
    requires Holding(units, name) && name != []
    ensures Holding(units[1..], name[1..])
  {}

  /** Against a name that needs the same number of entries, the comparison is equality without
      regard to case, whether or not there is room for a terminating zero. */
  lemma {:induction false} MatchIffSame(units: seq<nat>, stored: seq<Byte>, name: seq<Byte>)
    requires Holding(units, stored) && |name| <= |units|
    requires forall i :: 0 <= i < |stored| ==> 0 < stored[i] < 0x80
    requires forall i :: 0 <= i < |name| ==> 0 < name[i] < 0x80
    ensures Matches(units, name) <==> SameName(stored, name)
    decreases |units|
  {
    if units != [] && name != [] && stored != [] {
      HoldingTail(units, stored);
      MatchIffSame(units[1..], stored[1..], name[1..]);
      SameTail(stored, name);
    } else if units != [] && name != [] {
      assert units[0] == 0;
    } else if units != [] && stored != [] {
      assert units[0] == stored[0] as nat;
    }
  }

  lemma SameTail(a: seq<Byte>, b: seq<Byte>)
    requires a != [] && b != []
    ensures SameName(a, b) <==> Upper(a[0] as nat) == Upper(b[0] as nat) && SameName(a[1..], b[1..])
  {
    if Upper(a[0] as nat) == Upper(b[0] as nat) && SameName(a[1..], b[1..]) {
      forall i | 0 <= i < |a| ensures Upper(a[i] as nat) == Upper(b[i] as nat) {
        if i > 0 {
          assert a[i] == a[1..][i - 1] && b[i] == b[1..][i - 1];
        }
      }
    }
  }

  function Visible(name: seq<Byte>): (shown: seq<Byte>)
    ensures |shown| == |name|
  {
    seq(|name|, i requires 0 <= i < |name| => if name[i] >= 0x7F then 63 else name[i])
  }

  lemma {:induction false} ShownIsVisible(units: seq<nat>, name: seq<Byte>)
    requires Holding(units, name) && forall i :: 0 <= i < |name| ==> name[i] != 0
    ensures Shown(units) == Visible(name)
    decreases |units|
  {
    if name != [] {
      HoldingTail(units, name);
      ShownIsVisible(units[1..], name[1..]);
      assert Visible(name) == [Visible(name)[0]] + Visible(name[1..]);
    }
  }

  /** A name reads back as itself exactly when it does not contain the character 0x7F. */
  lemma ReadsBackIff(name: seq<Byte>)
    requires IsName(name)
    ensures Visible(name) == name <==> forall i :: 0 <= i < |name| ==> name[i] != 0x7F
  {
    if Visible(name) == name {
      forall i | 0 <= i < |name| ensures name[i] != 0x7F {
        assert Visible(name)[i] == name[i];
      }
    }
  }

  // ------------------------------------------------------------ the directory

  class Directory {
    const entries: array<Entry>

    ghost predicate Valid()
      reads entries
    {
      forall i :: 0 <= i < entries.Length ==> Shaped(entries[i])
    }

    constructor (e: array<Entry>)
      ensures entries == e
    {
      entries := e;
    }

    /** Fills the 13 places of an entry; gives the place in the name after it, and whether the
        terminating zero has been written. */
    method FillPiece(at: nat, name: seq<Byte>, next: nat, ended: bool, ghost order: nat) returns (next': nat, ended': bool)
      requires Valid() && at < entries.Length && order > 0 && IsName(name)
      requires next == (if PIECE * (order - 1) <= |name| then PIECE * (order - 1) else |name|)
      requires ended <==> PIECE * (order - 1) > |name|
      modifies entries
      ensures Valid()
      ensures next' == (if PIECE * order <= |name| then PIECE * order else |name|)
      ensures ended' <==> PIECE * order > |name|
      ensures forall i :: 0 <= i < PIECE ==> GetLfnChar(entries[at], i) == Padded(name, PIECE * (order - 1) + i)
      ensures entries[at] == old(entries[at]).(unicode1 := entries[at].unicode1, unicode2 := entries[at].unicode2,
                                               unicode3 := entries[at].unicode3)
      ensures forall k :: 0 <= k < entries.Length && k != at ==> entries[k] == old(entries[k])
    {
      next', ended' := next, ended;
      for i := 0 to PIECE
        invariant Valid()
        invariant var j := PIECE * (order - 1) + i;
                  next' == (if j <= |name| then j else |name|) && (ended' <==> j > |name|)
        invariant forall k :: 0 <= k < i ==> GetLfnChar(entries[at], k) == Padded(name, PIECE * (order - 1) + k)
        invariant entries[at] == old(entries[at]).(unicode1 := entries[at].unicode1, unicode2 := entries[at].unicode2,
                                                   unicode3 := entries[at].unicode3)
        invariant forall k :: 0 <= k < entries.Length && k != at ==> entries[k] == old(entries[k])
      {
        var cp: nat;
        if next' == |name| {
          cp := if ended' then 0xFFFF else 0;
          ended' := true;
        } else {
          cp := name[next'] as nat;
          next' := next' + 1;
        }
        forall k | 0 <= k < PIECE
          ensures GetLfnChar(PutLfnChar(entries[at], i, cp), k) == if k == i then cp else GetLfnChar(entries[at], k)
        {
          PutThenGet(entries[at], i, cp, k);
        }
        entries[at] := PutLfnChar(entries[at], i, cp);
      }
    }

    method WritePiece(at: nat, name: seq<Byte>, next: nat, ended: bool, order: nat, last: nat, checksum: Byte)
      returns (next': nat, ended': bool)
      requires Valid() && at < entries.Length && order > 0 && IsName(name)
      requires next == (if PIECE * (order - 1) <= |name| then PIECE * (order - 1) else |name|)
      requires ended <==> PIECE * (order - 1) > |name|
      modifies entries
      ensures Valid()
      ensures next' == (if PIECE * order <= |name| then PIECE * order else |name|)
      ensures ended' <==> PIECE * order > |name|
      ensures IsPiece(entries[at], name, order, last, checksum)
      ensures entries[..] == old(entries[..])[at := entries[at]]
    {
      hide GetLfnChar, Padded, IsName;
      entries[at] := entries[at].(order := OrderOf(order, last), attributes := LONG_NAME, mustBeZero1 := 0,
                                  checksum := checksum, mustBeZero2 := 0);
      next', ended' := FillPiece(at, name, next, ended, order);
    }

    /** Writes the pieces of a name in front of entry `index`. */
    method CreateLfn(index: nat, name: seq<Byte>, checksum: Byte, last: nat)
      requires Valid() && last <= index <= entries.Length && IsName(name)
      modifies entries
      ensures Valid() && Holds(entries[..], index, name, last, checksum)
      ensures forall k :: 0 <= k < entries.Length && !(index - last <= k < index) ==> entries[k] == old(entries[k])
    {
      hide IsPiece, IsName;
      var next, ended := 0, false;
      var order: nat := 1;
      while order <= last
        invariant 1 <= order <= last + 1 && Valid()
        invariant next == (if PIECE * (order - 1) <= |name| then PIECE * (order - 1) else |name|)
        invariant ended <==> PIECE * (order - 1) > |name|
        invariant forall o :: 1 <= o < order ==> PieceAt(entries[..], index, o, name, last, checksum)
        invariant forall k :: 0 <= k < entries.Length && !(index - order < k < index) ==> entries[k] == old(entries[k])
      {
        ghost var before := entries[..];
        next, ended := WritePiece(index - order, name, next, ended, order, last, checksum);
        forall o: nat | 1 <= o < order ensures PieceAt(entries[..], index, o, name, last, checksum) {
          assert PieceAt(before, index, o, name, last, checksum);
        }
        order := order + 1;
      }
    }

    /** Compares the stored name with another; entry by entry and character by character. */
    method CmpName(index: nat, name: seq<Byte>, last: nat) returns (same: bool)
      requires Valid() && last <= index <= entries.Length
      ensures same == Matches(Stored(entries[..], index, last), name)
    {
      hide Stored, GetLfnChar, Matches;
      ghost var units := Stored(entries[..], index, last);
      var next := 0;
      var order: nat := 1;
      while order <= last
        invariant 1 <= order <= last + 1 && next == PIECE * (order - 1) && next <= |name|
        invariant Matches(units, name) == Matches(units[next..], name[next..])
      {
        for i := 0 to PIECE
          invariant next == PIECE * (order - 1) + i && next <= |name|
          invariant Matches(units, name) == Matches(units[next..], name[next..])
        {
          var u := GetLfnChar(entries[index - order], i);
          StoredAt(entries[..], index, last, order, i);
          MatchStep(units, name, next);
          if next == |name| {
            return u == 0;
          }
          if u > 0x7F || Upper(u) != Upper(name[next] as nat) {
            return false;
          }
          next := next + 1;
        }
        order := order + 1;
      }
      assert units[next..] == [];
      NoneLeft(name[next..]);
      return true;
    }

    /** Reads the name of a file; nothing when an entry is not in order or the name does not fit. */
    method GetName7(index: nat, last: nat, size: nat) returns (ok: bool, name: seq<Byte>)
      requires Valid() && last <= index <= entries.Length
      ensures ok ==> name == Shown(Stored(entries[..], index, last)) && (|name| < size || name == [])
      ensures !ok ==> name == []
      ensures ok <==> Readable(entries[..], index, last, size)
    {
      hide Stored, GetLfnChar, Shown, InOrder;
      ghost var units := Stored(entries[..], index, last);
      name := [];
      var order: nat := 1;
      while order <= last
        invariant 1 <= order <= last + 1 && |name| == PIECE * (order - 1) && (|name| < size || name == [])
        invariant name + Shown(units[|name|..]) == Shown(units)
        invariant forall o :: 1 <= o < order ==> InOrder(entries[..], index, o)
      {
        if !InOrder(entries[..], index, order) {
          return false, [];
        }
        var done;
        ok, done, name := ReadPiece(index, last, size, order, name);
        if !ok {
          return false, [];
        }
        if done {
          return true, name;
        }
        order := order + 1;
      }
      assert units[|name|..] == [];
      NoneLeft([]);
      return true, name;
    }

    method ReadPiece(index: nat, last: nat, size: nat, order: nat, start: seq<Byte>) returns (ok: bool, done: bool, name: seq<Byte>)
      requires Valid() && last <= index <= entries.Length && 1 <= order <= last
      requires |start| == PIECE * (order - 1) && (|start| < size || start == [])
      requires start + Shown(Stored(entries[..], index, last)[|start|..]) == Shown(Stored(entries[..], index, last))
      ensures ok ==> |name| < size || name == []
      ensures ok && done ==> name == Shown(Stored(entries[..], index, last)) && |name| < PIECE * order
      ensures ok && !done ==>
                && |name| == PIECE * order
                && name + Shown(Stored(entries[..], index, last)[|name|..]) == Shown(Stored(entries[..], index, last))
      ensures !ok ==> |Shown(Stored(entries[..], index, last))| >= size && Shown(Stored(entries[..], index, last)) != []
    {
      hide Stored, GetLfnChar, Shown;
      ghost var units := Stored(entries[..], index, last);
      name := start;
      for i := 0 to PIECE
        invariant |name| == PIECE * (order - 1) + i && (|name| < size || name == [])
        invariant name + Shown(units[|name|..]) == Shown(units)
      {
        var c := GetLfnChar(entries[index - order], i);
        StoredAt(entries[..], index, last, order, i);
        ShowNext(units, name);
        if c == 0 {
          return true, true, name;
        }
        if |name| + 1 >= size {
          return false, false, name;
        }
        var next: Byte := if c >= 0x7F then 63 else c as Byte;
        name := name + [next];
      }
      return true, false, name;
    }
  }

  predicate InOrder(entries: seq<Entry>, index: nat, order: nat) {
    order <= index <= |entries| && order > 0
    && entries[index - order].attributes == LONG_NAME && entries[index - order].order % 32 == order
  }

  /** Every entry that a name reaches is a long entry with the right number, and the name fits a buffer
      with its terminating zero, or is empty. */
  predicate Readable(entries: seq<Entry>, index: nat, last: nat, size: nat) {
    && last <= index <= |entries| && (forall e :: e in entries ==> Shaped(e))
    && var length := |Shown(Stored(entries, index, last))|;
       && (length < size || length == 0)
       && forall order :: 1 <= order <= last && 13 * (order - 1) <= length ==> InOrder(entries, index, order)
  }

  /** The entries are in order and their name fits a buffer, with its terminating zero. */
  predicate Fits(entries: seq<Entry>, index: nat, last: nat, size: nat) {
    && last <= index <= |entries| && (forall e :: e in entries ==> Shaped(e))
    && |Shown(Stored(entries, index, last))| < size
    && forall order :: 1 <= order <= last ==> InOrder(entries, index, order)
  }

  // ------------------------------------------------------------ the theorems

  lemma StoredHolding(entries: seq<Entry>, index: nat, name: seq<Byte>, checksum: Byte)
    requires IsName(name) && Holds(entries, index, name, Pieces(name), checksum) && forall e :: e in entries ==> Shaped(e)
    ensures Holding(Stored(entries, index, Pieces(name)), name)
  {
    StoredName(entries, index, name, Pieces(name), checksum);
  }

  /** What was created reads back: the name itself, but for characters 0x7F, which show as
      question marks. */
  lemma NameRoundTrip(entries: seq<Entry>, index: nat, name: seq<Byte>, checksum: Byte, size: nat)
    requires IsName(name) && Holds(entries, index, name, Pieces(name), checksum) && forall e :: e in entries ==> Shaped(e)
    ensures Shown(Stored(entries, index, Pieces(name))) == Visible(name)
    ensures Fits(entries, index, Pieces(name), size) <==> |name| < size
    ensures Shown(Stored(entries, index, Pieces(name))) == name <==> forall i :: 0 <= i < |name| ==> name[i] != 0x7F
  {
    StoredHolding(entries, index, name, checksum);
    ShownIsVisible(Stored(entries, index, Pieces(name)), name);
    ReadsBackIff(name);
    forall order: nat | 1 <= order <= Pieces(name) ensures InOrder(entries, index, order) {
      assert PieceAt(entries, index, order, name, Pieces(name), checksum);
    }
  }

  /** A name that does not read back: the single character 0x7F shows as a question mark. */
  lemma NameThatIsLost(entries: seq<Entry>, index: nat, checksum: Byte)
    requires Holds(entries, index, [0x7F], 1, checksum) && forall e :: e in entries ==> Shaped(e)
    ensures Shown(Stored(entries, index, 1)) == ['?' as int as Byte]
  {
    var name: seq<Byte> := [0x7F];
    assert Pieces(name) == 1;
    NameRoundTrip(entries, index, name, checksum, 2);
  }

  /** Comparing what was created with any name that needs as many entries. */
  lemma CompareIffSame(entries: seq<Entry>, index: nat, stored: seq<Byte>, name: seq<Byte>, checksum: Byte)
    requires IsName(stored) && IsName(name) && Pieces(name) == Pieces(stored)
    requires Holds(entries, index, stored, Pieces(stored), checksum) && forall e :: e in entries ==> Shaped(e)
    ensures Matches(Stored(entries, index, Pieces(stored)), name) <==> SameName(stored, name)
  {
    StoredHolding(entries, index, stored, checksum);
    MatchIffSame(Stored(entries, index, Pieces(stored)), stored, name);
  }

  /** Creating a name and reading it again gives the name. */
  method CreateThenRead(directory: Directory, index: nat, name: seq<Byte>, checksum: Byte) returns (ok: bool, read: seq<Byte>)
    requires directory.Valid() && IsName(name) && Pieces(name) <= index <= directory.entries.Length
    modifies directory.entries
    ensures ok && read == Visible(name)
  {
    hide Holds, Stored, Shown, InOrder;
    directory.CreateLfn(index, name, checksum, Pieces(name));
    NameRoundTrip(directory.entries[..], index, name, checksum, 256);
    ok, read := directory.GetName7(index, Pieces(name), 256);
  }
}
