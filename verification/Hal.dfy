/** The receiving side of the serial link (src/HAL.cpp): bytes are taken one at a time from
    the receive queue into a raw buffer, which is parsed after every byte. The theorem is that
    the packets come out whole and in order, however the bytes and the polls interleave. */
module Hal {
  import opened Crc32
  import opened StreamProtocol

  const RAW_SIZE: nat := 256
  const PAYLOAD_CAP: nat := 255
  const FD_STDIN: int := 0

  datatype Option<T> = None | Some(value: T)

  datatype Message = Message(command: bv16, payload: seq<bv8>)

  /** A packet that is ready, and how much of it was read byte by byte. */
  datatype Reading = Reading(message: Message, pos: nat)

  datatype State = State(buffered: seq<bv8>, pending: seq<bv8>, current: Option<Reading>)

  datatype Scanned = Scanned(buffered: seq<bv8>, message: Option<Message>, rest: seq<bv8>)

  function MessageOf(packet: Packet): Message {
    Message(packet.user, if |packet.payload| > PAYLOAD_CAP then packet.payload[..PAYLOAD_CAP] else packet.payload)
  }

  function Joined(buffered: seq<bv8>, b: bv8): (bytes: seq<bv8>)
    ensures bytes != []
  {
    (if |buffered| >= RAW_SIZE then [] else buffered) + [b]
  }

  function Tried(bytes: seq<bv8>): Result {
    if |bytes| < HEADER_SIZE + TRAILER_SIZE then Failed(BufferTooSmall) else Parse(bytes)
  }

  /** Takes bytes from the queue up to the end of a packet, or all of them. */
  function Scan(buffered: seq<bv8>, input: seq<bv8>): Scanned
    decreases |input|
  {
    if input == [] then Scanned(buffered, None, []) else
    var bytes := Joined(buffered, input[0]);
    match Tried(bytes)
    case Parsed(p) => Scanned(if p.length <= |bytes| then bytes[p.length..] else [], Some(MessageOf(p)), input[1..])
    case Failed(BufferTooSmall) => Scan(bytes, input[1..])
    case Failed(_) => Scan([], input[1..])
  }

  // ------------------------------------------------------------ a packet fills the buffer

  /** The bytes in the raw buffer between two polls: too few to be a packet. */
  predicate Hungry(buffered: seq<bv8>) {
    |buffered| <= RAW_SIZE && Tried(buffered) == Failed(BufferTooSmall)
  }

  lemma TriedLength(bytes: seq<bv8>)
    requires Tried(bytes).Parsed?
    ensures HEADER_SIZE + TRAILER_SIZE <= Tried(bytes).packet.length <= |bytes|
    ensures Tried(bytes).packet.length == PacketLength(bytes)
    ensures |Tried(bytes).packet.payload| == Tried(bytes).packet.length - HEADER_SIZE - TRAILER_SIZE
  {}

  /** Whatever bytes arrive, a packet is recognised at its very last byte: nothing of a next
      packet is in the buffer yet, and the payload fits the payload buffer uncut. */
  lemma PacketFillsBuffer(buffered: seq<bv8>, b: bv8)
    requires Hungry(buffered) && Tried(Joined(buffered, b)).Parsed?
    ensures var p := Tried(Joined(buffered, b)).packet;
            && p.length == |Joined(buffered, b)| <= RAW_SIZE
            && MessageOf(p) == Message(p.user, p.payload)
  {
    hide PacketLength, Assemble, Parse;
    var bytes := Joined(buffered, b);
    TriedLength(bytes);
    if PacketLength(bytes) < |bytes| {
      assert bytes[..|bytes| - 1] == buffered;
      assert |buffered| >= HEADER_SIZE + TRAILER_SIZE;
      AssembleSame(buffered, bytes, HEADER_SIZE) by {
        assert buffered[..HEADER_SIZE] == bytes[..HEADER_SIZE];
      }
      SameLength(buffered, bytes);
      LongEnough(buffered);
    }
  }

  lemma SameLength(x: seq<bv8>, y: seq<bv8>)
    requires |x| >= HEADER_SIZE && |y| >= HEADER_SIZE && Assemble(x, HEADER_SIZE) == Assemble(y, HEADER_SIZE)
    ensures PacketLength(x) == PacketLength(y)
  {}

  lemma LongEnough(bytes: seq<bv8>)
    requires |bytes| >= HEADER_SIZE + TRAILER_SIZE && HEADER_SIZE + TRAILER_SIZE <= PacketLength(bytes) <= |bytes|
    ensures Parse(bytes) != Failed(BufferTooSmall)
  {}

  // ------------------------------------------------------------ the receiver

  function Process(s: State): State {
    if s.current.Some? then s else
    var r := Scan(s.buffered, s.pending);
    State(r.buffered, r.rest, if r.message.Some? then Some(Reading(r.message.value, 0)) else None)
  }

  /** Polling for a whole packet. */
  function Poll(s: State): State {
    Process(s).(current := None)
  }

  function Polled(s: State): Option<Message> {
    var c := Process(s).current;
    if c.Some? then Some(c.value.message) else None
  }

  /** Polling for one byte. */
  function ReadOne(s: State): State {
    var t := Process(s);
    match t.current
    case None => t
    case Some(r) => if r.pos < |r.message.payload| then t.(current := Some(r.(pos := r.pos + 1))) else t.(current := None)
  }

  function OneRead(s: State): Option<bv8> {
    match Process(s).current
    case None => None
    case Some(r) => if r.pos < |r.message.payload| then Some(r.message.payload[r.pos]) else None
  }

  class Hal {
    const raw: array<bv8>
    const payload: array<bv8>
    var rawIndex: nat
    var length: nat
    var command: bv16
    var readPos: nat
    var ready: bool
    var pending: seq<bv8>

    ghost predicate Valid()
      reads this, raw, payload
    {
      && raw.Length == RAW_SIZE && payload.Length == PAYLOAD_CAP + 1 && raw != payload
      && rawIndex <= RAW_SIZE && length <= PAYLOAD_CAP
      && Hungry(raw[..rawIndex])
    }

    ghost function Abstract(): State
      reads this, raw, payload
      requires Valid()
    {
      State(raw[..rawIndex], pending,
            if ready then Some(Reading(Message(command, payload[..length]), readPos)) else None)
    }

    constructor ()
      ensures Valid() && fresh(raw) && fresh(payload) && raw.Length == payload.Length == 256
      ensures Abstract() == State([], [], None)
    {
      raw := new bv8[RAW_SIZE];
      payload := new bv8[PAYLOAD_CAP + 1];
      rawIndex, length, command, readPos, ready, pending := 0, 0, 0, 0, false, [];
    }

    /** The hardware appends to the receive queue. */
    method Arrive(bytes: seq<bv8>)
      requires Valid()
      modifies this`pending
      ensures Valid() && Abstract() == old(Abstract()).(pending := old(pending) + bytes)
    {
      pending := pending + bytes;
    }

    /** Drops a packet from the front of the raw buffer and keeps what follows it. */
    method Consume(consumed: nat)
      requires raw.Length == RAW_SIZE && consumed <= rawIndex <= RAW_SIZE
      modifies this`rawIndex, raw
      ensures rawIndex <= RAW_SIZE && raw[..rawIndex] == old(raw[consumed..rawIndex])
    {
      if rawIndex > consumed {
        var remaining := rawIndex - consumed;
        ghost var was := raw[..];
        for i := 0 to remaining
          invariant raw[..i] == was[consumed..consumed + i]
          invariant raw[i..] == was[i..]
        {
          assert raw[consumed + i] == raw[i..][consumed] == was[consumed + i];
          raw[i] := raw[consumed + i];
          assert was[consumed..consumed + i + 1] == was[consumed..consumed + i] + [was[consumed + i]];
        }
        rawIndex := remaining;
      } else {
        rawIndex := 0;
      }
    }

    method StorePacket(p: Packet)
      requires payload.Length == PAYLOAD_CAP + 1
      modifies this`length, this`command, this`readPos, this`ready, payload
      ensures ready && readPos == 0 && length <= PAYLOAD_CAP
      ensures Message(command, payload[..length]) == MessageOf(p)
    {
      command := p.user;
      length := |p.payload|;
      if length > PAYLOAD_CAP {
        length := PAYLOAD_CAP;
      }
      for i := 0 to length
        modifies payload
        invariant payload[..i] == p.payload[..i]
      {
        payload[i] := p.payload[i];
      }
      readPos := 0;
      ready := true;
    }

    /** Puts the byte in the raw buffer, starting over when the buffer is full. */
    method Append(b: bv8)
      requires raw.Length == RAW_SIZE && rawIndex <= RAW_SIZE
      modifies this`rawIndex, raw
      ensures rawIndex <= RAW_SIZE && raw[..rawIndex] == Joined(old(raw[..rawIndex]), b)
    {
      if rawIndex >= RAW_SIZE {
        rawIndex := 0;
      }
      raw[rawIndex] := b;
      rawIndex := rawIndex + 1;
    }

    method ProcessSerial()
      requires Valid()
      modifies this, raw, payload
      ensures Valid() && Abstract() == Process(old(Abstract()))
    {
      hide Parse, HeaderSays, ParsesTo;
      if ready {
        return;
      }
      ghost var goal := Scan(raw[..rawIndex], pending);
      while pending != []
        invariant Valid() && !ready
        invariant Scan(raw[..rawIndex], pending) == goal
        decreases |pending|
      {
        ghost var buffered := raw[..rawIndex];
        var b := pending[0];
        pending := pending[1..];
        Append(b);
        if rawIndex >= HEADER_SIZE + TRAILER_SIZE {
          var result := ParsePacket(raw, rawIndex);
          if result.Parsed? {
            PacketFillsBuffer(buffered, b);
            StorePacket(result.packet);
            Consume(result.packet.length);
            return;
          } else if result.code == BufferTooSmall {
          } else {
            rawIndex := 0;
          }
        }
      }
    }

    /** One byte of the current packet, or -1. */
    method Read(fd: int) returns (result: int)
      requires Valid()
      modifies this, raw, payload
      ensures Valid()
      ensures fd != 0 ==> result == -1 && Abstract() == old(Abstract())
      ensures fd == 0 ==>
                && Abstract() == ReadOne(old(Abstract()))
                && result == (match OneRead(old(Abstract())) case None => -1 case Some(b) => b as int)
    {
      hide Scan, Hungry;
      if fd == FD_STDIN {
        ProcessSerial();
        if ready {
          if readPos < length {
            var b := payload[readPos];
            readPos := readPos + 1;
            return b as int;
          } else {
            ready := false;
          }
        }
      }
      return -1;
    }

    method CopyOut(target: array<bv8>, len: nat)
      requires len <= target.Length && len <= payload.Length && target != payload
      modifies target
      ensures target[..] == payload[..len] + old(target[len..])
    {
      for i := 0 to len
        invariant target[..i] == payload[..i]
        invariant target[i..] == old(target[..])[i..]
      {
        target[i] := payload[i];
      }
      assert target[..] == target[..len] + target[len..];
    }

    /** The whole current packet, cut to the caller's buffer, or -1. */
    method ReadPacket(target: array<bv8>, maxLen: nat) returns (result: int, cmd: bv16)
      requires Valid() && maxLen <= target.Length && target != raw && target != payload
      modifies this, raw, payload, target
      ensures Valid() && Abstract() == Poll(old(Abstract()))
      ensures match Polled(old(Abstract()))
              case None => result == -1 && target[..] == old(target[..])
              case Some(m) =>
                && result == (if |m.payload| > maxLen then maxLen else |m.payload|)
                && cmd == m.command
                && target[..] == m.payload[..result] + old(target[result..])
    {
      hide Scan, Hungry;
      cmd := 0;
      ProcessSerial();
      if ready {
        cmd := command;
        var len := length;
        if len > maxLen {
          len := maxLen;
        }
        CopyOut(target, len);
        ready := false;
        readPos := 0;
        return len, cmd;
      }
      return -1, cmd;
    }
  }

  // ------------------------------------------------------------ delivery

  /** A packet a host may send: with its 12 bytes of header and trailer it fits the 256 of the receiver's
      raw buffer. */
  datatype Sent = Sent(payload: seq<bv8>, fragment: bv8, payloadType: bv8, user: bv16)

  predicate Sendable(m: Sent) {
    FieldsFit(m.fragment, m.payloadType, m.user) && |m.payload| <= 244
  }

  predicate AllSendable(ms: seq<Sent>) {
    forall m :: m in ms ==> Sendable(m)
  }

  function Bytes(m: Sent): (bytes: seq<bv8>)
    ensures |bytes| == HEADER_SIZE + |m.payload| + TRAILER_SIZE
  {
    Encode(m.payload, m.fragment, m.payloadType, m.user)
  }

  function Stream(ms: seq<Sent>): seq<bv8> {
    if ms == [] then [] else Bytes(ms[0]) + Stream(ms[1..])
  }

  function Content(m: Sent): Message {
    Message(m.user, m.payload)
  }

  lemma TryUnfinished(m: Sent, k: nat)
    requires Sendable(m) && k < |Bytes(m)|
    ensures Tried(Bytes(m)[..k]) == Failed(BufferTooSmall)
  {
    hide Parse, Encode;
    ParseUnfinished(m.payload, m.fragment, m.payloadType, m.user, k);
  }

  lemma TryFinished(m: Sent)
    requires Sendable(m)
    ensures Tried(Bytes(m)).Parsed?
    ensures Tried(Bytes(m)).packet.length == |Bytes(m)| && MessageOf(Tried(Bytes(m)).packet) == Content(m)
  {
    hide Parse, Encode;
    ParseEncoded(m.payload, m.fragment, m.payloadType, m.user, []);
    assert Bytes(m) + [] == Bytes(m);
  }

  lemma JoinPacketByte(m: Sent, k: nat)
    requires Sendable(m) && k < |Bytes(m)|
    ensures Joined(Bytes(m)[..k], Bytes(m)[k]) == Bytes(m)[..k + 1]
  {}

  /** With part of a packet in the buffer and not all of the rest in the queue, a scan takes
      the whole queue and finds nothing. */
  lemma {:induction false} ScanUnfinished(m: Sent, k: nat, input: seq<bv8>)
    requires Sendable(m) && k + |input| < |Bytes(m)| && Bytes(m)[k..k + |input|] == input
    ensures Scan(Bytes(m)[..k], input) == Scanned(Bytes(m)[..k + |input|], None, [])
    decreases |input|
  {
    hide Tried, Bytes, Sendable;
    if input != [] {
      assert input[0] == Bytes(m)[k];
      JoinPacketByte(m, k);
      TryUnfinished(m, k + 1);
      ScanUnfinished(m, k + 1, input[1..]);
    }
  }

  /** With the rest of it in the queue, the scan takes exactly the packet. */
  lemma {:induction false} ScanFinished(m: Sent, k: nat, input: seq<bv8>)
    requires Sendable(m) && k < |Bytes(m)| <= k + |input| && Bytes(m)[k..] <= input
    ensures Scan(Bytes(m)[..k], input) == Scanned([], Some(Content(m)), input[|Bytes(m)| - k..])
    decreases |input|
  {
    hide Tried, Bytes, Sendable, Content, MessageOf;
    assert input[0] == Bytes(m)[k..][0] == Bytes(m)[k];
    JoinPacketByte(m, k);
    if k + 1 == |Bytes(m)| {
      assert Bytes(m)[..k + 1] == Bytes(m);
      TryFinished(m);
    } else {
      TryUnfinished(m, k + 1);
      ScanFinished(m, k + 1, input[1..]);
    }
  }

  /** A packet that arrives corrupt: of the length it says, with another checksum. */
  predicate Spoiled(bad: seq<bv8>) {
    12 <= |bad| <= 256 && LengthIn(bad) == |bad| && Parse(bad) == Failed(CrcMismatch)
  }

  /** Every proper beginning of it is still too short. */
  lemma TrySpoiled(bad: seq<bv8>, k: nat)
    requires Spoiled(bad) && k < |bad|
    ensures Tried(bad[..k]) == Failed(BufferTooSmall)
  {
    hide Assemble, Checksum, Word, Version, Fragment, PayloadType, User, LengthIn, HeaderSays;
    if k >= 12 {
      SaidLength(bad);
      assert bad[..k][..8] == bad[..8];
      AssembleSame(bad[..k], bad, 8);
      SameLength(bad[..k], bad);
    }
  }

  lemma SaidLength(data: seq<bv8>)
    requires |data| >= 8
    ensures PacketLength(data) == LengthIn(data)
  {
    hide LengthIn, PacketLength, Assemble, Version, Fragment, PayloadType, User;
    HeaderFields(data);
  }

  lemma {:induction false} ScanSpoiled(bad: seq<bv8>, k: nat, input: seq<bv8>)
    requires Spoiled(bad) && k < |bad| <= k + |input| && bad[k..] <= input
    ensures Scan(bad[..k], input) == Scan([], input[|bad| - k..])
    decreases |input|
  {
    hide Tried, Spoiled, Parse;
    SpoiledFits(bad);
    assert input[0] == bad[k..][0] == bad[k];
    assert Joined(bad[..k], bad[k]) == bad[..k + 1];
    if k + 1 == |bad| {
      assert bad[..k + 1] == bad && input[1..] == input[|bad| - k..];
    } else {
      TrySpoiled(bad, k + 1);
      ScanSpoiled(bad, k + 1, input[1..]);
      assert input[1..][|bad| - (k + 1)..] == input[|bad| - k..];
    }
  }

  lemma SpoiledFits(bad: seq<bv8>)
    requires Spoiled(bad)
    ensures |bad| <= RAW_SIZE && Tried(bad) == Failed(CrcMismatch)
  {
    hide Parse, LengthIn;
  }

  /** A corrupt packet is dropped, wherever its bytes were when the poll came, and the one behind it is
      delivered. */
  lemma SpoiledIsDropped(s: State, bad: seq<bv8>, m: Sent, more: seq<bv8>)
    requires Spoiled(bad) && Sendable(m)
    requires s.current == None && |s.buffered| < |bad| && s.buffered + s.pending == bad + Bytes(m) + more
    ensures Polled(s) == Some(Message(m.user, m.payload)) && Poll(s) == State([], more, None)
  {
    hide Scan, Bytes, Sendable, Spoiled;
    var k, all := |s.buffered|, bad + Bytes(m) + more;
    assert s.buffered == all[..k] == bad[..k] && s.pending == all[k..];
    assert bad[k..] == s.pending[..|bad| - k];
    ScanSpoiled(bad, k, s.pending);
    var rest := s.pending[|bad| - k..];
    assert rest == all[|bad|..] == Bytes(m) + more;
    assert Bytes(m)[..0] == [] && Bytes(m)[0..] == Bytes(m) && rest[..|Bytes(m)|] == Bytes(m);
    ScanFinished(m, 0, rest);
    assert rest[|Bytes(m)| - 0..] == more;
  }

  /** Any burst of up to 32 flipped bits that leaves the length field alone makes such a packet. */
  lemma BurstSpoils(m: Sent, arrived: seq<bv8>, at: nat, e: bv32)
    requires Sendable(m) && Burst(Bytes(m), arrived, at, e)
    requires |arrived| == |Bytes(m)| && LengthIn(arrived) == LengthIn(Bytes(m))
    ensures Spoiled(arrived)
  {
    hide Burst, Parse, Encode, LengthIn, PacketLength;
    TryFinished(m);
    var sent := Bytes(m);
    assert Parse(sent).Parsed?;
    SaidLength(sent);
    SaidLength(arrived);
    ParsedLength(sent);
    BurstIsDetected(sent, arrived, at, e);
  }

  /** Nothing is ready, and what has arrived and was not delivered is the beginning of the
      packets still to be delivered; less than one of them is in the raw buffer. */
  predicate Tracks(s: State, ms: seq<Sent>) {
    && AllSendable(ms)
    && s.current == None
    && s.buffered + s.pending <= Stream(ms)
    && (if ms == [] then s.buffered == [] else |s.buffered| < |Bytes(ms[0])|)
  }

  function Arrived(s: State): nat {
    |s.buffered| + |s.pending|
  }

  /** A poll delivers the next packet if and only if all its bytes have arrived. */
  lemma PollDelivers(s: State, ms: seq<Sent>)
    requires Tracks(s, ms)
    ensures ms != [] && Arrived(s) >= |Bytes(ms[0])| ==>
              && Polled(s) == Some(Content(ms[0]))
              && Tracks(Poll(s), ms[1..]) && Arrived(Poll(s)) == Arrived(s) - |Bytes(ms[0])|
    ensures !(ms != [] && Arrived(s) >= |Bytes(ms[0])|) ==>
              && Polled(s) == None
              && Tracks(Poll(s), ms) && Arrived(Poll(s)) == Arrived(s)
  {
    hide Scan, Bytes, Sendable;
    var all := s.buffered + s.pending;
    if ms == [] {
      assert all == [];
      ScanNothing();
    } else {
      var m, k := ms[0], |s.buffered|;
      assert Sendable(m);
      var stream := Stream(ms);
      assert stream == Bytes(m) + Stream(ms[1..]);
      assert s.buffered == all[..k] == stream[..k] == Bytes(m)[..k];
      assert s.pending == all[k..] == stream[k..|all|];
      if |all| >= |Bytes(m)| {
        assert Bytes(m)[k..] == s.pending[..|Bytes(m)| - k];
        ScanFinished(m, k, s.pending);
        assert s.pending[|Bytes(m)| - k..] == all[|Bytes(m)|..] == stream[|Bytes(m)|..|all|];
        assert stream[|Bytes(m)|..] == Stream(ms[1..]);
        NoBytesBuffered(Poll(s), ms[1..]);
      } else {
        assert s.pending == Bytes(m)[k..k + |s.pending|];
        ScanUnfinished(m, k, s.pending);
      }
    }
  }

  lemma NoBytesBuffered(s: State, ms: seq<Sent>)
    requires AllSendable(ms) && s.current == None && s.buffered == [] && s.pending <= Stream(ms)
    ensures Tracks(s, ms)
  {
    assert s.buffered + s.pending == s.pending;
  }

  lemma ScanNothing()
    ensures Scan([], []) == Scanned([], None, [])
  {}

  datatype Event = ArriveEvent(bytes: seq<bv8>) | PollEvent

  /** The answers of the polls of a run. */
  function Answers(s: State, events: seq<Event>): seq<Option<Message>>
    decreases |events|
  {
    if events == [] then [] else
    match events[0]
    case ArriveEvent(bytes) => Answers(s.(pending := s.pending + bytes), events[1..])
    case PollEvent => [Polled(s)] + Answers(Poll(s), events[1..])
  }

  function Arrivals(events: seq<Event>): seq<bv8> {
    if events == [] then [] else
    match events[0]
    case ArriveEvent(bytes) => bytes + Arrivals(events[1..])
    case PollEvent => Arrivals(events[1..])
  }

  /** What the polls of a perfect link answer: a packet is deliverable once all of its bytes
      have arrived, and every poll delivers at most one. */
  function Perfect(arrived: nat, ms: seq<Sent>, events: seq<Event>): seq<Option<Message>>
    decreases |events|
  {
    if events == [] then [] else
    match events[0]
    case ArriveEvent(bytes) => Perfect(arrived + |bytes|, ms, events[1..])
    case PollEvent =>
      if ms != [] && arrived >= |Bytes(ms[0])|
      then [Some(Content(ms[0]))] + Perfect(arrived - |Bytes(ms[0])|, ms[1..], events[1..])
      else [None] + Perfect(arrived, ms, events[1..])
  }

  /** For every list of packets and every interleaving of the arrival of their bytes with
      polls, the polls answer as those of a perfect link. */
  lemma {:induction false} DeliveryFrom(s: State, ms: seq<Sent>, events: seq<Event>)
    requires Tracks(s, ms) && s.buffered + s.pending + Arrivals(events) <= Stream(ms)
    ensures Answers(s, events) == Perfect(Arrived(s), ms, events)
    decreases |events|
  {
    hide Bytes, Process, Sendable;
    if events != [] {
      var rest := events[1..];
      match events[0] {
        case ArriveEvent(bytes) =>
          var t := s.(pending := s.pending + bytes);
          assert s.buffered + s.pending + Arrivals(events) == t.buffered + t.pending + Arrivals(rest);
          PrefixOfPrefix(t.buffered + t.pending, Arrivals(rest), Stream(ms));
          DeliveryFrom(t, ms, rest);
        case PollEvent =>
          PollDelivers(s, ms);
          PollKeepsStream(s, ms, Arrivals(rest));
          if ms != [] && Arrived(s) >= |Bytes(ms[0])| {
            DeliveryFrom(Poll(s), ms[1..], rest);
          } else {
            DeliveryFrom(Poll(s), ms, rest);
          }
      }
    }
  }

  lemma PrefixOfPrefix(a: seq<bv8>, b: seq<bv8>, whole: seq<bv8>)
    requires a + b <= whole
    ensures a <= whole
  {
    assert a == (a + b)[..|a|];
  }

  lemma CutPrefix(all: seq<bv8>, later: seq<bv8>, head: seq<bv8>, more: seq<bv8>, now: seq<bv8>)
    requires all + later <= head + more && |now| + |head| == |all| && now <= more
    ensures now + later <= more
  {
    forall i | 0 <= i < |now + later| ensures (now + later)[i] == more[i] {
      if i >= |now| {
        assert (all + later)[|head| + i] == (head + more)[|head| + i];
      }
    }
  }

  lemma SamePrefix(a: seq<bv8>, b: seq<bv8>, whole: seq<bv8>)
    requires a <= whole && b <= whole && |a| == |b|
    ensures a == b
  {
    assert a == whole[..|a|] == b;
  }

  lemma PollKeepsStream(s: State, ms: seq<Sent>, later: seq<bv8>)
    requires Tracks(s, ms) && s.buffered + s.pending + later <= Stream(ms)
    ensures if ms != [] && Arrived(s) >= |Bytes(ms[0])|
            then Poll(s).buffered + Poll(s).pending + later <= Stream(ms[1..])
            else Poll(s).buffered + Poll(s).pending + later <= Stream(ms)
  {
    hide Bytes, Process, Sendable, Poll, Polled, AllSendable;
    PollDelivers(s, ms);
    var all, now := s.buffered + s.pending, Poll(s).buffered + Poll(s).pending;
    if ms != [] && Arrived(s) >= |Bytes(ms[0])| {
      CutPrefix(all, later, Bytes(ms[0]), Stream(ms[1..]), now);
    } else {
      SamePrefix(now, all, Stream(ms));
    }
  }

  /** From an empty receiver. */
  lemma Delivery(ms: seq<Sent>, events: seq<Event>)
    requires AllSendable(ms) && Arrivals(events) <= Stream(ms)
    ensures Answers(State([], [], None), events) == Perfect(0, ms, events)
  {
    hide Answers, Perfect, Arrivals, Stream, Bytes, Sendable;
    var s := State([], [], None);
    assert s.buffered + s.pending == [];
    assert s.buffered + s.pending + Arrivals(events) == Arrivals(events);
    NoBytesBuffered(s, ms);
    DeliveryFrom(s, ms, events);
  }

  function Delivered(answers: seq<Option<Message>>): seq<Message> {
    if answers == [] then []
    else if answers[0].Some? then [answers[0].value] + Delivered(answers[1..])
    else Delivered(answers[1..])
  }

  function Contents(ms: seq<Sent>): (contents: seq<Message>)
    ensures |contents| == |ms|
  {
    seq(|ms|, i requires 0 <= i < |ms| => Content(ms[i]))
  }

  function Polls(events: seq<Event>): nat {
    if events == [] then 0 else (if events[0].PollEvent? then 1 else 0) + Polls(events[1..])
  }

  lemma {:induction false} PerfectInOrder(arrived: nat, ms: seq<Sent>, events: seq<Event>)
    ensures Delivered(Perfect(arrived, ms, events)) <= Contents(ms)
    decreases |events|
  {
    hide Bytes;
    if events != [] && events[0].PollEvent? && ms != [] && arrived >= |Bytes(ms[0])| {
      var more := arrived - |Bytes(ms[0])|;
      PerfectInOrder(more, ms[1..], events[1..]);
      assert Contents(ms) == [Content(ms[0])] + Contents(ms[1..]);
      assert Perfect(arrived, ms, events)[1..] == Perfect(more, ms[1..], events[1..]);
    } else if events != [] && events[0].PollEvent? {
      PerfectInOrder(arrived, ms, events[1..]);
      assert Perfect(arrived, ms, events)[1..] == Perfect(arrived, ms, events[1..]);
    } else if events != [] {
      PerfectInOrder(arrived + |events[0].bytes|, ms, events[1..]);
    }
  }

  /** The packets come out whole, unchanged, without repetition and in order. */
  lemma DeliveredInOrder(ms: seq<Sent>, events: seq<Event>)
    requires AllSendable(ms) && Arrivals(events) <= Stream(ms)
    ensures Delivered(Answers(State([], [], None), events)) <= Contents(ms)
  {
    Delivery(ms, events);
    PerfectInOrder(0, ms, events);
  }

  lemma {:induction false} PerfectCompletes(arrived: nat, ms: seq<Sent>, events: seq<Event>)
    requires arrived >= |Stream(ms)| && Polls(events) >= |ms|
    ensures Delivered(Perfect(arrived, ms, events)) == Contents(ms)
    decreases |events|
  {
    hide Bytes;
    if ms == [] {
      PerfectInOrder(arrived, ms, events);
    } else if events[0].PollEvent? {
      var more := arrived - |Bytes(ms[0])|;
      assert |Stream(ms)| == |Bytes(ms[0])| + |Stream(ms[1..])|;
      PerfectCompletes(more, ms[1..], events[1..]);
      assert Contents(ms) == [Content(ms[0])] + Contents(ms[1..]);
      assert Perfect(arrived, ms, events)[1..] == Perfect(more, ms[1..], events[1..]);
    } else {
      PerfectCompletes(arrived + |events[0].bytes|, ms, events[1..]);
    }
  }

  /** Once every byte has arrived, one poll per packet delivers whatever was not delivered. */
  lemma {:induction false} AllDelivered(s: State, ms: seq<Sent>, events: seq<Event>)
    requires Tracks(s, ms) && Arrived(s) == |Stream(ms)| && Arrivals(events) == [] && Polls(events) >= |ms|
    ensures Delivered(Answers(s, events)) == Contents(ms)
  {
    assert s.buffered + s.pending + [] == s.buffered + s.pending;
    DeliveryFrom(s, ms, events);
    PerfectCompletes(Arrived(s), ms, events);
  }

  // ------------------------------------------------------------ reading byte by byte

  function Payloads(ms: seq<Sent>): seq<bv8> {
    if ms == [] then [] else ms[0].payload + Payloads(ms[1..])
  }

  /** The bytes that reads will still give: the rest of the packet being read, and the
      payloads of the packets that were not taken yet. */
  function Unread(s: State, ms: seq<Sent>): seq<bv8> {
    match s.current
    case None => Payloads(ms)
    case Some(r) => (if r.pos <= |r.message.payload| then r.message.payload[r.pos..] else []) + Payloads(ms)
  }

  predicate Reads(s: State, ms: seq<Sent>) {
    Tracks(s.(current := None), ms)
  }

  /** The packets not yet taken after a read. */
  function StillToTake(s: State, ms: seq<Sent>): seq<Sent> {
    if s.current == None && ms != [] && Arrived(s) >= |Bytes(ms[0])| then ms[1..] else ms
  }

  /** A read gives the next unread byte, or nothing and loses none. */
  lemma ReadGivesNext(s: State, ms: seq<Sent>)
    requires Reads(s, ms)
    ensures Reads(ReadOne(s), StillToTake(s, ms))
    ensures Unread(s, ms) == match OneRead(s)
                             case None => Unread(ReadOne(s), StillToTake(s, ms))
                             case Some(b) => [b] + Unread(ReadOne(s), StillToTake(s, ms))
  {
    hide Scan, Bytes, Stream, Sendable;
    if s.current == None {
      PollDelivers(s, ms);
    }
  }

  function BytesRead(s: State, events: seq<Event>): seq<bv8>
    decreases |events|
  {
    if events == [] then [] else
    match events[0]
    case ArriveEvent(bytes) => BytesRead(s.(pending := s.pending + bytes), events[1..])
    case PollEvent => (if OneRead(s).Some? then [OneRead(s).value] else []) + BytesRead(ReadOne(s), events[1..])
  }

  /** Read one byte at a time, under any interleaving, the packets' payloads come out in order,
      each byte once. */
  lemma {:induction false} ReadInOrder(s: State, ms: seq<Sent>, events: seq<Event>)
    requires Reads(s, ms) && s.buffered + s.pending + Arrivals(events) <= Stream(ms)
    ensures BytesRead(s, events) <= Unread(s, ms)
    decreases |events|
  {
    hide Bytes, Process, Sendable, Stream, OneRead, ReadOne, Unread;
    if events != [] {
      var rest := events[1..];
      match events[0] {
        case ArriveEvent(bytes) =>
          var t := s.(pending := s.pending + bytes);
          assert s.buffered + s.pending + Arrivals(events) == t.buffered + t.pending + Arrivals(rest);
          PrefixOfPrefix(t.buffered + t.pending, Arrivals(rest), Stream(ms));
          ReadInOrder(t, ms, rest);
          SameUnread(s, t, ms);
        case PollEvent =>
          ReadGivesNext(s, ms);
          ReadKeepsStream(s, ms, Arrivals(rest));
          ReadInOrder(ReadOne(s), StillToTake(s, ms), rest);
      }
    }
  }

  lemma SameUnread(s: State, t: State, ms: seq<Sent>)
    requires s.current == t.current
    ensures Unread(s, ms) == Unread(t, ms)
  {}

  lemma ReadKeepsStream(s: State, ms: seq<Sent>, later: seq<bv8>)
    requires Reads(s, ms) && s.buffered + s.pending + later <= Stream(ms)
    ensures ReadOne(s).buffered + ReadOne(s).pending + later <= Stream(StillToTake(s, ms))
  {
    hide Scan, Bytes, Stream, Sendable;
    if s.current == None {
      PollKeepsStream(s, ms, later);
    }
  }
}
