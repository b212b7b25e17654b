/**
 A netlink connection: one buffer shared by sending and receiving, the datagrams
 the socket is going to deliver, and the log of everything sent. The datagrams
 are arbitrary, so a property proved here holds for every behaviour of the peer.
 */
module Connection {
  import opened Words
  import opened Netlink

  const MAX_AUDIT_MESSAGE_LENGTH := 8970
  const BUFFER_SIZE := NLMSG_HDRLEN + MAX_AUDIT_MESSAGE_LENGTH
  const REQUEST_ACK: uint16 := 5
  const AUDIT_GET: uint16 := 1000
  const AUDIT_FIRST_USER_MSG: uint16 := 1100
  const EEXIST: uint32 := 17

  /** The value of a connection: buffer contents, pending datagrams, sent wire images, sequence counter. */
  datatype World = World(mem: bytes, incoming: seq<bytes>, sent: seq<bytes>, counter: uint32)

  ghost predicate Open(w: World) {
    NLMSG_HDRLEN <= |w.mem|
  }

  // ---------------------------------------------------------------------------
  // Sending
  // ---------------------------------------------------------------------------

  /** The header of a new request; every request takes the next sequence number, modulo 2^32. */
  function RequestHeader(typ: uint16, size: nat, counter: uint32): Header {
    Header((NLMSG_HDRLEN + size) % 0x1_0000_0000, typ, REQUEST_ACK, (counter + 1) % 0x1_0000_0000, 0)
  }

  /**
   Effect of serializing into the shared buffer: the header lands at its start,
   the data behind it when it fits; otherwise the append moves to a new array.
   */
  function Serialized(mem: bytes, h: Header, data: bytes): (mem': bytes)
    requires NLMSG_HDRLEN <= |mem|
    ensures |mem'| == |mem|
  {
    if NLMSG_HDRLEN + |data| <= |mem|
    then HeaderBytes(h) + data + mem[NLMSG_HDRLEN + |data|..]
    else HeaderBytes(h) + mem[NLMSG_HDRLEN..]
  }

  /** Whatever is sent, the buffer beyond the end of the wire image keeps its bytes. */
  lemma SerializedKeeps(mem: bytes, h: Header, data: bytes, from: nat)
    requires NLMSG_HDRLEN <= |mem| && NLMSG_HDRLEN + |data| <= from <= |mem|
    ensures Serialized(mem, h, data)[from..] == mem[from..]
  {
    hide HeaderBytes;
  }

  /** When it fits, the whole wire image stands at the start of the buffer. */
  lemma SerializedHolds(mem: bytes, h: Header, data: bytes)
    requires NLMSG_HDRLEN + |data| <= |mem|
    ensures HeaderBytes(h) + data <= Serialized(mem, h, data)
  {
    hide HeaderBytes;
  }

  function Sent(w: World, typ: uint16, data: bytes): (w': World)
    requires Open(w)
    ensures Open(w') && |w'.mem| == |w.mem| && w'.incoming == w.incoming
  {
    var h := RequestHeader(typ, |data|, w.counter);
    World(Serialized(w.mem, h, data), w.incoming, w.sent + [HeaderBytes(h) + data], h.seq_)
  }

  /** A request on the wire: its own length, type, REQUEST and ACK flags, sequence number, pid zero, then the data. */
  ghost predicate Request(wire: bytes, typ: uint16, data: bytes, seq_: uint32) {
    && |wire| == 16 + |data| && wire[16..] == data
    && Word32At(wire, 0) == |wire| % 0x1_0000_0000 && Word16At(wire, 4) == typ && Word16At(wire, 6) == 5
    && Word32At(wire, 8) == seq_ && Word32At(wire, 12) == 0
  }

  /** Sending puts one request on the wire, numbered next; the rest of the state follows from it. */
  lemma SentRequest(w: World, typ: uint16, data: bytes) returns (wire: bytes)
    requires Open(w)
    ensures var w' := Sent(w, typ, data);
            && w'.sent == w.sent + [wire] && w'.counter == (w.counter + 1) % 0x1_0000_0000
            && Request(wire, typ, data, w'.counter)
            && (|wire| <= |w.mem| ==> wire <= w'.mem)
  {
    hide HeaderBytes, Serialized, Word32At, Word16At;
    var h := RequestHeader(typ, |data|, w.counter);
    wire := HeaderBytes(h) + data;
    assert [] + HeaderBytes(h) + data == wire;
    HeaderRoundTrip([], h, data);
    assert HeaderAt(wire, 0) == h;
    if |wire| <= |w.mem| { SerializedHolds(w.mem, h, data); }
  }

  // ---------------------------------------------------------------------------
  // Receiving
  // ---------------------------------------------------------------------------

  /** A datagram is copied to the start of the buffer, cut off at its end; old bytes stay behind it. */
  function Landed(mem: bytes, d: bytes): (mem': bytes)
    ensures |mem'| == |mem|
  {
    if |d| <= |mem| then d + mem[|d|..] else d[..|mem|]
  }

  function LandedLength(mem: bytes, d: bytes): (n: nat)
    ensures n <= |mem|
  {
    if |d| <= |mem| then |d| else |mem|
  }

  function Arrived(w: World): (w': World)
    requires w.incoming != []
    ensures |w'.mem| == |w.mem|
  {
    w.(mem := Landed(w.mem, w.incoming[0]), incoming := w.incoming[1..])
  }

  /** ParseAuditNetlinkMessage on the datagram, except that one shorter than a header yields no messages. */
  function ReceivedMessages(mem: bytes, n: nat): ParseResult
    requires n <= |mem|
  {
    if n < NLMSG_HDRLEN then Messages([]) else ParseOutcome(Walk(mem, 0, n))
  }

  class NetlinkConnection {
    const rb: array<byte>
    var incoming: seq<bytes>
    var sent: seq<bytes>
    var sequenceNumber: uint32
    const socketPid: uint32

    ghost predicate Valid() {
      NLMSG_HDRLEN <= rb.Length
    }

    ghost function View(): World
      reads this, rb
    {
      World(rb[..], incoming, sent, sequenceNumber)
    }

    constructor (pid: uint32, datagrams: seq<bytes>)
      ensures Valid() && fresh(rb) && rb.Length == BUFFER_SIZE && socketPid == pid
      ensures View() == World(Zeros(BUFFER_SIZE), datagrams, [], 0)
    {
      rb := new byte[BUFFER_SIZE](_ => 0);
      incoming, sent, sequenceNumber, socketPid := datagrams, [], 0, pid;
      new;
      assert rb[..] == Zeros(BUFFER_SIZE);
    }

    /** newNetlinkAuditRequest, ToWireFormat and Send: builds a request around `data` and sends it. */
    method Send(typ: uint16, data: bytes) returns (seq_: uint32)
      requires Valid()
      modifies this, rb
      ensures View() == Sent(old(View()), typ, data) && seq_ == sequenceNumber
    {
      hide HeaderBytes;
      var h := RequestHeader(typ, |data|, sequenceNumber);
      sequenceNumber := h.seq_;
      var head := HeaderBytes(h);
      forall i | 0 <= i < NLMSG_HDRLEN { rb[i] := head[i]; }
      if NLMSG_HDRLEN + |data| <= rb.Length {
        forall i | 0 <= i < |data| { rb[NLMSG_HDRLEN + i] := data[i]; }
      }
      assert rb[..] == Serialized(old(rb[..]), h, data);
      sent := sent + [head + data];
      seq_ := h.seq_;
    }

    /** ReceiveNoParse: `None` when the system call fails, otherwise the number of bytes received. */
    method ReceiveNoParse() returns (n: Option<nat>)
      requires Valid()
      modifies this, rb
      ensures old(incoming) == [] ==> n == None && View() == old(View())
      ensures old(incoming) != [] ==>
        && n == Some(LandedLength(old(rb[..]), old(incoming[0])))
        && View() == Arrived(old(View()))
    {
      if incoming == [] { return None; }
      var d := incoming[0];
      var nr := if |d| <= rb.Length then |d| else rb.Length;
      forall i | 0 <= i < nr { rb[i] := d[i]; }
      assert rb[..] == Landed(old(rb[..]), d);
      incoming := incoming[1..];
      n := Some(nr);
    }
  }

  // ---------------------------------------------------------------------------
  // Waiting for a reply
  // ---------------------------------------------------------------------------

  /**
   What the reply loop meets in a datagram: a message with the error code that
   stands behind its header (if the buffer reaches that far), a header whose
   length is unusable, or a message whose padding runs past the datagram.
   */
  datatype Event = Reply(h: Header, code: Option<uint32>) | Unreadable | Overshoot

  function CodeAt(mem: bytes, lo: nat): Option<uint32> {
    if lo + 4 <= |mem| then Some(Word32At(mem, lo)) else None
  }

  function Events(mem: bytes, pos: nat, end: nat): seq<Event>
    requires pos <= end <= |mem|
    decreases end - pos
  {
    if end - pos < NLMSG_HDRLEN then []
    else
      var h := HeaderAt(mem, pos);
      if !GoodLength(h, end - pos) then [Unreadable]
      else
        [Reply(h, CodeAt(mem, pos + NLMSG_HDRLEN))] +
        if pos + NlmAlignOf(h.len) > end then [Overshoot] else Events(mem, pos + NlmAlignOf(h.len), end)
  }

  /** The code of an error message without payload is whatever the buffer held behind the datagram. */
  lemma StaleErrorCode(mem: bytes, h: Header)
    requires h.len == NLMSG_HDRLEN && NLMSG_HDRLEN <= |mem|
    ensures |HeaderBytes(h)| <= |mem|
    ensures Events(Landed(mem, HeaderBytes(h)), 0, NLMSG_HDRLEN) ==
            [Reply(h, if 20 <= |mem| then Some(Word32At(mem, 16)) else None)]
  {
    hide HeaderBytes, HeaderAt;
    var mem' := Landed(mem, HeaderBytes(h));
    assert mem' == [] + HeaderBytes(h) + mem[16..];
    HeaderRoundTrip([], h, mem[16..]);
    assert Events(mem', 16, 16) == [];
    if 20 <= |mem| { assert forall i :: 16 <= i < 20 ==> mem'[i] == mem[i]; }
  }

  /** The event of a collected message: its header and the code at its offset. */
  function EventOf(mem: bytes, m: Message): Event {
    Reply(m.h, CodeAt(mem, m.lo))
  }

  /**
   The reply loop is a third walk over the same bytes. Where the collecting walk
   does not panic, it meets the same headers at the same offsets, in order, and
   then an unreadable header exactly if the collecting walk ends at one.
   */
  lemma {:induction false} EventsAgree(mem: bytes, pos: nat, end: nat)
    requires pos <= end <= |mem| && Walk(mem, pos, end).ending != Panicked
    ensures var es, w := Events(mem, pos, end), Walk(mem, pos, end);
            && |es| == |w.msgs| + (if w.ending == BadHeader then 1 else 0)
            && (forall i :: 0 <= i < |w.msgs| ==> es[i] == EventOf(mem, w.msgs[i]))
            && (w.ending == BadHeader ==> es[|w.msgs|] == Unreadable)
    decreases end - pos
  {
    hide HeaderAt, CodeAt;
    var r := RoundAt(mem, pos, end);
    if r.Next? {
      EventsAgree(mem, r.next, end);
      var es, rest := Events(mem, pos, end), Events(mem, r.next, end);
      var w, w' := Walk(mem, pos, end), Walk(mem, r.next, end);
      assert es == [EventOf(mem, r.m)] + rest;
      forall i | 0 <= i < |w.msgs| ensures es[i] == EventOf(mem, w.msgs[i]) {
        if i > 0 { assert es[i] == rest[i - 1] && w.msgs[i] == w'.msgs[i - 1]; }
      }
    }
  }

  /** The events of all datagrams still to come, as one stream. */
  function AllEvents(mem: bytes, incoming: seq<bytes>): seq<Event>
    decreases |incoming|
  {
    if incoming == [] then []
    else
      var mem' := Landed(mem, incoming[0]);
      Events(mem', 0, LandedLength(mem, incoming[0])) + AllEvents(mem', incoming[1..])
  }

  datatype Verdict =
    | Accepted | KernelError(code: uint32) | WrongSeq | WrongPid | BadReply | ReceiveFailed | EntryDeprecated | Panics

  /** Verdict on an error message: codes 0 and 17 count as success. */
  function OnError(code: Option<uint32>): Verdict {
    match code
    case None => Panics
    case Some(c) => if c == 0 || c == EEXIST then Accepted else KernelError(c)
  }

  /** Only the numbers 0 and 17 are accepted; the kernel's own -EEXIST, read as an unsigned word, is not. */
  lemma ErrorVerdicts(h: Header, code: uint32, expected: uint32, pid: uint32)
    requires h.typ == NLMSG_ERROR && (h.seq_ == expected ==> h.pid == pid)
    ensures Decide(Reply(h, Some(code)), expected, pid) == Some(Accepted) <==> code == 0 || code == 17
    ensures Decide(Reply(h, Some(0x1_0000_0000 - 17)), expected, pid) == Some(KernelError(0x1_0000_0000 - 17))
  {
  }

  /** The verdict an event brings about, or `None` when the loop goes on. */
  function Decide(e: Event, expected: uint32, pid: uint32): Option<Verdict> {
    match e
    case Unreadable => Some(BadReply)
    case Overshoot => Some(Panics)
    case Reply(h, code) =>
      if h.seq_ != expected then
        if h.typ > AUDIT_FIRST_USER_MSG then Some(Accepted)
        else if h.typ == NLMSG_ERROR then Some(OnError(code))
        else Some(WrongSeq)
      else if h.pid != pid then Some(WrongPid)
      else if h.typ == NLMSG_DONE then Some(Accepted)
      else if h.typ == NLMSG_ERROR then Some(OnError(code))
      else if h.typ == AUDIT_GET then Some(Accepted)
      else None
  }

  /** The verdict of the first decisive event of a stream. */
  function FirstVerdict(es: seq<Event>, expected: uint32, pid: uint32): Option<Verdict> {
    if es == [] then None
    else if Decide(es[0], expected, pid).Some? then Decide(es[0], expected, pid)
    else FirstVerdict(es[1..], expected, pid)
  }

  /** The reply loop: datagram by datagram until one of them decides. */
  function Replied(w: World, expected: uint32, pid: uint32): (r: (World, Verdict))
    ensures |r.0.mem| == |w.mem| && r.0.sent == w.sent && r.0.counter == w.counter
    ensures |r.0.incoming| <= |w.incoming| && r.0.incoming == w.incoming[|w.incoming| - |r.0.incoming|..]
    decreases |w.incoming|
  {
    if w.incoming == [] then (w, ReceiveFailed)
    else
      var w' := Arrived(w);
      match FirstVerdict(Events(w'.mem, 0, LandedLength(w.mem, w.incoming[0])), expected, pid)
      case Some(v) => (w', v)
      case None => Replied(w', expected, pid)
  }

  lemma {:induction false} FirstVerdictSplit(a: seq<Event>, b: seq<Event>, expected: uint32, pid: uint32)
    ensures FirstVerdict(a + b, expected, pid) ==
            if FirstVerdict(a, expected, pid).Some? then FirstVerdict(a, expected, pid)
            else FirstVerdict(b, expected, pid)
    decreases |a|
  {
    if a == [] {
      assert a + b == b;
    } else {
      assert (a + b)[1..] == a[1..] + b;
      FirstVerdictSplit(a[1..], b, expected, pid);
    }
  }

  /** A message the loop steps over. */
  ghost predicate SteppedOver(e: Event, expected: uint32, pid: uint32) {
    && e.Reply? && e.h.seq_ == expected && e.h.pid == pid
    && e.h.typ != NLMSG_DONE && e.h.typ != NLMSG_ERROR && e.h.typ != AUDIT_GET
  }

  lemma {:induction false} FirstVerdictIs(es: seq<Event>, expected: uint32, pid: uint32) returns (k: nat)
    ensures k <= |es|
    ensures forall i :: 0 <= i < k ==> SteppedOver(es[i], expected, pid)
    ensures FirstVerdict(es, expected, pid) == if k < |es| then Decide(es[k], expected, pid) else None
    ensures k < |es| ==> Decide(es[k], expected, pid).Some?
  {
    if es == [] || Decide(es[0], expected, pid).Some? {
      k := 0;
    } else {
      var j := FirstVerdictIs(es[1..], expected, pid);
      k := j + 1;
      forall i | 0 <= i < k ensures SteppedOver(es[i], expected, pid) {
        if i > 0 { assert es[i] == es[1..][i - 1]; }
      }
    }
  }

  /**
   The nested loops give the verdict of the first decisive event of the
   flattened stream of all datagrams, wherever the datagram boundaries lie, and
   everything before it was a message with the expected sequence number and pid
   that is neither DONE, ERROR nor AUDIT_GET.
   */
  lemma {:induction false} ReplyIsFlat(w: World, expected: uint32, pid: uint32) returns (k: nat)
    ensures var es := AllEvents(w.mem, w.incoming);
            && k <= |es|
            && (forall i :: 0 <= i < k ==> SteppedOver(es[i], expected, pid))
            && (k < |es| ==> Decide(es[k], expected, pid) == Some(Replied(w, expected, pid).1))
            && (k == |es| ==> Replied(w, expected, pid).1 == ReceiveFailed)
  {
    ReplyIsFirstVerdict(w, expected, pid);
    k := FirstVerdictIs(AllEvents(w.mem, w.incoming), expected, pid);
  }

  lemma {:induction false} ReplyIsFirstVerdict(w: World, expected: uint32, pid: uint32)
    ensures var first := FirstVerdict(AllEvents(w.mem, w.incoming), expected, pid);
            Replied(w, expected, pid).1 == if first.Some? then first.value else ReceiveFailed
    decreases |w.incoming|
  {
    hide Events, Decide;
    if w.incoming != [] {
      var w' := Arrived(w);
      var n := LandedLength(w.mem, w.incoming[0]);
      FirstVerdictSplit(Events(w'.mem, 0, n), AllEvents(w'.mem, w'.incoming), expected, pid);
      ReplyIsFirstVerdict(w', expected, pid);
    }
  }

  /** A datagram too short for a header is passed over. */
  lemma ShortDatagramIgnored(w: World, expected: uint32, pid: uint32)
    requires w.incoming != [] && |w.incoming[0]| < NLMSG_HDRLEN
    ensures Replied(w, expected, pid) == Replied(Arrived(w), expected, pid)
  {
    hide Landed;
    var n := LandedLength(w.mem, w.incoming[0]);
    assert Events(Arrived(w).mem, 0, n) == [];
  }

  // ---------------------------------------------------------------------------
  // What each verdict means
  // ---------------------------------------------------------------------------

  /** An error message that concerns this exchange: from any other sequence number, or from the own pid. */
  ghost predicate ErrorFor(e: Event, expected: uint32, pid: uint32) {
    e.Reply? && e.h.typ == 2 && (e.h.seq_ != expected || e.h.pid == pid)
  }

  /** What the loop takes for success. */
  ghost predicate Success(e: Event, expected: uint32, pid: uint32) {
    || (e.Reply? && e.h.seq_ == expected && e.h.pid == pid && (e.h.typ == 3 || e.h.typ == 1000))
    || (e.Reply? && e.h.seq_ != expected && e.h.typ > 1100)
    || (ErrorFor(e, expected, pid) && (e.code == Some(0) || e.code == Some(17)))
  }

  /** Each verdict, over the fields of the deciding message. */
  lemma EventVerdicts(e: Event, expected: uint32, pid: uint32)
    ensures var v := Decide(e, expected, pid);
            && (v == None <==> SteppedOver(e, expected, pid))
            && (v == Some(Accepted) <==> Success(e, expected, pid))
            && (v == Some(WrongSeq) <==> e.Reply? && e.h.seq_ != expected && e.h.typ <= 1100 && e.h.typ != 2)
            && (v == Some(WrongPid) <==> e.Reply? && e.h.seq_ == expected && e.h.pid != pid)
            && (v == Some(BadReply) <==> e == Unreadable)
            && (v == Some(Panics) <==> e == Overshoot || (ErrorFor(e, expected, pid) && e.code == None))
            && forall c: uint32 ::
                 v == Some(KernelError(c)) <==> ErrorFor(e, expected, pid) && e.code == Some(c) && c != 0 && c != 17
  {
  }

  /**
   The verdict of the reply loop, over header fields: everything before the deciding
   event is stepped over, and the verdict says what that event is. Without one the
   receive failed.
   */
  lemma {:induction false} ReplyVerdicts(w: World, expected: uint32, pid: uint32) returns (k: nat)
    ensures var es, v := AllEvents(w.mem, w.incoming), Replied(w, expected, pid).1;
            && k <= |es| && (forall i :: 0 <= i < k ==> SteppedOver(es[i], expected, pid))
            && (k == |es| <==> v == ReceiveFailed)
            && (k < |es| ==>
                  var e := es[k];
                  && !SteppedOver(e, expected, pid)
                  && (v == Accepted <==> Success(e, expected, pid))
                  && (v == WrongSeq <==> e.Reply? && e.h.seq_ != expected && e.h.typ <= 1100 && e.h.typ != 2)
                  && (v == WrongPid <==> e.Reply? && e.h.seq_ == expected && e.h.pid != pid)
                  && (v == BadReply <==> e == Unreadable)
                  && (v == Panics <==> e == Overshoot || (ErrorFor(e, expected, pid) && e.code == None))
                  && forall c: uint32 ::
                       v == KernelError(c) <==> ErrorFor(e, expected, pid) && e.code == Some(c) && c != 0 && c != 17)
  {
    hide Decide, AllEvents, Replied, SteppedOver, Success, ErrorFor;
    k := ReplyIsFlat(w, expected, pid);
    var es := AllEvents(w.mem, w.incoming);
    if k < |es| {
      EventVerdicts(es[k], expected, pid);
      DecidesNoFailure(es[k], expected, pid);
    }
  }

  lemma DecidesNoFailure(e: Event, expected: uint32, pid: uint32)
    ensures Decide(e, expected, pid) != Some(ReceiveFailed)
  {
  }

  /** The inner loop: one received datagram, from its first message to the first decisive one. */
  method ScanReplies(mem: bytes, end: nat, expected: uint32, pid: uint32) returns (v: Option<Verdict>)
    requires end <= |mem|
    ensures v == FirstVerdict(Events(mem, 0, end), expected, pid)
  {
    hide HeaderAt, Word32At;
    var pos := 0;
    while end - pos >= NLMSG_HDRLEN
      invariant pos <= end
      invariant FirstVerdict(Events(mem, 0, end), expected, pid) == FirstVerdict(Events(mem, pos, end), expected, pid)
    {
      var h := HeaderAt(mem, pos);
      if h.len < NLMSG_HDRLEN || h.len > end - pos { return Some(BadReply); }
      var lo, dlen := pos + NLMSG_HDRLEN, NlmAlignOf(h.len);
      if h.seq_ != expected {
        if h.typ > AUDIT_FIRST_USER_MSG { return Some(Accepted); }
        if h.typ == NLMSG_ERROR {
          if lo + 4 > |mem| { return Some(Panics); }
          var e := Word32At(mem, lo);
          return if e == 0 || e == EEXIST then Some(Accepted) else Some(KernelError(e));
        }
        return Some(WrongSeq);
      }
      if h.pid != pid { return Some(WrongPid); }
      if h.typ == NLMSG_DONE { return Some(Accepted); }
      if h.typ == NLMSG_ERROR {
        if lo + 4 > |mem| { return Some(Panics); }
        var e := Word32At(mem, lo);
        return if e == 0 || e == EEXIST then Some(Accepted) else Some(KernelError(e));
      }
      if h.typ == AUDIT_GET { return Some(Accepted); }
      if dlen > end - pos { return Some(Panics); }
      pos := pos + dlen;
    }
    return None;
  }

  method AuditGetReply(s: NetlinkConnection, expected: uint32) returns (v: Verdict)
    requires s.Valid()
    modifies s, s.rb
    ensures (s.View(), v) == Replied(old(s.View()), expected, s.socketPid)
  {
    hide Landed, Events, FirstVerdict;
    while true
      invariant Replied(s.View(), expected, s.socketPid) == Replied(old(s.View()), expected, s.socketPid)
      decreases |s.incoming|
    {
      var n := s.ReceiveNoParse();
      if n == None { return ReceiveFailed; }
      var decided := ScanReplies(s.rb[..], n.value, expected, s.socketPid);
      if decided.Some? { return decided.value; }
    }
  }
}
