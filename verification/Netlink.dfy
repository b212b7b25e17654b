/**
 Netlink framing: the 16-byte header, the padding to four bytes, and the two
 walks over a received datagram written out in the library, one that collects
 messages (libaudit.go) and one that delivers each payload to a callback
 (audit_events.go).

 A Go slice of the receive buffer is an interval of positions of that buffer.
 `mem` is the whole backing array, so `|mem|` is the end of the capacity and
 `end` the end of the slice being walked. A slice expression that leaves the
 capacity is a run-time panic and is modelled as an outcome of its own.
 */
module Netlink {
  import opened Words

  const NLMSG_HDRLEN := 16
  const NLMSG_ERROR: uint16 := 2
  const NLMSG_DONE: uint16 := 3

  datatype Header = Header(len: uint32, typ: uint16, flags: uint16, seq_: uint32, pid: uint32)

  /** Rounds a message length up: the least multiple of four that is not below it. */
  function NlmAlignOf(n: nat): (r: nat)
    ensures r % 4 == 0 && n <= r < n + 4
  {
    var m := n + 3;
    assert m - m % 4 == m / 4 * 4;
    m - m % 4
  }

  lemma AlignedSum(a: nat, b: nat)
    requires a % 4 == 0 && b % 4 == 0
    ensures (a + b) % 4 == 0
  {
    assert a == 4 * (a / 4) && b == 4 * (b / 4);
    assert a + b == 4 * (a / 4 + b / 4);
  }

  /** Rounding up cannot pass an aligned bound. */
  lemma AlignWithin(n: nat, bound: nat)
    requires bound % 4 == 0 && n <= bound
    ensures NlmAlignOf(n) <= bound && (bound - NlmAlignOf(n)) % 4 == 0
  {
    var r := NlmAlignOf(n);
    assert r == 4 * (r / 4) && bound == 4 * (bound / 4);
    assert bound - r == 4 * (bound / 4 - r / 4);
  }

  function HeaderBytes(h: Header): (b: bytes)
    ensures |b| == NLMSG_HDRLEN
  {
    Le32(h.len) + Le16(h.typ) + Le16(h.flags) + Le32(h.seq_) + Le32(h.pid)
  }

  function HeaderAt(mem: bytes, pos: nat): Header
    requires pos + NLMSG_HDRLEN <= |mem|
  {
    Header(Word32At(mem, pos), Word16At(mem, pos + 4), Word16At(mem, pos + 6),
           Word32At(mem, pos + 8), Word32At(mem, pos + 12))
  }

  lemma HeaderRoundTrip(pre: bytes, h: Header, post: bytes)
    ensures HeaderAt(pre + HeaderBytes(h) + post, |pre|) == h
  {
    var mem := pre + HeaderBytes(h) + post;
    var a, b, c, d, e := Le32(h.len), Le16(h.typ), Le16(h.flags), Le32(h.seq_), Le32(h.pid);
    assert mem == pre + a + (b + c + d + e + post);
    Le32At(pre, h.len, b + c + d + e + post);
    assert mem == (pre + a) + b + (c + d + e + post);
    Le16At(pre + a, h.typ, c + d + e + post);
    assert mem == (pre + a + b) + c + (d + e + post);
    Le16At(pre + a + b, h.flags, d + e + post);
    assert mem == (pre + a + b + c) + d + (e + post);
    Le32At(pre + a + b + c, h.seq_, e + post);
    assert mem == (pre + a + b + c + d) + e + post;
    Le32At(pre + a + b + c + d, h.pid, post);
  }

  /** Where each field of a header stands: length, type, flags, sequence number and pid. */
  lemma HeaderLayout(h: Header)
    ensures var b := HeaderBytes(h);
            && b[0..4] == Le32(h.len) && b[4..6] == Le16(h.typ) && b[6..8] == Le16(h.flags)
            && b[8..12] == Le32(h.seq_) && b[12..16] == Le32(h.pid)
  {
    hide Le32, Le16;
  }

  /** A header is usable when its length covers itself and stays within the slice. */
  predicate GoodLength(h: Header, remaining: nat) {
    NLMSG_HDRLEN <= h.len <= remaining
  }

  // ---------------------------------------------------------------------------
  // The collecting walk
  // ---------------------------------------------------------------------------

  /** A parsed message: its header (copied) and the interval of the buffer its Data aliases. */
  datatype Message = Message(h: Header, lo: nat, hi: nat)

  /** How a walk ended: out of input, at an unusable header, or in a panic. */
  datatype Ending = Finished | BadHeader | Panicked

  datatype Walked = Walked(msgs: seq<Message>, ending: Ending)

  /**
   Length of the Data slice. The workaround for kernels that put the payload
   length in the header takes `len` bytes instead of `len - 16` whenever `len`
   is aligned or equals the number of bytes after the header.
   */
  function DataLength(len: nat, remaining: nat): nat
    requires NLMSG_HDRLEN <= len <= remaining
  {
    if remaining - NLMSG_HDRLEN == len || NlmAlignOf(len) == len then len else len - NLMSG_HDRLEN
  }

  datatype Round = Stop(ending: Ending) | Overrun(m: Message) | Next(m: Message, next: nat)

  /** One iteration of the loop, at position `pos`. */
  function RoundAt(mem: bytes, pos: nat, end: nat): (r: Round)
    requires pos <= end <= |mem|
    ensures r.Next? ==> pos + NLMSG_HDRLEN <= r.next <= end
  {
    if end - pos < NLMSG_HDRLEN then Stop(Finished)
    else
      var h := HeaderAt(mem, pos);
      if !GoodLength(h, end - pos) then Stop(BadHeader)
      else
        var lo := pos + NLMSG_HDRLEN;
        var hi := lo + DataLength(h.len, end - pos);
        if hi > |mem| then Stop(Panicked)
        else
          var m := Message(h, lo, hi);
          if pos + NlmAlignOf(h.len) > end then Overrun(m) else Next(m, pos + NlmAlignOf(h.len))
  }

  function Walk(mem: bytes, pos: nat, end: nat): Walked
    requires pos <= end <= |mem|
    decreases end - pos
  {
    match RoundAt(mem, pos, end)
    case Stop(ending) => Walked([], ending)
    case Overrun(m) => Walked([m], Panicked)
    case Next(m, next) => Prepend([m], Walk(mem, next, end))
  }

  function Prepend(msgs: seq<Message>, w: Walked): Walked {
    Walked(msgs + w.msgs, w.ending)
  }

  datatype ParseResult = Messages(msgs: seq<Message>) | MalformedHeader | Panic

  /** An unusable header is an error only when no message came before it. */
  function ParseOutcome(w: Walked): ParseResult {
    match w.ending
    case Panicked => Panic
    case BadHeader => if |w.msgs| > 0 then Messages(w.msgs) else MalformedHeader
    case Finished => Messages(w.msgs)
  }

  /** One more round: the messages collected so far, followed by those still to come. */
  lemma WalkRound(mem: bytes, pos: nat, end: nat, msgs: seq<Message>)
    requires pos <= end <= |mem|
    ensures Prepend(msgs, Walk(mem, pos, end)) ==
            match RoundAt(mem, pos, end)
            case Stop(e) => Walked(msgs, e)
            case Overrun(m) => Walked(msgs + [m], Panicked)
            case Next(m, next) => Prepend(msgs + [m], Walk(mem, next, end))
  {
    hide RoundAt;
    if RoundAt(mem, pos, end).Next? {
      var m, rest := RoundAt(mem, pos, end).m, Walk(mem, RoundAt(mem, pos, end).next, end);
      assert msgs + ([m] + rest.msgs) == msgs + [m] + rest.msgs;
    }
  }

  method ParseAuditNetlinkMessage(rb: array<byte>, n: nat) returns (r: ParseResult)
    requires n <= rb.Length
    ensures r == ParseOutcome(Walk(rb[..], 0, n))
  {
    hide HeaderAt, Walk;
    var mem := rb[..];
    var msgs: seq<Message> := [];
    var pos := 0;
    while n - pos >= NLMSG_HDRLEN
      invariant pos <= n
      invariant Walk(mem, 0, n) == Prepend(msgs, Walk(mem, pos, n))
    {
      WalkRound(mem, pos, n, msgs);
      var h := HeaderAt(mem, pos);
      if h.len < NLMSG_HDRLEN || h.len > n - pos {
        if |msgs| > 0 { return Messages(msgs); }
        return MalformedHeader;
      }
      var dbufLen := n - pos - NLMSG_HDRLEN;
      var dlen := NlmAlignOf(h.len);
      var lo := pos + NLMSG_HDRLEN;
      var hi;
      if dbufLen == h.len || dlen == h.len {
        hi := lo + h.len;
      } else {
        hi := lo + (h.len - NLMSG_HDRLEN);
      }
      if hi > rb.Length { return Panic; }
      msgs := msgs + [Message(h, lo, hi)];
      if dlen > n - pos { return Panic; }
      pos := pos + dlen;
    }
    WalkRound(mem, pos, n, msgs);
    return Messages(msgs);
  }

  /** Every message lies in the buffer, in order, at aligned distances from the start of the walk. */
  ghost predicate InOrder(msgs: seq<Message>, pos: nat, size: nat) {
    forall i :: 0 <= i < |msgs| ==>
      && pos + NLMSG_HDRLEN <= msgs[i].lo <= msgs[i].hi <= size
      && msgs[i].hi <= msgs[i].lo + msgs[i].h.len
      && (forall j :: i < j < |msgs| ==> msgs[i].lo + msgs[i].h.len <= msgs[j].lo)
  }

  lemma {:induction false} WalkInOrder(mem: bytes, pos: nat, end: nat)
    requires pos <= end <= |mem|
    ensures InOrder(Walk(mem, pos, end).msgs, pos, |mem|)
    decreases end - pos
  {
    hide HeaderAt;
    var r := RoundAt(mem, pos, end);
    if r.Next? { WalkInOrder(mem, r.next, end); }
  }

  // ---------------------------------------------------------------------------
  // When the walk stays in bounds
  // ---------------------------------------------------------------------------

  /** With an aligned length and one header of spare capacity no content makes the walk panic. */
  lemma {:induction false} WalkSafe(mem: bytes, pos: nat, end: nat)
    requires pos <= end <= |mem|
    requires (end - pos) % 4 == 0 && end + NLMSG_HDRLEN <= |mem|
    ensures Walk(mem, pos, end).ending != Panicked
    decreases end - pos
  {
    hide HeaderAt;
    if end - pos >= NLMSG_HDRLEN {
      var h := HeaderAt(mem, pos);
      if GoodLength(h, end - pos) { AlignWithin(h.len, end - pos); }
    }
    var r := RoundAt(mem, pos, end);
    if r.Next? { WalkSafe(mem, r.next, end); }
  }

  /** A buffer whose only message claims the whole slice. */
  function Claiming(n: nat, cap: nat): (mem: bytes)
    requires NLMSG_HDRLEN <= n <= cap && n < 0x1_0000_0000
    ensures |mem| == cap
  {
    HeaderBytes(Header(n, 0, 0, 0, 0)) + Zeros(cap - NLMSG_HDRLEN)
  }

  lemma ClaimingPanics(n: nat, cap: nat)
    requires NLMSG_HDRLEN <= n <= cap && n < 0x1_0000_0000
    requires n % 4 != 0 || cap < n + NLMSG_HDRLEN
    ensures Walk(Claiming(n, cap), 0, n).ending == Panicked
  {
    var h, mem := Header(n, 0, 0, 0, 0), Claiming(n, cap);
    assert mem == [] + HeaderBytes(h) + Zeros(cap - NLMSG_HDRLEN);
    HeaderRoundTrip([], h, Zeros(cap - NLMSG_HDRLEN));
    assert HeaderAt(mem, 0) == h;
  }

  /**
   Exactly which slices are safe to parse whatever their content: those shorter
   than a header, and those of a length divisible by four with 16 bytes of
   capacity behind them.
   */
  lemma SafeIff(n: nat, cap: nat)
    requires n <= cap && n < 0x1_0000_0000
    ensures (forall mem: bytes :: |mem| == cap ==> Walk(mem, 0, n).ending != Panicked)
       <==> n < NLMSG_HDRLEN || (n % 4 == 0 && n + NLMSG_HDRLEN <= cap)
  {
    if n < NLMSG_HDRLEN || (n % 4 == 0 && n + NLMSG_HDRLEN <= cap) {
      forall mem: bytes | |mem| == cap ensures Walk(mem, 0, n).ending != Panicked {
        if n >= NLMSG_HDRLEN { WalkSafe(mem, 0, n); }
      }
    } else {
      ClaimingPanics(n, cap);
      assert |Claiming(n, cap)| == cap;
    }
  }

  // ---------------------------------------------------------------------------
  // Round trip of a stream of messages
  // ---------------------------------------------------------------------------

  datatype Frame = Frame(h: Header, payload: bytes)

  ghost predicate WellFramed(f: Frame) {
    f.h.len == NLMSG_HDRLEN + |f.payload|
  }

  /** A message as the kernel puts it in a datagram: header, payload, zeros up to alignment. */
  function FrameBytes(f: Frame): (b: bytes)
    ensures |b| == NlmAlignOf(NLMSG_HDRLEN + |f.payload|)
  {
    var n := NLMSG_HDRLEN + |f.payload|;
    HeaderBytes(f.h) + f.payload + Zeros(NlmAlignOf(n) - n)
  }

  function StreamBytes(fs: seq<Frame>): bytes {
    if fs == [] then [] else FrameBytes(fs[0]) + StreamBytes(fs[1..])
  }

  /** Data holds the payload and, for an aligned length, the next 16 bytes of the buffer too. */
  ghost predicate Carries(mem: bytes, m: Message, f: Frame) {
    && m.lo <= m.hi <= |mem|
    && m.h == f.h
    && m.lo + |f.payload| <= |mem|
    && mem[m.lo..m.lo + |f.payload|] == f.payload
    && m.hi == m.lo + |f.payload| + (if f.h.len % 4 == 0 then 16 else 0)
  }

  /** `b` stands in `mem` at position `pos`. */
  ghost predicate Holds(mem: bytes, pos: nat, b: bytes) {
    pos + |b| <= |mem| && mem[pos..pos + |b|] == b
  }

  lemma HoldsParts(mem: bytes, pos: nat, a: bytes, b: bytes)
    requires Holds(mem, pos, a + b)
    ensures Holds(mem, pos, a) && Holds(mem, pos + |a|, b)
  {
    assert mem[pos..pos + |a|] == (a + b)[..|a|];
    assert mem[pos + |a|..pos + |a| + |b|] == (a + b)[|a|..];
  }

  /** Frame `f` can be read at `pos`: its header, its payload, and room for its padding. */
  ghost predicate FrameAt(mem: bytes, pos: nat, f: Frame) {
    && pos + NlmAlignOf(f.h.len) <= |mem| && WellFramed(f)
    && HeaderAt(mem, pos) == f.h
    && Holds(mem, pos + NLMSG_HDRLEN, f.payload)
  }

  ghost predicate FramesAt(mem: bytes, pos: nat, fs: seq<Frame>, end: nat)
    decreases |fs|
  {
    if fs == [] then pos == end
    else FrameAt(mem, pos, fs[0]) && FramesAt(mem, pos + NlmAlignOf(fs[0].h.len), fs[1..], end)
  }

  lemma FrameBytesAt(mem: bytes, pos: nat, f: Frame)
    requires WellFramed(f) && Holds(mem, pos, FrameBytes(f))
    ensures FrameAt(mem, pos, f)
  {
    var pad := Zeros(NlmAlignOf(f.h.len) - f.h.len);
    HoldsParts(mem, pos, HeaderBytes(f.h) + f.payload, pad);
    HoldsParts(mem, pos, HeaderBytes(f.h), f.payload);
    var pre, post := mem[..pos], mem[pos + NLMSG_HDRLEN..];
    assert mem == pre + HeaderBytes(f.h) + post;
    HeaderRoundTrip(pre, f.h, post);
  }

  lemma {:induction false} StreamBytesAt(mem: bytes, pos: nat, fs: seq<Frame>)
    requires forall f :: f in fs ==> WellFramed(f)
    requires Holds(mem, pos, StreamBytes(fs))
    ensures FramesAt(mem, pos, fs, pos + |StreamBytes(fs)|)
    decreases |fs|
  {
    hide FrameBytes, FrameAt;
    if fs != [] {
      HoldsParts(mem, pos, FrameBytes(fs[0]), StreamBytes(fs[1..]));
      FrameBytesAt(mem, pos, fs[0]);
      StreamBytesAt(mem, pos + |FrameBytes(fs[0])|, fs[1..]);
    }
  }

  lemma {:induction false} FramesEnd(mem: bytes, pos: nat, fs: seq<Frame>, end: nat)
    requires FramesAt(mem, pos, fs, end)
    ensures pos <= end && (end - pos) % 4 == 0
    decreases |fs|
  {
    if fs != [] {
      var next := pos + NlmAlignOf(fs[0].h.len);
      FramesEnd(mem, next, fs[1..], end);
      AlignedSum(next - pos, end - next);
    }
  }

  ghost predicate AllCarried(mem: bytes, msgs: seq<Message>, fs: seq<Frame>) {
    |msgs| == |fs| && forall i :: 0 <= i < |fs| ==> Carries(mem, msgs[i], fs[i])
  }

  /** The walk over a sequence of frames collects them all, one after the other. */
  lemma {:induction false} WalkOverFrames(mem: bytes, pos: nat, fs: seq<Frame>, end: nat)
    requires FramesAt(mem, pos, fs, end) && end + NLMSG_HDRLEN <= |mem|
    ensures pos <= end && Walk(mem, pos, end).ending == Finished
    ensures AllCarried(mem, Walk(mem, pos, end).msgs, fs)
    decreases |fs|
  {
    hide HeaderAt;
    if fs != [] {
      var next := pos + NlmAlignOf(fs[0].h.len);
      FramesEnd(mem, next, fs[1..], end);
      WalkOverFrames(mem, next, fs[1..], end);
      var rest := Walk(mem, next, end);
      var m := Walk(mem, pos, end).msgs[0];
      assert Carries(mem, m, fs[0]);
      forall i | 0 < i < |fs| ensures Carries(mem, ([m] + rest.msgs)[i], fs[i]) {
        assert Carries(mem, rest.msgs[i - 1], fs[1..][i - 1]);
      }
    }
  }

  /**
   Any list of messages, framed and concatenated anywhere in a buffer with a
   header's worth of capacity behind it, parses back to the same messages.
   */
  lemma StreamRoundTrip(pre: bytes, fs: seq<Frame>, spare: bytes)
    requires forall f :: f in fs ==> WellFramed(f)
    requires |spare| >= NLMSG_HDRLEN
    ensures var mem := pre + StreamBytes(fs) + spare;
            var w := Walk(mem, |pre|, |pre| + |StreamBytes(fs)|);
            w.ending == Finished && AllCarried(mem, w.msgs, fs)
  {
    hide Walk, StreamBytes, FramesAt, AllCarried;
    var mem := pre + StreamBytes(fs) + spare;
    StreamBytesAt(mem, |pre|, fs);
    WalkOverFrames(mem, |pre|, fs, |pre| + |StreamBytes(fs)|);
  }

  // ---------------------------------------------------------------------------
  // The delivering walk
  // ---------------------------------------------------------------------------

  /** What the callback receives: message type, payload, and the error code if there is one. */
  datatype Delivery = Delivery(typ: uint16, text: bytes, code: Option<uint32>)

  /** One round of the callback loop: the payload interval, and the callback's arguments if it was invoked. */
  datatype Visit = Visit(h: Header, lo: nat, hi: nat, report: Option<Delivery>)

  datatype RawWalked = RawWalked(visits: seq<Visit>, ending: Ending)

  /** The callback is not invoked for an acknowledgement, an error message whose code is zero. */
  function Report(mem: bytes, h: Header, lo: nat, hi: nat): Option<Delivery>
    requires lo <= hi <= |mem| && (h.typ == NLMSG_ERROR ==> lo + 4 <= |mem|)
  {
    if h.typ != NLMSG_ERROR then Some(Delivery(h.typ, mem[lo..hi], None))
    else if Word32At(mem, lo) == 0 then None
    else Some(Delivery(h.typ, mem[lo..hi], Some(Word32At(mem, lo))))
  }

  datatype RawRound = RawStop(ending: Ending) | RawPanic(v: Visit) | RawNext(v: Visit, next: nat)

  /** One iteration of the loop, at position `pos`. */
  function RawRoundAt(mem: bytes, pos: nat, end: nat): (r: RawRound)
    requires pos <= end <= |mem|
    ensures r.RawNext? ==> pos + NLMSG_HDRLEN <= r.next <= end
  {
    if end - pos < NLMSG_HDRLEN then RawStop(Finished)
    else
      var h := HeaderAt(mem, pos);
      if !GoodLength(h, end - pos) then RawStop(BadHeader)
      else
        var lo := pos + NLMSG_HDRLEN;
        var dlen := NlmAlignOf(h.len) - NLMSG_HDRLEN;
        var hi := if end - lo == h.len || dlen == h.len then lo + h.len else lo + h.len - NLMSG_HDRLEN;
        if h.typ == NLMSG_ERROR && lo + 4 > |mem| then RawStop(Panicked)
        else
          var v := Visit(h, lo, hi, Report(mem, h, lo, hi));
          if lo + dlen > end then RawPanic(v) else RawNext(v, lo + dlen)
  }

  function RawWalk(mem: bytes, pos: nat, end: nat): RawWalked
    requires pos <= end <= |mem|
    decreases end - pos
  {
    match RawRoundAt(mem, pos, end)
    case RawStop(ending) => RawWalked([], ending)
    case RawPanic(v) => RawWalked([v], Panicked)
    case RawNext(v, next) =>
      var rest := RawWalk(mem, next, end);
      RawWalked([v] + rest.visits, rest.ending)
  }

  /** The two walks agree on a round. They take different payloads only for an aligned length. */
  ghost predicate SameRound(mem: bytes, end: nat, m: Message, v: Visit) {
    && v.h == m.h && v.lo == m.lo && v.lo <= v.hi <= m.hi <= |mem| && v.lo <= end
    && m.hi - v.hi == (if v.h.len % 4 == 0 && end - v.lo != v.h.len then 16 else 0)
    && (v.report.Some? ==>
          && v.report.value.text <= mem[m.lo..m.hi] && |v.report.value.text| == v.hi - v.lo
          && v.report.value.typ == v.h.typ
          && (v.h.typ != NLMSG_ERROR ==> v.report.value.code == None)
          && (v.h.typ == NLMSG_ERROR ==>
                v.lo + 4 <= |mem| && v.report.value.code == Some(Word32At(mem, v.lo))))
    && (v.report.None? <==> v.h.typ == NLMSG_ERROR && v.lo + 4 <= |mem| && Word32At(mem, v.lo) == 0)
  }

  lemma RoundsAgree(mem: bytes, pos: nat, end: nat)
    requires pos <= end <= |mem|
    ensures var a, b := RoundAt(mem, pos, end), RawRoundAt(mem, pos, end);
            && (b == RawStop(Panicked) ==> end + 4 > |mem|)
            && match a
               case Stop(e) => e == Panicked || b == RawStop(e)
               case Overrun(_) => b.RawPanic? || b == RawStop(Panicked)
               case Next(m, next) =>
                 || b == RawStop(Panicked)
                 || (b.RawNext? && b.next == next && SameRound(mem, end, m, b.v))
  {
    hide HeaderAt, Word32At;
    var a, b := RoundAt(mem, pos, end), RawRoundAt(mem, pos, end);
    if a.Next? && b.RawNext? {
      assert mem[b.v.lo..b.v.hi] <= mem[a.m.lo..a.m.hi];
    }
  }

  /**
   On every buffer both walks get through, they visit the same headers at the
   same offsets, and each delivered payload is a prefix of the collected Data.
   The callback walk cannot panic where the collecting walk does not, as long as
   an error code can be read at the very end of the slice.
   */
  lemma {:induction false} WalksAgree(mem: bytes, pos: nat, end: nat)
    requires pos <= end <= |mem|
    ensures var w, r := Walk(mem, pos, end), RawWalk(mem, pos, end);
            && (w.ending != Panicked && end + 4 <= |mem| ==> r.ending != Panicked)
            && (w.ending != Panicked && r.ending != Panicked ==>
                  && w.ending == r.ending && |w.msgs| == |r.visits|
                  && forall i :: 0 <= i < |w.msgs| ==> SameRound(mem, end, w.msgs[i], r.visits[i]))
    decreases end - pos
  {
    hide RoundAt, RawRoundAt, SameRound;
    RoundsAgree(mem, pos, end);
    var a, b := RoundAt(mem, pos, end), RawRoundAt(mem, pos, end);
    if a.Next? && b.RawNext? { WalksAgree(mem, a.next, end); }
  }

  /** The second half of the callback walk's workaround test never fires. */
  lemma RawAlignedTestDead(len: uint32)
    ensures NlmAlignOf(len) - NLMSG_HDRLEN != len
  {
    assert NlmAlignOf(len) < len + 4;
  }

  /** The callback's invocations, in order. */
  function Deliveries(visits: seq<Visit>): seq<Delivery> {
    if visits == [] then []
    else (if visits[0].report.Some? then [visits[0].report.value] else []) + Deliveries(visits[1..])
  }

  function CallsOf(report: Option<Delivery>): seq<Delivery> {
    if report.Some? then [report.value] else []
  }

  /** One more round: the calls made so far, followed by the calls still to come. */
  lemma RawWalkRound(mem: bytes, pos: nat, end: nat, calls: seq<Delivery>)
    requires pos <= end <= |mem|
    ensures var w := RawWalk(mem, pos, end);
            match RawRoundAt(mem, pos, end)
            case RawStop(e) => w.ending == e && calls + Deliveries(w.visits) == calls
            case RawPanic(v) => w.ending == Panicked && calls + Deliveries(w.visits) == calls + CallsOf(v.report)
            case RawNext(v, next) =>
              && w.ending == RawWalk(mem, next, end).ending
              && calls + Deliveries(w.visits) == calls + CallsOf(v.report) + Deliveries(RawWalk(mem, next, end).visits)
  {
    hide RawRoundAt;
    if RawRoundAt(mem, pos, end).RawNext? {
      assert RawWalk(mem, pos, end).visits[1..] == RawWalk(mem, RawRoundAt(mem, pos, end).next, end).visits;
    }
  }

  /** The body of the receive loop of GetRawAuditMessages, for one datagram of `n` bytes. */
  method RawAuditMessages(rb: array<byte>, n: nat) returns (calls: seq<Delivery>, ending: Ending)
    requires n <= rb.Length
    ensures calls == Deliveries(RawWalk(rb[..], 0, n).visits)
    ensures ending == RawWalk(rb[..], 0, n).ending
  {
    hide HeaderAt, Word32At, Deliveries, RawWalk;
    var mem := rb[..];
    calls := [];
    var pos := 0;
    while n - pos >= NLMSG_HDRLEN
      invariant pos <= n
      invariant Deliveries(RawWalk(mem, 0, n).visits) == calls + Deliveries(RawWalk(mem, pos, n).visits)
      invariant RawWalk(mem, 0, n).ending == RawWalk(mem, pos, n).ending
    {
      RawWalkRound(mem, pos, n, calls);
      var h := HeaderAt(mem, pos);
      if h.len < NLMSG_HDRLEN || h.len > n - pos { return calls, BadHeader; }
      var lo := pos + NLMSG_HDRLEN;
      var dlen := NlmAlignOf(h.len) - NLMSG_HDRLEN;
      var hi;
      if n - lo == h.len || dlen == h.len {
        hi := lo + h.len;
      } else {
        hi := lo + h.len - NLMSG_HDRLEN;
      }
      if h.typ == NLMSG_ERROR {
        if lo + 4 > rb.Length { return calls, Panicked; }
        var code := Word32At(mem, lo);
        if code != 0 { calls := calls + [Delivery(h.typ, mem[lo..hi], Some(code))]; }
      } else {
        calls := calls + [Delivery(h.typ, mem[lo..hi], None)];
      }
      if lo + dlen > n { return calls, Panicked; }
      pos := lo + dlen;
    }
    RawWalkRound(mem, pos, n, calls);
    return calls, Finished;
  }
}
