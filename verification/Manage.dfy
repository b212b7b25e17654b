/**
 Listing, deleting and cleaning up the kernel's rules. The functions describe
 each run over an arbitrary sequence of datagrams, with every message taken by
 value when it arrives. The methods work as the library does, on messages whose
 Data aliases the shared buffer that later sends overwrite.
 */
module Manage {
  import opened Words
  import opened Netlink
  import opened Connection
  import opened Rules
  import opened RuleWire
  import opened RulePrint
  import opened Install

  const AUDIT_LIST_RULES: uint16 := 1013

  /** A message by value: header, Data, and the error code behind the header. */
  datatype Received = Received(h: Header, data: bytes, code: Option<uint32>)

  function Contents(mem: bytes, m: Message): Received
    requires m.lo <= m.hi <= |mem|
  {
    Received(m.h, mem[m.lo..m.hi], CodeAt(mem, m.lo))
  }

  ghost predicate InBuffer(ms: seq<Message>, size: nat) {
    forall i :: 0 <= i < |ms| ==> ms[i].lo <= ms[i].hi <= size
  }

  function AllContents(mem: bytes, ms: seq<Message>): (rs: seq<Received>)
    requires InBuffer(ms, |mem|)
    ensures |rs| == |ms|
    ensures forall i :: 0 <= i < |rs| ==> rs[i] == Contents(mem, ms[i])
  {
    seq(|ms|, i requires 0 <= i < |ms| => Contents(mem, ms[i]))
  }

  /** The messages of a received datagram, by value. */
  datatype Heard = Heard(msgs: seq<Received>) | HeardError | HeardPanic

  function Hear(mem: bytes, n: nat): Heard
    requires n <= |mem|
  {
    match ReceivedMessages(mem, n)
    case Panic => HeardPanic
    case MalformedHeader => HeardError
    case Messages(ms) =>
      WalkInOrder(mem, 0, n);
      Heard(AllContents(mem, ms))
  }

  /** The checks the list and delete loops share. */
  predicate WrongOrigin(h: Header, expected: uint32, pid: uint32) {
    h.seq_ != expected || (h.pid > 0 && h.pid != pid)
  }

  // ---------------------------------------------------------------------------
  // DeleteAllRules
  // ---------------------------------------------------------------------------

  datatype RunEnd = RunDone | RunError | RunPanic

  /** One message: `None` goes on with the next one. */
  function DeleteStep(w: World, m: Received, expected: uint32, pid: uint32): (r: (World, Option<RunEnd>))
    requires Open(w)
    ensures Open(r.0) && |r.0.mem| == |w.mem| && r.0.incoming == w.incoming
  {
    if WrongOrigin(m.h, expected, pid) then (w, Some(RunError))
    else if m.h.typ == NLMSG_DONE then (w, Some(RunDone))
    else if m.h.typ == NLMSG_ERROR && m.code != Some(0) then (w, Some(if m.code.None? then RunPanic else RunError))
    else if m.h.typ == AUDIT_LIST_RULES then (Sent(w, AUDIT_DEL_RULE, m.data), None)
    else (w, None)
  }

  function DeleteSteps(w: World, ms: seq<Received>, expected: uint32, pid: uint32): (r: (World, Option<RunEnd>))
    requires Open(w)
    ensures Open(r.0) && |r.0.mem| == |w.mem| && r.0.incoming == w.incoming
    decreases |ms|
  {
    if ms == [] then (w, None)
    else
      var (w', end) := DeleteStep(w, ms[0], expected, pid);
      if end.Some? then (w', end) else DeleteSteps(w', ms[1..], expected, pid)
  }

  function DeleteLoop(w: World, expected: uint32, pid: uint32): (r: (World, RunEnd))
    requires Open(w)
    ensures Open(r.0)
    decreases |w.incoming|
  {
    if w.incoming == [] then (w, RunError)
    else
      var w1 := Arrived(w);
      match Hear(w1.mem, LandedLength(w.mem, w.incoming[0]))
      case HeardPanic => (w1, RunPanic)
      case HeardError => (w1, RunError)
      case Heard(ms) =>
        var (w2, end) := DeleteSteps(w1, ms, expected, pid);
        if end.Some? then (w2, end.value) else DeleteLoop(w2, expected, pid)
  }

  function DeleteAll(w: World, pid: uint32): (r: (World, RunEnd))
    requires Open(w)
    ensures Open(r.0)
  {
    var w1 := Sent(w, AUDIT_LIST_RULES, []);
    DeleteLoop(w1, w1.counter, pid)
  }

  /** Messages still to be processed lie beyond everything a deletion request may overwrite. */
  ghost predicate Untouched(rb: bytes, mem: bytes, ms: seq<Message>, k: nat) {
    |rb| == |mem| && forall j :: k <= j < |ms| && ms[j].lo <= |mem| ==> rb[ms[j].lo..] == mem[ms[j].lo..]
  }

  /** Sending back the Data of message `k` leaves every later message as it was received. */
  lemma SendKeepsRest(rb: bytes, mem: bytes, ms: seq<Message>, k: nat, h: Header, data: bytes)
    requires InOrder(ms, 0, |mem|) && k < |ms| && Untouched(rb, mem, ms, k)
    requires NLMSG_HDRLEN <= |mem| && |data| == ms[k].hi - ms[k].lo
    ensures Untouched(Serialized(rb, h, data), mem, ms, k + 1)
  {
    hide Serialized;
    forall j | k + 1 <= j < |ms| && ms[j].lo <= |mem| ensures Serialized(rb, h, data)[ms[j].lo..] == mem[ms[j].lo..] {
      assert NLMSG_HDRLEN <= ms[k].lo && ms[k].lo + ms[k].h.len <= ms[j].lo;
      SerializedKeeps(rb, h, data, ms[j].lo);
    }
  }

  lemma UntouchedContents(rb: bytes, mem: bytes, ms: seq<Message>, k: nat)
    requires Untouched(rb, mem, ms, k) && k < |ms| && ms[k].lo <= ms[k].hi <= |mem|
    ensures Contents(rb, ms[k]) == Contents(mem, ms[k])
  {
    hide Word32At;
    var lo := ms[k].lo;
    assert rb[lo..] == mem[lo..];
    assert rb[lo..ms[k].hi] == rb[lo..][..ms[k].hi - lo];
    assert mem[lo..ms[k].hi] == mem[lo..][..ms[k].hi - lo];
    if lo + 4 <= |mem| { SameWord(rb, mem, lo); }
  }

  lemma SameWord(a: bytes, b: bytes, at: nat)
    requires |a| == |b| && at + 4 <= |a| && a[at..] == b[at..]
    ensures Word32At(a, at) == Word32At(b, at)
  {
    assert forall k :: 0 <= k < 4 ==> a[at + k] == a[at..][k] && b[at + k] == b[at..][k];
  }

  /** The body of the inner loop, on a message whose Data is still a slice of the buffer. */
  method DeleteMessage(s: NetlinkConnection, m: Message, expected: uint32) returns (end: Option<RunEnd>)
    requires s.Valid() && m.lo <= m.hi <= s.rb.Length
    modifies s, s.rb
    ensures (s.View(), end) == DeleteStep(old(s.View()), old(Contents(s.rb[..], m)), expected, s.socketPid)
  {
    hide Word32At, Sent;
    if m.h.seq_ != expected { return Some(RunError); }
    if m.h.pid > 0 && m.h.pid != s.socketPid { return Some(RunError); }
    if m.h.typ == NLMSG_DONE { return Some(RunDone); }
    if m.h.typ == NLMSG_ERROR {
      if m.lo + 4 > s.rb.Length { return Some(RunPanic); }
      var e := Word32At(s.rb[..], m.lo);
      if e != 0 { return Some(RunError); }
    }
    if m.h.typ == AUDIT_LIST_RULES {
      var copied := s.rb[m.lo..m.hi];
      var _ := s.Send(AUDIT_DEL_RULE, copied);
    }
    return None;
  }

  /** The inner loop over one datagram's messages: as if their Data had been copied on arrival. */
  method DeleteMessages(s: NetlinkConnection, ms: seq<Message>, expected: uint32) returns (end: Option<RunEnd>)
    requires s.Valid() && InOrder(ms, 0, s.rb.Length) && InBuffer(ms, s.rb.Length)
    modifies s, s.rb
    ensures (s.View(), end) == DeleteSteps(old(s.View()), AllContents(old(s.rb[..]), ms), expected, s.socketPid)
  {
    hide DeleteStep, Contents;
    ghost var mem, all := s.rb[..], AllContents(s.rb[..], ms);
    for i := 0 to |ms|
      invariant Untouched(s.rb[..], mem, ms, i)
      invariant DeleteSteps(old(s.View()), all, expected, s.socketPid) ==
                DeleteSteps(s.View(), all[i..], expected, s.socketPid)
    {
      assert all[i..][1..] == all[i + 1..];
      UntouchedContents(s.rb[..], mem, ms, i);
      DeleteStepKeeps(s.View(), mem, ms, i, expected, s.socketPid);
      end := DeleteMessage(s, ms[i], expected);
      if end.Some? { return; }
    }
    return None;
  }

  lemma DeleteStepKeeps(w: World, mem: bytes, ms: seq<Message>, k: nat, expected: uint32, pid: uint32)
    requires Open(w) && InOrder(ms, 0, |mem|) && InBuffer(ms, |mem|) && k < |ms| && Untouched(w.mem, mem, ms, k)
    ensures Untouched(DeleteStep(w, Contents(mem, ms[k]), expected, pid).0.mem, mem, ms, k + 1)
  {
    hide Serialized, RequestHeader, CodeAt;
    var data := mem[ms[k].lo..ms[k].hi];
    SendKeepsRest(w.mem, mem, ms, k, RequestHeader(AUDIT_DEL_RULE, |data|, w.counter), data);
  }

  method DeleteAllRules(s: NetlinkConnection) returns (end: RunEnd)
    requires s.Valid()
    modifies s, s.rb
    ensures (s.View(), end) == DeleteAll(old(s.View()), s.socketPid)
  {
    hide DeleteSteps, Sent, Landed, Walk;
    var expected := s.Send(AUDIT_LIST_RULES, []);
    ghost var start := s.View();
    while true
      invariant DeleteLoop(s.View(), expected, s.socketPid) == DeleteLoop(start, expected, s.socketPid)
      decreases |s.incoming|
    {
      var n := s.ReceiveNoParse();
      if n == None { return RunError; }
      if n.value >= NLMSG_HDRLEN {
        WalkInOrder(s.rb[..], 0, n.value);
        var parsed := ParseAuditNetlinkMessage(s.rb, n.value);
        if parsed == Panic { return RunPanic; }
        if parsed == MalformedHeader { return RunError; }
        var stop := DeleteMessages(s, parsed.msgs, expected);
        if stop.Some? { return stop.value; }
      } else {
        var stop := DeleteMessages(s, [], expected);
        if stop.Some? { return stop.value; }
      }
    }
  }

  // ---------------------------------------------------------------------------
  // What DeleteAllRules sends
  // ---------------------------------------------------------------------------

  /** All messages of a run, by value on arrival, up to and including the one that ended it. */
  function Transcript(w: World, expected: uint32, pid: uint32): seq<Received>
    requires Open(w)
    decreases |w.incoming|
  {
    if w.incoming == [] then []
    else
      var w1 := Arrived(w);
      match Hear(w1.mem, LandedLength(w.mem, w.incoming[0]))
      case HeardPanic => []
      case HeardError => []
      case Heard(ms) =>
        var (w2, end) := DeleteSteps(w1, ms, expected, pid);
        ms + if end.Some? then [] else Transcript(w2, expected, pid)
  }

  /** The Data of the listed rules before the first DONE, in order. */
  function ListedData(ms: seq<Received>): seq<bytes> {
    if ms == [] || ms[0].h.typ == NLMSG_DONE then []
    else (if ms[0].h.typ == AUDIT_LIST_RULES then [ms[0].data] else []) + ListedData(ms[1..])
  }

  predicate HasDone(ms: seq<Received>) {
    exists i :: 0 <= i < |ms| && ms[i].h.typ == NLMSG_DONE
  }

  lemma {:induction false} ListedDataSplit(a: seq<Received>, b: seq<Received>)
    requires !HasDone(a)
    ensures ListedData(a + b) == ListedData(a) + ListedData(b)
    decreases |a|
  {
    if a == [] {
      assert a + b == b;
    } else {
      assert (a + b)[1..] == a[1..] + b;
      DoneSplit(a);
      ListedDataSplit(a[1..], b);
    }
  }

  /** The sequence counter after `n` more requests. */
  function Counted(counter: uint32, n: nat): uint32 {
    (counter + n) % 0x1_0000_0000
  }

  lemma CountedTwice(counter: uint32, m: nat, n: nat)
    ensures Counted(Counted(counter, m), n) == Counted(counter, m + n)
  {
  }

  /** `wires` are deletion requests for the payloads, one each, in order, numbered behind `counter`. */
  ghost predicate Deletes(wires: seq<bytes>, payloads: seq<bytes>, counter: uint32) {
    && |wires| == |payloads|
    && forall i :: 0 <= i < |wires| ==> Request(wires[i], 1012, payloads[i], Counted(counter, i + 1))
  }

  /** One step sends nothing but, for a listed rule, its deletion. */
  lemma StepSends(w: World, m: Received, expected: uint32, pid: uint32) returns (wire: bytes)
    requires Open(w)
    ensures var (w', end) := DeleteStep(w, m, expected, pid);
            && (end.Some? ==> w' == w)
            && (end == Some(RunDone) ==> m.h.typ == NLMSG_DONE)
            && (end.None? ==>
                  && m.h.typ != NLMSG_DONE
                  && (m.h.typ != AUDIT_LIST_RULES ==> w' == w)
                  && (m.h.typ == AUDIT_LIST_RULES ==>
                        && w'.sent == w.sent + [wire] && w'.counter == Counted(w.counter, 1)
                        && Request(wire, 1012, m.data, w'.counter)))
  {
    hide Sent, Request;
    wire := SentRequest(w, AUDIT_DEL_RULE, m.data);
  }

  /** The requests in `after` that are not yet in `before` are the deletions of the payloads. */
  ghost predicate SentDeletes(before: seq<bytes>, after: seq<bytes>, payloads: seq<bytes>, counter: uint32) {
    before <= after && Deletes(after[|before|..], payloads, counter)
  }

  lemma SentTwice(a: seq<bytes>, b: seq<bytes>, c: seq<bytes>, x: seq<bytes>, y: seq<bytes>, counter: uint32)
    requires SentDeletes(a, b, x, counter) && SentDeletes(b, c, y, Counted(counter, |x|))
    ensures SentDeletes(a, c, x + y, counter)
  {
    hide Request, Counted;
    var wires := c[|a|..];
    assert wires == b[|a|..] + c[|b|..];
    forall i | 0 <= i < |wires| ensures Request(wires[i], 1012, (x + y)[i], Counted(counter, i + 1)) {
      if i < |x| {
        assert wires[i] == b[|a|..][i];
      } else {
        assert wires[i] == c[|b|..][i - |x|];
        CountedTwice(counter, |x|, i - |x| + 1);
      }
    }
  }

  lemma {:induction false} StepsExact(w: World, ms: seq<Received>, expected: uint32, pid: uint32)
    requires Open(w)
    ensures var (w', end) := DeleteSteps(w, ms, expected, pid);
            (end.None? || end == Some(RunDone)) ==>
              && (end.None? <==> !HasDone(ms))
              && SentDeletes(w.sent, w'.sent, ListedData(ms), w.counter)
              && w'.counter == Counted(w.counter, |ListedData(ms)|)
    decreases |ms|
  {
    hide DeleteStep, Request, HasDone, SentDeletes, Counted;
    SentNothing(w.sent, w.counter);
    if ms == [] {
      NoDone();
    } else {
      var (w1, end1) := DeleteStep(w, ms[0], expected, pid);
      var wire := StepSends(w, ms[0], expected, pid);
      DoneSplit(ms);
      if end1.None? {
        StepsExact(w1, ms[1..], expected, pid);
        var (w', end) := DeleteSteps(w1, ms[1..], expected, pid);
        var first := if ms[0].h.typ == AUDIT_LIST_RULES then [ms[0].data] else [];
        if first != [] { SentOne(w.sent, wire, ms[0].data, w.counter); }
        if end.None? || end == Some(RunDone) {
          SentTwice(w.sent, w1.sent, w'.sent, first, ListedData(ms[1..]), w.counter);
          CountedTwice(w.counter, |first|, |ListedData(ms[1..])|);
        }
      }
    }
  }

  lemma SentNothing(a: seq<bytes>, counter: uint32)
    ensures SentDeletes(a, a, [], counter) && Counted(counter, 0) == counter
  {
  }

  lemma SentOne(a: seq<bytes>, wire: bytes, payload: bytes, counter: uint32)
    requires Request(wire, 1012, payload, Counted(counter, 1))
    ensures SentDeletes(a, a + [wire], [payload], counter)
  {
    hide Request, Counted;
  }

  lemma NoDone()
    ensures !HasDone([])
  {
  }

  lemma DoneSplit(ms: seq<Received>)
    requires ms != []
    ensures HasDone(ms) <==> ms[0].h.typ == NLMSG_DONE || HasDone(ms[1..])
  {
    if HasDone(ms) {
      var i :| 0 <= i < |ms| && ms[i].h.typ == NLMSG_DONE;
      if i > 0 { assert ms[1..][i - 1].h.typ == NLMSG_DONE; }
    }
    if HasDone(ms[1..]) {
      var i :| 0 <= i < |ms[1..]| && ms[1..][i].h.typ == NLMSG_DONE;
      assert ms[i + 1].h.typ == NLMSG_DONE;
    }
  }

  /**
   When the loop ends without an error, it has sent exactly one deletion request
   for each listed rule before the first DONE, in order, each with the Data that
   was received and a header that gives its length, type, flags and the next
   sequence number, whatever the datagrams were and however messages were grouped.
   */
  lemma {:induction false} DeletionsExact(w: World, expected: uint32, pid: uint32)
    requires Open(w)
    ensures var (w', end) := DeleteLoop(w, expected, pid);
            end == RunDone ==>
              && HasDone(Transcript(w, expected, pid))
              && SentDeletes(w.sent, w'.sent, ListedData(Transcript(w, expected, pid)), w.counter)
    decreases |w.incoming|
  {
    hide DeleteSteps, Hear, ListedData, Landed, SentDeletes, HasDone, Counted;
    if w.incoming != [] {
      var w1 := Arrived(w);
      var heard := Hear(w1.mem, LandedLength(w.mem, w.incoming[0]));
      if heard.Heard? {
        StepsExact(w1, heard.msgs, expected, pid);
        var (w2, end) := DeleteSteps(w1, heard.msgs, expected, pid);
        if end.None? {
          DeletionsExact(w2, expected, pid);
          if DeleteLoop(w2, expected, pid).1 == RunDone {
            var rest := Transcript(w2, expected, pid);
            ListedDataSplit(heard.msgs, rest);
            HasDoneAppended(heard.msgs, rest);
            var after := DeleteLoop(w2, expected, pid).0.sent;
            SentTwice(w.sent, w2.sent, after, ListedData(heard.msgs), ListedData(rest), w.counter);
          }
        } else {
          assert heard.msgs + [] == heard.msgs;
        }
      }
    }
  }

  lemma HasDoneAppended(a: seq<Received>, b: seq<Received>)
    requires HasDone(b)
    ensures HasDone(a + b)
  {
    var i :| 0 <= i < |b| && b[i].h.typ == NLMSG_DONE;
    assert (a + b)[|a| + i].h.typ == NLMSG_DONE;
  }

  // ---------------------------------------------------------------------------
  // How the runs end
  // ---------------------------------------------------------------------------

  /** A message of this exchange, from the kernel or with the own pid. */
  ghost predicate Own(m: Received, expected: uint32, pid: uint32) {
    m.h.seq_ == expected && (m.h.pid == 0 || m.h.pid == pid)
  }

  /** A message neither run stops at: of this exchange, not DONE, and not an error but an acknowledgement. */
  ghost predicate Passes(m: Received, expected: uint32, pid: uint32) {
    Own(m, expected, pid) && m.h.typ != 3 && (m.h.typ == 2 ==> m.code == Some(0))
  }

  /** A deletion run over messages stops at the first that does not pass, and what it is tells how. */
  lemma {:induction false} DeleteEnds(w: World, ms: seq<Received>, expected: uint32, pid: uint32) returns (k: nat)
    requires Open(w)
    ensures k <= |ms| && forall i :: 0 <= i < k ==> Passes(ms[i], expected, pid)
    ensures var end := DeleteSteps(w, ms, expected, pid).1;
            && (end == None <==> k == |ms|)
            && (k < |ms| ==>
                  var m := ms[k];
                  && !Passes(m, expected, pid)
                  && (end == Some(RunDone) <==> Own(m, expected, pid) && m.h.typ == 3)
                  && (end == Some(RunPanic) <==> Own(m, expected, pid) && m.h.typ == 2 && m.code == None)
                  && (end == Some(RunError) <==>
                        !Own(m, expected, pid) || (m.h.typ == 2 && m.code.Some? && m.code != Some(0))))
    decreases |ms|
  {
    hide Sent;
    if ms == [] || DeleteStep(w, ms[0], expected, pid).1.Some? {
      k := 0;
    } else {
      var j := DeleteEnds(DeleteStep(w, ms[0], expected, pid).0, ms[1..], expected, pid);
      k := j + 1;
      forall i | 0 <= i < k ensures Passes(ms[i], expected, pid) {
        if i > 0 { assert ms[i] == ms[1..][i - 1]; }
      }
    }
  }

  /** A whole deletion run: the same over everything received, else the datagrams ran out or were unreadable. */
  lemma {:induction false} DeletionRunEnds(w: World, expected: uint32, pid: uint32) returns (k: nat)
    requires Open(w)
    ensures var ts, end := Transcript(w, expected, pid), DeleteLoop(w, expected, pid).1;
            && k <= |ts| && (forall i :: 0 <= i < k ==> Passes(ts[i], expected, pid))
            && (k == |ts| ==> end != RunDone)
            && (k < |ts| ==>
                  var m := ts[k];
                  && !Passes(m, expected, pid)
                  && (end == RunDone <==> Own(m, expected, pid) && m.h.typ == 3)
                  && (end == RunPanic <==> Own(m, expected, pid) && m.h.typ == 2 && m.code == None)
                  && (end == RunError <==>
                        !Own(m, expected, pid) || (m.h.typ == 2 && m.code.Some? && m.code != Some(0))))
    decreases |w.incoming|
  {
    hide DeleteSteps, Hear, Landed, Own, Passes;
    k := 0;
    if w.incoming != [] {
      var w1 := Arrived(w);
      var heard := Hear(w1.mem, LandedLength(w.mem, w.incoming[0]));
      if heard.Heard? {
        var ms := heard.msgs;
        k := DeleteEnds(w1, ms, expected, pid);
        var (w2, end) := DeleteSteps(w1, ms, expected, pid);
        if end.None? {
          var j := DeletionRunEnds(w2, expected, pid);
          k := |ms| + j;
          var rest := Transcript(w2, expected, pid);
          forall i | 0 <= i < k ensures Passes((ms + rest)[i], expected, pid) {
            if i >= |ms| { assert (ms + rest)[i] == rest[i - |ms|]; }
          }
        } else {
          assert ms + [] == ms;
        }
      }
    }
  }

  /** A listing run also stops at a rule it cannot decode. */
  ghost predicate Gathers(m: Received, expected: uint32, pid: uint32) {
    Passes(m, expected, pid) && (m.h.typ == 1013 ==> DecodeRule(m.data).Some?)
  }

  /** The rules carried by the messages. */
  function Decoded(ms: seq<Received>): seq<Rule> {
    if ms == [] then []
    else
      (if ms[0].h.typ == 1013 && DecodeRule(ms[0].data).Some? then [DecodeRule(ms[0].data).value] else [])
      + Decoded(ms[1..])
  }

  /**
   A listing run over messages collects the rules of all it passes. At the first other
   one it is done, if that is a DONE and all rules can be printed, or else it fails.
   */
  lemma {:induction false} ListEnds(ms: seq<Received>, expected: uint32, pid: uint32, acc: seq<Rule>, t: Tables)
      returns (k: nat)
    ensures k <= |ms| && forall i :: 0 <= i < k ==> Gathers(ms[i], expected, pid)
    ensures var end, rs := ListMany(ms, expected, pid, acc, t), acc + Decoded(ms[..k]);
            && (k == |ms| ==> end == Going(rs))
            && (k < |ms| ==>
                  var m := ms[k];
                  && !Gathers(m, expected, pid)
                  && end == if !Own(m, expected, pid) then ListError
                            else if m.h.typ == 3 then (if AllPrintable(rs, t) then Listed(rs) else ListPanic)
                            else if m.h.typ == 2 && m.code == None then ListPanic
                            else ListError)
    decreases |ms|
  {
    hide DecodeRule, AllPrintable;
    if ms == [] || !ListOne(ms[0], expected, pid, acc, t).Going? {
      k := 0;
      assert ms[..0] == [] && acc + Decoded([]) == acc;
    } else {
      var acc' := ListOne(ms[0], expected, pid, acc, t).acc;
      var j := ListEnds(ms[1..], expected, pid, acc', t);
      k := j + 1;
      forall i | 0 <= i < k ensures Gathers(ms[i], expected, pid) {
        if i > 0 { assert ms[i] == ms[1..][i - 1]; }
      }
      assert ms[..k][0] == ms[0] && ms[..k][1..] == ms[1..][..j];
      assert acc + Decoded(ms[..k]) == acc' + Decoded(ms[1..][..j]);
    }
  }

  /** A datagram too short for a header is passed over. */
  lemma ShortDatagramsIgnored(w: World, expected: uint32, pid: uint32, acc: seq<Rule>, t: Tables)
    requires Open(w) && w.incoming != [] && |w.incoming[0]| < NLMSG_HDRLEN
    ensures DeleteLoop(w, expected, pid) == DeleteLoop(Arrived(w), expected, pid)
    ensures ListLoop(w, expected, pid, acc, t) == ListLoop(Arrived(w), expected, pid, acc, t)
  {
    hide Landed;
    var n := LandedLength(w.mem, w.incoming[0]);
    assert Hear(Arrived(w).mem, n) == Heard([]);
  }

  // ---------------------------------------------------------------------------
  // ListAllRules
  // ---------------------------------------------------------------------------

  datatype ListStep = Going(acc: seq<Rule>) | Listed(acc: seq<Rule>) | ListError | ListPanic

  ghost predicate AllPrintable(rs: seq<Rule>, t: Tables) {
    forall i :: 0 <= i < |rs| ==> Shaped(rs[i]) && PrintRule(rs[i], t).Some?
  }

  /** One message. DONE prints every rule collected, which may panic on a malformed one. */
  ghost function ListOne(m: Received, expected: uint32, pid: uint32, acc: seq<Rule>, t: Tables): (s: ListStep)
    ensures s.Listed? ==> AllPrintable(s.acc, t)
  {
    if WrongOrigin(m.h, expected, pid) then ListError
    else if m.h.typ == NLMSG_DONE then (if AllPrintable(acc, t) then Listed(acc) else ListPanic)
    else if m.h.typ == NLMSG_ERROR && m.code != Some(0) then (if m.code.None? then ListPanic else ListError)
    else if m.h.typ == AUDIT_LIST_RULES then
      match DecodeRule(m.data)
      case None => ListError
      case Some(r) => Going(acc + [r])
    else Going(acc)
  }

  ghost function ListMany(ms: seq<Received>, expected: uint32, pid: uint32, acc: seq<Rule>, t: Tables): (s: ListStep)
    ensures s.Listed? ==> AllPrintable(s.acc, t)
    decreases |ms|
  {
    if ms == [] then Going(acc)
    else
      match ListOne(ms[0], expected, pid, acc, t)
      case Going(acc') => ListMany(ms[1..], expected, pid, acc', t)
      case Listed(rs) => Listed(rs)
      case ListError => ListError
      case ListPanic => ListPanic
  }

  /** The receive loop; the final step is `Listed`, `ListError` or `ListPanic`. */
  ghost function ListLoop(w: World, expected: uint32, pid: uint32, acc: seq<Rule>, t: Tables): (r: (World, ListStep))
    ensures |r.0.mem| == |w.mem| && r.0.sent == w.sent && r.0.counter == w.counter
    ensures r.1.Listed? ==> AllPrintable(r.1.acc, t)
    decreases |w.incoming|
  {
    if w.incoming == [] then (w, ListError)
    else
      var w1 := Arrived(w);
      match Hear(w1.mem, LandedLength(w.mem, w.incoming[0]))
      case HeardPanic => (w1, ListPanic)
      case HeardError => (w1, ListError)
      case Heard(ms) =>
        match ListMany(ms, expected, pid, acc, t)
        case Going(acc') => ListLoop(w1, expected, pid, acc', t)
        case Listed(rs) => (w1, Listed(rs))
        case ListError => (w1, ListError)
        case ListPanic => (w1, ListPanic)
  }

  ghost function ListAll(w: World, pid: uint32, t: Tables): (r: (World, ListStep))
    requires Open(w)
    ensures |r.0.mem| == |w.mem| && (r.1.Listed? ==> AllPrintable(r.1.acc, t))
  {
    var w1 := Sent(w, AUDIT_LIST_RULES, []);
    ListLoop(w1, w1.counter, pid, [], t)
  }

  /** Prints the collected rules; `None` is a panic. */
  method PrintAll(rs: seq<Rule>, t: Tables) returns (texts: Option<seq<string>>)
    requires forall i :: 0 <= i < |rs| ==> Shaped(rs[i])
    ensures texts.Some? <==> AllPrintable(rs, t)
    ensures texts.Some? ==>
              |texts.value| == |rs| && forall i :: 0 <= i < |rs| ==> PrintRule(rs[i], t) == Some(texts.value[i])
  {
    hide PrintRule;
    var result: seq<string> := [];
    for i := 0 to |rs|
      invariant |result| == i && forall j :: 0 <= j < i ==> PrintRule(rs[j], t) == Some(result[j])
    {
      var printed := Print(rs[i], t);
      if printed == None { return None; }
      result := result + [printed.value];
    }
    return Some(result);
  }

  /** ListAllRules, including the printed form of each rule. */
  method ListAllRules(s: NetlinkConnection, t: Tables) returns (step: ListStep, texts: seq<string>)
    requires s.Valid()
    modifies s, s.rb
    ensures (s.View(), step) == ListAll(old(s.View()), s.socketPid, t)
    ensures step.Listed? ==> |texts| == |step.acc| && forall i :: 0 <= i < |texts| ==>
      Shaped(step.acc[i]) && PrintRule(step.acc[i], t) == Some(texts[i])
  {
    hide Sent, Landed, Walk, PrintRule, DecodeRule, ListMany;
    texts := [];
    var expected := s.Send(AUDIT_LIST_RULES, []);
    ghost var start := s.View();
    var ruleArray: seq<Rule> := [];
    while true
      invariant forall i :: 0 <= i < |ruleArray| ==> Shaped(ruleArray[i])
      invariant ListLoop(s.View(), expected, s.socketPid, ruleArray, t) == ListLoop(start, expected, s.socketPid, [], t)
      decreases |s.incoming|
    {
      var n := s.ReceiveNoParse();
      if n == None { return ListError, texts; }
      var ms: seq<Message> := [];
      WalkInOrder(s.rb[..], 0, n.value);
      if n.value >= NLMSG_HDRLEN {
        var parsed := ParseAuditNetlinkMessage(s.rb, n.value);
        if parsed == Panic { return ListPanic, texts; }
        if parsed == MalformedHeader { return ListError, texts; }
        ms := parsed.msgs;
      }
      step, texts := ListMessages(s, ms, expected, ruleArray, t);
      if !step.Going? { return; }
      ruleArray := step.acc;
    }
  }

  /** The inner loop over one datagram's messages. */
  method ListMessages(s: NetlinkConnection, ms: seq<Message>, expected: uint32, acc: seq<Rule>, t: Tables)
      returns (step: ListStep, texts: seq<string>)
    requires s.Valid() && InBuffer(ms, s.rb.Length) && forall i :: 0 <= i < |acc| ==> Shaped(acc[i])
    ensures step == ListMany(AllContents(s.rb[..], ms), expected, s.socketPid, acc, t)
    ensures step.Going? ==> forall i :: 0 <= i < |step.acc| ==> Shaped(step.acc[i])
    ensures step.Listed? ==> |texts| == |step.acc| && forall i :: 0 <= i < |texts| ==>
      Shaped(step.acc[i]) && PrintRule(step.acc[i], t) == Some(texts[i])
  {
    hide PrintRule, DecodeRule, Word32At;
    texts := [];
    var ruleArray := acc;
    ghost var all := AllContents(s.rb[..], ms);
    for i := 0 to |ms|
      invariant forall j :: 0 <= j < |ruleArray| ==> Shaped(ruleArray[j])
      invariant ListMany(all, expected, s.socketPid, acc, t) == ListMany(all[i..], expected, s.socketPid, ruleArray, t)
    {
      assert all[i..][1..] == all[i + 1..];
      var m := ms[i];
      if m.h.seq_ != expected { return ListError, texts; }
      if m.h.pid > 0 && m.h.pid != s.socketPid { return ListError, texts; }
      if m.h.typ == NLMSG_DONE {
        var printed := PrintAll(ruleArray, t);
        if printed == None { return ListPanic, texts; }
        return Listed(ruleArray), printed.value;
      }
      if m.h.typ == NLMSG_ERROR {
        if m.lo + 4 > s.rb.Length { return ListPanic, texts; }
        var e := Word32At(s.rb[..], m.lo);
        if e != 0 { return ListError, texts; }
      }
      if m.h.typ == AUDIT_LIST_RULES {
        var r := DecodeRule(s.rb[m.lo..m.hi]);
        if r == None { return ListError, texts; }
        ruleArray := ruleArray + [r.value];
      }
    }
    return Going(ruleArray), texts;
  }

  // ---------------------------------------------------------------------------
  // CleanupRules
  // ---------------------------------------------------------------------------

  /** `Cleaned(None)` is a nil error. */
  datatype CleanupEnd = Cleaned(err: Option<Verdict>) | CleanupPanic

  predicate Present(r: Rule, rules: seq<Rule>) {
    exists i :: 0 <= i < |rules| && CompareRules(r, rules[i])
  }

  /** Deletes the listed rules that are to go; `last` is the outcome of the latest attempt. */
  function CleanupLoop(w: World, listed: seq<Rule>, gone: seq<Rule>, pid: uint32, last: Option<Verdict>)
      : (r: (World, CleanupEnd))
    requires Open(w) && forall i :: 0 <= i < |listed| ==> Shaped(listed[i])
    decreases |listed|
  {
    if listed == [] then (w, Cleaned(last))
    else if !Present(listed[0], gone) then CleanupLoop(w, listed[1..], gone, pid, last)
    else
      var (w', v) := AskedRule(w, AUDIT_DEL_RULE, listed[0], pid);
      if v == Panics then (w', CleanupPanic)
      else CleanupLoop(w', listed[1..], gone, pid, if v == Accepted then None else Some(v))
  }

  /** CleanupRules: a failed listing is not reported, and only the latest deletion's error is. */
  ghost function Cleanup(w: World, gone: seq<Rule>, pid: uint32, t: Tables): (World, CleanupEnd)
    requires Open(w)
  {
    var (w1, step) := ListAll(w, pid, t);
    match step
    case ListPanic => (w1, CleanupPanic)
    case Listed(rs) =>
      if gone == [] then (w1, Cleaned(None)) else CleanupLoop(w1, rs, gone, pid, None)
    case _ => (w1, Cleaned(None))
  }

  /** auditDeleteRuleData */
  method DeleteRuleData(s: NetlinkConnection, r: Rule) returns (v: Verdict)
    requires s.Valid() && Shaped(r)
    modifies s, s.rb
    ensures (s.View(), v) == AskedRule(old(s.View()), AUDIT_DEL_RULE, r, s.socketPid)
  {
    hide EncodeRule, Asked;
    if r.flags == AUDIT_FILTER_ENTRY { return EntryDeprecated; }
    v := Ask(s, AUDIT_DEL_RULE, EncodeRule(r));
  }

  method CleanupRules(s: NetlinkConnection, gone: seq<Rule>, t: Tables) returns (end: CleanupEnd)
    requires s.Valid()
    modifies s, s.rb
    ensures (s.View(), end) == Cleanup(old(s.View()), gone, s.socketPid, t)
  {
    hide ListAll, AskedRule, PrintRule;
    var step, _ := ListAllRules(s, t);
    if step == ListPanic { return CleanupPanic; }
    var delFailure, err := false, None;
    if |gone| != 0 && step.Listed? {
      var ruleArray := step.acc;
      ghost var start := s.View();
      for i := 0 to |ruleArray|
        invariant err.Some? ==> delFailure
        invariant CleanupLoop(start, ruleArray, gone, s.socketPid, None) ==
                  CleanupLoop(s.View(), ruleArray[i..], gone, s.socketPid, err)
      {
        assert ruleArray[i..][1..] == ruleArray[i + 1..];
        var present := IsAuditRulePresent(ruleArray[i], gone);
        if present {
          var v := DeleteRuleData(s, ruleArray[i]);
          if v == Panics { return CleanupPanic; }
          err := if v == Accepted then None else Some(v);
          if err.Some? { delFailure := true; }
        }
      }
    }
    if delFailure { return Cleaned(err); }
    return Cleaned(None);
  }
}
