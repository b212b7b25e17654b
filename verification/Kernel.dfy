/**
 The other end of the socket: a kernel that holds a list of rules, adds the rule
 of every add request, removes one equal rule for every delete request, and
 answers a list request with its rules. Its state is a function of what was sent.
 */
module Kernel {
  import opened Words
  import opened Netlink
  import opened Connection
  import opened Rules
  import opened RuleLayout
  import opened RuleWire
  import opened RulePrint
  import opened Config
  import opened Install
  import opened InstallFacts
  import opened Manage

  function RemoveFirst(k: seq<Rule>, r: Rule): seq<Rule> {
    if k == [] then [] else if k[0] == r then k[1..] else [k[0]] + RemoveFirst(k[1..], r)
  }

  function KernelStep(k: seq<Rule>, wire: bytes): seq<Rule> {
    if |wire| < NLMSG_HDRLEN then k
    else
      var typ := HeaderAt(wire, 0).typ;
      match DecodeRule(wire[NLMSG_HDRLEN..])
      case None => k
      case Some(r) => if typ == AUDIT_ADD_RULE then k + [r] else if typ == AUDIT_DEL_RULE then RemoveFirst(k, r) else k
  }

  /** The kernel's rules after the requests in `sent`, starting from `k`. */
  function Loaded(k: seq<Rule>, sent: seq<bytes>): seq<Rule> {
    if sent == [] then k else KernelStep(Loaded(k, sent[..|sent| - 1]), sent[|sent| - 1])
  }

  lemma LoadedSnoc(k: seq<Rule>, sent: seq<bytes>, wire: bytes)
    ensures Loaded(k, sent + [wire]) == KernelStep(Loaded(k, sent), wire)
  {
    assert (sent + [wire])[..|sent|] == sent;
  }

  /** A rule whose wire image decodes back to it. */
  ghost predicate Sound(r: Rule) {
    Shaped(r) && r.buflen == |r.buf|
  }

  lemma WireHeader(h: Header, data: bytes)
    ensures HeaderAt(HeaderBytes(h) + data, 0) == h && (HeaderBytes(h) + data)[NLMSG_HDRLEN..] == data
  {
    hide HeaderBytes, HeaderAt;
    assert [] + HeaderBytes(h) + data == HeaderBytes(h) + data;
    HeaderRoundTrip([], h, data);
  }

  /** Effect of one request on the kernel. */
  lemma SentLoads(w: World, typ: uint16, data: bytes, k: seq<Rule>)
    requires Open(w)
    ensures var r := DecodeRule(data);
            Loaded(k, Sent(w, typ, data).sent) ==
            if r.None? then Loaded(k, w.sent)
            else if typ == AUDIT_ADD_RULE then Loaded(k, w.sent) + [r.value]
            else if typ == AUDIT_DEL_RULE then RemoveFirst(Loaded(k, w.sent), r.value)
            else Loaded(k, w.sent)
  {
    hide HeaderBytes, HeaderAt, DecodeRule, Serialized, Loaded, RemoveFirst;
    var h := RequestHeader(typ, |data|, w.counter);
    LoadedSnoc(k, w.sent, HeaderBytes(h) + data);
    WireHeader(h, data);
  }

  lemma AskedRuleLoads(w: World, typ: uint16, r: Rule, pid: uint32, k: seq<Rule>)
    requires Open(w) && Sound(r) && r.flags != AUDIT_FILTER_ENTRY && typ in {AUDIT_ADD_RULE, AUDIT_DEL_RULE}
    ensures Loaded(k, AskedRule(w, typ, r, pid).0.sent) ==
            if typ == AUDIT_ADD_RULE then Loaded(k, w.sent) + [r] else RemoveFirst(Loaded(k, w.sent), r)
  {
    hide Sent, Replied, EncodeRule, DecodeRule, Loaded, RemoveFirst;
    SentLoads(w, typ, EncodeRule(r), k);
    DecodeEncode(r, []);
    assert EncodeRule(r) + [] == EncodeRule(r);
  }

  lemma {:induction false} NeverEntry(w: World, expected: uint32, pid: uint32)
    ensures Replied(w, expected, pid).1 != EntryDeprecated
  {
    hide Replied, AllEvents, SteppedOver;
    var k := ReplyIsFlat(w, expected, pid);
    var es := AllEvents(w.mem, w.incoming);
    if k < |es| { DecidesNoEntry(es[k], expected, pid); }
  }

  lemma DecidesNoEntry(e: Event, expected: uint32, pid: uint32)
    ensures Decide(e, expected, pid) != Some(EntryDeprecated)
  {
  }

  /** Exactly the rules on the entry filter are refused, and nothing is sent for them; any other is sent once. */
  lemma EntryRefusedIff(w: World, typ: uint16, r: Rule, pid: uint32) returns (wire: bytes)
    requires Open(w) && Shaped(r)
    ensures var (w', v) := AskedRule(w, typ, r, pid);
            && (v == EntryDeprecated <==> r.flags == 2)
            && (r.flags == 2 ==> w' == w)
            && (r.flags != 2 ==> w'.sent == w.sent + [wire] && Request(wire, typ, EncodeRule(r), w'.counter))
  {
    hide Sent, Request, Replied, EncodeRule;
    wire := SentRequest(w, typ, EncodeRule(r));
    var w1 := Sent(w, typ, EncodeRule(r));
    NeverEntry(w1, w1.counter, pid);
  }

  // ---------------------------------------------------------------------------
  // Installing
  // ---------------------------------------------------------------------------

  /** What every installed rule is: well laid out, and not on the entry filter. */
  ghost predicate Installable(r: Rule) {
    Sound(r) && r.flags != AUDIT_FILTER_ENTRY && exists log :: Laid(r, log)
  }

  ghost predicate AllInstallable(rs: seq<Rule>) {
    forall i :: 0 <= i < |rs| ==> Installable(rs[i])
  }

  lemma LaidInstallable(r: Rule, log: Log)
    requires Laid(r, log) && r.flags != AUDIT_FILTER_ENTRY
    ensures Installable(r)
  {
    hide Packed;
  }

  lemma FileInstallable(f: FileRule, flags: Flags, strict: bool, host: Host)
    ensures var c := CompileFile(f, flags, strict, host).1;
            c.Ready? ==> Installable(c.rule)
  {
    hide Laid, Installable, SetupWatch, WithPermission, WithKey;
    var c := CompileFile(f, flags, strict, host).1;
    if c.Ready? {
      CompileFileLaid(f, flags, strict, host);
      LaidInstallable(c.rule, [Some(TrimSlashes(f.path.value)), None] + KeyEntry(f.key));
    }
  }

  lemma SyscallInstallable(s: SyscallRule, flags: Flags, host: Host)
    ensures var c := CompileSyscall(s, flags, host).1;
            c.Ready? ==> Installable(c.rule)
  {
    hide Laid, Installable, CompileSyscall;
    var c := CompileSyscall(s, flags, host).1;
    var log := CompileSyscallLaid(s, flags, host);
    if c.Ready? { LaidInstallable(c.rule, log); }
  }

  /** No request was refused: the run goes on, or has ended at a missing path or a rule that does not compile. */
  ghost predicate Unrefused(st: Session) {
    st.stop.Some? ==> st.stop.value.Returned? && (st.stop.value.err.Some? ==> st.stop.value.err.value.Compile?)
  }

  /** The kernel holds exactly `base` followed by the rules installed so far. */
  ghost predicate Tracks(st: Session, k: seq<Rule>, base: seq<Rule>) {
    Open(st.w) && AllInstallable(st.rules) && (Unrefused(st) ==> Loaded(k, st.w.sent) == base + st.rules)
  }

  lemma InstalledTracks(st: Session, flags: Flags, c: Compiled, pid: uint32, k: seq<Rule>, base: seq<Rule>)
    requires Tracks(st, k, base) && st.stop.None? && (c.Ready? ==> Installable(c.rule))
    ensures Tracks(Installed(st, flags, c, pid), k, base)
  {
    hide AskedRule, Loaded, Installable;
    if c.Ready? {
      InstallableSound(c.rule);
      AskedRuleLoads(st.w, AUDIT_ADD_RULE, c.rule, pid, k);
      assert base + st.rules + [c.rule] == base + (st.rules + [c.rule]);
    }
  }

  lemma InstallableSound(r: Rule)
    requires Installable(r)
    ensures Sound(r) && r.flags != AUDIT_FILTER_ENTRY
  {
  }

  lemma {:induction false} FilesTrack(st: Session, files: seq<FileRule>, cx: Context, k: seq<Rule>, base: seq<Rule>)
    requires Tracks(st, k, base)
    ensures Tracks(FileSteps(st, files, cx), k, base)
    decreases |files|
  {
    hide CompileFile, Installed, Installable, Loaded;
    if st.stop.None? && files != [] {
      FileInstallable(files[0], st.flags, cx.strict, cx.host);
      var (flags, c) := CompileFile(files[0], st.flags, cx.strict, cx.host);
      InstalledTracks(st, flags, c, cx.pid, k, base);
      FilesTrack(FileStep(st, files[0], cx), files[1..], cx, k, base);
    }
  }

  lemma {:induction false} SyscallsTrack(st: Session, rules: seq<SyscallRule>, cx: Context, k: seq<Rule>,
                                         base: seq<Rule>)
    requires Tracks(st, k, base)
    ensures Tracks(SyscallSteps(st, rules, cx), k, base)
    decreases |rules|
  {
    hide CompileSyscall, Installed, Installable, Loaded;
    if st.stop.None? && rules != [] {
      SyscallInstallable(rules[0], st.flags, cx.host);
      var (flags, c) := CompileSyscall(rules[0], st.flags, cx.host);
      InstalledTracks(st, flags, c, cx.pid, k, base);
      SyscallsTrack(SyscallStep(st, rules[0], cx), rules[1..], cx, k, base);
    }
  }

  /** However far a run gets without an error, the kernel's list has grown by exactly the rules it installed. */
  lemma {:induction false} SectionsTrack(st: Session, sections: seq<Section>, cx: Context, k: seq<Rule>,
                                         base: seq<Rule>)
    requires Tracks(st, k, base)
    ensures Tracks(SectionSteps(st, sections, cx), k, base)
    decreases |sections|
  {
    hide FileSteps, SyscallSteps, Installable, Loaded;
    if st.stop.None? && sections != [] {
      var st0 := st.(flags := st.flags.(syscall := false));
      match sections[0] {
        case FileRules(files) => FilesTrack(st0, files, cx, k, base);
        case SyscallRules(rules) => SyscallsTrack(st0, rules, cx, k, base);
        case OtherKey =>
      }
      SectionsTrack(SectionStep(st, sections[0], cx), sections[1..], cx, k, base);
    }
  }

  /** A run that ends at a rule that does not compile returns nothing, and all rules before it stay in the kernel. */
  lemma FailedRunLeavesRules(st0: Session, sections: seq<Section>, cx: Context, k: seq<Rule>)
    requires Open(st0.w) && st0.rules == [] && st0.stop.None?
    ensures var st := SectionSteps(st0, sections, cx);
            ResultOf(st).Returned? && ResultOf(st).err.Some? && ResultOf(st).err.value.Compile? ==>
              ResultOf(st).rules == [] && Loaded(k, st.w.sent) == Loaded(k, st0.w.sent) + st.rules
  {
    hide SectionSteps, Loaded, Installable;
    var before := Loaded(k, st0.w.sent);
    assert before + [] == before;
    SectionsTrack(st0, sections, cx, k, before);
    ErrorsReturnNothing(st0, sections, cx);
  }

  // ---------------------------------------------------------------------------
  // The answer to a list request
  // ---------------------------------------------------------------------------

  /**
   Frames that list `rules` in order: a frame per rule, acknowledgements and
   unrelated messages anywhere between, and DONE at the end if `done`.
   */
  ghost predicate Lists(fs: seq<Frame>, expected: uint32, pid: uint32, rules: seq<Rule>, done: bool)
    decreases |fs|
  {
    if fs == [] then rules == [] && !done
    else
      var f := fs[0];
      && WellFramed(f) && !WrongOrigin(f.h, expected, pid)
      && if f.h.typ == NLMSG_DONE then done && rules == [] && |fs| == 1
         else if f.h.typ == NLMSG_ERROR then
           |f.payload| >= 4 && Word32At(f.payload, 0) == 0 && Lists(fs[1..], expected, pid, rules, done)
         else if f.h.typ == AUDIT_LIST_RULES then
           && rules != [] && Sound(rules[0]) && f.payload == EncodeRule(rules[0])
           && Lists(fs[1..], expected, pid, rules[1..], done)
         else Lists(fs[1..], expected, pid, rules, done)
  }

  /** One datagram of the answer. */
  datatype Group = Group(frames: seq<Frame>, rules: seq<Rule>)

  /** An answer cut into datagrams in any way that fits the receive buffer; DONE ends the last one. */
  ghost predicate Answer(groups: seq<Group>, expected: uint32, pid: uint32, size: nat)
    decreases |groups|
  {
    && groups != []
    && Lists(groups[0].frames, expected, pid, groups[0].rules, |groups| == 1)
    && |StreamBytes(groups[0].frames)| + NLMSG_HDRLEN <= size
    && (|groups| > 1 ==> Answer(groups[1..], expected, pid, size))
  }

  function Datagrams(groups: seq<Group>): seq<bytes>
    decreases |groups|
  {
    if groups == [] then [] else [StreamBytes(groups[0].frames)] + Datagrams(groups[1..])
  }

  function AnswerRules(groups: seq<Group>): seq<Rule>
    decreases |groups|
  {
    if groups == [] then [] else groups[0].rules + AnswerRules(groups[1..])
  }

  lemma {:induction false} ListsFramed(fs: seq<Frame>, expected: uint32, pid: uint32, rules: seq<Rule>, done: bool)
    requires Lists(fs, expected, pid, rules, done)
    ensures forall i :: 0 <= i < |fs| ==> WellFramed(fs[i])
    decreases |fs|
  {
    hide EncodeRule, Word32At;
    if fs != [] && fs[0].h.typ != NLMSG_DONE {
      ListsFramed(fs[1..], expected, pid, if fs[0].h.typ == AUDIT_LIST_RULES then rules[1..] else rules, done);
      forall i | 0 <= i < |fs| ensures WellFramed(fs[i]) {
        if i > 0 { assert fs[i] == fs[1..][i - 1]; }
      }
    }
  }

  /** A message as heard, and the frame it came from. */
  ghost predicate HeardFrame(m: Received, f: Frame) {
    m.h == f.h && f.payload <= m.data && (|f.payload| >= 4 ==> m.code == Some(Word32At(f.payload, 0)))
  }

  ghost predicate HeardFrames(ms: seq<Received>, fs: seq<Frame>) {
    |ms| == |fs| && forall i :: 0 <= i < |fs| ==> HeardFrame(ms[i], fs[i])
  }

  lemma CarriedHeard(mem: bytes, m: Message, f: Frame)
    requires Carries(mem, m, f)
    ensures HeardFrame(Contents(mem, m), f)
  {
    assert mem[m.lo..m.hi][..|f.payload|] == mem[m.lo..m.lo + |f.payload|];
    if |f.payload| >= 4 {
      assert forall i :: 0 <= i < 4 ==> mem[m.lo + i] == f.payload[i];
    }
  }

  /** A framed datagram is heard message by message, whatever was in the buffer before. */
  lemma HearFrames(mem: bytes, fs: seq<Frame>)
    requires (forall i :: 0 <= i < |fs| ==> WellFramed(fs[i])) && |StreamBytes(fs)| + NLMSG_HDRLEN <= |mem|
    ensures var d := StreamBytes(fs);
            var heard := Hear(Landed(mem, d), LandedLength(mem, d));
            heard.Heard? && HeardFrames(heard.msgs, fs)
  {
    hide Walk, StreamBytes, Contents, HeardFrame, Carries;
    var d := StreamBytes(fs);
    var mem' := Landed(mem, d);
    assert mem' == [] + d + mem[|d|..];
    StreamRoundTrip([], fs, mem[|d|..]);
    WalkInOrder(mem', 0, |d|);
    var ms := Walk(mem', 0, |d|).msgs;
    if |d| < NLMSG_HDRLEN { ShortStream(fs); }
    forall i | 0 <= i < |fs| ensures HeardFrame(Contents(mem', ms[i]), fs[i]) {
      CarriedHeard(mem', ms[i], fs[i]);
    }
  }

  lemma ShortStream(fs: seq<Frame>)
    requires |StreamBytes(fs)| < NLMSG_HDRLEN
    ensures fs == []
  {
    hide FrameBytes;
  }

  lemma AllPrintableParts(a: seq<Rule>, b: seq<Rule>, t: Tables)
    requires AllPrintable(a + b, t)
    ensures AllPrintable(a, t)
  {
    hide PrintRule;
    forall i | 0 <= i < |a| ensures Shaped(a[i]) && PrintRule(a[i], t).Some? { assert (a + b)[i] == a[i]; }
  }

  /** Heard frames that list `rules` add exactly those. */
  lemma {:induction false} ListManyExact(ms: seq<Received>, fs: seq<Frame>, expected: uint32, pid: uint32,
                                         rules: seq<Rule>, done: bool, acc: seq<Rule>, t: Tables)
    requires HeardFrames(ms, fs) && Lists(fs, expected, pid, rules, done) && AllPrintable(acc + rules, t)
    ensures ListMany(ms, expected, pid, acc, t) == if done then Listed(acc + rules) else Going(acc + rules)
    decreases |fs|
  {
    hide EncodeRule, DecodeRule, PrintRule, Word32At;
    if fs == [] {
      assert acc + rules == acc;
    } else {
      var m, f := ms[0], fs[0];
      assert HeardFrame(m, f);
      assert HeardFrames(ms[1..], fs[1..]) by {
        forall i | 0 <= i < |fs[1..]|
          ensures HeardFrame(ms[1..][i], fs[1..][i]) { assert HeardFrame(ms[i + 1], fs[i + 1]); }
      }
      if f.h.typ == NLMSG_DONE {
        assert acc + rules == acc;
      } else if f.h.typ == AUDIT_LIST_RULES {
        PrefixDecodes(m.data, rules[0]);
        assert acc + rules == acc + [rules[0]] + rules[1..];
        ListManyExact(ms[1..], fs[1..], expected, pid, rules[1..], done, acc + [rules[0]], t);
      } else {
        ListManyExact(ms[1..], fs[1..], expected, pid, rules, done, acc, t);
      }
    }
  }

  /** The list loop returns exactly the rules of the answer and leaves the datagrams behind it. */
  lemma {:induction false} ListLoopExact(w: World, groups: seq<Group>, rest: seq<bytes>, expected: uint32,
                                         pid: uint32, acc: seq<Rule>, t: Tables)
    requires Answer(groups, expected, pid, |w.mem|) && w.incoming == Datagrams(groups) + rest
    requires AllPrintable(acc + AnswerRules(groups), t)
    ensures var (w', step) := ListLoop(w, expected, pid, acc, t);
            step == Listed(acc + AnswerRules(groups)) && w'.incoming == rest
    decreases |groups|
  {
    hide Lists, ListMany, Hear, Landed, StreamBytes, AllPrintable, HeardFrames;
    var g := groups[0];
    var more := groups[1..];
    assert w.incoming[0] == StreamBytes(g.frames) && w.incoming[1..] == Datagrams(more) + rest;
    ListsFramed(g.frames, expected, pid, g.rules, |groups| == 1);
    HearFrames(w.mem, g.frames);
    var w1 := Arrived(w);
    var ms := Hear(w1.mem, LandedLength(w.mem, w.incoming[0])).msgs;
    assert acc + AnswerRules(groups) == acc + g.rules + AnswerRules(more);
    AllPrintableParts(acc + g.rules, AnswerRules(more), t);
    ListManyExact(ms, g.frames, expected, pid, g.rules, |groups| == 1, acc, t);
    if |groups| == 1 {
      assert more == [] && AnswerRules(more) == [] && acc + g.rules + [] == acc + g.rules;
      assert Datagrams(more) == [] && [] + rest == rest;
    } else {
      ListLoopExact(w1, more, rest, expected, pid, acc + g.rules, t);
    }
  }

  // ---------------------------------------------------------------------------
  // Cleaning up
  // ---------------------------------------------------------------------------

  /** The rules that are not to go. */
  ghost function Kept(rs: seq<Rule>, gone: seq<Rule>): seq<Rule> {
    if rs == [] then [] else (if Present(rs[0], gone) then [] else [rs[0]]) + Kept(rs[1..], gone)
  }

  ghost predicate NonePresent(rs: seq<Rule>, gone: seq<Rule>) {
    forall i :: 0 <= i < |rs| ==> !Present(rs[i], gone)
  }

  lemma {:induction false} RemoveBehind(a: seq<Rule>, x: Rule, b: seq<Rule>)
    requires x !in a
    ensures RemoveFirst(a + [x] + b, x) == a + b
    decreases |a|
  {
    if a == [] {
      assert a + [x] + b == [x] + b && a + b == b;
    } else {
      assert (a + [x] + b)[1..] == a[1..] + [x] + b;
      RemoveBehind(a[1..], x, b);
      assert [a[0]] + (a[1..] + b) == a + b;
    }
  }

  /** Datagrams that cannot make a walk leave its bounds. */
  ghost predicate Calm(incoming: seq<bytes>, size: nat) {
    forall i :: 0 <= i < |incoming| ==> |incoming[i]| % 4 == 0 && |incoming[i]| + NLMSG_HDRLEN <= size
  }

  lemma {:induction false} EventsCalm(mem: bytes, pos: nat, end: nat)
    requires pos <= end && (end - pos) % 4 == 0 && end + NLMSG_HDRLEN <= |mem|
    ensures forall i :: 0 <= i < |Events(mem, pos, end)| ==>
      var e := Events(mem, pos, end)[i]; e != Overshoot && (e.Reply? ==> e.code.Some?)
    decreases end - pos
  {
    hide HeaderAt, Word32At;
    if end - pos >= NLMSG_HDRLEN {
      var h := HeaderAt(mem, pos);
      if GoodLength(h, end - pos) {
        AlignWithin(h.len, end - pos);
        var next := pos + NlmAlignOf(h.len);
        EventsCalm(mem, next, end);
        assert Events(mem, pos, end)[1..] == Events(mem, next, end);
        forall i | 0 <= i < |Events(mem, pos, end)| ensures
          var e := Events(mem, pos, end)[i]; e != Overshoot && (e.Reply? ==> e.code.Some?)
        {
          if i > 0 { assert Events(mem, pos, end)[i] == Events(mem, next, end)[i - 1]; }
        }
      }
    }
  }

  lemma {:induction false} RepliedCalm(w: World, expected: uint32, pid: uint32)
    requires Calm(w.incoming, |w.mem|)
    ensures Replied(w, expected, pid).1 != Panics
    ensures Calm(Replied(w, expected, pid).0.incoming, |w.mem|)
    decreases |w.incoming|
  {
    hide Events, FirstVerdict, Landed;
    if w.incoming != [] {
      var w1 := Arrived(w);
      var n := LandedLength(w.mem, w.incoming[0]);
      EventsCalm(w1.mem, 0, n);
      var k := FirstVerdictIs(Events(w1.mem, 0, n), expected, pid);
      assert Calm(w1.incoming, |w1.mem|) by {
        forall i | 0 <= i < |w1.incoming|
          ensures |w1.incoming[i]| % 4 == 0 && |w1.incoming[i]| + NLMSG_HDRLEN <= |w.mem|
        {
          assert w1.incoming[i] == w.incoming[i + 1];
        }
      }
      RepliedCalm(w1, expected, pid);
    }
  }

  lemma AskedRuleCalm(w: World, typ: uint16, r: Rule, pid: uint32)
    requires Open(w) && Shaped(r) && Calm(w.incoming, |w.mem|)
    ensures AskedRule(w, typ, r, pid).1 != Panics
    ensures Calm(AskedRule(w, typ, r, pid).0.incoming, |w.mem|)
  {
    hide EncodeRule, Replied, Sent;
    if r.flags != AUDIT_FILTER_ENTRY {
      var w1 := Sent(w, typ, EncodeRule(r));
      RepliedCalm(w1, w1.counter, pid);
    }
  }

  /** Deleting the listed rules that are to go leaves exactly the others, in their order. */
  lemma {:induction false} CleanupKeeps(w: World, front: seq<Rule>, listed: seq<Rule>, gone: seq<Rule>, pid: uint32,
                                        last: Option<Verdict>, k: seq<Rule>)
    requires Open(w) && Calm(w.incoming, |w.mem|)
    requires (forall i :: 0 <= i < |listed| ==> Shaped(listed[i]) && Sound(listed[i])) && AllInstallable(gone)
    requires Loaded(k, w.sent) == front + listed && NonePresent(front, gone)
    ensures var (w', end) := CleanupLoop(w, listed, gone, pid, last);
            end.Cleaned? && Loaded(k, w'.sent) == front + Kept(listed, gone)
    decreases |listed|
  {
    hide AskedRule, Loaded, RemoveFirst, Present;
    if listed != [] {
      var x, rest := listed[0], listed[1..];
      forall i | 0 <= i < |rest| ensures Shaped(rest[i]) && Sound(rest[i]) { assert rest[i] == listed[i + 1]; }
      if Present(x, gone) {
        PresentInstallable(x, gone);
        AskedRuleLoads(w, AUDIT_DEL_RULE, x, pid, k);
        AskedRuleCalm(w, AUDIT_DEL_RULE, x, pid);
        assert front + listed == front + [x] + rest;
        assert x !in front;
        RemoveBehind(front, x, rest);
        var (w1, v) := AskedRule(w, AUDIT_DEL_RULE, x, pid);
        CleanupKeeps(w1, front, rest, gone, pid, if v == Accepted then None else Some(v), k);
        assert [] + Kept(rest, gone) == Kept(rest, gone);
      } else {
        assert front + listed == front + [x] + rest;
        CleanupKeeps(w, front + [x], rest, gone, pid, last, k);
        assert front + [x] + Kept(rest, gone) == front + ([x] + Kept(rest, gone));
      }
    } else {
      assert front + listed == front + Kept(listed, gone);
    }
  }

  /** A listed rule equal to an installed one is not on the entry filter, so its deletion is sent. */
  lemma PresentInstallable(x: Rule, gone: seq<Rule>)
    requires Present(x, gone) && AllInstallable(gone)
    ensures x.flags != AUDIT_FILTER_ENTRY
  {
    var i :| 0 <= i < |gone| && CompareRules(x, gone[i]);
    assert Installable(gone[i]);
  }

  lemma {:induction false} KeptSplit(a: seq<Rule>, b: seq<Rule>, gone: seq<Rule>)
    ensures Kept(a + b, gone) == Kept(a, gone) + Kept(b, gone)
    decreases |a|
  {
    hide Present;
    if a == [] {
      assert a + b == b && [] + Kept(b, gone) == Kept(b, gone);
    } else {
      assert (a + b)[1..] == a[1..] + b;
      KeptSplit(a[1..], b, gone);
      var first := if Present(a[0], gone) then [] else [a[0]];
      assert first + (Kept(a[1..], gone) + Kept(b, gone)) == first + Kept(a[1..], gone) + Kept(b, gone);
    }
  }

  lemma {:induction false} KeptNone(rs: seq<Rule>, gone: seq<Rule>)
    requires forall i :: 0 <= i < |rs| ==> Present(rs[i], gone)
    ensures Kept(rs, gone) == []
    decreases |rs|
  {
    hide Present;
    if rs != [] {
      forall i | 0 <= i < |rs[1..]| ensures Present(rs[1..][i], gone) { assert Present(rs[i + 1], gone); }
      KeptNone(rs[1..], gone);
    }
  }

  lemma {:induction false} KeptLength(rs: seq<Rule>, gone: seq<Rule>)
    ensures |Kept(rs, gone)| <= |rs|
    ensures |Kept(rs, gone)| == |rs| <==> NonePresent(rs, gone)
    ensures NonePresent(rs, gone) ==> Kept(rs, gone) == rs
    decreases |rs|
  {
    hide Present;
    if rs != [] {
      KeptLength(rs[1..], gone);
      if NonePresent(rs, gone) {
        forall i | 0 <= i < |rs[1..]| ensures !Present(rs[1..][i], gone) { assert !Present(rs[i + 1], gone); }
      }
      if NonePresent(rs[1..], gone) && !Present(rs[0], gone) {
        forall i | 0 <= i < |rs| ensures !Present(rs[i], gone) { if i > 0 { assert !Present(rs[1..][i - 1], gone); } }
      }
    }
  }

  /** Cleaning up after a list answer that is the kernel's own rules. */
  lemma CleanupExact(w: World, gone: seq<Rule>, groups: seq<Group>, rest: seq<bytes>, pid: uint32, t: Tables,
                     k: seq<Rule>)
    requires Open(w) && AllInstallable(gone)
    requires w.incoming == Datagrams(groups) + rest && Calm(rest, |w.mem|)
    requires Answer(groups, Sent(w, AUDIT_LIST_RULES, []).counter, pid, |w.mem|)
    requires AnswerRules(groups) == Loaded(k, w.sent) && AllPrintable(AnswerRules(groups), t)
    requires AllSound(AnswerRules(groups))
    ensures var (w', end) := Cleanup(w, gone, pid, t);
            && end.Cleaned?
            && Loaded(k, w'.sent) == if gone == [] then Loaded(k, w.sent) else Kept(Loaded(k, w.sent), gone)
  {
    hide Loaded, ListLoop, Answer, Datagrams, AnswerRules, CleanupLoop, AllPrintable, DecodeRule, Kept, Calm,
      Installable;
    var w1 := Sent(w, AUDIT_LIST_RULES, []);
    SentLoads(w, AUDIT_LIST_RULES, [], k);
    var rules := AnswerRules(groups);
    assert [] + rules == rules;
    ListLoopExact(w1, groups, rest, w1.counter, pid, [], t);
    var w2 := ListLoop(w1, w1.counter, pid, [], t).0;
    assert [] + Kept(rules, gone) == Kept(rules, gone);
    forall i | 0 <= i < |rules| ensures Shaped(rules[i]) && Sound(rules[i]) { assert Sound(rules[i]); }
    CleanupKeeps(w2, [], rules, gone, pid, None, k);
  }

  /**
   Install, then clean up. A SetRules run that returns no error has installed the
   rules of the configuration up to the first file rule without a path, and
   returns them exactly when there is no such rule. CleanupRules on what it
   returned brings the kernel back to the rules it held before exactly when
   nothing was installed, or every file rule has a path and none of the rules was
   in the kernel before.
   */
  lemma InstallThenCleanup(w: World, flags: Flags, sections: seq<Section>, cx: Context, k: seq<Rule>,
                           groups: seq<Group>, rest: seq<bytes>, t: Tables)
    requires Open(w) && AllSound(Loaded(k, w.sent)) && AllPrintable(Loaded(k, w.sent), t)
    requires var st := SectionSteps(Session(w, flags, [], None), sections, cx);
             && NilSoFar(st)
             && st.w.incoming == Datagrams(groups) + rest && Calm(rest, |st.w.mem|)
             && Answer(groups, Sent(st.w, AUDIT_LIST_RULES, []).counter, cx.pid, |st.w.mem|)
             && AnswerRules(groups) == Loaded(k, st.w.sent)
    ensures var before := Loaded(k, w.sent);
            var st := SectionSteps(Session(w, flags, [], None), sections, cx);
            var returned := if PathsGiven(sections) then AllRulesOf(sections, cx) else [];
            var (w', end) := Cleanup(st.w, returned, cx.pid, t);
            && ResultOf(st) == Returned(returned, None)
            && end.Cleaned?
            && Loaded(k, st.w.sent) == before + AllRulesOf(Reached(sections), cx)
            && (Loaded(k, w'.sent) == before <==>
                  || RuleCount(Reached(sections)) == 0
                  || (PathsGiven(sections) && NonePresent(before, AllRulesOf(sections, cx))))
  {
    hide Loaded, SectionSteps, Answer, Datagrams, AnswerRules, Cleanup, AllPrintable, Kept, Calm, Installable,
      NonePresent, AllRulesOf, Reached, PathsGiven, RuleCount;
    var before := Loaded(k, w.sent);
    var st0 := Session(w, flags, [], None);
    var st := SectionSteps(st0, sections, cx);
    var returned := ResultOf(st).rules;
    ReachedRules(st0, sections, cx);
    SectionsReached(st0, sections, cx);
    assert before + [] == before;
    SectionsTrack(st0, sections, cx, k, before);
    SoundSum(before, st.rules);
    PrintableSum(before, st.rules, t);
    NoneInstallable();
    CleanupExact(st.w, returned, groups, rest, cx.pid, t, k);
    KeptOfSum(before, st.rules);
  }

  lemma NoneInstallable()
    ensures AllInstallable([])
  {
  }

  // ---------------------------------------------------------------------------
  // A run that leaves its rules behind
  // ---------------------------------------------------------------------------

  /** The kernel's acknowledgement: an error message with code zero. */
  function Ack(seq_: uint32, pid: uint32): Frame {
    Frame(Header(20, NLMSG_ERROR, 0, seq_, pid), Zeros(4))
  }

  lemma AckAccepts(w: World, expected: uint32, pid: uint32)
    requires w.incoming != [] && w.incoming[0] == FrameBytes(Ack(expected, pid)) && 20 <= |w.mem|
    ensures Replied(w, expected, pid).1 == Accepted && Replied(w, expected, pid).0.incoming == w.incoming[1..]
  {
    hide HeaderAt, HeaderBytes, Word32At;
    var f, w1 := Ack(expected, pid), Arrived(w);
    EchoHeader(w.mem, f);
    AckCode(w.mem, f);
    var es := Events(w1.mem, 0, 20);
    assert es[0] == Reply(f.h, Some(0));
  }

  lemma AckCode(mem: bytes, f: Frame)
    requires f.payload == Zeros(4) && 20 <= |mem|
    ensures |FrameBytes(f)| == 20 && Word32At(Landed(mem, FrameBytes(f)), 16) == 0
  {
    hide HeaderBytes;
    var d := FrameBytes(f);
    var mem' := Landed(mem, d);
    assert d == HeaderBytes(f.h) + Zeros(4);
    assert mem'[16] == 0 && mem'[17] == 0 && mem'[18] == 0 && mem'[19] == 0;
  }

  /**
   One accepted file rule followed by one without a path: SetRules returns no rules
   and a nil error, the first rule is in the kernel, and CleanupRules on the empty
   result leaves it there, whatever the kernel answers.
   */
  lemma PathlessLeavesRule(w: World, flags: Flags, f: FileRule, g: FileRule, cx: Context, rest: seq<bytes>,
                           k: seq<Rule>, t: Tables)
    requires Open(w) && 20 <= |w.mem| && !HasPath(g)
    requires CompileFile(f, Flags(false, false), cx.strict, cx.host).1.Ready?
    requires w.incoming == [FrameBytes(Ack((w.counter + 1) % 0x1_0000_0000, cx.pid))] + rest
    ensures var st := SectionSteps(Session(w, flags, [], None), [FileRules([f, g])], cx);
            var left := Loaded(k, w.sent) + [CompileFile(f, Flags(false, false), cx.strict, cx.host).1.rule];
            && ResultOf(st) == Returned([], None) && st.w.incoming == rest
            && Loaded(k, st.w.sent) == left && Loaded(k, Cleanup(st.w, [], cx.pid, t).0.sent) == left
  {
    hide CompileFile, Loaded, FileStep, FrameBytes, ListLoop, DecodeRule, Sent;
    var st0 := Session(w, flags.(syscall := false), [], None);
    AckedFile(st0, f, cx, rest, k);
    var st1 := FileStep(st0, f, cx);
    var st2 := st1.(stop := Some(Returned([], None)));
    PathlessStops(st1, g, cx);
    StepTwice(Session(w, flags, [], None), f, g, cx);
    SentLoads(st2.w, AUDIT_LIST_RULES, [], k);
    NothingDecodes();
  }

  lemma NothingDecodes()
    ensures DecodeRule([]) == None
  {
  }

  /** A section of two file rules, the second of which stops the run. */
  lemma StepTwice(st: Session, f: FileRule, g: FileRule, cx: Context)
    requires Open(st.w) && st.stop.None?
    ensures var st1 := FileStep(st.(flags := st.flags.(syscall := false)), f, cx);
            var st2 := FileStep(st1, g, cx);
            st1.stop.None? && st2.stop.Some? ==> SectionSteps(st, [FileRules([f, g])], cx) == st2
  {
    hide FileStep;
    var st0 := st.(flags := st.flags.(syscall := false));
    var st1 := FileStep(st0, f, cx);
    var st2 := FileStep(st1, g, cx);
    if st1.stop.None? && st2.stop.Some? {
      assert [f, g][1..] == [g] && [g][1..] == [];
      assert FileSteps(st1, [g], cx) == FileSteps(st2, [], cx) == st2;
      assert FileSteps(st0, [f, g], cx) == st2;
      var sections := [FileRules([f, g])];
      assert SectionStep(st, sections[0], cx) == st2;
      assert SectionSteps(st, sections, cx) == SectionSteps(st2, sections[1..], cx);
    }
  }

  lemma PathlessStops(st: Session, g: FileRule, cx: Context)
    requires Open(st.w) && !HasPath(g)
    ensures FileStep(st, g, cx) == st.(stop := Some(Returned([], None)))
  {
    hide CompileFile;
    PathMissingIff(g, st.flags, cx.strict, cx.host);
  }

  /** A file rule that compiles and is acknowledged is installed. */
  lemma AckedFile(st: Session, f: FileRule, cx: Context, rest: seq<bytes>, k: seq<Rule>)
    requires Open(st.w) && 20 <= |st.w.mem| && st.stop.None?
    ensures var c := CompileFile(f, Flags(false, false), cx.strict, cx.host).1;
            var st1 := FileStep(st, f, cx);
            c.Ready? && st.w.incoming == [FrameBytes(Ack((st.w.counter + 1) % 0x1_0000_0000, cx.pid))] + rest ==>
              && Open(st1.w) && st1.rules == st.rules + [c.rule] && st1.stop.None? && st1.w.incoming == rest
              && Loaded(k, st1.w.sent) == Loaded(k, st.w.sent) + [c.rule]
  {
    hide CompileFile, Loaded, EncodeRule, Replied, Installable, FrameBytes, Serialized, HeaderBytes;
    var c := CompileFile(f, Flags(false, false), cx.strict, cx.host).1;
    if c.Ready? && st.w.incoming == [FrameBytes(Ack((st.w.counter + 1) % 0x1_0000_0000, cx.pid))] + rest {
      FileHistoryFree(f, st.flags, Flags(false, false), cx.strict, cx.host);
      FileInstallable(f, Flags(false, false), cx.strict, cx.host);
      InstallableSound(c.rule);
      var w1 := Sent(st.w, AUDIT_ADD_RULE, EncodeRule(c.rule));
      AckAccepts(w1, w1.counter, cx.pid);
      AskedRuleLoads(st.w, AUDIT_ADD_RULE, c.rule, cx.pid, k);
    }
  }

  /** Such rules exist: an existing file /a, without permissions or key. */
  lemma PlainFileReady(flags: Flags, cx: Context)
    requires cx.host.base([47, 97]) == [97] && cx.host.stat([47, 97]) == File
    ensures CompileFile(FileRule(Some([47, 97]), None, None), flags, cx.strict, cx.host).1.Ready?
  {
    hide Contains;
    NotContained([97], [46, 46]);
    NotContained([97], [42]);
    NotContained([97], [63]);
    assert TrimSlashes([47, 97]) == [47, 97];
  }

  lemma NotContained(s: bytes, sub: bytes)
    requires sub != [] && sub[0] !in s
    ensures !Contains(s, sub)
  {
    forall i | 0 <= i <= |s| ensures !(sub <= s[i..]) {
      if i < |s| { assert s[i..][0] == s[i]; }
    }
  }

  ghost predicate AllSound(rs: seq<Rule>) {
    forall i :: 0 <= i < |rs| ==> Sound(rs[i])
  }

  lemma SoundSum(a: seq<Rule>, b: seq<Rule>)
    requires AllSound(a) && AllInstallable(b)
    ensures AllSound(a + b)
  {
    hide Installable, Sound;
    forall i | 0 <= i < |a + b| ensures Sound((a + b)[i]) {
      if i >= |a| { InstallableSound(b[i - |a|]); }
    }
  }

  /** Installed rules never make the printer panic. */
  lemma PrintableSum(a: seq<Rule>, b: seq<Rule>, t: Tables)
    requires AllPrintable(a, t) && AllInstallable(b)
    ensures AllPrintable(a + b, t)
  {
    hide PrintRule, Laid;
    forall i | 0 <= i < |a + b| ensures Shaped((a + b)[i]) && PrintRule((a + b)[i], t).Some? {
      if i >= |a| {
        var r := b[i - |a|];
        assert Installable(r);
        var log :| Laid(r, log);
        PrintInBounds(r, log, t);
      }
    }
  }

  /** Removing all of `b` from `a + b` gives `a` exactly when `a` holds nothing equal to a rule of `b`. */
  lemma KeptOfSum(a: seq<Rule>, b: seq<Rule>)
    ensures Kept(a + b, b) == a <==> NonePresent(a, b)
  {
    hide Kept, NonePresent, Present;
    KeptSplit(a, b, b);
    forall i | 0 <= i < |b| ensures Present(b[i], b) { PresentItself(b, i); }
    KeptNone(b, b);
    KeptLength(a, b);
    assert Kept(a, b) + [] == Kept(a, b);
  }

  lemma PresentItself(rs: seq<Rule>, i: nat)
    requires i < |rs|
    ensures Present(rs[i], rs)
  {
    assert CompareRules(rs[i], rs[i]);
  }

  // ---------------------------------------------------------------------------
  // What CleanupRules sends and reports
  // ---------------------------------------------------------------------------

  /** The wire images of the listed rules that are to go, in order. */
  ghost function Doomed(rs: seq<Rule>, gone: seq<Rule>): seq<bytes>
    requires forall i :: 0 <= i < |rs| ==> Shaped(rs[i])
  {
    if rs == [] then [] else (if Present(rs[0], gone) then [EncodeRule(rs[0])] else []) + Doomed(rs[1..], gone)
  }

  lemma AskedRuleSends(w: World, r: Rule, pid: uint32)
    requires Open(w) && Shaped(r) && r.flags != AUDIT_FILTER_ENTRY
    ensures var w' := AskedRule(w, AUDIT_DEL_RULE, r, pid).0;
            SentDeletes(w.sent, w'.sent, [EncodeRule(r)], w.counter) && w'.counter == Counted(w.counter, 1)
  {
    hide EncodeRule, Sent, Request, Replied;
    var wire := SentRequest(w, AUDIT_DEL_RULE, EncodeRule(r));
    SentOne(w.sent, wire, EncodeRule(r), w.counter);
  }

  /** The requests of a clean-up are the deletions of exactly the listed rules equal to a given one. */
  lemma {:induction false} CleanupSends(w: World, listed: seq<Rule>, gone: seq<Rule>, pid: uint32,
                                        last: Option<Verdict>)
    requires Open(w) && AllInstallable(gone) && forall i :: 0 <= i < |listed| ==> Shaped(listed[i])
    ensures var (w', end) := CleanupLoop(w, listed, gone, pid, last);
            end.Cleaned? ==> SentDeletes(w.sent, w'.sent, Doomed(listed, gone), w.counter)
    decreases |listed|
  {
    hide AskedRule, Present, SentDeletes, EncodeRule, Installable, Counted;
    if listed == [] {
      SentNothing(w.sent, w.counter);
    } else {
      var x, rest := listed[0], listed[1..];
      if Present(x, gone) {
        PresentInstallable(x, gone);
        AskedRuleSends(w, x, pid);
        var (w1, v) := AskedRule(w, AUDIT_DEL_RULE, x, pid);
        var last' := if v == Accepted then None else Some(v);
        CleanupSends(w1, rest, gone, pid, last');
        var (w2, end) := CleanupLoop(w1, rest, gone, pid, last');
        if v != Panics && end.Cleaned? {
          SentTwice(w.sent, w1.sent, w2.sent, [EncodeRule(x)], Doomed(rest, gone), w.counter);
        }
      } else {
        CleanupSends(w, rest, gone, pid, last);
        assert [] + Doomed(rest, gone) == Doomed(rest, gone);
      }
    }
  }

  lemma {:induction false} CleanupSplit(w: World, a: seq<Rule>, b: seq<Rule>, gone: seq<Rule>, pid: uint32,
                                        last: Option<Verdict>)
    requires Open(w) && (forall i :: 0 <= i < |a| ==> Shaped(a[i])) && (forall i :: 0 <= i < |b| ==> Shaped(b[i]))
    requires forall i :: 0 <= i < |a + b| ==> Shaped((a + b)[i])
    ensures var (w1, end) := CleanupLoop(w, a, gone, pid, last);
            && Open(w1)
            && CleanupLoop(w, a + b, gone, pid, last) ==
               if end.Cleaned? then CleanupLoop(w1, b, gone, pid, end.err) else (w1, end)
    decreases |a|
  {
    hide AskedRule, Present;
    if a == [] {
      assert a + b == b;
    } else {
      assert (a + b)[1..] == a[1..] + b;
      assert forall i :: 0 <= i < |a[1..]| ==> a[1..][i] == a[i + 1];
      if Present(a[0], gone) {
        var (w1, v) := AskedRule(w, AUDIT_DEL_RULE, a[0], pid);
        if v != Panics { CleanupSplit(w1, a[1..], b, gone, pid, if v == Accepted then None else Some(v)); }
      } else {
        CleanupSplit(w, a[1..], b, gone, pid, last);
      }
    }
  }

  /** Only the latest deletion counts: earlier failures are forgotten when it succeeds. */
  lemma CleanupForgetsFailures(w: World, earlier: seq<Rule>, latest: Rule, gone: seq<Rule>, pid: uint32)
    requires Open(w) && Shaped(latest) && Present(latest, gone) && forall i :: 0 <= i < |earlier| ==> Shaped(earlier[i])
    requires forall i :: 0 <= i < |earlier + [latest]| ==> Shaped((earlier + [latest])[i])
    ensures var (w1, end1) := CleanupLoop(w, earlier, gone, pid, None);
            var (w2, end) := CleanupLoop(w, earlier + [latest], gone, pid, None);
            && Open(w1)
            && (end == Cleaned(None) <==> end1.Cleaned? && AskedRule(w1, AUDIT_DEL_RULE, latest, pid).1 == Accepted)
  {
    hide AskedRule, Present;
    CleanupSplit(w, earlier, [latest], gone, pid, None);
    var (w1, end1) := CleanupLoop(w, earlier, gone, pid, None);
    if end1.Cleaned? {
      var v := AskedRule(w1, AUDIT_DEL_RULE, latest, pid).1;
      assert [latest][1..] == [];
    }
  }

  // ---------------------------------------------------------------------------
  // One rule echoed in a datagram of its own
  // ---------------------------------------------------------------------------

  lemma EchoHeader(mem: bytes, f: Frame)
    requires NLMSG_HDRLEN <= |mem|
    ensures HeaderAt(Landed(mem, FrameBytes(f)), 0) == f.h
  {
    hide HeaderBytes, HeaderAt;
    var d, mem' := FrameBytes(f), Landed(mem, FrameBytes(f));
    assert mem'[..NLMSG_HDRLEN] == d[..NLMSG_HDRLEN] == HeaderBytes(f.h);
    assert mem' == [] + HeaderBytes(f.h) + mem'[NLMSG_HDRLEN..];
    HeaderRoundTrip([], f.h, mem'[NLMSG_HDRLEN..]);
  }

  /** The buffer has room for a frame as the parser reads it. */
  predicate Fits(f: Frame, size: nat) {
    |FrameBytes(f)| + (if f.h.len % 4 == 0 then NLMSG_HDRLEN else 0) <= size
  }

  /**
   Exactly when an echoed message is read back. One longer than the buffer is cut
   off and refused as malformed; one that fits only without its padding, or
   without the 16 extra bytes taken for an aligned length, makes the parser panic.
   */
  lemma EchoOutcome(mem: bytes, f: Frame)
    requires WellFramed(f) && NLMSG_HDRLEN <= |mem|
    ensures var d := FrameBytes(f);
            var heard := Hear(Landed(mem, d), LandedLength(mem, d));
            && (heard == HeardError <==> f.h.len > |mem|)
            && (heard == HeardPanic <==> f.h.len <= |mem| && !Fits(f, |mem|))
            && (heard.Heard? <==> Fits(f, |mem|))
  {
    hide HeaderAt, Landed, FrameBytes, Contents;
    var d := FrameBytes(f);
    var mem', n := Landed(mem, d), LandedLength(mem, d);
    EchoHeader(mem, f);
    WalkInOrder(mem', 0, n);
    var round := RoundAt(mem', 0, n);
    if round.Next? {
      assert round.next == n;
      assert RoundAt(mem', n, n) == Stop(Finished);
      assert Walk(mem', n, n) == Walked([], Finished);
    }
  }

  /** A frame the buffer has room for is collected as the one message of its datagram. */
  lemma EchoCarried(mem: bytes, f: Frame)
    requires WellFramed(f) && Fits(f, |mem|)
    ensures var d := FrameBytes(f);
            var mem', n := Landed(mem, d), LandedLength(mem, d);
            var w := Walk(mem', 0, n);
            n >= NLMSG_HDRLEN && w.ending == Finished && |w.msgs| == 1 && Carries(mem', w.msgs[0], f)
  {
    hide HeaderAt, HeaderBytes;
    var d := FrameBytes(f);
    var mem', n := Landed(mem, d), LandedLength(mem, d);
    EchoHeader(mem, f);
    var round := RoundAt(mem', 0, n);
    assert round.Next? && round.next == n;
    assert RoundAt(mem', n, n) == Stop(Finished);
    assert Walk(mem', n, n) == Walked([], Finished);
    assert mem'[16..16 + |f.payload|] == f.payload;
  }

  /**
   End to end: a rule is encoded, framed, received into a buffer with anything in
   it, parsed and decoded, and comes back as a rule the library calls equal,
   whenever the frame is read back at all.
   */
  lemma EchoRoundTrip(mem: bytes, h: Header, r: Rule)
    requires Sound(r) && h.len == NLMSG_HDRLEN + |EncodeRule(r)| && Fits(Frame(h, EncodeRule(r)), |mem|)
    ensures var d := FrameBytes(Frame(h, EncodeRule(r)));
            var heard := Hear(Landed(mem, d), LandedLength(mem, d));
            && heard.Heard? && |heard.msgs| == 1 && heard.msgs[0].h == h
            && DecodeRule(heard.msgs[0].data) == Some(r) && CompareRules(r, DecodeRule(heard.msgs[0].data).value)
  {
    hide EncodeRule, DecodeRule, FrameBytes, Landed, Walk;
    var f := Frame(h, EncodeRule(r));
    var d := FrameBytes(f);
    var mem', n := Landed(mem, d), LandedLength(mem, d);
    EchoCarried(mem, f);
    WalkInOrder(mem', 0, n);
    CarriedRule(mem', Walk(mem', 0, n).msgs[0], f, r);
  }

  /** Every rule a SetRules run installs survives the round trip when its frame is read back at all. */
  lemma InstalledRoundTrip(st0: Session, sections: seq<Section>, cx: Context, i: nat, mem: bytes, h: Header)
    requires Open(st0.w) && st0.rules == [] && i < |SectionSteps(st0, sections, cx).rules|
    ensures var r := SectionSteps(st0, sections, cx).rules[i];
            && Sound(r)
            && (h.len == NLMSG_HDRLEN + |EncodeRule(r)| && Fits(Frame(h, EncodeRule(r)), |mem|) ==>
                  var d := FrameBytes(Frame(h, EncodeRule(r)));
                  var heard := Hear(Landed(mem, d), LandedLength(mem, d));
                  && heard.Heard? && |heard.msgs| == 1 && heard.msgs[0].h == h
                  && DecodeRule(heard.msgs[0].data).Some? && CompareRules(r, DecodeRule(heard.msgs[0].data).value))
  {
    hide SectionSteps, EncodeRule, DecodeRule, FrameBytes, Landed, Hear, Installable, Loaded, Fits;
    var before := Loaded([], st0.w.sent);
    assert before + [] == before;
    SectionsTrack(st0, sections, cx, [], before);
    var r := SectionSteps(st0, sections, cx).rules[i];
    InstallableSound(r);
    if h.len == NLMSG_HDRLEN + |EncodeRule(r)| && Fits(Frame(h, EncodeRule(r)), |mem|) { EchoRoundTrip(mem, h, r); }
  }

  /**
   A rule too long for the buffer defeats the clean-up without a word: the
   listing fails, nothing is deleted, and CleanupRules returns a nil error.
   */
  lemma OversizeKeptSilently(w: World, gone: seq<Rule>, f: Frame, rest: seq<bytes>, pid: uint32, t: Tables)
    requires Open(w) && WellFramed(f) && f.h.len > |w.mem| && w.incoming == [FrameBytes(f)] + rest
    ensures var (w', end) := Cleanup(w, gone, pid, t);
            end == Cleaned(None) && w'.sent == Sent(w, AUDIT_LIST_RULES, []).sent
  {
    hide Hear, Landed, FrameBytes;
    var w1 := Sent(w, AUDIT_LIST_RULES, []);
    EchoOutcome(w1.mem, f);
  }

  // ---------------------------------------------------------------------------
  // Deleting everything
  // ---------------------------------------------------------------------------

  lemma {:induction false} DeleteStepsLists(w: World, ms: seq<Received>, fs: seq<Frame>, expected: uint32,
                                            pid: uint32, rules: seq<Rule>, done: bool, left: seq<Rule>, k: seq<Rule>)
    requires Open(w) && HeardFrames(ms, fs) && Lists(fs, expected, pid, rules, done)
    requires Loaded(k, w.sent) == rules + left
    ensures var (w', end) := DeleteSteps(w, ms, expected, pid);
            end == (if done then Some(RunDone) else None) && Loaded(k, w'.sent) == left
    decreases |fs|
  {
    hide EncodeRule, DecodeRule, Word32At, Loaded, Sent;
    if fs == [] {
      assert rules + left == left;
    } else {
      var m, f := ms[0], fs[0];
      assert HeardFrame(m, f);
      assert HeardFrames(ms[1..], fs[1..]) by {
        forall i | 0 <= i < |fs[1..]|
          ensures HeardFrame(ms[1..][i], fs[1..][i]) { assert HeardFrame(ms[i + 1], fs[i + 1]); }
      }
      if f.h.typ == NLMSG_DONE {
        assert rules + left == left;
      } else if f.h.typ == AUDIT_LIST_RULES {
        PrefixDecodes(m.data, rules[0]);
        SentLoads(w, AUDIT_DEL_RULE, m.data, k);
        assert rules + left == [] + [rules[0]] + (rules[1..] + left);
        RemoveBehind([], rules[0], rules[1..] + left);
        assert [] + (rules[1..] + left) == rules[1..] + left;
        DeleteStepsLists(Sent(w, AUDIT_DEL_RULE, m.data), ms[1..], fs[1..], expected, pid, rules[1..], done, left, k);
      } else {
        DeleteStepsLists(w, ms[1..], fs[1..], expected, pid, rules, done, left, k);
      }
    }
  }

  lemma {:induction false} DeleteLoopLists(w: World, groups: seq<Group>, rest: seq<bytes>, expected: uint32,
                                           pid: uint32, k: seq<Rule>)
    requires Open(w) && Answer(groups, expected, pid, |w.mem|) && w.incoming == Datagrams(groups) + rest
    requires Loaded(k, w.sent) == AnswerRules(groups)
    ensures var (w', end) := DeleteLoop(w, expected, pid);
            end == RunDone && Loaded(k, w'.sent) == [] && w'.incoming == rest
    decreases |groups|
  {
    hide Lists, DeleteSteps, Hear, Landed, StreamBytes, HeardFrames, Loaded;
    var g, more := groups[0], groups[1..];
    assert w.incoming[0] == StreamBytes(g.frames) && w.incoming[1..] == Datagrams(more) + rest;
    ListsFramed(g.frames, expected, pid, g.rules, |groups| == 1);
    HearFrames(w.mem, g.frames);
    var w1 := Arrived(w);
    var ms := Hear(w1.mem, LandedLength(w.mem, w.incoming[0])).msgs;
    DeleteStepsLists(w1, ms, g.frames, expected, pid, g.rules, |groups| == 1, AnswerRules(more), k);
    if |groups| == 1 {
      assert more == [] && AnswerRules(more) == [];
      assert Datagrams(more) == [] && [] + rest == rest;
    } else {
      DeleteLoopLists(DeleteSteps(w1, ms, expected, pid).0, more, rest, expected, pid, k);
    }
  }

  /** DeleteAllRules empties a kernel that lists its rules, however the answer is cut into datagrams. */
  lemma DeleteAllEmpties(w: World, groups: seq<Group>, rest: seq<bytes>, pid: uint32, k: seq<Rule>)
    requires Open(w) && w.incoming == Datagrams(groups) + rest
    requires Answer(groups, Sent(w, AUDIT_LIST_RULES, []).counter, pid, |w.mem|)
    requires AnswerRules(groups) == Loaded(k, w.sent)
    ensures var (w', end) := DeleteAll(w, pid);
            end == RunDone && Loaded(k, w'.sent) == [] && w'.incoming == rest
  {
    hide Loaded, DeleteLoop, Answer, Datagrams, AnswerRules, DecodeRule, Sent;
    var w1 := Sent(w, AUDIT_LIST_RULES, []);
    SentLoads(w, AUDIT_LIST_RULES, [], k);
    DeleteLoopLists(w1, groups, rest, w1.counter, pid, k);
  }
}
