/**
 SetRules: compiling the sections of a configuration one rule at a time and
 sending each finished rule to the kernel before the next one is looked at.
 */
module Install {
  import opened Words
  import opened Netlink
  import opened Connection
  import opened Rules
  import opened RuleObject
  import opened RuleWire
  import opened Config

  const AUDIT_ADD_RULE: uint16 := 1011
  const AUDIT_DEL_RULE: uint16 := 1012

  /** A request and the verdict on its reply. */
  function Asked(w: World, typ: uint16, data: bytes, pid: uint32): (r: (World, Verdict))
    requires Open(w)
    ensures Open(r.0) && |r.0.mem| == |w.mem|
  {
    var w1 := Sent(w, typ, data);
    Replied(w1, w1.counter, pid)
  }

  /** auditAddRuleData and auditDeleteRuleData: rules on the entry filter are refused unsent. */
  function AskedRule(w: World, typ: uint16, r: Rule, pid: uint32): (res: (World, Verdict))
    requires Open(w) && Shaped(r)
    ensures Open(res.0) && |res.0.mem| == |w.mem|
  {
    if r.flags == AUDIT_FILTER_ENTRY then (w, EntryDeprecated) else Asked(w, typ, EncodeRule(r), pid)
  }

  datatype SetError = Compile(e: CompileError) | Refused(v: Verdict)

  /** What SetRules returns: a list of rules and an error, or a run-time panic. */
  datatype SetResult = Returned(rules: seq<Rule>, err: Option<SetError>) | SetPanic

  /** State of a SetRules run; `rules` are those accepted so far, `stop` the early return. */
  datatype Session = Session(w: World, flags: Flags, rules: seq<Rule>, stop: Option<SetResult>)

  /** Acts on a compiled rule. A missing path returns no rules and no error. */
  function Installed(st: Session, flags: Flags, c: Compiled, pid: uint32): (st': Session)
    requires Open(st.w) && (c.Ready? ==> Shaped(c.rule))
    ensures Open(st'.w)
  {
    match c
    case PathMissing => st.(flags := flags, stop := Some(Returned([], None)))
    case Crash => st.(flags := flags, stop := Some(SetPanic))
    case Rejected(e) => st.(flags := flags, stop := Some(Returned([], Some(Compile(e)))))
    case Ready(r) =>
      var (w', v) := AskedRule(st.w, AUDIT_ADD_RULE, r, pid);
      if v == Accepted then Session(w', flags, st.rules + [r], None)
      else if v == Panics then Session(w', flags, st.rules, Some(SetPanic))
      else Session(w', flags, st.rules, Some(Returned([], Some(Refused(v)))))
  }

  /** What SetRules reads of its surroundings, the strict flag and the socket's pid. */
  datatype Context = Context(strict: bool, host: Host, pid: uint32)

  function FileStep(st: Session, f: FileRule, cx: Context): (st': Session)
    requires Open(st.w)
    ensures Open(st'.w)
  {
    var (flags, c) := CompileFile(f, st.flags, cx.strict, cx.host);
    Installed(st, flags, c, cx.pid)
  }

  function SyscallStep(st: Session, s: SyscallRule, cx: Context): (st': Session)
    requires Open(st.w)
    ensures Open(st'.w)
  {
    var (flags, c) := CompileSyscall(s, st.flags, cx.host);
    Installed(st, flags, c, cx.pid)
  }

  function FileSteps(st: Session, files: seq<FileRule>, cx: Context): (st': Session)
    requires Open(st.w)
    ensures Open(st'.w)
    decreases |files|
  {
    if st.stop.Some? || files == [] then st else FileSteps(FileStep(st, files[0], cx), files[1..], cx)
  }

  function SyscallSteps(st: Session, rules: seq<SyscallRule>, cx: Context): (st': Session)
    requires Open(st.w)
    ensures Open(st'.w)
    decreases |rules|
  {
    if st.stop.Some? || rules == [] then st else SyscallSteps(SyscallStep(st, rules[0], cx), rules[1..], cx)
  }

  /** One top-level key: auditSyscallAdded starts over. */
  function SectionStep(st: Session, section: Section, cx: Context): (st': Session)
    requires Open(st.w)
    ensures Open(st'.w)
  {
    var st0 := st.(flags := st.flags.(syscall := false));
    match section
    case FileRules(files) => FileSteps(st0, files, cx)
    case SyscallRules(rules) => SyscallSteps(st0, rules, cx)
    case OtherKey => st0
  }

  function SectionSteps(st: Session, sections: seq<Section>, cx: Context): (st': Session)
    requires Open(st.w)
    ensures Open(st'.w)
    decreases |sections|
  {
    if st.stop.Some? || sections == [] then st else SectionSteps(SectionStep(st, sections[0], cx), sections[1..], cx)
  }

  function ResultOf(st: Session): SetResult {
    if st.stop.Some? then st.stop.value else Returned(st.rules, None)
  }

  // ---------------------------------------------------------------------------
  // The procedures
  // ---------------------------------------------------------------------------

  /** Sends a request and waits for its reply. */
  method Ask(s: NetlinkConnection, typ: uint16, data: bytes) returns (v: Verdict)
    requires s.Valid()
    modifies s, s.rb
    ensures (s.View(), v) == Asked(old(s.View()), typ, data, s.socketPid)
  {
    hide Sent, Replied;
    var expected := s.Send(typ, data);
    v := AuditGetReply(s, expected);
  }

  /** auditAddRuleData */
  method AddRuleData(s: NetlinkConnection, rule: AuditRuleData, filter: uint32, action: int) returns (v: Verdict)
    requires s.Valid() && rule.Valid() && -1 <= action <= 2
    modifies rule, s, s.rb
    ensures filter != AUDIT_FILTER_ENTRY ==> rule.View() == Completed(old(rule.View()), filter, action)
    ensures (s.View(), v) ==
            AskedRule(old(s.View()), AUDIT_ADD_RULE, Completed(old(rule.View()), filter, action), s.socketPid)
  {
    hide EncodeRule, Asked;
    if filter == AUDIT_FILTER_ENTRY { return EntryDeprecated; }
    rule.flags := filter;
    rule.action := ToUint32(action);
    var newbuff := ToWireFormat(rule);
    v := Ask(s, AUDIT_ADD_RULE, newbuff[..]);
  }

  /** Turns the reply to an added rule into the next state of the run. */
  method Conclude(rules: seq<Rule>, r: Rule, v: Verdict) returns (rules': seq<Rule>, stop: Option<SetResult>)
    ensures v == Accepted ==> rules' == rules + [r] && stop == None
    ensures v == Panics ==> rules' == rules && stop == Some(SetPanic)
    ensures v != Accepted && v != Panics ==> rules' == rules && stop == Some(Returned([], Some(Refused(v))))
  {
    match v
    case Accepted => return rules + [r], None;
    case Panics => return rules, Some(SetPanic);
    case _ => return rules, Some(Returned([], Some(Refused(v))));
  }

  /** Fills a fresh record from a file rule. */
  method BuildFile(rule: AuditRuleData, p: Process, f: FileRule, path: bytes, cx: Context)
      returns (err: Option<BuildError>)
    requires rule.Valid() && rule.View() == Blank() && f.path == Some(path) && path != []
    modifies rule, p, rule.mask, rule.fields, rule.values, rule.fieldflags
    ensures var (flags, c) := CompileFile(f, old(p.View()), cx.strict, cx.host);
            && p.View() == flags
            && c == if err.Some? then Rejected(Build(err.value))
                    else Ready(Completed(rule.View(), AUDIT_FILTER_EXIT, AUDIT_ALWAYS))
  {
    hide AddField, SetupWatch, SetupPerms;
    p.auditSyscallAdded := true;
    err := rule.SetupAndAddWatchDir(path, cx.strict, cx.host);
    if err.Some? { return; }
    if f.permission.Some? {
      err := rule.SetupAndUpdatePerms(f.permission.value);
      if err.Some? { return; }
    }
    if f.key.Some? {
      err := rule.FieldPairData(p, f.key.value, AUDIT_EQUAL, "key", AUDIT_FILTER_UNSET, cx.host);
    }
  }

  /** One entry of "file_rules". */
  method InstallFile(s: NetlinkConnection, p: Process, f: FileRule, cx: Context, rules: seq<Rule>)
      returns (rules': seq<Rule>, stop: Option<SetResult>)
    requires s.Valid() && cx.pid == s.socketPid
    modifies s, s.rb, p
    ensures Session(s.View(), p.View(), rules', stop) ==
            FileStep(Session(old(s.View()), old(p.View()), rules, None), f, cx)
  {
    hide AskedRule, SetupWatch, WithPermission, WithKey;
    if f.path.None? || f.path.value == [] { return rules, Some(Returned([], None)); }
    var rule := new AuditRuleData();
    var err := BuildFile(rule, p, f, f.path.value, cx);
    if err.Some? { return rules, Some(Returned([], Some(Compile(Build(err.value))))); }
    var v := AddRuleData(s, rule, AUDIT_FILTER_EXIT, AUDIT_ALWAYS);
    rules', stop := Conclude(rules, Value(rule), v);
  }

  /** The value of a record. */
  function Value(rule: AuditRuleData): (r: Rule)
    requires rule.Valid()
    reads rule, rule.mask, rule.fields, rule.values, rule.fieldflags
    ensures r == rule.View()
  {
    Rule(rule.flags, rule.action, rule.fieldCount, rule.mask[..], rule.fields[..], rule.values[..],
         rule.fieldflags[..], rule.buflen, rule.buf)
  }

  /** The loop over the syscall names of a rule. */
  method SelectNames(rule: AuditRuleData, p: Process, entries: seq<SyscallEntry>, host: Host)
      returns (err: Option<CompileError>)
    requires rule.Valid()
    modifies rule.mask, p
    ensures Selected(rule.View(), p.auditSyscallAdded, err) ==
            SelectSyscalls(old(rule.View()), entries, old(p.auditSyscallAdded), host)
    ensures p.auditPermAdded == old(p.auditPermAdded)
  {
    hide AddSyscall;
    for i := 0 to |entries|
      invariant p.auditPermAdded == old(p.auditPermAdded)
      invariant SelectSyscalls(old(rule.View()), entries, old(p.auditSyscallAdded), host)
             == SelectSyscalls(rule.View(), entries[i..], p.auditSyscallAdded, host)
    {
      assert entries[i..][1..] == entries[i + 1..];
      if entries[i].NotAName? { return Some(BadSyscallName); }
      var ival := host.syscallNumber(entries[i].name);
      if ival.Some? {
        var bad := rule.SyscallData(ival.value);
        if bad.Some? { return Some(Build(bad.value)); }
        p.auditSyscallAdded := true;
      }
    }
    return None;
  }

  /** The loop over the fields of a rule. */
  method AddFields(rule: AuditRuleData, p: Process, fields: seq<FieldSpec>, filter: uint32, host: Host)
      returns (err: Option<BuildError>)
    requires rule.Valid()
    modifies rule, p, rule.fields, rule.values, rule.fieldflags
    ensures Built(rule.View(), p.View(), err) == WithFields(old(rule.View()), old(p.View()), fields, filter, host)
  {
    hide AddField, OpValue;
    for i := 0 to |fields|
      invariant WithFields(old(rule.View()), old(p.View()), fields, filter, host)
             == WithFields(rule.View(), p.View(), fields[i..], filter, host)
    {
      assert fields[i..][1..] == fields[i + 1..];
      err := rule.FieldPairData(p, fields[i].val, OpValue(fields[i].op), fields[i].name, filter, host);
      if err.Some? { return; }
    }
    return None;
  }

  /** Fills a fresh record from a syscall rule, up to the key; the filter is still to be checked. */
  method BuildSyscall(rule: AuditRuleData, p: Process, srule: SyscallRule, filter: uint32, host: Host)
      returns (err: Option<CompileError>)
    requires rule.Valid() && rule.View() == Blank() && filter == LastFilter(srule.actions)
    modifies rule, p, rule.mask, rule.fields, rule.values, rule.fieldflags
    ensures var (flags, c) := CompileSyscall(srule, old(p.View()), host);
            && p.View() == flags
            && (err.Some? ==> c == Rejected(err.value))
            && (err.None? ==>
                  c == if filter != AUDIT_FILTER_UNSET
                       then Ready(Completed(rule.View(), filter, LastAction(srule.actions)))
                       else if |srule.actions| < 2 then Crash else Rejected(FilterUnset))
  {
    hide AddField, SelectSyscalls, WithFields, LastFilter, LastAction, OrWord;
    err := SelectNames(rule, p, srule.syscalls, host);
    if err.Some? { return; }
    if !p.auditSyscallAdded { return Some(NoSyscalls); }
    var bad := AddFields(rule, p, srule.fields, filter, host);
    if bad.Some? { return Some(Build(bad.value)); }
    if srule.key.Some? {
      bad := rule.FieldPairData(p, srule.key.value, AUDIT_EQUAL, "key", AUDIT_FILTER_UNSET, host);
      if bad.Some? { return Some(Build(bad.value)); }
    }
    if srule.prepend { rule.flags := OrWord(rule.flags, AUDIT_FILTER_PREPEND); }
    return None;
  }

  /** One entry of "syscall_rules". */
  method InstallSyscall(s: NetlinkConnection, p: Process, srule: SyscallRule, cx: Context, rules: seq<Rule>)
      returns (rules': seq<Rule>, stop: Option<SetResult>)
    requires s.Valid() && cx.pid == s.socketPid
    modifies s, s.rb, p
    ensures Session(s.View(), p.View(), rules', stop) ==
            SyscallStep(Session(old(s.View()), old(p.View()), rules, None), srule, cx)
  {
    hide AskedRule, CompileSyscall, LastFilter, LastAction;
    var rule := new AuditRuleData();
    var action, filter := SetActionAndFilters(srule.actions);
    var err := BuildSyscall(rule, p, srule, filter, cx.host);
    if err.Some? { return rules, Some(Returned([], Some(Compile(err.value)))); }
    if filter == AUDIT_FILTER_UNSET {
      if |srule.actions| < 2 { return rules, Some(SetPanic); }
      return rules, Some(Returned([], Some(Compile(FilterUnset))));
    }
    FilterNotEntry(srule.actions);
    var v := AddRuleData(s, rule, filter, action);
    rules', stop := Conclude(rules, Value(rule), v);
  }

  lemma FilterNotEntry(actions: seq<string>)
    ensures LastFilter(actions) != AUDIT_FILTER_ENTRY
  {
  }

  /** SetRules on a decoded configuration. */
  method SetRules(s: NetlinkConnection, p: Process, sections: seq<Section>, cx: Context) returns (res: SetResult)
    requires s.Valid() && cx.pid == s.socketPid
    modifies s, s.rb, p
    ensures var st := SectionSteps(Session(old(s.View()), old(p.View()), [], None), sections, cx);
            s.View() == st.w && p.View() == st.flags && res == ResultOf(st)
  {
    hide FileStep, SyscallStep;
    var ruleArray: seq<Rule> := [];
    ghost var st0 := Session(s.View(), p.View(), [], None);
    for i := 0 to |sections|
      invariant SectionSteps(st0, sections, cx)
             == SectionSteps(Session(s.View(), p.View(), ruleArray, None), sections[i..], cx)
    {
      assert sections[i..][1..] == sections[i + 1..];
      var stop: Option<SetResult> := None;
      p.auditSyscallAdded := false;
      match sections[i] {
        case FileRules(files) => ruleArray, stop := InstallFiles(s, p, files, cx, ruleArray);
        case SyscallRules(rules) => ruleArray, stop := InstallSyscalls(s, p, rules, cx, ruleArray);
        case OtherKey =>
      }
      if stop.Some? { return stop.value; }
    }
    return Returned(ruleArray, None);
  }

  method InstallFiles(s: NetlinkConnection, p: Process, files: seq<FileRule>, cx: Context, rules: seq<Rule>)
      returns (rules': seq<Rule>, stop: Option<SetResult>)
    requires s.Valid() && cx.pid == s.socketPid
    modifies s, s.rb, p
    ensures Session(s.View(), p.View(), rules', stop) ==
            FileSteps(Session(old(s.View()), old(p.View()), rules, None), files, cx)
  {
    hide FileStep;
    rules', stop := rules, None;
    ghost var st0 := Session(s.View(), p.View(), rules, None);
    for i := 0 to |files|
      invariant stop == None
      invariant FileSteps(st0, files, cx) == FileSteps(Session(s.View(), p.View(), rules', None), files[i..], cx)
    {
      assert files[i..][1..] == files[i + 1..];
      rules', stop := InstallFile(s, p, files[i], cx, rules');
      if stop.Some? { return; }
    }
  }

  method InstallSyscalls(s: NetlinkConnection, p: Process, srules: seq<SyscallRule>, cx: Context, rules: seq<Rule>)
      returns (rules': seq<Rule>, stop: Option<SetResult>)
    requires s.Valid() && cx.pid == s.socketPid
    modifies s, s.rb, p
    ensures Session(s.View(), p.View(), rules', stop) ==
            SyscallSteps(Session(old(s.View()), old(p.View()), rules, None), srules, cx)
  {
    hide SyscallStep;
    rules', stop := rules, None;
    ghost var st0 := Session(s.View(), p.View(), rules, None);
    for i := 0 to |srules|
      invariant stop == None
      invariant SyscallSteps(st0, srules, cx) ==
                SyscallSteps(Session(s.View(), p.View(), rules', None), srules[i..], cx)
    {
      assert srules[i..][1..] == srules[i + 1..];
      rules', stop := InstallSyscall(s, p, srules[i], cx, rules');
      if stop.Some? { return; }
    }
  }
}
