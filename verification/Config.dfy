/**
 Compiling a decoded rule configuration: what record each file rule and each
 syscall rule becomes, and how the process-wide flags are threaded through.
 */
module Config {
  import opened Words
  import opened Bits
  import opened Rules
  import opened RuleLayout

  datatype FileRule = FileRule(path: Option<bytes>, permission: Option<bytes>, key: Option<FieldValue>)

  /** A syscall entry is a name or some other JSON value. */
  datatype SyscallEntry = Named(name: bytes) | NotAName

  datatype FieldSpec = FieldSpec(name: string, op: string, val: FieldValue)

  datatype SyscallRule = SyscallRule(
    syscalls: seq<SyscallEntry>, actions: seq<string>, fields: seq<FieldSpec>,
    key: Option<FieldValue>, prepend: bool)

  /** One top-level key of the configuration; iteration order over the keys is arbitrary. */
  datatype Section = FileRules(files: seq<FileRule>) | SyscallRules(rules: seq<SyscallRule>) | OtherKey

  datatype CompileError = Build(e: BuildError) | NoSyscalls | BadSyscallName | FilterUnset

  /** A compiled rule, an error, the missing path (reported as success), or a run-time panic. */
  datatype Compiled = Ready(rule: Rule) | Rejected(err: CompileError) | PathMissing | Crash

  function ToUint32(a: int): (w: uint32)
    requires -0x1_0000_0000 <= a < 0x1_0000_0000
  {
    if a < 0 then a + 0x1_0000_0000 else a
  }

  /** The record as auditAddRuleData sends it: flags and action overwritten. */
  function Completed(r: Rule, filter: uint32, action: int): Rule
    requires -1 <= action <= 2
  {
    r.(flags := filter, action := ToUint32(action))
  }

  // ---------------------------------------------------------------------------
  // File rules
  // ---------------------------------------------------------------------------

  function WithPermission(r: Rule, permission: Option<bytes>): (res: (Rule, Option<BuildError>))
    requires Shaped(r)
    ensures Shaped(res.0)
  {
    if permission.Some? then SetupPerms(r, permission.value) else (r, None)
  }

  function WithKey(r: Rule, flags: Flags, key: Option<FieldValue>, host: Host): (b: Built)
    requires Shaped(r)
    ensures Shaped(b.rule)
  {
    if key.Some? then AddField(r, flags, key.value, AUDIT_EQUAL, "key", AUDIT_FILTER_UNSET, host)
    else Built(r, flags, None)
  }

  function CompileFile(f: FileRule, flags: Flags, strict: bool, host: Host): (c: (Flags, Compiled))
    ensures c.1.Ready? ==> Shaped(c.1.rule)
  {
    if f.path.None? || f.path.value == [] then (flags, PathMissing)
    else
      var flags1 := flags.(syscall := true);
      var (r1, e1) := SetupWatch(Blank(), f.path.value, strict, host);
      if e1.Some? then (flags1, Rejected(Build(e1.value)))
      else
        var (r2, e2) := WithPermission(r1, f.permission);
        if e2.Some? then (flags1, Rejected(Build(e2.value)))
        else
          var b := WithKey(r2, flags1, f.key, host);
          (b.flags, if b.err.Some? then Rejected(Build(b.err.value))
                    else Ready(Completed(b.rule, AUDIT_FILTER_EXIT, AUDIT_ALWAYS)))
  }

  // ---------------------------------------------------------------------------
  // Syscall rules
  // ---------------------------------------------------------------------------

  /** The record, auditSyscallAdded, and the error after the syscall list. */
  datatype Selected = Selected(rule: Rule, added: bool, err: Option<CompileError>)

  /** Unknown names are skipped. */
  function SelectSyscalls(r: Rule, entries: seq<SyscallEntry>, added: bool, host: Host): (s: Selected)
    requires Shaped(r)
    ensures Shaped(s.rule)
    decreases |entries|
  {
    if entries == [] then Selected(r, added, None)
    else if entries[0].NotAName? then Selected(r, added, Some(BadSyscallName))
    else
      match host.syscallNumber(entries[0].name)
      case None => SelectSyscalls(r, entries[1..], added, host)
      case Some(nr) =>
        var (r', err) := AddSyscall(r, nr);
        if err.Some? then Selected(r', added, Some(Build(err.value)))
        else SelectSyscalls(r', entries[1..], true, host)
  }

  function ActionOf(word: string): Option<int> {
    if word == "never" then Some(AUDIT_NEVER)
    else if word == "possible" then Some(AUDIT_POSSIBLE)
    else if word == "always" then Some(AUDIT_ALWAYS)
    else None
  }

  /** "entry" is mapped to the exit filter. */
  function FilterOf(word: string): (f: Option<uint32>)
    ensures f.Some? ==> f.value in {AUDIT_FILTER_TASK, AUDIT_FILTER_EXIT, AUDIT_FILTER_USER, AUDIT_FILTER_EXCLUDE}
  {
    if word == "task" then Some(AUDIT_FILTER_TASK)
    else if word == "entry" || word == "exit" then Some(AUDIT_FILTER_EXIT)
    else if word == "user" then Some(AUDIT_FILTER_USER)
    else if word == "exclude" then Some(AUDIT_FILTER_EXCLUDE)
    else None
  }

  /** The last action word decides; -1 when there is none. */
  function LastAction(words: seq<string>): (a: int)
    ensures -1 <= a <= 2
  {
    if words == [] then -1
    else
      var w := ActionOf(words[|words| - 1]);
      if w.Some? then w.value else LastAction(words[..|words| - 1])
  }

  /** The last filter word decides. */
  function LastFilter(words: seq<string>): (f: uint32)
    ensures f in {AUDIT_FILTER_TASK, AUDIT_FILTER_EXIT, AUDIT_FILTER_USER, AUDIT_FILTER_EXCLUDE, AUDIT_FILTER_UNSET}
  {
    if words == [] then AUDIT_FILTER_UNSET
    else
      var w := FilterOf(words[|words| - 1]);
      if w.Some? then w.value else LastFilter(words[..|words| - 1])
  }

  /** setActionAndFilters */
  method SetActionAndFilters(actions: seq<string>) returns (action: int, filter: uint32)
    ensures action == LastAction(actions) && filter == LastFilter(actions)
  {
    hide FilterOf, ActionOf;
    action, filter := -1, AUDIT_FILTER_UNSET;
    for i := 0 to |actions|
      invariant action == LastAction(actions[..i]) && filter == LastFilter(actions[..i])
    {
      var value := actions[i];
      WordsExclusive(value);
      assert actions[..i + 1][..i] == actions[..i];
      if ActionOf(value).Some? {
        action := ActionOf(value).value;
      } else if FilterOf(value).Some? {
        filter := FilterOf(value).value;
      }
    }
    assert actions[..|actions|] == actions;
  }

  lemma WordsExclusive(word: string)
    ensures ActionOf(word).None? || FilterOf(word).None?
  {
  }

  function OpValue(op: string): uint32 {
    if op == "nt_eq" then AUDIT_NOT_EQUAL
    else if op == "gt_or_eq" then 0x6000_0000
    else if op == "lt_or_eq" then 0x5000_0000
    else if op == "and_eq" then 0x4800_0000
    else if op == "eq" then AUDIT_EQUAL
    else if op == "gt" then 0x2000_0000
    else if op == "lt" then 0x1000_0000
    else if op == "and" then 0x0800_0000
    else 0
  }

  /** The field list, one field call after the other. */
  function WithFields(r: Rule, flags: Flags, fields: seq<FieldSpec>, filter: uint32, host: Host): (b: Built)
    requires Shaped(r)
    ensures Shaped(b.rule)
    decreases |fields|
  {
    if fields == [] then Built(r, flags, None)
    else
      var b := AddField(r, flags, fields[0].val, OpValue(fields[0].op), fields[0].name, filter, host);
      if b.err.Some? then b else WithFields(b.rule, b.flags, fields[1..], filter, host)
  }

  function CompileSyscall(s: SyscallRule, flags: Flags, host: Host): (c: (Flags, Compiled))
    ensures c.1.Ready? ==> Shaped(c.1.rule)
  {
    var sel := SelectSyscalls(Blank(), s.syscalls, flags.syscall, host);
    var flags1 := flags.(syscall := sel.added);
    if sel.err.Some? then (flags1, Rejected(sel.err.value))
    else if !flags1.syscall then (flags1, Rejected(NoSyscalls))
    else
      var filter := LastFilter(s.actions);
      var b1 := WithFields(sel.rule, flags1, s.fields, filter, host);
      if b1.err.Some? then (b1.flags, Rejected(Build(b1.err.value)))
      else
        var b2 := WithKey(b1.rule, b1.flags, s.key, host);
        if b2.err.Some? then (b2.flags, Rejected(Build(b2.err.value)))
        else
          var r := if s.prepend then b2.rule.(flags := OrWord(b2.rule.flags, AUDIT_FILTER_PREPEND)) else b2.rule;
          if filter != AUDIT_FILTER_UNSET then (b2.flags, Ready(Completed(r, filter, LastAction(s.actions))))
          else if |s.actions| < 2 then (b2.flags, Crash)
          else (b2.flags, Rejected(FilterUnset))
  }

  // ---------------------------------------------------------------------------
  // History does not matter
  // ---------------------------------------------------------------------------

  /** Once a syscall has been added, a field call does not depend on auditPermAdded. */
  lemma AddFieldPermFree(r: Rule, p: bool, q: bool, val: FieldValue, op: uint32, name: string, filter: uint32,
                         host: Host)
    requires Shaped(r)
    ensures var a := AddField(r, Flags(p, true), val, op, name, filter, host);
            var b := AddField(r, Flags(q, true), val, op, name, filter, host);
            a.rule == b.rule && a.err == b.err && a.flags.syscall && b.flags.syscall
  {
    hide FieldId, PermSlot;
    var id := FieldId(name);
    assert SlotFor(id, val, op, filter, Flags(p, true), host) == SlotFor(id, val, op, filter, Flags(q, true), host);
  }

  /** With a syscall added, neither "no prior syscall" error can occur. */
  lemma AddFieldHasSyscall(r: Rule, p: bool, val: FieldValue, op: uint32, name: string, filter: uint32, host: Host)
    requires Shaped(r)
    ensures AddField(r, Flags(p, true), val, op, name, filter, host).err != Some(NoPriorSyscall)
  {
    hide FieldId, PermBits;
    var id := FieldId(name);
    assert SlotFor(id, val, op, filter, Flags(p, true), host) != Fail(NoPriorSyscall);
  }

  lemma {:induction false} WithFieldsPermFree(r: Rule, p: bool, q: bool, fields: seq<FieldSpec>, filter: uint32,
                                              host: Host)
    requires Shaped(r)
    ensures var a := WithFields(r, Flags(p, true), fields, filter, host);
            var b := WithFields(r, Flags(q, true), fields, filter, host);
            && a.rule == b.rule && a.err == b.err && a.flags.syscall && b.flags.syscall
            && a.err != Some(NoPriorSyscall)
    decreases |fields|
  {
    hide AddField, OpValue;
    if fields != [] {
      var f := fields[0];
      AddFieldPermFree(r, p, q, f.val, OpValue(f.op), f.name, filter, host);
      AddFieldHasSyscall(r, p, f.val, OpValue(f.op), f.name, filter, host);
      var a := AddField(r, Flags(p, true), f.val, OpValue(f.op), f.name, filter, host);
      var b := AddField(r, Flags(q, true), f.val, OpValue(f.op), f.name, filter, host);
      WithFieldsPermFree(a.rule, a.flags.perm, b.flags.perm, fields[1..], filter, host);
    }
  }

  lemma WithKeyPermFree(r: Rule, p: bool, q: bool, key: Option<FieldValue>, host: Host)
    requires Shaped(r)
    ensures var a, b := WithKey(r, Flags(p, true), key, host), WithKey(r, Flags(q, true), key, host);
            && a.rule == b.rule && a.err == b.err && a.flags.syscall && b.flags.syscall
            && a.err != Some(NoPriorSyscall)
  {
    hide AddField;
    if key.Some? {
      AddFieldPermFree(r, p, q, key.value, AUDIT_EQUAL, "key", AUDIT_FILTER_UNSET, host);
      AddFieldHasSyscall(r, p, key.value, AUDIT_EQUAL, "key", AUDIT_FILTER_UNSET, host);
    }
  }

  /** A file rule compiles to the same outcome whatever happened before. */
  lemma FileHistoryFree(f: FileRule, a: Flags, b: Flags, strict: bool, host: Host)
    ensures CompileFile(f, a, strict, host).1 == CompileFile(f, b, strict, host).1
    ensures CompileFile(f, a, strict, host).1 != Rejected(Build(NoPriorSyscall))
  {
    hide WithKey, SetupWatch, SetupPerms;
    if f.path.Some? && f.path.value != [] {
      var (r1, e1) := SetupWatch(Blank(), f.path.value, strict, host);
      var (r2, e2) := WithPermission(r1, f.permission);
      WatchErrors(Blank(), f.path.value, strict, host);
      PermErrors(r1, f.permission);
      WithKeyPermFree(r2, a.perm, b.perm, f.key, host);
    }
  }

  lemma WatchErrors(r: Rule, path: bytes, strict: bool, host: Host)
    requires Shaped(r) && path != []
    ensures SetupWatch(r, path, strict, host).1 != Some(NoPriorSyscall)
  {
    hide Contains;
  }

  lemma PermErrors(r: Rule, permission: Option<bytes>)
    requires Shaped(r)
    ensures WithPermission(r, permission).1 != Some(NoPriorSyscall)
  {
  }

  /** A syscall rule depends on history only through auditSyscallAdded, never on auditPermAdded. */
  lemma SyscallHistoryFree(s: SyscallRule, a: Flags, b: Flags, host: Host)
    requires a.syscall == b.syscall
    ensures var (fa, ca) := CompileSyscall(s, a, host);
            var (fb, cb) := CompileSyscall(s, b, host);
            ca == cb && fa.syscall == fb.syscall && ca != Rejected(Build(NoPriorSyscall))
  {
    hide WithKey, LastFilter, LastAction, WithFields, SelectSyscalls, OrWord, Completed;
    var sel := SelectSyscalls(Blank(), s.syscalls, a.syscall, host);
    SelectErrors(Blank(), s.syscalls, a.syscall, host);
    if sel.err.None? && sel.added {
      var filter := LastFilter(s.actions);
      WithFieldsPermFree(sel.rule, a.perm, b.perm, s.fields, filter, host);
      var b1 := WithFields(sel.rule, Flags(a.perm, true), s.fields, filter, host);
      var b1' := WithFields(sel.rule, Flags(b.perm, true), s.fields, filter, host);
      WithKeyPermFree(b1.rule, b1.flags.perm, b1'.flags.perm, s.key, host);
    }
  }

  lemma {:induction false} SelectErrors(r: Rule, entries: seq<SyscallEntry>, added: bool, host: Host)
    requires Shaped(r)
    ensures SelectSyscalls(r, entries, added, host).err != Some(Build(NoPriorSyscall))
    decreases |entries|
  {
    if entries != [] && entries[0].Named? {
      match host.syscallNumber(entries[0].name)
      case None => SelectErrors(r, entries[1..], added, host);
      case Some(nr) => SelectErrors(AddSyscall(r, nr).0, entries[1..], true, host);
    }
  }

  /** The "prepend" request has no effect on the compiled rule. */
  lemma PrependIgnored(s: SyscallRule, flags: Flags, host: Host)
    ensures CompileSyscall(s.(prepend := true), flags, host) == CompileSyscall(s.(prepend := false), flags, host)
  {
    hide WithKey, WithFields, SelectSyscalls, OrWord;
  }

  // ---------------------------------------------------------------------------
  // What a compiled rule looks like
  // ---------------------------------------------------------------------------

  lemma LaidCompleted(r: Rule, log: Log, filter: uint32, action: int)
    requires Laid(r, log) && -1 <= action <= 2
    ensures Laid(Completed(r, filter, action), log)
  {
    hide Packed;
    var r' := Completed(r, filter, action);
    forall i | r.fieldCount <= i < AUDIT_MAX_FIELDS ensures DeadSlot(r', i) { assert DeadSlot(r, i); }
  }

  function KeyEntry(key: Option<FieldValue>): Log {
    if key.None? then [] else [FieldEntry(key.value, "key")]
  }

  lemma WithKeyLaid(r: Rule, log: Log, flags: Flags, key: Option<FieldValue>, host: Host)
    requires Laid(r, log)
    ensures var b := WithKey(r, flags, key, host);
            b.err.None? ==> Laid(b.rule, log + KeyEntry(key))
  {
    hide Laid, AddField, FieldEntry;
    LaidShaped(r, log);
    if key.Some? {
      AddFieldLaid(r, log, flags, key.value, AUDIT_EQUAL, "key", AUDIT_FILTER_UNSET, host);
    } else {
      assert log + [] == log;
    }
  }

  /** A compiled file rule holds its path, its permissions, and its key, in that order. */
  lemma CompileFileLaid(f: FileRule, flags: Flags, strict: bool, host: Host)
    ensures var c := CompileFile(f, flags, strict, host).1;
            c.Ready? ==> f.path.Some? && Laid(c.rule, [Some(TrimSlashes(f.path.value)), None] + KeyEntry(f.key))
  {
    hide Laid, AddField, SetupWatch, KeyEntry;
    var c := CompileFile(f, flags, strict, host).1;
    if c.Ready? {
      BlankLaid();
      SetupWatchLaid(Blank(), [], f.path.value, strict, host);
      var r1 := SetupWatch(Blank(), f.path.value, strict, host).0;
      var log: Log := [Some(TrimSlashes(f.path.value)), None];
      WatchHasPerm(Blank(), f.path.value, strict, host);
      FilePermLaid(r1, log, f.permission);
      var r2 := WithPermission(r1, f.permission).0;
      WithKeyLaid(r2, log, flags.(syscall := true), f.key, host);
      var r3 := WithKey(r2, flags.(syscall := true), f.key, host).rule;
      LaidCompleted(r3, log + KeyEntry(f.key), AUDIT_FILTER_EXIT, AUDIT_ALWAYS);
    }
  }

  lemma WatchHasPerm(r: Rule, path: bytes, strict: bool, host: Host)
    requires Shaped(r) && path != []
    ensures var (r', err) := SetupWatch(r, path, strict, host);
            err.None? ==> r'.fields[1] == AUDIT_PERM && AUDIT_PERM in r'.fields
  {
    hide Contains;
  }

  lemma FilePermLaid(r: Rule, log: Log, permission: Option<bytes>)
    requires Laid(r, log) && Shaped(r) && AUDIT_PERM in r.fields
    ensures var (r', err) := WithPermission(r, permission);
            err.None? ==> Laid(r', log)
  {
    hide Laid, UpdatePerms;
    if permission.Some? && |permission.value| <= 4 && PermBits(permission.value, 0).Some? {
      UpdatePermsLaid(r, log, PermBits(permission.value, 0).value);
    }
  }

  lemma {:induction false} WithFieldsLaid(r: Rule, log: Log, flags: Flags, fields: seq<FieldSpec>, filter: uint32,
                                          host: Host) returns (log': Log)
    requires Laid(r, log) && Shaped(r)
    ensures var b := WithFields(r, flags, fields, filter, host);
            b.err.None? ==>
              && Laid(b.rule, log')
              && log' == log + seq(|fields|, i requires 0 <= i < |fields| => FieldEntry(fields[i].val, fields[i].name))
    decreases |fields|
  {
    hide Laid, AddField, FieldEntry, OpValue;
    if fields == [] {
      log' := log;
    } else {
      var f := fields[0];
      AddFieldLaid(r, log, flags, f.val, OpValue(f.op), f.name, filter, host);
      var b := AddField(r, flags, f.val, OpValue(f.op), f.name, filter, host);
      if b.err.None? {
        log' := WithFieldsLaid(b.rule, log + [FieldEntry(f.val, f.name)], b.flags, fields[1..], filter, host);
      } else {
        log' := log;
      }
    }
  }

  lemma {:induction false} SelectLaid(r: Rule, log: Log, entries: seq<SyscallEntry>, added: bool, host: Host)
    requires Laid(r, log) && Shaped(r)
    ensures var s := SelectSyscalls(r, entries, added, host);
            s.err.None? ==> Laid(s.rule, log)
    decreases |entries|
  {
    hide Laid, AddSyscall;
    if entries != [] && entries[0].Named? {
      match host.syscallNumber(entries[0].name)
      case None => SelectLaid(r, log, entries[1..], added, host);
      case Some(nr) =>
        AddSyscallLaid(r, log, nr);
        if AddSyscall(r, nr).1.None? { SelectLaid(AddSyscall(r, nr).0, log, entries[1..], true, host); }
    }
  }

  /** A compiled syscall rule holds the strings of its fields, in order, and then its key. */
  lemma CompileSyscallLaid(s: SyscallRule, flags: Flags, host: Host) returns (log: Log)
    ensures var c := CompileSyscall(s, flags, host).1;
            c.Ready? ==>
              && Laid(c.rule, log)
              && log == seq(|s.fields|, i requires 0 <= i < |s.fields| => FieldEntry(s.fields[i].val, s.fields[i].name))
                        + KeyEntry(s.key)
              && c.rule.flags in {AUDIT_FILTER_TASK, AUDIT_FILTER_EXIT, AUDIT_FILTER_USER, AUDIT_FILTER_EXCLUDE}
  {
    hide Laid, AddField, FieldEntry, SelectSyscalls, WithFields, KeyEntry, LastAction;
    log := [];
    var c := CompileSyscall(s, flags, host).1;
    if c.Ready? {
      BlankLaid();
      SelectLaid(Blank(), [], s.syscalls, flags.syscall, host);
      var sel := SelectSyscalls(Blank(), s.syscalls, flags.syscall, host);
      var filter := LastFilter(s.actions);
      var flags1 := flags.(syscall := sel.added);
      var log1 := WithFieldsLaid(sel.rule, [], flags1, s.fields, filter, host);
      var b1 := WithFields(sel.rule, flags1, s.fields, filter, host);
      WithKeyLaid(b1.rule, log1, b1.flags, s.key, host);
      log := log1 + KeyEntry(s.key);
      var b2 := WithKey(b1.rule, b1.flags, s.key, host);
      LaidCompleted(b2.rule, log, filter, LastAction(s.actions));
      PrependGone(b2.rule, filter, LastAction(s.actions));
    }
  }

  lemma PrependGone(r: Rule, filter: uint32, action: int)
    requires -1 <= action <= 2
    ensures Completed(r.(flags := OrWord(r.flags, AUDIT_FILTER_PREPEND)), filter, action) ==
            Completed(r, filter, action)
  {
  }
}
