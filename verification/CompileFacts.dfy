/**
 What compiling means, stated by constraint and by meaning instead of by field:
 which fields a rule admits, what number each stands for, and that a compiled
 syscall rule holds exactly the syscalls, fields, filter and action configured.
 */
module CompileFacts {
  import opened Words
  import opened Bits
  import opened Rules
  import opened RuleLayout
  import opened Config

  // ---------------------------------------------------------------------------
  // One field
  // ---------------------------------------------------------------------------

  /** Fields that name a user. */
  predicate IsUser(id: uint32) {
    id in {1, 2, 3, 4, 9, 109, 110}
  }

  /** Fields that only the exit filter takes. */
  predicate ExitOnly(id: uint32) {
    19 <= id <= 23 || id in {100, AUDIT_INODE, AUDIT_EXIT, 104, AUDIT_WATCH, AUDIT_PERM, AUDIT_DIR}
  }

  /** Kinds of configuration value a field takes. */
  predicate Takes(id: uint32, val: FieldValue) {
    if id == AUDIT_PERM then true
    else if IsPacked(id) || id == AUDIT_FILETYPE then val.Text?
    else if IsUser(id) || id == AUDIT_MSGTYPE then !val.Other?
    else val.Number?
  }

  /** The number a configured value stands for, if it stands for one. */
  function ValueOf(id: uint32, val: FieldValue, host: Host): Option<int> {
    match val
    case Number(n) => Some(if id == AUDIT_ARCH then AUDIT_ARCH_X86_64 else if id == AUDIT_PERM then 0 else n)
    case Other => Some(0)
    case Text(s) =>
      if IsPacked(id) then Some(|s|)
      else if id == AUDIT_PERM then PermBits(s, 0)
      else if id == AUDIT_FILETYPE then host.fileType(s)
      else if id == AUDIT_MSGTYPE then host.msgType(s)
      else if s == UNSET_TEXT then Some(ALL_ONES)
      else host.userId(s)
  }

  predicate ShortEnough(id: uint32, val: FieldValue) {
    val.Text? ==>
      && (id == AUDIT_FILTERKEY ==> |val.s| <= AUDIT_MAX_KEY_LEN)
      && (IsPacked(id) ==> |val.s| <= PATH_MAX)
      && (id == AUDIT_PERM ==> |val.s| <= 4)
  }

  predicate FilterAdmits(id: uint32, filter: uint32) {
    && (filter == AUDIT_FILTER_EXCLUDE ==> id == AUDIT_MSGTYPE)
    && (ExitOnly(id) ==> filter == AUDIT_FILTER_EXIT)
    && (id == AUDIT_MSGTYPE ==> filter in {AUDIT_FILTER_EXCLUDE, AUDIT_FILTER_USER})
    && (id == AUDIT_PPID ==> filter in {AUDIT_FILTER_EXIT, AUDIT_FILTER_ENTRY})
    && (id == AUDIT_FILETYPE ==> filter != AUDIT_FILTER_ENTRY)
  }

  predicate OperatorAdmits(id: uint32, op: uint32) {
    && (id == AUDIT_PERM ==> op == AUDIT_EQUAL)
    && (id in {AUDIT_ARCH, AUDIT_INODE} ==> op in {AUDIT_EQUAL, AUDIT_NOT_EQUAL})
  }

  predicate HistoryAdmits(id: uint32, flags: Flags) {
    && (id == AUDIT_ARCH ==> flags.syscall)
    && (id == AUDIT_FILTERKEY ==> flags.syscall || flags.perm)
  }

  /** Everything a rule asks of a field. */
  predicate Admits(id: uint32, val: FieldValue, op: uint32, filter: uint32, flags: Flags, host: Host) {
    && FilterAdmits(id, filter) && OperatorAdmits(id, op) && HistoryAdmits(id, flags)
    && Takes(id, val) && ShortEnough(id, val) && ValueOf(id, val, host).Some?
  }

  /** The slot computed for a field is a failure exactly when some constraint is violated. */
  lemma SlotIff(id: uint32, val: FieldValue, op: uint32, filter: uint32, flags: Flags, host: Host)
    requires filter == AUDIT_FILTER_EXCLUDE ==> id == AUDIT_MSGTYPE
    ensures !SlotFor(id, val, op, filter, flags, host).Fail? <==> Admits(id, val, op, filter, flags, host)
  {
    hide PermBits;
  }

  /** What the slot holds is the number the value stands for. */
  lemma SlotValue(id: uint32, val: FieldValue, op: uint32, filter: uint32, flags: Flags, host: Host)
    ensures match SlotFor(id, val, op, filter, flags, host)
            case Store(v) => ValueOf(id, val, host) == Some(v)
            case Pack(s) => ValueOf(id, val, host) == Some(|s|) && val == Text(s)
            case Leave => id == AUDIT_PERM && ValueOf(id, val, host) == Some(0)
            case Fail(_) => true
  {
    hide PermBits;
  }

  /** A field call succeeds exactly when there is room, the name is known, and every constraint is met. */
  lemma FieldAccepted(r: Rule, flags: Flags, val: FieldValue, op: uint32, name: string, filter: uint32, host: Host)
    requires Shaped(r)
    ensures AddField(r, flags, val, op, name, filter, host).err.None? <==>
            && r.fieldCount < AUDIT_MAX_FIELDS - 1 && FieldId(name) != 0
            && Admits(FieldId(name), val, op, filter, flags, host)
  {
    hide FieldId, SlotFor, FlagsAfter, Admits;
    var id := FieldId(name);
    if filter == AUDIT_FILTER_EXCLUDE && id != AUDIT_MSGTYPE {
      ExcludeAdmits(id, val, op, filter, flags, host);
    } else {
      SlotIff(id, val, op, filter, flags, host);
    }
  }

  lemma ExcludeAdmits(id: uint32, val: FieldValue, op: uint32, filter: uint32, flags: Flags, host: Host)
    requires filter == AUDIT_FILTER_EXCLUDE && id != AUDIT_MSGTYPE
    ensures !Admits(id, val, op, filter, flags, host)
  {
    hide PermBits;
  }

  /** The call gets as far as the switch over the field numbers. */
  ghost predicate ReachesSwitch(r: Rule, name: string, filter: uint32) {
    r.fieldCount < 63 && FieldId(name) != 0 && (filter == AUDIT_FILTER_EXCLUDE ==> FieldId(name) == AUDIT_MSGTYPE)
  }

  /** Which error a slot gives: the filter comes first, then the history, the operator, and last the value. */
  lemma SlotErrors(id: uint32, val: FieldValue, op: uint32, filter: uint32, flags: Flags, host: Host)
    requires filter == AUDIT_FILTER_EXCLUDE ==> id == AUDIT_MSGTYPE
    ensures var slot := SlotFor(id, val, op, filter, flags, host);
            var named := id == AUDIT_FILETYPE ==> val.Text?;
            var open := FilterAdmits(id, filter) && HistoryAdmits(id, flags) && OperatorAdmits(id, op);
            && (slot == Fail(WrongFilter) <==> named && !FilterAdmits(id, filter))
            && (slot == Fail(NoPriorSyscall) <==> FilterAdmits(id, filter) && !HistoryAdmits(id, flags))
            && (slot == Fail(WrongOperator) <==>
                  FilterAdmits(id, filter) && HistoryAdmits(id, flags) && !OperatorAdmits(id, op))
            && (slot == Fail(NotAString) <==> !val.Text? && (id == AUDIT_FILETYPE || (open && IsPacked(id))))
            && (slot == Fail(TooLong) <==> open && Takes(id, val) && !ShortEnough(id, val))
            && (slot == Fail(BadPermission) <==>
                  open && id == AUDIT_PERM && val.Text? && |val.s| <= 4 && PermBits(val.s, 0) == None)
            && (slot == Fail(UnknownFileType) <==>
                  open && id == AUDIT_FILETYPE && val.Text? && host.fileType(val.s) == None)
            && (slot == Fail(UnknownUser) <==>
                  open && IsUser(id) && val.Text? && val.s != UNSET_TEXT && host.userId(val.s) == None)
            && (slot == Fail(NoStrings) <==>
                  open && val.Text?
                  && (5 <= id <= 8 || id in {11, 103, 200, 201, 202, 203} || (id == 12 && host.msgType(val.s) == None)))
  {
    hide PermBits;
  }

  /** Which error a field call gives before it looks at the field. */
  lemma FieldErrors(r: Rule, flags: Flags, val: FieldValue, op: uint32, name: string, filter: uint32, host: Host)
    requires Shaped(r)
    ensures var err := AddField(r, flags, val, op, name, filter, host).err;
            && (err == Some(MaxFields) <==> r.fieldCount >= 63)
            && (err == Some(UnknownField) <==> r.fieldCount < 63 && FieldId(name) == 0)
            && (err == Some(ExcludeNeedsMsgtype) <==>
                  r.fieldCount < 63 && FieldId(name) != 0 && filter == AUDIT_FILTER_EXCLUDE && FieldId(name) != 12)
            && (ReachesSwitch(r, name, filter) ==>
                  var slot := SlotFor(FieldId(name), val, op, filter, flags, host);
                  err == if slot.Fail? then Some(slot.err) else None)
  {
    hide FieldId, SlotFor, FlagsAfter;
    SlotKinds(FieldId(name), val, op, filter, flags, host);
  }

  lemma SlotKinds(id: uint32, val: FieldValue, op: uint32, filter: uint32, flags: Flags, host: Host)
    ensures var slot := SlotFor(id, val, op, filter, flags, host);
            slot != Fail(MaxFields) && slot != Fail(UnknownField) && slot != Fail(ExcludeNeedsMsgtype)
  {
    hide PermBits;
  }

  /**
   auditPermAdded is raised exactly by a path or dir field that gets as far as the exit
   filter, and by a permission string that is accepted. auditSyscallAdded never changes.
   */
  lemma PermFlagIff(r: Rule, flags: Flags, val: FieldValue, op: uint32, name: string, filter: uint32, host: Host)
    requires Shaped(r)
    ensures var b, id := AddField(r, flags, val, op, name, filter, host), FieldId(name);
            && b.flags.syscall == flags.syscall
            && (b.flags.perm <==>
                  || flags.perm
                  || (r.fieldCount < 63 && (id == 105 || id == 107) && filter == 4)
                  || (b.err.None? && id == 106 && val.Text?))
  {
    hide FieldId, PermBits;
  }

  /** Everything of a rule but its fields, and the slots below `n`. */
  ghost predicate SameUpTo(a: Rule, b: Rule, n: nat) {
    && Shaped(a) && Shaped(b) && n <= AUDIT_MAX_FIELDS
    && a.flags == b.flags && a.action == b.action && a.mask == b.mask
    && a.fields[..n] == b.fields[..n] && a.values[..n] == b.values[..n] && a.fieldflags[..n] == b.fieldflags[..n]
  }

  /** Slot `i` holds the field: its number, its operator, and the number its value stands for. */
  ghost predicate SlotHolds(r: Rule, i: nat, name: string, op: uint32, val: FieldValue, host: Host)
    requires Shaped(r) && i < AUDIT_MAX_FIELDS
  {
    r.fields[i] == FieldId(name) && r.fieldflags[i] == op && ValueOf(FieldId(name), val, host) == Some(r.values[i])
  }

  /** A successful call adds one slot that holds the field; a failing one leaves count, values and strings. */
  lemma FieldStored(r: Rule, log: Log, flags: Flags, val: FieldValue, op: uint32, name: string, filter: uint32,
                    host: Host)
    requires Laid(r, log)
    ensures var b := AddField(r, flags, val, op, name, filter, host);
            && SameUpTo(r, b.rule, r.fieldCount)
            && (b.err.None? ==>
                  b.rule.fieldCount == r.fieldCount + 1 <= 63 && SlotHolds(b.rule, r.fieldCount, name, op, val, host))
            && (b.err.Some? ==> b.rule == r.(fields := b.rule.fields, fieldflags := b.rule.fieldflags))
  {
    hide FieldId, SlotFor, FlagsAfter, ValueOf, Packed;
    SlotValue(FieldId(name), val, op, filter, flags, host);
    assert DeadSlot(r, r.fieldCount);
  }

  // ---------------------------------------------------------------------------
  // A list of fields
  // ---------------------------------------------------------------------------

  ghost predicate SlotsHold(r: Rule, at: nat, fields: seq<FieldSpec>, host: Host)
    requires Shaped(r)
  {
    at + |fields| <= AUDIT_MAX_FIELDS &&
    forall i :: 0 <= i < |fields| ==> SlotHolds(r, at + i, fields[i].name, OpValue(fields[i].op), fields[i].val, host)
  }

  lemma SlotHoldsKept(a: Rule, b: Rule, n: nat, i: nat, name: string, op: uint32, val: FieldValue, host: Host)
    requires SameUpTo(a, b, n) && i < n && SlotHolds(a, i, name, op, val, host)
    ensures SlotHolds(b, i, name, op, val, host)
  {
    hide FieldId, ValueOf;
    assert b.fields[i] == b.fields[..n][i] && b.values[i] == b.values[..n][i];
    assert b.fieldflags[i] == b.fieldflags[..n][i];
    assert a.fields[i] == a.fields[..n][i] && a.values[i] == a.values[..n][i];
    assert a.fieldflags[i] == a.fieldflags[..n][i];
  }

  lemma SameShorter(a: Rule, b: Rule, c: Rule, m: nat, n: nat)
    requires m <= n && SameUpTo(a, b, m) && SameUpTo(b, c, n)
    ensures SameUpTo(a, c, m)
  {
    assert b.fields[..n][..m] == b.fields[..m] && c.fields[..n][..m] == c.fields[..m];
    assert b.values[..n][..m] == b.values[..m] && c.values[..n][..m] == c.values[..m];
    assert b.fieldflags[..n][..m] == b.fieldflags[..m] && c.fieldflags[..n][..m] == c.fieldflags[..m];
  }

  lemma {:induction false} FieldsStored(r: Rule, log: Log, flags: Flags, fields: seq<FieldSpec>, filter: uint32,
                                        host: Host)
    requires Laid(r, log) && Shaped(r)
    ensures var b := WithFields(r, flags, fields, filter, host);
            b.err.None? ==>
              && SameUpTo(r, b.rule, r.fieldCount)
              && b.rule.fieldCount == r.fieldCount + |fields| <= 63
              && SlotsHold(b.rule, r.fieldCount, fields, host)
    decreases |fields|
  {
    hide Laid, AddField, OpValue, SlotHolds, SameUpTo;
    if fields == [] {
      LaidCount(r, log);
      SameItself(r);
    } else {
      var f, rest := fields[0], fields[1..];
      FieldStored(r, log, flags, f.val, OpValue(f.op), f.name, filter, host);
      AddFieldLaid(r, log, flags, f.val, OpValue(f.op), f.name, filter, host);
      var b := AddField(r, flags, f.val, OpValue(f.op), f.name, filter, host);
      if b.err.None? {
        FieldsStored(b.rule, log + [FieldEntry(f.val, f.name)], b.flags, rest, filter, host);
        var b' := WithFields(b.rule, b.flags, rest, filter, host);
        if b'.err.None? {
          SameShorter(r, b.rule, b'.rule, r.fieldCount, b.rule.fieldCount);
          SlotHoldsKept(b.rule, b'.rule, b.rule.fieldCount, r.fieldCount, f.name, OpValue(f.op), f.val, host);
          forall i | 0 <= i < |fields|
            ensures SlotHolds(b'.rule, r.fieldCount + i, fields[i].name, OpValue(fields[i].op), fields[i].val, host)
          {
            if i > 0 { assert fields[i] == rest[i - 1] && r.fieldCount + i == b.rule.fieldCount + (i - 1); }
          }
        }
      }
    }
  }

  lemma SameItself(r: Rule)
    requires Shaped(r) && r.fieldCount <= AUDIT_MAX_FIELDS
    ensures SameUpTo(r, r, r.fieldCount)
  {
  }

  // ---------------------------------------------------------------------------
  // Syscalls
  // ---------------------------------------------------------------------------

  /** Number `k` belongs to a name of the list. */
  ghost predicate Names(entries: seq<SyscallEntry>, k: nat, host: Host) {
    exists i :: 0 <= i < |entries| && entries[i].Named? && host.syscallNumber(entries[i].name) == Some(k)
  }

  lemma NamesSplit(entries: seq<SyscallEntry>, k: nat, host: Host)
    requires entries != []
    ensures Names(entries, k, host) <==>
            (entries[0].Named? && host.syscallNumber(entries[0].name) == Some(k)) || Names(entries[1..], k, host)
  {
    if Names(entries[1..], k, host) {
      var i :| 0 <= i < |entries[1..]| && entries[1..][i].Named? && host.syscallNumber(entries[1..][i].name) == Some(k);
      assert entries[i + 1] == entries[1..][i];
    }
    if Names(entries, k, host) {
      var i :| 0 <= i < |entries| && entries[i].Named? && host.syscallNumber(entries[i].name) == Some(k);
      if i > 0 { assert entries[1..][i - 1] == entries[i]; }
    }
  }

  /** Selecting syscalls changes the mask only, and adds exactly the numbers of the names that are known. */
  lemma {:induction false} SelectExact(r: Rule, entries: seq<SyscallEntry>, added: bool, host: Host, k: nat)
    requires Shaped(r)
    ensures var s := SelectSyscalls(r, entries, added, host);
            s.err.None? ==>
              && s.rule == r.(mask := s.rule.mask)
              && (InMask(s.rule.mask, k) <==> InMask(r.mask, k) || Names(entries, k, host))
    decreases |entries|
  {
    hide AddSyscall, InMask, Names;
    if entries == [] {
      assert !Names(entries, k, host) by { NoNames(k, host); }
    } else {
      NamesSplit(entries, k, host);
      if entries[0].Named? {
        match host.syscallNumber(entries[0].name)
        case None => SelectExact(r, entries[1..], added, host, k);
        case Some(nr) =>
          AddSyscallSet(r, nr, k);
          MaskOnly(r, nr);
          SelectExact(AddSyscall(r, nr).0, entries[1..], true, host, k);
      }
    }
  }

  /** Some name of the list is known. */
  ghost predicate NamesSome(entries: seq<SyscallEntry>, host: Host) {
    exists k: nat :: Names(entries, k, host)
  }

  /** Every entry is a name, and no known one has too high a number. */
  ghost predicate Selectable(entries: seq<SyscallEntry>, host: Host) {
    forall i :: 0 <= i < |entries| ==> EntrySelectable(entries[i], host)
  }

  ghost predicate EntrySelectable(entry: SyscallEntry, host: Host) {
    entry.Named? && (host.syscallNumber(entry.name).Some? ==> host.syscallNumber(entry.name).value < 2016)
  }

  lemma SelectableSplit(entries: seq<SyscallEntry>, host: Host)
    requires entries != []
    ensures Selectable(entries, host) <==> EntrySelectable(entries[0], host) && Selectable(entries[1..], host)
  {
    hide EntrySelectable;
    var rest := entries[1..];
    if Selectable(entries, host) {
      forall i | 0 <= i < |rest| ensures EntrySelectable(rest[i], host) { assert rest[i] == entries[i + 1]; }
    }
    if EntrySelectable(entries[0], host) && Selectable(rest, host) {
      forall i | 0 <= i < |entries| ensures EntrySelectable(entries[i], host) {
        if i > 0 { assert entries[i] == rest[i - 1]; }
      }
    }
  }

  lemma NamesSomeSplit(entries: seq<SyscallEntry>, host: Host)
    requires entries != []
    ensures NamesSome(entries, host) <==>
            (entries[0].Named? && host.syscallNumber(entries[0].name).Some?) || NamesSome(entries[1..], host)
  {
    hide Names;
    if NamesSome(entries, host) {
      var k: nat :| Names(entries, k, host);
      NamesSplit(entries, k, host);
    }
    if NamesSome(entries[1..], host) {
      var k: nat :| Names(entries[1..], k, host);
      NamesSplit(entries, k, host);
    }
    if entries[0].Named? && host.syscallNumber(entries[0].name).Some? {
      NamesSplit(entries, host.syscallNumber(entries[0].name).value, host);
    }
  }

  /** When the syscall list is accepted, and when it raises auditSyscallAdded. */
  lemma {:induction false} SelectAdded(r: Rule, entries: seq<SyscallEntry>, added: bool, host: Host)
    requires Shaped(r)
    ensures var s := SelectSyscalls(r, entries, added, host);
            && (s.err.None? <==> Selectable(entries, host))
            && s.err != Some(NoSyscalls)
            && (s.err.None? ==> (s.added <==> added || NamesSome(entries, host)))
    decreases |entries|
  {
    hide AddSyscall, NamesSome, Selectable;
    if entries == [] {
      assert Selectable(entries, host) && !NamesSome(entries, host) by { NothingSelected(host); }
    } else {
      SelectableSplit(entries, host);
      NamesSomeSplit(entries, host);
      if entries[0].Named? {
        match host.syscallNumber(entries[0].name)
        case None => SelectAdded(r, entries[1..], added, host);
        case Some(nr) =>
          AddSyscallSet(r, nr, 0);
          SelectAdded(AddSyscall(r, nr).0, entries[1..], true, host);
      }
    }
  }

  lemma NothingSelected(host: Host)
    ensures Selectable([], host) && !NamesSome([], host)
  {
    forall k: nat ensures !Names([], k, host) { NoNames(k, host); }
  }

  /** Refused for want of syscalls exactly when neither this nor an earlier rule of the section names a known one. */
  lemma NoSyscallsIff(s: SyscallRule, flags: Flags, host: Host)
    ensures CompileSyscall(s, flags, host).1 == Rejected(NoSyscalls) <==>
            Selectable(s.syscalls, host) && !flags.syscall && !NamesSome(s.syscalls, host)
  {
    hide SelectSyscalls, WithFields, WithKey, NamesSome, Selectable, LastAction, LastFilter;
    SelectAdded(Blank(), s.syscalls, flags.syscall, host);
  }

  /** The list stops at the first bad entry, and the error tells which kind it is. */
  lemma {:induction false} SelectErrorAt(r: Rule, entries: seq<SyscallEntry>, added: bool, host: Host) returns (k: nat)
    requires Shaped(r)
    ensures k <= |entries| && forall i :: 0 <= i < k ==> EntrySelectable(entries[i], host)
    ensures var err := SelectSyscalls(r, entries, added, host).err;
            && (k == |entries| ==> err == None)
            && (k < |entries| ==>
                  && !EntrySelectable(entries[k], host)
                  && err == Some(if entries[k].NotAName? then BadSyscallName else Build(SyscallOutOfRange)))
    decreases |entries|
  {
    hide AddSyscall;
    k := 0;
    if entries != [] && entries[0].Named? {
      match host.syscallNumber(entries[0].name)
      case None =>
        var j := SelectErrorAt(r, entries[1..], added, host);
        k := j + 1;
      case Some(nr) =>
        AddSyscallSet(r, nr, 0);
        RangeError(r, nr);
        if nr < 2016 {
          var j := SelectErrorAt(AddSyscall(r, nr).0, entries[1..], true, host);
          k := j + 1;
        }
    }
    forall i | 0 <= i < k ensures EntrySelectable(entries[i], host) {
      if i > 0 { assert entries[i] == entries[1..][i - 1]; }
    }
  }

  lemma RangeError(r: Rule, nr: nat)
    requires Shaped(r)
    ensures AddSyscall(r, nr).1 == if nr < 2016 then None else Some(SyscallOutOfRange)
  {
    hide AuditBit, OrWord;
  }

  lemma NoNames(k: nat, host: Host)
    ensures !Names([], k, host)
  {
  }

  lemma MaskOnly(r: Rule, nr: nat)
    requires Shaped(r)
    ensures AddSyscall(r, nr).0 == r.(mask := AddSyscall(r, nr).0.mask)
  {
    hide AuditBit, OrWord;
  }

  // ---------------------------------------------------------------------------
  // A whole syscall rule
  // ---------------------------------------------------------------------------

  /** The fields a rule is compiled from, the key last. */
  function AllFields(s: SyscallRule): seq<FieldSpec> {
    s.fields + if s.key.Some? then [FieldSpec("key", "eq", s.key.value)] else []
  }

  /**
   A compiled syscall rule is the rule configured: its mask is the set of the
   syscalls named, slot by slot it holds the fields given and then the key, and
   its filter and action are the last ones named.
   */
  lemma SyscallRuleFaithful(s: SyscallRule, flags: Flags, host: Host, k: nat)
    ensures var c := CompileSyscall(s, flags, host).1;
            c.Ready? ==>
              && (InMask(c.rule.mask, k) <==> Names(s.syscalls, k, host))
              && c.rule.fieldCount == |AllFields(s)| <= 63
              && SlotsHold(c.rule, 0, AllFields(s), host)
              && c.rule.flags == LastFilter(s.actions) != AUDIT_FILTER_UNSET
              && c.rule.action == (if LastAction(s.actions) == -1 then 0xFFFF_FFFF else LastAction(s.actions))
  {
    hide Laid, AddField, SelectSyscalls, WithFields, LastAction, LastFilter, InMask, Names, SlotHolds, FieldEntry;
    var (_, c) := CompileSyscall(s, flags, host);
    if c.Ready? {
      var sel := SelectSyscalls(Blank(), s.syscalls, flags.syscall, host);
      SelectExact(Blank(), s.syscalls, flags.syscall, host, k);
      BlankMask(k);
      BlankLaid();
      SelectLaid(Blank(), [], s.syscalls, flags.syscall, host);
      var filter := LastFilter(s.actions);
      var flags1 := flags.(syscall := sel.added);
      FieldsStored(sel.rule, [], flags1, s.fields, filter, host);
      var b1 := WithFields(sel.rule, flags1, s.fields, filter, host);
      var log := WithFieldsLaid(sel.rule, [], flags1, s.fields, filter, host);
      KeyStored(b1.rule, log, b1.flags, s, host);
      CompletedHolds(WithKey(b1.rule, b1.flags, s.key, host).rule, filter, LastAction(s.actions), AllFields(s), host);
    }
  }

  /** The key takes the slot behind the fields. */
  lemma KeyStored(r: Rule, log: Log, flags: Flags, s: SyscallRule, host: Host)
    requires Laid(r, log) && Shaped(r) && r.fieldCount == |s.fields| <= 63 && SlotsHold(r, 0, s.fields, host)
    ensures var b := WithKey(r, flags, s.key, host);
            b.err.None? ==>
              && b.rule.mask == r.mask && b.rule.fieldCount == |AllFields(s)| <= 63
              && SlotsHold(b.rule, 0, AllFields(s), host)
  {
    hide Laid, AddField, SlotHolds, SameUpTo;
    if s.key.Some? {
      FieldStored(r, log, flags, s.key.value, AUDIT_EQUAL, "key", AUDIT_FILTER_UNSET, host);
      var b := WithKey(r, flags, s.key, host);
      SameMask(r, b.rule, r.fieldCount);
      if b.err.None? {
        var fs := AllFields(s);
        EqOperator();
        forall i | 0 <= i < |fs| ensures SlotHolds(b.rule, i, fs[i].name, OpValue(fs[i].op), fs[i].val, host) {
          if i < |s.fields| {
            assert SlotHolds(r, 0 + i, s.fields[i].name, OpValue(s.fields[i].op), s.fields[i].val, host);
            SlotHoldsKept(r, b.rule, r.fieldCount, i, s.fields[i].name, OpValue(s.fields[i].op), s.fields[i].val, host);
          }
        }
      }
    } else {
      assert AllFields(s) == s.fields;
    }
  }

  lemma SameMask(a: Rule, b: Rule, n: nat)
    requires SameUpTo(a, b, n)
    ensures a.mask == b.mask
  {
  }

  lemma EqOperator()
    ensures OpValue("eq") == AUDIT_EQUAL
  {
  }

  lemma CompletedHolds(r: Rule, filter: uint32, action: int, fields: seq<FieldSpec>, host: Host)
    requires Shaped(r) && -1 <= action <= 2 && SlotsHold(r, 0, fields, host)
    ensures SlotsHold(Completed(r, filter, action), 0, fields, host)
  {
    hide FieldId, ValueOf, OpValue;
    forall i | 0 <= i < |fields|
      ensures SlotHolds(Completed(r, filter, action), 0 + i, fields[i].name, OpValue(fields[i].op), fields[i].val, host)
    {
      assert SlotHolds(r, 0 + i, fields[i].name, OpValue(fields[i].op), fields[i].val, host);
    }
  }

  // ---------------------------------------------------------------------------
  // Which syscall rules are accepted
  // ---------------------------------------------------------------------------

  /** A field that is admitted once a syscall has been added. */
  ghost predicate FieldAdmitted(f: FieldSpec, filter: uint32, host: Host) {
    FieldId(f.name) != 0 && Admits(FieldId(f.name), f.val, OpValue(f.op), filter, Flags(false, true), host)
  }

  ghost predicate FieldsAdmitted(fs: seq<FieldSpec>, filter: uint32, host: Host) {
    forall i :: 0 <= i < |fs| ==> FieldAdmitted(fs[i], filter, host)
  }

  lemma FieldsAdmittedSplit(fs: seq<FieldSpec>, filter: uint32, host: Host)
    requires fs != []
    ensures FieldsAdmitted(fs, filter, host) <==>
            FieldAdmitted(fs[0], filter, host) && FieldsAdmitted(fs[1..], filter, host)
  {
    hide FieldAdmitted;
    var rest := fs[1..];
    if FieldsAdmitted(fs, filter, host) {
      forall i | 0 <= i < |rest| ensures FieldAdmitted(rest[i], filter, host) { assert rest[i] == fs[i + 1]; }
    }
    if FieldAdmitted(fs[0], filter, host) && FieldsAdmitted(rest, filter, host) {
      forall i | 0 <= i < |fs| ensures FieldAdmitted(fs[i], filter, host) {
        if i > 0 { assert fs[i] == rest[i - 1]; }
      }
    }
  }

  lemma OneField(r: Rule, p: bool, f: FieldSpec, filter: uint32, host: Host)
    requires Shaped(r)
    ensures var b := AddField(r, Flags(p, true), f.val, OpValue(f.op), f.name, filter, host);
            && (b.err.None? <==> r.fieldCount < 63 && FieldAdmitted(f, filter, host))
            && b.flags.syscall
            && (b.err.None? ==> b.rule.fieldCount == r.fieldCount + 1)
  {
    hide FieldId, OpValue, FilterAdmits, OperatorAdmits, Takes, ShortEnough, ValueOf, SlotFor, FlagsAfter;
    FieldAccepted(r, Flags(p, true), f.val, OpValue(f.op), f.name, filter, host);
  }

  lemma {:induction false} FieldsAccepted(r: Rule, p: bool, fs: seq<FieldSpec>, filter: uint32, host: Host)
    requires Shaped(r) && r.fieldCount <= 63
    ensures var b := WithFields(r, Flags(p, true), fs, filter, host);
            && (b.err.None? <==> r.fieldCount + |fs| <= 63 && FieldsAdmitted(fs, filter, host))
            && b.flags.syscall
            && (b.err.None? ==> b.rule.fieldCount == r.fieldCount + |fs|)
    decreases |fs|
  {
    hide AddField, OpValue, FieldAdmitted;
    if fs != [] {
      FieldsAdmittedSplit(fs, filter, host);
      OneField(r, p, fs[0], filter, host);
      var b := AddField(r, Flags(p, true), fs[0].val, OpValue(fs[0].op), fs[0].name, filter, host);
      if b.err.None? { FieldsAccepted(b.rule, b.flags.perm, fs[1..], filter, host); }
    }
  }

  /** Syscalls, fields and key of a rule are in order, under the filter it names. */
  ghost predicate Compilable(s: SyscallRule, flags: Flags, host: Host) {
    && Selectable(s.syscalls, host) && (flags.syscall || NamesSome(s.syscalls, host))
    && |AllFields(s)| <= 63 && FieldsAdmitted(s.fields, LastFilter(s.actions), host)
    && (s.key.Some? ==> FieldAdmitted(FieldSpec("key", "eq", s.key.value), AUDIT_FILTER_UNSET, host))
  }

  /**
   A syscall rule is accepted if and only if its parts are in order and it names a
   filter. Without a filter it is refused, and with fewer than two actions as well the
   refusal panics.
   */
  lemma SyscallRuleAccepted(s: SyscallRule, flags: Flags, host: Host)
    ensures var c, named := CompileSyscall(s, flags, host).1, LastFilter(s.actions) != AUDIT_FILTER_UNSET;
            && (c.Ready? <==> Compilable(s, flags, host) && named)
            && (c == Crash <==> Compilable(s, flags, host) && !named && |s.actions| < 2)
            && (c == Rejected(FilterUnset) <==> Compilable(s, flags, host) && !named && |s.actions| >= 2)
  {
    hide SelectSyscalls, WithFields, AddField, Selectable, NamesSome, FieldsAdmitted, FieldAdmitted, LastFilter,
      LastAction, OpValue, OrWord;
    var sel := SelectSyscalls(Blank(), s.syscalls, flags.syscall, host);
    SelectAdded(Blank(), s.syscalls, flags.syscall, host);
    SelectExact(Blank(), s.syscalls, flags.syscall, host, 0);
    SelectNeverUnset(Blank(), s.syscalls, flags.syscall, host);
    if sel.err.None? && sel.added {
      var filter := LastFilter(s.actions);
      FieldsAccepted(sel.rule, flags.perm, s.fields, filter, host);
      var b1 := WithFields(sel.rule, Flags(flags.perm, true), s.fields, filter, host);
      if b1.err.None? && s.key.Some? {
        EqOperator();
        OneField(b1.rule, b1.flags.perm, FieldSpec("key", "eq", s.key.value), AUDIT_FILTER_UNSET, host);
      }
    }
  }

  lemma {:induction false} SelectNeverUnset(r: Rule, entries: seq<SyscallEntry>, added: bool, host: Host)
    requires Shaped(r)
    ensures SelectSyscalls(r, entries, added, host).err != Some(FilterUnset)
    decreases |entries|
  {
    hide AddSyscall;
    if entries != [] && entries[0].Named? {
      match host.syscallNumber(entries[0].name)
      case None => SelectNeverUnset(r, entries[1..], added, host);
      case Some(nr) => SelectNeverUnset(AddSyscall(r, nr).0, entries[1..], true, host);
    }
  }
}
