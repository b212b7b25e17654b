/**
 The layout every successful sequence of builder calls keeps: which slots are
 live, and where in the packed buffer each supplied string is found. The builder
 stores no offsets; every reader recomputes them from the fields and values.
 */
module RuleLayout {
  import opened Words
  import opened Bits
  import opened Rules

  // ---------------------------------------------------------------------------
  // The readers' view
  // ---------------------------------------------------------------------------

  /** A field number with the operator bits masked out, as every reader looks at it. */
  function Masked(field: uint32): nat {
    And(field, NOT_OPERATORS)
  }

  /** Fields whose value is the length of a string in the buffer, as the key search decides. */
  predicate IsString(field: nat) {
    || (AUDIT_SUBJ_USER <= field <= AUDIT_OBJ_LEV_HIGH && field != AUDIT_PPID)
    || field == AUDIT_WATCH || field == AUDIT_DIR || field == AUDIT_FILTERKEY || field == AUDIT_EXE
  }

  /** Buffer offset of slot `i`, recomputed from the slots before it. */
  function Offset(r: Rule, i: nat): nat
    requires Shaped(r) && i <= AUDIT_MAX_FIELDS
  {
    if i == 0 then 0
    else Offset(r, i - 1) + if IsString(Masked(r.fields[i - 1])) then r.values[i - 1] else 0
  }

  lemma LowBits()
    ensures forall k :: 0 <= k < 8 ==> Bit(NOT_OPERATORS, k)
  {
    assert Bit(0x87FF_FFFF, 0) && Bit(0x87FF_FFFF, 1) && Bit(0x87FF_FFFF, 2) && Bit(0x87FF_FFFF, 3);
    assert Bit(0x87FF_FFFF, 4) && Bit(0x87FF_FFFF, 5) && Bit(0x87FF_FFFF, 6) && Bit(0x87FF_FFFF, 7);
  }

  /** Field numbers proper have no operator bits. */
  lemma MaskedId(field: uint32)
    requires field < 256
    ensures Masked(field) == field
  {
    LowBits();
    assert Shift(8) == 256;
    AndOnes(field, NOT_OPERATORS, 8);
  }

  // ---------------------------------------------------------------------------
  // The layout invariant
  // ---------------------------------------------------------------------------

  /** One entry per live slot: the string supplied for it, if it is a string field. */
  type Log = seq<Option<bytes>>

  function TextOf(entry: Option<bytes>): bytes {
    if entry.Some? then entry.value else []
  }

  /** The supplied strings, one after the other. */
  function Packed(log: Log): bytes {
    if log == [] then [] else Packed(log[..|log| - 1]) + TextOf(log[|log| - 1])
  }

  ghost predicate LiveSlot(field: uint32, value: uint32, entry: Option<bytes>) {
    && 0 < field <= AUDIT_FILTERKEY && field != AUDIT_EXE
    && (entry.Some? <==> IsPacked(field))
    && (entry.Some? ==> value == |entry.value| <= PATH_MAX)
  }

  ghost predicate DeadSlot(r: Rule, i: nat)
    requires Shaped(r) && i < AUDIT_MAX_FIELDS
  {
    r.fields[i] == 0 && r.values[i] == 0 && r.fieldflags[i] == 0
  }

  ghost predicate Laid(r: Rule, log: Log) {
    && Shaped(r)
    && |log| == r.fieldCount <= AUDIT_MAX_FIELDS - 1
    && (forall i :: 0 <= i < r.fieldCount ==> LiveSlot(r.fields[i], r.values[i], log[i]))
    && (forall i :: r.fieldCount <= i < AUDIT_MAX_FIELDS ==> DeadSlot(r, i))
    && r.buf == Packed(log)
    && r.buflen == |r.buf|
  }

  lemma {:induction false} PackedBound(log: Log)
    requires forall i :: 0 <= i < |log| ==> |TextOf(log[i])| <= PATH_MAX
    ensures |Packed(log)| <= PATH_MAX * |log|
  {
    if log != [] {
      var short := log[..|log| - 1];
      forall i | 0 <= i < |short| ensures |TextOf(short[i])| <= PATH_MAX { assert short[i] == log[i]; }
      PackedBound(short);
    }
  }

  lemma PackedNone()
    ensures Packed([]) == []
  {
  }

  lemma PackedSnoc(log: Log, entry: Option<bytes>)
    ensures Packed(log + [entry]) == Packed(log) + TextOf(entry)
  {
    assert (log + [entry])[..|log|] == log;
  }

  /** The total length of the strings never comes near the 32-bit limit. */
  lemma LaidBound(r: Rule, log: Log)
    requires Laid(r, log)
    ensures |r.buf| <= 63 * 4096
  {
    forall i | 0 <= i < |log| ensures |TextOf(log[i])| <= PATH_MAX {
      assert LiveSlot(r.fields[i], r.values[i], log[i]);
    }
    PackedBound(log);
  }

  lemma {:induction false} PackedAt(log: Log, i: nat)
    requires i < |log|
    ensures var lo := |Packed(log[..i])|;
            && lo + |TextOf(log[i])| <= |Packed(log)|
            && Packed(log)[lo..lo + |TextOf(log[i])|] == TextOf(log[i])
    decreases |log|
  {
    var short := log[..|log| - 1];
    if i < |short| {
      assert short[..i] == log[..i];
      PackedAt(short, i);
    }
  }

  lemma {:induction false} OffsetIsPacked(r: Rule, log: Log, i: nat)
    requires Laid(r, log) && i <= r.fieldCount
    ensures Offset(r, i) == |Packed(log[..i])|
    decreases i
  {
    hide Packed, Masked;
    if i == 0 {
      assert log[..0] == [];
      PackedNone();
    } else {
      OffsetIsPacked(r, log, i - 1);
      assert log[..i] == log[..i - 1] + [log[i - 1]];
      PackedSnoc(log[..i - 1], log[i - 1]);
      assert LiveSlot(r.fields[i - 1], r.values[i - 1], log[i - 1]);
      MaskedId(r.fields[i - 1]);
    }
  }

  /** The slice a reader takes for a string field is exactly the string supplied for it. */
  lemma StringAt(r: Rule, log: Log, i: nat)
    requires Laid(r, log) && i < r.fieldCount && IsString(Masked(r.fields[i]))
    ensures log[i].Some?
    ensures Offset(r, i) + r.values[i] <= |r.buf|
    ensures r.buf[Offset(r, i)..Offset(r, i) + r.values[i]] == log[i].value
  {
    hide Packed;
    assert LiveSlot(r.fields[i], r.values[i], log[i]);
    MaskedId(r.fields[i]);
    OffsetIsPacked(r, log, i);
    PackedAt(log, i);
  }

  /** Buflen, the buffer and the lengths stored in the slots agree, and the strings fill the buffer. */
  lemma LaidTotals(r: Rule, log: Log)
    requires Laid(r, log)
    ensures r.buflen == |r.buf| == Offset(r, r.fieldCount) <= 63 * 4096
  {
    hide Packed, Offset;
    LaidBound(r, log);
    OffsetIsPacked(r, log, r.fieldCount);
    assert log[..r.fieldCount] == log;
  }

  // ---------------------------------------------------------------------------
  // Every builder call keeps the layout
  // ---------------------------------------------------------------------------

  lemma BlankLaid()
    ensures Laid(Blank(), [])
  {
  }

  /** Filling the next slot with a live field and appending its text keeps the layout. */
  lemma LaidExtended(r: Rule, log: Log, r': Rule, field: uint32, op: uint32, value: uint32, entry: Option<bytes>)
    requires Laid(r, log) && r.fieldCount < AUDIT_MAX_FIELDS - 1
    requires LiveSlot(field, value, entry)
    requires r' == r.(fields := r.fields[r.fieldCount := field], values := r.values[r.fieldCount := value],
                      fieldflags := r.fieldflags[r.fieldCount := op], fieldCount := r.fieldCount + 1,
                      buflen := (r.buflen + |TextOf(entry)|) % 0x1_0000_0000, buf := r.buf + TextOf(entry))
    ensures Laid(r', log + [entry])
  {
    hide Packed, LiveSlot;
    PackedSnoc(log, entry);
    LaidBound(r, log);
    TextShort(field, value, entry);
    var log' := log + [entry];
    forall i | 0 <= i < r'.fieldCount ensures LiveSlot(r'.fields[i], r'.values[i], log'[i]) {
      if i < r.fieldCount { assert LiveSlot(r.fields[i], r.values[i], log[i]); }
    }
    forall i | r'.fieldCount <= i < AUDIT_MAX_FIELDS ensures DeadSlot(r', i) { assert DeadSlot(r, i); }
  }

  lemma TextShort(field: uint32, value: uint32, entry: Option<bytes>)
    requires LiveSlot(field, value, entry)
    ensures |TextOf(entry)| <= PATH_MAX
  {
  }

  function FieldEntry(val: FieldValue, name: string): Option<bytes> {
    if IsPacked(FieldId(name)) && val.Text? then Some(val.s) else None
  }

  lemma AddFieldLaid(r: Rule, log: Log, flags: Flags, val: FieldValue, op: uint32, name: string, filter: uint32,
                     host: Host)
    requires Laid(r, log)
    ensures var b := AddField(r, flags, val, op, name, filter, host);
            b.err.None? ==> Laid(b.rule, log + [FieldEntry(val, name)])
  {
    hide Packed, FieldId, SlotFor, FlagsAfter;
    var b := AddField(r, flags, val, op, name, filter, host);
    if b.err.None? {
      var id := FieldId(name);
      var slot := SlotFor(id, val, op, filter, flags, host);
      assert DeadSlot(r, r.fieldCount);
      var value := if slot.Store? then slot.v else if slot.Pack? then |slot.s| else 0;
      assert slot.Leave? ==> r.values == r.values[r.fieldCount := value];
      assert r.buf + [] == r.buf;
      LaidExtended(r, log, b.rule, id, op, value, FieldEntry(val, name));
    }
  }

  lemma AddSyscallLaid(r: Rule, log: Log, nr: nat)
    requires Laid(r, log)
    ensures AddSyscall(r, nr).1.None? ==> Laid(AddSyscall(r, nr).0, log)
  {
    hide Packed, AuditBit, OrWord;
    var r' := AddSyscall(r, nr).0;
    forall i | r.fieldCount <= i < AUDIT_MAX_FIELDS ensures DeadSlot(r', i) { assert DeadSlot(r, i); }
  }

  lemma AddWatchLaid(r: Rule, log: Log, typ: uint32, path: bytes)
    requires Laid(r, log) && typ in {AUDIT_WATCH, AUDIT_DIR} && |path| <= PATH_MAX
    ensures var (r', err) := AddWatch(r, typ, path);
            && (err.None? <==> log == [])
            && (err.None? ==> Laid(r', [Some(path), None]))
  {
    hide AllSyscalls, Packed;
    if log == [] {
      var r', log' := AddWatch(r, typ, path).0, [Some(path), None];
      WatchPacked(path);
      PackedNone();
      assert r'.buf == path by { assert [] + path == path; }
      assert LiveSlot(typ, |path|, Some(path)) && LiveSlot(AUDIT_PERM, PERM_ALL, None);
      forall i | 0 <= i < 2 ensures LiveSlot(r'.fields[i], r'.values[i], log'[i]) { }
      forall i | 2 <= i < AUDIT_MAX_FIELDS ensures DeadSlot(r', i) { assert DeadSlot(r, i); }
    }
  }

  lemma WatchPacked(path: bytes)
    ensures Packed([Some(path), None]) == path
  {
    hide Packed;
    PackedNone();
    PackedSnoc([], Some(path));
    PackedSnoc([Some(path)], None);
    assert [] + [Some(path)] == [Some(path)] && [Some(path)] + [None] == [Some(path), None];
    assert [] + path == path && path + [] == path;
  }

  lemma SetupWatchLaid(r: Rule, log: Log, path: bytes, strict: bool, host: Host)
    requires Laid(r, log) && path != []
    ensures var (r', err) := SetupWatch(r, path, strict, host);
            err.None? ==> log == [] && Laid(r', [Some(TrimSlashes(path)), None])
  {
    hide Laid, Contains, AddWatch;
    if CheckPath(path, host).None? {
      assert Shaped(r) by { LaidShaped(r, log); }
      AddWatchLaid(r, log, AUDIT_WATCH, TrimSlashes(path));
      AddWatchLaid(r, log, AUDIT_DIR, TrimSlashes(path));
    }
  }

  lemma LaidShaped(r: Rule, log: Log)
    requires Laid(r, log)
    ensures Shaped(r)
  {
  }

  lemma LaidCount(r: Rule, log: Log)
    requires Laid(r, log)
    ensures |log| == r.fieldCount <= AUDIT_MAX_FIELDS - 1
  {
  }

  /** A permission update either touches live permission entries only or adds one live entry. */
  lemma UpdatePermsLaid(r: Rule, log: Log, perms: uint32)
    requires Laid(r, log)
    ensures var (r', err) := UpdatePerms(r, perms);
            err.None? ==> Laid(r', if AUDIT_PERM in r.fields then log else log + [None])
  {
    hide Packed;
    var (r', err) := UpdatePerms(r, perms);
    if err.None? {
      if AUDIT_PERM in r.fields {
        forall i | 0 <= i < r.fieldCount ensures LiveSlot(r'.fields[i], r'.values[i], log[i]) {
          assert LiveSlot(r.fields[i], r.values[i], log[i]);
        }
        forall i | r.fieldCount <= i < AUDIT_MAX_FIELDS ensures DeadSlot(r', i) { assert DeadSlot(r, i); }
      } else {
        assert r.buf + [] == r.buf;
        LaidExtended(r, log, r', AUDIT_PERM, AUDIT_EQUAL, perms, None);
      }
    }
  }

  /** Some live slot holds a permission field. */
  ghost predicate HasPerm(r: Rule)
    requires Shaped(r) && r.fieldCount <= AUDIT_MAX_FIELDS
  {
    exists i :: 0 <= i < r.fieldCount && r.fields[i] == AUDIT_PERM
  }

  lemma PermIsLive(r: Rule, log: Log)
    requires Laid(r, log)
    ensures Shaped(r) && r.fieldCount <= AUDIT_MAX_FIELDS && (AUDIT_PERM in r.fields <==> HasPerm(r))
  {
    hide Packed;
    forall i | r.fieldCount <= i < AUDIT_MAX_FIELDS ensures r.fields[i] != AUDIT_PERM { assert DeadSlot(r, i); }
  }

  /** A permission update sets every permission entry, or adds one; it fails only on an empty or a full record. */
  lemma UpdatePermsSets(r: Rule, log: Log, perms: uint32)
    requires Laid(r, log) && Shaped(r) && r.fieldCount <= AUDIT_MAX_FIELDS
    ensures var (r', err) := UpdatePerms(r, perms);
            && Shaped(r')
            && (err.None? <==> 1 <= r.fieldCount && (HasPerm(r) || r.fieldCount < 63))
            && (err.Some? ==> r' == r && err == Some(if r.fieldCount < 1 then EmptyRule else MaxFields))
            && (err.None? ==>
                  && r'.fieldCount == (if HasPerm(r) then r.fieldCount else r.fieldCount + 1)
                  && forall i :: 0 <= i < AUDIT_MAX_FIELDS ==>
                       var added := !HasPerm(r) && i == r.fieldCount;
                       && r'.fields[i] == (if added then AUDIT_PERM else r.fields[i])
                       && r'.values[i] == (if added || r.fields[i] == AUDIT_PERM then perms else r.values[i])
                       && r'.fieldflags[i] == (if added then AUDIT_EQUAL else r.fieldflags[i]))
  {
    hide Packed, Laid, HasPerm;
    PermIsLive(r, log);
    LaidCount(r, log);
  }

  /** The scan over all 64 slots reaches no slot behind the live ones. */
  lemma UpdatePermsTouchesLive(r: Rule, log: Log, perms: uint32, i: nat)
    requires Laid(r, log) && i < AUDIT_MAX_FIELDS
    ensures var (r', err) := UpdatePerms(r, perms);
            && Shaped(r')
            && (err.None? && r'.values[i] != r.values[i] ==> i < r'.fieldCount && r'.fields[i] == AUDIT_PERM)
            && r'.buf == r.buf && r'.buflen == r.buflen
  {
    if i >= r.fieldCount { assert DeadSlot(r, i); }
  }

  // ---------------------------------------------------------------------------
  // Whole runs of the builder
  // ---------------------------------------------------------------------------

  datatype Call =
    | Syscall(nr: nat)
    | Field(val: FieldValue, op: uint32, name: string, filter: uint32)
    | Watch(path: bytes, strict: bool)
    | Perms(perms: bytes)

  ghost predicate Callable(c: Call) {
    c.Watch? ==> c.path != []
  }

  ghost function Perform(r: Rule, flags: Flags, c: Call, host: Host): Built
    requires Shaped(r) && Callable(c)
  {
    match c
    case Syscall(nr) => var (r', err) := AddSyscall(r, nr); Built(r', flags, err)
    case Field(val, op, name, filter) => AddField(r, flags, val, op, name, filter, host)
    case Watch(path, strict) => var (r', err) := SetupWatch(r, path, strict, host); Built(r', flags, err)
    case Perms(perms) => var (r', err) := SetupPerms(r, perms); Built(r', flags, err)
  }

  /** The strings the caller has supplied so far. */
  ghost function Logged(r: Rule, log: Log, c: Call): Log {
    match c
    case Syscall(_) => log
    case Field(val, _, name, _) => log + [FieldEntry(val, name)]
    case Watch(path, _) => [Some(TrimSlashes(path)), None]
    case Perms(_) => if AUDIT_PERM in r.fields then log else log + [None]
  }

  /** A run of successful calls, from one record to another. */
  ghost predicate Runs(r: Rule, log: Log, flags: Flags, calls: seq<Call>, host: Host, r': Rule, log': Log)
    decreases |calls|
  {
    if calls == [] then r' == r && log' == log
    else
      && Shaped(r) && Callable(calls[0])
      && var b := Perform(r, flags, calls[0], host);
         && b.err.None?
         && Runs(b.rule, Logged(r, log, calls[0]), b.flags, calls[1..], host, r', log')
  }

  lemma PerformLaid(r: Rule, log: Log, flags: Flags, c: Call, host: Host)
    requires Laid(r, log) && Callable(c)
    ensures var b := Perform(r, flags, c, host);
            b.err.None? ==> Laid(b.rule, Logged(r, log, c))
  {
    hide Laid, AddSyscall, AddField, SetupWatch, UpdatePerms;
    LaidShaped(r, log);
    match c
    case Syscall(nr) => AddSyscallLaid(r, log, nr);
    case Field(val, op, name, filter) => AddFieldLaid(r, log, flags, val, op, name, filter, host);
    case Watch(path, strict) => SetupWatchLaid(r, log, path, strict, host);
    case Perms(perms) =>
      if |perms| <= 4 && PermBits(perms, 0).Some? { UpdatePermsLaid(r, log, PermBits(perms, 0).value); }
  }

  /** Every successful sequence of builder calls leaves a well laid out record. */
  lemma {:induction false} RunLaid(r: Rule, log: Log, flags: Flags, calls: seq<Call>, host: Host, r': Rule, log': Log)
    requires Laid(r, log) && Runs(r, log, flags, calls, host, r', log')
    ensures Laid(r', log')
    decreases |calls|
  {
    hide Laid, Perform, Logged;
    if calls != [] {
      LaidShaped(r, log);
      PerformLaid(r, log, flags, calls[0], host);
      var b := Perform(r, flags, calls[0], host);
      RunLaid(b.rule, Logged(r, log, calls[0]), b.flags, calls[1..], host, r', log');
    }
  }

  /**
   Which failing field calls keep the layout: exactly those refused before the
   slot is marked, for want of room, an unknown name, or the exclude filter.
   */
  lemma FailedCallLaid(r: Rule, log: Log, flags: Flags, val: FieldValue, op: uint32, name: string, filter: uint32,
                       host: Host)
    requires Laid(r, log) && AddField(r, flags, val, op, name, filter, host).err.Some?
    ensures Laid(AddField(r, flags, val, op, name, filter, host).rule, log) <==>
            || r.fieldCount >= AUDIT_MAX_FIELDS - 1 || FieldId(name) == 0
            || (filter == AUDIT_FILTER_EXCLUDE && FieldId(name) != AUDIT_MSGTYPE)
  {
    hide Packed, FieldId, SlotFor, FlagsAfter;
    var failed := AddField(r, flags, val, op, name, filter, host).rule;
    if r.fieldCount < AUDIT_MAX_FIELDS - 1 && FieldId(name) != 0 &&
       !(filter == AUDIT_FILTER_EXCLUDE && FieldId(name) != AUDIT_MSGTYPE)
    {
      assert failed.fields[r.fieldCount] == FieldId(name);
      assert !DeadSlot(failed, r.fieldCount);
    }
  }

  /**
   The discipline needs the calls to succeed. After any failing permission call
   the slot behind the live ones is marked, and a later permission update is
   satisfied with that slot: it reports success and adds no live entry.
   */
  lemma FailedCallSpoilsSlots(r: Rule, log: Log, flags: Flags, val: FieldValue, op: uint32, filter: uint32,
                              host: Host, perms: uint32)
    requires Laid(r, log) && 1 <= r.fieldCount < AUDIT_MAX_FIELDS - 1 && AUDIT_PERM !in r.fields
    requires filter != AUDIT_FILTER_EXCLUDE && AddField(r, flags, val, op, "perm", filter, host).err.Some?
    ensures var failed := AddField(r, flags, val, op, "perm", filter, host).rule;
            && Shaped(failed) && !DeadSlot(failed, r.fieldCount)
            && var (r', err) := UpdatePerms(failed, perms);
               && err.None? && r'.fieldCount == r.fieldCount
               && forall i :: 0 <= i < r.fieldCount ==> r'.fields[i] != AUDIT_PERM
  {
    hide Packed, SlotFor, FlagsAfter;
    var failed := AddField(r, flags, val, op, "perm", filter, host).rule;
    assert FieldId("perm") == AUDIT_PERM by { assert "perm" != "uid"; }
    assert failed.fields[r.fieldCount] == AUDIT_PERM;
    forall i | 0 <= i < r.fieldCount ensures failed.fields[i] != AUDIT_PERM { assert failed.fields[i] == r.fields[i]; }
  }

  // ---------------------------------------------------------------------------
  // The syscall mask is a set
  // ---------------------------------------------------------------------------

  ghost predicate InMask(mask: seq<uint32>, nr: nat)
    requires |mask| == AUDIT_BITMASK_SIZE
  {
    nr < 2048 && Bit(mask[nr / 32], nr % 32)
  }

  lemma BlankMask(k: nat)
    ensures !InMask(Blank().mask, k)
  {
    BitZero(k % 32);
  }

  /** Adding a syscall adds exactly that number; it fails exactly from 2016 on. */
  lemma AddSyscallSet(r: Rule, nr: nat, k: nat)
    requires Shaped(r)
    ensures AddSyscall(r, nr).1.None? <==> nr < 2016
    ensures Shaped(AddSyscall(r, nr).0)
    ensures nr < 2016 ==> (InMask(AddSyscall(r, nr).0.mask, k) <==> InMask(r.mask, k) || k == nr)
  {
    if nr < 2016 {
      OrBit(r.mask[AuditWord(nr)], AuditBit(nr), k % 32);
      ShiftBit(nr % 32, k % 32);
    }
  }

  function AddSyscalls(r: Rule, nrs: seq<nat>): (Rule, Option<BuildError>)
    requires Shaped(r)
    decreases |nrs|
  {
    if nrs == [] then (r, None)
    else
      AddSyscallSet(r, nrs[0], 0);
      var (r', err) := AddSyscall(r, nrs[0]);
      if err.Some? then (r', err) else AddSyscalls(r', nrs[1..])
  }

  /** Any list of numbers below 2016, in any order and with repeats, gives the mask of that set. */
  lemma {:induction false} AddSyscallsSet(r: Rule, nrs: seq<nat>, k: nat)
    requires Shaped(r) && forall i :: 0 <= i < |nrs| ==> nrs[i] < 2016
    ensures var (r', err) := AddSyscalls(r, nrs);
            Shaped(r') && err.None? && (InMask(r'.mask, k) <==> InMask(r.mask, k) || k in nrs)
    decreases |nrs|
  {
    hide AddSyscall, InMask;
    if nrs != [] {
      AddSyscallSet(r, nrs[0], k);
      assert nrs == [nrs[0]] + nrs[1..];
      AddSyscallsSet(AddSyscall(r, nrs[0]).0, nrs[1..], k);
    }
  }
}
