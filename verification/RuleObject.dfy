/**
 The AuditRuleData record itself, updated in place through its four arrays and
 its growing string buffer, and the two process-wide flags its field call sets.
 */
module RuleObject {
  import opened Words
  import opened Bits
  import opened Rules

  /** The package variables auditPermAdded and auditSyscallAdded. */
  class Process {
    var auditPermAdded: bool
    var auditSyscallAdded: bool

    ghost function View(): Flags
      reads this
    {
      Flags(auditPermAdded, auditSyscallAdded)
    }

    constructor ()
      ensures View() == Flags(false, false)
    {
      auditPermAdded, auditSyscallAdded := false, false;
    }
  }

  /** The loop over the letters of a permission string, as both callers write it. */
  method PermissionBits(perms: bytes) returns (bits: Option<uint32>)
    ensures bits == PermBits(perms, 0)
  {
    var permValue: uint32 := 0;
    for i := 0 to |perms|
      invariant PermBits(perms, 0) == PermBits(perms[i..], permValue)
    {
      assert perms[i..][1..] == perms[i + 1..];
      var c := Lower(perms[i]);
      if c == 114 {
        permValue := OrWord(permValue, AUDIT_PERM_READ);
      } else if c == 119 {
        permValue := OrWord(permValue, AUDIT_PERM_WRITE);
      } else if c == 120 {
        permValue := OrWord(permValue, AUDIT_PERM_EXEC);
      } else if c == 97 {
        permValue := OrWord(permValue, AUDIT_PERM_ATTR);
      } else {
        return None;
      }
    }
    return Some(permValue);
  }

  class AuditRuleData {
    var flags: uint32
    var action: uint32
    var fieldCount: uint32
    const mask: array<uint32>
    const fields: array<uint32>
    const values: array<uint32>
    const fieldflags: array<uint32>
    var buflen: uint32
    var buf: bytes

    ghost predicate Valid() {
      && mask.Length == AUDIT_BITMASK_SIZE
      && fields.Length == values.Length == fieldflags.Length == AUDIT_MAX_FIELDS
      && mask != fields && mask != values && mask != fieldflags
      && fields != values && fields != fieldflags && values != fieldflags
    }

    ghost function View(): Rule
      reads this, mask, fields, values, fieldflags
    {
      Rule(flags, action, fieldCount, mask[..], fields[..], values[..], fieldflags[..], buflen, buf)
    }

    constructor ()
      ensures Valid() && View() == Blank()
      ensures fresh(mask) && fresh(fields) && fresh(values) && fresh(fieldflags)
    {
      flags, action, fieldCount, buflen, buf := 0, 0, 0, 0, [];
      mask := new uint32[64](_ => 0);
      fields := new uint32[64](_ => 0);
      values := new uint32[64](_ => 0);
      fieldflags := new uint32[64](_ => 0);
      new;
      var zeros: seq<uint32> := seq(64, _ => 0);
      assert mask[..] == zeros && fields[..] == zeros && values[..] == zeros && fieldflags[..] == zeros;
    }

    /** auditRuleSyscallData */
    method SyscallData(scall: nat) returns (err: Option<BuildError>)
      requires Valid()
      modifies mask
      ensures (View(), err) == AddSyscall(old(View()), scall)
    {
      hide OrWord, AuditBit;
      var word := AuditWord(scall);
      var bit := AuditBit(scall);
      if word >= AUDIT_BITMASK_SIZE - 1 { return Some(SyscallOutOfRange); }
      mask[word] := OrWord(mask[word], bit);
      return None;
    }

    /** Writes the field id and operator of the current slot. */
    method Mark(id: uint32, op: uint32)
      requires Valid() && fieldCount < AUDIT_MAX_FIELDS
      modifies fields, fieldflags
      ensures View() == old(View()).(fields := old(fields[..])[fieldCount := id],
                                     fieldflags := old(fieldflags[..])[fieldCount := op])
    {
      fields[fieldCount] := id;
      fieldflags[fieldCount] := op;
    }

    /** Writes the value of the current slot. */
    method Assign(v: uint32)
      requires Valid() && fieldCount < AUDIT_MAX_FIELDS
      modifies values
      ensures View() == old(View()).(values := old(values[..])[fieldCount := v])
    {
      values[fieldCount] := v;
    }

    /** Completes the current slot and moves on to the next one. */
    method Fill(slot: Slot) returns (err: Option<BuildError>)
      requires Valid() && fieldCount < AUDIT_MAX_FIELDS && (slot.Pack? ==> |slot.s| <= PATH_MAX)
      modifies this, values
      ensures (View(), err) == Filled(old(View()), slot)
    {
      match slot {
        case Fail(e) => return Some(e);
        case Leave =>
        case Store(v) =>
          Assign(v);
        case Pack(s) =>
          Assign(|s|);
          buflen := (buflen + |s|) % 0x1_0000_0000;
          buf := buf + s;
      }
      fieldCount := fieldCount + 1;
      return None;
    }

    /** auditRuleFieldPairData */
    method FieldPairData(p: Process, val: FieldValue, op: uint32, name: string, filter: uint32, host: Host)
        returns (err: Option<BuildError>)
      requires Valid()
      modifies this, p, fields, values, fieldflags
      ensures Built(View(), p.View(), err) == AddField(old(View()), old(p.View()), val, op, name, filter, host)
    {
      hide FieldId, SlotFor, FlagsAfter, Filled;
      if fieldCount >= AUDIT_MAX_FIELDS - 1 { return Some(MaxFields); }
      var id := FieldId(name);
      if id == 0 { return Some(UnknownField); }
      if filter == AUDIT_FILTER_EXCLUDE && id != AUDIT_MSGTYPE { return Some(ExcludeNeedsMsgtype); }
      var slot := SlotFor(id, val, op, filter, Flags(p.auditPermAdded, p.auditSyscallAdded), host);
      Mark(id, op);
      p.auditPermAdded := FlagsAfter(id, val, op, filter, Flags(p.auditPermAdded, p.auditSyscallAdded)).perm;
      err := Fill(slot);
    }

    /** Marks every syscall the builder can mark: all words but the last. */
    method SelectAll()
      requires Valid()
      modifies mask
      ensures mask[..] == AllSyscalls(old(mask[..]))
    {
      for i := 0 to AUDIT_BITMASK_SIZE - 1
        invariant forall j :: 0 <= j < i ==> mask[j] == ALL_ONES
        invariant mask[AUDIT_BITMASK_SIZE - 1] == old(mask[AUDIT_BITMASK_SIZE - 1])
      {
        mask[i] := ALL_ONES;
      }
    }

    /** auditAddWatchDir */
    method AddWatchDir(typ: uint32, path: bytes) returns (err: Option<BuildError>)
      requires Valid() && typ in {AUDIT_WATCH, AUDIT_DIR}
      modifies this, mask, fields, values, fieldflags
      ensures (View(), err) == AddWatch(old(View()), typ, path)
    {
      if fieldCount != 0 { return Some(RuleNotEmpty); }
      flags, action := AUDIT_FILTER_EXIT, AUDIT_ALWAYS;
      SelectAll();
      fieldCount := 2;
      fields[0] := typ;
      fieldflags[0] := AUDIT_EQUAL;
      values[0] := |path| % 0x1_0000_0000;
      buflen := |path| % 0x1_0000_0000;
      buf := buf + path;
      fields[1] := AUDIT_PERM;
      fieldflags[1] := AUDIT_EQUAL;
      values[1] := PERM_ALL;
      assert fields[..] == old(fields[..])[0 := typ][1 := AUDIT_PERM];
      assert values[..] == old(values[..])[0 := |path| % 0x1_0000_0000][1 := PERM_ALL];
      assert fieldflags[..] == old(fieldflags[..])[0 := AUDIT_EQUAL][1 := AUDIT_EQUAL];
      return None;
    }

    /** auditSetupAndAddWatchDir */
    method SetupAndAddWatchDir(path: bytes, strict: bool, host: Host) returns (err: Option<BuildError>)
      requires Valid() && path != []
      modifies this, mask, fields, values, fieldflags
      ensures (View(), err) == SetupWatch(old(View()), path, strict, host)
    {
      hide Contains, AddWatch;
      var typ := AUDIT_WATCH;
      var bad := CheckPath(path, host);
      if bad.Some? { return bad; }
      var trimmed := TrimSlashes(path);
      match host.stat(trimmed) {
        case StatError => return Some(StatFailed);
        case Missing => if strict { return Some(NoSuchFile); }
        case Directory => typ := AUDIT_DIR;
        case File =>
      }
      err := AddWatchDir(typ, trimmed);
    }

    /** auditUpdateWatchPerms: the scan looks at all 64 slots, not just the live ones. */
    method UpdateWatchPerms(perms: uint32) returns (err: Option<BuildError>)
      requires Valid()
      modifies this, fields, values, fieldflags
      ensures (View(), err) == UpdatePerms(old(View()), perms)
    {
      if fieldCount < 1 { return Some(EmptyRule); }
      var done := false;
      for i := 0 to AUDIT_MAX_FIELDS
        invariant done <==> AUDIT_PERM in fields[..i]
        invariant forall j :: 0 <= j < AUDIT_MAX_FIELDS ==>
          values[j] == if j < i && fields[j] == AUDIT_PERM then perms else old(values[j])
        modifies values
      {
        if fields[i] == AUDIT_PERM {
          values[i] := perms;
          done := true;
        }
      }
      assert fields[..AUDIT_MAX_FIELDS] == fields[..];
      if done {
        assert values[..] == SetPerms(old(fields[..]), old(values[..]), perms);
        assert View() == old(View()).(values := SetPerms(old(fields[..]), old(values[..]), perms));
      } else {
        assert values[..] == old(values[..]);
        assert View() == old(View());
        if fieldCount >= AUDIT_MAX_FIELDS - 1 { return Some(MaxFields); }
        Mark(AUDIT_PERM, AUDIT_EQUAL);
        Assign(perms);
        fieldCount := fieldCount + 1;
      }
      return None;
    }

    /** auditSetupAndUpdatePerms */
    method SetupAndUpdatePerms(perms: bytes) returns (err: Option<BuildError>)
      requires Valid()
      modifies this, fields, values, fieldflags
      ensures (View(), err) == SetupPerms(old(View()), perms)
    {
      hide UpdatePerms, PermBits;
      if |perms| > 4 { return Some(TooLong); }
      var bits := PermissionBits(perms);
      if bits.None? { return Some(BadPermission); }
      err := UpdateWatchPerms(bits.value);
    }
  }
}
