/**
 Audit rules and the calls that build them: the fixed-layout record of the
 kernel interface, filled in by one call per syscall and one call per field.
 The functions of this module say what each call does to the value of the
 record and to the two process-wide flags, also when the call fails half way.
 */
module Rules {
  import opened Words
  import opened Bits

  const AUDIT_MAX_FIELDS := 64
  const AUDIT_BITMASK_SIZE := 64
  const PATH_MAX := 4096
  const NAME_MAX := 255
  const AUDIT_MAX_KEY_LEN := 256

  // Filters
  const AUDIT_FILTER_USER: uint32 := 0
  const AUDIT_FILTER_TASK: uint32 := 1
  const AUDIT_FILTER_ENTRY: uint32 := 2
  const AUDIT_FILTER_EXIT: uint32 := 4
  const AUDIT_FILTER_EXCLUDE: uint32 := 5
  const AUDIT_FILTER_MASK: uint32 := 7
  const AUDIT_FILTER_PREPEND: uint32 := 0x10
  const AUDIT_FILTER_UNSET: uint32 := 0x80

  // Actions
  const AUDIT_NEVER := 0
  const AUDIT_POSSIBLE := 1
  const AUDIT_ALWAYS := 2

  // Fields
  const AUDIT_ARCH: uint32 := 11
  const AUDIT_MSGTYPE: uint32 := 12
  const AUDIT_SUBJ_USER: uint32 := 13
  const AUDIT_PPID: uint32 := 18
  const AUDIT_OBJ_LEV_HIGH: uint32 := 23
  const AUDIT_INODE: uint32 := 102
  const AUDIT_EXIT: uint32 := 103
  const AUDIT_WATCH: uint32 := 105
  const AUDIT_PERM: uint32 := 106
  const AUDIT_DIR: uint32 := 107
  const AUDIT_FILETYPE: uint32 := 108
  const AUDIT_FIELD_COMPARE: uint32 := 111
  const AUDIT_EXE: uint32 := 112
  const AUDIT_ARG0: uint32 := 200
  const AUDIT_ARG3: uint32 := 203
  const AUDIT_FILTERKEY: uint32 := 210

  // Permissions
  const AUDIT_PERM_EXEC := 1
  const AUDIT_PERM_WRITE := 2
  const AUDIT_PERM_READ := 4
  const AUDIT_PERM_ATTR := 8

  // Operators
  const AUDIT_NOT_EQUAL: uint32 := 0x3000_0000
  const AUDIT_EQUAL: uint32 := 0x4000_0000
  const AUDIT_OPERATORS: uint32 := 0x7800_0000
  const NOT_OPERATORS: uint32 := 0x87FF_FFFF

  const AUDIT_ARCH_X86_64: uint32 := 0xC000_003E
  const ALL_ONES: uint32 := 0xFFFF_FFFF

  /** The value of an AuditRuleData record. */
  datatype Rule = Rule(
    flags: uint32, action: uint32, fieldCount: uint32,
    mask: seq<uint32>, fields: seq<uint32>, values: seq<uint32>, fieldflags: seq<uint32>,
    buflen: uint32, buf: bytes)

  /** All four arrays have 64 entries; every record of the program is like this. */
  ghost predicate Shaped(r: Rule) {
    && |r.mask| == AUDIT_BITMASK_SIZE
    && |r.fields| == |r.values| == |r.fieldflags| == AUDIT_MAX_FIELDS
  }

  function Blank(): (r: Rule)
    ensures Shaped(r)
  {
    var zeros := seq(64, _ => 0);
    Rule(0, 0, 0, zeros, zeros, zeros, zeros, 0, [])
  }

  /** The process-wide flags auditPermAdded and auditSyscallAdded. */
  datatype Flags = Flags(perm: bool, syscall: bool)

  /** A field value of the configuration: a number, a string, or any other JSON value. */
  datatype FieldValue = Number(n: uint32) | Text(s: bytes) | Other

  datatype Stat = Missing | Directory | File | StatError

  /** What the library asks its surroundings: user names, the file system, and lookup tables. */
  datatype Host = Host(
    userId: bytes -> Option<uint32>,
    msgType: bytes -> Option<uint32>,
    fileType: bytes -> Option<uint32>,
    syscallNumber: bytes -> Option<nat>,
    base: bytes -> bytes,
    stat: bytes -> Stat)

  datatype BuildError =
    | MaxFields | UnknownField | ExcludeNeedsMsgtype | WrongFilter | WrongOperator | UnknownUser
    | NoStrings | Unset | NotAString | NoPriorSyscall | TooLong | BadPermission | UnknownFileType
    | SyscallOutOfRange | RuleNotEmpty | EmptyRule
    | PathTooBig | PathStart | BaseTooBig | RelativePath | Wildcard | NoSuchFile | StatFailed

  /** Outcome of a builder call: the record and the flags afterwards, and the error if there was one. */
  datatype Built = Built(rule: Rule, flags: Flags, err: Option<BuildError>)

  // ---------------------------------------------------------------------------
  // Syscalls
  // ---------------------------------------------------------------------------

  function AuditWord(nr: nat): nat {
    nr / 32
  }

  function AuditBit(nr: nat): (b: uint32) {
    BitWord(nr - AuditWord(nr) * 32)
  }

  function BitWord(k: nat): (b: uint32)
    requires k < 32
  {
    ShiftMono(k, 32);
    ShiftWidth();
    Shift(k)
  }

  function OrWord(a: uint32, b: uint32): (c: uint32) {
    ShiftWidth();
    OrBound(a, b, 32);
    Or(a, b)
  }

  function AddSyscall(r: Rule, nr: nat): (res: (Rule, Option<BuildError>))
    requires Shaped(r)
    ensures Shaped(res.0)
  {
    var word := AuditWord(nr);
    if word >= AUDIT_BITMASK_SIZE - 1 then (r, Some(SyscallOutOfRange))
    else (r.(mask := r.mask[word := OrWord(r.mask[word], AuditBit(nr))]), None)
  }

  // ---------------------------------------------------------------------------
  // Fields
  // ---------------------------------------------------------------------------

  /** Numbers of the process fields. */
  function ProcessId(name: string): (id: uint32)
    ensures id <= 12
  {
    if name == "uid" then 1 else if name == "euid" then 2 else if name == "suid" then 3
    else if name == "fsuid" then 4 else if name == "gid" then 5 else if name == "egid" then 6
    else if name == "sgid" then 7 else if name == "fsgid" then 8
    else if name == "auid" || name == "loginuid" then 9
    else if name == "pers" then 10 else if name == "arch" then 11 else if name == "msgtype" then 12
    else 0
  }

  /** Numbers of the security labels, and of the parent process between them. */
  function LabelId(name: string): (id: uint32)
    ensures id == 0 || 13 <= id <= 23
  {
    if name == "subj_user" then 13 else if name == "subj_role" then 14 else if name == "subj_type" then 15
    else if name == "subj_sen" then 16 else if name == "subj_clr" then 17 else if name == "ppid" then 18
    else if name == "obj_user" then 19 else if name == "obj_role" then 20 else if name == "obj_type" then 21
    else if name == "obj_lev_low" then 22 else if name == "obj_lev_high" then 23
    else 0
  }

  /** Numbers of the fields of the event, the arguments and the key. */
  function EventId(name: string): (id: uint32)
    ensures id == 0 || 100 <= id <= 111 || 200 <= id <= 203 || id == 210
  {
    if name == "devmajor" then 100 else if name == "devminor" then 101 else if name == "inode" then 102
    else if name == "exit" then 103 else if name == "success" then 104 else if name == "path" then 105
    else if name == "perm" then 106 else if name == "dir" then 107 else if name == "filetype" then 108
    else if name == "obj_uid" then 109 else if name == "obj_gid" then 110 else if name == "field_compare" then 111
    else if name == "a0" then 200 else if name == "a1" then 201 else if name == "a2" then 202
    else if name == "a3" then 203 else if name == "key" then 210
    else 0
  }

  /** The field number of a name; 0 for an unknown name and for "pid". */
  function FieldId(name: string): (id: uint32)
    ensures id <= 23 || 100 <= id <= 111 || 200 <= id <= 203 || id == 210
  {
    if ProcessId(name) != 0 then ProcessId(name)
    else if LabelId(name) != 0 then LabelId(name)
    else EventId(name)
  }

  /** What a field call does to the current slot: store a number, pack a string, leave it, or fail. */
  datatype Slot = Store(v: uint32) | Pack(s: bytes) | Leave | Fail(err: BuildError)

  /** Security labels, subject and object. */
  predicate IsLabel(id: uint32) {
    AUDIT_SUBJ_USER <= id <= AUDIT_OBJ_LEV_HIGH && id != AUDIT_PPID
  }

  /** Fields whose value is packed into the string buffer by the builder. */
  predicate IsPacked(id: uint32) {
    IsLabel(id) || id == AUDIT_WATCH || id == AUDIT_DIR || id == AUDIT_FILTERKEY
  }

  predicate IsObjectLabel(id: uint32) {
    19 <= id <= 23
  }

  /** "unset" */
  const UNSET_TEXT: bytes := [117, 110, 115, 101, 116]

  function NumberOr(val: FieldValue, onText: BuildError): Slot {
    match val
    case Number(n) => Store(n)
    case Text(_) => Fail(onText)
    case Other => Fail(Unset)
  }

  function Looked(found: Option<uint32>, err: BuildError): Slot {
    if found.Some? then Store(found.value) else Fail(err)
  }

  function Lower(c: byte): byte {
    if 65 <= c <= 90 then c + 32 else c
  }

  /** The bit of a permission letter, in either case. */
  function PermBit(c: byte): Option<uint32> {
    var l := Lower(c);
    if l == 114 then Some(AUDIT_PERM_READ)
    else if l == 119 then Some(AUDIT_PERM_WRITE)
    else if l == 120 then Some(AUDIT_PERM_EXEC)
    else if l == 97 then Some(AUDIT_PERM_ATTR)
    else None
  }

  /** The union of the bits of a permission string, or `None` at the first other letter. */
  function PermBits(s: bytes, acc: uint32): Option<uint32> {
    if s == [] then Some(acc)
    else if PermBit(s[0]).None? then None
    else PermBits(s[1..], OrWord(acc, PermBit(s[0]).value))
  }

  function PackedSlot(id: uint32, val: FieldValue, flags: Flags): Slot {
    if id == AUDIT_FILTERKEY && !(flags.syscall || flags.perm) then Fail(NoPriorSyscall)
    else if !val.Text? then Fail(NotAString)
    else if id == AUDIT_FILTERKEY && |val.s| > AUDIT_MAX_KEY_LEN then Fail(TooLong)
    else if |val.s| > PATH_MAX then Fail(TooLong)
    else Pack(val.s)
  }

  function PermSlot(val: FieldValue, op: uint32, filter: uint32): Slot {
    if filter != AUDIT_FILTER_EXIT then Fail(WrongFilter)
    else if op != AUDIT_EQUAL then Fail(WrongOperator)
    else if !val.Text? then Leave
    else if |val.s| > 4 then Fail(TooLong)
    else if PermBits(val.s, 0).None? then Fail(BadPermission)
    else Store(PermBits(val.s, 0).value)
  }

  /** The value of the slot, for field `id` with operator `op` under `filter`. */
  function SlotFor(id: uint32, val: FieldValue, op: uint32, filter: uint32, flags: Flags, host: Host): (s: Slot)
    ensures s.Pack? ==> IsPacked(id) && val == Text(s.s) && |s.s| <= PATH_MAX
    ensures IsPacked(id) ==> s.Pack? || s.Fail?
  {
    if id in {1, 2, 3, 4, 9, 109, 110} then
      match val
      case Number(n) => Store(n)
      case Text(t) => if t == UNSET_TEXT then Store(ALL_ONES) else Looked(host.userId(t), UnknownUser)
      case Other => Fail(Unset)
    else if id in {5, 6, 7, 8} then NumberOr(val, NoStrings)
    else if id == AUDIT_EXIT then
      if filter != AUDIT_FILTER_EXIT then Fail(WrongFilter) else NumberOr(val, NoStrings)
    else if id == AUDIT_MSGTYPE then
      if filter != AUDIT_FILTER_EXCLUDE && filter != AUDIT_FILTER_USER then Fail(WrongFilter)
      else
        match val
        case Number(n) => Store(n)
        case Text(t) => Looked(host.msgType(t), NoStrings)
        case Other => Fail(Unset)
    else if IsPacked(id) then
      if (IsObjectLabel(id) || id == AUDIT_WATCH || id == AUDIT_DIR) && filter != AUDIT_FILTER_EXIT
      then Fail(WrongFilter)
      else PackedSlot(id, val, flags)
    else if id == AUDIT_ARCH then
      if !flags.syscall then Fail(NoPriorSyscall)
      else if op != AUDIT_NOT_EQUAL && op != AUDIT_EQUAL then Fail(WrongOperator)
      else
        match val
        case Number(_) => Store(AUDIT_ARCH_X86_64)
        case Text(_) => Fail(NoStrings)
        case Other => Fail(Unset)
    else if id == AUDIT_PERM then PermSlot(val, op, filter)
    else if id == AUDIT_FILETYPE then
      if !val.Text? then Fail(NotAString)
      else if filter == AUDIT_FILTER_ENTRY then Fail(WrongFilter)
      else Looked(host.fileType(val.s), UnknownFileType)
    else if AUDIT_ARG0 <= id <= AUDIT_ARG3 then NumberOr(val, NoStrings)
    else if id in {100, 102, 104} && filter != AUDIT_FILTER_EXIT then Fail(WrongFilter)
    else if id == AUDIT_INODE && op != AUDIT_NOT_EQUAL && op != AUDIT_EQUAL then Fail(WrongOperator)
    else if id == AUDIT_PPID && filter != AUDIT_FILTER_EXIT && filter != AUDIT_FILTER_ENTRY then Fail(WrongFilter)
    else NumberOr(val, Unset)
  }

  /** auditPermAdded is raised by a path or dir field under the exit filter and by a well-formed perm string. */
  function FlagsAfter(id: uint32, val: FieldValue, op: uint32, filter: uint32, flags: Flags): (f: Flags)
    ensures f.syscall == flags.syscall
  {
    if (id == AUDIT_WATCH || id == AUDIT_DIR) && filter == AUDIT_FILTER_EXIT then flags.(perm := true)
    else if id == AUDIT_PERM && val.Text? && PermSlot(val, op, filter).Store? then flags.(perm := true)
    else flags
  }

  /** Completes the current slot and moves on to the next one. */
  function Filled(r: Rule, slot: Slot): (res: (Rule, Option<BuildError>))
    requires Shaped(r) && r.fieldCount < AUDIT_MAX_FIELDS && (slot.Pack? ==> |slot.s| <= PATH_MAX)
    ensures Shaped(res.0)
  {
    match slot
    case Fail(e) => (r, Some(e))
    case Leave => (r.(fieldCount := r.fieldCount + 1), None)
    case Store(v) => (r.(values := r.values[r.fieldCount := v], fieldCount := r.fieldCount + 1), None)
    case Pack(s) =>
      (r.(values := r.values[r.fieldCount := |s|], fieldCount := r.fieldCount + 1,
          buflen := (r.buflen + |s|) % 0x1_0000_0000, buf := r.buf + s), None)
  }

  /** auditRuleFieldPairData: a failing call may already have written the field id and operator. */
  function AddField(r: Rule, flags: Flags, val: FieldValue, op: uint32, name: string, filter: uint32,
                    host: Host): (b: Built)
    requires Shaped(r)
    ensures Shaped(b.rule)
  {
    var id := FieldId(name);
    if r.fieldCount >= AUDIT_MAX_FIELDS - 1 then Built(r, flags, Some(MaxFields))
    else if id == 0 then Built(r, flags, Some(UnknownField))
    else if filter == AUDIT_FILTER_EXCLUDE && id != AUDIT_MSGTYPE then Built(r, flags, Some(ExcludeNeedsMsgtype))
    else
      var marked := r.(fields := r.fields[r.fieldCount := id], fieldflags := r.fieldflags[r.fieldCount := op]);
      var (r', err) := Filled(marked, SlotFor(id, val, op, filter, flags, host));
      Built(r', FlagsAfter(id, val, op, filter, flags), err)
  }

  // ---------------------------------------------------------------------------
  // Watches
  // ---------------------------------------------------------------------------

  const SLASH: byte := 47

  /** `sub` occurs in `s`. */
  predicate Contains(s: bytes, sub: bytes)
    ensures Contains(s, sub) <==> exists i :: 0 <= i <= |s| && sub <= s[i..]
  {
    if sub <= s then assert s[0..] == s; true
    else if s == [] then false
    else
      assert forall i :: 1 <= i <= |s| ==> s[i..] == s[1..][i - 1..];
      assert forall i :: 0 <= i <= |s[1..]| ==> s[1..][i..] == s[i + 1..];
      Contains(s[1..], sub)
  }

  function CheckPath(path: bytes, host: Host): Option<BuildError>
    requires path != []
  {
    var base := host.base(path);
    if |path| >= PATH_MAX then Some(PathTooBig)
    else if path[0] != SLASH then Some(PathStart)
    else if |base| > NAME_MAX then Some(BaseTooBig)
    else if Contains(base, [46, 46]) then Some(RelativePath)
    else if Contains(base, [42]) || Contains(base, [63]) then Some(Wildcard)
    else None
  }

  /** Drops trailing slashes. */
  function TrimSlashes(path: bytes): (p: bytes)
    ensures p <= path
    ensures p != [] ==> p[|p| - 1] != SLASH
    ensures forall i :: |p| <= i < |path| ==> path[i] == SLASH
  {
    if path != [] && path[|path| - 1] == SLASH then TrimSlashes(path[..|path| - 1]) else path
  }

  function AllSyscalls(mask: seq<uint32>): (m: seq<uint32>)
    requires |mask| == AUDIT_BITMASK_SIZE
    ensures |m| == |mask|
    ensures forall i :: 0 <= i < AUDIT_BITMASK_SIZE - 1 ==> m[i] == ALL_ONES
    ensures m[AUDIT_BITMASK_SIZE - 1] == mask[AUDIT_BITMASK_SIZE - 1]
  {
    seq(AUDIT_BITMASK_SIZE - 1, _ => ALL_ONES) + [mask[AUDIT_BITMASK_SIZE - 1]]
  }

  const PERM_ALL: uint32 := 15

  /** auditAddWatchDir */
  function AddWatch(r: Rule, typ: uint32, path: bytes): (res: (Rule, Option<BuildError>))
    requires Shaped(r) && typ in {AUDIT_WATCH, AUDIT_DIR}
    ensures Shaped(res.0)
  {
    if r.fieldCount != 0 then (r, Some(RuleNotEmpty))
    else
      (Rule(AUDIT_FILTER_EXIT, AUDIT_ALWAYS, 2, AllSyscalls(r.mask),
            r.fields[0 := typ][1 := AUDIT_PERM],
            r.values[0 := |path| % 0x1_0000_0000][1 := PERM_ALL],
            r.fieldflags[0 := AUDIT_EQUAL][1 := AUDIT_EQUAL],
            |path| % 0x1_0000_0000, r.buf + path), None)
  }

  /** auditSetupAndAddWatchDir */
  function SetupWatch(r: Rule, path: bytes, strict: bool, host: Host): (res: (Rule, Option<BuildError>))
    requires Shaped(r) && path != []
    ensures Shaped(res.0)
  {
    if CheckPath(path, host).Some? then (r, CheckPath(path, host))
    else
      var trimmed := TrimSlashes(path);
      match host.stat(trimmed)
      case StatError => (r, Some(StatFailed))
      case Missing => if strict then (r, Some(NoSuchFile)) else AddWatch(r, AUDIT_WATCH, trimmed)
      case Directory => AddWatch(r, AUDIT_DIR, trimmed)
      case File => AddWatch(r, AUDIT_WATCH, trimmed)
  }

  /** Overwrites the value of every slot, live or not, that holds a permission field. */
  function SetPerms(fields: seq<uint32>, values: seq<uint32>, perms: uint32): (vs: seq<uint32>)
    requires |fields| == |values|
    ensures |vs| == |values|
    ensures forall i :: 0 <= i < |vs| ==> vs[i] == if fields[i] == AUDIT_PERM then perms else values[i]
  {
    seq(|values|, i requires 0 <= i < |values| => if fields[i] == AUDIT_PERM then perms else values[i])
  }

  /** auditUpdateWatchPerms */
  function UpdatePerms(r: Rule, perms: uint32): (res: (Rule, Option<BuildError>))
    requires Shaped(r)
    ensures Shaped(res.0)
  {
    if r.fieldCount < 1 then (r, Some(EmptyRule))
    else if AUDIT_PERM in r.fields then (r.(values := SetPerms(r.fields, r.values, perms)), None)
    else if r.fieldCount >= AUDIT_MAX_FIELDS - 1 then (r, Some(MaxFields))
    else
      (r.(fields := r.fields[r.fieldCount := AUDIT_PERM], values := r.values[r.fieldCount := perms],
          fieldflags := r.fieldflags[r.fieldCount := AUDIT_EQUAL], fieldCount := r.fieldCount + 1), None)
  }

  /** auditSetupAndUpdatePerms */
  function SetupPerms(r: Rule, perms: bytes): (res: (Rule, Option<BuildError>))
    requires Shaped(r)
    ensures Shaped(res.0)
  {
    if |perms| > 4 then (r, Some(TooLong))
    else if PermBits(perms, 0).None? then (r, Some(BadPermission))
    else UpdatePerms(r, PermBits(perms, 0).value)
  }
}
