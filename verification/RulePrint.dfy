/**
 Reading rules back: the watch test, the search by key, and the printer that
 renders a rule as auditctl would. Each walks the slots with a buffer offset of
 its own. A slice or index out of range is a panic, modelled as `None`.
 */
module RulePrint {
  import opened Words
  import opened Bits
  import opened Rules
  import opened RuleLayout

  // ---------------------------------------------------------------------------
  // The watch test
  // ---------------------------------------------------------------------------

  /** The rule's filter takes no syscalls. */
  predicate NoSyscallFilter(flags: uint32) {
    var filter := And(flags, AUDIT_FILTER_MASK);
    filter == AUDIT_FILTER_USER || filter == AUDIT_FILTER_TASK || filter == AUDIT_FILTER_EXCLUDE
  }

  ghost predicate AllWords(mask: seq<uint32>)
    requires |mask| == AUDIT_BITMASK_SIZE
  {
    forall i :: 0 <= i < AUDIT_BITMASK_SIZE - 1 ==> mask[i] == ALL_ONES
  }

  predicate WatchField(field: nat) {
    field == AUDIT_PERM || field == AUDIT_FILTERKEY || field == AUDIT_DIR || field == AUDIT_WATCH
  }

  /** A watch: path, permission and key fields only, at least one permission, and every syscall. */
  ghost predicate IsWatchRule(r: Rule)
    requires Shaped(r) && r.fieldCount <= AUDIT_MAX_FIELDS
  {
    && (forall i :: 0 <= i < r.fieldCount ==> WatchField(Masked(r.fields[i])))
    && (exists i :: 0 <= i < r.fieldCount && Masked(r.fields[i]) == AUDIT_PERM)
    && (NoSyscallFilter(r.flags) || AllWords(r.mask))
  }

  method IsWatch(r: Rule) returns (b: bool)
    requires Shaped(r) && r.fieldCount <= AUDIT_MAX_FIELDS
    ensures b <==> IsWatchRule(r)
  {
    hide Masked;
    var perm, all := false, true;
    for i := 0 to r.fieldCount
      invariant forall j :: 0 <= j < i ==> WatchField(Masked(r.fields[j]))
      invariant perm <==> exists j :: 0 <= j < i && Masked(r.fields[j]) == AUDIT_PERM
    {
      var field := Masked(r.fields[i]);
      if field == AUDIT_PERM { perm := true; }
      if !WatchField(field) { return false; }
    }
    if !NoSyscallFilter(r.flags) {
      all := EveryWord(r.mask);
    }
    return perm && all;
  }

  /** The scan of the bitmask both readers make: every word but the last is full. */
  method EveryWord(mask: seq<uint32>) returns (all: bool)
    requires |mask| == AUDIT_BITMASK_SIZE
    ensures all <==> AllWords(mask)
  {
    for i := 0 to AUDIT_BITMASK_SIZE - 1
      invariant forall j :: 0 <= j < i ==> mask[j] == ALL_ONES
    {
      if mask[i] != ALL_ONES { return false; }
    }
    return true;
  }

  // ---------------------------------------------------------------------------
  // The search by key
  // ---------------------------------------------------------------------------

  /** Slot `i` is a key field whose string contains `key`. */
  ghost predicate KeyAt(r: Rule, i: nat, key: bytes)
    requires Shaped(r) && i < AUDIT_MAX_FIELDS
  {
    && Masked(r.fields[i]) == AUDIT_FILTERKEY
    && Offset(r, i) + r.values[i] <= |r.buf|
    && Contains(r.buf[Offset(r, i)..Offset(r, i) + r.values[i]], key)
  }

  /** A key slice that leaves the buffer. */
  ghost predicate KeyOutside(r: Rule, i: nat)
    requires Shaped(r) && i < AUDIT_MAX_FIELDS
  {
    Masked(r.fields[i]) == AUDIT_FILTERKEY && Offset(r, i) + r.values[i] > |r.buf|
  }

  /** keyMatch; `None` is a panic, reached only before any match. */
  method KeyMatch(r: Rule, key: bytes) returns (found: Option<bool>)
    requires Shaped(r) && r.fieldCount <= AUDIT_MAX_FIELDS
    ensures found == Some(true) ==> key == [] || exists i :: 0 <= i < r.fieldCount && KeyAt(r, i, key)
    ensures found == Some(false) ==> key != [] && forall i :: 0 <= i < r.fieldCount ==> !KeyAt(r, i, key)
    ensures found == None ==>
              exists i :: 0 <= i < r.fieldCount && KeyOutside(r, i) && forall j :: 0 <= j < i ==> !KeyAt(r, j, key)
  {
    hide Masked, Contains;
    if |key| == 0 { return Some(true); }
    var bufferOffset := 0;
    for i := 0 to r.fieldCount
      invariant bufferOffset == Offset(r, i)
      invariant forall j :: 0 <= j < i ==> !KeyAt(r, j, key)
    {
      var field := Masked(r.fields[i]);
      if field == AUDIT_FILTERKEY {
        if bufferOffset + r.values[i] > |r.buf| {
          assert KeyOutside(r, i);
          return None;
        }
        if Contains(r.buf[bufferOffset..bufferOffset + r.values[i]], key) {
          assert KeyAt(r, i, key);
          return Some(true);
        }
      }
      if IsString(field) {
        bufferOffset := bufferOffset + r.values[i];
      }
    }
    return Some(false);
  }

  /** On a built rule the search sees exactly the keys that were supplied, and never panics. */
  lemma KeySearchExact(r: Rule, log: Log, i: nat, key: bytes)
    requires Laid(r, log) && i < r.fieldCount
    ensures KeyAt(r, i, key) <==> r.fields[i] == AUDIT_FILTERKEY && log[i].Some? && Contains(log[i].value, key)
    ensures !KeyOutside(r, i)
  {
    hide Contains, Masked, Packed;
    assert LiveSlot(r.fields[i], r.values[i], log[i]);
    MaskedId(r.fields[i]);
    if r.fields[i] == AUDIT_FILTERKEY { StringAt(r, log, i); }
  }

  // ---------------------------------------------------------------------------
  // Syscall names
  // ---------------------------------------------------------------------------

  /** Renderings left to tables and to the value interpreter. */
  datatype Tables = Tables(
    syscallName: nat -> Option<string>,
    msgTypeName: nat -> Option<string>,
    fieldComparison: (uint32, nat) -> string,
    argument: (nat, nat, uint32) -> Option<string>)

  function Digit(d: nat): char
    requires d < 16
  {
    "0123456789ABCDEF"[d]
  }

  function Numeral(n: nat, base: nat): string
    requires base == 10 || base == 16
  {
    if n < base then [Digit(n)] else Numeral(n / base, base) + [Digit(n % base)]
  }

  /** The value of a digit character. */
  function DigitValue(c: char): int {
    if '0' <= c <= '9' then c as int - '0' as int else c as int - 'A' as int + 10
  }

  /** The number a string of digits stands for. */
  function Reads(s: string, base: nat): int {
    if s == "" then 0 else Reads(s[..|s| - 1], base) * base + DigitValue(s[|s| - 1])
  }

  lemma DigitReads(d: nat)
    requires d < 16
    ensures DigitValue(Digit(d)) == d && (d > 0 ==> Digit(d) != '0')
  {
  }

  /** One more digit behind a string of digits. */
  lemma ReadsSnoc(s: string, c: char, base: nat)
    ensures Reads(s + [c], base) == Reads(s, base) * base + DigitValue(c)
  {
    hide DigitValue;
    var t := s + [c];
    assert t[..|t| - 1] == s && t[|t| - 1] == c;
  }

  lemma Divided(n: nat, base: nat, q: int)
    requires (base == 10 || base == 16) && q == n / base
    ensures q * base + n % base == n && 0 <= n % base < base
  {
    if base == 10 { Quotient10(n); } else { Quotient16(n); }
  }

  lemma Quotient(n: nat, base: nat)
    requires base == 10 || base == 16
    ensures 0 <= n % base < base && 0 <= n / base
    ensures n < base ==> n / base == 0 && n % base == n
    ensures n >= base ==> 0 < n / base < n
  {
    if base == 10 { Quotient10(n); } else { Quotient16(n); }
  }

  lemma Quotient10(n: nat)
    ensures 0 <= n % 10 < 10 && n / 10 * 10 + n % 10 == n
    ensures (n < 10 ==> n / 10 == 0 && n % 10 == n) && (n >= 10 ==> 0 < n / 10 < n)
  {
  }

  lemma Quotient16(n: nat)
    ensures 0 <= n % 16 < 16 && n / 16 * 16 + n % 16 == n
    ensures (n < 16 ==> n / 16 == 0 && n % 16 == n) && (n >= 16 ==> 0 < n / 16 < n)
  {
  }

  /** The last digit and the others. */
  lemma NumeralRound(n: nat, base: nat)
    requires base == 10 || base == 16
    ensures 0 <= n % base < base && 0 <= n / base && (n < base ==> n % base == n) && (n >= base ==> 0 < n / base < n)
    ensures Numeral(n, base) == (if n < base then "" else Numeral(n / base, base)) + [Digit(n % base)]
  {
    hide Digit;
    Quotient(n, base);
    if n < base { assert "" + [Digit(n)] == [Digit(n)]; }
  }

  lemma {:induction false} NumeralValue(n: nat, base: nat)
    requires base == 10 || base == 16
    ensures Reads(Numeral(n, base), base) == n
    decreases n
  {
    hide Digit, DigitValue, Reads, Numeral;
    NumeralRound(n, base);
    var d := n % base;
    DigitReads(d);
    var front := if n < base then "" else Numeral(n / base, base);
    ReadsSnoc(front, Digit(d), base);
    if n < base {
      ReadsNothing(base);
    } else {
      NumeralValue(n / base, base);
      Divided(n, base, Reads(front, base));
    }
  }

  lemma {:induction false} NumeralDigits(n: nat, base: nat)
    requires base == 10 || base == 16
    ensures var s := Numeral(n, base);
            && s != "" && (n > 0 ==> s[0] != '0') && (n == 0 ==> s == "0")
            && forall i :: 0 <= i < |s| ==> 0 <= DigitValue(s[i]) < base
    decreases n
  {
    hide Digit, DigitValue, Numeral;
    NumeralRound(n, base);
    Divided(n, base, n / base);
    DigitReads(n % base);
    if n < base {
      assert n % base == n;
      ZeroDigit();
    } else {
      NumeralDigits(n / base, base);
    }
  }

  /** A numeral reads back as its number, in digits below the base, without leading zero. */
  lemma NumeralReads(n: nat, base: nat)
    requires base == 10 || base == 16
    ensures var s := Numeral(n, base);
            && Reads(s, base) == n && s != "" && (n > 0 ==> s[0] != '0') && (n == 0 ==> s == "0")
            && forall i :: 0 <= i < |s| ==> 0 <= DigitValue(s[i]) < base
  {
    hide DigitValue, Numeral, Reads;
    NumeralValue(n, base);
    NumeralDigits(n, base);
  }

  lemma ReadsNothing(base: nat)
    ensures Reads("", base) == 0
  {
  }

  lemma ZeroDigit()
    ensures Digit(0) == '0'
  {
  }

  function SyscallText(nr: nat, t: Tables): string {
    match t.syscallName(nr)
    case Some(name) => name
    case None => Numeral(nr, 10)
  }

  /** The syscalls of a mask below `n`, in ascending order. */
  ghost function Members(mask: seq<uint32>, n: nat): (ms: seq<nat>)
    requires |mask| == AUDIT_BITMASK_SIZE
  {
    if n == 0 then []
    else Members(mask, n - 1) + if InMask(mask, n - 1) then [n - 1] else []
  }

  /** The members are exactly the bits set, strictly increasing. */
  lemma {:induction false} MembersExact(mask: seq<uint32>, n: nat)
    requires |mask| == AUDIT_BITMASK_SIZE
    ensures forall k: nat :: k in Members(mask, n) <==> k < n && InMask(mask, k)
    ensures forall i, j :: 0 <= i < j < |Members(mask, n)| ==> Members(mask, n)[i] < Members(mask, n)[j]
  {
    hide InMask;
    if n > 0 {
      MembersExact(mask, n - 1);
      var before, last := Members(mask, n - 1), if InMask(mask, n - 1) then [n - 1] else [];
      assert Members(mask, n) == before + last;
      assert forall i :: 0 <= i < |before| ==> before[i] in before;
      forall k: nat ensures k in before + last <==> k < n && InMask(mask, k) { }
    }
  }

  /** " -S " and the names separated by commas; nothing for the empty set. */
  ghost function NameList(ms: seq<nat>, t: Tables): string {
    if ms == [] then ""
    else if |ms| == 1 then " -S " + SyscallText(ms[0], t)
    else NameList(ms[..|ms| - 1], t) + "," + SyscallText(ms[|ms| - 1], t)
  }

  lemma NameListSnoc(ms: seq<nat>, nr: nat, t: Tables)
    ensures NameList(ms + [nr], t) == (if ms == [] then " -S " else NameList(ms, t) + ",") + SyscallText(nr, t)
  {
    assert (ms + [nr])[..|ms|] == ms;
  }

  ghost function LastOr0(ms: seq<nat>): nat {
    if ms == [] then 0 else ms[|ms| - 1]
  }

  datatype SyscallPrint = SyscallPrint(text: string, count: nat, last: nat, printed: bool)

  /** What printSyscallRule returns, in terms of the set of syscalls. */
  ghost function SyscallsShown(r: Rule, t: Tables): SyscallPrint
    requires Shaped(r)
  {
    if NoSyscallFilter(r.flags) then SyscallPrint("", 0, 0, false)
    else if AllWords(r.mask) then SyscallPrint(" -S all", AUDIT_BITMASK_SIZE - 1, 0, true)
    else
      var ms := Members(r.mask, AUDIT_BITMASK_SIZE * 32);
      SyscallPrint(NameList(ms, t), |ms|, LastOr0(ms), true)
  }

  ghost function MaskSet(mask: seq<uint32>, n: nat): set<nat>
    requires |mask| == AUDIT_BITMASK_SIZE
  {
    set k: nat | k < n && InMask(mask, k)
  }

  /** The count printed is the size of the set. */
  lemma {:induction false} MembersCount(mask: seq<uint32>, n: nat)
    requires |mask| == AUDIT_BITMASK_SIZE
    ensures |Members(mask, n)| == |MaskSet(mask, n)|
  {
    hide InMask;
    if n > 0 {
      MembersCount(mask, n - 1);
      assert MaskSet(mask, n) == MaskSet(mask, n - 1) + if InMask(mask, n - 1) then {n - 1} else {};
    }
  }

  /**
   After adding any list of syscalls to a blank rule, in any order and with
   repeats, the printer shows exactly that set: its size, its maximum, and its
   names in ascending order.
   */
  lemma SyscallSetShown(nrs: seq<nat>, r: Rule, t: Tables) returns (ms: seq<nat>)
    requires forall i :: 0 <= i < |nrs| ==> nrs[i] < 2016
    requires Shaped(r) && r.mask == AddSyscalls(Blank(), nrs).0.mask
    requires !NoSyscallFilter(r.flags) && !AllWords(r.mask)
    ensures SyscallsShown(r, t) == SyscallPrint(NameList(ms, t), |set n: nat | n in nrs|, LastOr0(ms), true)
    ensures forall i, j :: 0 <= i < j < |ms| ==> ms[i] < ms[j]
    ensures forall k: nat :: k in ms <==> k in nrs
    ensures nrs != [] ==> LastOr0(ms) in nrs && forall n :: n in nrs ==> n <= LastOr0(ms)
  {
    hide InMask, AddSyscalls, NameList, AllWords, NoSyscallFilter;
    var size := AUDIT_BITMASK_SIZE * 32;
    ms := Members(r.mask, size);
    MembersExact(r.mask, size);
    MembersCount(r.mask, size);
    forall k: nat ensures k < size && InMask(r.mask, k) <==> k in nrs {
      AddSyscallsSet(Blank(), nrs, k);
      BlankMask(k);
    }
    assert MaskSet(r.mask, size) == set n: nat | n in nrs;
    if nrs != [] { assert nrs[0] in ms; }
  }

  method PrintSyscallRule(r: Rule, t: Tables) returns (p: SyscallPrint)
    requires Shaped(r)
    ensures p == SyscallsShown(r, t)
  {
    hide And, Or, Bit;
    if NoSyscallFilter(r.flags) { return SyscallPrint("", 0, 0, false); }
    var all := EveryWord(r.mask);
    if all { return SyscallPrint(" -S all", AUDIT_BITMASK_SIZE - 1, 0, true); }
    var name, count, last := "", 0, 0;
    for i := 0 to AUDIT_BITMASK_SIZE * 32
      invariant count == |Members(r.mask, i)| && last == LastOr0(Members(r.mask, i))
      invariant name == NameList(Members(r.mask, i), t) && (name == "" <==> count == 0)
    {
      var word, bit := AuditWord(i), AuditBit(i);
      MaskTest(r.mask, i);
      if And(r.mask[word], bit) > 0 {
        if |name| == 0 { name := " -S "; }
        if count > 0 { name := name + ","; }
        name := name + SyscallText(i, t);
        assert Members(r.mask, i + 1) == Members(r.mask, i) + [i];
        NameListSnoc(Members(r.mask, i), i, t);
        count := count + 1;
        last := i;
      } else {
        assert Members(r.mask, i + 1) == Members(r.mask, i);
      }
    }
    return SyscallPrint(name, count, last, true);
  }

  lemma MaskTest(mask: seq<uint32>, nr: nat)
    requires |mask| == AUDIT_BITMASK_SIZE && nr < AUDIT_BITMASK_SIZE * 32
    ensures And(mask[AuditWord(nr)], AuditBit(nr)) > 0 <==> InMask(mask, nr)
  {
    TestBit(mask[AuditWord(nr)], nr % 32);
  }

  // ---------------------------------------------------------------------------
  // The printer
  // ---------------------------------------------------------------------------

  function Str(b: bytes): string {
    seq(|b|, i requires 0 <= i < |b| => b[i] as char)
  }

  function ActionName(action: uint32): string {
    if action == 0 then "never" else if action == 1 then "possible" else if action == 2 then "always" else ""
  }

  function FlagName(flags: uint32): string {
    if flags == 1 then "task" else if flags == 2 then "entry" else if flags == 4 then "exit"
    else if flags == 0 then "user" else if flags == 5 then "exclude" else ""
  }

  function OpSymbol(op: nat): string {
    if op == 0x4000_0000 then "=" else if op == 0x3000_0000 then "!="
    else if op == 0x2000_0000 then ">" else if op == 0x6000_0000 then ">="
    else if op == 0x1000_0000 then "<" else if op == 0x5000_0000 then "<="
    else if op == 0x0800_0000 then "&" else if op == 0x4800_0000 then "&=" else ""
  }

  /** The name of a field number; empty for an unknown one. */
  function FieldName(field: nat): string {
    if field < 13 then ProcessName(field)
    else if field < 24 then LabelName(field)
    else EventName(field)
  }

  function ProcessName(field: nat): string {
    if field == 0 then "pid" else if field == 1 then "uid" else if field == 2 then "euid" else if field == 3 then "suid"
    else if field == 4 then "fsuid" else if field == 5 then "gid" else if field == 6 then "egid"
    else if field == 7 then "sgid" else if field == 8 then "fsgid" else if field == 9 then "auid"
    else if field == 10 then "pers" else if field == 11 then "arch" else if field == 12 then "msgtype"
    else ""
  }

  function LabelName(field: nat): string {
    if field == 13 then "subj_user" else if field == 14 then "subj_role" else if field == 15 then "subj_type"
    else if field == 16 then "subj_sen" else if field == 17 then "subj_clr" else if field == 18 then "ppid"
    else if field == 19 then "obj_user" else if field == 20 then "obj_role" else if field == 21 then "obj_type"
    else if field == 22 then "obj_lev_low" else if field == 23 then "obj_lev_high"
    else ""
  }

  function EventName(field: nat): string {
    if field == 100 then "devmajor" else if field == 101 then "devminor" else if field == 102 then "inode"
    else if field == 103 then "exit" else if field == 104 then "success" else if field == 105 then "path"
    else if field == 106 then "perm" else if field == 107 then "dir" else if field == 108 then "filetype"
    else if field == 109 then "obj_uid" else if field == 110 then "obj_gid" else if field == 111 then "field_compare"
    else if field == 112 then "exe" else if field == 200 then "a0" else if field == 201 then "a1"
    else if field == 202 then "a2" else if field == 203 then "a3" else if field == 210 then "key"
    else ""
  }

  /** The letters of a permission value, in the order r, w, x, a. */
  function PermLetters(v: uint32): string {
    (if And(v, AUDIT_PERM_READ) > 0 then "r" else "") + (if And(v, AUDIT_PERM_WRITE) > 0 then "w" else "")
    + (if And(v, AUDIT_PERM_EXEC) > 0 then "x" else "") + (if And(v, AUDIT_PERM_ATTR) > 0 then "a" else "")
  }

  /** The two characters backslash and zero, which separate several keys in one field. */
  const KEY_SEPARATOR: bytes := [92, 48]

  /** strings.Split by the key separator; `acc` is the piece being read. */
  function SplitKeys(s: bytes, acc: bytes): seq<bytes>
    decreases |s|
  {
    if KEY_SEPARATOR <= s then [acc] + SplitKeys(s[2..], [])
    else if s == [] then [acc]
    else SplitKeys(s[1..], acc + [s[0]])
  }

  function KeysText(pieces: seq<bytes>, watch: bool): string {
    if pieces == [] then ""
    else (if watch then " -k " else " -F key=") + Str(pieces[0]) + KeysText(pieces[1..], watch)
  }

  /** The string field at the printer's current offset. */
  function SliceAt(r: Rule, offset: nat, i: nat): Option<bytes>
    requires Shaped(r) && i < AUDIT_MAX_FIELDS
  {
    if offset + r.values[i] > |r.buf| then None else Some(r.buf[offset..offset + r.values[i]])
  }

  /** Fields after which the printer moves its offset; label fields are not among them. */
  predicate Advances(field: nat) {
    field == AUDIT_WATCH || field == AUDIT_DIR || field == AUDIT_EXE || field == AUDIT_FILTERKEY
  }

  /** The text of a string field. */
  function StringText(field: nat, s: bytes, op: nat, watch: bool): string {
    if field == AUDIT_WATCH then (if watch then "-w " else " -F path=") + Str(s)
    else if field == AUDIT_DIR then (if watch then "-w " else " -F dir=") + Str(s)
    else if field == AUDIT_EXE then " -F exe=" + Str(s)
    else if field == AUDIT_FILTERKEY then KeysText(SplitKeys(s, []), watch)
    else " -F " + FieldName(field) + OpSymbol(op) + Str(s)
  }

  /** The text of any other field, from the words of its slot. */
  function PlainText(field: uint32, v: uint32, op: nat, watch: bool, sys: SyscallPrint, t: Tables): string {
    var id := Masked(field);
    var raw := " f" + Numeral(field, 10) + OpSymbol(op) + Numeral(v, 10);
    var start := " -F " + FieldName(id) + OpSymbol(op);
    if id == AUDIT_ARCH then ""
    else if FieldName(id) == "" then raw
    else if id == AUDIT_MSGTYPE then
      match t.msgTypeName(v % 0x1_0000)
      case None => raw
      case Some(name) => start + name
    else if id == AUDIT_PERM then (if watch then " -p " else " -F perm=") + PermLetters(v)
    else if id == AUDIT_FIELD_COMPARE then t.fieldComparison(v, op)
    else if AUDIT_ARG0 <= id <= AUDIT_ARG3 then
      if sys.count > 1 then start + "0x" + Numeral(v, 16)
      else
        match t.argument(id, sys.last, v)
        case None => ""
        case Some(text) => start + "0x" + text
    else start + Numeral(v, 10)
  }

  /** Text and following offset of slot `i`; `None` is a panic. */
  function SlotText(r: Rule, i: nat, offset: nat, watch: bool, sys: SyscallPrint, t: Tables): Option<(string, nat)>
    requires Shaped(r) && i < AUDIT_MAX_FIELDS
  {
    var field, op := Masked(r.fields[i]), And(r.fieldflags[i], AUDIT_OPERATORS);
    if !IsString(field) then Some((PlainText(r.fields[i], r.values[i], op, watch, sys, t), offset))
    else
      match SliceAt(r, offset, i)
      case None => None
      case Some(s) => Some((StringText(field, s, op, watch), if Advances(field) then offset + r.values[i] else offset))
  }

  /** The text of slots `i` and up. */
  function SlotsText(r: Rule, i: nat, offset: nat, watch: bool, sys: SyscallPrint, t: Tables): Option<string>
    requires Shaped(r) && i <= r.fieldCount <= AUDIT_MAX_FIELDS
    decreases r.fieldCount - i
  {
    if i == r.fieldCount then Some("")
    else
      match SlotText(r, i, offset, watch, sys, t)
      case None => None
      case Some((text, offset')) =>
        match SlotsText(r, i + 1, offset', watch, sys, t)
        case None => None
        case Some(rest) => Some(text + rest)
  }

  /** The first arch field, printed ahead of the syscalls. */
  function ArchText(r: Rule, i: nat): string
    requires Shaped(r) && i <= r.fieldCount <= AUDIT_MAX_FIELDS
    decreases r.fieldCount - i
  {
    if i == r.fieldCount then ""
    else if Masked(r.fields[i]) == AUDIT_ARCH
    then "-F arch" + OpSymbol(And(r.fieldflags[i], AUDIT_OPERATORS)) + "b64"
    else ArchText(r, i + 1)
  }

  /** printRule; more than 64 fields make it index past the arrays. */
  ghost function PrintRule(r: Rule, t: Tables): Option<string>
    requires Shaped(r)
  {
    if r.fieldCount > AUDIT_MAX_FIELDS then None
    else if IsWatchRule(r) then SlotsText(r, 0, 0, true, SyscallPrint("", 0, 0, false), t)
    else
      var sys := SyscallsShown(r, t);
      var head := "-a " + ActionName(r.action) + "," + FlagName(r.flags) + ArchText(r, 0) + sys.text;
      match SlotsText(r, 0, 0, false, sys, t)
      case None => None
      case Some(rest) => Some(head + rest)
  }

  function Joined(result: string, rest: Option<string>): Option<string> {
    match rest
    case None => None
    case Some(s) => Some(result + s)
  }

  method Print(r: Rule, t: Tables) returns (out: Option<string>)
    requires Shaped(r)
    ensures out == PrintRule(r, t)
  {
    hide SlotText, SyscallsShown, IsWatchRule;
    if r.fieldCount > AUDIT_MAX_FIELDS { return None; }
    var watch := IsWatch(r);
    var result := "";
    var sys := SyscallPrint("", 0, 0, false);
    if !watch {
      result := "-a " + ActionName(r.action) + "," + FlagName(r.flags);
      result := result + ArchText(r, 0);
      sys := PrintSyscallRule(r, t);
      result := result + sys.text;
    }
    ghost var head := result;
    JoinedEmpty(SlotsText(r, 0, 0, watch, sys, t));
    var bufferOffset := 0;
    for i := 0 to r.fieldCount
      invariant Joined(head, SlotsText(r, 0, 0, watch, sys, t)) ==
                Joined(result, SlotsText(r, i, bufferOffset, watch, sys, t))
    {
      var slot := SlotText(r, i, bufferOffset, watch, sys, t);
      if slot == None { return None; }
      JoinedTwice(result, slot.value.0, SlotsText(r, i + 1, slot.value.1, watch, sys, t));
      result := result + slot.value.0;
      bufferOffset := slot.value.1;
    }
    assert result + "" == result;
    return Some(result);
  }

  lemma JoinedEmpty(rest: Option<string>)
    ensures Joined("", rest) == rest
  {
    if rest.Some? { assert "" + rest.value == rest.value; }
  }

  lemma JoinedTwice(a: string, b: string, rest: Option<string>)
    ensures Joined(a, Joined(b, rest)) == Joined(a + b, rest)
  {
    if rest.Some? { assert a + (b + rest.value) == a + b + rest.value; }
  }

  // ---------------------------------------------------------------------------
  // The printer's offsets
  // ---------------------------------------------------------------------------

  /** The printer's offset at slot `i`. */
  function PrintOffset(r: Rule, i: nat): nat
    requires Shaped(r) && i <= AUDIT_MAX_FIELDS
  {
    if i == 0 then 0
    else PrintOffset(r, i - 1) + if Advances(Masked(r.fields[i - 1])) then r.values[i - 1] else 0
  }

  /** No non-empty security label stands before slot `i`. */
  ghost predicate NoLabelBefore(r: Rule, i: nat)
    requires Shaped(r) && i <= AUDIT_MAX_FIELDS
  {
    forall j :: 0 <= j < i && IsString(Masked(r.fields[j])) && !Advances(Masked(r.fields[j])) ==> r.values[j] == 0
  }

  /** The printer's offset never passes the true one, and meets it exactly when no label was skipped. */
  lemma {:induction false} PrintOffsetIff(r: Rule, i: nat)
    requires Shaped(r) && i <= AUDIT_MAX_FIELDS
    ensures PrintOffset(r, i) <= Offset(r, i)
    ensures PrintOffset(r, i) == Offset(r, i) <==> NoLabelBefore(r, i)
  {
    hide Masked;
    if i > 0 { PrintOffsetIff(r, i - 1); }
  }

  /** After which fields, of any rule, the key search and the printer move their offsets. */
  lemma OffsetsMove(r: Rule, i: nat)
    requires Shaped(r) && i < AUDIT_MAX_FIELDS
    ensures var m, v := Masked(r.fields[i]), r.values[i];
            && Offset(r, i + 1) ==
               Offset(r, i) + (if (13 <= m <= 23 && m != 18) || m in {105, 107, 112, 210} then v else 0)
            && PrintOffset(r, i + 1) == PrintOffset(r, i) + (if m in {105, 107, 112, 210} then v else 0)
  {
    hide Masked;
  }

  /** The text of a slot whose string, if it has one, is `s`. */
  function ShownText(field: uint32, v: uint32, fieldflags: uint32, s: bytes, watch: bool, sys: SyscallPrint,
                     t: Tables): string {
    var op := And(fieldflags, AUDIT_OPERATORS);
    if IsString(Masked(field)) then StringText(Masked(field), s, op, watch) else PlainText(field, v, op, watch, sys, t)
  }

  /** The string at the printer's own offset. */
  function StringShown(r: Rule, i: nat): bytes
    requires Shaped(r) && i < AUDIT_MAX_FIELDS
  {
    match SliceAt(r, PrintOffset(r, i), i)
    case None => []
    case Some(s) => s
  }

  /** The slots from `i` on, with the strings at the printer's offsets. */
  function ShownFrom(r: Rule, i: nat, watch: bool, sys: SyscallPrint, t: Tables): string
    requires Shaped(r) && i <= r.fieldCount <= AUDIT_MAX_FIELDS
    decreases r.fieldCount - i
  {
    if i == r.fieldCount then ""
    else
      ShownText(r.fields[i], r.values[i], r.fieldflags[i], StringShown(r, i), watch, sys, t)
      + ShownFrom(r, i + 1, watch, sys, t)
  }

  /** At its own offset the printer shows the slot and moves on to its next offset. */
  lemma SlotPrinted(r: Rule, log: Log, i: nat, watch: bool, sys: SyscallPrint, t: Tables)
    requires Laid(r, log) && i < r.fieldCount
    ensures SlotText(r, i, PrintOffset(r, i), watch, sys, t) ==
            Some((ShownText(r.fields[i], r.values[i], r.fieldflags[i], StringShown(r, i), watch, sys, t),
                  PrintOffset(r, i + 1)))
  {
    hide Masked, Packed, PlainText, StringText, IsString, Offset, And;
    PrintOffsetIff(r, i);
    if IsString(Masked(r.fields[i])) {
      StringAt(r, log, i);
    } else {
      NotStringNotAdvancing(Masked(r.fields[i]));
    }
  }

  /** On a built rule the printer is at `PrintOffset` when it reaches a slot, and every slice it takes is in bounds. */
  lemma {:induction false} SlotsPrinted(r: Rule, log: Log, i: nat, watch: bool, sys: SyscallPrint, t: Tables)
    requires Laid(r, log) && i <= r.fieldCount
    ensures SlotsText(r, i, PrintOffset(r, i), watch, sys, t) == Some(ShownFrom(r, i, watch, sys, t))
    decreases r.fieldCount - i
  {
    hide Packed, SlotText, ShownText, StringShown, PrintOffset;
    if i < r.fieldCount {
      SlotPrinted(r, log, i, watch, sys, t);
      SlotsPrinted(r, log, i + 1, watch, sys, t);
    }
  }

  lemma NotStringNotAdvancing(field: nat)
    requires !IsString(field)
    ensures !Advances(field)
  {
  }

  /** What the printer starts with: nothing for a watch, otherwise action, filter, architecture and syscalls. */
  ghost function Heading(r: Rule, t: Tables): string
    requires Shaped(r) && r.fieldCount <= AUDIT_MAX_FIELDS
  {
    if IsWatchRule(r) then ""
    else "-a " + ActionName(r.action) + "," + FlagName(r.flags) + ArchText(r, 0) + SyscallsShown(r, t).text
  }

  ghost function SyscallsOf(r: Rule, t: Tables): SyscallPrint
    requires Shaped(r) && r.fieldCount <= AUDIT_MAX_FIELDS
  {
    if IsWatchRule(r) then SyscallPrint("", 0, 0, false) else SyscallsShown(r, t)
  }

  /** Printing a built rule never panics; it gives the heading and the slots, strings at the printer's offsets. */
  lemma PrintInBounds(r: Rule, log: Log, t: Tables)
    requires Laid(r, log)
    ensures Shaped(r) && r.fieldCount <= AUDIT_MAX_FIELDS
    ensures PrintRule(r, t) == Some(Heading(r, t) + ShownFrom(r, 0, IsWatchRule(r), SyscallsOf(r, t), t))
  {
    hide Laid, SlotsText, IsWatchRule, SyscallsShown, ShownFrom;
    LaidShaped(r, log);
    LaidCount(r, log);
    SlotsPrinted(r, log, 0, IsWatchRule(r), SyscallsOf(r, t), t);
    var text := ShownFrom(r, 0, IsWatchRule(r), SyscallsOf(r, t), t);
    assert "" + text == text;
  }

  /** The slots from `i` on, with the strings that were supplied for them. */
  function SuppliedFrom(r: Rule, log: Log, i: nat, watch: bool, sys: SyscallPrint, t: Tables): string
    requires Shaped(r) && i <= r.fieldCount <= AUDIT_MAX_FIELDS && |log| == r.fieldCount
    decreases r.fieldCount - i
  {
    if i == r.fieldCount then ""
    else
      ShownText(r.fields[i], r.values[i], r.fieldflags[i], TextOf(log[i]), watch, sys, t)
      + SuppliedFrom(r, log, i + 1, watch, sys, t)
  }

  /** No string field stands behind a non-empty security label. */
  ghost predicate LabelsLast(r: Rule)
    requires Shaped(r) && r.fieldCount <= AUDIT_MAX_FIELDS
  {
    forall i :: 0 <= i < r.fieldCount && IsString(Masked(r.fields[i])) ==> NoLabelBefore(r, i)
  }

  /** The string at the printer's offset is the one supplied when no non-empty label stands before it. */
  lemma SliceSupplied(r: Rule, log: Log, i: nat)
    requires Laid(r, log) && i < r.fieldCount && IsString(Masked(r.fields[i])) && NoLabelBefore(r, i)
    ensures log[i].Some? && StringShown(r, i) == log[i].value
  {
    hide Masked, Packed;
    PrintOffsetIff(r, i);
    StringAt(r, log, i);
  }

  lemma {:induction false} ShownIsSupplied(r: Rule, log: Log, i: nat, watch: bool, sys: SyscallPrint, t: Tables)
    requires Laid(r, log) && i <= r.fieldCount && LabelsLast(r)
    ensures ShownFrom(r, i, watch, sys, t) == SuppliedFrom(r, log, i, watch, sys, t)
    decreases r.fieldCount - i
  {
    hide Masked, Packed, PlainText, StringText, IsString, StringShown, And;
    if i < r.fieldCount {
      if IsString(Masked(r.fields[i])) { SliceSupplied(r, log, i); }
      ShownIsSupplied(r, log, i + 1, watch, sys, t);
    }
  }

  /** What is printed is what was supplied, whenever no string field stands behind a non-empty label. */
  lemma PrintsSupplied(r: Rule, log: Log, t: Tables)
    requires Laid(r, log) && Shaped(r) && r.fieldCount <= AUDIT_MAX_FIELDS && LabelsLast(r)
    ensures |log| == r.fieldCount
    ensures PrintRule(r, t) == Some(Heading(r, t) + SuppliedFrom(r, log, 0, IsWatchRule(r), SyscallsOf(r, t), t))
  {
    hide Laid, PrintRule, LabelsLast, Heading, IsWatchRule, SyscallsOf, ShownFrom, SuppliedFrom;
    LaidCount(r, log);
    PrintInBounds(r, log, t);
    ShownIsSupplied(r, log, 0, IsWatchRule(r), SyscallsOf(r, t), t);
  }
}
