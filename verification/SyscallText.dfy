/**
 Syscall rules end to end: what a configured rule prints as, and what a security
 label does to the strings behind it.
 */
module SyscallText {
  import opened Words
  import opened Bits
  import opened Rules
  import opened RuleLayout
  import opened Config
  import opened CompileFacts
  import opened RulePrint
  import opened FilePrint

  // ---------------------------------------------------------------------------
  // Words and numbers
  // ---------------------------------------------------------------------------

  /** The symbol of a configured operator; none for an unknown one. */
  function Symbol(op: string): string {
    if op == "eq" then "=" else if op == "nt_eq" then "!=" else if op == "gt" then ">"
    else if op == "gt_or_eq" then ">=" else if op == "lt" then "<" else if op == "lt_or_eq" then "<="
    else if op == "and" then "&" else if op == "and_eq" then "&=" else ""
  }

  /** An operator prints as its symbol. */
  lemma OperatorsShown(op: string)
    ensures And(OpValue(op), AUDIT_OPERATORS) == OpValue(op) && OpSymbol(OpValue(op)) == Symbol(op)
  {
    hide And;
    OperatorKept(8);
    OperatorKept(6);
    OperatorKept(4);
    OperatorKept(12);
    OperatorKept(2);
    OperatorKept(10);
    OperatorKept(1);
    OperatorKept(9);
    OperatorKept(0);
  }

  /** The operators are the four bits from bit 27 on. */
  lemma OperatorKept(k: nat)
    requires k < 16
    ensures And(k * 0x0800_0000, AUDIT_OPERATORS) == k * 0x0800_0000
  {
    hide And;
    ShiftOperators();
    AndScaled(k, 15, 27);
    assert Bit(15, 0) && Bit(15, 1) && Bit(15, 2) && Bit(15, 3);
    AndOnes(k, 15, 4);
  }

  lemma ShiftOperators()
    ensures Shift(27) == 0x0800_0000 && Shift(4) == 16
  {
    assert Shift(8) == 256 && Shift(16) == 0x1_0000 && Shift(24) == 0x100_0000;
  }

  /** The name a field is shown by: its own, but for the second name of the login uid. */
  function ShownName(name: string): string {
    if name == "loginuid" then "auid" else name
  }

  /** Every known name leads to a number that is shown by that name. */
  lemma NamesShown(name: string)
    requires FieldId(name) != 0
    ensures FieldName(FieldId(name)) == ShownName(name)
  {
    hide ProcessId, LabelId, EventId, ProcessName, LabelName, EventName;
    if ProcessId(name) != 0 {
      ProcessNames(name);
    } else {
      NotLoginUid(name);
      if LabelId(name) != 0 { LabelNames(name); } else { EventNames(name); }
    }
  }

  lemma ProcessNames(name: string)
    requires ProcessId(name) != 0
    ensures ProcessName(ProcessId(name)) == ShownName(name)
  {
  }

  lemma NotLoginUid(name: string)
    requires ProcessId(name) == 0
    ensures name != "loginuid"
  {
  }

  lemma LabelNames(name: string)
    requires LabelId(name) != 0
    ensures LabelName(LabelId(name)) == name
  {
  }

  lemma EventNames(name: string)
    requires EventId(name) != 0
    ensures EventName(EventId(name)) == name
  {
  }

  /** The numbers of the fields that are printed in their own way. */
  lemma SpecialNumbers(name: string)
    requires FieldId(name) != 0
    ensures FieldId(name) == 11 <==> name == "arch"
    ensures FieldId(name) == 12 <==> name == "msgtype"
    ensures FieldId(name) == 105 <==> name == "path"
    ensures FieldId(name) == 106 <==> name == "perm"
    ensures FieldId(name) == 107 <==> name == "dir"
    ensures FieldId(name) == 111 <==> name == "field_compare"
    ensures 200 <= FieldId(name) <= 203 <==> name in {"a0", "a1", "a2", "a3"}
    ensures FieldId(name) == 210 <==> name == "key"
  {
    hide ProcessId, LabelId, EventId;
    ProcessSpecials(name);
    LabelSpecials(name);
    EventSpecials(name);
  }

  lemma ProcessSpecials(name: string)
    ensures (ProcessId(name) == 11 <==> name == "arch") && (ProcessId(name) == 12 <==> name == "msgtype")
    ensures name in {"path", "perm", "dir", "field_compare", "a0", "a1", "a2", "a3", "key"} ==> ProcessId(name) == 0
  {
  }

  lemma LabelSpecials(name: string)
    ensures name in {"path", "perm", "dir", "field_compare", "a0", "a1", "a2", "a3", "key"} ==> LabelId(name) == 0
  {
  }

  lemma EventSpecials(name: string)
    ensures (EventId(name) == 105 <==> name == "path") && (EventId(name) == 106 <==> name == "perm")
    ensures (EventId(name) == 107 <==> name == "dir") && (EventId(name) == 111 <==> name == "field_compare")
    ensures 200 <= EventId(name) <= 203 <==> name in {"a0", "a1", "a2", "a3"}
    ensures EventId(name) == 210 <==> name == "key"
  {
  }

  /** The last word that names an action; none if there is none. */
  function LastActionWord(words: seq<string>): string {
    if words == [] then ""
    else
      var w := words[|words| - 1];
      if w in {"never", "possible", "always"} then w else LastActionWord(words[..|words| - 1])
  }

  /** The last word that names a filter, "entry" being taken for "exit". */
  function LastFilterWord(words: seq<string>): string {
    if words == [] then ""
    else
      var w := words[|words| - 1];
      if w in {"task", "exit", "user", "exclude"} then w
      else if w == "entry" then "exit"
      else LastFilterWord(words[..|words| - 1])
  }

  /** Action and filter are shown by the words that decided them. */
  lemma {:induction false} LastWordsShown(words: seq<string>)
    ensures ActionName(ToUint32(LastAction(words))) == LastActionWord(words)
    ensures FlagName(LastFilter(words)) == LastFilterWord(words)
    decreases |words|
  {
    hide ActionName, FlagName, ActionOf, FilterOf;
    NoWords();
    if words != [] {
      WordShown(words[|words| - 1]);
      LastWordsShown(words[..|words| - 1]);
    }
  }

  lemma NoWords()
    ensures ActionName(ToUint32(-1)) == "" && FlagName(AUDIT_FILTER_UNSET) == ""
  {
  }

  /** What each word stands for, and is shown as. */
  lemma WordShown(w: string)
    ensures ActionOf(w).Some? <==> w in {"never", "possible", "always"}
    ensures ActionOf(w).Some? ==> 0 <= ActionOf(w).value <= 2 && ActionName(ToUint32(ActionOf(w).value)) == w
    ensures FilterOf(w).Some? <==> w in {"task", "entry", "exit", "user", "exclude"}
    ensures FilterOf(w).Some? ==> FlagName(FilterOf(w).value) == if w == "entry" then "exit" else w
  {
  }

  // ---------------------------------------------------------------------------
  // Fields
  // ---------------------------------------------------------------------------

  /** The string a configured value brings, if it is one. */
  function GivenText(val: FieldValue): bytes {
    if val.Text? then val.s else []
  }

  /** How a configured field is to be shown. */
  ghost function FieldText(f: FieldSpec, host: Host, watch: bool, sys: SyscallPrint, t: Tables): string {
    var id := FieldId(f.name);
    var found, given := ValueOf(id, f.val, host), GivenText(f.val);
    var v: uint32 := if found.Some? && 0 <= found.value < 0x1_0000_0000 then found.value else 0;
    var start := " -F " + ShownName(f.name) + Symbol(f.op);
    if f.name == "arch" then ""
    else if f.name == "msgtype" then
      match t.msgTypeName(v % 0x1_0000)
      case None => " f12" + Symbol(f.op) + Numeral(v, 10)
      case Some(name) => start + name
    else if f.name == "perm" then (if watch then " -p " else " -F perm=") + GivenLetters(given)
    else if f.name == "field_compare" then t.fieldComparison(v, OpValue(f.op))
    else if f.name in {"a0", "a1", "a2", "a3"} then
      if sys.count > 1 then start + "0x" + Numeral(v, 16)
      else
        match t.argument(id, sys.last, v)
        case None => ""
        case Some(text) => start + "0x" + text
    else if f.name == "path" then (if watch then "-w " else " -F path=") + Str(given)
    else if f.name == "dir" then (if watch then "-w " else " -F dir=") + Str(given)
    else if f.name == "key" then KeysText(SplitKeys(given, []), watch)
    else if IsLabel(id) then start + Str(given)
    else start + Numeral(v, 10)
  }

  ghost function FieldsText(fs: seq<FieldSpec>, host: Host, watch: bool, sys: SyscallPrint, t: Tables): string {
    if fs == [] then "" else FieldText(fs[0], host, watch, sys, t) + FieldsText(fs[1..], host, watch, sys, t)
  }

  /** A configured field that is a non-empty security label. */
  predicate LabelGiven(f: FieldSpec) {
    IsLabel(FieldId(f.name)) && f.val.Text? && f.val.s != []
  }

  /** No string field is configured behind a non-empty label; the key comes last. */
  ghost predicate LabelsLastIn(fs: seq<FieldSpec>) {
    forall i, j :: 0 <= i < j < |fs| && LabelGiven(fs[i]) ==> !IsPacked(FieldId(fs[j].name))
  }

  /** The strings of a rule that holds the fields. */
  ghost predicate LogsFields(log: Log, fs: seq<FieldSpec>) {
    |log| == |fs| && forall i :: 0 <= i < |fs| ==> log[i] == FieldEntry(fs[i].val, fs[i].name)
  }

  /** The strings of a compiled syscall rule. */
  lemma CompiledLog(s: SyscallRule, flags: Flags, host: Host) returns (log: Log)
    requires CompileSyscall(s, flags, host).1.Ready?
    ensures Laid(CompileSyscall(s, flags, host).1.rule, log) && LogsFields(log, AllFields(s))
  {
    hide CompileSyscall, Laid, FieldEntry;
    log := CompileSyscallLaid(s, flags, host);
    var fs := AllFields(s);
    forall i | 0 <= i < |fs| ensures log[i] == FieldEntry(fs[i].val, fs[i].name) {
      if i >= |s.fields| { assert fs[i] == FieldSpec("key", "eq", s.key.value); }
    }
  }

  /** The words of a slot that holds a field. */
  lemma StringsShown(id: uint32, v: uint32, f: FieldSpec, watch: bool, sys: SyscallPrint, t: Tables)
    requires id == FieldId(f.name) != 0 && IsPacked(id) && f.val.Text?
    ensures IsString(Masked(id))
    ensures StringText(Masked(id), f.val.s, OpValue(f.op), watch) ==
            if id == 105 then (if watch then "-w " else " -F path=") + Str(f.val.s)
            else if id == 107 then (if watch then "-w " else " -F dir=") + Str(f.val.s)
            else if id == 210 then KeysText(SplitKeys(f.val.s, []), watch)
            else " -F " + ShownName(f.name) + Symbol(f.op) + Str(f.val.s)
  {
    hide Masked, FieldId, OpValue, OpSymbol, FieldName, KeysText, SplitKeys, Str, ShownName, Symbol, And;
    MaskedId(id);
    NamesShown(f.name);
    OperatorsShown(f.op);
  }

  lemma NumbersShown(id: uint32, v: uint32, f: FieldSpec, watch: bool, sys: SyscallPrint, t: Tables)
    requires id == FieldId(f.name) != 0 && !IsPacked(id)
    ensures !IsString(Masked(id))
    ensures var start := " -F " + ShownName(f.name) + Symbol(f.op);
            PlainText(id, v, OpValue(f.op), watch, sys, t) ==
            if id == 11 then ""
            else if id == 12 then
              match t.msgTypeName(v % 0x1_0000)
              case None => " f" + Numeral(12, 10) + Symbol(f.op) + Numeral(v, 10)
              case Some(name) => start + name
            else if id == 106 then (if watch then " -p " else " -F perm=") + PermLetters(v)
            else if id == 111 then t.fieldComparison(v, OpValue(f.op))
            else if 200 <= id <= 203 then
              if sys.count > 1 then start + "0x" + Numeral(v, 16)
              else
                match t.argument(id, sys.last, v)
                case None => ""
                case Some(text) => start + "0x" + text
            else start + Numeral(v, 10)
  {
    hide Masked, FieldId, OpValue, OpSymbol, FieldName, Numeral, PermLetters, ShownName, Symbol, And;
    MaskedId(id);
    NamesShown(f.name);
    NameNotEmpty(f.name);
    OperatorsShown(f.op);
  }

  /** Two kinds of field that only rules of other programs have: an executable, and a number without a name. */
  lemma ForeignFieldsShown(field: uint32, v: uint32, fieldflags: uint32, s: bytes, watch: bool, sys: SyscallPrint,
                           t: Tables)
    ensures Masked(field) == 112 ==> ShownText(field, v, fieldflags, s, watch, sys, t) == " -F exe=" + Str(s)
    ensures 24 <= Masked(field) < 100 || 113 <= Masked(field) < 200 || 204 <= Masked(field) < 210
            || 211 <= Masked(field) ==>
              ShownText(field, v, fieldflags, s, watch, sys, t) ==
              " f" + Numeral(field, 10) + OpSymbol(And(fieldflags, AUDIT_OPERATORS)) + Numeral(v, 10)
  {
    hide Masked, And, OpSymbol, Numeral, Str;
  }

  lemma NameNotEmpty(name: string)
    requires FieldId(name) != 0
    ensures ShownName(name) != ""
  {
  }

  lemma TwelveShown()
    ensures " f" + Numeral(12, 10) == " f12"
  {
    assert Numeral(1, 10) == "1" && Numeral(12, 10) == "12";
  }

  /** The letters of an accepted permission value; none when it is no string. */
  lemma LettersOfValue(val: FieldValue, host: Host, v: uint32)
    requires ValueOf(AUDIT_PERM, val, host) == Some(v)
    ensures PermLetters(v) == GivenLetters(GivenText(val))
  {
    hide PermBits, PermLetters, GivenLetters;
    if val.Text? {
      LettersExact(val.s);
    } else {
      NoLetters();
    }
  }

  lemma NoLetters()
    ensures PermLetters(0) == GivenLetters([])
  {
  }

  /** Slot `i` prints as the field it holds. */
  lemma SlotPrints(r: Rule, i: nat, f: FieldSpec, host: Host, watch: bool, sys: SyscallPrint, t: Tables)
    requires Shaped(r) && i < AUDIT_MAX_FIELDS && SlotHolds(r, i, f.name, OpValue(f.op), f.val, host)
    requires FieldId(f.name) != 0 && (IsPacked(FieldId(f.name)) <==> FieldEntry(f.val, f.name).Some?)
    ensures FieldText(f, host, watch, sys, t) ==
            ShownText(r.fields[i], r.values[i], r.fieldflags[i], TextOf(FieldEntry(f.val, f.name)), watch, sys, t)
  {
    hide Masked, FieldId, ValueOf, OpValue, OpSymbol, StringText, PlainText, Numeral, GivenLetters, PermLetters,
      KeysText, SplitKeys, Str, ShownName, Symbol, And, IsString;
    var id := FieldId(f.name);
    SpecialNumbers(f.name);
    OperatorsShown(f.op);
    if IsPacked(id) {
      StringsShown(id, r.values[i], f, watch, sys, t);
    } else {
      NumbersShown(id, r.values[i], f, watch, sys, t);
      TwelveShown();
      if id == 106 { LettersOfValue(f.val, host, r.values[i]); }
    }
  }

  lemma {:induction false} SuppliedIsFields(r: Rule, log: Log, fs: seq<FieldSpec>, i: nat, host: Host, watch: bool,
                                            sys: SyscallPrint, t: Tables)
    requires Shaped(r) && i <= r.fieldCount == |fs| <= AUDIT_MAX_FIELDS
    requires LogsFields(log, fs) && SlotsHold(r, 0, fs, host) && Laid(r, log)
    ensures SuppliedFrom(r, log, i, watch, sys, t) == FieldsText(fs[i..], host, watch, sys, t)
    decreases r.fieldCount - i
  {
    hide FieldEntry, ShownText, FieldText, Packed, FieldId, OpValue, ValueOf;
    if i < r.fieldCount {
      assert LiveSlot(r.fields[i], r.values[i], log[i]);
      assert SlotHolds(r, 0 + i, fs[i].name, OpValue(fs[i].op), fs[i].val, host);
      SlotPrints(r, i, fs[i], host, watch, sys, t);
      assert fs[i..][1..] == fs[i + 1..];
      SuppliedIsFields(r, log, fs, i + 1, host, watch, sys, t);
    }
  }

  /** The readers' kinds of field, for a number the builder uses. */
  lemma KindsAgree(r: Rule, log: Log, i: nat)
    requires Laid(r, log) && i < r.fieldCount
    ensures IsString(Masked(r.fields[i])) <==> IsPacked(r.fields[i])
    ensures IsString(Masked(r.fields[i])) && !Advances(Masked(r.fields[i])) <==> IsLabel(r.fields[i])
  {
    hide Masked, Packed;
    assert LiveSlot(r.fields[i], r.values[i], log[i]);
    MaskedId(r.fields[i]);
  }

  lemma LabelsStayLast(r: Rule, log: Log, fs: seq<FieldSpec>, host: Host)
    requires Laid(r, log) && Shaped(r) && r.fieldCount == |fs| <= AUDIT_MAX_FIELDS
    requires LogsFields(log, fs) && SlotsHold(r, 0, fs, host) && LabelsLastIn(fs)
    ensures LabelsLast(r)
  {
    hide Masked, Packed, IsString, Advances, FieldId, OpValue, IsLabel;
    forall i, j | 0 <= j < i < r.fieldCount && IsString(Masked(r.fields[i])) && IsString(Masked(r.fields[j]))
                  && !Advances(Masked(r.fields[j]))
      ensures r.values[j] == 0
    {
      KindsAgree(r, log, i);
      KindsAgree(r, log, j);
      assert SlotHolds(r, 0 + i, fs[i].name, OpValue(fs[i].op), fs[i].val, host);
      assert SlotHolds(r, 0 + j, fs[j].name, OpValue(fs[j].op), fs[j].val, host);
      assert LiveSlot(r.fields[j], r.values[j], log[j]);
      assert !LabelGiven(fs[j]);
    }
  }

  // ---------------------------------------------------------------------------
  // The heading
  // ---------------------------------------------------------------------------

  /** The first arch field, shown ahead of the syscalls. */
  function ArchOf(fs: seq<FieldSpec>): string {
    if fs == [] then ""
    else if fs[0].name == "arch" then "-F arch" + Symbol(fs[0].op) + "b64"
    else ArchOf(fs[1..])
  }

  lemma {:induction false} ArchShown(r: Rule, log: Log, fs: seq<FieldSpec>, i: nat, host: Host)
    requires Laid(r, log) && Shaped(r) && i <= r.fieldCount == |fs| <= AUDIT_MAX_FIELDS && SlotsHold(r, 0, fs, host)
    ensures ArchText(r, i) == ArchOf(fs[i..])
    decreases r.fieldCount - i
  {
    hide Masked, Packed, FieldId, OpValue, OpSymbol, Symbol, ValueOf, And;
    if i < r.fieldCount {
      assert SlotHolds(r, 0 + i, fs[i].name, OpValue(fs[i].op), fs[i].val, host);
      assert LiveSlot(r.fields[i], r.values[i], log[i]);
      MaskedId(r.fields[i]);
      SpecialNumbers(fs[i].name);
      OperatorsShown(fs[i].op);
      assert fs[i..][1..] == fs[i + 1..];
      ArchShown(r, log, fs, i + 1, host);
    }
  }

  /** All 63 words are full exactly when all 2016 numbers are in the mask. */
  lemma AllWordsIff(mask: seq<uint32>)
    requires |mask| == AUDIT_BITMASK_SIZE
    ensures AllWords(mask) <==> forall k: nat :: k < 2016 ==> InMask(mask, k)
  {
    hide Bit, Shift;
    ShiftWidth();
    forall i | 0 <= i < 63 ensures mask[i] == ALL_ONES <==> AllOnes(mask[i], 32) { OnesIff(mask[i], 32); }
    if forall k: nat :: k < 2016 ==> InMask(mask, k) {
      forall i | 0 <= i < 63 ensures AllOnes(mask[i], 32) {
        forall k | 0 <= k < 32 ensures Bit(mask[i], k) { assert InMask(mask, 32 * i + k); }
      }
    }
    if AllWords(mask) {
      forall k: nat | k < 2016 ensures InMask(mask, k) { assert AllOnes(mask[k / 32], 32); }
    }
  }

  lemma FiltersWithoutSyscalls()
    ensures NoSyscallFilter(0) && NoSyscallFilter(1) && NoSyscallFilter(5) && !NoSyscallFilter(4)
  {
    assert And(0, 7) == 0 && And(1, 7) == 1 && And(5, 7) == 5 && And(4, 7) == 4;
  }

  /**
   The syscalls a compiled rule shows: none on another filter than exit, "all" when
   all 2016 are named, and otherwise exactly those named, in ascending order.
   */
  lemma SyscallsPart(s: SyscallRule, flags: Flags, host: Host, t: Tables) returns (ms: seq<nat>)
    requires CompileSyscall(s, flags, host).1.Ready?
    ensures var r := CompileSyscall(s, flags, host).1.rule;
            && Shaped(r)
            && (r.flags != 4 ==> SyscallsShown(r, t) == SyscallPrint("", 0, 0, false))
            && (r.flags == 4 && (forall k: nat :: k < 2016 ==> Names(s.syscalls, k, host)) ==>
                  SyscallsShown(r, t) == SyscallPrint(" -S all", 63, 0, true))
            && (r.flags == 4 && !(forall k: nat :: k < 2016 ==> Names(s.syscalls, k, host)) ==>
                  SyscallsShown(r, t) ==
                  SyscallPrint(NameList(ms, t), |ms|, if ms == [] then 0 else ms[|ms| - 1], true))
    ensures forall i, j :: 0 <= i < j < |ms| ==> ms[i] < ms[j]
    ensures forall k: nat :: k in ms <==> k < 2048 && Names(s.syscalls, k, host)
  {
    hide CompileSyscall, InMask, Names, NameList, AllWords, NoSyscallFilter, SlotsHold, LastAction, Laid, FieldEntry;
    var r := CompileSyscall(s, flags, host).1.rule;
    ms := Members(r.mask, 2048);
    MembersExact(r.mask, 2048);
    forall k: nat ensures InMask(r.mask, k) <==> Names(s.syscalls, k, host) {
      SyscallRuleFaithful(s, flags, host, k);
    }
    AllWordsIff(r.mask);
    FiltersWithoutSyscalls();
    var _ := CompileSyscallLaid(s, flags, host);
  }

  // ---------------------------------------------------------------------------
  // The whole rule
  // ---------------------------------------------------------------------------

  /** The names a watch is made of. */
  predicate WatchName(name: string) {
    name in {"path", "dir", "perm", "key"}
  }

  lemma WatchNames(r: Rule, log: Log, fs: seq<FieldSpec>, i: nat, host: Host)
    requires Laid(r, log) && Shaped(r) && i < r.fieldCount == |fs| <= AUDIT_MAX_FIELDS && SlotsHold(r, 0, fs, host)
    ensures WatchField(Masked(r.fields[i])) <==> WatchName(fs[i].name)
    ensures Masked(r.fields[i]) == AUDIT_PERM <==> fs[i].name == "perm"
  {
    hide Masked, Packed, FieldId, OpValue, ValueOf;
    assert SlotHolds(r, 0 + i, fs[i].name, OpValue(fs[i].op), fs[i].val, host);
    assert LiveSlot(r.fields[i], r.values[i], log[i]);
    MaskedId(r.fields[i]);
    SpecialNumbers(fs[i].name);
  }

  /** A permission field is accepted on the exit filter only. */
  lemma PermMeansExit(s: SyscallRule, flags: Flags, host: Host, i: nat)
    requires CompileSyscall(s, flags, host).1.Ready? && i < |AllFields(s)| && AllFields(s)[i].name == "perm"
    ensures LastFilter(s.actions) == AUDIT_FILTER_EXIT
  {
    hide CompileSyscall, Selectable, NamesSome, FieldId, OpValue, ValueOf, LastFilter;
    SyscallRuleAccepted(s, flags, host);
    assert "key" != "perm";
    assert i < |s.fields| && AllFields(s)[i] == s.fields[i];
    assert FieldAdmitted(s.fields[i], LastFilter(s.actions), host);
    SpecialNumbers(s.fields[i].name);
  }

  /** A compiled syscall rule counts as a watch exactly when it is written like one, with permissions. */
  lemma CompiledWatchIff(s: SyscallRule, flags: Flags, host: Host)
    requires CompileSyscall(s, flags, host).1.Ready?
    ensures var r, fs := CompileSyscall(s, flags, host).1.rule, AllFields(s);
            && Shaped(r) && r.fieldCount <= AUDIT_MAX_FIELDS
            && (IsWatchRule(r) <==>
                  && (forall i :: 0 <= i < |fs| ==> WatchName(fs[i].name))
                  && (exists i :: 0 <= i < |fs| && fs[i].name == "perm")
                  && (forall k: nat :: k < 2016 ==> Names(s.syscalls, k, host)))
  {
    hide CompileSyscall, Laid, InMask, Names, AllWords, NoSyscallFilter, SlotsHold, LastAction, LastFilter, Masked,
      WatchField, WatchName, LogsFields;
    var r, fs := CompileSyscall(s, flags, host).1.rule, AllFields(s);
    var log := CompiledLog(s, flags, host);
    forall k: nat ensures InMask(r.mask, k) <==> Names(s.syscalls, k, host) {
      SyscallRuleFaithful(s, flags, host, k);
    }
    SyscallRuleFaithful(s, flags, host, 0);
    AllWordsIff(r.mask);
    FiltersWithoutSyscalls();
    forall i | 0 <= i < |fs|
      ensures WatchField(Masked(r.fields[i])) <==> WatchName(fs[i].name)
      ensures Masked(r.fields[i]) == AUDIT_PERM <==> fs[i].name == "perm"
    {
      WatchNames(r, log, fs, i, host);
    }
    if exists i :: 0 <= i < |fs| && fs[i].name == "perm" {
      var i :| 0 <= i < |fs| && fs[i].name == "perm";
      PermMeansExit(s, flags, host, i);
      assert Masked(r.fields[i]) == AUDIT_PERM;
    }
  }

  /**
   A compiled syscall rule prints as configured: action and filter by their words, the
   architecture, the syscalls, then field by field and the key, whenever no string is
   configured behind a non-empty security label.
   */
  lemma SyscallRulePrints(s: SyscallRule, flags: Flags, host: Host, t: Tables)
    requires CompileSyscall(s, flags, host).1.Ready? && LabelsLastIn(AllFields(s))
    ensures var r := CompileSyscall(s, flags, host).1.rule;
            && Shaped(r) && r.fieldCount <= AUDIT_MAX_FIELDS
            && PrintRule(r, t) ==
               Some((if IsWatchRule(r) then ""
                     else "-a " + LastActionWord(s.actions) + "," + LastFilterWord(s.actions) + ArchOf(AllFields(s))
                          + SyscallsShown(r, t).text)
                    + FieldsText(AllFields(s), host, IsWatchRule(r), SyscallsOf(r, t), t))
  {
    hide CompileSyscall, Laid, PrintRule, LabelsLast, LabelsLastIn, IsWatchRule, SyscallsShown, SuppliedFrom,
      FieldsText, LogsFields, SlotsHold, LastAction, LastFilter, ActionName, FlagName, ArchText, ArchOf, LastActionWord,
      LastFilterWord;
    var r := CompileSyscall(s, flags, host).1.rule;
    var log := CompiledLog(s, flags, host);
    SyscallRuleFaithful(s, flags, host, 0);
    var fs := AllFields(s);
    LabelsStayLast(r, log, fs, host);
    PrintsSupplied(r, log, t);
    SuppliedIsFields(r, log, fs, 0, host, IsWatchRule(r), SyscallsOf(r, t), t);
    ArchShown(r, log, fs, 0, host);
    LastWordsShown(s.actions);
    assert fs[0..] == fs;
  }

  // ---------------------------------------------------------------------------
  // A key behind a label
  // ---------------------------------------------------------------------------

  /** A rule with a security label and a key. */
  ghost predicate LabelAndKey(s: SyscallRule, op: string, subject: bytes, key: bytes) {
    s.fields == [FieldSpec("subj_user", op, Text(subject))] && s.key == Some(Text(key))
  }

  lemma LabelIds()
    ensures FieldId("subj_user") == AUDIT_SUBJ_USER && FieldId("key") == AUDIT_FILTERKEY
    ensures FieldName(AUDIT_SUBJ_USER) == "subj_user"
  {
    assert "key" != "uid" && "key" != "gid";
    assert "subj_user" != "subj_role" && "subj_user" != "subj_type" && "subj_user" != "subj_clr";
  }

  /** The layout of such a rule: the label, then the key, and the printer at offset zero for both. */
  lemma LabelAndKeyLaid(s: SyscallRule, op: string, subject: bytes, key: bytes, flags: Flags, host: Host)
    requires LabelAndKey(s, op, subject, key) && CompileSyscall(s, flags, host).1.Ready?
    ensures var r := CompileSyscall(s, flags, host).1.rule;
            && Laid(r, [Some(subject), Some(key)]) && Shaped(r) && r.fieldCount == 2
            && r.fields[0] == AUDIT_SUBJ_USER && r.fields[1] == AUDIT_FILTERKEY && r.fieldflags[0] == OpValue(op)
            && StringShown(r, 0) == subject && StringShown(r, 1) == (subject + key)[..|key|]
  {
    hide CompileSyscall, Masked, Packed, FieldId, OpValue, ValueOf;
    var r := CompileSyscall(s, flags, host).1.rule;
    var log := CompiledLog(s, flags, host);
    SyscallRuleFaithful(s, flags, host, 0);
    LabelIds();
    var fs := AllFields(s);
    assert SlotHolds(r, 0 + 0, fs[0].name, OpValue(fs[0].op), fs[0].val, host);
    assert SlotHolds(r, 0 + 1, fs[1].name, OpValue(fs[1].op), fs[1].val, host);
    assert log == [Some(subject), Some(key)];
    assert LiveSlot(r.fields[0], r.values[0], log[0]) && LiveSlot(r.fields[1], r.values[1], log[1]);
    MaskedId(r.fields[0]);
    assert PrintOffset(r, 0) == 0 && PrintOffset(r, 1) == 0;
    PackedNone();
    PackedSnoc([], log[0]);
    PackedSnoc([log[0]], log[1]);
    assert [] + [log[0]] == [log[0]] && [log[0]] + [log[1]] == log;
    assert [] + subject == subject;
    assert r.buf == subject + key;
    assert (subject + key)[..|subject|] == subject;
  }

  /**
   The condition is needed. For every label and key, a rule with both prints the
   label and then, in place of the key, as many bytes of the label and the key
   together as the key has. So a key that starts differently is never printed.
   */
  lemma LabelMisprintsKey(s: SyscallRule, op: string, subject: bytes, key: bytes, flags: Flags, host: Host, t: Tables)
    requires LabelAndKey(s, op, subject, key) && CompileSyscall(s, flags, host).1.Ready?
    ensures var r := CompileSyscall(s, flags, host).1.rule;
            var shown := (subject + key)[..|key|];
            && Shaped(r) && r.fieldCount <= AUDIT_MAX_FIELDS
            && PrintRule(r, t) ==
               Some(Heading(r, t) + (" -F subj_user" + OpSymbol(And(OpValue(op), AUDIT_OPERATORS)) + Str(subject)
                                     + KeysText(SplitKeys(shown, []), false)))
            && (subject != [] && key != [] && subject[0] != key[0] ==> shown != key)
  {
    hide CompileSyscall, Laid, PrintRule, Masked, And, OpSymbol, KeysText, SplitKeys, Str, OpValue, StringShown,
      Heading;
    var r := CompileSyscall(s, flags, host).1.rule;
    LabelAndKeyLaid(s, op, subject, key, flags, host);
    PrintInBounds(r, [Some(subject), Some(key)], t);
    LabelIds();
    MaskedId(r.fields[0]);
    MaskedId(r.fields[1]);
    LabelIsNoWatch(r);
    var sys := SyscallsOf(r, t);
    var op' := And(r.fieldflags[0], AUDIT_OPERATORS);
    assert ShownFrom(r, 2, false, sys, t) == "";
    var keys := KeysText(SplitKeys((subject + key)[..|key|], []), false);
    assert keys + "" == keys;
    assert ShownFrom(r, 1, false, sys, t) == keys;
    assert " -F " + "subj_user" == " -F subj_user";
    assert ShownFrom(r, 0, false, sys, t) == " -F subj_user" + OpSymbol(op') + Str(subject) + keys;
  }

  lemma LabelIsNoWatch(r: Rule)
    requires Shaped(r) && 1 <= r.fieldCount <= AUDIT_MAX_FIELDS && Masked(r.fields[0]) == AUDIT_SUBJ_USER
    ensures !IsWatchRule(r)
  {
    hide Masked;
    assert !WatchField(Masked(r.fields[0]));
  }
}
