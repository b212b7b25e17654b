/**
 File rules end to end: a configured path, permission string and key compile to
 a watch, and the watch prints as the configuration said.
 */
module FilePrint {
  import opened Words
  import opened Bits
  import opened Rules
  import opened RuleLayout
  import opened Config
  import opened CompileFacts
  import opened RulePrint

  // ---------------------------------------------------------------------------
  // Permission letters
  // ---------------------------------------------------------------------------

  /** `b` is the lower-case letter `c` or its capital. */
  predicate IsLetter(b: byte, c: byte) {
    b == c || b + 32 == c
  }

  /** The permission string contains the letter `c`, in either case. */
  ghost predicate HasLetter(perms: bytes, c: byte) {
    exists i :: 0 <= i < |perms| && IsLetter(perms[i], c)
  }

  /** The letters given, in the order r, w, x, a. */
  ghost function GivenLetters(perms: bytes): string {
    (if HasLetter(perms, 114) then "r" else "") + (if HasLetter(perms, 119) then "w" else "")
    + (if HasLetter(perms, 120) then "x" else "") + (if HasLetter(perms, 97) then "a" else "")
  }

  /** The bit that stands for a letter. */
  function LetterBit(c: byte): nat
    requires c in {114, 119, 120, 97}
  {
    if c == 114 then 2 else if c == 119 then 1 else if c == 120 then 0 else 3
  }

  lemma SmallShifts()
    ensures Shift(0) == 1 && Shift(1) == 2 && Shift(2) == 4 && Shift(3) == 8
  {
  }

  /** A permission value has exactly the bits of the letters given. */
  lemma {:induction false} PermBitsExact(perms: bytes, acc: uint32, c: byte)
    requires c in {114, 119, 120, 97} && PermBits(perms, acc).Some?
    ensures Bit(PermBits(perms, acc).value, LetterBit(c)) <==> Bit(acc, LetterBit(c)) || HasLetter(perms, c)
    decreases |perms|
  {
    hide Bit, Or, Shift;
    if perms != [] {
      SmallShifts();
      var bit := PermBit(perms[0]).value;
      var l := Lower(perms[0]);
      assert IsLetter(perms[0], c) <==> l == c;
      ShiftBit(LetterBit(l), LetterBit(c));
      OrBit(acc, bit, LetterBit(c));
      PermBitsExact(perms[1..], OrWord(acc, bit), c);
      LetterSplit(perms, c);
    }
  }

  lemma LetterSplit(perms: bytes, c: byte)
    requires perms != []
    ensures HasLetter(perms, c) <==> IsLetter(perms[0], c) || HasLetter(perms[1..], c)
  {
    hide IsLetter;
    if HasLetter(perms, c) {
      var i :| 0 <= i < |perms| && IsLetter(perms[i], c);
      if i > 0 { assert IsLetter(perms[1..][i - 1], c); }
    }
    if HasLetter(perms[1..], c) {
      var i :| 0 <= i < |perms[1..]| && IsLetter(perms[1..][i], c);
      assert IsLetter(perms[i + 1], c);
    }
  }

  /** A letter of permission strings, small or capital. */
  predicate IsPermLetter(b: byte) {
    IsLetter(b, 114) || IsLetter(b, 119) || IsLetter(b, 120) || IsLetter(b, 97)
  }

  /** A permission string is understood exactly when it has only such letters. */
  lemma {:induction false} PermBitsIff(perms: bytes, acc: uint32)
    ensures PermBits(perms, acc).Some? <==> forall i :: 0 <= i < |perms| ==> IsPermLetter(perms[i])
    decreases |perms|
  {
    hide OrWord;
    if perms != [] {
      var rest := perms[1..];
      if PermBit(perms[0]).Some? { PermBitsIff(rest, OrWord(acc, PermBit(perms[0]).value)); }
      if IsPermLetter(perms[0]) && forall i :: 0 <= i < |rest| ==> IsPermLetter(rest[i]) {
        forall i | 0 <= i < |perms| ensures IsPermLetter(perms[i]) { if i > 0 { assert perms[i] == rest[i - 1]; } }
      }
      if forall i :: 0 <= i < |perms| ==> IsPermLetter(perms[i]) {
        forall i | 0 <= i < |rest| ensures IsPermLetter(rest[i]) { assert rest[i] == perms[i + 1]; }
      }
    }
  }

  lemma LettersExact(perms: bytes)
    requires PermBits(perms, 0).Some?
    ensures PermLetters(PermBits(perms, 0).value) == GivenLetters(perms)
  {
    hide Bit, And, PermBits, HasLetter, Shift;
    var v := PermBits(perms, 0).value;
    SmallShifts();
    forall c: byte | c in {114, 119, 120, 97}
      ensures And(v, Shift(LetterBit(c))) > 0 <==> HasLetter(perms, c)
    {
      PermBitsExact(perms, 0, c);
      BitZero(LetterBit(c));
      TestBit(v, LetterBit(c));
    }
    assert Shift(LetterBit(114)) == AUDIT_PERM_READ && Shift(LetterBit(119)) == AUDIT_PERM_WRITE;
    assert Shift(LetterBit(120)) == AUDIT_PERM_EXEC && Shift(LetterBit(97)) == AUDIT_PERM_ATTR;
  }

  lemma AllLetters()
    ensures PermLetters(PERM_ALL) == "rwxa"
  {
    assert And(15, 4) > 0 && And(15, 2) > 0 && And(15, 1) > 0 && And(15, 8) > 0;
  }

  // ---------------------------------------------------------------------------
  // Keys
  // ---------------------------------------------------------------------------

  /** A key without the separator stays in one piece. */
  lemma {:induction false} SplitPlain(s: bytes, acc: bytes)
    requires !Contains(s, KEY_SEPARATOR)
    ensures SplitKeys(s, acc) == [acc + s]
    decreases |s|
  {
    if s != [] {
      assert s[0..] == s;
      SplitPlain(s[1..], acc + [s[0]]);
      assert acc + [s[0]] + s[1..] == acc + s;
    } else {
      assert acc + s == acc;
    }
  }

  ghost function KeyPart(key: Option<FieldValue>): string {
    if key.Some? && key.value.Text? then KeysText(SplitKeys(key.value.s, []), true) else ""
  }

  /** A key without the separator is printed once and unchanged. */
  lemma PlainKey(s: bytes, watch: bool)
    requires !Contains(s, KEY_SEPARATOR)
    ensures KeysText(SplitKeys(s, []), watch) == (if watch then " -k " else " -F key=") + Str(s)
  {
    hide Contains, SplitKeys;
    SplitPlain(s, []);
    assert [] + s == s;
    var rest: seq<bytes> := [s][1..];
    assert rest == [] && KeysText(rest, watch) == "";
    var start := if watch then " -k " else " -F key=";
    assert KeysText([s], watch) == start + Str(s) + "";
    assert start + Str(s) + "" == start + Str(s);
  }

  lemma PlainKeyPart(s: bytes)
    requires !Contains(s, KEY_SEPARATOR)
    ensures KeyPart(Some(Text(s))) == " -k " + Str(s)
  {
    hide Contains, SplitKeys;
    PlainKey(s, true);
  }

  lemma SplitStep(s: bytes, acc: bytes)
    requires s != [] && !(KEY_SEPARATOR <= s)
    ensures SplitKeys(s, acc) == SplitKeys(s[1..], acc + [s[0]])
  {
  }

  lemma SplitCut(rest: bytes, acc: bytes)
    ensures SplitKeys([92, 48] + rest, acc) == [acc] + SplitKeys(rest, [])
  {
    assert ([92, 48] + rest)[2..] == rest;
  }

  lemma {:induction false} SplitBehind(a: bytes, rest: bytes, acc: bytes)
    requires !Contains(a, KEY_SEPARATOR)
    ensures SplitKeys(a + ([92, 48] + rest), acc) == [acc + a] + SplitKeys(rest, [])
    decreases |a|
  {
    hide Contains, SplitKeys;
    var s := a + ([92, 48] + rest);
    if a == [] {
      assert s == [92, 48] + rest && acc + a == acc;
      SplitCut(rest, acc);
    } else {
      ContainsStep(a);
      NoSeparator(a, rest);
      SplitStep(s, acc);
      assert s[1..] == a[1..] + ([92, 48] + rest) && s[0] == a[0];
      SplitBehind(a[1..], rest, acc + [a[0]]);
      assert acc + [a[0]] + a[1..] == acc + a;
    }
  }

  lemma ContainsStep(a: bytes)
    requires a != [] && !Contains(a, KEY_SEPARATOR)
    ensures !(KEY_SEPARATOR <= a) && !Contains(a[1..], KEY_SEPARATOR)
  {
  }

  lemma NoSeparator(a: bytes, rest: bytes)
    requires a != [] && !(KEY_SEPARATOR <= a)
    ensures !(KEY_SEPARATOR <= a + ([92, 48] + rest))
  {
    var s := a + ([92, 48] + rest);
    assert s[0] == a[0];
    if |a| == 1 { assert s[1] == 92; } else { assert s[1] == a[1]; }
  }

  /** Several keys in one field are printed one after the other. */
  lemma KeysApart(a: bytes, rest: bytes, watch: bool)
    requires !Contains(a, KEY_SEPARATOR)
    ensures KeysText(SplitKeys(a + ([92, 48] + rest), []), watch) ==
            (if watch then " -k " else " -F key=") + Str(a) + KeysText(SplitKeys(rest, []), watch)
  {
    hide Contains, SplitKeys;
    SplitBehind(a, rest, []);
    assert [] + a == a;
    var pieces := [a] + SplitKeys(rest, []);
    assert pieces[1..] == SplitKeys(rest, []);
  }

  // ---------------------------------------------------------------------------
  // Shape of a compiled file rule
  // ---------------------------------------------------------------------------

  ghost function PermValue(permission: Option<bytes>): uint32 {
    if permission.Some? && PermBits(permission.value, 0).Some? then PermBits(permission.value, 0).value else PERM_ALL
  }

  /** A directory is watched as a tree, everything else as a single path. */
  function KindOf(path: bytes, host: Host): (kind: uint32) {
    if host.stat(TrimSlashes(path)) == Directory then 107 else 105
  }

  /** Path of the given kind, permissions, optionally a key, all by equality; every syscall. */
  ghost predicate FileShape(r: Rule, kind: uint32, perms: uint32, keyed: bool) {
    && Shaped(r)
    && r.fieldCount == (if keyed then 3 else 2)
    && kind in {AUDIT_WATCH, AUDIT_DIR}
    && r.fields[0] == kind && r.fields[1] == AUDIT_PERM && r.values[1] == perms
    && (keyed ==> r.fields[2] == AUDIT_FILTERKEY)
    && (forall i :: 0 <= i < r.fieldCount ==> r.fieldflags[i] == 0x4000_0000)
    && AllWords(r.mask)
  }

  lemma WatchShape(path: bytes, strict: bool, host: Host)
    requires path != []
    ensures var (r, err) := SetupWatch(Blank(), path, strict, host);
            err.None? ==> FileShape(r, KindOf(path, host), PERM_ALL, false)
  {
    hide Contains;
  }

  lemma PermShape(r: Rule, kind: uint32, permission: Option<bytes>)
    requires FileShape(r, kind, PERM_ALL, false)
    ensures var (r', err) := WithPermission(r, permission);
            err.None? ==> FileShape(r', kind, PermValue(permission), false)
  {
    hide PermBits;
    if permission.Some? { assert r.fields[1] in r.fields; }
  }

  lemma KeyShape(r: Rule, kind: uint32, perms: uint32, flags: Flags, key: Option<FieldValue>, host: Host)
    requires FileShape(r, kind, perms, false)
    ensures var b := WithKey(r, flags, key, host);
            b.err.None? ==> FileShape(b.rule, kind, perms, key.Some?) && (key.Some? ==> key.value.Text?)
  {
    if key.Some? { KeyFieldId(); }
  }

  lemma KeyFieldId()
    ensures FieldId("key") == AUDIT_FILTERKEY
  {
    assert "key" != "uid" && "key" != "gid";
  }

  lemma CompiledShape(f: FileRule, flags: Flags, strict: bool, host: Host)
    ensures var c := CompileFile(f, flags, strict, host).1;
            c.Ready? ==>
              && f.path.Some?
              && FileShape(c.rule, KindOf(f.path.value, host), PermValue(f.permission), f.key.Some?)
              && c.rule.flags == 4 && c.rule.action == 2
              && (f.key.Some? ==> f.key.value.Text?)
              && (f.permission.Some? ==> PermBits(f.permission.value, 0).Some?)
  {
    hide AddField, SetupWatch, WithPermission, WithKey, PermBits;
    var c := CompileFile(f, flags, strict, host).1;
    if c.Ready? {
      WatchShape(f.path.value, strict, host);
      var r1 := SetupWatch(Blank(), f.path.value, strict, host).0;
      var kind := KindOf(f.path.value, host);
      PermShape(r1, kind, f.permission);
      PermGiven(r1, f.permission);
      var r2 := WithPermission(r1, f.permission).0;
      KeyShape(r2, kind, PermValue(f.permission), flags.(syscall := true), f.key, host);
    }
  }

  lemma PermGiven(r: Rule, permission: Option<bytes>)
    requires Shaped(r) && WithPermission(r, permission).1.None?
    ensures permission.Some? ==> PermBits(permission.value, 0).Some?
  {
    hide PermBits;
  }

  // ---------------------------------------------------------------------------
  // A compiled file rule is a watch and prints as configured
  // ---------------------------------------------------------------------------

  lemma ShapeIsWatch(r: Rule, kind: uint32, perms: uint32, keyed: bool)
    requires FileShape(r, kind, perms, keyed)
    ensures IsWatchRule(r)
  {
    hide Masked;
    MaskedId(r.fields[0]);
    MaskedId(r.fields[1]);
    if keyed { MaskedId(r.fields[2]); }
    forall i | 0 <= i < r.fieldCount ensures WatchField(Masked(r.fields[i])) {
      assert i == 0 || i == 1 || i == 2;
    }
    assert Masked(r.fields[1]) == AUDIT_PERM;
  }

  lemma PathSlot(r: Rule, log: Log, kind: uint32, perms: uint32, keyed: bool, sys: SyscallPrint, t: Tables)
    requires Laid(r, log) && FileShape(r, kind, perms, keyed) && log[0].Some?
    ensures SlotText(r, 0, 0, true, sys, t) == Some(("-w " + Str(log[0].value), r.values[0]))
  {
    hide Masked, Packed, Str, AllWords, And, PlainText, PrintOffset, KeysText, SplitKeys;
    MaskedId(r.fields[0]);
    StringAt(r, log, 0);
    assert Offset(r, 0) == 0;
  }

  lemma PermissionSlot(r: Rule, kind: uint32, perms: uint32, keyed: bool, offset: nat, sys: SyscallPrint, t: Tables)
    requires FileShape(r, kind, perms, keyed)
    ensures SlotText(r, 1, offset, true, sys, t) == Some((" -p " + PermLetters(perms), offset))
  {
    hide Masked, PermLetters, Numeral;
    MaskedId(r.fields[1]);
    assert FieldName(AUDIT_PERM) == "perm";
  }

  lemma KeySlot(r: Rule, log: Log, kind: uint32, perms: uint32, sys: SyscallPrint, t: Tables)
    requires Laid(r, log) && FileShape(r, kind, perms, true) && log[2].Some?
    ensures SlotText(r, 2, r.values[0], true, sys, t)
         == Some((KeysText(SplitKeys(log[2].value, []), true), r.values[0] + r.values[2]))
  {
    hide Masked, Packed, SplitKeys, KeysText, AllWords, And, PlainText, PrintOffset;
    MaskedId(r.fields[0]);
    MaskedId(r.fields[1]);
    MaskedId(r.fields[2]);
    StringAt(r, log, 2);
    assert Offset(r, 0) == 0;
    assert Offset(r, 1) == r.values[0];
    assert Offset(r, 2) == r.values[0];
  }

  lemma ShapePrints(r: Rule, log: Log, kind: uint32, perms: uint32, keyed: bool, t: Tables)
    requires Laid(r, log) && FileShape(r, kind, perms, keyed) && log[0].Some? && (keyed ==> log[2].Some?)
    ensures PrintRule(r, t) == Some("-w " + Str(log[0].value) + (" -p " + PermLetters(perms)
                               + if keyed then KeysText(SplitKeys(log[2].value, []), true) else ""))
  {
    hide Laid, SlotText, Str, PermLetters, SplitKeys, KeysText, IsWatchRule, SyscallsShown;
    ShapeIsWatch(r, kind, perms, keyed);
    var sys := SyscallPrint("", 0, 0, false);
    PathSlot(r, log, kind, perms, keyed, sys, t);
    PermissionSlot(r, kind, perms, keyed, r.values[0], sys, t);
    LaidCount(r, log);
    var offset: nat := r.values[0];
    var keys := if keyed then KeysText(SplitKeys(log[2].value, []), true) else "";
    if keyed {
      KeySlot(r, log, kind, perms, sys, t);
      assert SlotsText(r, 3, offset + (r.values[2] as int), true, sys, t) == Some("");
      assert keys + "" == keys;
      assert SlotsText(r, 2, offset, true, sys, t) == Some(keys);
    }
    assert SlotsText(r, 2, offset, true, sys, t) == Some(keys);
    assert SlotsText(r, 1, offset, true, sys, t) == Some(" -p " + PermLetters(perms) + keys);
  }

  /** The path without trailing slashes, the permission letters in the order rwxa, then the keys. */
  lemma FileRulePrints(f: FileRule, flags: Flags, strict: bool, host: Host, t: Tables)
    requires CompileFile(f, flags, strict, host).1.Ready?
    ensures var r := CompileFile(f, flags, strict, host).1.rule;
            && f.path.Some? && Shaped(r) && r.fieldCount <= AUDIT_MAX_FIELDS
            && IsWatchRule(r)
            && PrintRule(r, t) ==
               Some("-w " + Str(TrimSlashes(f.path.value))
                    + (" -p " + (if f.permission.Some? then GivenLetters(f.permission.value) else "rwxa")
                       + KeyPart(f.key)))
  {
    hide Laid, CompileFile, PermLetters, GivenLetters, KeysText, SplitKeys, Str, PrintRule, IsWatchRule, PermBits,
      FieldId;
    var r := CompileFile(f, flags, strict, host).1.rule;
    CompiledShape(f, flags, strict, host);
    CompileFileLaid(f, flags, strict, host);
    KeyFieldId();
    var log := [Some(TrimSlashes(f.path.value)), None] + KeyEntry(f.key);
    var kind := KindOf(f.path.value, host);
    ShapeIsWatch(r, kind, PermValue(f.permission), f.key.Some?);
    ShapePrints(r, log, kind, PermValue(f.permission), f.key.Some?, t);
    if f.permission.Some? { LettersExact(f.permission.value); } else { AllLetters(); }
  }

  // ---------------------------------------------------------------------------
  // Which file rules are accepted, and what they become
  // ---------------------------------------------------------------------------

  /** `b` occurs twice in a row. */
  ghost predicate Doubled(s: bytes, b: byte) {
    exists i :: 0 <= i < |s| - 1 && s[i] == b && s[i + 1] == b
  }

  /** What is asked of the path itself: not too long, absolute, and a plain last component. */
  ghost predicate PathAccepted(path: bytes, host: Host) {
    && path != [] && |path| < 4096 && path[0] == 47 && |host.base(path)| <= 255
    && !Doubled(host.base(path), 46) && 42 !in host.base(path) && 63 !in host.base(path)
  }

  /** What is asked of the file system: an answer, and an existing file if the check is strict. */
  ghost predicate PlaceAccepted(path: bytes, strict: bool, host: Host) {
    var found := host.stat(TrimSlashes(path));
    found != StatError && (strict ==> found != Missing)
  }

  ghost predicate PermissionAccepted(permission: Option<bytes>) {
    permission.Some? ==>
      |permission.value| <= 4 && forall i :: 0 <= i < |permission.value| ==> IsPermLetter(permission.value[i])
  }

  ghost predicate KeyAccepted(key: Option<FieldValue>) {
    key.Some? ==> key.value.Text? && |key.value.s| <= 256
  }

  lemma ContainsByte(s: bytes, b: byte)
    ensures Contains(s, [b]) <==> b in s
  {
    hide Contains;
    forall i | 0 <= i < |s| ensures [b] <= s[i..] <==> s[i] == b { assert s[i..][0] == s[i]; }
  }

  lemma ContainsPair(s: bytes, b: byte)
    ensures Contains(s, [b, b]) <==> Doubled(s, b)
  {
    hide Contains;
    forall i | 0 <= i < |s| - 1 ensures [b, b] <= s[i..] <==> s[i] == b && s[i + 1] == b {
      assert s[i..][0] == s[i] && s[i..][1] == s[i + 1];
    }
    if Contains(s, [b, b]) {
      var i :| 0 <= i <= |s| && [b, b] <= s[i..];
      assert s[i] == b && s[i + 1] == b;
    }
    if Doubled(s, b) {
      var i :| 0 <= i < |s| - 1 && s[i] == b && s[i + 1] == b;
      assert [b, b] <= s[i..];
    }
  }

  lemma CheckPathIff(path: bytes, host: Host)
    requires path != []
    ensures CheckPath(path, host) == None <==> PathAccepted(path, host)
  {
    hide Contains, Doubled;
    ContainsPair(host.base(path), 46);
    ContainsByte(host.base(path), 42);
    ContainsByte(host.base(path), 63);
  }

  lemma SetupWatchIff(path: bytes, strict: bool, host: Host)
    requires path != []
    ensures SetupWatch(Blank(), path, strict, host).1 == None <==>
            PathAccepted(path, host) && PlaceAccepted(path, strict, host)
  {
    hide CheckPath, PathAccepted, AllSyscalls;
    CheckPathIff(path, host);
  }

  /** Which error a path gives: its own form first, then what the file system says. */
  lemma PathErrors(path: bytes, strict: bool, host: Host)
    requires path != []
    ensures var base, found := host.base(path), host.stat(TrimSlashes(path));
            var (r, err) := SetupWatch(Blank(), path, strict, host);
            && (err.Some? ==> r == Blank())
            && err == if |path| >= 4096 then Some(PathTooBig)
                      else if path[0] != 47 then Some(PathStart)
                      else if |base| > 255 then Some(BaseTooBig)
                      else if Doubled(base, 46) then Some(RelativePath)
                      else if 42 in base || 63 in base then Some(Wildcard)
                      else if found == StatError then Some(StatFailed)
                      else if found == Missing && strict then Some(NoSuchFile)
                      else None
  {
    hide Contains, Doubled, AllSyscalls;
    ContainsPair(host.base(path), 46);
    ContainsByte(host.base(path), 42);
    ContainsByte(host.base(path), 63);
  }

  lemma PermissionIff(r: Rule, kind: uint32, permission: Option<bytes>)
    requires FileShape(r, kind, PERM_ALL, false)
    ensures WithPermission(r, permission).1 == None <==> PermissionAccepted(permission)
  {
    hide PermBits, IsPermLetter;
    if permission.Some? {
      PermBitsIff(permission.value, 0);
      assert r.fields[1] in r.fields;
    }
  }

  lemma KeyIff(r: Rule, p: bool, key: Option<FieldValue>, host: Host)
    requires Shaped(r) && r.fieldCount == 2
    ensures WithKey(r, Flags(p, true), key, host).err == None <==> KeyAccepted(key)
  {
    hide AddField, FieldId;
    if key.Some? {
      KeyFieldId();
      FieldAccepted(r, Flags(p, true), key.value, AUDIT_EQUAL, "key", AUDIT_FILTER_UNSET, host);
    }
  }

  /** A file rule is accepted if and only if path, place, permission string and key each are. */
  lemma FileRuleAccepted(f: FileRule, flags: Flags, strict: bool, host: Host)
    ensures CompileFile(f, flags, strict, host).1.Ready? <==>
            && f.path.Some? && PathAccepted(f.path.value, host) && PlaceAccepted(f.path.value, strict, host)
            && PermissionAccepted(f.permission) && KeyAccepted(f.key)
  {
    hide SetupWatch, WithPermission, WithKey, PlaceAccepted, PermissionAccepted, KeyAccepted;
    if f.path.Some? && f.path.value != [] {
      var path := f.path.value;
      SetupWatchIff(path, strict, host);
      WatchShape(path, strict, host);
      var (r1, e1) := SetupWatch(Blank(), path, strict, host);
      if e1.None? {
        PermissionIff(r1, KindOf(path, host), f.permission);
        PermShape(r1, KindOf(path, host), f.permission);
        var (r2, e2) := WithPermission(r1, f.permission);
        if e2.None? { KeyIff(r2, flags.perm, f.key, host); }
      }
    }
  }

  /**
   What an accepted file rule becomes: a directory field exactly for a directory, the
   permissions and the key given, all by equality, every syscall, always on exit.
   */
  lemma FileRuleFaithful(f: FileRule, flags: Flags, strict: bool, host: Host)
    requires CompileFile(f, flags, strict, host).1.Ready?
    ensures var r := CompileFile(f, flags, strict, host).1.rule;
            && f.path.Some? && Shaped(r) && r.flags == 4 && r.action == 2
            && r.fieldCount == (if f.key.Some? then 3 else 2)
            && (r.fields[0] == 107 <==> host.stat(TrimSlashes(f.path.value)) == Directory)
            && (r.fields[0] == 105 <==> host.stat(TrimSlashes(f.path.value)) != Directory)
            && r.values[0] == |TrimSlashes(f.path.value)|
            && r.fields[1] == 106
            && (f.permission.None? ==> r.values[1] == 15)
            && (f.permission.Some? ==> PermLetters(r.values[1]) == GivenLetters(f.permission.value))
            && (f.key.Some? ==> f.key.value.Text? && r.fields[2] == 210 && r.values[2] == |f.key.value.s|)
            && (forall i :: 0 <= i < r.fieldCount ==> r.fieldflags[i] == 0x4000_0000)
            && (forall i :: 0 <= i < 63 ==> r.mask[i] == 0xFFFF_FFFF)
  {
    hide CompileFile, PermBits, PermLetters, GivenLetters, Packed, FieldId;
    var r := CompileFile(f, flags, strict, host).1.rule;
    CompiledShape(f, flags, strict, host);
    CompileFileLaid(f, flags, strict, host);
    KeyFieldId();
    var log := [Some(TrimSlashes(f.path.value)), None] + KeyEntry(f.key);
    assert LiveSlot(r.fields[0], r.values[0], log[0]);
    if f.key.Some? { assert LiveSlot(r.fields[2], r.values[2], log[2]); }
    if f.permission.Some? { LettersExact(f.permission.value); }
  }
}
