/**
 What a SetRules run guarantees: its outcome does not depend on earlier runs,
 the rules it returns are determined section by section, and every rule it
 installs is well laid out.
 */
module InstallFacts {
  import opened Words
  import opened Netlink
  import opened Connection
  import opened Rules
  import opened RuleLayout
  import opened RuleWire
  import opened Config
  import opened CompileFacts
  import opened Install

  // ---------------------------------------------------------------------------
  // History
  // ---------------------------------------------------------------------------

  /** The same state up to the process-wide flags. */
  ghost predicate Agree(a: Session, b: Session) {
    a.w == b.w && a.rules == b.rules && a.stop == b.stop
  }

  lemma {:induction false} FilesHistoryFree(a: Session, b: Session, files: seq<FileRule>, cx: Context)
    requires Open(a.w) && Agree(a, b)
    ensures Agree(FileSteps(a, files, cx), FileSteps(b, files, cx))
    decreases |files|
  {
    hide CompileFile, AskedRule;
    if a.stop.None? && files != [] {
      FileHistoryFree(files[0], a.flags, b.flags, cx.strict, cx.host);
      FilesHistoryFree(FileStep(a, files[0], cx), FileStep(b, files[0], cx), files[1..], cx);
    }
  }

  lemma {:induction false} SyscallsHistoryFree(a: Session, b: Session, rules: seq<SyscallRule>, cx: Context)
    requires Open(a.w) && Agree(a, b) && a.flags.syscall == b.flags.syscall
    ensures Agree(SyscallSteps(a, rules, cx), SyscallSteps(b, rules, cx))
    decreases |rules|
  {
    hide CompileSyscall, AskedRule;
    if a.stop.None? && rules != [] {
      SyscallHistoryFree(rules[0], a.flags, b.flags, cx.host);
      SyscallsHistoryFree(SyscallStep(a, rules[0], cx), SyscallStep(b, rules[0], cx), rules[1..], cx);
    }
  }

  /** The whole run, what it sends, receives and returns, does not depend on the flags it starts with. */
  lemma {:induction false} HistoryFree(a: Session, b: Session, sections: seq<Section>, cx: Context)
    requires Open(a.w) && Agree(a, b)
    ensures Agree(SectionSteps(a, sections, cx), SectionSteps(b, sections, cx))
    decreases |sections|
  {
    hide FileSteps, SyscallSteps;
    if a.stop.None? && sections != [] {
      var a0, b0 := a.(flags := a.flags.(syscall := false)), b.(flags := b.flags.(syscall := false));
      match sections[0] {
        case FileRules(files) => FilesHistoryFree(a0, b0, files, cx);
        case SyscallRules(rules) => SyscallsHistoryFree(a0, b0, rules, cx);
        case OtherKey =>
      }
      HistoryFree(SectionStep(a, sections[0], cx), SectionStep(b, sections[0], cx), sections[1..], cx);
    }
  }

  // ---------------------------------------------------------------------------
  // Section by section
  // ---------------------------------------------------------------------------

  /** The rules of a list of file rules, each compiled on its own. */
  function FileRulesOf(files: seq<FileRule>, cx: Context): Option<seq<Rule>>
    decreases |files|
  {
    if files == [] then Some([])
    else
      match (CompileFile(files[0], Flags(false, false), cx.strict, cx.host).1, FileRulesOf(files[1..], cx))
      case (Ready(r), Some(rest)) => Some([r] + rest)
      case _ => None
  }

  /** The rules of a list of syscall rules; `added` says whether an earlier one named a known syscall. */
  function SyscallRulesOf(rules: seq<SyscallRule>, added: bool, cx: Context): Option<seq<Rule>>
    decreases |rules|
  {
    if rules == [] then Some([])
    else
      var (flags, c) := CompileSyscall(rules[0], Flags(false, added), cx.host);
      match (c, SyscallRulesOf(rules[1..], flags.syscall, cx))
      case (Ready(r), Some(rest)) => Some([r] + rest)
      case _ => None
  }

  /** What a section compiles to, as a function of the section alone. */
  function RulesOf(section: Section, cx: Context): Option<seq<Rule>> {
    match section
    case FileRules(files) => FileRulesOf(files, cx)
    case SyscallRules(rules) => SyscallRulesOf(rules, false, cx)
    case OtherKey => Some([])
  }

  lemma {:induction false} FilesBySection(st: Session, files: seq<FileRule>, cx: Context)
    requires Open(st.w) && FileSteps(st, files, cx).stop.None?
    ensures FileRulesOf(files, cx).Some?
    ensures FileSteps(st, files, cx).rules == st.rules + FileRulesOf(files, cx).value
    decreases |files|
  {
    hide CompileFile, AskedRule;
    if files == [] {
      assert st.rules + [] == st.rules;
    } else {
      FileHistoryFree(files[0], st.flags, Flags(false, false), cx.strict, cx.host);
      var next := FileStep(st, files[0], cx);
      FilesBySection(next, files[1..], cx);
      assert st.rules + ([next.rules[|st.rules|]] + FileRulesOf(files[1..], cx).value) ==
             next.rules + FileRulesOf(files[1..], cx).value;
    }
  }

  lemma {:induction false} SyscallsBySection(st: Session, rules: seq<SyscallRule>, cx: Context)
    requires Open(st.w) && SyscallSteps(st, rules, cx).stop.None?
    ensures SyscallRulesOf(rules, st.flags.syscall, cx).Some?
    ensures SyscallSteps(st, rules, cx).rules == st.rules + SyscallRulesOf(rules, st.flags.syscall, cx).value
    decreases |rules|
  {
    hide CompileSyscall, AskedRule;
    if rules == [] {
      assert st.rules + [] == st.rules;
    } else {
      SyscallHistoryFree(rules[0], st.flags, Flags(false, st.flags.syscall), cx.host);
      var next := SyscallStep(st, rules[0], cx);
      SyscallsBySection(next, rules[1..], cx);
      var rest := SyscallRulesOf(rules[1..], next.flags.syscall, cx).value;
      assert st.rules + ([next.rules[|st.rules|]] + rest) == next.rules + rest;
    }
  }

  /** The rules of all sections, in the order the sections are visited. */
  ghost function AllRulesOf(sections: seq<Section>, cx: Context): seq<Rule>
    decreases |sections|
  {
    if sections == [] then []
    else (if RulesOf(sections[0], cx).Some? then RulesOf(sections[0], cx).value else []) + AllRulesOf(sections[1..], cx)
  }

  /**
   When a run gets through all sections, the rules it returns are those of each
   section on its own, whatever came before: neither the starting flags nor the
   other sections matter.
   */
  lemma {:induction false} BySection(st: Session, sections: seq<Section>, cx: Context)
    requires Open(st.w) && SectionSteps(st, sections, cx).stop.None?
    ensures forall i :: 0 <= i < |sections| ==> RulesOf(sections[i], cx).Some?
    ensures SectionSteps(st, sections, cx).rules == st.rules + AllRulesOf(sections, cx)
    decreases |sections|
  {
    hide FileSteps, SyscallSteps, FileRulesOf, SyscallRulesOf;
    if sections == [] {
      assert st.rules + [] == st.rules;
    } else {
      var st0 := st.(flags := st.flags.(syscall := false));
      var next := SectionStep(st, sections[0], cx);
      match sections[0] {
        case FileRules(files) => StopsFirst(next, sections[1..], cx); FilesBySection(st0, files, cx);
        case SyscallRules(rules) => StopsFirst(next, sections[1..], cx); SyscallsBySection(st0, rules, cx);
        case OtherKey => assert st.rules + [] == st.rules;
      }
      BySection(next, sections[1..], cx);
      forall i | 0 <= i < |sections| ensures RulesOf(sections[i], cx).Some? {
        if i > 0 { assert sections[i] == sections[1..][i - 1]; }
      }
    }
  }

  /** A stopped run stays stopped. */
  lemma StopsFirst(st: Session, sections: seq<Section>, cx: Context)
    requires Open(st.w) && SectionSteps(st, sections, cx).stop.None?
    ensures st.stop.None?
  {
  }

  /** Visiting two sections in the other order gives the same rules for each of them. */
  lemma SectionOrder(a: Session, b: Session, one: Section, two: Section, cx: Context)
    requires Open(a.w) && Open(b.w) && a.rules == [] && b.rules == []
    requires SectionSteps(a, [one, two], cx).stop.None? && SectionSteps(b, [two, one], cx).stop.None?
    ensures RulesOf(one, cx).Some? && RulesOf(two, cx).Some?
    ensures SectionSteps(a, [one, two], cx).rules == RulesOf(one, cx).value + RulesOf(two, cx).value
    ensures SectionSteps(b, [two, one], cx).rules == RulesOf(two, cx).value + RulesOf(one, cx).value
  {
    hide SectionSteps, RulesOf;
    var ab, ba := [one, two], [two, one];
    BySection(a, ab, cx);
    BySection(b, ba, cx);
    assert ab[0] == one && ab[1] == two;
    assert ab[1..] == [two] && [two][1..] == [] && ba[1..] == [one] && [one][1..] == [];
    assert AllRulesOf([], cx) == [];
    assert AllRulesOf([two], cx) == RulesOf(two, cx).value && AllRulesOf([one], cx) == RulesOf(one, cx).value;
  }

  // ---------------------------------------------------------------------------
  // Neither "no prior syscall" error can be returned
  // ---------------------------------------------------------------------------

  ghost predicate NoPrior(stop: Option<SetResult>) {
    stop == Some(Returned([], Some(Compile(Build(NoPriorSyscall)))))
  }

  lemma {:induction false} FilesNeverNoPrior(st: Session, files: seq<FileRule>, cx: Context)
    requires Open(st.w) && !NoPrior(st.stop)
    ensures !NoPrior(FileSteps(st, files, cx).stop)
    decreases |files|
  {
    hide CompileFile, AskedRule;
    if st.stop.None? && files != [] {
      FileHistoryFree(files[0], st.flags, st.flags, cx.strict, cx.host);
      FilesNeverNoPrior(FileStep(st, files[0], cx), files[1..], cx);
    }
  }

  lemma {:induction false} SyscallsNeverNoPrior(st: Session, rules: seq<SyscallRule>, cx: Context)
    requires Open(st.w) && !NoPrior(st.stop)
    ensures !NoPrior(SyscallSteps(st, rules, cx).stop)
    decreases |rules|
  {
    hide CompileSyscall, AskedRule;
    if st.stop.None? && rules != [] {
      SyscallHistoryFree(rules[0], st.flags, st.flags, cx.host);
      SyscallsNeverNoPrior(SyscallStep(st, rules[0], cx), rules[1..], cx);
    }
  }

  /** From SetRules, both checks for an earlier syscall or watch always pass. */
  lemma {:induction false} NeverNoPrior(st: Session, sections: seq<Section>, cx: Context)
    requires Open(st.w) && !NoPrior(st.stop)
    ensures !NoPrior(SectionSteps(st, sections, cx).stop)
    decreases |sections|
  {
    hide FileSteps, SyscallSteps;
    if st.stop.None? && sections != [] {
      var st0 := st.(flags := st.flags.(syscall := false));
      match sections[0] {
        case FileRules(files) => FilesNeverNoPrior(st0, files, cx);
        case SyscallRules(rules) => SyscallsNeverNoPrior(st0, rules, cx);
        case OtherKey =>
      }
      NeverNoPrior(SectionStep(st, sections[0], cx), sections[1..], cx);
    }
  }

  // ---------------------------------------------------------------------------
  // An early return carries no rules
  // ---------------------------------------------------------------------------

  ghost predicate EmptyHanded(stop: Option<SetResult>) {
    stop.Some? && stop.value.Returned? ==> stop.value.rules == []
  }

  lemma {:induction false} FilesEmptyHanded(st: Session, files: seq<FileRule>, cx: Context)
    requires Open(st.w) && EmptyHanded(st.stop)
    ensures EmptyHanded(FileSteps(st, files, cx).stop)
    decreases |files|
  {
    hide CompileFile, AskedRule;
    if st.stop.None? && files != [] { FilesEmptyHanded(FileStep(st, files[0], cx), files[1..], cx); }
  }

  lemma {:induction false} SyscallsEmptyHanded(st: Session, rules: seq<SyscallRule>, cx: Context)
    requires Open(st.w) && EmptyHanded(st.stop)
    ensures EmptyHanded(SyscallSteps(st, rules, cx).stop)
    decreases |rules|
  {
    hide CompileSyscall, AskedRule;
    if st.stop.None? && rules != [] { SyscallsEmptyHanded(SyscallStep(st, rules[0], cx), rules[1..], cx); }
  }

  /** A run that does not get through all sections returns no rules, whatever it has installed. */
  lemma {:induction false} ErrorsReturnNothing(st: Session, sections: seq<Section>, cx: Context)
    requires Open(st.w) && EmptyHanded(st.stop)
    ensures EmptyHanded(SectionSteps(st, sections, cx).stop)
    decreases |sections|
  {
    hide FileSteps, SyscallSteps;
    if st.stop.None? && sections != [] {
      var st0 := st.(flags := st.flags.(syscall := false));
      match sections[0] {
        case FileRules(files) => FilesEmptyHanded(st0, files, cx);
        case SyscallRules(rules) => SyscallsEmptyHanded(st0, rules, cx);
        case OtherKey =>
      }
      ErrorsReturnNothing(SectionStep(st, sections[0], cx), sections[1..], cx);
    }
  }

  // ---------------------------------------------------------------------------
  // Where a run stops, and with what
  // ---------------------------------------------------------------------------

  /** What the run returns at a rule that compiled to `c`, in state `st`; none if the rule is installed. */
  ghost predicate StopsWith(stop: Option<SetResult>, st: Session, c: Compiled, pid: uint32)
    requires Open(st.w) && (c.Ready? ==> Shaped(c.rule))
  {
    match c
    case PathMissing => stop == Some(Returned([], None))
    case Rejected(e) => stop == Some(Returned([], Some(Compile(e))))
    case Crash => stop == Some(SetPanic)
    case Ready(r) =>
      var v := AskedRule(st.w, AUDIT_ADD_RULE, r, pid).1;
      && (v == Accepted <==> stop == None)
      && (v == Panics ==> stop == Some(SetPanic))
      && (v != Accepted && v != Panics ==> stop == Some(Returned([], Some(Refused(v)))))
  }

  /** File rules stop at the first that is not installed, with its own error or the kernel's verdict on it. */
  lemma {:induction false} FilesStop(st: Session, files: seq<FileRule>, cx: Context) returns (k: nat)
    requires Open(st.w) && st.stop.None?
    ensures k <= |files| && FileSteps(st, files[..k], cx).stop.None?
    ensures |FileSteps(st, files[..k], cx).rules| == |st.rules| + k
    ensures k == |files| ==> FileSteps(st, files, cx).stop.None?
    ensures k < |files| ==>
              var st1 := FileSteps(st, files[..k], cx);
              var c := CompileFile(files[k], st1.flags, cx.strict, cx.host).1;
              FileSteps(st, files, cx).stop.Some? && StopsWith(FileSteps(st, files, cx).stop, st1, c, cx.pid)
    decreases |files|
  {
    hide CompileFile, AskedRule;
    k := 0;
    if files == [] {
      assert files[..0] == [];
    } else {
      var next, rest := FileStep(st, files[0], cx), files[1..];
      if next.stop.None? {
        var j := FilesStop(next, rest, cx);
        k := j + 1;
        assert files[..k][0] == files[0] && files[..k][1..] == rest[..j];
      } else {
        assert files[..0] == [];
        assert FileSteps(next, rest, cx) == next;
      }
    }
  }

  lemma {:induction false} SyscallsStop(st: Session, rules: seq<SyscallRule>, cx: Context) returns (k: nat)
    requires Open(st.w) && st.stop.None?
    ensures k <= |rules| && SyscallSteps(st, rules[..k], cx).stop.None?
    ensures |SyscallSteps(st, rules[..k], cx).rules| == |st.rules| + k
    ensures k == |rules| ==> SyscallSteps(st, rules, cx).stop.None?
    ensures k < |rules| ==>
              var st1 := SyscallSteps(st, rules[..k], cx);
              var c := CompileSyscall(rules[k], st1.flags, cx.host).1;
              SyscallSteps(st, rules, cx).stop.Some? && StopsWith(SyscallSteps(st, rules, cx).stop, st1, c, cx.pid)
    decreases |rules|
  {
    hide CompileSyscall, AskedRule;
    k := 0;
    if rules == [] {
      assert rules[..0] == [];
    } else {
      var next, rest := SyscallStep(st, rules[0], cx), rules[1..];
      if next.stop.None? {
        var j := SyscallsStop(next, rest, cx);
        k := j + 1;
        assert rules[..k][0] == rules[0] && rules[..k][1..] == rest[..j];
      } else {
        assert rules[..0] == [];
        assert SyscallSteps(next, rest, cx) == next;
      }
    }
  }

  // ---------------------------------------------------------------------------
  // File rules without a path
  // ---------------------------------------------------------------------------

  predicate HasPath(f: FileRule) {
    f.path.Some? && f.path.value != []
  }

  predicate AllHavePaths(files: seq<FileRule>) {
    forall i :: 0 <= i < |files| ==> HasPath(files[i])
  }

  /** Every file rule of the configuration has a path. */
  predicate PathsGiven(sections: seq<Section>) {
    forall i :: 0 <= i < |sections| && sections[i].FileRules? ==> AllHavePaths(sections[i].files)
  }

  /** The file rules in front of the first one without a path. */
  function Leading(files: seq<FileRule>): seq<FileRule> {
    if files == [] || !HasPath(files[0]) then [] else [files[0]] + Leading(files[1..])
  }

  /** The configuration cut off at the first file rule without a path. */
  function Reached(sections: seq<Section>): seq<Section> {
    if sections == [] then []
    else if sections[0].FileRules? && !AllHavePaths(sections[0].files) then [FileRules(Leading(sections[0].files))]
    else [sections[0]] + Reached(sections[1..])
  }

  /** The run is still going or has returned a nil error. */
  ghost predicate NilSoFar(st: Session) {
    st.stop.None? || st.stop == Some(Returned([], None))
  }

  lemma PathMissingIff(f: FileRule, flags: Flags, strict: bool, host: Host)
    ensures CompileFile(f, flags, strict, host).1.PathMissing? <==> !HasPath(f)
    ensures !HasPath(f) ==> CompileFile(f, flags, strict, host).0 == flags
  {
    hide SetupWatch, WithPermission, WithKey;
  }

  /** One file rule in a run that returns no error: it stops the run exactly when it has no path. */
  lemma FileStepNil(st: Session, f: FileRule, cx: Context)
    requires Open(st.w) && st.stop.None? && NilSoFar(FileStep(st, f, cx))
    ensures if HasPath(f) then FileStep(st, f, cx).stop.None?
            else FileStep(st, f, cx) == st.(stop := Some(Returned([], None)))
  {
    hide CompileFile, AskedRule;
    PathMissingIff(f, st.flags, cx.strict, cx.host);
  }

  lemma {:induction false} FilesReached(st: Session, files: seq<FileRule>, cx: Context)
    requires Open(st.w) && st.stop.None? && NilSoFar(FileSteps(st, files, cx))
    ensures var cut := FileSteps(st, Leading(files), cx);
            && cut.stop.None?
            && FileSteps(st, files, cx) == if AllHavePaths(files) then cut else cut.(stop := Some(Returned([], None)))
    ensures AllHavePaths(files) ==> Leading(files) == files
    decreases |files|
  {
    hide FileStep, HasPath;
    if files != [] {
      var next, rest := FileStep(st, files[0], cx), files[1..];
      assert NilSoFar(next);
      FileStepNil(st, files[0], cx);
      PathsSplit(files);
      if HasPath(files[0]) {
        FilesReached(next, rest, cx);
        assert Leading(files)[1..] == Leading(rest);
      }
    }
  }

  lemma PathsSplit(files: seq<FileRule>)
    requires files != []
    ensures AllHavePaths(files) <==> HasPath(files[0]) && AllHavePaths(files[1..])
  {
    hide HasPath;
    if HasPath(files[0]) && AllHavePaths(files[1..]) {
      forall i | 0 <= i < |files| ensures HasPath(files[i]) { if i > 0 { assert files[i] == files[1..][i - 1]; } }
    }
    if AllHavePaths(files) {
      forall i | 0 <= i < |files[1..]| ensures HasPath(files[1..][i]) { assert files[1..][i] == files[i + 1]; }
    }
  }

  /** Syscall rules never end a run without an error. */
  lemma {:induction false} SyscallsReached(st: Session, rules: seq<SyscallRule>, cx: Context)
    requires Open(st.w) && st.stop.None? && NilSoFar(SyscallSteps(st, rules, cx))
    ensures SyscallSteps(st, rules, cx).stop.None?
    decreases |rules|
  {
    hide CompileSyscall, AskedRule;
    if rules != [] {
      NeverPathMissing(rules[0], st.flags, cx.host);
      SyscallsReached(SyscallStep(st, rules[0], cx), rules[1..], cx);
    }
  }

  lemma NeverPathMissing(s: SyscallRule, flags: Flags, host: Host)
    ensures !CompileSyscall(s, flags, host).1.PathMissing?
  {
    hide WithKey, WithFields, SelectSyscalls;
  }

  lemma PathsGivenSplit(sections: seq<Section>)
    requires sections != []
    ensures PathsGiven(sections) <==>
            (sections[0].FileRules? ==> AllHavePaths(sections[0].files)) && PathsGiven(sections[1..])
  {
    hide AllHavePaths;
    var rest := sections[1..];
    if PathsGiven(sections) {
      forall i | 0 <= i < |rest| && rest[i].FileRules? ensures AllHavePaths(rest[i].files) {
        assert rest[i] == sections[i + 1];
      }
    }
    if (sections[0].FileRules? ==> AllHavePaths(sections[0].files)) && PathsGiven(rest) {
      forall i | 0 <= i < |sections| && sections[i].FileRules? ensures AllHavePaths(sections[i].files) {
        if i > 0 { assert sections[i] == rest[i - 1]; }
      }
    }
  }

  /** One section of a run that returns no error. */
  lemma SectionReached(st: Session, section: Section, cx: Context)
    requires Open(st.w) && st.stop.None? && NilSoFar(SectionStep(st, section, cx))
    ensures if section.FileRules? && !AllHavePaths(section.files) then
              var cut := SectionStep(st, FileRules(Leading(section.files)), cx);
              cut.stop.None? && SectionStep(st, section, cx) == cut.(stop := Some(Returned([], None)))
            else SectionStep(st, section, cx).stop.None?
  {
    hide FileSteps, SyscallSteps, AllHavePaths;
    var st0 := st.(flags := st.flags.(syscall := false));
    match section
    case FileRules(files) => FilesReached(st0, files, cx);
    case SyscallRules(rules) => SyscallsReached(st0, rules, cx);
    case OtherKey =>
  }

  /**
   A run that returns no error does what the configuration cut off at the first
   file rule without a path says; it returns early exactly when there is one.
   */
  lemma {:induction false} SectionsReached(st: Session, sections: seq<Section>, cx: Context)
    requires Open(st.w) && st.stop.None? && NilSoFar(SectionSteps(st, sections, cx))
    ensures var cut := SectionSteps(st, Reached(sections), cx);
            && cut.stop.None?
            && SectionSteps(st, sections, cx) ==
               if PathsGiven(sections) then cut else cut.(stop := Some(Returned([], None)))
    ensures PathsGiven(sections) ==> Reached(sections) == sections
    decreases |sections|
  {
    hide SectionStep, AllHavePaths;
    if sections != [] {
      var rest, next := sections[1..], SectionStep(st, sections[0], cx);
      PathsGivenSplit(sections);
      if next.stop.Some? { assert SectionSteps(next, rest, cx) == next; }
      NilBefore(next, rest, cx);
      SectionReached(st, sections[0], cx);
      if sections[0].FileRules? && !AllHavePaths(sections[0].files) {
        var one := Reached(sections);
        assert one[1..] == [];
        var cut := SectionStep(st, one[0], cx);
        assert SectionSteps(cut, [], cx) == cut;
      } else {
        SectionsReached(next, rest, cx);
        assert Reached(sections)[1..] == Reached(rest);
      }
    }
  }

  lemma NilBefore(st: Session, sections: seq<Section>, cx: Context)
    requires Open(st.w) && NilSoFar(SectionSteps(st, sections, cx))
    ensures NilSoFar(st)
  {
  }

  /** How many rules a configuration has. */
  function RuleCount(sections: seq<Section>): nat {
    if sections == [] then 0
    else
      (match sections[0]
       case FileRules(files) => |files|
       case SyscallRules(rules) => |rules|
       case OtherKey => 0) + RuleCount(sections[1..])
  }

  lemma {:induction false} FileCount(files: seq<FileRule>, cx: Context)
    ensures FileRulesOf(files, cx).Some? ==> |FileRulesOf(files, cx).value| == |files|
    decreases |files|
  {
    hide CompileFile;
    if files != [] { FileCount(files[1..], cx); }
  }

  lemma {:induction false} SyscallCount(rules: seq<SyscallRule>, added: bool, cx: Context)
    ensures SyscallRulesOf(rules, added, cx).Some? ==> |SyscallRulesOf(rules, added, cx).value| == |rules|
    decreases |rules|
  {
    hide CompileSyscall;
    if rules != [] { SyscallCount(rules[1..], CompileSyscall(rules[0], Flags(false, added), cx.host).0.syscall, cx); }
  }

  /** A configuration that compiles gives one rule for each one it has. */
  lemma {:induction false} AllRulesCount(sections: seq<Section>, cx: Context)
    requires forall i :: 0 <= i < |sections| ==> RulesOf(sections[i], cx).Some?
    ensures |AllRulesOf(sections, cx)| == RuleCount(sections)
    decreases |sections|
  {
    hide FileRulesOf, SyscallRulesOf;
    if sections != [] {
      match sections[0] {
        case FileRules(files) => FileCount(files, cx);
        case SyscallRules(rules) => SyscallCount(rules, false, cx);
        case OtherKey =>
      }
      AllRulesCount(sections[1..], cx);
    }
  }

  /** A run that returns no error has installed exactly the rules of the configuration as far as it was reached. */
  lemma ReachedRules(st: Session, sections: seq<Section>, cx: Context)
    requires Open(st.w) && st.stop.None? && st.rules == [] && NilSoFar(SectionSteps(st, sections, cx))
    ensures SectionSteps(st, sections, cx).rules == AllRulesOf(Reached(sections), cx)
    ensures |AllRulesOf(Reached(sections), cx)| == RuleCount(Reached(sections))
    ensures SectionSteps(st, sections, cx).stop.None? <==> PathsGiven(sections)
    ensures ResultOf(SectionSteps(st, sections, cx)) ==
            Returned(if PathsGiven(sections) then AllRulesOf(sections, cx) else [], None)
  {
    hide SectionSteps, Reached, AllRulesOf, RulesOf, PathsGiven, RuleCount;
    SectionsReached(st, sections, cx);
    BySection(st, Reached(sections), cx);
    assert [] + AllRulesOf(Reached(sections), cx) == AllRulesOf(Reached(sections), cx);
    AllRulesCount(Reached(sections), cx);
  }

  // ---------------------------------------------------------------------------
  // Syscall rules without a syscall
  // ---------------------------------------------------------------------------

  /** A rule of nothing but syscalls, on the exit filter. */
  function BareRule(entries: seq<SyscallEntry>): SyscallRule {
    SyscallRule(entries, ["always", "exit"], [], None, false)
  }

  lemma BareCompiles(entries: seq<SyscallEntry>, flags: Flags, host: Host)
    ensures var s := SelectSyscalls(Blank(), entries, flags.syscall, host);
            s.err.None? && s.added ==>
              CompileSyscall(BareRule(entries), flags, host) ==
              (flags.(syscall := true), Ready(Completed(s.rule, AUDIT_FILTER_EXIT, AUDIT_ALWAYS)))
  {
    hide SelectSyscalls;
    var actions := ["always", "exit"];
    assert actions[..1] == ["always"];
    assert LastFilter(actions) == AUDIT_FILTER_EXIT;
    assert ActionOf("exit") == None;
    assert LastAction(actions) == LastAction(["always"]) == AUDIT_ALWAYS;
  }

  /**
   A rule that names no syscall is accepted behind one that does, with an empty
   mask, and refused in front of it.
   */
  lemma EmptyMaskAccepted(name: bytes, nr: nat, cx: Context, k: nat)
    requires cx.host.syscallNumber(name) == Some(nr) && nr < 2016
    ensures var one, none := BareRule([Named(name)]), BareRule([]);
            var behind := SyscallRulesOf([one, none], false, cx);
            && behind.Some? && |behind.value| == 2 && Shaped(behind.value[1]) && !InMask(behind.value[1].mask, k)
            && SyscallRulesOf([none, one], false, cx) == None
            && CompileSyscall(none, Flags(false, false), cx.host).1 == Rejected(NoSyscalls)
  {
    hide SelectSyscalls, CompileSyscall, InMask, AddSyscall;
    var host, named := cx.host, [Named(name)];
    var one, none := BareRule(named), BareRule([]);
    BareSelects(name, nr, host);
    BareCompiles(named, Flags(false, false), host);
    BareCompiles([], Flags(false, true), host);
    NoSyscallsIff(none, Flags(false, false), host);
    NothingSelected(host);
    BlankMask(k);
    assert [one, none][1..] == [none] && [none][1..] == [];
    assert SyscallRulesOf([], true, cx) == Some([]);
    assert SyscallRulesOf([none], true, cx).Some?;
  }

  lemma BareSelects(name: bytes, nr: nat, host: Host)
    requires host.syscallNumber(name) == Some(nr) && nr < 2016
    ensures var s := SelectSyscalls(Blank(), [Named(name)], false, host); s.err.None? && s.added
    ensures SelectSyscalls(Blank(), [], true, host) == Selected(Blank(), true, None)
  {
    hide AddSyscall;
    AddSyscallSet(Blank(), nr, 0);
    assert [Named(name)][1..] == [];
  }
}
