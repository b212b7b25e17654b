# Verified model of libaudit-go

libaudit-go is a user-space client for the Linux audit subsystem. This project
models the parts of it that carry state, layout or parsing, and proves what they
promise:

- **Netlink framing.** Two independently written walks over a received datagram,
  the request/reply protocol, and the buffer that sending and receiving share
  (section 2.3.2 of RFC 3549).
- **Rules.** The record of the kernel interface, the calls that fill it in, its
  wire image, the readers that recompute string offsets, and the printer.
- **Runs.** `SetRules`, `ListAllRules`, `DeleteAllRules` and `CleanupRules`
  against an arbitrary peer, and against a kernel that keeps a list of rules.
- **Records.** The hand-written parser of audit records with its multi-word
  values, its AVC grammar and its character counter.

Each procedure of the library that changes state is a method, with classes for
the connection, the rule record and the process-wide flags. Its contract equates
the new state with a function of the old one. The lemmas are about those
functions. A Go slice of the receive buffer is an interval of positions in it;
`|mem|` is the end of the capacity. An index or slice out of range is an outcome
of its own (`Panic`, `Panicked`, `Slip`, `Crash`, `None`), never excluded by a
precondition. The datagrams a connection will deliver are an arbitrary sequence
fixed in advance, so every result about a run holds for every peer. The kernel's
rules are a fold over the requests sent.

| module | content |
|---|---|
| `Words`, `Bits` | little-endian words, bitwise operations on numbers |
| `Netlink`, `Unusable` | header, padding, both walks, stream round trip, unusable headers |
| `Connection` | shared buffer, sending, receiving, waiting for a reply |
| `Rules`, `RuleObject` | what each builder call does, and the record updated in place |
| `RuleLayout` | the layout every successful run of the builder keeps |
| `RuleWire` | wire image, decoding, comparison |
| `Config`, `CompileFacts` | compiling a configuration, and what the compiled rule means |
| `RulePrint` | watch test, key search, printer |
| `FilePrint`, `SyscallText` | file rules and syscall rules printed end to end |
| `Install`, `InstallFacts` | `SetRules`, its independence of history and order, how far a run gets |
| `Manage` | list, delete all, clean up; aliasing of the shared buffer |
| `Kernel` | the list of rules at the other end; conservation |
| `Record`, `RecordWords` | the record parser; its loop as a machine over words |
| `RecordRoundTrip`, `RecordAvc`, `RecordQuoted` | totality, punctuation, round trips, AVC grammar, quoted user records |

## What the code does that its text does not say

The model follows the code. Each of these is a lemma or part of a contract.

- A datagram is safe to parse whatever it contains exactly when it is shorter
  than a header, or has a length divisible by four and 16 bytes of capacity
  behind it (`Netlink.SafeIff`). A rule that fills the buffer makes the parser
  panic or fail; a longer one makes `CleanupRules` return nil without deleting
  anything (`Kernel.EchoOutcome`, `Kernel.OversizeKeptSilently`).
- A datagram shorter than a header is passed over without an error
  (`Connection.ShortDatagramIgnored`, `Manage.ShortDatagramsIgnored`).
- The second half of the length workaround in `GetRawAuditMessages` never fires
  (`Netlink.RawAlignedTestDead`).
- Error code 17 counts as success, and the negated number, which is how the kernel
  reports EEXIST, does not (`Connection.ErrorVerdicts`). The code is read from the
  buffer even where the message has no payload (`Connection.StaleErrorCode`).
- A file rule without a path ends `SetRules` with no rules and a nil error, while
  the rules installed before it stay in the kernel (`Kernel.PathlessLeavesRule`).
  Among runs without an error this is the only early end (`InstallFacts.ReachedRules`).
  A rule that does not compile leaves the earlier ones in the kernel as well
  (`Kernel.FailedRunLeavesRules`).
- `prepend` has no effect (`Config.PrependIgnored`). The "entry" filter is taken
  for "exit".
- A syscall rule without any known syscall is accepted when an earlier rule of
  the section named one; its mask is then empty (`CompileFacts.NoSyscallsIff`,
  `InstallFacts.EmptyMaskAccepted`).
- A failing field call leaves a marked slot behind the live ones, unless it is
  refused before the slot is reached (`RuleLayout.FailedCallLaid`), and a later
  permission update would be satisfied with it (`RuleLayout.FailedCallSpoilsSlots`).
  `SetRules` never goes on with a record after a failed call, so only other users
  of the builder can meet this.
- `printRule` does not step over security labels, so a key behind a label prints as
  the first bytes of label and key together (`SyscallText.LabelMisprintsKey`).
- `CleanupRules` drops a listing error and reports only the latest deletion
  (`Kernel.CleanupForgetsFailures`).
- A word `msg='...` without an inner equals sign ends the record silently
  (`RecordWords.StuckEnds`); one that starts `msg='avc` is counted twice, so text
  behind it can be ignored (`RecordRoundTrip.GuardStopsEarly`). Exactly which texts
  are cut off is `RecordWords.TextRefines`.
- A trailing space ends up in the last value (`RecordAvc.TrailingSpace`), and with
  no pairs behind `for` the permission list gets it (`RecordAvc.AvcWithoutPairs`).
- An AVC result word that contains an equals sign, or is `avc:` again, is misread
  together with the braces behind it (`RecordAvc.AvcParsesIff`).

## Model

| member | source | states |
|---|---|---|
| `Words.LowByteFirst` | rules.go:40-47 | words are laid out with the low byte first |
| `Netlink.NlmAlignOf` | libaudit.go:183-185 | the least multiple of four not below the argument |
| `Netlink.HeaderRoundTrip` | libaudit.go:169-180 | a header written anywhere in a buffer is read back unchanged |
| `Netlink.HeaderLayout` | libaudit.go:173-177 | length at 0, type at 4, flags at 6, sequence number at 8, pid at 12 |
| `Netlink.ParseAuditNetlinkMessage` | libaudit.go:188-227 | the loop collects the messages of the recursive walk, and errs or panics where it does |
| `Netlink.WalkInOrder` | libaudit.go:188-217 | collected messages lie in the buffer, in order, and each header's length ends before the next payload |
| `Netlink.WalkSafe` | libaudit.go:188-227 | aligned length and 16 spare bytes: no content makes the walk panic |
| `Netlink.ClaimingPanics` | libaudit.go:188-217 | for every other length of at least a header, some content does |
| `Netlink.SafeIff` | libaudit.go:188-227 | the two together: exactly which lengths and capacities are safe |
| `Netlink.StreamRoundTrip` | libaudit.go:169-217 | any list of padded messages anywhere in a buffer parses back to the same headers; Data is the payload, plus exactly the next 16 bytes when the length is aligned |
| `Unusable.GarbageEndsList` | libaudit.go:194-201 | an unusable header is an error if and only if it comes first; behind other messages it only ends the list |
| `Netlink.RawAuditMessages` | audit_events.go:135-172 | the callback loop makes the calls of the recursive walk, in order, and ends as it does |
| `Netlink.RoundsAgree` | audit_events.go:136-172 | one round of both walks at the same position: same header and next position, the type and error code delivered, or which of them panics |
| `Netlink.WalksAgree` | audit_events.go:135-172 | on every buffer both get through they visit the same headers at the same offsets; each delivered payload is a prefix of Data, shorter by 16 exactly for an aligned length other than the rest |
| `Netlink.RawAlignedTestDead` | audit_events.go:141-146 | the padded length less a header never equals the length |
| `Connection.NetlinkConnection.constructor` | libaudit.go:239-264 | a zeroed buffer of 16 + 8970 bytes |
| `Connection.NetlinkConnection.Send` | libaudit.go:169-180 | in place: the state of the function that SentRequest, SerializedHolds and SerializedKeeps are about |
| `Connection.NetlinkConnection.ReceiveNoParse` | libaudit.go:299-314 | the datagram lands at the start of the buffer, cut off at its end, old bytes behind it |
| `Connection.SerializedKeeps` | libaudit.go:169-180 | bytes beyond the end of the wire image survive a send |
| `Connection.SerializedHolds` | libaudit.go:169-180 | when it fits, the whole wire image stands at the start of the shared buffer |
| `Connection.SentRequest` | libaudit.go:229-236 | every request sent carries its own length, its type, the flags 5, the next sequence number, pid zero and then the data, word by word |
| `Connection.ScanReplies` | libaudit.go:344-384 | the inner loop gives the verdict of the first decisive event of a datagram |
| `Connection.AuditGetReply` | libaudit.go:333-415 | the nested loops compute the verdict and final state of the datagram-wise fold |
| `Connection.FirstVerdictIs` | libaudit.go:344-384 | the verdict is that of event k, and all before it have the expected sequence number and pid and are neither DONE, ERROR nor AUDIT_GET |
| `Connection.ReplyIsFirstVerdict` | libaudit.go:338-414 | datagram boundaries do not matter: the verdict is that of the first decisive event of the concatenated stream |
| `Connection.ReplyIsFlat` | libaudit.go:333-415 | both together, and a receive failure exactly when no event decides |
| `Connection.EventVerdicts` | libaudit.go:348-381 | each verdict on a message, if and only if, over sequence number, pid, type and code |
| `Connection.ReplyVerdicts` | libaudit.go:333-415 | the same for the whole run: what is before the deciding message is stepped over, and accepted, wrong sequence, wrong pid, kernel error with its code, unreadable and panic each mean exactly one kind of message |
| `Connection.StaleErrorCode` | libaudit.go:354-355 | the code of an error message without payload is what the buffer held behind it |
| `Connection.ShortDatagramIgnored` | libaudit.go:308-310 | a datagram shorter than a header does not change the verdict |
| `Connection.EventsAgree` | libaudit.go:344-384 | the reply loop's own walk meets the headers of the collecting walk at the same offsets, in order, and ends at an unreadable header exactly when it does |
| `Connection.ErrorVerdicts` | libaudit.go:354-377 | an error message is accepted exactly for the numbers 0 and 17; the unsigned reading of -17 is an error |
| `Rules.TrimSlashes` | rules.go:792-793 | a prefix that does not end in a slash, and only slashes were cut |
| `Rules.AllSyscalls` | rules.go:829-832 | all words full but the last, which is kept |
| `RuleLayout.MaskedId` | rules.go:1310-1311 | masking the operator bits does not change a field number |
| `RuleLayout.OffsetIsPacked` | rules.go:1310-1320 | the offset recomputed by the walk over the slots is the total length of the strings supplied before |
| `RuleLayout.StringAt` | rules.go:1310-1320 | the slice at the recomputed offset is in bounds and is exactly the string supplied for the slot |
| `RuleLayout.LaidTotals` | rules.go:338-350 | Buflen, the buffer's length and the sum of string lengths agree and are at most 63 * 4096 |
| `RuleLayout.AddFieldLaid` | rules.go:232-463 | a successful field call keeps the layout and appends the string supplied |
| `RuleLayout.AddSyscallLaid` | rules.go:198-207 | a syscall call keeps the layout |
| `RuleLayout.SetupWatchLaid` | rules.go:784-852 | a watch starts a layout with the trimmed path and a permission entry |
| `RuleLayout.UpdatePermsLaid` | rules.go:885-913 | a permission update keeps the layout |
| `RuleLayout.UpdatePermsTouchesLive` | rules.go:892-898 | the scan of all 64 slots changes live permission entries only |
| `RuleLayout.UpdatePermsSets` | rules.go:885-913 | an update sets every permission entry, or adds one by equality; it fails if and only if the record is empty, or full without one |
| `RuleLayout.RunLaid` | rules.go:232-913 | every successful sequence of builder calls keeps the layout: at most 63 live slots, zeros behind them, strings packed in order |
| `RuleLayout.FailedCallLaid` | rules.go:234-253 | a failing field call keeps the layout if and only if it is refused for want of room, an unknown name, or the exclude filter |
| `RuleLayout.FailedCallSpoilsSlots` | rules.go:252-253 | what the damage does: after any failing permission call an update reports success without adding a live entry |
| `RuleLayout.AddSyscallSet` | rules.go:187-207 | adding a syscall adds exactly that number to the mask; it fails exactly from 2016 on |
| `RuleLayout.AddSyscallsSet` | rules.go:187-207 | any list, in any order and with repeats, gives the mask of its set |
| `RuleObject.PermissionBits` | rules.go:860-875 | the loop over the letters computes their union, or fails at the first other letter |
| `RuleObject.AuditRuleData.constructor` | rules.go:620-621 | a zero record with four arrays of its own |
| `RuleObject.AuditRuleData.SyscallData` | rules.go:198-207 | in place: the record and error of the function the set lemmas are about |
| `RuleObject.AuditRuleData.Fill` | rules.go:345-350 | in place: value, string and count of the current slot |
| `RuleObject.AuditRuleData.FieldPairData` | rules.go:232-465 | in place: the record, the process-wide flags and the error of a field call, also half-way failures |
| `RuleObject.AuditRuleData.SelectAll` | rules.go:829-832 | the loop fills all words but the last |
| `RuleObject.AuditRuleData.AddWatchDir` | rules.go:816-852 | in place: the watch record, or unchanged with an error when not empty |
| `RuleObject.AuditRuleData.SetupAndAddWatchDir` | rules.go:784-813 | in place: the record and error of the function that PathErrors and FileRuleFaithful are about |
| `RuleObject.AuditRuleData.UpdateWatchPerms` | rules.go:885-913 | in place: all permission slots overwritten, else a new slot |
| `RuleObject.AuditRuleData.SetupAndUpdatePerms` | rules.go:856-882 | in place: permission string decoded, then the update |
| `RuleWire.EncodedParts` | rules.go:37-50 | where each part of the record stands in its wire image |
| `RuleWire.DecodeEncode` | rules.go:23-50 | decoding by the struct tags undoes encoding, with anything behind the image |
| `RuleWire.ToWireFormat` | rules.go:37-50 | a fresh array holding the wire image |
| `RuleWire.PrefixDecodes` | rules.go:959-966 | anything that starts with a wire image decodes to the rule |
| `RuleWire.CarriedRule` | rules.go:959-966 | Data that carries a wire image decodes to the rule, with or without the 16 extra bytes |
| `RuleWire.CompareIsEquality` | rules.go:74-81 | on records whose Buflen is right, the comparison is equality |
| `RuleWire.IsAuditRulePresent` | rules.go:83-90 | true exactly when some rule of the list compares equal |
| `Config.SetActionAndFilters` | rules.go:469-493 | the last action word and the last filter word decide |
| `Config.FileHistoryFree` | rules.go:613-650 | a file rule compiles to the same outcome from any flags, never to a "no prior syscall" error |
| `Config.SyscallHistoryFree` | rules.go:653-748 | a syscall rule depends on history through auditSyscallAdded only, and never gives that error |
| `Config.PrependIgnored` | rules.go:734-742 | a rule compiles to the same record with and without `prepend` |
| `Config.CompileFileLaid` | rules.go:613-650 | a compiled file rule holds its trimmed path, a permission entry, then its key |
| `Config.CompileSyscallLaid` | rules.go:653-748 | a compiled syscall rule holds the strings of its fields in order, then its key, on one of four filters |
| `CompileFacts.FieldAccepted` | rules.go:232-465 | a field call succeeds if and only if there is room, the name is known, and filter, operator, history, kind, length and lookup constraints all hold |
| `CompileFacts.FieldErrors` | rules.go:234-251 | full record, unknown name and exclude filter, each error if and only if |
| `CompileFacts.SlotErrors` | rules.go:255-461 | which error a field gives: wrong filter, missing history, wrong operator and each kind of bad value, if and only if |
| `CompileFacts.PermFlagIff` | rules.go:328-406 | auditPermAdded is raised exactly by a path or dir field on the exit filter and by an accepted permission string |
| `CompileFacts.FieldStored` | rules.go:252-465 | success adds one slot with the field number, operator and the number the value stands for, and keeps everything else; failure keeps count, values and strings |
| `CompileFacts.FieldsStored` | rules.go:692-724 | the same for a list of fields, slot by slot |
| `CompileFacts.SelectExact` | rules.go:663-681 | the syscall list adds exactly the numbers of the names that are known, and changes the mask only |
| `CompileFacts.SelectAdded` | rules.go:663-684 | the list is accepted exactly when every entry is a name and no known number is too high; auditSyscallAdded is raised exactly when some name is known |
| `CompileFacts.SelectErrorAt` | rules.go:664-678 | the list stops at the first bad entry, and the error tells a non-name from a number out of range |
| `CompileFacts.NoSyscallsIff` | rules.go:682-684 | a rule is refused for want of syscalls if and only if its list is well formed and neither it nor an earlier rule of the section named a known syscall |
| `CompileFacts.SyscallRuleFaithful` | rules.go:653-748 | a compiled syscall rule has the mask of the syscalls named, the fields and key slot by slot, and the last filter and action named |
| `CompileFacts.SyscallRuleAccepted` | rules.go:653-748 | a syscall rule is accepted if and only if syscalls, number of fields, every field and the key are in order and a filter is named; exactly when it is refused for the filter, and when that refusal panics |
| `RulePrint.IsWatch` | rules.go:1129-1156 | true exactly for path, permission and key fields only, at least one permission, and all syscalls or a filter without |
| `RulePrint.KeyMatch` | rules.go:1303-1323 | true, false and panic each tied to the key slices at recomputed offsets; a panic only before any match |
| `RulePrint.KeySearchExact` | rules.go:1303-1323 | on a built rule the search sees exactly the keys supplied and never panics |
| `RulePrint.MembersExact` | rules.go:1209-1230 | the listed syscalls are exactly the bits set, strictly increasing |
| `RulePrint.MembersCount` | rules.go:1209-1230 | as many as the set has members |
| `RulePrint.PrintSyscallRule` | rules.go:1181-1232 | text, count, last and printed flag in terms of the set of syscalls |
| `RulePrint.SyscallSetShown` | rules.go:187-1232 | after adding any list to a blank rule: count is the size of its set, last its maximum, names ascending |
| `RulePrint.Print` | rules.go:985-1125 | the loop with its running offset computes the slot-by-slot rendering, or panics with it |
| `RulePrint.PrintOffsetIff` | rules.go:1019-1069 | the printer's offset never passes the true one, and equals it exactly when no non-empty label was skipped |
| `RulePrint.OffsetsMove` | rules.go:1038-1320 | after which fields, of any rule, the key search and the printer move their offsets |
| `RulePrint.NumeralReads` | rules.go:1119-1119 | a printed number reads back as the number, in digits of its base, without leading zero |
| `RulePrint.PrintInBounds` | rules.go:985-1125 | printing a built rule never panics: the text is the heading and, slot by slot, the strings at the printer's own offsets |
| `RulePrint.PrintsSupplied` | rules.go:985-1125 | the text is the heading and, slot by slot, the strings supplied, when no string field stands behind a non-empty label |
| `FilePrint.LettersExact` | rules.go:1070-1083 | the letters printed are those given, in the order rwxa |
| `FilePrint.PlainKeyPart` | rules.go:1058-1069 | a key without the two-character separator prints once, unchanged |
| `FilePrint.KeysApart` | rules.go:1058-1069 | keys separated by the two-character sequence print one after the other |
| `FilePrint.FileRulePrints` | rules.go:783-1156 | every accepted file rule is a watch and prints as `-w path -p letters`, then its keys, the path without trailing slashes |
| `FilePrint.FileRuleAccepted` | rules.go:613-650 | a file rule is accepted if and only if its path, its place in the file system, its permission letters and its key each are |
| `FilePrint.FileRuleFaithful` | rules.go:613-852 | an accepted file rule holds a directory field exactly for a directory and a path field otherwise, the permissions and key given, all by equality, every syscall, always on exit |
| `FilePrint.PathErrors` | rules.go:758-813 | which error a path gives, in order |
| `FilePrint.PermBitsIff` | rules.go:860-875 | a permission string is understood if and only if it has only the letters r, w, x, a, small or capital |
| `SyscallText.SyscallRulePrints` | rules.go:653-1125 | every accepted syscall rule without a string behind a non-empty label prints as configured: the last action and filter words, the first arch field, the syscalls, then each field by its own name, symbol and decimal value, letters or string, and the key |
| `SyscallText.OperatorsShown` | rules.go:699-716 | each configured operator prints as its symbol, an unknown one as none |
| `SyscallText.NamesShown` | rules.go:238-247 | every known field name leads to a number that is shown by that name, loginuid as auid |
| `SyscallText.LastWordsShown` | rules.go:469-493 | action and filter of a compiled rule are shown by the last words that name one, entry as exit |
| `SyscallText.SyscallsPart` | rules.go:1181-1232 | the syscalls shown: none off the exit filter, all when all 2016 are named, otherwise exactly those named, ascending |
| `SyscallText.CompiledWatchIff` | rules.go:1129-1156 | a compiled syscall rule counts as a watch if and only if it has only path, dir, perm and key fields, a perm field, and all syscalls |
| `SyscallText.ForeignFieldsShown` | rules.go:1025-1057 | executables and numbers without a name, which only other programs' rules have |
| `SyscallText.LabelMisprintsKey` | rules.go:1038-1069 | the condition is needed: for every label and key of a compiled rule, the text shows the first bytes of label and key together in place of the key |
| `Install.AddRuleData` | rules.go:496-519 | flags and action overwritten, then request and verdict; the entry filter refused unsent |
| `Install.BuildFile` | rules.go:620-644 | filling the record in place gives the compiled file rule or its error |
| `Install.BuildSyscall` | rules.go:653-737 | filling the record in place gives the compiled syscall rule or its error |
| `Install.SelectNames` | rules.go:663-681 | the loop over syscall names, with auditSyscallAdded |
| `Install.AddFields` | rules.go:692-724 | the loop over fields, with both flags |
| `Install.InstallFile` | rules.go:614-650 | one file rule: compiled, sent, appended or the early return |
| `Install.InstallSyscall` | rules.go:654-747 | one syscall rule, including the panic on fewer than two actions |
| `Install.SetRules` | rules.go:587-752 | connection, flags and result of the whole run equal the fold over sections |
| `InstallFacts.HistoryFree` | rules.go:609-751 | what a run sends, receives and returns does not depend on the flags it starts with |
| `InstallFacts.BySection` | rules.go:609-751 | a run that gets through returns each section's own rules, whatever came before |
| `InstallFacts.SectionOrder` | rules.go:609-610 | two sections in either order give the same rules for each |
| `InstallFacts.NeverNoPrior` | rules.go:335-360 | neither "no prior syscall" error can come out of SetRules |
| `InstallFacts.FilesStop` | rules.go:613-650 | file rules stop at the first that is not installed, with its own error or the kernel's verdict on it |
| `InstallFacts.SyscallsStop` | rules.go:653-747 | the same for syscall rules |
| `InstallFacts.ErrorsReturnNothing` | rules.go:587-752 | a run that does not get through all sections returns no rules |
| `InstallFacts.SectionsReached` | rules.go:609-751 | a run without error equals the run over the configuration cut off at the first file rule without a path, and returns early if and only if there is one |
| `InstallFacts.ReachedRules` | rules.go:587-752 | such a run installs exactly the rules of the configuration as far as reached, one each, and returns them if and only if every file rule has a path |
| `InstallFacts.EmptyMaskAccepted` | rules.go:663-684 | a rule that names no syscall is accepted with an empty mask behind one that does, and refused in front of it |
| `Manage.SendKeepsRest` | rules.go:163-176 | sending back the Data of one message leaves every later message of the datagram as received |
| `Manage.DeleteMessages` | rules.go:152-178 | the loop over aliasing messages behaves as if each had been copied on arrival |
| `Manage.DeleteAllRules` | rules.go:132-182 | the method on the shared buffer refines the run over values, for every sequence of datagrams |
| `Manage.DeletionsExact` | rules.go:142-181 | on success the requests sent are one deletion per listed rule before the first DONE, in order, each a request with its own length, type 1012, flags 5, the next sequence number and the Data received |
| `Manage.DeletionRunEnds` | rules.go:142-181 | a deletion run stops at the first message that is foreign, DONE or an error, over sequence number, pid, type and code, and its outcome says which |
| `Manage.ListEnds` | rules.go:934-967 | a listing run collects the rules of all messages it passes and stops at the first that is foreign, DONE, an error or not decodable, with the outcome that calls for |
| `Manage.ShortDatagramsIgnored` | libaudit.go:291-293 | a datagram shorter than a header changes neither run |
| `Manage.PrintAll` | rules.go:942-949 | all rules printed, or a panic exactly when one cannot be |
| `Manage.ListAllRules` | rules.go:918-971 | rules, texts and final state of the run over values |
| `Manage.DeleteRuleData` | rules.go:53-72 | request and verdict; the entry filter refused unsent |
| `Manage.CleanupRules` | rules.go:111-129 | final state and reported error of the clean-up run |
| `Kernel.AskedRuleLoads` | rules.go:53-72 | an add request appends the rule in the kernel, a delete request removes the first equal one |
| `Kernel.EntryRefusedIff` | rules.go:498-510 | a rule is refused as deprecated if and only if it is on the entry filter, and then nothing is sent |
| `Kernel.SectionsTrack` | rules.go:587-752 | however far a run gets without an error, the kernel's list has grown by exactly the rules installed, all well laid out and off the entry filter |
| `Kernel.FailedRunLeavesRules` | rules.go:587-752 | a run that ends at a rule that does not compile returns nothing and leaves all earlier rules in the kernel |
| `Kernel.HearFrames` | libaudit.go:281-296 | a datagram of frames is heard message by message, whatever the buffer held |
| `Kernel.ListLoopExact` | rules.go:929-970 | an answer cut into datagrams in any way is listed exactly, and later datagrams are left alone |
| `Kernel.CleanupKeeps` | rules.go:115-124 | deleting the listed rules that are to go leaves the others in order |
| `Kernel.CleanupExact` | rules.go:111-129 | clean-up leaves exactly the rules not equal to a given one |
| `Kernel.InstallThenCleanup` | rules.go:111-752 | install then clean up restores the list if and only if no rule stands in front of the first missing path, or no path is missing and none of the configured rules was there before |
| `Kernel.PathlessLeavesRule` | rules.go:616-619 | one acknowledged file rule and then one without a path: no rules and a nil error are returned, the rule is in the kernel, and clean-up leaves it |
| `Kernel.PlainFileReady` | rules.go:613-650 | such a rule exists: the watch of an existing file without permissions or key compiles |
| `Kernel.CleanupSends` | rules.go:115-124 | the requests are the deletions of exactly the listed rules equal to a given one, each with its own length and the next sequence number, none refused as an entry rule |
| `Kernel.CleanupForgetsFailures` | rules.go:118-128 | in a run without panic, nil is returned if and only if the latest deletion succeeds, whatever errors earlier ones gave |
| `Kernel.EchoOutcome` | libaudit.go:188-296 | exactly when a framed message is read back, refused as malformed, or makes the parser panic |
| `Kernel.EchoCarried` | libaudit.go:188-296 | a frame the parser has room for is collected as the one message of its datagram |
| `Kernel.EchoRoundTrip` | rules.go:23-81 | encode, frame, receive, parse and decode give a rule the library calls equal, whenever the frame is read back at all |
| `Kernel.InstalledRoundTrip` | rules.go:587-752 | the same for every rule a SetRules run installs |
| `Kernel.OversizeKeptSilently` | rules.go:111-129 | a listed rule longer than the buffer: nothing deleted, nil returned |
| `Kernel.DeleteAllEmpties` | rules.go:132-182 | DeleteAllRules empties a kernel that lists its rules, however the answer is cut |
| `Record.GetSpaceSlice` | parser.go:241-262 | rest without leading spaces, the word up to the next space, its length counted |
| `Record.ReadPerms` | parser.go:124-136 | the permission loop computes the comma-joined words or panics |
| `Record.ReadAvcWord` | parser.go:104-164 | one word without equals sign in a record of an AVC type |
| `Record.ReadPairWord` | parser.go:168-219 | one key=value word, with the second look behind `msg='` |
| `Record.ParseAuditEvent` | parser.go:63-237 | header and loop compute the recursive parse, including error and panic |
| `RecordWords.StuckEnds` | parser.go:172-181 | from a quoted word that is not consumed the loop only counts until it ends, with the fields it had |
| `RecordWords.PermsRefine` | parser.go:121-136 | the permission loop reads the same words as the machine, and the counter behind it is the one the text determines |
| `RecordWords.LoopEnds` | parser.go:100-227 | the loop's result, from whether it breaks, panics, sticks at a word or is cut off by its guard |
| `RecordWords.CutIff` | parser.go:100-227 | from any loop state, the guard cuts the loop off before a word if and only if the unread text and the counter so far say so |
| `RecordWords.LoopRefines` | parser.go:100-227 | a loop that is not cut off gives the result of a machine over the list of words |
| `RecordWords.TextRefines` | parser.go:92-227 | both for a whole text: the guard's condition in terms of the text alone, if and only if |
| `RecordRoundTrip.ParseIsTotal` | parser.go:92-227 | for types other than AVC no text makes a slice leave the string |
| `RecordRoundTrip.StepCounts` | parser.go:100-227 | count plus unread text shrinks with every step but one on a `msg='` word without inner equals sign |
| `RecordRoundTrip.GuardStopsEarly` | parser.go:172-181 | behind `msg='avc...` of n characters, the rest is never looked at if and only if it has at most n - 6 characters; a single longer word is read |
| `RecordRoundTrip.JoinedTokens` | parser.go:241-262 | splitting into words undoes joining by single spaces |
| `RecordRoundTrip.HeaderParses` | parser.go:68-91 | timestamp, serial and text are read back |
| `RecordRoundTrip.HeaderIff` | parser.go:68-91 | a text has a header with these parts if and only if it is rendered from them and the delimiters are the first ones |
| `RecordRoundTrip.MalformedIff` | parser.go:68-91 | a record is malformed if and only if it is of no such form |
| `RecordRoundTrip.RecordParses` | parser.go:63-237 | a record rendered from any list of pairs parses to timestamp, serial and the pairs, last one winning, values stripped as the code strips them |
| `RecordRoundTrip.ValueSurvives` | parser.go:160-165 | a value comes back unchanged if and only if no accumulated prefix of it ends in a quote, comma or parenthesis, (none) and (null) apart |
| `RecordRoundTrip.FixByLast` | parser.go:264-281 | what is stripped from any text, by its last character |
| `RecordRoundTrip.FixStrips` | parser.go:264-281 | a parenthesis, a comma and a quote in this order are stripped, each if present, but for the parenthesis of (none) and (null) |
| `RecordRoundTrip.RecordReturns` | parser.go:63-237 | on such values every key has the text of its last pair, and there are no other keys |
| `RecordAvc.PermWordsJoin` | parser.go:121-138 | reading up to the brace joins the permissions by commas and leaves what follows |
| `RecordAvc.AvcParses` | parser.go:104-218 | the AVC grammar round trip: result, joined permissions and exactly the pairs, without panic, for any permission words |
| `RecordAvc.AvcReturns` | parser.go:104-218 | on unstripped values every key has the text of its last pair, and besides there are exactly the result and the permissions |
| `RecordAvc.AvcMisreads` | parser.go:104-218 | for plain permissions and pairs that do not set `seresult`, any result word not read twice round-trips if and only if it has no equals sign and is not `avc:` |
| `RecordAvc.AvcParsesIff` | parser.go:104-218 | a word is safe as a result, for all permissions and pairs, if and only if it has no equals sign and is not `avc:` |
| `RecordAvc.AvcWithoutPairs` | parser.go:121-163 | with nothing behind `for` the permission list loses trailing punctuation and gains a space |
| `RecordAvc.TrailingSpace` | parser.go:160-227 | a space behind the last word is appended to the last value, and nothing else changes |
| `RecordQuoted.UserRecordParses` | parser.go:168-218 | a record with pairs inside `msg='...'` parses to the pairs outside and inside, and neither quote is left in any value |

## Left out

- Sockets, root check, timeouts, `GetPID` failures, goroutines and channels: foreign I/O; a connection is a buffer, the datagrams to come and a log of what was sent.
- JSON decoding, type assertions on its values and the conversion of floating-point numbers: the model starts from decoded rules.
- `user.Lookup`, `os.Stat`, `path.Base`, syscall numbers and names, message and file type tables: parameters (`Host`, `Tables`).
- The internals of the struc package: decoding is stated directly from the struct tags, little-endian.
- interpret.go and `interpret=true`, including the fields of an event that only it uses.
- The regex parser of parser.go and the event callbacks other than the raw walk.
- Status setters, `AuditIsEnabled` and its walk: the same framing with little more logic.
- `RemoveStaleLWAuditRules`: a filter on printed text over the deletion already modelled.
- Big-endian and non-x64 variants; error texts, which are a small enumeration here.
- Go aliasing of the rules `SetRules` and `ListAllRules` return: they are returned as values, not as pointers.
- Sequence numbers are kept with the connection; the library keeps one counter per process.
- A real kernel refuses duplicate rules and keeps one list per filter; the model's kernel appends to a single list.
- Netlink.SafeIff: slice lengths of 2^32 and more are excluded, because a header cannot claim them.
- RulePrint.PrintsSupplied: one direction only for contents, because a wrong slice may happen to hold equal bytes; the offsets are compared both ways in PrintOffsetIff, and PrintInBounds gives the text in every case.
- RecordAvc.AvcMisreads: one instance at a time it excludes words that are read twice, permissions that would themselves be read as pairs or keywords, and pairs that set `seresult`, because such pairs can restore the expected fields by accident; AvcParsesIff has no such restriction.
