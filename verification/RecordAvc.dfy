/**
 Records of the access vector cache: the grammar `avc:  result  { perms } for  pairs`,
 and what a trailing space does to a record.
 */
module RecordAvc {
  import opened Words
  import opened Record
  import opened RecordWords
  import opened RecordRoundTrip

  // ---------------------------------------------------------------------------
  // Permissions in braces
  // ---------------------------------------------------------------------------

  /** The words separated by commas. */
  function Commas(ws: seq<string>): string {
    if ws == [] then "" else if |ws| == 1 then ws[0] else ws[0] + "," + Commas(ws[1..])
  }

  /** The words, each followed by a space. */
  function Spaced(ws: seq<string>): string {
    if ws == [] then "" else ws[0] + " " + Spaced(ws[1..])
  }

  /** A permission word: anything but the closing brace. */
  ghost predicate AllPerms(ws: seq<string>) {
    forall i :: 0 <= i < |ws| ==> IsWord(ws[i]) && ws[i] != "}"
  }

  /** The first permission and the others. */
  lemma PermsTail(ws: seq<string>)
    requires ws != [] && AllPerms(ws)
    ensures IsWord(ws[0]) && ws[0] != "}" && AllPerms(ws[1..])
  {
    forall i | 0 <= i < |ws[1..]| ensures IsWord(ws[1..][i]) && ws[1..][i] != "}" { assert ws[1..][i] == ws[i + 1]; }
  }

  /** Reading up to the brace gives the permissions joined by commas, and leaves what follows. */
  lemma {:induction false} PermWordsJoin(ws: seq<string>, rest: seq<string>, v: string)
    requires AllPerms(ws)
    ensures PermWords(ws + (["}"] + rest), v) ==
            Some((if v == "" then Commas(ws) else if ws == [] then v else v + "," + Commas(ws), rest))
    decreases |ws|
  {
    hide AllPerms;
    var ts := ws + (["}"] + rest);
    if ws == [] {
      assert ts == ["}"] + rest && ts[1..] == rest;
    } else {
      PermsTail(ws);
      var v' := (if v != "" then v + "," else v) + ws[0];
      assert ts[0] == ws[0] && ts[1..] == ws[1..] + (["}"] + rest);
      PermWordsJoin(ws[1..], rest, v');
      assert v != "" ==> v + "," + ws[0] + "," + Commas(ws[1..]) == v + "," + (ws[0] + "," + Commas(ws[1..]));
      assert v == "" ==> v' == ws[0];
    }
  }

  lemma {:induction false} SpacedTokens(ws: seq<string>, tail: string)
    requires AllPerms(ws)
    ensures Tokens(Spaced(ws) + tail) == ws + Tokens(tail)
    decreases |ws|
  {
    hide Tokens, AllPerms;
    if ws == [] {
      assert "" + tail == tail;
    } else {
      PermsTail(ws);
      SpacedTokens(ws[1..], tail);
      assert Spaced(ws) + tail == ws[0] + " " + (Spaced(ws[1..]) + tail);
      WordTokens(ws[0], Spaced(ws[1..]) + tail);
    }
  }

  /** A text on which the counter stays behind from any start. */
  ghost predicate AlwaysCovered(text: string) {
    forall slack: nat :: slack > 0 ==> Covered(text, slack, true, false)
  }

  /** A word that is no pair, in front of a text. */
  lemma WordCovered(t: string, s: string, slack: nat, av: bool)
    requires IsWord(t) && '=' !in t
    requires if t == "avc:" then Covered(s, slack + 1, true, true)
             else if av then Covered(s, slack + 1, true, false)
             else if "{" <= t then BracesCovered(s, slack + 1)
             else Covered(s, slack + 1, true, false)
    ensures Covered(t + " " + s, slack, true, av)
  {
    hide Token, SkipSpaces, BracesCovered;
    var text := t + " " + s;
    SkipNone(text);
    TokenUnique(text, t);
    assert text[|t| + 1..] == s;
  }

  lemma SpaceCovered(s: string, slack: nat, av: bool)
    ensures Covered(" " + s, slack, true, av) == Covered(s, slack + 1, true, av)
  {
    hide Token, Quoted, SkipSpaces;
    SkipOne(s);
  }

  lemma SkipOne(s: string)
    ensures SkipSpaces(" " + s) == SkipSpaces(s)
  {
    assert (" " + s)[1..] == s;
  }

  /** Whatever the permissions are, the counter stays behind on them. */
  lemma {:induction false} BracesText(ws: seq<string>, tail: string, slack: nat)
    requires AllPerms(ws) && AlwaysCovered(tail)
    ensures BracesCovered(Spaced(ws) + ("}" + " " + tail), slack)
    decreases |ws|
  {
    hide Token, SkipSpaces, AllPerms, Covered;
    var end := "}" + " " + tail;
    var t, more := if ws == [] then "}" else ws[0], if ws == [] then tail else Spaced(ws[1..]) + end;
    if ws == [] {
      assert "" + end == end;
    } else {
      PermsTail(ws);
      BracesText(ws[1..], tail, slack + 1);
      assert Spaced(ws) + end == ws[0] + " " + more;
    }
    var text := t + " " + more;
    SkipNone(text);
    TokenUnique(text, t);
    assert text[|t| + 1..] == more;
  }

  // ---------------------------------------------------------------------------
  // The whole record
  // ---------------------------------------------------------------------------

  /** `for`, two spaces and the pairs. */
  function ForText(pairs: string): string {
    "for" + " " + (" " + pairs)
  }

  /** `{ perms } for  pairs` */
  function BraceText(perms: seq<string>, pairs: string): string {
    "{" + " " + (Spaced(perms) + ("}" + " " + ForText(pairs)))
  }

  /** `avc:  result  { perms } for  pairs` */
  function AvcText(result: string, perms: seq<string>, pairs: string): string {
    "avc:" + " " + (" " + (result + " " + (" " + BraceText(perms, pairs))))
  }

  /** A result word: one that is not itself taken for a pair or for the start of the grammar. */
  ghost predicate IsResult(t: string) {
    IsWord(t) && '=' !in t && t != "avc:"
  }

  lemma ResultIsWord(result: string)
    requires IsResult(result)
    ensures IsWord(result)
  {
  }

  lemma BraceTokens(perms: seq<string>, pairs: string)
    requires AllPerms(perms)
    ensures Tokens(BraceText(perms, pairs)) == ["{"] + (perms + (["}"] + (["for"] + Tokens(pairs))))
  {
    hide Tokens, AllPerms;
    var tail := ForText(pairs);
    SpaceTokens(pairs);
    WordTokens("for", " " + pairs);
    WordTokens("}", tail);
    SpacedTokens(perms, "}" + " " + tail);
    WordTokens("{", Spaced(perms) + ("}" + " " + tail));
  }

  lemma AvcTokens(result: string, perms: seq<string>, pairs: string)
    requires IsWord(result) && AllPerms(perms)
    ensures Tokens(AvcText(result, perms, pairs)) ==
            ["avc:", result, "{"] + (perms + (["}"] + (["for"] + Tokens(pairs))))
  {
    hide Tokens, AllPerms;
    var braces := BraceText(perms, pairs);
    BraceTokens(perms, pairs);
    SpaceTokens(braces);
    WordTokens(result, " " + braces);
    SpaceTokens(result + " " + (" " + braces));
    WordTokens("avc:", " " + (result + " " + (" " + braces)));
  }

  lemma AvcCovered(result: string, perms: seq<string>, pairs: string)
    requires IsResult(result) && AllPerms(perms) && AlwaysCovered(pairs)
    ensures Covered(AvcText(result, perms, pairs), 0, true, false)
  {
    hide Covered, BracesCovered, AllPerms;
    var tail, braces := ForText(pairs), BraceText(perms, pairs);
    forall slack: nat ensures Covered(tail, slack, true, false) {
      SpaceCovered(pairs, slack + 1, false);
      assert "for"[0] != '{';
      WordCovered("for", " " + pairs, slack, false);
    }
    BracesText(perms, tail, 5);
    WordCovered("{", Spaced(perms) + ("}" + " " + tail), 4, false);
    SpaceCovered(braces, 3, false);
    WordCovered(result, " " + braces, 2, true);
    SpaceCovered(result + " " + (" " + braces), 1, true);
    WordCovered("avc:", " " + (result + " " + (" " + braces)), 0, false);
  }

  lemma ForSkipped(rest: seq<string>, k: Memo)
    requires rest != [] && !k.av
    ensures Run(["for"] + rest, k, true) == Run(rest, k, true)
  {
    hide PermWords, PairOf, Quoted;
    assert "for"[0] != '{' && '=' !in "for";
    assert (["for"] + rest)[1..] == rest;
  }

  /** The machine on the braces, the permissions and `for`. */
  lemma BraceRun(perms: seq<string>, rest: seq<string>, k: Memo)
    requires AllPerms(perms) && rest != [] && !k.av
    ensures Run(["{"] + (perms + (["}"] + (["for"] + rest))), k, true) ==
            Run(rest, Memo("seperms", Fix(Commas(perms)), false, k.m["seperms" := Commas(perms)]), true)
  {
    hide PermWords, Fix, PairOf, Quoted, AllPerms, Commas;
    var braces := perms + (["}"] + (["for"] + rest));
    PermWordsJoin(perms, ["for"] + rest, "");
    assert (["{"] + braces)[1..] == braces;
    var k' := Memo("seperms", Fix(Commas(perms)), false, k.m["seperms" := Commas(perms)]);
    assert Run(["{"] + braces, k, true) == Run(["for"] + rest, k', true);
    ForSkipped(rest, k');
  }

  /** The machine on the words of the grammar. */
  lemma AvcRun(result: string, perms: seq<string>, rest: seq<string>)
    requires IsResult(result) && AllPerms(perms) && rest != []
    ensures Run(["avc:", result, "{"] + (perms + (["}"] + (["for"] + rest))), Memo("", "", false, map[]), true) ==
            Run(rest, AfterPerms(result, perms), true)
  {
    hide PermWords, Fix, PairOf, Quoted, AllPerms, Commas;
    var braces := perms + (["}"] + (["for"] + rest));
    var k := Memo("seresult", result, false, map["seresult" := result]);
    BraceRun(perms, rest, k);
    var two := [result, "{"] + braces;
    assert two[1..] == ["{"] + braces;
    assert Run(two, Memo("", "", true, map[]), true) == Run(["{"] + braces, k, true);
    var three := ["avc:", result, "{"] + braces;
    assert three[1..] == two;
    assert Run(three, Memo("", "", false, map[]), true) == Run(two, Memo("", "", true, map[]), true);
  }

  /** What the machine remembers behind the permissions. */
  function AfterPerms(result: string, perms: seq<string>): Memo {
    Memo("seperms", Fix(Commas(perms)), false, map["seresult" := result, "seperms" := Commas(perms)])
  }

  /** The loop over the text is the machine over the words behind `for`. */
  lemma AvcLoop(result: string, perms: seq<string>, pairs: string)
    requires IsResult(result) && AllPerms(perms) && AlwaysCovered(pairs)
    ensures var text := AvcText(result, perms, pairs);
            Loop(Start(text), |text|, true) ==
            Run(Tokens(pairs), AfterPerms(result, perms), true)
  {
    hide Loop, Run, Tokens, Covered, AllPerms, Commas, IsResult, BraceText;
    var text := AvcText(result, perms, pairs);
    ResultIsWord(result);
    AvcCovered(result, perms, pairs);
    TextRefines(text, true);
    AvcTokens(result, perms, pairs);
    AvcRun(result, perms, Tokens(pairs));
  }

  lemma PlainAlways(text: string)
    requires NoQuotedAvc(Tokens(text))
    ensures AlwaysCovered(text)
  {
    hide Covered, Tokens, NoQuotedAvc;
    forall slack: nat | slack > 0 ensures Covered(text, slack, true, false) { PlainCovered(text, slack, true, false); }
  }

  /** The fields of an AVC record: result, permissions joined by commas, and the pairs, the last one winning. */
  function AvcFields(result: string, perms: seq<string>, ps: seq<Pair>): Fields
    requires forall i :: 0 <= i < |ps| ==> ps[i].words != []
  {
    FieldsOf(map["seresult" := result, "seperms" := Commas(perms)], ps)
  }

  /** The record of the grammar parses, without panic, to exactly what it was rendered from. */
  ghost predicate AvcRoundTrips(timestamp: string, serial: string, result: string, perms: seq<string>, ps: seq<Pair>)
    requires forall i :: 0 <= i < |ps| ==> ps[i].words != []
  {
    ParseEvent(Render(timestamp, serial, AvcText(result, perms, Joined(RecordTokens(ps)))), true) ==
    Parsed(Event(timestamp, serial, AvcFields(result, perms, ps)))
  }

  /** Round trip of the AVC grammar. */
  lemma AvcParses(timestamp: string, serial: string, result: string, perms: seq<string>, ps: seq<Pair>)
    requires ':' !in timestamp && ')' !in serial
    requires IsResult(result) && AllPerms(perms) && ps != [] && AllWellFormed(ps, true)
    ensures AvcRoundTrips(timestamp, serial, result, perms, ps)
  {
    hide ReadHeader, Render, Loop, Run, Tokens, WellFormed, AllWords, NoQuotedAvc, AlwaysCovered, AllPerms, IsResult,
      Commas, AvcText;
    var pairs := Joined(RecordTokens(ps));
    HeaderParses(timestamp, serial, AvcText(result, perms, pairs));
    RecordWordsPlain(ps, true);
    JoinedTokens(RecordTokens(ps));
    PlainAlways(pairs);
    AvcLoop(result, perms, pairs);
    PairsEnd(ps, AfterPerms(result, perms), true);
  }

  /**
   On values that are not altered: every key has the text of its last pair, and
   apart from the pairs there are the result and the permissions, no others.
   */
  lemma AvcReturns(timestamp: string, serial: string, result: string, perms: seq<string>, ps: seq<Pair>, key: string)
    requires ':' !in timestamp && ')' !in serial
    requires IsResult(result) && AllPerms(perms) && ps != [] && AllWellFormed(ps, true)
    requires forall i :: 0 <= i < |ps| ==> ps[i].words != [] && Unstripped(ps[i].words)
    ensures var r := ParseEvent(Render(timestamp, serial, AvcText(result, perms, Joined(RecordTokens(ps)))), true);
            && r.Parsed? && r.event.timestamp == timestamp && r.event.serial == serial
            && match LastOf(ps, key)
               case Some(words) => key in r.event.data && r.event.data[key] == Joined(words)
               case None =>
                 && (key in r.event.data <==> key == "seresult" || key == "seperms")
                 && (key == "seresult" ==> r.event.data[key] == result)
                 && (key == "seperms" ==> r.event.data[key] == Commas(perms))
  {
    hide ParseEvent, Render, FieldsOf, WellFormed, Unstripped, Joined, RecordTokens, LastOf, AvcText, Commas;
    AvcParses(timestamp, serial, result, perms, ps);
    LastWins(map["seresult" := result, "seperms" := Commas(perms)], ps, key);
  }

  /** An empty last word adds a space to the last value. */
  lemma BlankWord(k: Memo, avc: bool)
    requires !k.av
    ensures Run([""], k, avc) == Done(k.m[k.key := k.value + " "])
  {
    hide PermWords, PairOf, Quoted;
    assert k.value + " " + "" == k.value + " ";
    BlankStays(k.value);
    assert [""][1..] == [];
  }

  lemma BlankStays(v: string)
    ensures Fix(v + " ") == v + " "
  {
  }

  /** With no pairs behind `for` the list of permissions is not what was written: it has lost its
      trailing punctuation and gained a space. */
  lemma AvcWithoutPairs(timestamp: string, serial: string, result: string, perms: seq<string>)
    requires ':' !in timestamp && ')' !in serial && IsResult(result) && AllPerms(perms)
    ensures ParseEvent(Render(timestamp, serial, AvcText(result, perms, "")), true)
         == Parsed(Event(timestamp, serial, map["seresult" := result, "seperms" := Fix(Commas(perms)) + " "]))
  {
    hide ReadHeader, Render, Loop, Run, Tokens, AlwaysCovered, AllPerms, IsResult, Commas, AvcText, Fix;
    HeaderParses(timestamp, serial, AvcText(result, perms, ""));
    LastToken("");
    PlainAlways("");
    AvcLoop(result, perms, "");
    BlankWord(AfterPerms(result, perms), true);
  }

  // ---------------------------------------------------------------------------
  // Result words that are misread
  // ---------------------------------------------------------------------------

  /** Permissions that are also misread as words of a value, not as pairs, once the braces are. */
  ghost predicate AllLater(ws: seq<string>) {
    forall i :: 0 <= i < |ws| ==> Later(ws[i], true)
  }

  ghost predicate NotAKey(key: string, ps: seq<Pair>) {
    forall i :: 0 <= i < |ps| ==> ps[i].words != [] && ps[i].key != key
  }

  lemma {:induction false} KeyKept(m: Fields, ps: seq<Pair>, key: string)
    requires NotAKey(key, ps) && key in m
    ensures var r := FieldsOf(m, ps); key in r && r[key] == m[key]
    decreases |ps|
  {
    hide Accumulated;
    if ps != [] { KeyKept(m[ps[0].key := Accumulated(ps[0].words)], ps[1..], key); }
  }

  /** The braces and the permissions between them become the value of one key. */
  lemma BracesSwallowed(perms: seq<string>, rest: seq<string>, k0: Memo) returns (v: string)
    requires AllLater(perms) && k0.av
    ensures ' ' in v
    ensures Run(["{"] + (perms + (["}"] + rest)), k0, true)
         == Run(rest, Memo("seresult", v, false, k0.m["seresult" := v]), true)
  {
    hide PermWords, PairOf, Quoted, Later, Fix;
    var m := k0.m;
    var more := perms + (["}"] + rest);
    var k := Memo("seresult", "{", false, m["seresult" := "{"]);
    assert (["{"] + more)[1..] == more;
    assert '=' !in "{";
    var words := ["{"] + perms + ["}"];
    assert words[..1] == ["{"] && words[1..] + rest == more;
    BraceLater(perms);
    FixBrace("", "{");
    assert "" + "{" == "{";
    AccumulatedOne("{");
    RunLater(words, 1, rest, k, true);
    v := Accumulated(words);
    var shorter := words[..|words| - 1];
    assert v == Fix(Accumulated(shorter) + " " + "}");
    FixBrace(Accumulated(shorter) + " ", "}");
    assert v[|v| - 2] == ' ';
    assert m["seresult" := "{"]["seresult" := v] == m["seresult" := v];
  }

  lemma BraceLater(perms: seq<string>)
    requires AllLater(perms)
    ensures var words := ["{"] + perms + ["}"]; forall i :: 1 <= i < |words| ==> Later(words[i], true)
  {
    assert "}"[0] != '{' && Later("}", true);
  }

  /** A brace is not punctuation that is stripped. */
  lemma FixBrace(v: string, brace: string)
    requires brace == "{" || brace == "}"
    ensures Fix(v + brace) == v + brace
  {
  }

  /** A result word that is a pair, or `avc:` again, is not reported as the result. */
  lemma MisreadResult(result: string, perms: seq<string>, ps: seq<Pair>) returns (m: Fields)
    requires IsWord(result) && !IsResult(result) && !Rereads(result)
    requires AllLater(perms) && ps != [] && AllWellFormed(ps, true) && NotAKey("seresult", ps)
    ensures var ts := ["avc:", result, "{"] + (perms + (["}"] + (["for"] + RecordTokens(ps))));
            Run(ts, Memo("", "", false, map[]), true) == Done(m)
    ensures "seresult" in m ==> m["seresult"] != result
  {
    hide PermWords, PairOf, Quoted, AllLater, RecordTokens, AllWellFormed, WellFormed, FieldsOf;
    var rest := ["for"] + RecordTokens(ps);
    var braces := ["{"] + (perms + (["}"] + rest));
    var k := Memo("", "", true, map[]);
    var two := [result] + braces;
    assert two[1..] == braces;
    var three := ["avc:", result, "{"] + (perms + (["}"] + rest));
    assert three[1..] == two;
    assert Run(three, Memo("", "", false, map[]), true) == Run(two, k, true);
    if Quoted(result) {
      QuotedIsPair(result);
      m := map[];
    } else {
      var k1 := if '=' in result then Stored(k, PairOf(result).0, PairOf(result).1) else k;
      assert Run(two, k, true) == Run(braces, k1, true);
      var v := BracesSwallowed(perms, rest, k1);
      var k2 := Memo("seresult", v, false, k1.m["seresult" := v]);
      RecordWordsPlain(ps, true);
      ForSkipped(RecordTokens(ps), k2);
      PairsEnd(ps, k2, true);
      KeyKept(k2.m, ps, "seresult");
      m := FieldsOf(k2.m, ps);
    }
  }

  /**
   For permissions and pairs that do not repair the damage, the round trip holds
   exactly when the result word has no equals sign and is not `avc:` itself.
   */
  lemma AvcMisreads(timestamp: string, serial: string, result: string, perms: seq<string>, ps: seq<Pair>)
    requires ':' !in timestamp && ')' !in serial
    requires IsWord(result) && !Rereads(result) && AllPerms(perms) && AllLater(perms)
    requires ps != [] && AllWellFormed(ps, true) && NotAKey("seresult", ps)
    ensures AvcRoundTrips(timestamp, serial, result, perms, ps) <==> IsResult(result)
  {
    hide ReadHeader, Render, Loop, Run, Tokens, AllWellFormed, AllPerms, AllLater, AllWords, IsWord, IsResult,
      Commas, NoQuotedAvc, AvcText;
    if IsResult(result) {
      AvcParses(timestamp, serial, result, perms, ps);
    } else {
      var pairs := Joined(RecordTokens(ps));
      var text := AvcText(result, perms, pairs);
      HeaderParses(timestamp, serial, text);
      RecordWordsPlain(ps, true);
      JoinedTokens(RecordTokens(ps));
      AvcTokens(result, perms, pairs);
      AvcWordsPlain(result, perms, RecordTokens(ps));
      TextRuns(text, true);
      AvcNonEmpty(result, perms, pairs);
      var m := MisreadResult(result, perms, ps);
      KeyKept(map["seresult" := result, "seperms" := Commas(perms)], ps, "seresult");
    }
  }

  lemma AvcNonEmpty(result: string, perms: seq<string>, pairs: string)
    ensures AvcText(result, perms, pairs) != ""
  {
  }

  lemma AvcWordsPlain(result: string, perms: seq<string>, rest: seq<string>)
    requires !Rereads(result) && AllLater(perms) && NoQuotedAvc(rest)
    ensures NoQuotedAvc(["avc:", result, "{"] + (perms + (["}"] + (["for"] + rest))))
  {
    hide Later;
    forall i | 0 <= i < |perms| ensures !Rereads(perms[i]) { LaterPlain(perms[i], true); }
    assert NoQuotedAvc(["}"] + (["for"] + rest));
    assert NoQuotedAvc(perms + (["}"] + (["for"] + rest)));
  }

  // ---------------------------------------------------------------------------
  // Exactly which result words are safe
  // ---------------------------------------------------------------------------

  /** A word of `n` characters. */
  function Pad(n: nat): (w: string)
    ensures |w| == n && '=' !in w && ' ' !in w && '\'' !in w
  {
    seq(n, _ => 'b')
  }

  /** One pair, at least as long as `result`. */
  function LongPair(result: string): seq<Pair> {
    [Pair("a", [Pad(|result|)])]
  }

  lemma LongPairFits(result: string)
    ensures AllWellFormed(LongPair(result), true) && NotAKey("seresult", LongPair(result))
    ensures RecordTokens(LongPair(result)) == ["a=" + Pad(|result|)]
    ensures Joined(["a=" + Pad(|result|)]) == "a=" + Pad(|result|)
  {
    var ps, w := LongPair(result), Pad(|result|);
    assert '=' !in "a" && ' ' !in "a" && "a" != "msg";
    assert WellFormed(ps[0], true);
    assert ps[1..] == [] && [w][1..] == [] && PairTokens(ps[0]) == ["a" + "=" + w] + [];
    assert "a" + "=" + w == "a=" + w;
  }

  /** The machine on a result word that is read twice: what it reports is not that word. */
  lemma RereadRun(result: string, rest: seq<string>) returns (v: string)
    requires Rereads(result) && IsWord(result) && rest != []
    ensures v != result
    ensures var k := Memo("", "", false, map[]);
            var out := Run(["avc:", result, "{"] + ([] + (["}"] + (["for"] + rest))), k, true);
            || out == Run(rest, Memo("seresult", v, false, map["seresult" := v]), true)
            || out == Run(rest, Memo("seperms", "", false, map["seresult" := v, "seperms" := ""]), true)
  {
    hide PermWords, Fix, PairOf, Quoted, Rereads;
    RereadTail(result);
    var braces := ["{"] + ([] + (["}"] + (["for"] + rest)));
    var u := result[5..];
    var k := Memo("msg", result[4..], true, map[]);
    var two, again := [result] + braces, [u] + braces;
    var three := ["avc:", result, "{"] + ([] + (["}"] + (["for"] + rest)));
    assert three[1..] == two && two[1..] == braces && again[1..] == braces;
    assert Run(three, Memo("", "", false, map[]), true) == Run(two, Memo("", "", true, map[]), true);
    assert Run(two, Memo("", "", true, map[]), true) == Run(again, k, true);
    if u == "avc:" {
      assert Run(again, k, true) == Run(braces, k, true);
      v := BracesSwallowed([], ["for"] + rest, k);
      ForSkipped(rest, Memo("seresult", v, false, map["seresult" := v]));
      assert map[]["seresult" := v] == map["seresult" := v];
    } else {
      v := u;
      var k1 := Memo("seresult", u, false, map["seresult" := u]);
      assert Run(again, k, true) == Run(braces, k1, true);
      BraceRun([], rest, k1);
      FixNothing();
      assert map["seresult" := u]["seperms" := ""] == map["seresult" := u, "seperms" := ""];
    }
  }

  lemma FixNothing()
    ensures Fix("") == "" && Commas([]) == ""
  {
  }

  lemma RereadTail(w: string)
    requires Rereads(w) && IsWord(w)
    ensures |w| >= 8 && '=' in w && Quoted(w) && "msg='avc" <= w
    ensures IsWord(w[5..]) && '=' !in w[5..]
  {
    QuotedTail(w);
    QuotedIsPair(w);
  }

  /** A word that is read twice, in front of a text. */
  lemma RereadCovered(t: string, s: string, slack: int)
    requires Rereads(t) && IsWord(t) && slack > 0
    requires Covered(t[5..] + (" " + s), slack - (|t| - 5), true, true)
    ensures Covered(t + " " + s, slack, true, true)
  {
    hide Token, SkipSpaces, BracesCovered, Quoted, IsWord;
    RereadTail(t);
    var text := t + " " + s;
    assert text == t + (" " + s);
    FirstWord(t, s);
    DropPrefix(t, " " + s, 5);
  }

  /** With a long pair at the end the guard lets the whole record through. */
  lemma LongCovered(result: string)
    requires Rereads(result) && IsWord(result)
    ensures Covered(AvcText(result, [], "a=" + Pad(|result|)), 0, true, false)
  {
    hide Covered, BracesCovered, Rereads, Tokens, Quoted;
    RereadTail(result);
    var u, pairs := result[5..], "a=" + Pad(|result|);
    var braces := BraceText([], pairs);
    var text := u + " " + (" " + braces);
    BraceTokens([], pairs);
    SpaceTokens(braces);
    WordTokens(u, " " + braces);
    LongWord(result);
    LastToken(pairs);
    var ts := Tokens(text);
    assert ts == [u, "{", "}", "for", pairs];
    AllPlain(u, pairs);
    PlainCovered(text, 2 - (|result| - 5), true, true);
    assert text == u + (" " + (" " + braces));
    RereadCovered(result, " " + braces, 2);
    SpaceCovered(result + " " + (" " + braces), 1, true);
    WordCovered("avc:", " " + (result + " " + (" " + braces)), 0, false);
  }

  lemma LongWord(result: string)
    ensures var pairs := "a=" + Pad(|result|); IsWord(pairs) && |pairs| == |result| + 2 && !Rereads(pairs)
  {
    var pairs := "a=" + Pad(|result|);
    assert pairs[0] == 'a';
  }

  lemma AllPlain(u: string, pairs: string)
    requires '=' !in u && !Rereads(pairs)
    ensures NoQuotedAvc([u, "{", "}", "for", pairs])
  {
    hide Quoted;
    QuotedIsPair(u);
    QuotedIsPair("{");
    QuotedIsPair("}");
    QuotedIsPair("for");
  }

  /** A result word that is read twice is not reported, at least in front of a long pair. */
  lemma RereadMisreads(result: string)
    requires IsWord(result) && Rereads(result)
    ensures !AvcRoundTrips("", "", result, [], LongPair(result))
  {
    hide ReadHeader, Render, Loop, Run, Tokens, Covered, Rereads, Pad, WellFormed, AvcText, Commas;
    var ps, pairs := LongPair(result), "a=" + Pad(|result|);
    var text := AvcText(result, [], pairs);
    LongPairFits(result);
    HeaderParses("", "", text);
    LongCovered(result);
    TextRefines(text, true);
    AvcTokens(result, [], pairs);
    LongWord(result);
    LastToken(pairs);
    var v := RereadRun(result, [pairs]);
    var k1 := Memo("seresult", v, false, map["seresult" := v]);
    var k2 := Memo("seperms", "", false, map["seresult" := v, "seperms" := ""]);
    PairsEnd(ps, k1, true);
    PairsEnd(ps, k2, true);
    KeyKept(k1.m, ps, "seresult");
    KeyKept(k2.m, ps, "seresult");
    KeyKept(map["seresult" := result, "seperms" := Commas([])], ps, "seresult");
  }

  /**
   Exactly which words are safe as a result, whatever permissions and pairs come
   with them: those without an equals sign other than `avc:` itself.
   */
  lemma AvcParsesIff(result: string)
    requires IsWord(result)
    ensures IsResult(result) <==>
            forall timestamp, serial, perms, ps ::
              ':' !in timestamp && ')' !in serial && AllPerms(perms) && ps != [] && AllWellFormed(ps, true) ==>
                AvcRoundTrips(timestamp, serial, result, perms, ps)
  {
    hide AvcRoundTrips, AllPerms, Rereads, WellFormed, IsResult;
    if IsResult(result) {
      forall timestamp, serial, perms, ps |
        ':' !in timestamp && ')' !in serial && AllPerms(perms) && ps != [] && AllWellFormed(ps, true)
        ensures AvcRoundTrips(timestamp, serial, result, perms, ps)
      {
        AvcParses(timestamp, serial, result, perms, ps);
      }
    } else {
      LongPairFits(result);
      NoPerms();
      if Rereads(result) {
        RereadMisreads(result);
      } else {
        AvcMisreads("", "", result, [], LongPair(result));
      }
    }
  }

  lemma NoPerms()
    ensures AllPerms([]) && AllLater([])
  {
  }

  // ---------------------------------------------------------------------------
  // Trailing space
  // ---------------------------------------------------------------------------

  lemma {:induction false} SpacedPlain(ws: seq<string>)
    requires AllWords(ws)
    ensures Tokens(Spaced(ws)) == ws + [""]
    decreases |ws|
  {
    hide Tokens, AllWords;
    if ws == [] {
      LastToken("");
    } else {
      WordsTail(ws);
      SpacedPlain(ws[1..]);
      WordTokens(ws[0], Spaced(ws[1..]));
    }
  }

  lemma WordsTail(ws: seq<string>)
    requires ws != [] && AllWords(ws)
    ensures IsWord(ws[0]) && AllWords(ws[1..])
  {
    forall i | 0 <= i < |ws[1..]| ensures IsWord(ws[1..][i]) { assert ws[1..][i] == ws[i + 1]; }
  }

  /** A space behind the last word of a record shows up at the end of the last value, and nowhere else. */
  lemma TrailingSpace(timestamp: string, serial: string, ps: seq<Pair>, avc: bool)
    requires ':' !in timestamp && ')' !in serial && ps != [] && AllWellFormed(ps, avc)
    ensures var last := ps[|ps| - 1];
            ParseEvent(Render(timestamp, serial, Spaced(RecordTokens(ps))), avc) ==
            Parsed(Event(timestamp, serial, FieldsOf(map[], ps)[last.key := Accumulated(last.words) + " "]))
  {
    hide ReadHeader, Render, Loop, Run, Tokens, WellFormed, AllWords, NoQuotedAvc, RecordTokens, Accumulated;
    var ts := RecordTokens(ps);
    var text := Spaced(ts);
    HeaderParses(timestamp, serial, text);
    RecordWordsPlain(ps, avc);
    SpacedPlain(ts);
    BlankPlain(ts);
    TextRuns(text, avc);
    var k := Memo("", "", false, map[]);
    RunPairs(ps, [""], k, avc);
    BlankWord(After(k, ps), avc);
    assert text != "" by { assert |Spaced(ts)| >= 1; }
  }

  lemma BlankPlain(ts: seq<string>)
    requires NoQuotedAvc(ts)
    ensures NoQuotedAvc(ts + [""])
  {
  }
}
