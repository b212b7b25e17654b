/**
 What the record parser promises: it never panics outside the AVC grammar, and
 a record rendered from its fields parses back to those fields.
 */
module RecordRoundTrip {
  import opened Words
  import opened Record
  import opened RecordWords

  // ---------------------------------------------------------------------------
  // Totality and the guard
  // ---------------------------------------------------------------------------

  /** For types other than AVC no text at all makes a slice leave the string. */
  lemma {:induction false} NeverSlips(st: Scan, orig: nat)
    ensures Loop(st, orig, false) != Slip
    decreases orig - st.n
  {
    hide PairWord, Extend, Token, SkipSpaces, Index;
    if st.n < orig {
      var r := StepOf(st, false);
      if r.Continue? { NeverSlips(r.st, orig); }
    }
  }

  lemma ParseIsTotal(raw: string)
    ensures ParseEvent(raw, false) != Panic
  {
    hide Loop, ReadHeader;
    if ReadHeader(raw).Some? {
      var text := ReadHeader(raw).value.2;
      NeverSlips(Start(text), |text|);
    }
  }

  lemma {:induction false} PermsCount(str: string, n: nat, v: string)
    ensures Perms(str, n, v).Some? ==> Perms(str, n, v).value.1 + |Perms(str, n, v).value.0| <= n + |str| + 1
    decreases |str|
  {
    hide Token, SkipSpaces;
    var s := SkipSpaces(str);
    var t := Token(s);
    if t != "}" && |t| < |s| { PermsCount(s[|t| + 1..], n + |t|, (if v != "" then v + "," else v) + t); }
  }

  /**
   Unless the word is `msg='...` without an inner equals sign, a step that goes on
   makes count plus unread text smaller. So the guard `n < orig` never ends the
   loop while text is left.
   */
  lemma StepCounts(st: Scan, avc: bool)
    requires !Quoted(Token(SkipSpaces(st.str)))
    ensures var r := StepOf(st, avc);
            r.Continue? ==> r.st.n + |r.st.str| < st.n + |st.str|
  {
    hide Token, SkipSpaces, Index, Quoted, Perms, Fix, PairWord, PairOf;
    var st1 := WordRead(st);
    var t := Token(st1.str);
    if Index(t, '=') != -1 { PairStep(st1, t); }
    if |t| < |st1.str| { PermsCount(st1.str[|t| + 1..], st1.n, ""); }
  }

  /** A quoted word behind which the AVC grammar starts. */
  ghost predicate QuotedAvc(w: string) {
    Rereads(w) && ' ' !in w
  }

  /** Where the guard cuts the loop off, it has counted no less than before. */
  lemma {:induction false} CutLater(st: Scan, orig: nat, avc: bool)
    ensures var e := EndOf(st, orig, avc); e.Cut? && st.n < orig ==> st.n < e.st.n
    decreases orig - st.n
  {
    hide StepOf, StuckWord, Token, SkipSpaces;
    if st.n < orig {
      StepGrows(st, avc);
      var r := StepOf(st, avc);
      if r.Continue? { CutLater(r.st, orig, avc); }
    }
  }

  /**
   The exception is real. Behind a word `msg='avc...` of n characters, the text is
   never looked at exactly when it has at most n - 6 characters, because the word
   is counted twice. A single longer word is read.
   */
  lemma GuardStopsEarly(w: string, p: string)
    requires QuotedAvc(w)
    ensures var text, v := w + (" " + p), Fix(w[4..] + " " + w[5..]);
            var behind := Scan(p, 2 * |w| - 5, "msg", v, false, map["msg" := v]);
            && (EndOf(Start(text), |text|, false) == Cut(behind) <==> |p| + 6 <= |w|)
            && (|p| + 6 <= |w| ==> Loop(Start(text), |text|, false) == Done(map["msg" := v]))
            && (|p| + 6 > |w| && IsWord(p) && '=' !in p ==>
                  Loop(Start(text), |text|, false) == Done(map["msg" := Fix(v + " " + p)]))
  {
    hide StepOf, Fix, QuotedAvc, StuckWord, Token, SkipSpaces, Loop, OutcomeOf;
    QuotedTail(w);
    var u := w[5..];
    var v, orig := Fix(w[4..] + " " + u), |w + (" " + p)|;
    var st0, st1 := Start(w + (" " + p)), Scan(u + (" " + p), |w|, "msg", w[4..], false, map[]);
    var st2 := Scan(p, |w| + |u|, "msg", v, false, map["msg" := v]);
    FirstStep(w, p);
    assert EndOf(st0, orig, false) == EndOf(st1, orig, false);
    SecondStep(u, p, st1);
    assert EndOf(st1, orig, false) == EndOf(st2, orig, false);
    CutLater(st2, orig, false);
    LoopEnds(st0, orig, false);
    OutcomeCut(st2);
    if |p| + 6 > |w| && IsWord(p) && '=' !in p {
      LastStep(st2);
      OutcomeBroke(st2.m["msg" := Fix(v + " " + p)]);
    }
  }

  lemma OutcomeCut(st: Scan)
    ensures OutcomeOf(Cut(st)) == Done(st.m)
  {
  }

  lemma OutcomeBroke(m: Fields)
    ensures OutcomeOf(Broke(m)) == Done(m)
  {
  }

  /** The first word of a text. */
  lemma FirstWord(w: string, p: string)
    requires IsWord(w)
    ensures var text := w + (" " + p); SkipSpaces(text) == text && Token(text) == w && text[|w| + 1..] == p
  {
    hide Token, SkipSpaces;
    var text := w + (" " + p);
    assert w[0] in w && text[0] == w[0];
    SkipNone(text);
    TokenUnique(text, w);
  }

  /** What the loop body does with a word that is read twice. */
  lemma RereadStep(st: Scan)
    requires Rereads(Token(st.str))
    ensures var t := Token(st.str);
            && !StuckWord(t) && |t| >= 8 && '=' in t && Index(t, '=') == 3
            && PairWord(st, t, 3) == Continue(st.(key := "msg", value := t[4..], str := st.str[5..]))
  {
    hide Token, PairWord, Index, Quoted;
    QuotedStep(st);
  }

  lemma FirstStep(w: string, p: string)
    requires QuotedAvc(w)
    ensures |w| >= 8 && !StuckWord(Token(SkipSpaces(w + (" " + p))))
    ensures StepOf(Start(w + (" " + p)), false) == Continue(Scan(w[5..] + (" " + p), |w|, "msg", w[4..], false, map[]))
  {
    hide Token, SkipSpaces, Index, PairWord, AvcWord, Extend, Quoted, Rereads, StuckWord;
    var text := w + (" " + p);
    QuotedTail(w);
    FirstWord(w, p);
    var st1 := Scan(text, |w|, "", "", false, map[]);
    assert WordRead(Start(text)) == st1;
    RereadStep(st1);
    assert StepOf(Start(text), false) == PairWord(st1, w, 3);
    DropPrefix(w, " " + p, 5);
  }

  lemma DropPrefix(a: string, b: string, k: nat)
    requires k <= |a|
    ensures (a + b)[k..] == a[k..] + b
  {
  }

  lemma QuotedTail(w: string)
    requires QuotedAvc(w)
    ensures |w| >= 8 && IsWord(w) && IsWord(w[5..]) && '=' !in w[5..]
  {
    assert w == w[..5] + w[5..] && w[4..] == [w[4]] + w[5..];
  }

  lemma SecondStep(u: string, p: string, st: Scan)
    requires IsWord(u) && '=' !in u && st.str == u + (" " + p)
    ensures !StuckWord(Token(SkipSpaces(st.str)))
    ensures var v := Fix(st.value + " " + u);
            StepOf(st, false) == Continue(st.(str := p, n := st.n + |u|, value := v, m := st.m[st.key := v]))
  {
    hide Token, SkipSpaces, Index, Fix, PairWord, AvcWord, Quoted;
    FirstWord(u, p);
    QuotedIsPair(u);
  }

  lemma LastStep(st: Scan)
    requires IsWord(st.str) && '=' !in st.str
    ensures !StuckWord(Token(SkipSpaces(st.str)))
    ensures StepOf(st, false) == Break(st.m[st.key := Fix(st.value + " " + st.str)])
  {
    hide Token, SkipSpaces, Index, Fix, PairWord, Quoted;
    assert st.str[0] in st.str;
    SkipNone(st.str);
    TokenUnique(st.str, st.str);
    QuotedIsPair(st.str);
  }

  // ---------------------------------------------------------------------------
  // Words and text
  // ---------------------------------------------------------------------------

  ghost predicate IsWord(t: string) {
    t != "" && ' ' !in t
  }

  ghost predicate AllWords(ts: seq<string>) {
    forall i :: 0 <= i < |ts| ==> IsWord(ts[i])
  }

  /** The words separated by single spaces. */
  function Joined(ts: seq<string>): string {
    if ts == [] then "" else if |ts| == 1 then ts[0] else ts[0] + " " + Joined(ts[1..])
  }

  lemma SpaceTokens(s: string)
    ensures Tokens(" " + s) == Tokens(s)
  {
    hide Token;
    assert (" " + s)[1..] == s;
    assert SkipSpaces(" " + s) == SkipSpaces(s);
  }

  /** A word and a space in front of a text. */
  lemma WordTokens(t: string, s: string)
    requires IsWord(t)
    ensures Tokens(t + " " + s) == [t] + Tokens(s)
  {
    hide Token, Index, SkipSpaces;
    var text := t + " " + s;
    SkipNone(text);
    TokenUnique(text, t);
    assert text[|t| + 1..] == s;
  }

  lemma LastToken(t: string)
    requires ' ' !in t
    ensures Tokens(t) == [t]
  {
    hide Token, Index, SkipSpaces;
    assert t != "" ==> t[0] in t;
    SkipNone(t);
    TokenUnique(t, t);
  }

  /** Splitting undoes joining. */
  lemma {:induction false} JoinedTokens(ts: seq<string>)
    requires ts != [] && AllWords(ts)
    ensures Tokens(Joined(ts)) == ts
    decreases |ts|
  {
    hide Tokens;
    assert IsWord(ts[0]);
    if |ts| == 1 {
      LastToken(ts[0]);
    } else {
      forall i | 0 <= i < |ts[1..]| ensures IsWord(ts[1..][i]) { assert ts[1..][i] == ts[i + 1]; }
      JoinedTokens(ts[1..]);
      WordTokens(ts[0], Joined(ts[1..]));
    }
  }

  // ---------------------------------------------------------------------------
  // Pairs
  // ---------------------------------------------------------------------------

  /** A key and a value of one or more words. */
  datatype Pair = Pair(key: string, words: seq<string>)

  /** A later word of a value: it must not be taken for a pair or for part of the AVC grammar. */
  ghost predicate Later(t: string, avc: bool) {
    IsWord(t) && '=' !in t && (avc ==> t != "avc:" && t != "for" && !("{" <= t))
  }

  ghost predicate WellFormed(p: Pair, avc: bool) {
    && '=' !in p.key && ' ' !in p.key
    && p.words != [] && ' ' !in p.words[0]
    && !(p.key == "msg" && "'" <= p.words[0])
    && forall i :: 1 <= i < |p.words| ==> Later(p.words[i], avc)
  }

  function PairTokens(p: Pair): seq<string>
    requires p.words != []
  {
    [p.key + "=" + p.words[0]] + p.words[1..]
  }

  /** The value the parser ends up with: punctuation is stripped after every word. */
  function Accumulated(words: seq<string>): string
    requires words != []
  {
    if |words| == 1 then Fix(words[0])
    else Fix(Accumulated(words[..|words| - 1]) + " " + words[|words| - 1])
  }

  lemma FirstPairWord(p: Pair, avc: bool)
    requires WellFormed(p, avc)
    ensures var t := p.key + "=" + p.words[0];
            IsWord(t) && '=' in t && !Quoted(t) && PairOf(t) == (p.key, p.words[0])
  {
    hide Index;
    var t := p.key + "=" + p.words[0];
    var eq := |p.key|;
    assert t[eq] == '=' && t[..eq] == p.key && t[eq + 1..] == p.words[0];
    IndexIs(t, '=', eq);
    QuotePrefix(t, eq);
  }

  /** Running over the further words of a value. */
  lemma {:induction false} RunLater(words: seq<string>, i: nat, rest: seq<string>, k: Memo, avc: bool)
    requires 1 <= i <= |words| && !k.av && k.value == Accumulated(words[..i]) && k.key in k.m && k.m[k.key] == k.value
    requires forall j :: i <= j < |words| ==> Later(words[j], avc)
    ensures var v := Accumulated(words);
            Run(words[i..] + rest, k, avc) == Run(rest, k.(value := v, m := k.m[k.key := v]), avc)
    decreases |words| - i
  {
    hide Fix, Quoted, PairOf, PermWords;
    if i == |words| {
      assert words[..i] == words && words[i..] + rest == rest;
      assert k.m[k.key := k.value] == k.m;
    } else {
      var t := words[i];
      assert Later(t, avc);
      var ts := words[i..] + rest;
      assert ts[0] == t && ts[1..] == words[i + 1..] + rest;
      assert words[..i + 1][..i] == words[..i];
      RunLater(words, i + 1, rest, Extended(k, t), avc);
      var v := Accumulated(words);
      assert k.m[k.key := Extended(k, t).value][k.key := v] == k.m[k.key := v];
    }
  }

  lemma AccumulatedOne(w: string)
    ensures Accumulated([w]) == Fix(w)
  {
  }

  /** A whole pair: its value replaces any earlier one for the key. */
  lemma RunPair(p: Pair, rest: seq<string>, k: Memo, avc: bool)
    requires WellFormed(p, avc) && !k.av
    ensures var v := Accumulated(p.words);
            Run(PairTokens(p) + rest, k, avc) == Run(rest, Memo(p.key, v, false, k.m[p.key := v]), avc)
  {
    hide Fix, Quoted, PairOf, PermWords, IsWord, Accumulated;
    var t := p.key + "=" + p.words[0];
    AccumulatedOne(p.words[0]);
    FirstPairWord(p, avc);
    var ts := PairTokens(p) + rest;
    assert ts[0] == t && ts[1..] == p.words[1..] + rest;
    var k1 := Stored(k, p.key, p.words[0]);
    assert p.words[..1] == [p.words[0]];
    RunLater(p.words, 1, rest, k1, avc);
    var v := Accumulated(p.words);
    assert k1.m[p.key := v] == k.m[p.key := v];
  }

  function RecordTokens(ps: seq<Pair>): seq<string>
    requires forall i :: 0 <= i < |ps| ==> ps[i].words != []
  {
    if ps == [] then [] else PairTokens(ps[0]) + RecordTokens(ps[1..])
  }

  /** Last value wins. */
  function FieldsOf(m: Fields, ps: seq<Pair>): Fields
    requires forall i :: 0 <= i < |ps| ==> ps[i].words != []
    decreases |ps|
  {
    if ps == [] then m else FieldsOf(m[ps[0].key := Accumulated(ps[0].words)], ps[1..])
  }

  ghost predicate AllWellFormed(ps: seq<Pair>, avc: bool) {
    forall i :: 0 <= i < |ps| ==> ps[i].words != [] && WellFormed(ps[i], avc)
  }

  /** What the machine remembers after a list of pairs. */
  function After(k: Memo, ps: seq<Pair>): (k': Memo)
    requires forall i :: 0 <= i < |ps| ==> ps[i].words != []
    ensures k'.m == FieldsOf(k.m, ps) && (ps == [] ==> k' == k)
    ensures ps != [] ==> k'.key == ps[|ps| - 1].key && k'.value == Accumulated(ps[|ps| - 1].words) && !k'.av
    decreases |ps|
  {
    if ps == [] then k
    else
      var v := Accumulated(ps[0].words);
      After(Memo(ps[0].key, v, false, k.m[ps[0].key := v]), ps[1..])
  }

  lemma {:induction false} RunPairs(ps: seq<Pair>, rest: seq<string>, k: Memo, avc: bool)
    requires AllWellFormed(ps, avc) && !k.av
    ensures Run(RecordTokens(ps) + rest, k, avc) == Run(rest, After(k, ps), avc)
    decreases |ps|
  {
    hide WellFormed, Accumulated, PairTokens, Run;
    if ps == [] {
      assert [] + rest == rest;
    } else {
      var p := ps[0];
      assert WellFormed(p, avc);
      var v := Accumulated(p.words);
      var more := RecordTokens(ps[1..]);
      assert PairTokens(p) + more + rest == PairTokens(p) + (more + rest);
      RunPair(p, more + rest, k, avc);
      RunPairs(ps[1..], rest, Memo(p.key, v, false, k.m[p.key := v]), avc);
    }
  }

  /** Pairs up to the end of the record. */
  lemma PairsEnd(ps: seq<Pair>, k: Memo, avc: bool)
    requires AllWellFormed(ps, avc) && !k.av
    ensures Run(RecordTokens(ps), k, avc) == Done(FieldsOf(k.m, ps))
  {
    hide WellFormed, RecordTokens, PermWords, Fix, PairOf, Quoted, FieldsOf;
    RunPairs(ps, [], k, avc);
    assert RecordTokens(ps) + [] == RecordTokens(ps);
  }

  lemma PairWordsPlain(p: Pair, avc: bool)
    requires WellFormed(p, avc)
    ensures AllWords(PairTokens(p)) && NoQuotedAvc(PairTokens(p))
  {
    hide IsWord, Later, PairOf, Quoted;
    FirstPairWord(p, avc);
    var ts := PairTokens(p);
    forall i | 0 <= i < |ts| ensures IsWord(ts[i]) && !Rereads(ts[i]) {
      if i > 0 { LaterPlain(p.words[i], avc); }
    }
  }

  lemma {:induction false} RecordWordsPlain(ps: seq<Pair>, avc: bool)
    requires AllWellFormed(ps, avc)
    ensures AllWords(RecordTokens(ps)) && NoQuotedAvc(RecordTokens(ps))
    ensures ps != [] ==> RecordTokens(ps) != []
    decreases |ps|
  {
    hide IsWord, WellFormed;
    if ps != [] {
      PairWordsPlain(ps[0], avc);
      RecordWordsPlain(ps[1..], avc);
    }
  }

  lemma LaterPlain(t: string, avc: bool)
    requires Later(t, avc)
    ensures IsWord(t) && !Rereads(t)
  {
    QuotedIsPair(t);
  }

  // ---------------------------------------------------------------------------
  // Whole records
  // ---------------------------------------------------------------------------

  function Render(timestamp: string, serial: string, text: string): string {
    "audit(" + (timestamp + (":" + (serial + ("): " + text))))
  }

  lemma SerialParses(serial: string, text: string)
    requires ')' !in serial
    ensures var rest := serial + ("): " + text);
            && Index(rest, ')') == |serial| && rest[..|serial|] == serial
            && "): " <= rest[|serial|..] && rest[|serial| + 3..] == text
  {
    CutAt(serial, "): " + text);
  }

  lemma HeaderParses(timestamp: string, serial: string, text: string)
    requires ':' !in timestamp && ')' !in serial
    ensures ReadHeader(Render(timestamp, serial, text)) == Some((timestamp, serial, text))
  {
    hide Index;
    var rest := serial + ("): " + text);
    var s := timestamp + (":" + rest);
    SerialParses(serial, text);
    CutAt(timestamp, ":" + rest);
    assert s[|timestamp| + 1..] == rest;
    PrefixCut("audit(", s);
  }

  lemma Restored(p: string, s: string, i: nat)
    requires i <= |s| && p <= s[i..]
    ensures i + |p| <= |s| && s == s[..i] + (p + s[i + |p|..])
  {
    assert s[i..][|p|..] == s[i + |p|..];
  }

  /** What a header was read from. */
  lemma HeaderForm(raw: string) returns (timestamp: string, serial: string, text: string)
    requires ReadHeader(raw).Some?
    ensures ReadHeader(raw).value == (timestamp, serial, text)
    ensures raw == Render(timestamp, serial, text) && ':' !in timestamp && ')' !in serial
  {
    hide ReadHeader, Index;
    var s, colon, rest, paren := HeaderParts(raw);
    timestamp, serial, text := s[..colon], rest[..paren], rest[paren + 3..];
    Restored("): ", rest, paren);
    assert s[colon..] == ":" + rest;
    Restored(":", s, colon);
    Restored("audit(", raw, 0);
    assert raw[..0] + ("audit(" + s) == "audit(" + s;
  }

  lemma HeaderParts(raw: string) returns (s: string, colon: nat, rest: string, paren: nat)
    requires ReadHeader(raw).Some?
    ensures "audit(" <= raw && s == raw[6..]
    ensures colon < |s| && s[colon] == ':' && ':' !in s[..colon] && rest == s[colon + 1..]
    ensures paren < |rest| && ')' !in rest[..paren] && "): " <= rest[paren..]
    ensures ReadHeader(raw).value == (s[..colon], rest[..paren], rest[paren + 3..])
  {
    hide Index;
    s := raw[6..];
    colon := Index(s, ':');
    rest := s[colon + 1..];
    paren := Index(rest, ')');
  }

  /** Exactly the texts of this form have a header. */
  lemma HeaderIff(raw: string, timestamp: string, serial: string, text: string)
    ensures ReadHeader(raw) == Some((timestamp, serial, text)) <==>
            raw == Render(timestamp, serial, text) && ':' !in timestamp && ')' !in serial
  {
    hide ReadHeader, Render;
    if ReadHeader(raw).Some? { var _, _, _ := HeaderForm(raw); }
    if ':' !in timestamp && ')' !in serial { HeaderParses(timestamp, serial, text); }
  }

  /** A record is malformed exactly when it is of no such form. */
  lemma MalformedIff(raw: string, avc: bool)
    ensures ParseEvent(raw, avc) == Malformed <==>
            forall timestamp, serial, text ::
              raw == Render(timestamp, serial, text) ==> ':' in timestamp || ')' in serial
  {
    hide ReadHeader, Render, Loop;
    forall timestamp, serial, text | raw == Render(timestamp, serial, text)
      ensures ReadHeader(raw) == None ==> ':' in timestamp || ')' in serial
    {
      HeaderIff(raw, timestamp, serial, text);
    }
    if ReadHeader(raw).Some? {
      var (timestamp, serial, text) := ReadHeader(raw).value;
      HeaderIff(raw, timestamp, serial, text);
    }
  }

  lemma PrefixCut(a: string, b: string)
    ensures a <= a + b && (a + b)[|a|..] == b
  {
  }

  /** The first delimiter behind a text that does not contain it. */
  lemma CutAt(a: string, b: string)
    requires b != "" && b[0] !in a
    ensures Index(a + b, b[0]) == |a| && (a + b)[..|a|] == a && (a + b)[|a|..] == b
  {
    hide Index;
    assert (a + b)[..|a|] == a;
    IndexIs(a + b, b[0], |a|);
  }

  /** A text without words that are read twice is read word by word to its end. */
  lemma TextRuns(text: string, avc: bool)
    requires NoQuotedAvc(Tokens(text))
    ensures Loop(Start(text), |text|, avc) ==
            if text == "" then Done(map[]) else Run(Tokens(text), Memo("", "", false, map[]), avc)
  {
    hide Run, Tokens, Covered, NoQuotedAvc;
    if text != "" {
      PlainCovered(text, 0, avc, false);
      TextRefines(text, avc);
    } else {
      assert Loop(Start(text), 0, avc) == Done(map[]);
    }
  }

  /**
   Round trip: a record rendered from a timestamp, a serial and a list of pairs
   parses to that timestamp and serial and to the pairs, the last one winning.
   */
  lemma RecordParses(timestamp: string, serial: string, ps: seq<Pair>, avc: bool)
    requires ':' !in timestamp && ')' !in serial && AllWellFormed(ps, avc)
    ensures ParseEvent(Render(timestamp, serial, Joined(RecordTokens(ps))), avc) ==
            Parsed(Event(timestamp, serial, FieldsOf(map[], ps)))
  {
    hide ReadHeader, Render, Loop, Run, Tokens, WellFormed, AllWords;
    var text := Joined(RecordTokens(ps));
    HeaderParses(timestamp, serial, text);
    PairsText(ps, avc);
  }

  lemma PairsText(ps: seq<Pair>, avc: bool)
    requires AllWellFormed(ps, avc)
    ensures var text := Joined(RecordTokens(ps)); Loop(Start(text), |text|, avc) == Done(FieldsOf(map[], ps))
  {
    hide Loop, Tokens, AllWords, NoQuotedAvc, FieldsOf, WellFormed, PermWords, Fix, PairOf, Quoted;
    var text := Joined(RecordTokens(ps));
    var k := Memo("", "", false, map[]);
    if ps == [] {
      assert Tokens(text) == [""] by { LastToken(""); }
      assert NoQuotedAvc([""]) by { EmptyPlain(); }
      TextRuns(text, avc);
      assert FieldsOf(map[], ps) == map[] by { NoFields(); }
    } else {
      RecordWordsPlain(ps, avc);
      JoinedTokens(RecordTokens(ps));
      JoinedNonEmpty(RecordTokens(ps));
      TextRuns(text, avc);
      RunPairs(ps, [], k, avc);
      assert RecordTokens(ps) + [] == RecordTokens(ps);
      assert Run([], After(k, ps), avc) == Done(After(k, ps).m);
    }
  }

  lemma EmptyPlain()
    ensures NoQuotedAvc([""])
  {
  }

  lemma NoFields()
    ensures FieldsOf(map[], []) == map[]
  {
  }

  lemma JoinedNonEmpty(ts: seq<string>)
    requires ts != [] && AllWords(ts)
    ensures Joined(ts) != ""
  {
    assert IsWord(ts[0]);
  }

  // ---------------------------------------------------------------------------
  // Values that survive unchanged
  // ---------------------------------------------------------------------------

  ghost predicate EndsIn(v: string, c: char) {
    v != "" && v[|v| - 1] == c
  }

  /** A text without trailing punctuation, or one of the two that keep their parenthesis. */
  ghost predicate Clean(v: string) {
    (!EndsIn(v, '\'') && !EndsIn(v, ',') && !EndsIn(v, ')')) || v == "(none)" || v == "(null)"
  }

  /** What is stripped, by the last character of any text: one quote, then one comma, then one parenthesis. */
  lemma FixByLast(v: string)
    ensures Fix(v) == v <==> Clean(v)
    ensures Fix(v + "'") == if EndsIn(v, '\'') then v else Fix(v)
    ensures Fix(v + ",") == if EndsIn(v, ')') then Fix(v) else v
    ensures Fix(v + ")") == if v == "(none" || v == "(null" then v + ")" else v
  {
    hide Fix, Clean;
    FixKeeps(v);
    FixPunctuation(v);
    FixParenthesis(v);
  }

  lemma DropIff(v: string, c: char)
    ensures Drop(v, c) == v <==> !EndsIn(v, c)
    ensures forall d: char :: Drop(v + [d], c) == if d == c then v else v + [d]
  {
    assert forall d: char :: (v + [d])[..|v|] == v;
  }

  lemma FixKeeps(v: string)
    ensures Fix(v) == v <==> Clean(v)
  {
    hide Drop;
    DropIff(v, '\'');
    DropIff(v, ',');
    DropIff(v, ')');
    if v == "(none)" || v == "(null)" { assert !EndsIn(v, '\'') && !EndsIn(v, ','); }
  }

  lemma FixPunctuation(v: string)
    ensures Fix(v + "'") == if EndsIn(v, '\'') then v else Fix(v)
    ensures Fix(v + ",") == if EndsIn(v, ')') then Fix(v) else v
  {
    hide Drop;
    DropIff(v, '\'');
    DropIff(v, ',');
    DropIff(v, ')');
    assert "'" == ['\''] && "," == [','];
  }

  lemma FixParenthesis(v: string)
    ensures Fix(v + ")") == if v == "(none" || v == "(null" then v + ")" else v
  {
    hide Drop;
    DropIff(v, '\'');
    DropIff(v, ',');
    DropIff(v, ')');
    assert ")" == [')'];
    assert "(none" + ")" == "(none)" && "(null" + ")" == "(null)";
    var p := v + ")";
    DropIff(p, ',');
    assert p == "(none)" ==> v == p[..5] == "(none";
    assert p == "(null)" ==> v == p[..5] == "(null";
  }

  /** The punctuation a value may carry: a parenthesis, a comma and a quote, in this order, each or none. */
  ghost predicate Punctuation(p: string) {
    p in {"", ")", ",", "'", "),", ")'", ",'", "),'"}
  }

  /** Punctuation behind a text without any is stripped, but for the parenthesis of (none) and (null). */
  lemma FixStrips(u: string, p: string)
    requires !EndsIn(u, '\'') && !EndsIn(u, ',') && !EndsIn(u, ')') && Punctuation(p)
    ensures Fix(u + p) == if ')' in p && (u == "(none" || u == "(null") then u + ")" else u
  {
    hide Fix;
    FixByLast(u);
    FixByLast(u + ")");
    FixByLast(u + ",");
    FixByLast(u + "),");
    assert u + "" == u && u + ")" + "," == u + ")," && u + ")" + "'" == u + ")'";
    assert u + "," + "'" == u + ",'" && u + ")," + "'" == u + "),'";
  }

  /** No accumulated prefix of the value ends in punctuation that is stripped. */
  ghost predicate Unstripped(words: seq<string>) {
    forall i :: 1 <= i <= |words| ==> Clean(Joined(words[..i]))
  }

  lemma {:induction false} JoinedSnoc(ts: seq<string>, t: string)
    requires ts != []
    ensures Joined(ts + [t]) == Joined(ts) + " " + t
    decreases |ts|
  {
    if |ts| == 1 {
      assert (ts + [t])[1..] == [t];
    } else {
      assert (ts + [t])[1..] == ts[1..] + [t];
      JoinedSnoc(ts[1..], t);
      assert ts[0] + " " + (Joined(ts[1..]) + " " + t) == ts[0] + " " + Joined(ts[1..]) + " " + t;
    }
  }

  /** A value comes back as it was rendered exactly when nothing is stripped on the way. */
  lemma {:induction false} ValueSurvives(words: seq<string>)
    requires words != []
    ensures |Accumulated(words)| <= |Joined(words)|
    ensures |Accumulated(words)| == |Joined(words)| ==> Accumulated(words) == Joined(words)
    ensures Accumulated(words) == Joined(words) <==> Unstripped(words)
    decreases |words|
  {
    hide Fix, Clean;
    var n := |words|;
    assert words[..n] == words;
    FixByLast(Joined(words));
    if n == 1 {
      assert Unstripped(words) <==> Clean(words[0]);
    } else {
      var short, w := words[..n - 1], words[n - 1];
      ValueSurvives(short);
      assert short + [w] == words;
      JoinedSnoc(short, w);
      assert forall i :: 1 <= i <= n - 1 ==> short[..i] == words[..i];
      assert Unstripped(words) <==> Unstripped(short) && Clean(Joined(words));
    }
  }

  /** The words of the last pair with a key. */
  function LastOf(ps: seq<Pair>, key: string): Option<seq<string>> {
    if ps == [] then None
    else if ps[|ps| - 1].key == key then Some(ps[|ps| - 1].words)
    else LastOf(ps[..|ps| - 1], key)
  }

  lemma {:induction false} FieldsSnoc(m: Fields, ps: seq<Pair>, p: Pair)
    requires p.words != [] && forall i :: 0 <= i < |ps| ==> ps[i].words != []
    ensures FieldsOf(m, ps + [p]) == FieldsOf(m, ps)[p.key := Accumulated(p.words)]
    decreases |ps|
  {
    hide Accumulated;
    if ps == [] {
      assert [p][1..] == [];
    } else {
      assert (ps + [p])[1..] == ps[1..] + [p];
      FieldsSnoc(m[ps[0].key := Accumulated(ps[0].words)], ps[1..], p);
    }
  }

  /** A key has the value of its last pair; other keys are as they were. */
  lemma {:induction false} LastWins(m: Fields, ps: seq<Pair>, key: string)
    requires forall i :: 0 <= i < |ps| ==> ps[i].words != [] && Unstripped(ps[i].words)
    ensures var r := FieldsOf(m, ps);
            match LastOf(ps, key)
            case None => (key in r <==> key in m) && (key in m ==> r[key] == m[key])
            case Some(words) => key in r && r[key] == Joined(words)
    decreases |ps|
  {
    hide Accumulated, Unstripped, Joined;
    if ps != [] {
      var n := |ps|;
      assert ps[..n - 1] + [ps[n - 1]] == ps;
      FieldsSnoc(m, ps[..n - 1], ps[n - 1]);
      LastWins(m, ps[..n - 1], key);
      ValueSurvives(ps[n - 1].words);
    }
  }

  /**
   Round trip on values that are not altered: every key of the parsed record has the
   text of its last pair, and there are no other keys.
   */
  lemma RecordReturns(timestamp: string, serial: string, ps: seq<Pair>, avc: bool, key: string)
    requires ':' !in timestamp && ')' !in serial && AllWellFormed(ps, avc)
    requires forall i :: 0 <= i < |ps| ==> ps[i].words != [] && Unstripped(ps[i].words)
    ensures var r := ParseEvent(Render(timestamp, serial, Joined(RecordTokens(ps))), avc);
            && r.Parsed? && r.event.timestamp == timestamp && r.event.serial == serial
            && match LastOf(ps, key)
               case None => key !in r.event.data
               case Some(words) => key in r.event.data && r.event.data[key] == Joined(words)
  {
    hide ParseEvent, Render, FieldsOf, WellFormed, Unstripped, Joined, RecordTokens, LastOf;
    RecordParses(timestamp, serial, ps, avc);
    LastWins(map[], ps, key);
  }
}
