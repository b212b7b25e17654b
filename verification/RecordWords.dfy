/**
 The record loop as a fold over words. Splitting the text into words first and
 then running a small machine over the list gives the same result as the loop
 with its character counter, unless the guard cuts the loop off before a word.
 Exactly when that happens is a property of the text alone.
 */
module RecordWords {
  import opened Words
  import opened Record

  /** The words of a text. Text that ends in a space has an empty last word, and so has the empty text. */
  function Tokens(str: string): (ts: seq<string>)
    ensures ts != []
    decreases |str|
  {
    var s := SkipSpaces(str);
    var t := Token(s);
    if |t| == |s| then [t] else [t] + Tokens(s[|t| + 1..])
  }

  /** What the machine remembers between words. */
  datatype Memo = Memo(key: string, value: string, av: bool, m: Fields)

  function Extended(k: Memo, t: string): Memo {
    var value := Fix(k.value + " " + t);
    k.(value := value, m := k.m[k.key := value])
  }

  function Stored(k: Memo, key: string, value: string): Memo {
    k.(key := key, value := Fix(value), m := k.m[key := Fix(value)])
  }

  /** The words up to the closing brace, joined by commas, and the words behind it. */
  function PermWords(ts: seq<string>, v: string): Option<(string, seq<string>)> {
    if ts == [] then None
    else if ts[0] == "}" then Some((v, ts[1..]))
    else PermWords(ts[1..], (if v != "" then v + "," else v) + ts[0])
  }

  /** A word `msg='...` with no further equals sign. */
  predicate Quoted(t: string) {
    "msg='" <= t && '=' !in t[4..]
  }

  /** The pair in a word with an equals sign, looking behind `msg='`. */
  function PairOf(t: string): (string, string)
    requires '=' in t && !Quoted(t)
  {
    var eq := Index(t, '=');
    if "msg='" <= t then
      var inner := t[4..];
      var i := Index(inner, '=');
      (inner[1..i], inner[i + 1..])
    else (t[..eq], t[eq + 1..])
  }

  /** The machine: one word at a time; running out of words where the AVC grammar wants one is a panic. */
  function Run(ts: seq<string>, k: Memo, avc: bool): Outcome
    decreases |ts|, if ts == [] then 0 else |ts[0]|
  {
    if ts == [] then Done(k.m)
    else
      var t, rest := ts[0], ts[1..];
      if '=' in t then
        if !Quoted(t) then Run(rest, Stored(k, PairOf(t).0, PairOf(t).1), avc)
        else if "msg='avc" <= t then Run([t[5..]] + rest, k.(key := "msg", value := t[4..]), avc)
        else Done(k.m)
      else if !avc then Run(rest, Extended(k, t), avc)
      else if t == "avc:" then (if rest == [] then Slip else Run(rest, k.(av := true), avc))
      else if k.av then Run(rest, Memo("seresult", t, false, k.m["seresult" := t]), avc)
      else if "{" <= t then
        match PermWords(rest, "")
        case None => Slip
        case Some((v, after)) =>
          PermWordsShorter(rest, "");
          Run(after, Memo("seperms", Fix(v), k.av, k.m["seperms" := v]), avc)
      else if t == "for" then (if rest == [] then Slip else Run(rest, k, avc))
      else Run(rest, Extended(k, t), avc)
  }

  lemma {:induction false} PermWordsShorter(ts: seq<string>, v: string)
    ensures PermWords(ts, v).Some? ==> |PermWords(ts, v).value.1| <= |ts|
    decreases |ts|
  {
    if ts != [] && ts[0] != "}" { PermWordsShorter(ts[1..], (if v != "" then v + "," else v) + ts[0]); }
  }

  // ---------------------------------------------------------------------------
  // How the loop ends
  // ---------------------------------------------------------------------------

  /** A quoted word the loop never gets past. */
  predicate StuckWord(t: string) {
    Quoted(t) && !("msg='avc" <= t)
  }

  /** A quoted word that is read a second time without its first five characters. */
  predicate Rereads(t: string) {
    Quoted(t) && "msg='avc" <= t
  }

  /** At a break, in a panic, on a word it never gets past, or cut off by its guard before it looks at a word. */
  datatype Ended = Broke(m: Fields) | Slipped | Stuck(m: Fields) | Cut(st: Scan)

  function EndOf(st: Scan, orig: nat, avc: bool): Ended
    decreases orig - st.n
  {
    if st.n >= orig then Cut(st)
    else if StuckWord(Token(SkipSpaces(st.str))) then Stuck(st.m)
    else
      match StepOf(st, avc)
      case StepSlip => Slipped
      case Break(m) => Broke(m)
      case Continue(st') => EndOf(st', orig, avc)
  }

  function OutcomeOf(e: Ended): Outcome {
    match e
    case Broke(m) => Done(m)
    case Slipped => Slip
    case Stuck(m) => Done(m)
    case Cut(st) => Done(st.m)
  }

  /**
   Whether the guard lets the loop look at every word. The loop counts the
   characters of words and not the spaces between them, so it falls behind, except
   that a word `msg='avc...` is counted in full although only five characters of
   it are consumed. `slack` is how far it is behind; below zero it is ahead.
   */
  ghost predicate Covered(str: string, slack: int, avc: bool, av: bool)
    decreases |str|
  {
    var s := SkipSpaces(str);
    var t := Token(s);
    var slack1 := slack + |str| - |s|;
    && slack + |str| > 0
    && if '=' in t && Quoted(t) then
         "msg='avc" <= t ==> Covered(s[5..], slack1 - (|t| - 5), avc, av)
       else if |t| == |s| then true
       else if avc && '=' !in t && t == "avc:" then Covered(s[|t| + 1..], slack1 + 1, avc, true)
       else if avc && '=' !in t && av then Covered(s[|t| + 1..], slack1 + 1, avc, false)
       else if avc && '=' !in t && "{" <= t then BracesCovered(s[|t| + 1..], slack1 + 1)
       else Covered(s[|t| + 1..], slack1 + 1, avc, av)
  }

  /** The same inside the braces of an AVC record: no guard there, and only the closing brace is special. */
  ghost predicate BracesCovered(str: string, slack: int)
    decreases |str|
  {
    var s := SkipSpaces(str);
    var t := Token(s);
    var slack1 := slack + |str| - |s|;
    if |t| == |s| then true
    else if t == "}" then Covered(s[|t| + 1..], slack1 + 1, true, false)
    else BracesCovered(s[|t| + 1..], slack1 + 1)
  }

  /** No word of the text is read twice. */
  ghost predicate NoQuotedAvc(ts: seq<string>) {
    forall i :: 0 <= i < |ts| ==> !Rereads(ts[i])
  }

  /** Without such words it is enough that the counter is not further ahead than the last word is long. */
  lemma {:induction false} PlainCovered(str: string, slack: int, avc: bool, av: bool)
    requires NoQuotedAvc(Tokens(str)) && slack + |LastWord(str)| >= 0
    ensures slack + |str| > 0 ==> Covered(str, slack, avc, av)
    ensures BracesCovered(str, slack)
    decreases |str|
  {
    hide Quoted, Token, SkipSpaces, Tokens;
    var s := SkipSpaces(str);
    var t := Token(s);
    TokensSplit(str);
    var ts := Tokens(str);
    assert !Rereads(ts[0]);
    if |t| < |s| {
      forall i | 0 <= i < |ts[1..]| ensures !Rereads(ts[1..][i]) { assert ts[1..][i] == ts[i + 1]; }
      var more, slack1 := s[|t| + 1..], slack + |str| - |s| + 1;
      assert LastWord(str) == LastWord(more);
      LastWordShort(more);
      PlainCovered(more, slack1, avc, av);
      PlainCovered(more, slack1, avc, true);
      PlainCovered(more, slack1, true, false);
      PlainCovered(more, slack1, avc, false);
    }
  }

  function LastWord(str: string): string {
    Tokens(str)[|Tokens(str)| - 1]
  }

  lemma {:induction false} LastWordShort(str: string)
    ensures |LastWord(str)| <= |str|
    decreases |str|
  {
    hide Token, SkipSpaces, Tokens;
    TokensSplit(str);
    var s := SkipSpaces(str);
    var t := Token(s);
    if |t| < |s| {
      LastWordShort(s[|t| + 1..]);
      assert LastWord(str) == LastWord(s[|t| + 1..]);
    }
  }

  // ---------------------------------------------------------------------------
  // Words of a text
  // ---------------------------------------------------------------------------

  function MemoOf(st: Scan): Memo {
    Memo(st.key, st.value, st.av, st.m)
  }

  lemma {:induction false} IndexIs(s: string, c: char, i: nat)
    requires i < |s| && s[i] == c && c !in s[..i]
    ensures Index(s, c) == i
    decreases |s|
  {
    if i > 0 {
      assert s[0] == s[..i][0];
      assert s[1..][..i - 1] == s[..i][1..];
      IndexIs(s[1..], c, i - 1);
    }
  }

  lemma TokenUnique(s: string, t: string)
    requires t <= s && ' ' !in t && (|t| < |s| ==> s[|t|] == ' ')
    ensures Token(s) == t
  {
    hide Index;
    if |t| < |s| {
      assert s[..|t|] == t;
      IndexIs(s, ' ', |t|);
    }
  }

  /** First word and further words of a text. */
  lemma TokensSplit(str: string)
    ensures var s := SkipSpaces(str);
            var t := Token(s);
            Tokens(str)[0] == t && Tokens(str)[1..] == if |t| == |s| then [] else Tokens(s[|t| + 1..])
  {
    hide Token, SkipSpaces;
  }

  lemma TokensSkip(s: string)
    ensures Tokens(SkipSpaces(s)) == Tokens(s)
  {
    hide Token;
    SkipTwice(s);
  }

  /** The permission loop reads the same words as the machine, and leaves the counter where the text says. */
  lemma {:induction false} PermsRefine(str: string, n: nat, v: string, slack: int)
    ensures match Perms(str, n, v)
            case None => PermWords(Tokens(str), v) == None && BracesCovered(str, slack)
            case Some((s, n', v')) =>
              && PermWords(Tokens(str), v) == Some((v', if |s| == 1 then [] else Tokens(s[2..])))
              && (BracesCovered(str, slack) <==>
                    |s| == 1 || Covered(s[2..], slack + n + |str| - n' - |s[2..]|, true, false))
    decreases |str|
  {
    hide Token, SkipSpaces, Tokens, Covered, Perms;
    var s := SkipSpaces(str);
    var t := Token(s);
    TokensSplit(str);
    PermsRound(str, n, v);
    if t != "}" && |t| < |s| {
      PermsRefine(s[|t| + 1..], n + |t|, (if v != "" then v + "," else v) + t, slack + |str| - |s| + 1);
    }
  }

  /** What the loop body does with a quoted word. */
  lemma QuotedStep(st: Scan)
    requires Quoted(Token(st.str))
    ensures var t := Token(st.str);
            && '=' in t && Index(t, '=') == 3
            && ("msg='avc" <= t <==> "msg='avc" <= st.str)
            && PairWord(st, t, 3) ==
               Continue(st.(key := "msg", value := t[4..], str := if "msg='avc" <= t then st.str[5..] else st.str))
  {
    hide Token;
    var t := Token(st.str);
    assert t[..3] == "msg" && '=' !in "msg";
    IndexIs(t, '=', 3);
    assert t[4..][0] == t[4];
    if "msg='avc" <= st.str && |t| < |st.str| { SpaceBehind(st.str, t, "msg='avc"); }
  }

  /** A prefix without spaces is a prefix of the first word. */
  lemma SpaceBehind(s: string, t: string, p: string)
    requires t <= s && |t| < |s| && s[|t|] == ' ' && p <= s && ' ' !in p
    ensures p <= t
  {
    assert forall j :: 0 <= j < |p| ==> p[j] == s[j] && p[j] in p;
  }

  /** The test for `msg='` on the parts of a pair is a test for a prefix of the word. */
  lemma QuotePrefix(t: string, eq: nat)
    requires eq < |t| && t[eq] == '=' && '=' !in t[..eq]
    ensures t[..eq] == "msg" && "'" <= t[eq + 1..] <==> "msg='" <= t
    ensures "msg='" <= t ==> eq == 3
  {
    hide Index;
    if t[..eq] == "msg" && "'" <= t[eq + 1..] {
      assert t[4] == t[4..][0];
      assert t[..5] == t[..3] + [t[3], t[4]];
    }
    if "msg='" <= t {
      assert t[..3] == "msg" && '=' !in "msg";
      IndexIs(t, '=', 3);
      IndexIs(t, '=', eq);
      assert t[4..][0] == t[4];
    }
  }

  /** What the loop body does with any other pair. */
  lemma PairStep(st: Scan, t: string)
    requires |t| <= |st.str| && '=' in t && !Quoted(t)
    ensures PairWord(st, t, Index(t, '=')) == Store(st, t, PairOf(t).0, PairOf(t).1)
  {
    hide Index, Store;
    var eq := Index(t, '=');
    QuotePrefix(t, eq);
    if "msg='" <= t {
      assert t[..3] == "msg" && '=' !in "msg";
      IndexIs(t, '=', 3);
      assert t[eq + 1..] == t[4..];
    }
  }

  lemma SkipNone(s: string)
    requires s == "" || s[0] != ' '
    ensures SkipSpaces(s) == s
  {
  }

  /** Text cut inside its first word: the same words, the first one cut too. */
  lemma CutTokens(s: string, k: nat)
    requires s == SkipSpaces(s) && k < |Token(s)|
    ensures Tokens(s[k..]) == [Token(s)[k..]] + Tokens(s)[1..]
  {
    hide Token, Index, Tokens, SkipSpaces;
    var t := Token(s);
    var s', t' := s[k..], t[k..];
    assert s'[0] == t[k] && t[k] in t;
    SkipNone(s');
    assert t == t[..k] + t';
    TokenUnique(s', t');
    TokensSplit(s);
    TokensSplit(s');
    if |t| < |s| { assert s'[|t'| + 1..] == s[|t| + 1..]; }
    assert Tokens(s') == [Tokens(s')[0]] + Tokens(s')[1..];
  }

  // ---------------------------------------------------------------------------
  // One step
  // ---------------------------------------------------------------------------

  /**
   A step of the loop, taken at `st` where the counter is `slack` behind, agrees
   with the machine: the same end, or a state from which the machine goes on
   alike. Whether the guard lets every word through is settled at the next state.
   */
  ghost predicate Agrees(st: Scan, r: Step, out: Outcome, slack: int, avc: bool) {
    match r
    case StepSlip => out == Slip && Covered(st.str, slack, avc, st.av)
    case Break(m) => out == Done(m) && Covered(st.str, slack, avc, st.av)
    case Continue(st') =>
      && out == Run(Tokens(st'.str), MemoOf(st'), avc)
      && (Covered(st.str, slack, avc, st.av) <==>
            Covered(st'.str, slack + st.n + |st.str| - st'.n - |st'.str|, avc, st'.av))
  }

  /** Past a word that is not quoted: the counter one space further behind, the flag as the AVC grammar sets it. */
  lemma MoveOn(st: Scan, st1: Scan, slack: int, avc: bool)
    requires st1 == WordRead(st) && slack + |st.str| > 0
    requires var t := Token(st1.str); '=' in t ==> !Quoted(t)
    ensures Tokens(st.str)[0] == Token(st1.str)
    ensures var t := Token(st1.str);
            if |t| == |st1.str| then Tokens(st.str)[1..] == [] && Covered(st.str, slack, avc, st.av)
            else
              var more := st1.str[|t| + 1..];
              var slack' := slack + st.n + |st.str| - st1.n - |more|;
              var special := avc && '=' !in t;
              && Tokens(more) == Tokens(st.str)[1..] && slack' == slack + |st.str| - |st1.str| + 1
              && (Covered(st.str, slack, avc, st.av) <==>
                    if special && (t == "avc:" || st.av) then Covered(more, slack', avc, t == "avc:")
                    else if special && "{" <= t then BracesCovered(more, slack')
                    else Covered(more, slack', avc, st.av))
  {
    hide Quoted, Token, SkipSpaces, Tokens, BracesCovered;
    var t := Token(st1.str);
    TokensSplit(st.str);
    if |t| < |st1.str| {
      var more := st1.str[|t| + 1..];
      assert slack + st.n + |st.str| - st1.n - |more| == slack + |st.str| - |st1.str| + 1;
    }
  }

  lemma ExtendAgrees(st: Scan, avc: bool, slack: int)
    requires slack + |st.str| > 0
    requires var t := Token(SkipSpaces(st.str));
             '=' !in t && (avc ==> t != "avc:" && !st.av && !("{" <= t) && t != "for")
    ensures var st1 := WordRead(st);
            Agrees(st, Extend(st1, Token(st1.str)), Run(Tokens(st.str), MemoOf(st), avc), slack, avc)
  {
    hide Quoted, Token, SkipSpaces, Tokens, PermWords, Fix, PairOf, Covered, BracesCovered;
    MoveOn(st, WordRead(st), slack, avc);
  }

  lemma StoreAgrees(st: Scan, avc: bool, slack: int)
    requires slack + |st.str| > 0
    requires var t := Token(SkipSpaces(st.str)); '=' in t && !Quoted(t)
    ensures var st1 := WordRead(st);
            var r := PairWord(st1, Token(st1.str), Index(Token(st1.str), '='));
            Agrees(st, r, Run(Tokens(st.str), MemoOf(st), avc), slack, avc)
  {
    hide Quoted, Token, SkipSpaces, Tokens, PermWords, Fix, PairOf, PairWord, Covered, BracesCovered;
    var st1 := WordRead(st);
    PairStep(st1, Token(st1.str));
    MoveOn(st, st1, slack, avc);
  }

  lemma UnquoteAgrees(st: Scan, avc: bool, slack: int)
    requires slack + |st.str| > 0
    requires var t := Token(SkipSpaces(st.str)); Quoted(t) && "msg='avc" <= t
    ensures var st1 := WordRead(st);
            && '=' in Token(st1.str)
            && var r := PairWord(st1, Token(st1.str), Index(Token(st1.str), '='));
               Agrees(st, r, Run(Tokens(st.str), MemoOf(st), avc), slack, avc)
  {
    hide Quoted, Token, SkipSpaces, Tokens, PermWords, Fix, PairOf, PairWord, Index, BracesCovered;
    var st1 := WordRead(st);
    SkipTwice(st.str);
    QuotedStep(st1);
    CutTokens(st1.str, 5);
    TokensSkip(st.str);
    TokensSplit(st.str);
  }

  lemma AvcAgrees(st: Scan, slack: int)
    requires slack + |st.str| > 0
    requires '=' !in Token(SkipSpaces(st.str))
    ensures var st1 := WordRead(st);
            Agrees(st, AvcWord(st1, Token(st1.str)), Run(Tokens(st.str), MemoOf(st), true), slack, true)
  {
    hide Quoted, Token, SkipSpaces, Tokens, PermWords, Perms, Fix, PairOf, Covered, BracesCovered;
    var st1 := WordRead(st);
    var t := Token(st1.str);
    if t != "avc:" && !st.av && "{" <= t {
      BraceAgrees(st, slack);
    } else if t == "avc:" || st.av || t == "for" {
      MoveOn(st, st1, slack, true);
    } else {
      ExtendAgrees(st, true, slack);
    }
  }

  lemma BraceAgrees(st: Scan, slack: int)
    requires slack + |st.str| > 0 && !st.av
    requires var t := Token(SkipSpaces(st.str)); '=' !in t && "{" <= t && t != "avc:"
    ensures var st1 := WordRead(st);
            Agrees(st, AvcWord(st1, Token(st1.str)), Run(Tokens(st.str), MemoOf(st), true), slack, true)
  {
    hide Quoted, Token, SkipSpaces, Tokens, PermWords, Perms, Fix, PairOf, Covered, BracesCovered;
    var st1 := WordRead(st);
    var t := Token(st1.str);
    MoveOn(st, st1, slack, true);
    if |t| == |st1.str| {
      NoPermWords();
    } else {
      PermsRefine(st1.str[|t| + 1..], st1.n, "", slack + |st.str| - |st1.str| + 1);
    }
  }

  lemma NoPermWords()
    ensures PermWords([], "") == None
  {
  }

  lemma StepAgrees(st: Scan, avc: bool, slack: int)
    requires slack + |st.str| > 0 && !StuckWord(Token(SkipSpaces(st.str)))
    ensures Agrees(st, StepOf(st, avc), Run(Tokens(st.str), MemoOf(st), avc), slack, avc)
  {
    hide Quoted, Token, SkipSpaces, Agrees, PairWord, AvcWord, Extend;
    var t := Token(WordRead(st).str);
    if '=' in t && Quoted(t) {
      UnquoteAgrees(st, avc, slack);
    } else if '=' in t {
      StoreAgrees(st, avc, slack);
    } else if avc {
      QuotedIsPair(t);
      AvcAgrees(st, slack);
    } else {
      ExtendAgrees(st, avc, slack);
    }
  }

  lemma QuotedIsPair(t: string)
    ensures Quoted(t) ==> '=' in t
  {
    assert Quoted(t) ==> t[3] == '=';
  }

  // ---------------------------------------------------------------------------
  // The whole loop
  // ---------------------------------------------------------------------------

  /** A quoted word that is not `msg='avc...` is read again and again until the counter ends the loop. */
  lemma {:induction false} StuckEnds(st: Scan, orig: nat, avc: bool)
    requires StuckWord(Token(SkipSpaces(st.str)))
    ensures Loop(st, orig, avc) == Done(st.m)
    decreases orig - st.n
  {
    hide Quoted, SkipSpaces, Token, PairWord, Index;
    if st.n < orig {
      SkipTwice(st.str);
      var st1 := WordRead(st);
      QuotedStep(st1);
      StuckEnds(StepOf(st, avc).st, orig, avc);
    }
  }

  /** The result of the loop, from how it ends. */
  lemma {:induction false} LoopEnds(st: Scan, orig: nat, avc: bool)
    ensures Loop(st, orig, avc) == OutcomeOf(EndOf(st, orig, avc))
    decreases orig - st.n
  {
    hide StepOf, StuckWord, Token, SkipSpaces;
    if st.n < orig {
      if StuckWord(Token(SkipSpaces(st.str))) {
        StuckEnds(st, orig, avc);
      } else if StepOf(st, avc).Continue? {
        LoopEnds(StepOf(st, avc).st, orig, avc);
      }
    }
  }

  /** Exactly when the guard cuts the loop off: the condition is on the text, and the counter so far. */
  lemma {:induction false} CutIff(st: Scan, orig: nat, avc: bool)
    ensures EndOf(st, orig, avc).Cut? <==> !Covered(st.str, orig - st.n - |st.str|, avc, st.av)
    decreases orig - st.n
  {
    hide StepOf, Token, SkipSpaces, BracesCovered, Quoted, Run, Tokens;
    if st.n < orig {
      var slack := orig - st.n - |st.str|;
      if StuckWord(Token(SkipSpaces(st.str))) {
        QuotedIsPair(Token(SkipSpaces(st.str)));
      } else {
        StepAgrees(st, avc, slack);
        StepGrows(st, avc);
        var r := StepOf(st, avc);
        if r.Continue? { CutIff(r.st, orig, avc); }
      }
    }
  }

  lemma StepGrows(st: Scan, avc: bool)
    ensures StepOf(st, avc).Continue? ==> st.n < StepOf(st, avc).st.n
  {
  }

  /**
   Unless it is cut off, the loop gives the result of the machine on the words of
   the text: it panics exactly where the machine runs out of words.
   */
  lemma {:induction false} LoopRefines(st: Scan, orig: nat, avc: bool)
    ensures EndOf(st, orig, avc).Cut? || Loop(st, orig, avc) == Run(Tokens(st.str), MemoOf(st), avc)
    decreases orig - st.n
  {
    hide StepOf, Token, SkipSpaces, Covered, Quoted, Tokens, PermWords, Fix, PairOf;
    if st.n < orig {
      if StuckWord(Token(SkipSpaces(st.str))) {
        StuckEnds(st, orig, avc);
        TokensSplit(st.str);
        QuotedIsPair(Token(SkipSpaces(st.str)));
      } else {
        StepAgrees(st, avc, orig - st.n - |st.str|);
        StepGrows(st, avc);
        var r := StepOf(st, avc);
        if r.Continue? { LoopRefines(r.st, orig, avc); }
      }
    }
  }

  /** The same for a whole text, with the condition on the text alone. */
  lemma TextRefines(text: string, avc: bool)
    ensures EndOf(Start(text), |text|, avc).Cut? <==> !Covered(text, 0, avc, false)
    ensures Covered(text, 0, avc, false) ==>
              Loop(Start(text), |text|, avc) == Run(Tokens(text), Memo("", "", false, map[]), avc)
  {
    hide Loop, Run, Tokens, Covered, EndOf;
    CutIff(Start(text), |text|, avc);
    LoopRefines(Start(text), |text|, avc);
  }
}
