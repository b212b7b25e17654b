/**
 The hand-written parser of audit records (parser.go): a header, then
 space-separated words that are key=value pairs, further words of the previous
 value, or part of the AVC grammar. Go strings are byte strings; a `char` stands
 for one byte. Slicing past the end of a string is a panic, here `Slip`.
 */
module Record {
  import opened Words

  // ---------------------------------------------------------------------------
  // String helpers
  // ---------------------------------------------------------------------------

  /** strings.Index for one character. */
  function Index(s: string, c: char): (i: int)
    ensures -1 <= i < |s|
    ensures i == -1 <==> c !in s
    ensures i >= 0 ==> s[i] == c && c !in s[..i]
  {
    if s == "" then -1
    else if s[0] == c then 0
    else
      var j := Index(s[1..], c);
      assert s == [s[0]] + s[1..];
      assert j >= 0 ==> s[..j + 1] == [s[0]] + s[1..][..j];
      if j == -1 then -1 else j + 1
  }

  function SkipSpaces(s: string): (r: string)
    ensures |r| <= |s| && (r != "" ==> r[0] != ' ')
  {
    if s != "" && s[0] == ' ' then SkipSpaces(s[1..]) else s
  }

  /** The text up to the next space. */
  function Token(s: string): (t: string)
    ensures t <= s && ' ' !in t
    ensures |t| == |s| <==> ' ' !in s
    ensures |t| < |s| ==> s[|t|] == ' '
  {
    var i := Index(s, ' ');
    if i == -1 then s else s[..i]
  }

  /** Drops the last character if it is `c`. */
  function Drop(v: string, c: char): (d: string)
    ensures d <= v
  {
    if v != "" && v[|v| - 1] == c then v[..|v| - 1] else v
  }

  /** A closing parenthesis is dropped from all texts but two. */
  function DropParenthesis(v: string): (d: string)
    ensures d <= v
  {
    if v == "(none)" || v == "(null)" then v else Drop(v, ')')
  }

  /** fixPunctuantions: at most one quote, then one comma, then one parenthesis is dropped from the end. */
  function Fix(v: string): (f: string)
    ensures f <= v
  {
    DropParenthesis(Drop(Drop(v, '\''), ','))
  }

  /** getSpaceSlice: skips spaces, returns the next word, and counts its characters. */
  method GetSpaceSlice(s: string, v: nat) returns (rest: string, b: string, v': nat)
    ensures rest == SkipSpaces(s) && b == Token(rest) && v' == v + |b|
    decreases |s|
  {
    var index := Index(s, ' ');
    if index == 0 {
      rest, b, v' := GetSpaceSlice(s[1..], v);
    } else {
      assert SkipSpaces(s) == s;
      rest := s;
      b := if index == -1 then s else s[..index];
      v' := v + |b|;
    }
  }

  // ---------------------------------------------------------------------------
  // The loop
  // ---------------------------------------------------------------------------

  type Fields = map<string, string>

  datatype Outcome = Done(m: Fields) | Slip

  /** Loop state: unread text, characters counted, current key and value, the AVC flag, the fields. */
  datatype Scan = Scan(str: string, n: nat, key: string, value: string, av: bool, m: Fields)

  datatype Step = Continue(st: Scan) | Break(m: Fields) | StepSlip

  /** Moves past a word and one separator; without a separator the slice leaves the string. */
  function Past(st: Scan, t: string): Step
    requires |t| <= |st.str|
  {
    if |st.str| == |t| then StepSlip else Continue(st.(str := st.str[|t| + 1..]))
  }

  /** The end of the loop body: stop at the end of the text, otherwise move on. */
  function Onward(st: Scan, t: string): Step
    requires |t| <= |st.str|
  {
    if |st.str| == |t| then Break(st.m) else Continue(st.(str := st.str[|t| + 1..]))
  }

  /** The permission words up to the closing brace, joined by commas; `None` is a panic. */
  function Perms(str: string, n: nat, v: string): (r: Option<(string, nat, string)>)
    ensures r.Some? ==> "}" <= r.value.0 && n < r.value.1
    decreases |str|
  {
    var s := SkipSpaces(str);
    var t := Token(s);
    if t == "}" then Some((s, n + |t|, v))
    else if |s| == |t| then None
    else Perms(s[|t| + 1..], n + |t|, (if v != "" then v + "," else v) + t)
  }

  /** Appends a word to the current value. */
  function Extend(st: Scan, t: string): (r: Step)
    requires |t| <= |st.str|
    ensures r.Continue? ==> st.str != "" && st.n <= r.st.n
    ensures !r.StepSlip?
  {
    var value := Fix(st.value + " " + t);
    Onward(st.(value := value, m := st.m[st.key := value]), t)
  }

  /** A word without an equals sign in a record of an AVC type. */
  function AvcWord(st: Scan, t: string): (r: Step)
    requires |t| <= |st.str|
    ensures r.Continue? ==> st.str != "" && st.n <= r.st.n
  {
    if t == "avc:" then Past(st.(av := true), t)
    else if st.av then
      Onward(st.(key := "seresult", value := t, m := st.m["seresult" := t], av := false), t)
    else if "{" <= t then
      if |st.str| == |t| then StepSlip
      else
        match Perms(st.str[|t| + 1..], st.n, "")
        case None => StepSlip
        case Some((s, n, v)) =>
          Onward(Scan(s, n, "seperms", Fix(v), st.av, st.m["seperms" := v]), "}")
    else if t == "for" then Past(st, t)
    else Extend(st, t)
  }

  /** A key=value word; after `msg='` the key and value are looked for again. */
  function PairWord(st: Scan, t: string, eq: nat): (r: Step)
    requires |t| <= |st.str| && eq < |t|
    ensures r.Continue? ==> st.n <= r.st.n
    ensures !r.StepSlip?
  {
    hide Store, Index;
    var key, value := t[..eq], t[eq + 1..];
    if key == "msg" && "'" <= value then
      var inner := Index(value, '=');
      if inner == -1 then
        Continue(st.(key := key, value := value, str := if "msg='avc" <= st.str then st.str[5..] else st.str))
      else Store(st, t, value[1..inner], value[inner + 1..])
    else Store(st, t, key, value)
  }

  function Store(st: Scan, t: string, key: string, value: string): (r: Step)
    requires |t| <= |st.str|
    ensures r.Continue? ==> st.n <= r.st.n
    ensures !r.StepSlip?
  {
    hide Fix;
    var fixed := Fix(value);
    Onward(st.(key := key, value := fixed, m := st.m[key := fixed]), t)
  }

  /** The state after reading the next word. */
  function WordRead(st: Scan): (st': Scan)
    ensures |Token(st'.str)| <= |st'.str| <= |st.str| && st'.n == st.n + |Token(st'.str)|
  {
    var s := SkipSpaces(st.str);
    st.(str := s, n := st.n + |Token(s)|)
  }

  function OnWord(st: Scan, t: string, avc: bool): Step
    requires |t| <= |st.str|
  {
    var eq := Index(t, '=');
    if eq != -1 then PairWord(st, t, eq) else if avc then AvcWord(st, t) else Extend(st, t)
  }

  /** One iteration of the loop; going on always means that a character was counted. */
  function StepOf(st: Scan, avc: bool): (r: Step)
    ensures r.Continue? ==> st.n < r.st.n
  {
    hide AvcWord, PairWord, Extend;
    var st1 := WordRead(st);
    var t := Token(st1.str);
    assert t == "" ==> st1.str == "";
    OnWord(st1, t, avc)
  }

  /** The loop, guarded by the count of characters; `avc` tells whether the record has an AVC type. */
  function Loop(st: Scan, orig: nat, avc: bool): Outcome
    decreases orig - st.n
  {
    if st.n >= orig then Done(st.m)
    else
      match StepOf(st, avc)
      case StepSlip => Slip
      case Break(m) => Done(m)
      case Continue(st') => Loop(st', orig, avc)
  }

  // ---------------------------------------------------------------------------
  // ParseAuditEvent
  // ---------------------------------------------------------------------------

  datatype Event = Event(timestamp: string, serial: string, data: Fields)

  datatype ParseResult = Parsed(event: Event) | Malformed | Panic

  /** Timestamp, serial, and the text behind "audit(timestamp:serial): ". */
  function ReadHeader(raw: string): Option<(string, string, string)> {
    if !("audit(" <= raw) then None
    else
      var s := raw[6..];
      var colon := Index(s, ':');
      if colon == -1 then None
      else
        var rest := s[colon + 1..];
        var paren := Index(rest, ')');
        if paren == -1 || !("): " <= rest[paren..]) then None
        else Some((s[..colon], rest[..paren], rest[paren + 3..]))
  }

  function Start(text: string): Scan {
    Scan(text, 0, "", "", false, map[])
  }

  function ParseEvent(raw: string, avc: bool): ParseResult {
    match ReadHeader(raw)
    case None => Malformed
    case Some((timestamp, serial, text)) =>
      match Loop(Start(text), |text|, avc)
      case Slip => Panic
      case Done(m) => Parsed(Event(timestamp, serial, m))
  }

  lemma {:induction false} SkipTwice(s: string)
    ensures SkipSpaces(SkipSpaces(s)) == SkipSpaces(s)
    decreases |s|
  {
    if s != "" && s[0] == ' ' { SkipTwice(s[1..]); }
  }

  /** One round of the permission loop, at a word. */
  lemma PermsRound(s: string, n: nat, v: string)
    ensures var s1 := SkipSpaces(s);
            var t := Token(s1);
            && Perms(s, n, v) == Perms(s1, n, v)
            && SkipSpaces(s1) == s1
            && Perms(s1, n, v) ==
               if t == "}" then Some((s1, n + |t|, v))
               else if |s1| == |t| then None
               else Perms(s1[|t| + 1..], n + |t|, (if v != "" then v + "," else v) + t)
  {
    hide Token;
    SkipTwice(s);
  }

  /** The loop over the permission words of an AVC record. */
  method ReadPerms(str: string, n: nat) returns (r: Option<(string, nat, string)>)
    ensures r == Perms(str, n, "")
  {
    hide Perms, Token, SkipSpaces;
    var v := "";
    var s, b, n' := GetSpaceSlice(str, n);
    ghost var before: nat := n;
    PermsRound(str, n, v);
    while b != "}"
      invariant n' == before + |b| && b == Token(s) && s == SkipSpaces(s)
      invariant Perms(str, n, "") == Perms(s, before, v)
      decreases |s|
    {
      PermsRound(s, before, v);
      if |v| != 0 { v := v + ","; }
      v := v + b;
      if |s| == |b| { return None; }
      before := n';
      PermsRound(s[|b| + 1..], before, v);
      s, b, n' := GetSpaceSlice(s[|b| + 1..], n');
    }
    PermsRound(s, before, v);
    return Some((s, n', v));
  }

  /** The words of the AVC grammar: what happens to the loop variables, or `StepSlip` for a panic. */
  method ReadAvcWord(st: Scan, nBytes: string) returns (r: Step)
    requires |nBytes| <= |st.str|
    ensures r == AvcWord(st, nBytes)
  {
    hide Fix, Perms;
    var Scan(str, n, key, value, av, m) := st;
    if nBytes == "avc:" {
      if |str| == |nBytes| { return StepSlip; }
      return Continue(Scan(str[|nBytes| + 1..], n, key, value, true, m));
    }
    if av {
      key, value := "seresult", nBytes;
      m := m[key := value];
      if |str| == |nBytes| { return Break(m); }
      return Continue(Scan(str[|nBytes| + 1..], n, key, value, false, m));
    }
    if "{" <= nBytes {
      key := "seperms";
      if |str| == |nBytes| { return StepSlip; }
      var perms := ReadPerms(str[|nBytes| + 1..], n);
      if perms == None { return StepSlip; }
      str, n, value := perms.value.0, perms.value.1, perms.value.2;
      m := m[key := value];
      value := Fix(value);
      if |str| == 1 { return Break(m); }
      return Continue(Scan(str[2..], n, key, value, av, m));
    }
    if nBytes == "for" {
      if |str| == |nBytes| { return StepSlip; }
      return Continue(Scan(str[|nBytes| + 1..], n, key, value, av, m));
    }
    value := Fix(value + " " + nBytes);
    m := m[key := value];
    if |str| == |nBytes| { return Break(m); }
    return Continue(Scan(str[|nBytes| + 1..], n, key, value, av, m));
  }

  /** A word with an equals sign. */
  method ReadPairWord(st: Scan, nBytes: string, newIndex: nat) returns (r: Step)
    requires |nBytes| <= |st.str| && newIndex < |nBytes|
    ensures r == PairWord(st, nBytes, newIndex)
  {
    hide Fix;
    var Scan(str, n, key, value, av, m) := st;
    key, value := nBytes[..newIndex], nBytes[newIndex + 1..];
    if "'" <= value && key == "msg" {
      var inner := Index(value, '=');
      if inner == -1 {
        if "msg='avc" <= str { str := str[5..]; }
        return Continue(Scan(str, n, key, value, av, m));
      }
      key, value := value[1..inner], value[inner + 1..];
    }
    value := Fix(value);
    m := m[key := value];
    if |str| == |nBytes| { return Break(m); }
    return Continue(Scan(str[|nBytes| + 1..], n, key, value, av, m));
  }

  method ParseAuditEvent(raw: string, avc: bool) returns (r: ParseResult)
    ensures r == ParseEvent(raw, avc)
  {
    hide AvcWord, PairWord, Extend, SkipSpaces, Token, Index, ReadHeader;
    var header := ReadHeader(raw);
    if header == None { return Malformed; }
    var (timestamp, serial, text) := header.value;
    var orig := |text|;
    var st := Start(text);
    while st.n < orig
      invariant Loop(Start(text), orig, avc) == Loop(st, orig, avc)
      decreases orig - st.n
    {
      var str, nBytes, n := GetSpaceSlice(st.str, st.n);
      var newIndex := Index(nBytes, '=');
      var step: Step;
      if newIndex != -1 {
        step := ReadPairWord(st.(str := str, n := n), nBytes, newIndex);
      } else if avc {
        step := ReadAvcWord(st.(str := str, n := n), nBytes);
      } else {
        step := Extend(st.(str := str, n := n), nBytes);
      }
      match step {
        case StepSlip => return Panic;
        case Break(m) => return Parsed(Event(timestamp, serial, m));
        case Continue(st') => st := st';
      }
    }
    return Parsed(Event(timestamp, serial, st.m));
  }
}
