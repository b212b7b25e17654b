/**
 Records of user-space programs: some pairs, then `msg='` with further pairs behind
 it and a closing quote at the very end of the record.
 */
module RecordQuoted {
  import opened Words
  import opened Record
  import opened RecordWords
  import opened RecordRoundTrip

  /** The words of a pair that opens the quoted part. */
  function OpeningTokens(p: Pair): seq<string>
    requires p.words != []
  {
    ["msg='" + p.key + "=" + p.words[0]] + p.words[1..]
  }

  /** The first word of the quoted part is read as the pair behind the quote. */
  lemma OpeningWord(p: Pair, avc: bool)
    requires WellFormed(p, avc)
    ensures var t := "msg='" + p.key + "=" + p.words[0];
            IsWord(t) && '=' in t && !Quoted(t) && PairOf(t) == (p.key, p.words[0])
  {
    hide Index;
    var t := "msg='" + p.key + "=" + p.words[0];
    var inner, eq := t[4..], 1 + |p.key|;
    assert inner == "'" + p.key + "=" + p.words[0];
    assert inner[eq] == '=' && inner[..eq] == "'" + p.key && '=' !in "'";
    IndexIs(inner, '=', eq);
    assert inner[1..eq] == p.key && inner[eq + 1..] == p.words[0];
  }

  /** The opening pair is stored as any other. */
  lemma RunOpening(p: Pair, rest: seq<string>, k: Memo, avc: bool)
    requires WellFormed(p, avc) && !k.av
    ensures var v := Accumulated(p.words);
            Run(OpeningTokens(p) + rest, k, avc) == Run(rest, Memo(p.key, v, false, k.m[p.key := v]), avc)
  {
    hide Fix, Quoted, PairOf, PermWords, IsWord, Accumulated;
    var t := "msg='" + p.key + "=" + p.words[0];
    AccumulatedOne(p.words[0]);
    OpeningWord(p, avc);
    var ts := OpeningTokens(p) + rest;
    assert ts[0] == t && ts[1..] == p.words[1..] + rest;
    var k1 := Stored(k, p.key, p.words[0]);
    assert p.words[..1] == [p.words[0]];
    RunLater(p.words, 1, rest, k1, avc);
    var v := Accumulated(p.words);
    assert k1.m[p.key := v] == k.m[p.key := v];
  }

  // ---------------------------------------------------------------------------
  // The closing quote
  // ---------------------------------------------------------------------------

  /** The words with a quote behind the last one. */
  function Closed(ts: seq<string>): (cs: seq<string>)
    requires ts != []
    ensures |cs| == |ts|
  {
    ts[..|ts| - 1] + [ts[|ts| - 1] + "'"]
  }

  lemma {:induction false} JoinedClosed(ts: seq<string>)
    requires ts != []
    ensures Joined(Closed(ts)) == Joined(ts) + "'"
    decreases |ts|
  {
    if |ts| > 1 {
      assert Closed(ts)[1..] == Closed(ts[1..]) && Closed(ts)[0] == ts[0];
      JoinedClosed(ts[1..]);
      assert ts[0] + " " + (Joined(ts[1..]) + "'") == ts[0] + " " + Joined(ts[1..]) + "'";
    }
  }

  lemma LastStays(a: string, w: string)
    requires !EndsIn(w, '\'')
    ensures !EndsIn(a + " " + w, '\'') && a + " " + (w + "'") == a + " " + w + "'"
  {
    var v := a + " " + w;
    if w != "" { assert v[|v| - 1] == w[|w| - 1]; } else { assert v[|v| - 1] == ' '; }
  }

  /** The quote is stripped again from a value whose last word does not end in one itself. */
  lemma ClosedValue(words: seq<string>)
    requires words != [] && !EndsIn(words[|words| - 1], '\'')
    ensures Accumulated(Closed(words)) == Accumulated(words)
  {
    hide Fix;
    var n := |words|;
    var w, cs := words[n - 1], Closed(words);
    if n == 1 {
      FixPunctuation(w);
    } else {
      var front := words[..n - 1];
      assert cs[..n - 1] == front && cs[n - 1] == w + "'";
      LastStays(Accumulated(front), w);
      var v := Accumulated(front) + " " + w;
      FixPunctuation(v);
      assert Accumulated(cs) == Fix(v + "'");
    }
  }

  /** The pairs with the quote behind the last word of the last one. */
  function ClosedPairs(ps: seq<Pair>): (cs: seq<Pair>)
    requires ps != [] && ps[|ps| - 1].words != []
    ensures |cs| == |ps|
  {
    ps[..|ps| - 1] + [ps[|ps| - 1].(words := Closed(ps[|ps| - 1].words))]
  }

  ghost predicate Worded(ps: seq<Pair>) {
    forall i :: 0 <= i < |ps| ==> ps[i].words != []
  }

  lemma {:induction false} RecordTokensSnoc(ps: seq<Pair>, p: Pair)
    requires Worded(ps) && p.words != []
    ensures RecordTokens(ps + [p]) == RecordTokens(ps) + PairTokens(p)
    decreases |ps|
  {
    hide PairTokens;
    if ps == [] {
      assert [p][1..] == [];
    } else {
      assert (ps + [p])[1..] == ps[1..] + [p];
      RecordTokensSnoc(ps[1..], p);
    }
  }

  /** The fields do not change when the record is closed. */
  lemma ClosedFields(m: Fields, ps: seq<Pair>)
    requires ps != [] && Worded(ps)
    requires var last := ps[|ps| - 1].words; !EndsIn(last[|last| - 1], '\'')
    ensures FieldsOf(m, ClosedPairs(ps)) == FieldsOf(m, ps)
  {
    hide Accumulated, FieldsOf;
    var front, last := ps[..|ps| - 1], ps[|ps| - 1];
    assert front + [last] == ps;
    ClosedValue(last.words);
    FieldsSnoc(m, front, last);
    FieldsSnoc(m, front, last.(words := Closed(last.words)));
  }

  // ---------------------------------------------------------------------------
  // The whole record
  // ---------------------------------------------------------------------------

  /** The words of the record: the outer pairs, the opening pair, the other inner pairs. */
  function UserTokens(outer: seq<Pair>, inner: seq<Pair>): seq<string>
    requires Worded(outer) && Worded(inner) && inner != []
  {
    RecordTokens(outer) + (OpeningTokens(inner[0]) + RecordTokens(inner[1..]))
  }

  lemma OpeningPlain(p: Pair, avc: bool)
    requires WellFormed(p, avc)
    ensures AllWords(OpeningTokens(p)) && NoQuotedAvc(OpeningTokens(p))
  {
    hide IsWord, Later, PairOf, Quoted;
    OpeningWord(p, avc);
    var ts := OpeningTokens(p);
    forall i | 0 <= i < |ts| ensures IsWord(ts[i]) && !Rereads(ts[i]) {
      if i > 0 { LaterPlain(p.words[i], avc); }
    }
  }

  lemma UserPlain(outer: seq<Pair>, inner: seq<Pair>, avc: bool)
    requires AllWellFormed(outer, avc) && AllWellFormed(inner, avc) && inner != []
    ensures var ts := UserTokens(outer, inner); AllWords(ts) && NoQuotedAvc(ts) && ts != []
  {
    hide IsWord, Rereads, WellFormed, RecordTokens;
    RecordWordsPlain(outer, avc);
    OpeningPlain(inner[0], avc);
    RecordWordsPlain(inner[1..], avc);
    var tail := OpeningTokens(inner[0]) + RecordTokens(inner[1..]);
    assert AllWords(tail) && NoQuotedAvc(tail);
  }

  /** The machine on these words. */
  lemma UserRun(outer: seq<Pair>, inner: seq<Pair>, avc: bool)
    requires AllWellFormed(outer, avc) && AllWellFormed(inner, avc) && inner != []
    ensures Run(UserTokens(outer, inner), Memo("", "", false, map[]), avc) == Done(FieldsOf(map[], outer + inner))
  {
    hide Run, WellFormed, RecordTokens, OpeningTokens, Accumulated;
    var k := Memo("", "", false, map[]);
    var p, more := inner[0], inner[1..];
    var tail := OpeningTokens(p) + RecordTokens(more);
    RunPairs(outer, tail, k, avc);
    var k1, v := After(k, outer), Accumulated(p.words);
    if outer == [] { assert k1 == k; }
    RunOpening(p, RecordTokens(more), k1, avc);
    var k2 := Memo(p.key, v, false, k1.m[p.key := v]);
    PairsEnd(more, k2, avc);
    assert inner == [p] + more;
    FieldsSum(map[], outer, inner);
  }

  lemma {:induction false} FieldsSum(m: Fields, a: seq<Pair>, b: seq<Pair>)
    requires Worded(a) && Worded(b)
    ensures FieldsOf(m, a + b) == FieldsOf(FieldsOf(m, a), b)
    decreases |a|
  {
    hide Accumulated;
    if a == [] {
      assert a + b == b;
    } else {
      assert (a + b)[1..] == a[1..] + b;
      FieldsSum(m[a[0].key := Accumulated(a[0].words)], a[1..], b);
    }
  }

  /** Closing the last pair closes the words. */
  lemma UserTokensClosed(outer: seq<Pair>, inner: seq<Pair>)
    requires Worded(outer) && Worded(inner) && inner != [] && Worded(ClosedPairs(inner))
    ensures UserTokens(outer, inner) != []
    ensures UserTokens(outer, ClosedPairs(inner)) == Closed(UserTokens(outer, inner))
  {
    hide RecordTokens;
    var n := |inner|;
    var last := inner[n - 1];
    var closed, last' := ClosedPairs(inner), last.(words := Closed(last.words));
    if n == 1 {
      assert inner[1..] == [] && closed[1..] == [];
      assert RecordTokens([]) == [] by { NoTokens(); }
      OpeningClosed(last);
      assert UserTokens(outer, inner) == RecordTokens(outer) + OpeningTokens(last);
      assert UserTokens(outer, closed) == RecordTokens(outer) + OpeningTokens(last');
    } else {
      var front := inner[1..n - 1];
      assert inner[1..] == front + [last] && closed[1..] == front + [last'];
      RecordTokensSnoc(front, last);
      RecordTokensSnoc(front, last');
      PairClosed(last);
      var before := RecordTokens(outer) + (OpeningTokens(inner[0]) + RecordTokens(front));
      assert UserTokens(outer, inner) == before + PairTokens(last);
      assert UserTokens(outer, closed) == before + PairTokens(last');
    }
  }

  lemma NoTokens()
    ensures RecordTokens([]) == []
  {
  }

  lemma PairClosed(p: Pair)
    requires p.words != []
    ensures PairTokens(p.(words := Closed(p.words))) == Closed(PairTokens(p))
  {
    if |p.words| == 1 { assert p.key + "=" + (p.words[0] + "'") == p.key + "=" + p.words[0] + "'"; }
  }

  lemma OpeningClosed(p: Pair)
    requires p.words != []
    ensures OpeningTokens(p.(words := Closed(p.words))) == Closed(OpeningTokens(p))
  {
    if |p.words| == 1 { assert "msg='" + p.key + "=" + (p.words[0] + "'") == "msg='" + p.key + "=" + p.words[0] + "'"; }
  }

  /**
   Round trip of a user record: the pairs inside the quotes come out beside those
   outside, the last one winning, and neither quote is left in any of them.
   */
  lemma UserRecordParses(timestamp: string, serial: string, outer: seq<Pair>, inner: seq<Pair>, avc: bool)
    requires ':' !in timestamp && ')' !in serial && inner != []
    requires AllWellFormed(outer, avc) && AllWellFormed(inner, avc) && AllWellFormed(ClosedPairs(inner), avc)
    requires var last := inner[|inner| - 1].words; !EndsIn(last[|last| - 1], '\'')
    ensures ParseEvent(Render(timestamp, serial, Joined(UserTokens(outer, inner)) + "'"), avc) ==
            Parsed(Event(timestamp, serial, FieldsOf(map[], outer + inner)))
  {
    hide ReadHeader, Render, Loop, Run, Tokens, WellFormed, AllWords, NoQuotedAvc, UserTokens, ClosedPairs,
      FieldsOf, Closed;
    var closed := ClosedPairs(inner);
    UserTokensClosed(outer, inner);
    var ts := UserTokens(outer, closed);
    var text := Joined(ts);
    JoinedClosed(UserTokens(outer, inner));
    UserPlain(outer, closed, avc);
    JoinedTokens(ts);
    HeaderParses(timestamp, serial, text);
    TextRuns(text, avc);
    JoinedNonEmpty(ts);
    UserRun(outer, closed, avc);
    FieldsSum(map[], outer, inner);
    FieldsSum(map[], outer, closed);
    ClosedFields(FieldsOf(map[], outer), inner);
  }
}
