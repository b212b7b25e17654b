/**
 Rules on the wire: the 1040-byte fixed part of a rule followed by its string
 buffer, the decoding that the struct tags prescribe, and the comparison of rules.
 */
module RuleWire {
  import opened Words
  import opened Netlink
  import opened Rules
  import opened RuleObject

  const FIXED_SIZE := 1040

  /** The string part: `copy` into a slice of Buflen zeros. */
  function CopiedBuf(buflen: uint32, buf: bytes): (b: bytes)
    ensures |b| == buflen
  {
    if |buf| >= buflen then buf[..buflen] else buf + Zeros(buflen - |buf|)
  }

  /** The wire image of a rule. */
  function EncodeRule(r: Rule): (b: bytes)
    requires Shaped(r)
    ensures |b| == FIXED_SIZE + r.buflen
  {
    Le32(r.flags) + Le32(r.action) + Le32(r.fieldCount) + LeWords(r.mask) + LeWords(r.fields)
    + LeWords(r.values) + LeWords(r.fieldflags) + Le32(r.buflen) + CopiedBuf(r.buflen, r.buf)
  }

  /** Decoding by the struct tags: fails on short input and ignores what follows the string buffer. */
  function DecodeRule(b: bytes): (r: Option<Rule>)
    ensures r.Some? ==> Shaped(r.value) && r.value.buflen == |r.value.buf|
  {
    if |b| < FIXED_SIZE || |b| < FIXED_SIZE + Word32At(b, 1036) then None
    else
      var buflen := Word32At(b, 1036);
      Some(Rule(Word32At(b, 0), Word32At(b, 4), Word32At(b, 8),
                WordsAt(b, 12, 64), WordsAt(b, 268, 64), WordsAt(b, 524, 64), WordsAt(b, 780, 64),
                buflen, b[FIXED_SIZE..FIXED_SIZE + buflen]))
  }

  /** Reading a block of words back from where it was put. */
  lemma WordsBlock(b: bytes, at: nat, ws: seq<uint32>)
    requires Holds(b, at, LeWords(ws))
    ensures WordsAt(b, at, |ws|) == ws
  {
    hide LeWords, WordsAt;
    assert b == b[..at] + LeWords(ws) + b[at + |LeWords(ws)|..];
    LeWordsAt(b[..at], ws, b[at + |LeWords(ws)|..]);
  }

  lemma WordBlock(b: bytes, at: nat, w: uint32)
    requires Holds(b, at, Le32(w))
    ensures Word32At(b, at) == w
  {
    hide Le32, Word32At;
    assert b == b[..at] + Le32(w) + b[at + 4..];
    Le32At(b[..at], w, b[at + 4..]);
  }

  /** Where each part of the record stands in its wire image. */
  lemma EncodedParts(r: Rule, extra: bytes)
    requires Shaped(r)
    ensures var b := EncodeRule(r) + extra;
            && Holds(b, 0, Le32(r.flags)) && Holds(b, 4, Le32(r.action)) && Holds(b, 8, Le32(r.fieldCount))
            && Holds(b, 12, LeWords(r.mask)) && Holds(b, 268, LeWords(r.fields))
            && Holds(b, 524, LeWords(r.values)) && Holds(b, 780, LeWords(r.fieldflags))
            && Holds(b, 1036, Le32(r.buflen)) && Holds(b, FIXED_SIZE, CopiedBuf(r.buflen, r.buf))
  {
    hide Le32, LeWords, CopiedBuf;
    var b := EncodeRule(r) + extra;
    var p1 := Le32(r.flags);
    var p2 := p1 + Le32(r.action);
    var p3 := p2 + Le32(r.fieldCount);
    var p4 := p3 + LeWords(r.mask);
    var p5 := p4 + LeWords(r.fields);
    var p6 := p5 + LeWords(r.values);
    var p7 := p6 + LeWords(r.fieldflags);
    var p8 := p7 + Le32(r.buflen);
    assert EncodeRule(r) == p8 + CopiedBuf(r.buflen, r.buf);
    EndsAt(b, p8, CopiedBuf(r.buflen, r.buf));
    EndsAt(b, p7, Le32(r.buflen));
    EndsAt(b, p6, LeWords(r.fieldflags));
    EndsAt(b, p5, LeWords(r.values));
    EndsAt(b, p4, LeWords(r.fields));
    EndsAt(b, p3, LeWords(r.mask));
    EndsAt(b, p2, Le32(r.fieldCount));
    EndsAt(b, p1, Le32(r.action));
  }

  lemma EndsAt(b: bytes, pre: bytes, part: bytes)
    requires pre + part <= b
    ensures pre <= b && Holds(b, |pre|, part)
  {
    assert b[..|pre + part|] == pre + part;
    assert b[|pre|..|pre| + |part|] == (pre + part)[|pre|..];
  }

  /** Decoding the wire image, with anything behind it, gives the rule back. */
  lemma DecodeEncode(r: Rule, extra: bytes)
    requires Shaped(r) && r.buflen == |r.buf|
    ensures DecodeRule(EncodeRule(r) + extra) == Some(r)
  {
    hide EncodeRule, Le32, LeWords, Word32At, WordsAt;
    var b := EncodeRule(r) + extra;
    EncodedParts(r, extra);
    WordBlock(b, 0, r.flags);
    WordBlock(b, 4, r.action);
    WordBlock(b, 8, r.fieldCount);
    WordsBlock(b, 12, r.mask);
    WordsBlock(b, 268, r.fields);
    WordsBlock(b, 524, r.values);
    WordsBlock(b, 780, r.fieldflags);
    WordBlock(b, 1036, r.buflen);
    assert CopiedBuf(r.buflen, r.buf) == r.buf;
  }

  /** Copies a block behind the part of the buffer that is already written. */
  method PutBlock(a: array<byte>, at: nat, b: bytes, ghost done: bytes)
    requires at == |done| && at + |b| <= a.Length && a[..] == done + Zeros(a.Length - at)
    modifies a
    ensures a[..] == done + b + Zeros(a.Length - at - |b|)
  {
    forall i | 0 <= i < |b| { a[at + i] := b[i]; }
  }

  /** toWireFormat */
  method ToWireFormat(rule: AuditRuleData) returns (newbuff: array<byte>)
    requires rule.Valid()
    ensures fresh(newbuff) && newbuff[..] == EncodeRule(rule.View())
  {
    hide Le32, LeWords, CopiedBuf;
    var flags, action, fieldCount := Le32(rule.flags), Le32(rule.action), Le32(rule.fieldCount);
    var mask, fields := LeWords(rule.mask[..]), LeWords(rule.fields[..]);
    var values, fieldflags := LeWords(rule.values[..]), LeWords(rule.fieldflags[..]);
    var buflen, copied := Le32(rule.buflen), CopiedBuf(rule.buflen, rule.buf);
    newbuff := new byte[FIXED_SIZE + rule.buflen](_ => 0);
    assert newbuff[..] == [] + Zeros(newbuff.Length);
    PutBlock(newbuff, 0, flags, []);
    assert [] + flags == flags;
    PutBlock(newbuff, 4, action, flags);
    PutBlock(newbuff, 8, fieldCount, flags + action);
    PutBlock(newbuff, 12, mask, flags + action + fieldCount);
    PutBlock(newbuff, 268, fields, flags + action + fieldCount + mask);
    PutBlock(newbuff, 524, values, flags + action + fieldCount + mask + fields);
    PutBlock(newbuff, 780, fieldflags, flags + action + fieldCount + mask + fields + values);
    PutBlock(newbuff, 1036, buflen, flags + action + fieldCount + mask + fields + values + fieldflags);
    PutBlock(newbuff, FIXED_SIZE, copied, flags + action + fieldCount + mask + fields + values + fieldflags + buflen);
  }

  // ---------------------------------------------------------------------------
  // A rule listed by the kernel
  // ---------------------------------------------------------------------------

  /** Data that starts with a rule's wire image decodes to that rule. */
  lemma PrefixDecodes(data: bytes, r: Rule)
    requires Shaped(r) && r.buflen == |r.buf| && EncodeRule(r) <= data
    ensures DecodeRule(data) == Some(r)
  {
    hide EncodeRule, DecodeRule;
    var extra := data[|EncodeRule(r)|..];
    assert data == EncodeRule(r) + extra;
    DecodeEncode(r, extra);
  }

  /** A message whose Data carries a rule's wire image decodes to that rule, extra bytes or not. */
  lemma CarriedRule(mem: bytes, m: Message, f: Frame, r: Rule)
    requires Carries(mem, m, f)
    requires Shaped(r) && r.buflen == |r.buf| && f.payload == EncodeRule(r)
    ensures DecodeRule(mem[m.lo..m.hi]) == Some(r)
  {
    hide EncodeRule, DecodeRule;
    assert mem[m.lo..m.hi][..|f.payload|] == f.payload;
    PrefixDecodes(mem[m.lo..m.hi], r);
  }

  // ---------------------------------------------------------------------------
  // Comparing rules
  // ---------------------------------------------------------------------------

  /** compareAuditRule: everything but the stored buffer length. */
  predicate CompareRules(a: Rule, b: Rule) {
    && a.flags == b.flags && a.action == b.action && a.fieldCount == b.fieldCount
    && a.mask == b.mask && a.fields == b.fields && a.values == b.values && a.fieldflags == b.fieldflags
    && a.buf == b.buf
  }

  /** On records whose Buflen is the length of their buffer, the comparison is equality. */
  lemma CompareIsEquality(a: Rule, b: Rule)
    requires a.buflen == |a.buf| && b.buflen == |b.buf|
    ensures CompareRules(a, b) <==> a == b
  {
  }

  /** isAuditRulePresent */
  method IsAuditRulePresent(a: Rule, rules: seq<Rule>) returns (present: bool)
    ensures present <==> exists i :: 0 <= i < |rules| && CompareRules(a, rules[i])
  {
    for i := 0 to |rules|
      invariant forall j :: 0 <= j < i ==> !CompareRules(a, rules[j])
    {
      if CompareRules(a, rules[i]) { return true; }
    }
    return false;
  }
}
