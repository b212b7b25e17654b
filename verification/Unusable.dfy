/**
 Datagrams with an unusable header behind good messages.
 */
module Unusable {
  import opened Words
  import opened Netlink

  /** The message has the frame's header and starts with its payload. */
  ghost predicate StartsWith(mem: bytes, m: Message, f: Frame) {
    m.h == f.h && m.lo + |f.payload| <= m.hi <= |mem| && mem[m.lo..m.lo + |f.payload|] == f.payload
  }

  lemma {:induction false} WalkToGarbage(mem: bytes, pos: nat, fs: seq<Frame>, mid: nat, end: nat)
    requires FramesAt(mem, pos, fs, mid) && mid + NLMSG_HDRLEN <= end && end + NLMSG_HDRLEN <= |mem|
    ensures pos <= mid
    ensures !GoodLength(HeaderAt(mem, mid), end - mid) ==>
              var w := Walk(mem, pos, end);
              && w.ending == BadHeader && |w.msgs| == |fs|
              && forall i :: 0 <= i < |fs| ==> StartsWith(mem, w.msgs[i], fs[i])
    decreases |fs|
  {
    hide HeaderAt;
    if fs != [] {
      var next := pos + NlmAlignOf(fs[0].h.len);
      FramesEnd(mem, next, fs[1..], mid);
      WalkToGarbage(mem, next, fs[1..], mid, end);
      if !GoodLength(HeaderAt(mem, mid), end - mid) {
        var m, rest := RoundAt(mem, pos, end).m, Walk(mem, next, end);
        assert StartsWith(mem, m, fs[0]);
        forall i | 0 < i < |fs| ensures StartsWith(mem, ([m] + rest.msgs)[i], fs[i]) {
          assert StartsWith(mem, rest.msgs[i - 1], fs[1..][i - 1]);
        }
      }
    }
  }

  /** An unusable header is an error exactly when it comes first; behind other messages it only ends the list. */
  lemma GarbageEndsList(fs: seq<Frame>, h: Header, tail: bytes, spare: bytes)
    requires forall f :: f in fs ==> WellFramed(f)
    requires |spare| >= NLMSG_HDRLEN && (h.len < 16 || h.len > 16 + |tail|)
    ensures var datagram := StreamBytes(fs) + (HeaderBytes(h) + tail);
            var mem := datagram + spare;
            var r := ParseOutcome(Walk(mem, 0, |datagram|));
            && (r == MalformedHeader <==> fs == [])
            && (fs != [] ==> r.Messages? && |r.msgs| == |fs|
                             && forall i :: 0 <= i < |fs| ==> StartsWith(mem, r.msgs[i], fs[i]))
  {
    hide Walk, FramesAt, HeaderAt, HeaderBytes, StreamBytes, StartsWith;
    var stream, rest := StreamBytes(fs), tail + spare;
    var datagram := stream + (HeaderBytes(h) + tail);
    var mem := datagram + spare;
    assert mem == stream + HeaderBytes(h) + rest;
    HeaderRoundTrip(stream, h, rest);
    assert mem[0..0 + |stream|] == stream;
    StreamBytesAt(mem, 0, fs);
    WalkToGarbage(mem, 0, fs, |stream|, |datagram|);
  }
}
