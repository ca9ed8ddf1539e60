/** From the sender's payload to the receiver's callback, directly and through SMS PDUs. */
module SmsEndToEnd {
  import opened Bytes
  import opened SmsSegmentation
  import opened SmsReassembly
  import opened SmsCodec

  /** What comes with each arrival: the bytes behind the payload, and what the callback would do. */
  datatype Arrival = Arrival(seg: SmsSeg, residue: seq<byte>, reactions: seq<Reaction>)

  /** Segments received one after the other: final state and all callbacks. */
  function Feed(st: Rcv, arrivals: seq<Arrival>): (Rcv, seq<Event>)
    requires forall a :: a in arrivals ==> 2 <= |a.residue|
  {
    if arrivals == [] then (st, [])
    else
      var last := arrivals[|arrivals| - 1];
      assert last in arrivals;
      var (mid, evs) := Feed(st, arrivals[..|arrivals| - 1]);
      var (end, more) := Receive(mid, last.seg, last.residue, last.reactions);
      (end, evs + more)
  }

  ghost predicate Carries(arrivals: seq<Arrival>, segs: seq<SmsSeg>) {
    && |arrivals| == |segs|
    && (forall a :: a in arrivals ==> 2 <= |a.residue|)
    && forall i :: 0 <= i < |segs| ==> arrivals[i].seg == segs[i]
  }

  /** Ready for a message: a buffer armed, nothing in progress. */
  ghost predicate Ready(st: Rcv) {
    st.armed && st.rcvSz <= PROTO_MAX_MSG_SZ && !st.path.inProgress && st.path.partial == []
  }

  /** State once the first `k` of several segments are in. */
  function Midway(st: Rcv, segs: seq<SmsSeg>, service: byte, k: nat): Rcv
    requires 0 < k <= |segs|
  {
    st.(ack := AckPending, path := Path(true, service, segs[0].refNo, k, Concat(Payloads(segs[..k]))))
  }

  lemma ConcatGrows(segs: seq<SmsSeg>, k: nat)
    requires 0 < k <= |segs|
    ensures Concat(Payloads(segs[..k])) == Concat(Payloads(segs[..k - 1])) + segs[k - 1].payload
  {
    assert Payloads(segs[..k])[..k - 1] == Payloads(segs[..k - 1]);
  }

  lemma OpensPath(st: Rcv, seg: SmsSeg, service: byte, residue: seq<byte>, r: seq<Reaction>)
    requires Ready(st) && seg.seqNo == 1 && 1 < seg.numSeg <= MAX_CONC_SMS_NUM && 2 <= |residue|
    requires 2 <= |seg.payload| <= st.rcvSz && seg.payload[0] == SMSNAS_VERSION && seg.payload[1] == service
    ensures Receive(st, seg, residue, r)
            == (st.(ack := AckPending, path := Path(true, service, seg.refNo, 1, seg.payload)), [])
  {
    var mem := seg.payload + residue;
    assert mem[0] == SMSNAS_VERSION && mem[1] == service;
  }

  /** The first segment of a numbered series opens the path. */
  lemma FirstSegment(st: Rcv, segs: seq<SmsSeg>, service: byte, refNo: byte, residue: seq<byte>, r: seq<Reaction>)
    requires Ready(st) && Numbered(segs, refNo) && 2 <= |residue|
    requires 2 <= |segs[0].payload| && segs[0].payload[0] == SMSNAS_VERSION && segs[0].payload[1] == service
    requires |Concat(Payloads(segs[..1]))| <= st.rcvSz
    ensures Receive(st, segs[0], residue, r) == (Midway(st, segs, service, 1), [])
  {
    ConcatGrows(segs, 1);
    assert Concat(Payloads(segs[..0])) == [];
    assert Concat(Payloads(segs[..1])) == segs[0].payload;
    OpensPath(st, segs[0], service, residue, r);
  }

  /** A further segment, before the last, extends it. */
  lemma OneMoreSegment(
      st: Rcv, segs: seq<SmsSeg>, service: byte, refNo: byte, k: nat, residue: seq<byte>, r: seq<Reaction>)
    requires Ready(st) && Numbered(segs, refNo) && 0 < k && k + 1 < |segs| && 2 <= |residue|
    requires |Concat(Payloads(segs[..k + 1]))| <= st.rcvSz
    ensures Receive(Midway(st, segs, service, k), segs[k], residue, r) == (Midway(st, segs, service, k + 1), [])
  {
    ConcatGrows(segs, k + 1);
    assert segs[..k + 1][..k] == segs[..k];
    assert segs[0].refNo == segs[k].refNo && segs[k].numSeg == |segs| && segs[k].seqNo == k + 1;
  }

  lemma FeedTake(st: Rcv, arrivals: seq<Arrival>, k: nat)
    requires 0 < k <= |arrivals| && forall a :: a in arrivals ==> 2 <= |a.residue|
    ensures var last := arrivals[k - 1];
            && last in arrivals
            && Feed(st, arrivals[..k]) ==
               (var (mid, evs) := Feed(st, arrivals[..k - 1]);
                var (end, more) := Receive(mid, last.seg, last.residue, last.reactions);
                (end, evs + more))
  {
    assert arrivals[..k][..k - 1] == arrivals[..k - 1];
  }

  lemma {:induction false} FeedMidway(
      st: Rcv, segs: seq<SmsSeg>, service: byte, refNo: byte, arrivals: seq<Arrival>, k: nat)
    requires Ready(st) && Numbered(segs, refNo) && Carries(arrivals, segs) && 0 < k < |segs|
    requires 2 <= |segs[0].payload| && segs[0].payload[0] == SMSNAS_VERSION && segs[0].payload[1] == service
    requires forall j :: 0 < j < |segs| ==> |Concat(Payloads(segs[..j]))| <= st.rcvSz
    ensures Feed(st, arrivals[..k]).0 == Midway(st, segs, service, k)
    ensures Feed(st, arrivals[..k]).1 == []
  {
    var last := arrivals[k - 1];
    FeedTake(st, arrivals, k);
    if k == 1 {
      assert Feed(st, arrivals[..0]) == (st, []);
      FirstSegment(st, segs, service, refNo, last.residue, last.reactions);
    } else {
      FeedMidway(st, segs, service, refNo, arrivals, k - 1);
      OneMoreSegment(st, segs, service, refNo, k - 1, last.residue, last.reactions);
    }
  }

  /** What the whole series comes to when only the last segment can overflow the buffer. */
  function Outcome(st: Rcv, bytes: seq<byte>, service: byte): seq<Event> {
    if |bytes| <= st.rcvSz then [Message(bytes, service)] else [Overflow(st.rcvSz, 0)]
  }

  lemma FeedSeries(st: Rcv, segs: seq<SmsSeg>, service: byte, refNo: byte, arrivals: seq<Arrival>)
    requires Ready(st) && Numbered(segs, refNo) && Carries(arrivals, segs)
    requires 2 <= |segs[0].payload| && segs[0].payload[0] == SMSNAS_VERSION && segs[0].payload[1] == service
    requires forall k :: 0 < k < |segs| ==> |Concat(Payloads(segs[..k]))| <= st.rcvSz
    ensures Feed(st, arrivals).1 == Outcome(st, Concat(Payloads(segs)), service)
    ensures !Feed(st, arrivals).0.path.inProgress
  {
    var n := |segs|;
    assert arrivals[n - 1] in arrivals && arrivals[n - 1].seg == segs[n - 1];
    FeedMidway(st, segs, service, refNo, arrivals, n - 1);
    assert segs[..n] == segs;
    ConcatGrows(segs, n);
  }

  /** Before the last segment no more than the header and the payload has been received. */
  lemma PrefixesFit(mem: seq<byte>, sz: nat, service: byte, refNo: byte, k: nat)
    requires SINGLE_SZ < sz <= PROTO_MAX_MSG_SZ - PROTO_OVERHEAD_SZ && sz + SEGMENT_SZ <= |mem|
    requires 0 < k < |Segments(mem, sz, service, refNo)|
    ensures |Concat(Payloads(Segments(mem, sz, service, refNo)[..k]))| <= PROTO_OVERHEAD_SZ + sz
  {
    var segs := Segments(mem, sz, service, refNo);
    PiecesFollow(sz);
    PiecesAddUp(mem, sz, service, refNo, |segs|, k);
    assert Follows(sz, k);
    assert Payloads(segs[..k]) == Payloads(segs)[..k];
  }

  /**
   * Everything the receiver's callback is told when the segments of one message arrive in order: one message, made of
   * the header, the payload, and the excess an overcounted message carries; or, if only the excess does not fit the
   * buffer, one overflow.
   */
  lemma FeedMessage(
      st: Rcv, mem: seq<byte>, sz: nat, service: byte, refNo: byte, arrivals: seq<Arrival>)
    requires Ready(st) && 0 < sz && PROTO_OVERHEAD_SZ + sz <= st.rcvSz && sz + SEGMENT_SZ <= |mem|
    requires Carries(arrivals, Segments(mem, sz, service, refNo))
    ensures Feed(st, arrivals).1 == Outcome(st, Header(sz, service) + mem[..sz + Excess(sz)], service)
  {
    var segs := Segments(mem, sz, service, refNo);
    SegmentsAddUp(mem, sz, service, refNo);
    if sz <= SINGLE_SZ {
      var a := arrivals[0];
      assert a in arrivals && arrivals[..0] == [];
      assert (a.seg.payload + a.residue)[..2] == Header(sz, service)[..2];
    } else {
      SegmentsAreNumbered(mem, sz, service, refNo);
      assert segs[0].payload[..PROTO_OVERHEAD_SZ][..2] == Header(sz, service)[..2];
      forall k | 0 < k < |segs|
        ensures |Concat(Payloads(segs[..k]))| <= st.rcvSz
      {
        PrefixesFit(mem, sz, service, refNo, k);
      }
      FeedSeries(st, segs, service, refNo, arrivals);
    }
  }

  /** The callback is told of one message, and that is the data on the wire. */
  ghost predicate HandedOver(events: seq<Event>, service: byte, data: seq<byte>) {
    |events| == 1 && events[0].Message? && events[0].service == service && IsWire(events[0].bytes, service, data)
  }

  /** The receiver gets exactly the header and the payload, once, unless the size is one the sender overcounts. */
  lemma DeliversExactlyUnlessOvercounted(
      st: Rcv, mem: seq<byte>, sz: nat, service: byte, refNo: byte, arrivals: seq<Arrival>)
    requires Ready(st) && 0 < sz && PROTO_OVERHEAD_SZ + sz <= st.rcvSz && sz + SEGMENT_SZ <= |mem|
    requires Carries(arrivals, Segments(mem, sz, service, refNo))
    ensures HandedOver(Feed(st, arrivals).1, service, mem[..sz]) <==> !Overcounted(sz)
  {
    FeedMessage(st, mem, sz, service, refNo, arrivals);
    HeaderBeginsWire(sz, service, mem[..sz + Excess(sz)]);
  }

  // ----- Through PDUs

  /** Each part travels as an SMS-DELIVER around the sender's user data. */
  ghost predicate Relayed(pdus: seq<string>, segs: seq<SmsSeg>, addr: string) {
    && |pdus| == |segs|
    && forall i :: 0 <= i < |segs| ==>
         exists smsc, scts ::
           Deliverable(smsc, scts, addr, segs[i]) && pdus[i] == DeliverText(smsc, scts, addr, segs[i])
  }

  /** What the decoder makes of a PDU. */
  function Unpack(pdu: string, stale: string): Option<SmsSeg>
    requires Octet(pdu, AddrPos(pdu)) <= |stale|
  {
    var d := Decode(|pdu|, pdu, stale);
    if d.Some? then Some(d.value.seg) else None
  }

  lemma RelayedUnpacks(pdus: seq<string>, segs: seq<SmsSeg>, addr: string, stale: string, i: nat)
    requires Relayed(pdus, segs, addr) && i < |segs| && MEMORY_SZ <= |stale|
    ensures Octet(pdus[i], AddrPos(pdus[i])) <= |stale| && Unpack(pdus[i], stale) == Some(Normalised(segs[i]))
  {
    var smsc, scts :| Deliverable(smsc, scts, addr, segs[i]) && pdus[i] == DeliverText(smsc, scts, addr, segs[i]);
    DeliverRoundTrip(smsc, scts, addr, segs[i], stale);
  }

  /** The receiver treats a part and its decoded form alike. */
  lemma NormalisedIsReceivedAlike(st: Rcv, seg: SmsSeg, residue: seq<byte>, reactions: seq<Reaction>)
    requires 2 <= |residue|
    ensures Receive(st, Normalised(seg), residue, reactions) == Receive(st, seg, residue, reactions)
  {}

  lemma {:induction false} FeedNormalised(st: Rcv, arrivals: seq<Arrival>, decoded: seq<Arrival>)
    requires |arrivals| == |decoded|
    requires forall a :: a in arrivals ==> 2 <= |a.residue|
    requires forall a :: a in decoded ==> 2 <= |a.residue|
    requires forall i :: 0 <= i < |arrivals| ==> decoded[i] == arrivals[i].(seg := Normalised(arrivals[i].seg))
    ensures Feed(st, decoded) == Feed(st, arrivals)
  {
    if arrivals != [] {
      var n := |arrivals| - 1;
      FeedNormalised(st, arrivals[..n], decoded[..n]);
      assert arrivals[n] in arrivals;
      NormalisedIsReceivedAlike(
        Feed(st, arrivals[..n]).0, arrivals[n].seg, arrivals[n].residue, arrivals[n].reactions);
    }
  }

  /** What arrives when the PDUs are decoded in turn. */
  ghost predicate UnpackedFrom(arrivals: seq<Arrival>, pdus: seq<string>, stale: string) {
    && |arrivals| == |pdus|
    && (forall a :: a in arrivals ==> 2 <= |a.residue|)
    && forall i :: 0 <= i < |pdus| ==>
         Octet(pdus[i], AddrPos(pdus[i])) <= |stale| && Unpack(pdus[i], stale) == Some(arrivals[i].seg)
  }

  /** The arrivals there would have been without any PDUs in between. */
  lemma WithoutPdus(segs: seq<SmsSeg>, addr: string, pdus: seq<string>, stale: string, arrivals: seq<Arrival>)
    returns (direct: seq<Arrival>)
    requires Relayed(pdus, segs, addr) && MEMORY_SZ <= |stale| && UnpackedFrom(arrivals, pdus, stale)
    ensures Carries(direct, segs)
    ensures forall i :: 0 <= i < |segs| ==> arrivals[i] == direct[i].(seg := Normalised(direct[i].seg))
  {
    direct := seq(|segs|, i requires 0 <= i < |segs| => arrivals[i].(seg := segs[i]));
    forall i | 0 <= i < |segs|
      ensures 2 <= |direct[i].residue|
      ensures arrivals[i] == direct[i].(seg := Normalised(direct[i].seg))
    {
      assert arrivals[i] in arrivals;
      RelayedUnpacks(pdus, segs, addr, stale, i);
    }
  }

  /** The same over the whole path: segmented, put into PDUs, decoded, reassembled. */
  lemma DeliversThroughPdus(
      st: Rcv, mem: seq<byte>, sz: nat, service: byte, refNo: byte, addr: string, pdus: seq<string>, stale: string,
      arrivals: seq<Arrival>)
    requires Ready(st) && 0 < sz && PROTO_OVERHEAD_SZ + sz <= st.rcvSz && sz + SEGMENT_SZ <= |mem|
    requires Relayed(pdus, Segments(mem, sz, service, refNo), addr) && MEMORY_SZ <= |stale|
    requires UnpackedFrom(arrivals, pdus, stale)
    ensures HandedOver(Feed(st, arrivals).1, service, mem[..sz]) <==> !Overcounted(sz)
  {
    var direct := WithoutPdus(Segments(mem, sz, service, refNo), addr, pdus, stale, arrivals);
    FeedNormalised(st, direct, arrivals);
    DeliversExactlyUnlessOvercounted(st, mem, sz, service, refNo, direct);
  }
}
