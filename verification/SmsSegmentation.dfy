/** Splitting an outgoing SMSNAS message into SMS segments. */
module SmsSegmentation {
  import opened Bytes

  const MAX_SMS_PL_SZ: nat := 140
  const PROTO_MAX_MSG_SZ: nat := 512
  const PROTO_OVERHEAD_SZ: nat := 4
  const SMSNAS_VERSION: byte := 1

  /** Payload limits: whole message in one SMS; a later segment; the first segment, which carries the header. */
  const SINGLE_SZ: nat := MAX_SMS_PL_SZ - PROTO_OVERHEAD_SZ
  const SEGMENT_SZ: nat := MAX_SMS_PL_SZ - 6
  const FIRST_SZ: nat := SEGMENT_SZ - PROTO_OVERHEAD_SZ

  /** One SMS as the modem layer sees it. */
  datatype SmsSeg = SmsSeg(payload: seq<byte>, refNo: byte, numSeg: byte, seqNo: byte)

  datatype ProtoResult = ProtoOk | ProtoError | ProtoInvParam

  function CeilDiv(a: nat, b: nat): nat
    requires b > 0
  {
    (a + b - 1) / b
  }

  /** Segments the code computes for a 16-bit size; a size below the first segment's limit wraps. */
  function TotalMsgs(sz: nat): nat {
    if sz == 0 then 1
    else
      var rest := (sz - FIRST_SZ) % 0x10000;
      if rest == 0 then 2 else 1 + CeilDiv(rest, SEGMENT_SZ)
  }

  method CalculateTotalMsgs(size: nat) returns (totalMsg: nat)
    requires size < 0x10000
    ensures totalMsg == TotalMsgs(size)
  {
    var sz: int := size;
    var first := true;
    totalMsg := 1;
    var maxSize := FIRST_SZ;
    while sz > 0
      invariant 0 <= sz
      invariant first ==> totalMsg == 1 && sz == size && maxSize == FIRST_SZ
      invariant !first ==> maxSize == SEGMENT_SZ
      invariant !first ==> TotalMsgs(size) == if sz == 0 then totalMsg else totalMsg - 1 + CeilDiv(sz, SEGMENT_SZ)
      decreases first, sz
    {
      if first {
        sz := (sz - maxSize) % 0x10000;
        totalMsg := totalMsg + 1;
        maxSize := SEGMENT_SZ;
        first := false;
        continue;
      }
      if sz <= maxSize {
        return;
      } else {
        totalMsg := totalMsg + 1;
        sz := sz - maxSize;
      }
    }
  }

  /** Version, service, and the payload size in little-endian order. */
  function Header(sz: nat, service: byte): (h: seq<byte>)
    requires sz < 0x10000
    ensures |h| == PROTO_OVERHEAD_SZ
  {
    [SMSNAS_VERSION, service, sz % 0x100, sz / 0x100]
  }

  /** `b` is a message on the wire: version 1, service, the size in little-endian order, and so many bytes of data. */
  ghost predicate IsWire(b: seq<byte>, service: byte, data: seq<byte>) {
    && |b| == 4 + |data|
    && b[0] == 1 && b[1] == service && b[2] as int + 256 * b[3] as int == |data|
    && b[4..] == data
  }

  /** `b` begins like a message of `sz` bytes on the wire. */
  ghost predicate BeginsWire(b: seq<byte>, service: byte, sz: nat) {
    4 <= |b| && b[0] == 1 && b[1] == service && b[2] as int + 256 * b[3] as int == sz
  }

  lemma HeaderBeginsWire(sz: nat, service: byte, data: seq<byte>)
    requires sz < 0x10000
    ensures BeginsWire(Header(sz, service) + data, service, sz)
    ensures IsWire(Header(sz, service) + data, service, data) <==> |data| == sz
  {
    var h := Header(sz, service);
    assert (h + data)[0] == h[0] && (h + data)[1] == h[1] && (h + data)[2] == h[2] && (h + data)[3] == h[3];
    assert (h + data)[4..] == data;
  }

  /** Where segment `i` starts in the payload, and how much of it it carries, counting segments from 0. */
  function PieceStart(sz: nat, i: nat): nat {
    if i == 0 then 0 else Min(FIRST_SZ + (i - 1) * SEGMENT_SZ, sz)
  }

  /** A segment that starts at the end of the payload repeats the length of the one before it. */
  function PieceLength(sz: nat, i: nat): nat {
    if i == 0 then Min(FIRST_SZ, sz)
    else if PieceStart(sz, i) < sz then Min(SEGMENT_SZ, sz - PieceStart(sz, i))
    else Min(SEGMENT_SZ, sz - PieceStart(sz, i - 1))
  }

  function PieceEnd(sz: nat, i: nat): nat {
    PieceStart(sz, i) + PieceLength(sz, i)
  }

  function Piece(mem: seq<byte>, sz: nat, service: byte, i: nat): seq<byte>
    requires sz < 0x10000 && sz + SEGMENT_SZ <= |mem|
  {
    var data := mem[PieceStart(sz, i)..PieceStart(sz, i) + PieceLength(sz, i)];
    if i == 0 then Header(sz, service) + data else data
  }

  function SegmentsOf(mem: seq<byte>, sz: nat, service: byte, refNo: byte, n: byte): seq<SmsSeg>
    requires sz <= PROTO_MAX_MSG_SZ && sz + SEGMENT_SZ <= |mem| && n < 0xFF
  {
    seq(n, i requires 0 <= i < n => SmsSeg(Piece(mem, sz, service, i), refNo, n, i + 1))
  }

  /** The segments sent for the `sz` payload bytes at the front of `mem`, the memory from the caller's buffer on. */
  function Segments(mem: seq<byte>, sz: nat, service: byte, refNo: byte): seq<SmsSeg>
    requires sz <= PROTO_MAX_MSG_SZ && sz + SEGMENT_SZ <= |mem|
  {
    if sz <= SINGLE_SZ then
      [SmsSeg(Header(sz, service) + mem[..sz], refNo, 1, 0)]
    else
      SegmentsOf(mem, sz, service, refNo, TotalMsgs(sz + PROTO_OVERHEAD_SZ))
  }

  /** Sizes for which the header is counted once too often. */
  predicate Overcounted(sz: nat) {
    261 <= sz <= 264 || 395 <= sz <= 398
  }

  /** The count is one more than the payload needs exactly on those sizes, and never more than four. */
  lemma CountIsExact(sz: nat)
    requires SINGLE_SZ < sz <= PROTO_MAX_MSG_SZ - PROTO_OVERHEAD_SZ
    ensures TotalMsgs(sz + PROTO_OVERHEAD_SZ) == 1 + CeilDiv(sz - 126, SEGMENT_SZ) <= 4
    ensures TotalMsgs(sz + PROTO_OVERHEAD_SZ) ==
            1 + CeilDiv(sz - FIRST_SZ, SEGMENT_SZ) + (if Overcounted(sz) then 1 else 0)
  {}

  /** The count for any 16-bit size: one for nothing, two at the limit, else one more than what remains needs. */
  lemma CountInFigures(sz: nat)
    requires sz < 0x10000
    ensures var rest := if sz < FIRST_SZ then 0x10000 + sz - FIRST_SZ else sz - FIRST_SZ;
            if sz == 0 then TotalMsgs(sz) == 1
            else if rest == 0 then TotalMsgs(sz) == 2
            else (TotalMsgs(sz) - 2) * SEGMENT_SZ < rest <= (TotalMsgs(sz) - 1) * SEGMENT_SZ
  {}

  /** The remaining-size variable while segment `cur` (from 1) is sent; it stops shrinking once it fits a segment. */
  ghost function Remaining(sz: nat, cur: nat): int {
    if cur <= 1 then sz - FIRST_SZ
    else
      var before := Remaining(sz, cur - 1);
      if before <= SEGMENT_SZ then before else before - SEGMENT_SZ
  }

  /** Segment `cur` starts where the one before it ended and takes what the remaining-size variable dictates. */
  ghost predicate Follows(sz: nat, cur: nat) {
    && 1 <= cur
    && PieceStart(sz, cur) == PieceEnd(sz, cur - 1)
    && PieceLength(sz, cur) == Min(SEGMENT_SZ, Remaining(sz, cur))
    && Remaining(sz, cur + 1) ==
       if Remaining(sz, cur) <= SEGMENT_SZ then Remaining(sz, cur) else Remaining(sz, cur) - SEGMENT_SZ
  }

  lemma PieceFollows(sz: nat, cur: nat)
    requires SINGLE_SZ < sz <= PROTO_MAX_MSG_SZ - PROTO_OVERHEAD_SZ
    requires 1 <= cur <= 3 && (cur >= 2 ==> sz > 260) && (cur == 3 ==> sz > 394)
    ensures Follows(sz, cur)
  {
    assert Remaining(sz, 1) == sz - FIRST_SZ;
    assert cur == 1 || cur == 2 || cur == 3;
  }

  lemma PiecesFollow(sz: nat)
    requires SINGLE_SZ < sz <= PROTO_MAX_MSG_SZ - PROTO_OVERHEAD_SZ
    ensures 1 < TotalMsgs(sz + PROTO_OVERHEAD_SZ) <= 4
    ensures PieceLength(sz, 0) == FIRST_SZ
    ensures forall cur :: 1 <= cur < TotalMsgs(sz + PROTO_OVERHEAD_SZ) ==> Follows(sz, cur)
  {
    CountIsExact(sz);
    forall cur | 1 <= cur < TotalMsgs(sz + PROTO_OVERHEAD_SZ)
      ensures Follows(sz, cur)
    {
      PieceFollows(sz, cur);
    }
  }

  lemma TakeOneMore<T>(s: seq<T>, n: nat)
    requires 0 < n <= |s|
    ensures s[..n] == s[..n - 1] + [s[n - 1]] && s[..|s|] == s
  {}

  lemma OneMoreBehind<T>(front: seq<T>, s: seq<T>, n: nat)
    requires 0 < n <= |s|
    ensures front + s[..n] == (front + s[..n - 1]) + [s[n - 1]] && s[..|s|] == s
  {
    TakeOneMore(s, n);
  }

  /** Message references count modulo 256. */
  function NextRef(refNum: int): (r: byte)
    ensures 0 <= refNum < 256 ==> r == if refNum == 255 then 0 else refNum + 1
  {
    (refNum + 1) % 256
  }

  /** The reference of the `n`-th concatenated message from now. */
  function RefAfter(refNum: byte, n: nat): byte {
    if n == 0 then refNum else NextRef(RefAfter(refNum, n - 1))
  }

  lemma {:induction false} RefAfterIs(refNum: byte, n: nat, y: nat)
    requires y == refNum + n
    ensures RefAfter(refNum, n) == y % 256
  {
    if n > 0 {
      RefAfterIs(refNum, n - 1, y - 1);
      OneRefFurther(refNum, n, y - 1);
    }
  }

  lemma OneRefFurther(refNum: byte, n: nat, before: nat)
    requires n > 0 && RefAfter(refNum, n - 1) == before % 256
    ensures RefAfter(refNum, n) == (before + 1) % 256
  {
    NextRefIs(RefAfter(refNum, n - 1), before, before + 1);
  }

  lemma NextRefIs(r: byte, y: nat, z: nat)
    requires r == y % 256 && z == y + 1
    ensures NextRef(r) == z % 256
  {
    assert y == 256 * (y / 256) + r;
    if r == 255 {
      assert y + 1 == 256 * (y / 256 + 1);
    } else {
      assert y + 1 == 256 * (y / 256) + (r + 1);
    }
  }

  /** Within any 256 concatenated messages in a row no reference occurs twice. */
  lemma RefsDiffer(refNum: byte, m: nat, n: nat)
    requires m < n < m + 256
    ensures RefAfter(refNum, m) != RefAfter(refNum, n)
  {
    RefAfterIs(refNum, m, refNum as int + m);
    RefAfterIs(refNum, n, refNum as int + n);
  }

  class Sender {
    var msgRefNum: byte
    var hostValid: bool
    const sendMsg: array<byte>
    /** Segments handed to the modem so far. */
    var sent: seq<SmsSeg>

    ghost predicate Valid()
      reads this
    {
      sendMsg.Length == MAX_SMS_PL_SZ
    }

    constructor ()
      ensures Valid() && sent == [] && msgRefNum == 0 && !hostValid
    {
      msgRefNum, hostValid, sent := 0, false, [];
      sendMsg := new byte[MAX_SMS_PL_SZ](_ => 0);
    }

    method BuildMsg(payload: seq<byte>, totalSz: nat, cpSz: nat, service: byte)
      requires Valid() && totalSz < 0x10000
      requires cpSz <= |payload| && PROTO_OVERHEAD_SZ + cpSz <= MAX_SMS_PL_SZ
      modifies sendMsg
      ensures sendMsg[..PROTO_OVERHEAD_SZ + cpSz] == Header(totalSz, service) + payload[..cpSz]
      ensures BeginsWire(sendMsg[..], service, totalSz) && sendMsg[4..4 + cpSz] == payload[..cpSz]
      ensures forall i :: PROTO_OVERHEAD_SZ + cpSz <= i < sendMsg.Length ==> sendMsg[i] == 0
    {
      forall i | 0 <= i < sendMsg.Length {
        sendMsg[i] := 0;
      }
      sendMsg[0] := SMSNAS_VERSION;
      sendMsg[1] := service;
      sendMsg[2] := totalSz % 0x100;
      sendMsg[3] := (totalSz / 0x100) % 0x100;
      forall i | 0 <= i < cpSz {
        sendMsg[PROTO_OVERHEAD_SZ + i] := payload[i];
      }
    }

    method WriteToModem(msg: seq<byte>, refNum: byte, totalNum: byte, seqNum: byte)
      modifies this`sent
      ensures sent == old(sent) + [SmsSeg(msg, refNum, totalNum, seqNum)]
    {
      sent := sent + [SmsSeg(msg, refNum, totalNum, seqNum)];
    }

    /** The sending loop for a message that does not fit one SMS. */
    method SendConcatenated(mem: seq<byte>, sz: nat, service: byte, refNum: byte, totalMsgs: nat)
      requires Valid() && SINGLE_SZ < sz <= PROTO_MAX_MSG_SZ - PROTO_OVERHEAD_SZ && sz + SEGMENT_SZ <= |mem|
      requires 1 < totalMsgs <= 4 && PieceLength(sz, 0) == FIRST_SZ
      requires forall cur :: 1 <= cur < totalMsgs ==> Follows(sz, cur)
      modifies this`sent, sendMsg
      ensures sent == old(sent) + SegmentsOf(mem, sz, service, refNum, totalMsgs)
    {
      ghost var all := SegmentsOf(mem, sz, service, refNum, totalMsgs);
      var cur := 1;
      var remSz, sendSz, totalSent := sz, 0, 0;
      while true
        invariant 1 <= cur <= totalMsgs == |all|
        invariant sent == old(sent) + all[..cur - 1]
        invariant cur == 1 ==> remSz == sz
        invariant cur > 1 ==> remSz == Remaining(sz, cur)
        invariant cur > 1 ==> sendSz == PieceLength(sz, cur - 1)
        invariant totalSent == PieceStart(sz, cur - 1)
        decreases totalMsgs - cur
      {
        if cur == 1 {
          BuildMsg(mem, sz, FIRST_SZ, service);
          remSz := remSz - FIRST_SZ;
          sendSz := FIRST_SZ + PROTO_OVERHEAD_SZ;
        }
        var msg := if cur == 1 then sendMsg[..sendSz] else mem[totalSent..totalSent + sendSz];
        assert msg == Piece(mem, sz, service, cur - 1);
        assert all[cur - 1] == SmsSeg(msg, refNum, totalMsgs, cur);
        OneMoreBehind(old(sent), all, cur);
        WriteToModem(msg, refNum, totalMsgs, cur);
        totalSent := if cur == 1 then totalSent + (sendSz - PROTO_OVERHEAD_SZ) else totalSent + sendSz;
        cur := cur + 1;
        if cur > totalMsgs {
          break;
        }
        assert Follows(sz, cur - 1);
        if remSz <= SEGMENT_SZ {
          sendSz := remSz;
        } else {
          remSz := remSz - SEGMENT_SZ;
          sendSz := SEGMENT_SZ;
        }
      }
    }

    /** Sends the first `sz` bytes of `mem`; whatever lies behind them is `mem[sz..]`. */
    method SendMsgToCloud(mem: seq<byte>, sz: nat, service: byte) returns (r: ProtoResult)
      requires Valid() && sz < 0x10000 && sz + SEGMENT_SZ <= |mem|
      modifies this`sent, this`msgRefNum, sendMsg
      ensures Valid()
      ensures r == if sz == 0 || sz + PROTO_OVERHEAD_SZ > PROTO_MAX_MSG_SZ || !hostValid then ProtoInvParam else ProtoOk
      ensures r != ProtoOk ==> sent == old(sent) && msgRefNum == old(msgRefNum)
      ensures r == ProtoOk ==> sent == old(sent) + Segments(mem, sz, service, old(msgRefNum))
      ensures r == ProtoOk ==>
                msgRefNum == if sz <= SINGLE_SZ then old(msgRefNum)
                             else if old(msgRefNum) == 255 then 0 else old(msgRefNum) + 1
      // What goes out, laid end to end: a message on the wire, and bytes behind it if one segment is too many.
      ensures r == ProtoOk ==>
                old(sent) <= sent &&
                var b := Concat(Payloads(sent[|old(sent)|..]));
                BeginsWire(b, service, sz) && 4 + sz <= |b| && b[4..4 + sz] == mem[..sz]
      ensures r == ProtoOk ==>
                (IsWire(Concat(Payloads(sent[|old(sent)|..])), service, mem[..sz]) <==> !Overcounted(sz))
    {
      ghost var before := sent;
      r := SendSegments(mem, sz, service);
      if r == ProtoOk {
        assert sent[|before|..] == Segments(mem, sz, service, old(msgRefNum));
        SegmentsAreOnWire(mem, sz, service, old(msgRefNum));
      }
    }

    /** One segment, or the loop, unless the size or the missing destination forbids it. */
    method SendSegments(mem: seq<byte>, sz: nat, service: byte) returns (r: ProtoResult)
      requires Valid() && sz < 0x10000 && sz + SEGMENT_SZ <= |mem|
      modifies this`sent, this`msgRefNum, sendMsg
      ensures Valid()
      ensures r == if sz == 0 || sz + PROTO_OVERHEAD_SZ > PROTO_MAX_MSG_SZ || !hostValid then ProtoInvParam else ProtoOk
      ensures r != ProtoOk ==> sent == old(sent) && msgRefNum == old(msgRefNum)
      ensures r == ProtoOk ==> sent == old(sent) + Segments(mem, sz, service, old(msgRefNum))
      ensures r == ProtoOk ==>
                msgRefNum == if sz <= SINGLE_SZ then old(msgRefNum) else NextRef(old(msgRefNum))
    {
      if sz == 0 || sz + PROTO_OVERHEAD_SZ > PROTO_MAX_MSG_SZ {
        return ProtoInvParam;
      }
      if !hostValid {
        return ProtoInvParam;
      }
      var refNum := msgRefNum;
      if sz <= SINGLE_SZ {
        BuildMsg(mem, sz, sz, service);
        WriteToModem(sendMsg[..sz + PROTO_OVERHEAD_SZ], refNum, 1, 0);
        assert sent == old(sent) + Segments(mem, sz, service, refNum);
        return ProtoOk;
      }
      var totalMsgs := CalculateTotalMsgs(sz + PROTO_OVERHEAD_SZ);
      PiecesFollow(sz);
      if totalMsgs > 4 {
        return ProtoError;
      }
      SendConcatenated(mem, sz, service, refNum, totalMsgs);
      msgRefNum := NextRef(refNum);
      r := ProtoOk;
    }
  }

  // ----- What the segments add up to

  /** Bytes from behind the payload that end up in the last segment. */
  function Excess(sz: nat): nat {
    if 261 <= sz <= 264 then sz - FIRST_SZ
    else if 395 <= sz <= 398 then sz - FIRST_SZ - SEGMENT_SZ
    else 0
  }

  function Payloads(segs: seq<SmsSeg>): seq<seq<byte>> {
    seq(|segs|, i requires 0 <= i < |segs| => segs[i].payload)
  }

  lemma Prolong(front: seq<byte>, mem: seq<byte>, start: nat, end: nat)
    requires start <= end <= |mem|
    ensures (front + mem[..start]) + mem[start..end] == front + mem[..end]
  {}

  /** Pieces cut from `mem` where the one before ended join up to everything as far as the last end. */
  lemma {:induction false} SlicesJoin(
      pieces: seq<seq<byte>>, header: seq<byte>, mem: seq<byte>, ends: seq<nat>, k: nat)
    requires 1 <= k <= |pieces| == |ends| && (forall i :: 0 <= i < |ends| ==> ends[i] <= |mem|)
    requires pieces[0] == header + mem[..ends[0]]
    requires forall i :: 0 < i < |pieces| ==> ends[i - 1] <= ends[i] && pieces[i] == mem[ends[i - 1]..ends[i]]
    ensures Concat(pieces[..k]) == header + mem[..ends[k - 1]]
  {
    TakeOneMore(pieces, k);
    if k == 1 {
      assert Concat([]) == [];
    } else {
      SlicesJoin(pieces, header, mem, ends, k - 1);
      Prolong(header, mem, ends[k - 2], ends[k - 1]);
    }
  }

  lemma PieceIs(mem: seq<byte>, sz: nat, service: byte, refNo: byte, total: nat, i: nat)
    requires SINGLE_SZ < sz <= PROTO_MAX_MSG_SZ && sz + SEGMENT_SZ <= |mem| && i < total <= 4
    ensures PieceEnd(sz, i) <= |mem|
    ensures Payloads(SegmentsOf(mem, sz, service, refNo, total))[i]
            == (if i == 0 then Header(sz, service) else []) + mem[PieceStart(sz, i)..PieceEnd(sz, i)]
  {}

  /** Where the segments end, when each starts where the one before it ended. */
  lemma Ends(sz: nat, total: nat) returns (ends: seq<nat>)
    requires forall cur :: 1 <= cur < total ==> Follows(sz, cur)
    ensures |ends| == total && forall i :: 0 <= i < total ==> ends[i] == PieceEnd(sz, i)
    ensures forall i :: 0 < i < total ==> ends[i - 1] == PieceStart(sz, i)
  {
    ends := seq(total, i requires 0 <= i < total => PieceEnd(sz, i));
    forall i | 0 < i < total
      ensures ends[i - 1] == PieceStart(sz, i)
    {
      assert Follows(sz, i);
    }
  }

  /** The first `k` segments carry the header and everything up to where the last of them ends. */
  lemma PiecesAddUp(mem: seq<byte>, sz: nat, service: byte, refNo: byte, total: nat, k: nat)
    requires SINGLE_SZ < sz <= PROTO_MAX_MSG_SZ && sz + SEGMENT_SZ <= |mem| && 1 <= k <= total <= 4
    requires forall cur :: 1 <= cur < total ==> Follows(sz, cur)
    ensures PieceEnd(sz, k - 1) <= |mem|
    ensures Concat(Payloads(SegmentsOf(mem, sz, service, refNo, total))[..k])
            == Header(sz, service) + mem[..PieceEnd(sz, k - 1)]
  {
    var ends := Ends(sz, total);
    var pieces := Payloads(SegmentsOf(mem, sz, service, refNo, total));
    forall i | 0 <= i < total
      ensures ends[i] <= |mem|
      ensures pieces[i] == if i == 0 then Header(sz, service) + mem[..ends[0]] else mem[ends[i - 1]..ends[i]]
    {
      PieceIs(mem, sz, service, refNo, total, i);
    }
    SlicesJoin(pieces, Header(sz, service), mem, ends, k);
  }

  lemma LastPieceEnds(sz: nat)
    requires SINGLE_SZ < sz <= PROTO_MAX_MSG_SZ - PROTO_OVERHEAD_SZ
    ensures var last := TotalMsgs(sz + PROTO_OVERHEAD_SZ) - 1;
            last > 0 && PieceStart(sz, last) + PieceLength(sz, last) == sz + Excess(sz)
  {
    CountIsExact(sz);
  }

  /** The segments together are the header, the payload, and the excess read from behind it. */
  lemma SegmentsAddUp(mem: seq<byte>, sz: nat, service: byte, refNo: byte)
    requires 0 < sz <= PROTO_MAX_MSG_SZ - PROTO_OVERHEAD_SZ && sz + SEGMENT_SZ <= |mem|
    ensures Concat(Payloads(Segments(mem, sz, service, refNo))) == Header(sz, service) + mem[..sz + Excess(sz)]
  {
    if sz <= SINGLE_SZ {
      var only := Payloads(Segments(mem, sz, service, refNo));
      assert only == [Header(sz, service) + mem[..sz]] && only[..0] == [];
    } else {
      var total := TotalMsgs(sz + PROTO_OVERHEAD_SZ);
      PiecesFollow(sz);
      PiecesAddUp(mem, sz, service, refNo, total, total);
      LastPieceEnds(sz);
      var pieces := Payloads(SegmentsOf(mem, sz, service, refNo, total));
      assert pieces == Payloads(Segments(mem, sz, service, refNo)) && pieces[..total] == pieces;
    }
  }

  /** A message of up to 136 bytes goes out as one part, numbered 0 of 1; any other in two to four. */
  lemma ShortMessageIsOnePart(mem: seq<byte>, sz: nat, service: byte, refNo: byte)
    requires 0 < sz <= PROTO_MAX_MSG_SZ - PROTO_OVERHEAD_SZ && sz + SEGMENT_SZ <= |mem|
    ensures var segs := Segments(mem, sz, service, refNo);
            if sz <= 136 then |segs| == 1 && segs[0].refNo == refNo && segs[0].numSeg == 1 && segs[0].seqNo == 0
            else 2 <= |segs| <= 4
  {
    if sz > SINGLE_SZ {
      CountIsExact(sz);
    }
  }

  lemma ExcessExactlyWhenOvercounted(sz: nat)
    ensures Excess(sz) > 0 <==> Overcounted(sz)
  {}

  lemma LongerThanWire(b: seq<byte>, service: byte, sz: nat, data: seq<byte>, e: nat)
    requires |b| == 4 + sz + e && |data| == sz
    requires BeginsWire(b, service, sz) && b[4..] == data + b[4 + sz..]
    ensures b[4..4 + sz] == data && (IsWire(b, service, data) <==> e == 0)
  {
    assert b[4..4 + sz] == b[4..][..sz];
  }

  /** What is sent is the message on the wire, byte by byte, exactly unless one segment is too many. */
  lemma SegmentsAreOnWire(mem: seq<byte>, sz: nat, service: byte, refNo: byte)
    requires 0 < sz <= PROTO_MAX_MSG_SZ - PROTO_OVERHEAD_SZ && sz + SEGMENT_SZ <= |mem|
    ensures var b := Concat(Payloads(Segments(mem, sz, service, refNo)));
            && BeginsWire(b, service, sz) && 4 + sz <= |b| && b[4..4 + sz] == mem[..sz]
            && (IsWire(b, service, mem[..sz]) <==> !Overcounted(sz))
  {
    var e := Excess(sz);
    var b, data := Concat(Payloads(Segments(mem, sz, service, refNo))), mem[..sz + e];
    SegmentsAddUp(mem, sz, service, refNo);
    HeaderBeginsWire(sz, service, data);
    assert b[4..] == data && data == mem[..sz] + data[sz..] && b[4 + sz..] == data[sz..];
    LongerThanWire(b, service, sz, mem[..sz], e);
    ExcessExactlyWhenOvercounted(sz);
  }

  /** The segments carry exactly the header and the payload, nothing twice and nothing else, iff the count is right. */
  lemma SegmentsCoverExactlyUnlessOvercounted(mem: seq<byte>, sz: nat, service: byte, refNo: byte)
    requires 0 < sz <= PROTO_MAX_MSG_SZ - PROTO_OVERHEAD_SZ && sz + SEGMENT_SZ <= |mem|
    ensures Concat(Payloads(Segments(mem, sz, service, refNo))) == Header(sz, service) + mem[..sz] <==>
            !Overcounted(sz)
  {
    SegmentsAddUp(mem, sz, service, refNo);
    assert |Header(sz, service) + mem[..sz + Excess(sz)]| == PROTO_OVERHEAD_SZ + sz + Excess(sz);
  }

  lemma PieceFits(mem: seq<byte>, sz: nat, service: byte, i: nat)
    requires SINGLE_SZ < sz <= PROTO_MAX_MSG_SZ - PROTO_OVERHEAD_SZ && sz + SEGMENT_SZ <= |mem|
    requires i < TotalMsgs(sz + PROTO_OVERHEAD_SZ)
    ensures 0 < |Piece(mem, sz, service, i)| <= SEGMENT_SZ
  {
    CountIsExact(sz);
  }

  /** Every segment fits an SMS, and their numbering is what a receiver needs to put them back together. */
  ghost predicate Numbered(segs: seq<SmsSeg>, refNo: byte) {
    && 1 < |segs| <= 4
    && forall i :: 0 <= i < |segs| ==>
         && 0 < |segs[i].payload| <= SEGMENT_SZ
         && segs[i].refNo == refNo && segs[i].numSeg == |segs| && segs[i].seqNo == i + 1
  }

  lemma SegmentsAreNumbered(mem: seq<byte>, sz: nat, service: byte, refNo: byte)
    requires SINGLE_SZ < sz <= PROTO_MAX_MSG_SZ - PROTO_OVERHEAD_SZ && sz + SEGMENT_SZ <= |mem|
    ensures Numbered(Segments(mem, sz, service, refNo), refNo)
    ensures PROTO_OVERHEAD_SZ <= |Segments(mem, sz, service, refNo)[0].payload|
    ensures Segments(mem, sz, service, refNo)[0].payload[..PROTO_OVERHEAD_SZ] == Header(sz, service)
  {
    CountIsExact(sz);
    var segs := Segments(mem, sz, service, refNo);
    forall i | 0 <= i < |segs|
      ensures 0 < |segs[i].payload| <= SEGMENT_SZ
    {
      PieceFits(mem, sz, service, i);
    }
  }
}
