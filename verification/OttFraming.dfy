/** The OTT message format, and recognising where a message ends in the bytes received so far. */
module OttFraming {
  import opened Bytes

  const PROTO_MAX_MSG_SZ: nat := 512
  const PROTO_OVERHEAD_SZ: nat := 3
  const PROTO_DATA_SZ: nat := PROTO_MAX_MSG_SZ - PROTO_OVERHEAD_SZ

  const MT_NONE: nat := 0
  const MT_AUTH: nat := 1
  const MT_STATUS: nat := 2
  const MT_UPDATE: nat := 3
  const MT_RESTARTED: nat := 4
  const MT_CMD_PI: nat := 10
  const MT_CMD_SL: nat := 11

  // ----- The command byte

  /** The four control flags, from bit 4 up. */
  datatype Flags = Flags(nack: bool, ack: bool, pending: bool, quit: bool)

  predicate FlagsAreValid(f: Flags) {
    !(f.nack && f.ack) && !(f.nack && f.pending) && !(f.pending && f.quit)
  }

  function LoadFlags(cmd: byte): Flags {
    Flags(cmd / 16 % 2 == 1, cmd / 32 % 2 == 1, cmd / 64 % 2 == 1, cmd / 128 % 2 == 1)
  }

  function LoadType(cmd: byte): nat {
    cmd % 16
  }

  function Bit(b: bool, weight: nat): nat {
    if b then weight else 0
  }

  function Command(f: Flags, mType: nat): byte
    requires mType < 16
  {
    Bit(f.nack, 16) + Bit(f.ack, 32) + Bit(f.pending, 64) + Bit(f.quit, 128) + mType
  }

  lemma NibbleReadsBack(f: Flags, v: nat, cmd: byte, mType: nat)
    requires v == Bit(f.nack, 1) + Bit(f.ack, 2) + Bit(f.pending, 4) + Bit(f.quit, 8)
    requires cmd == 16 * v + mType && mType < 16
    ensures LoadFlags(cmd) == f && LoadType(cmd) == mType
  {
    assert cmd / 16 == v && cmd / 32 == v / 2 && cmd / 64 == v / 4 && cmd / 128 == v / 8;
  }

  /** Flags and type are read back from the byte they were put into. */
  lemma CommandReadsBack(f: Flags, mType: nat)
    requires mType < 16
    ensures LoadFlags(Command(f, mType)) == f && LoadType(Command(f, mType)) == mType
  {
    NibbleReadsBack(f, Bit(f.nack, 1) + Bit(f.ack, 2) + Bit(f.pending, 4) + Bit(f.quit, 8), Command(f, mType), mType);
  }

  // ----- Messages

  /** The little-endian size field of an update. */
  function SizeField(buf: seq<byte>): nat
    requires 3 <= |buf|
  {
    buf[1] as int + 0x100 * buf[2] as int
  }

  /** The receiver's test on what its buffer holds after `recvd` bytes; bytes further back are left from earlier. */
  predicate IsComplete(buf: seq<byte>, recvd: nat)
    requires 4 <= |buf|
  {
    var t := LoadType(buf[0]);
    if t == MT_NONE then recvd == 1
    else if t == MT_CMD_PI || t == MT_CMD_SL then recvd == 5
    else if t == MT_UPDATE then recvd >= PROTO_OVERHEAD_SZ + 1 && recvd - PROTO_OVERHEAD_SZ == SizeField(buf)
    else false
  }

  predicate IsValid(buf: seq<byte>)
    requires 4 <= |buf|
  {
    var t := LoadType(buf[0]);
    && FlagsAreValid(LoadFlags(buf[0]))
    && (t == MT_NONE || t == MT_CMD_PI || t == MT_CMD_SL || (t == MT_UPDATE && SizeField(buf) <= PROTO_DATA_SZ))
  }

  /** A whole message of one of the four kinds the cloud sends, with data if it is an update. */
  predicate IsMessage(m: seq<byte>) {
    && m != []
    && FlagsAreValid(LoadFlags(m[0]))
    && var t := LoadType(m[0]);
       if t == MT_NONE then |m| == 1
       else if t == MT_CMD_PI || t == MT_CMD_SL then |m| == 5
       else t == MT_UPDATE && PROTO_OVERHEAD_SZ < |m| <= PROTO_MAX_MSG_SZ && |m| == PROTO_OVERHEAD_SZ + SizeField(m)
  }

  /**
   * In a stream that begins with a message, the buffer is judged complete at exactly that message's length: not
   * before, and never after, so bytes of a second message read along with the first would hide the boundary.
   */
  lemma CompleteExactlyAtEnd(buf: seq<byte>, m: seq<byte>, n: nat)
    requires IsMessage(m) && 4 <= |buf| && 0 < n <= |buf|
    requires var k := Min(n, |m|); buf[..k] == m[..k]
    ensures IsComplete(buf, n) <==> n == |m|
    ensures n == |m| ==> IsValid(buf)
  {
    var k := Min(n, |m|);
    assert forall i :: 0 <= i < k ==> buf[..k][i] == m[..k][i];
  }

  /** An update without data is never judged complete, however much is read. */
  lemma EmptyUpdateNeverCompletes(buf: seq<byte>, n: nat)
    requires 4 <= |buf| && LoadType(buf[0]) == MT_UPDATE && SizeField(buf) == 0
    ensures !IsComplete(buf, n)
  {}

  // ----- The format in figures

  /** Flags sit in the upper half of the command byte: reject 1, acknowledge 2, more to come 4, quit 8. */
  lemma FlagsInFigures(cmd: byte)
    ensures var h := cmd / 16;
            LoadFlags(cmd) == Flags(h in {1, 3, 5, 7, 9, 11, 13, 15}, h in {2, 3, 6, 7, 10, 11, 14, 15},
                                    h in {4, 5, 6, 7, 12, 13, 14, 15}, h >= 8)
    ensures FlagsAreValid(LoadFlags(cmd)) <==> cmd / 16 in {0, 1, 2, 4, 6, 8, 9, 10}
  {
    assert cmd / 32 == cmd / 16 / 2 && cmd / 64 == cmd / 16 / 4 && cmd / 128 == cmd / 16 / 8;
  }

  /** Exactly these are messages: one byte; a command and four bytes; an update with its size and 1 to 509 bytes. */
  lemma MessagesInFigures(m: seq<byte>)
    ensures IsMessage(m) <==>
            && m != [] && m[0] / 16 in {0, 1, 2, 4, 6, 8, 9, 10}
            && (|| (m[0] % 16 == 0 && |m| == 1)
                || (m[0] % 16 in {10, 11} && |m| == 5)
                || (m[0] % 16 == 3 && 4 <= |m| <= 512 && |m| == 3 + m[1] as int + 256 * m[2] as int))
  {
    if m != [] {
      FlagsInFigures(m[0]);
    }
  }

  /** A complete message is refused exactly if its flags contradict each other. */
  lemma ValidInFigures(buf: seq<byte>, recvd: nat)
    requires 4 <= |buf| && recvd <= 512 && IsComplete(buf, recvd)
    ensures IsValid(buf) <==> buf[0] / 16 in {0, 1, 2, 4, 6, 8, 9, 10}
  {
    FlagsInFigures(buf[0]);
  }

  /** The whole test on a buffer, whatever its length field says. */
  lemma ValidityInFigures(buf: seq<byte>)
    requires 4 <= |buf|
    ensures IsValid(buf) <==>
            && buf[0] / 16 in {0, 1, 2, 4, 6, 8, 9, 10}
            && (buf[0] % 16 in {0, 10, 11} || (buf[0] % 16 == 3 && buf[1] as int + 256 * buf[2] as int <= 509))
  {
    FlagsInFigures(buf[0]);
  }

  /** What has come is complete exactly at these lengths, by type. */
  lemma CompleteInFigures(buf: seq<byte>, recvd: nat)
    requires 4 <= |buf|
    ensures IsComplete(buf, recvd) <==>
            || (buf[0] % 16 == 0 && recvd == 1)
            || (buf[0] % 16 in {10, 11} && recvd == 5)
            || (buf[0] % 16 == 3 && recvd >= 4 && recvd == 3 + buf[1] as int + 256 * buf[2] as int)
  {}

  // ----- Commands as service messages

  const CONTROL_PROTOCOL_VERSION: byte := 1
  const CTRL_MSG_MAKE_DEVICE_SLEEP: byte := 1
  const CTRL_MSG_SET_POLLING_INTERVAL: byte := 2

  predicate IsCommand(cmd: byte) {
    LoadType(cmd) == MT_CMD_PI || LoadType(cmd) == MT_CMD_SL
  }

  /** Cell `i` once a command has been made into a message of the control service. */
  function Rewritten(buf: seq<byte>, i: nat): byte
    requires 4 <= |buf| && i < |buf|
  {
    if i == PROTO_OVERHEAD_SZ then CONTROL_PROTOCOL_VERSION
    else if i == PROTO_OVERHEAD_SZ + 1 then
      if LoadType(buf[0]) == MT_CMD_PI then CTRL_MSG_SET_POLLING_INTERVAL else CTRL_MSG_MAKE_DEVICE_SLEEP
    else if PROTO_OVERHEAD_SZ + 2 <= i < PROTO_OVERHEAD_SZ + 6 then buf[i - PROTO_OVERHEAD_SZ - 1]
    else buf[i]
  }

  /** The buffer as the application sees it. */
  function Presented(buf: seq<byte>): (b: seq<byte>)
    requires 4 <= |buf|
    ensures |b| == |buf| && b[0] == buf[0]
  {
    if IsCommand(buf[0]) then seq(|buf|, i requires 0 <= i < |buf| => Rewritten(buf, i)) else buf
  }

  /** The length it is told: the service message counts one byte more. */
  function PresentedLength(buf: seq<byte>, length: nat): nat
    requires 4 <= |buf|
  {
    if IsCommand(buf[0]) then length + 1 else length
  }

  /** In a buffer with room for it, the service message carries the interval the command came with, untouched. */
  lemma CommandKeepsInterval(buf: seq<byte>)
    requires 9 <= |buf| && IsCommand(buf[0])
    ensures Presented(buf)[..PROTO_OVERHEAD_SZ] == buf[..PROTO_OVERHEAD_SZ]
    ensures Presented(buf)[PROTO_OVERHEAD_SZ + 2..PROTO_OVERHEAD_SZ + 6] == buf[1..5]
    ensures Presented(buf)[9..] == buf[9..]
    ensures Presented(buf)[3] == 1 && Presented(buf)[4] == if buf[0] % 16 == 10 then 2 else 1
  {}

  // ----- Reading in pieces

  /** What has been received of the current message: `recvd` bytes at the front of the buffer. */
  datatype Rx = Rx(buf: seq<byte>, recvd: nat)

  datatype Retrieved = NoMsg | Complete(length: nat) | Invalid

  /** A successful read puts its bytes behind those already there. */
  function Store(rx: Rx, bytes: seq<byte>): (r: Rx)
    requires rx.recvd + |bytes| <= |rx.buf|
    ensures |r.buf| == |rx.buf| && r.recvd == rx.recvd + |bytes|
  {
    Rx(rx.buf[..rx.recvd] + bytes + rx.buf[rx.recvd + |bytes|..], rx.recvd + |bytes|)
  }

  /** One read: store, and hand the message over when it is complete. */
  function Accept(rx: Rx, bytes: seq<byte>): (r: (Retrieved, Rx))
    requires 4 <= |rx.buf| && rx.recvd + |bytes| <= |rx.buf|
    ensures |r.1.buf| == |rx.buf| && r.1.recvd <= |rx.buf|
  {
    var r := Store(rx, bytes);
    if !IsComplete(r.buf, r.recvd) then (NoMsg, r)
    else (if IsValid(r.buf) then Complete(r.recvd) else Invalid, r.(recvd := 0))
  }

  /** A series of reads; the results in order, and what is left. */
  function AcceptAll(rx: Rx, chunks: seq<seq<byte>>): (seq<Retrieved>, Rx)
    requires 4 <= |rx.buf|
    decreases |chunks|
  {
    if chunks == [] then ([], rx)
    else
      var (results, mid) := AcceptAll(rx, chunks[..|chunks| - 1]);
      var last := chunks[|chunks| - 1];
      if |mid.buf| == |rx.buf| && mid.recvd + |last| <= |mid.buf| then
        var (r, end) := Accept(mid, last);
        (results + [r], end)
      else (results, mid)
  }

  /** The front of the buffer after some of a message's chunks. */
  ghost predicate Holds(rx: Rx, size: nat, front: seq<byte>) {
    |rx.buf| == size && rx.recvd == |front| <= size && rx.buf[..rx.recvd] == front
  }

  lemma {:induction false} ConcatPrefix(chunks: seq<seq<byte>>, k: nat)
    requires k <= |chunks|
    ensures |Concat(chunks[..k])| <= |Concat(chunks)| && Concat(chunks)[..|Concat(chunks[..k])|] == Concat(chunks[..k])
  {
    assert chunks == chunks[..k] + chunks[k..];
    ConcatSplit(chunks[..k], chunks[k..]);
  }

  lemma StoreHolds(rx: Rx, size: nat, front: seq<byte>, bytes: seq<byte>)
    requires Holds(rx, size, front) && |front| + |bytes| <= size
    ensures Holds(Store(rx, bytes), size, front + bytes)
  {
    assert Store(rx, bytes).buf[..|front| + |bytes|] == front + bytes;
  }

  /** Until the last chunk nothing is handed over, and the buffer holds what has come. */
  lemma {:induction false} PartialReads(rx: Rx, chunks: seq<seq<byte>>, k: nat)
    requires IsMessage(Concat(chunks)) && |Concat(chunks)| <= |rx.buf| && 4 <= |rx.buf| && rx.recvd == 0
    requires k < |chunks| && forall c :: c in chunks ==> c != []
    ensures var (results, end) := AcceptAll(rx, chunks[..k]);
            results == seq(k, _ => NoMsg) && Holds(end, |rx.buf|, Concat(chunks[..k]))
  {
    if k > 0 {
      PartialReads(rx, chunks, k - 1);
      var (results, mid) := AcceptAll(rx, chunks[..k - 1]);
      var m := Concat(chunks);
      assert chunks[..k][..k - 1] == chunks[..k - 1];
      ConcatPrefix(chunks, k);
      StoreHolds(mid, |rx.buf|, Concat(chunks[..k - 1]), chunks[k - 1]);
      var stored := Store(mid, chunks[k - 1]);
      ProperPrefix(chunks, k);
      CompleteExactlyAtEnd(stored.buf, m, stored.recvd);
      assert seq(k, _ => NoMsg) == seq(k - 1, _ => NoMsg) + [NoMsg];
    }
  }

  /** Leaving out non-empty chunks leaves out bytes. */
  lemma ProperPrefix(chunks: seq<seq<byte>>, k: nat)
    requires 0 < k < |chunks| && forall c :: c in chunks ==> c != []
    ensures 0 < |Concat(chunks[..k])| < |Concat(chunks)|
  {
    assert chunks == chunks[..k] + chunks[k..];
    ConcatSplit(chunks[..k], chunks[k..]);
    ConcatFront(chunks[k..]);
    ConcatFront(chunks[..k]);
    assert chunks[..k][0] in chunks && chunks[k..][0] in chunks;
  }

  /**
   * Framing does not depend on how the transport cuts a message up: starting with nothing buffered, every read but
   * the last reports no message, the last hands over exactly the message, and the count is back to zero.
   */
  lemma FramingIsIndependentOfReads(rx: Rx, chunks: seq<seq<byte>>)
    requires IsMessage(Concat(chunks)) && |Concat(chunks)| <= |rx.buf| && 4 <= |rx.buf| && rx.recvd == 0
    requires forall c :: c in chunks ==> c != []
    ensures var m := Concat(chunks);
            var (results, end) := AcceptAll(rx, chunks);
            && results == seq(|chunks| - 1, _ => NoMsg) + [Complete(|m|)]
            && |end.buf| == |rx.buf| && end.buf[..|m|] == m && end.recvd == 0
  {
    var m, n := Concat(chunks), |chunks|;
    assert n > 0;
    PartialReads(rx, chunks, n - 1);
    var (results, mid) := AcceptAll(rx, chunks[..n - 1]);
    StoreHolds(mid, |rx.buf|, Concat(chunks[..n - 1]), chunks[n - 1]);
    var stored := Store(mid, chunks[n - 1]);
    CompleteExactlyAtEnd(stored.buf, m, stored.recvd);
  }
}
