/** SMS PDUs as hexadecimal text (3GPP TS 23.040): SMS-SUBMIT out, SMS-DELIVER in. */
module SmsCodec {
  import opened Bytes
  import opened SmsSegmentation

  const ADDR_SZ: nat := 21
  const MAX_DATA_SZ: nat := 140
  const MAX_OUT_PDU_SZ: nat := 314
  const UDHL_VAL: byte := 5
  const SCTS_LEN: nat := 7

  // ----- Hexadecimal octets

  function HexDigit(n: nat): char
    requires n < 16
  {
    if n < 10 then ('0' as int + n) as char else ('A' as int + n - 10) as char
  }

  function DigitValue(c: char): int {
    if '0' <= c <= '9' then c as int - '0' as int
    else if 'A' <= c <= 'F' then 10 + c as int - 'A' as int
    else if 'a' <= c <= 'f' then 10 + c as int - 'a' as int
    else -1
  }

  function Hex(b: byte): (s: string)
    ensures |s| == 2
  {
    [HexDigit(b / 16), HexDigit(b % 16)]
  }

  function HexAll(bytes: seq<byte>): (s: string)
    ensures |s| == 2 * |bytes|
  {
    if bytes == [] then [] else HexAll(bytes[..|bytes| - 1]) + Hex(bytes[|bytes| - 1])
  }

  /** Character at a read position; the text is followed by its terminator. */
  function At(pdu: string, pos: nat): char {
    if pos < |pdu| then pdu[pos] else '\0'
  }

  /** The octet written at a position, if two hexadecimal digits are there. */
  function HexAt(pdu: string, pos: nat): Option<byte> {
    var hi, lo := DigitValue(At(pdu, pos)), DigitValue(At(pdu, pos + 1));
    if hi < 0 || lo < 0 then None else Some(16 * hi + lo)
  }

  /** `n` octets in a row. */
  function Octets(pdu: string, pos: nat, n: nat): (r: Option<seq<byte>>)
    ensures r.Some? ==> |r.value| == n
  {
    if n == 0 then Some([])
    else
      var front, last := Octets(pdu, pos, n - 1), HexAt(pdu, pos + 2 * (n - 1));
      if front.Some? && last.Some? then Some(front.value + [last.value]) else None
  }

  // ----- Outgoing text

  /** The digits of an international number, without the leading plus. */
  function Digits(addr: string): string {
    if addr != [] && addr[0] == '+' then addr[1..] else addr
  }

  /** Digits swapped in pairs; an odd last digit is paired with F. */
  function Swapped(digits: string): string {
    if digits == [] then []
    else if |digits| == 1 then ['F', digits[0]]
    else [digits[1], digits[0]] + Swapped(digits[2..])
  }

  function AddrText(addr: string): string
    requires |Digits(addr)| < 0x100
  {
    Hex(|Digits(addr)|) + Hex(0x91) + Swapped(Digits(addr))
  }

  function UserHeader(seg: SmsSeg): string {
    Hex(UDHL_VAL) + Hex(0) + Hex(3) + Hex(seg.refNo) + Hex(seg.numSeg) + Hex(seg.seqNo)
  }

  function LengthAndHeader(seg: SmsSeg): string
    requires |seg.payload| < 0x100
  {
    if seg.numSeg > 1 then Hex((6 + |seg.payload|) % 0x100) + UserHeader(seg)
    else if seg.numSeg == 1 then Hex(|seg.payload|)
    else []
  }

  /** Length octet, header when the message has several parts, payload. */
  function UserData(seg: SmsSeg): string
    requires |seg.payload| < 0x100
  {
    LengthAndHeader(seg) + HexAll(seg.payload)
  }

  lemma Regroup(a: string, b: string, c: string)
    ensures (a + b) + c == a + (b + c)
  {}

  lemma UserHeaderAfter(a: string, b: string, seg: SmsSeg)
    ensures a + b + Hex(UDHL_VAL) + Hex(0) + Hex(3) + Hex(seg.refNo) + Hex(seg.numSeg) + Hex(seg.seqNo) ==
            a + (b + UserHeader(seg))
  {
    var h := Hex(UDHL_VAL) + Hex(0);
    Regroup(a + b, Hex(UDHL_VAL), Hex(0));
    Regroup(a + b, h, Hex(3));
    Regroup(a + b, h + Hex(3), Hex(seg.refNo));
    Regroup(a + b, h + Hex(3) + Hex(seg.refNo), Hex(seg.numSeg));
    Regroup(a + b, h + Hex(3) + Hex(seg.refNo) + Hex(seg.numSeg), Hex(seg.seqNo));
    Regroup(a, b, UserHeader(seg));
  }

  /** What the encoder accepts. */
  predicate Sendable(seg: SmsSeg) {
    && seg.numSeg > 0 && seg.payload != []
    && seg.seqNo <= seg.numSeg
    && (seg.numSeg > 1 ==> seg.seqNo > 0)
  }

  /** SMS-SUBMIT without validity period or report, with the header bit for one part of several. */
  function FirstOctet(seg: SmsSeg): byte {
    if seg.numSeg > 1 then 0x41 else 0x01
  }

  function SubmitText(seg: SmsSeg, addr: string, msgRef: byte): string
    requires |seg.payload| < 0x100 && |Digits(addr)| < 0x100
  {
    Hex(FirstOctet(seg)) + Hex(msgRef) + AddrText(addr) + Hex(0) + Hex(4) + UserData(seg)
  }

  lemma {:induction false} SwappedLength(digits: string)
    ensures |Swapped(digits)| == 2 * CeilDiv(|digits|, 2)
  {
    if |digits| > 1 {
      SwappedLength(digits[2..]);
    }
  }

  /** Exact size of an encoded message, and the bound its buffer is dimensioned by. */
  lemma SubmitSize(seg: SmsSeg, addr: string, msgRef: byte)
    requires Sendable(seg) && |seg.payload| < 0x100 && |Digits(addr)| < 0x100
    ensures |SubmitText(seg, addr, msgRef)| ==
            14 + 2 * CeilDiv(|Digits(addr)|, 2) + 2 * (|seg.payload| + if seg.numSeg > 1 then 6 else 0)
    ensures |Digits(addr)| <= 20 && |seg.payload| + (if seg.numSeg > 1 then 6 else 0) <= MAX_DATA_SZ ==>
              |SubmitText(seg, addr, msgRef)| <= MAX_OUT_PDU_SZ
  {
    SwappedLength(Digits(addr));
  }

  // ----- Incoming text

  /** What a decoded SMS-DELIVER carries: originating digits, and one part of a message. */
  datatype Decoded = Decoded(addr: string, seg: SmsSeg)

  const ISDN_NUM_TYPE: byte := 0x91

  predicate IsFiller(c: char) {
    c == 'F' || c == 'f'
  }

  /** Cell `i` of the decoded address; a filler leaves the cell as it was. */
  function AddrCell(pdu: string, pos: nat, i: nat, stale: string): char
    requires i < |stale|
  {
    if i % 2 == 0 then At(pdu, pos + i + 1)
    else if IsFiller(At(pdu, pos + i - 1)) then stale[i]
    else At(pdu, pos + i - 1)
  }

  function AddrCells(pdu: string, pos: nat, n: nat, stale: string): string
    requires n <= |stale|
  {
    seq(n, i requires 0 <= i < n => AddrCell(pdu, pos, i, stale))
  }

  function RoundUp(n: nat): nat {
    n + n % 2
  }

  /** Payload length announced by the user data length octet; with a header it wraps when too small. */
  function PayloadLength(udl: byte, udh: bool): byte {
    if udh then (udl - 6) as int % 0x100 else udl
  }

  /** The user data at a position, `rem` characters from the end of the PDU. */
  function DecodeUd(pdu: string, pos: nat, rem: int, udh: bool): Option<SmsSeg> {
    var udl := HexAt(pdu, pos);
    if udl.None? || rem != (udl.value + 1) * 2 then None
    else if udh then
      var refNo, numSeg, seqNo := HexAt(pdu, pos + 8), HexAt(pdu, pos + 10), HexAt(pdu, pos + 12);
      var payload := Octets(pdu, pos + 14, PayloadLength(udl.value, true));
      if HexAt(pdu, pos + 2) != Some(UDHL_VAL) || HexAt(pdu, pos + 4) != Some(0) || HexAt(pdu, pos + 6) != Some(3) ||
         refNo.None? || numSeg.None? || seqNo.None? || payload.None? then None
      else Some(SmsSeg(payload.value, refNo.value, numSeg.value, seqNo.value))
    else
      var payload := Octets(pdu, pos + 2, udl.value);
      if payload.None? then None else Some(SmsSeg(payload.value, 0, 1, 0))
  }

  lemma {:induction false} NoOctets(pdu: string, pos: nat, m: nat, n: nat)
    requires m <= n && Octets(pdu, pos, m).None?
    ensures Octets(pdu, pos, n).None?
  {
    if m < n {
      NoOctets(pdu, pos, m, n - 1);
    }
  }

  lemma {:induction false} ReadableAll(pdu: string, pos: nat, n: nat)
    requires Octets(pdu, pos, n).Some?
    ensures Readable(pdu, pos, n) == n
  {}

  lemma {:induction false} StopsAt(pdu: string, pos: nat, i: nat, n: nat)
    requires i < n && Octets(pdu, pos, i).Some? && HexAt(pdu, pos + 2 * i).None?
    ensures Readable(pdu, pos, n) == i && Octets(pdu, pos, n).None?
  {
    NoOctets(pdu, pos, i + 1, n);
    if i + 1 < n {
      StopsAt(pdu, pos, i, n - 1);
    } else {
      ReadableAll(pdu, pos, i);
    }
  }

  /** The octet at a position, 0 if there is none. */
  function Octet(pdu: string, pos: nat): byte {
    var o := HexAt(pdu, pos);
    if o.Some? then o.value else 0
  }

  /** Read positions of the first octet, the address, and the user data. */
  function FirstOctetPos(pdu: string): nat {
    2 + 2 * Octet(pdu, 0)
  }

  function AddrPos(pdu: string): nat {
    FirstOctetPos(pdu) + 2
  }

  function PidPos(pdu: string): nat {
    AddrPos(pdu) + 4 + RoundUp(Octet(pdu, AddrPos(pdu)))
  }

  function UdPos(pdu: string): nat {
    PidPos(pdu) + 4 + 2 * SCTS_LEN
  }

  /** Everything in front of the user data is there and is what the decoder supports. */
  predicate HeaderAccepted(pdu: string) {
    && FrontAccepted(pdu) && AddrAccepted(pdu, AddrPos(pdu))
    && HexAt(pdu, PidPos(pdu)) == Some(0) && HexAt(pdu, PidPos(pdu) + 2) == Some(4)
  }

  /** The first octet says whether the user data begins with a header. */
  predicate HasUdh(pdu: string) {
    Octet(pdu, FirstOctetPos(pdu)) == 0x44
  }

  /** The SMS-DELIVER in `pdu`; `stale` is what the address buffer held before. */
  function Decode(len: nat, pdu: string, stale: string): Option<Decoded>
    requires Octet(pdu, AddrPos(pdu)) <= |stale|
  {
    if !HeaderAccepted(pdu) then None
    else
      var seg := DecodeUd(pdu, UdPos(pdu), (len - UdPos(pdu)) % 0x10000, HasUdh(pdu));
      if seg.None? then None
      else Some(Decoded(AddrCells(pdu, AddrPos(pdu) + 4, Octet(pdu, AddrPos(pdu)), stale), seg.value))
  }

  // ----- How far the decoder writes

  /** An announced length of 255 is never reached by an 8-bit index that goes up in twos. */
  const ENDLESS: byte := 0xFF

  function LoopIndex(k: nat): nat {
    2 * k % 0x100
  }

  /** The address loop ends exactly for announced lengths below 255. */
  lemma AddrLoopEnds(n: byte)
    ensures (exists k: nat :: LoopIndex(k) >= n) <==> n < ENDLESS
  {
    assert LoopIndex(127) == 254;
    forall k: nat
      ensures LoopIndex(k) != 255
    {
      assert 2 * k % 0x100 == 2 * (k % 0x80);
    }
  }

  /** Cells of the address buffer that are overwritten, the terminator included. */
  function AddrReach(pdu: string, pos: nat): nat {
    if HexAt(pdu, pos).None? || HexAt(pdu, pos + 2) != Some(ISDN_NUM_TYPE) then 0 else Octet(pdu, pos) as int + 1
  }

  /** How many of `n` octets can be read before one is malformed. */
  function Readable(pdu: string, pos: nat, n: nat): (k: nat)
    ensures k <= n && Octets(pdu, pos, k).Some?
    ensures k == n <==> Octets(pdu, pos, n).Some?
  {
    if n == 0 then 0
    else
      var k := Readable(pdu, pos, n - 1);
      if k == n - 1 && HexAt(pdu, pos + 2 * (n - 1)).Some? then n else k
  }

  predicate UdhAccepted(pdu: string, pos: nat) {
    && HexAt(pdu, pos) == Some(UDHL_VAL) && HexAt(pdu, pos + 2) == Some(0) && HexAt(pdu, pos + 4) == Some(3)
    && HexAt(pdu, pos + 6).Some? && HexAt(pdu, pos + 8).Some? && HexAt(pdu, pos + 10).Some?
  }

  /** Cells of the payload buffer that are overwritten. */
  function UdReach(pdu: string, pos: nat, rem: int, udh: bool): (k: nat)
    ensures k < 0x100 && Octets(pdu, if udh then pos + 14 else pos + 2, k).Some?
  {
    var udl := HexAt(pdu, pos);
    if udl.None? || rem != (udl.value + 1) * 2 || (udh && !UdhAccepted(pdu, pos + 2)) then 0
    else Readable(pdu, if udh then pos + 14 else pos + 2, PayloadLength(udl.value, udh))
  }

  /** The part of the header up to the originating address. */
  predicate FrontAccepted(pdu: string) {
    HexAt(pdu, 0).Some? && HexAt(pdu, FirstOctetPos(pdu)) in {Some(0x04), Some(0x44)}
  }

  predicate AddrAccepted(pdu: string, pos: nat) {
    HexAt(pdu, pos).Some? && HexAt(pdu, pos + 2) == Some(ISDN_NUM_TYPE)
  }

  /** The decoder gets to the address and does not get past it. */
  predicate NeverEnds(pdu: string) {
    FrontAccepted(pdu) && AddrAccepted(pdu, AddrPos(pdu)) && Octet(pdu, AddrPos(pdu)) == ENDLESS
  }

  /** Cells of the two buffers that decoding a PDU overwrites. */
  function Reach(len: nat, pdu: string): (r: (nat, nat))
    ensures r.0 <= 0x100 && r.1 < 0x100
  {
    (if FrontAccepted(pdu) then AddrReach(pdu, AddrPos(pdu)) else 0,
     if HeaderAccepted(pdu) && !NeverEnds(pdu) then
       UdReach(pdu, UdPos(pdu), (len - UdPos(pdu)) % 0x10000, HasUdh(pdu))
     else 0)
  }

  /** What the decoder writes to the address buffer, terminator included; the endless loop never gets to write that. */
  function AddrWritten(pdu: string, pos: nat, stale: string): string
    requires MEMORY_SZ <= |stale|
  {
    var n := Octet(pdu, pos);
    if !AddrAccepted(pdu, pos) then []
    else if n == ENDLESS then AddrCells(pdu, pos + 4, MEMORY_SZ, stale)
    else AddrCells(pdu, pos + 4, n, stale) + ['\0']
  }

  /** The address buffer after decoding. */
  function AddrImage(pdu: string, stale: string): string
    requires MEMORY_SZ <= |stale|
  {
    var k := if FrontAccepted(pdu) then AddrReach(pdu, AddrPos(pdu)) else 0;
    (if FrontAccepted(pdu) then AddrWritten(pdu, AddrPos(pdu), stale) else []) + stale[k..]
  }

  /** What the decoder writes to the payload buffer. */
  function UdWritten(pdu: string, pos: nat, rem: int, udh: bool): seq<byte> {
    Octets(pdu, if udh then pos + 14 else pos + 2, UdReach(pdu, pos, rem, udh)).value
  }

  /** The payload buffer after the user data behind the header. */
  function UserWritten(len: nat, pdu: string, stale: seq<byte>): seq<byte>
    requires MEMORY_SZ <= |stale|
  {
    var pos, rem := UdPos(pdu), (len - UdPos(pdu)) % 0x10000;
    UdWritten(pdu, pos, rem, HasUdh(pdu)) + stale[UdReach(pdu, pos, rem, HasUdh(pdu))..]
  }

  /** The payload buffer after decoding. */
  function UdImage(len: nat, pdu: string, stale: seq<byte>): seq<byte>
    requires MEMORY_SZ <= |stale|
  {
    if HeaderAccepted(pdu) && !NeverEnds(pdu) then UserWritten(len, pdu, stale) else stale
  }

  /** The user data as the decoder sees it behind an accepted header. */
  function UserPart(len: nat, pdu: string): Option<SmsSeg> {
    DecodeUd(pdu, UdPos(pdu), (len - UdPos(pdu)) % 0x10000, HasUdh(pdu))
  }

  /** Header and user data decide between them. */
  lemma DecodeSplits(len: nat, pdu: string, stale: string)
    requires MEMORY_SZ <= |stale|
    ensures Decode(len, pdu, stale) ==
            if !HeaderAccepted(pdu) || UserPart(len, pdu).None? then None
            else
              var digits := AddrCells(pdu, AddrPos(pdu) + 4, Octet(pdu, AddrPos(pdu)), stale);
              Some(Decoded(digits, UserPart(len, pdu).value))
  {}

  /** Decoding stays within the buffers that the decoder's callers give it. */
  predicate StaysInBuffers(len: nat, pdu: string) {
    Reach(len, pdu).0 <= ADDR_SZ + 1 && Reach(len, pdu).1 <= MAX_DATA_SZ
  }

  lemma PutNext(got: seq<byte>, stale: seq<byte>, val: byte)
    requires |got| < |stale|
    ensures (got + stale[|got|..])[|got| := val] == got + [val] + stale[|got| + 1..]
  {}

  /** The structure a received SMS is decoded into. */
  class SmsRecord {
    var len: byte
    const buf: array<byte>
    var refNo: byte
    var numSeg: byte
    var seqNo: byte
    const addr: array<char>

    /** The buffers are taken together with the memory behind them, as far as any announced length reaches. */
    ghost predicate Valid()
      reads this
    {
      MEMORY_SZ <= buf.Length && MEMORY_SZ <= addr.Length
    }

    constructor ()
      ensures Valid()
    {
      len, refNo, numSeg, seqNo := 0, 0, 0, 0;
      buf := new byte[MEMORY_SZ](_ => 0);
      addr := new char[MEMORY_SZ](_ => '\0');
    }

    /** The part of a message the record holds. */
    ghost function Segment(): SmsSeg
      requires Valid()
      reads this, buf
    {
      SmsSeg(buf[..len], refNo, numSeg, seqNo)
    }
  }

  const MEMORY_SZ: nat := 0x100

  datatype Verdict = Accepted | Rejected | Endless

  class Codec {
    var msgRefNo: byte
    var udhPresent: bool

    constructor ()
      ensures msgRefNo == 0 && !udhPresent
    {
      msgRefNo, udhPresent := 0, false;
    }

    /** Writes an octet and its terminator. */
    method HexStr(pdu: array<char>, w: nat, data: byte) returns (w': nat)
      requires w + 2 < pdu.Length
      modifies pdu
      ensures w' == w + 2
      ensures pdu[..w'] == old(pdu[..w]) + Hex(data)
    {
      pdu[w] := HexDigit(data / 16);
      pdu[w + 1] := HexDigit(data % 16);
      pdu[w + 2] := '\0';
      w' := w + 2;
    }

    method WritePair(pdu: array<char>, w: nat, a: char, b: char)
      requires w + 2 <= pdu.Length
      modifies pdu
      ensures pdu[..w + 2] == old(pdu[..w]) + [a, b]
    {
      pdu[w] := a;
      pdu[w + 1] := b;
    }

    /** Copies the swapped digits, two at a time. */
    method SwapDigits(digits: string, pdu: array<char>, w: nat) returns (w': nat)
      requires w + |Swapped(digits)| <= pdu.Length
      modifies pdu
      ensures w' == w + |Swapped(digits)|
      ensures pdu[..w'] == old(pdu[..w]) + Swapped(digits)
    {
      var nIdx := 0;
      w' := w;
      ghost var front := pdu[..w];
      ghost var left := digits;
      while nIdx < |digits|
        invariant 0 <= nIdx <= |digits| + 1
        invariant left == if nIdx <= |digits| then digits[nIdx..] else []
        invariant w <= w' && w' + |Swapped(left)| == w + |Swapped(digits)|
        invariant pdu[..w'] + Swapped(left) == front + Swapped(digits)
        decreases |digits| - nIdx
      {
        ghost var before := pdu[..w'];
        ghost var rest := if |left| == 1 then [] else left[2..];
        var second := if nIdx + 1 == |digits| then 'F' else digits[nIdx + 1];
        assert Swapped(left) == [second, digits[nIdx]] + Swapped(rest);
        WritePair(pdu, w', second, digits[nIdx]);
        assert pdu[..w' + 2] == before + [second, digits[nIdx]];
        Regroup(before, [second, digits[nIdx]], Swapped(rest));
        nIdx, w', left := nIdx + 2, w' + 2, rest;
      }
      assert pdu[..w'] + [] == pdu[..w'];
    }

    method EncodeAddr(intlNum: string, pdu: array<char>, w: nat) returns (w': nat)
      requires |intlNum| <= ADDR_SZ
      requires w + 4 + |Swapped(Digits(intlNum))| < pdu.Length
      modifies pdu
      ensures w' == w + |AddrText(intlNum)|
      ensures pdu[..w'] == old(pdu[..w]) + AddrText(intlNum)
    {
      var nIdx, encLen := 0, |intlNum|;
      if |intlNum| > 0 && intlNum[0] == '+' {
        nIdx, encLen := 1, encLen - 1;
      }
      assert intlNum[nIdx..] == Digits(intlNum);
      w' := HexStr(pdu, w, encLen);
      w' := HexStr(pdu, w', 0x91);
      w' := SwapDigits(intlNum[nIdx..], pdu, w');
      Regroup(old(pdu[..w]), Hex(encLen), Hex(0x91));
      Regroup(old(pdu[..w]), Hex(encLen) + Hex(0x91), Swapped(Digits(intlNum)));
    }

    /** Length octet and user data header of one part of several. */
    method EncodeUdh(seg: SmsSeg, pdu: array<char>, w: nat) returns (w': nat)
      requires |seg.payload| < 0x100 && w + 14 < pdu.Length
      modifies pdu
      ensures w' == w + 14
      ensures pdu[..w'] == old(pdu[..w]) + (Hex((6 + |seg.payload|) % 0x100) + UserHeader(seg))
    {
      w' := HexStr(pdu, w, (1 + UDHL_VAL + |seg.payload|) % 0x100);
      w' := HexStr(pdu, w', UDHL_VAL);
      w' := HexStr(pdu, w', 0);
      w' := HexStr(pdu, w', 3);
      w' := HexStr(pdu, w', seg.refNo);
      w' := HexStr(pdu, w', seg.numSeg);
      w' := HexStr(pdu, w', seg.seqNo);
      UserHeaderAfter(old(pdu[..w]), Hex((6 + |seg.payload|) % 0x100), seg);
    }

    method EncodePayload(payload: seq<byte>, pdu: array<char>, w: nat) returns (w': nat)
      requires w + 2 * |payload| < pdu.Length
      modifies pdu
      ensures w' == w + 2 * |payload|
      ensures pdu[..w'] == old(pdu[..w]) + HexAll(payload)
    {
      w' := w;
      for i := 0 to |payload|
        invariant w' == w + 2 * i
        invariant pdu[..w'] == old(pdu[..w]) + HexAll(payload[..i])
      {
        assert payload[..i + 1][..i] == payload[..i];
        w' := HexStr(pdu, w', payload[i]);
      }
      assert payload[..|payload|] == payload;
    }

    method EncodeUd(seg: SmsSeg, pdu: array<char>, w: nat) returns (w': nat)
      requires |seg.payload| < 0x100
      requires w + |UserData(seg)| < pdu.Length
      modifies pdu
      ensures w' == w + |UserData(seg)|
      ensures pdu[..w'] == old(pdu[..w]) + UserData(seg)
    {
      w' := w;
      if seg.numSeg > 1 {
        w' := EncodeUdh(seg, pdu, w');
      } else if seg.numSeg == 1 {
        w' := HexStr(pdu, w', |seg.payload|);
      }
      ghost var head := LengthAndHeader(seg);
      assert pdu[..w'] == old(pdu[..w]) + head;
      w' := EncodePayload(seg.payload, pdu, w');
      Regroup(old(pdu[..w]), head, HexAll(seg.payload));
    }

    /** Encodes one segment; 0 when it is not a sendable one. */
    method Encode(seg: SmsSeg, addr: string, pdu: array<char>) returns (n: nat)
      requires |seg.payload| < 0x100 && |addr| <= ADDR_SZ
      requires |SubmitText(seg, addr, msgRefNo)| < pdu.Length
      modifies this`msgRefNo, pdu
      ensures n > 0 <==> 0 < seg.numSeg && 0 < |seg.payload| && seg.seqNo <= seg.numSeg &&
                         !(seg.numSeg > 1 && seg.seqNo == 0)
      ensures n > 0 ==> n <= pdu.Length && pdu[..n] == SubmitText(seg, addr, old(msgRefNo))
      ensures msgRefNo == if n == 0 then old(msgRefNo) else if old(msgRefNo) == 255 then 0 else old(msgRefNo) + 1
      ensures n > 0 && Encodable(seg) ==>
                IsSubmit(pdu[..n], FirstOctet(seg), seg, Digits(addr), old(msgRefNo))
    {
      if Encodable(seg) {
        SubmitIsStandard(seg, addr, msgRefNo);
      }
      n := EncodeFields(seg, addr, pdu);
    }

    /** The fields in their order, unless the segment cannot be sent. */
    method EncodeFields(seg: SmsSeg, addr: string, pdu: array<char>) returns (n: nat)
      requires |seg.payload| < 0x100 && |addr| <= ADDR_SZ
      requires |SubmitText(seg, addr, msgRefNo)| < pdu.Length
      modifies this`msgRefNo, pdu
      ensures n > 0 <==> Sendable(seg)
      ensures n > 0 ==> n <= pdu.Length && pdu[..n] == SubmitText(seg, addr, old(msgRefNo))
      ensures msgRefNo == if n > 0 then NextRef(old(msgRefNo)) else old(msgRefNo)
    {
      if seg.numSeg == 0 || seg.payload == [] {
        return 0;
      }
      if seg.seqNo > seg.numSeg || (seg.numSeg > 1 && seg.seqNo == 0) {
        return 0;
      }
      n := HexStr(pdu, 0, FirstOctet(seg));
      assert pdu[..n] == Hex(FirstOctet(seg));
      n := HexStr(pdu, n, msgRefNo);
      msgRefNo := NextRef(msgRefNo);
      n := EncodeAddr(addr, pdu, n);
      n := HexStr(pdu, n, 0);
      n := HexStr(pdu, n, 4);
      n := EncodeUd(seg, pdu, n);
    }

    /** Reads one octet. */
    method HexNum(pdu: string, pos: nat) returns (ok: bool, num: byte, pos': nat)
      ensures ok <==> HexAt(pdu, pos).Some?
      ensures ok ==> num == HexAt(pdu, pos).value && pos' == pos + 2
      ensures ok ==> num == Octet(pdu, pos)
    {
      var v := 0;
      num, pos' := 0, pos;
      for i := 0 to 2
        invariant i == 0 ==> v == 0
        invariant i == 1 ==> v == DigitValue(At(pdu, pos)) >= 0
        invariant i == 2 ==> HexAt(pdu, pos) == Some(v)
      {
        var digit := At(pdu, pos + i);
        v := v * 16;
        if '0' <= digit <= '9' {
          v := v + (digit as int - '0' as int);
        } else if 'A' <= digit <= 'F' {
          v := v + (10 + digit as int - 'A' as int);
        } else if 'a' <= digit <= 'f' {
          v := v + (10 + digit as int - 'a' as int);
        } else {
          return false, 0, pos;
        }
      }
      return true, v, pos + 2;
    }

    /** Decodes the address; `n` is the announced number of digits. */
    method DecodeAddr(pdu: string, pos: nat, recv: SmsRecord) returns (v: Verdict, n: nat, pos': nat)
      requires recv.Valid()
      modifies recv.addr
      ensures v == if !AddrAccepted(pdu, pos) then Rejected
                   else if Octet(pdu, pos) == ENDLESS then Endless
                   else Accepted
      ensures v == Accepted ==> n == Octet(pdu, pos) && pos' == pos + 4 + RoundUp(n)
      ensures v == Accepted ==> recv.addr[..n] == AddrCells(pdu, pos + 4, n, old(recv.addr[..])) && recv.addr[n] == '\0'
      ensures recv.addr[..] == AddrWritten(pdu, pos, old(recv.addr[..])) + old(recv.addr[AddrReach(pdu, pos)..])
    {
      ghost var stale := recv.addr[..];
      v := Rejected;
      var ok;
      ok, n, pos' := HexNum(pdu, pos);
      if !ok {
        return;
      }
      var val;
      ok, val, pos' := HexNum(pdu, pos');
      if !ok || val != ISDN_NUM_TYPE {
        return;
      }
      v := CopyDigits(pdu, pos', n, recv);
      assert recv.addr[..] == recv.addr[..n as int + 1] + recv.addr[n as int + 1..];
      if v == Accepted {
        assert recv.addr[..n as int + 1] == recv.addr[..n] + ['\0'];
        pos' := pos' + RoundUp(n);
      }
    }

    /** The digits, two at a time and swapped, then the terminator; an 8-bit index starts over at 256. */
    method CopyDigits(pdu: string, pos: nat, n: byte, recv: SmsRecord) returns (v: Verdict)
      requires recv.Valid()
      modifies recv.addr
      ensures v == if n == ENDLESS then Endless else Accepted
      ensures v == Accepted ==> recv.addr[..n] == AddrCells(pdu, pos, n, old(recv.addr[..])) && recv.addr[n] == '\0'
      ensures v == Endless ==> recv.addr[..MEMORY_SZ] == AddrCells(pdu, pos, MEMORY_SZ, old(recv.addr[..]))
      ensures recv.addr[n as int + 1..] == old(recv.addr[n as int + 1..])
    {
      ghost var stale := recv.addr[..];
      var i := 0;
      while i < n
        invariant 0 <= i <= n + 1 && i % 2 == 0 && i != 0x100
        invariant forall j :: 0 <= j < i ==> recv.addr[j] == AddrCell(pdu, pos, j, stale)
        invariant forall j :: i <= j < recv.addr.Length ==> recv.addr[j] == stale[j]
      {
        recv.addr[i] := At(pdu, pos + i + 1);
        if !IsFiller(At(pdu, pos + i)) {
          recv.addr[i + 1] := At(pdu, pos + i);
        }
        i := i + 2;
        if i == 0x100 {
          return Endless;
        }
      }
      recv.addr[n] := '\0';
      v := Accepted;
    }

    /** Reads `n` octets into the payload buffer, as far as they are well-formed. */
    method DecodePayload(pdu: string, pos: nat, n: byte, recv: SmsRecord) returns (ok: bool)
      requires recv.Valid()
      modifies recv.buf
      ensures ok <==> Octets(pdu, pos, n).Some?
      ensures var k := Readable(pdu, pos, n);
              recv.buf[..] == Octets(pdu, pos, k).value + old(recv.buf[k..])
    {
      ghost var stale := recv.buf[..];
      ghost var got: seq<byte> := [];
      var p := pos;
      for i := 0 to n
        invariant p == pos + 2 * i && |got| == i
        invariant Octets(pdu, pos, i) == Some(got)
        invariant recv.buf[..] == got + stale[i..]
      {
        var val;
        ok, val, p := HexNum(pdu, p);
        if !ok {
          StopsAt(pdu, pos, i, n);
          return;
        }
        recv.buf[i] := val;
        PutNext(got, stale, val);
        got := got + [val];
      }
      ReadableAll(pdu, pos, n);
      ok := true;
    }

    /** Checks the concatenation header and reads its three values. */
    method DecodeUdh(pdu: string, pos: nat) returns (ok: bool, refNo: byte, numSeg: byte, seqNo: byte)
      ensures ok <==> UdhAccepted(pdu, pos)
      ensures ok ==> refNo == HexAt(pdu, pos + 6).value
      ensures ok ==> numSeg == HexAt(pdu, pos + 8).value
      ensures ok ==> seqNo == HexAt(pdu, pos + 10).value
    {
      refNo, numSeg, seqNo := 0, 0, 0;
      var val, p;
      ok, val, p := HexNum(pdu, pos);
      if !ok || val != UDHL_VAL {
        ok := false;
        return;
      }
      ok, val, p := HexNum(pdu, p);
      if !ok || val != 0 {
        ok := false;
        return;
      }
      ok, val, p := HexNum(pdu, p);
      if !ok || val != 3 {
        ok := false;
        return;
      }
      ok, refNo, p := HexNum(pdu, p);
      if !ok {
        return;
      }
      ok, numSeg, p := HexNum(pdu, p);
      if !ok {
        return;
      }
      ok, seqNo, p := HexNum(pdu, p);
    }

    method DecodeUserData(rem: int, pdu: string, pos: nat, recv: SmsRecord) returns (ok: bool)
      requires recv.Valid()
      modifies recv, recv.buf
      ensures recv.Valid()
      ensures ok <==> DecodeUd(pdu, pos, rem, udhPresent).Some?
      ensures ok ==> recv.Segment() == DecodeUd(pdu, pos, rem, udhPresent).value
      ensures var k := UdReach(pdu, pos, rem, udhPresent);
              recv.buf[..] == UdWritten(pdu, pos, rem, udhPresent) + old(recv.buf[k..])
    {
      var len, p;
      ok, len, p := HexNum(pdu, pos);
      if !ok {
        return;
      }
      if rem != (len as int + 1) * 2 {
        return false;
      }
      if udhPresent {
        ok := DecodePart(len, pdu, p, recv);
      } else {
        ok := DecodeWhole(len, pdu, p, recv);
      }
    }

    /** The payload of a message in one part. */
    method DecodeWhole(udl: byte, pdu: string, pos: nat, recv: SmsRecord) returns (ok: bool)
      requires recv.Valid()
      modifies recv, recv.buf
      ensures recv.Valid()
      ensures ok <==> Octets(pdu, pos, udl).Some?
      ensures ok ==> recv.Segment() == SmsSeg(Octets(pdu, pos, udl).value, 0, 1, 0)
      ensures var k := Readable(pdu, pos, udl); recv.buf[..] == Octets(pdu, pos, k).value + old(recv.buf[k..])
    {
      recv.len := udl;
      ok := DecodePayload(pdu, pos, udl, recv);
      recv.refNo, recv.numSeg, recv.seqNo := 0, 1, 0;
    }

    /** Header and payload of one part of several. */
    method DecodePart(udl: byte, pdu: string, pos: nat, recv: SmsRecord) returns (ok: bool)
      requires recv.Valid()
      modifies recv, recv.buf
      ensures recv.Valid()
      ensures ok <==> UdhAccepted(pdu, pos) && Octets(pdu, pos + 12, PayloadLength(udl, true)).Some?
      ensures ok ==>
                recv.Segment() == SmsSeg(Octets(pdu, pos + 12, PayloadLength(udl, true)).value, Octet(pdu, pos + 6),
                                         Octet(pdu, pos + 8), Octet(pdu, pos + 10))
      ensures var k := if UdhAccepted(pdu, pos) then Readable(pdu, pos + 12, PayloadLength(udl, true)) else 0;
              recv.buf[..] == Octets(pdu, pos + 12, k).value + old(recv.buf[k..])
    {
      recv.len := PayloadLength(udl, true);
      ok, recv.refNo, recv.numSeg, recv.seqNo := DecodeUdh(pdu, pos);
      if !ok {
        return;
      }
      ok := DecodePayload(pdu, pos + 12, recv.len, recv);
    }

    /** Skips the service centre address and checks the first octet. */
    method DecodeFront(pdu: string) returns (ok: bool, pos: nat)
      modifies this`udhPresent
      ensures ok <==> FrontAccepted(pdu)
      ensures ok ==> pos == AddrPos(pdu) && udhPresent == HasUdh(pdu)
    {
      udhPresent := false;
      var val;
      ok, val, pos := HexNum(pdu, 0);
      if !ok {
        return;
      }
      ok, val, pos := HexNum(pdu, pos + 2 * val as nat);
      if !ok || (val != 0x04 && val != 0x44) {
        ok := false;
        return;
      }
      udhPresent := val == 0x44;
    }

    method DecodePidDcs(pdu: string, pos: nat) returns (ok: bool, pos': nat)
      ensures ok <==> HexAt(pdu, pos) == Some(0) && HexAt(pdu, pos + 2) == Some(4)
      ensures ok ==> pos' == pos + 4
    {
      var pid, dcs;
      ok, pid, pos' := HexNum(pdu, pos);
      if !ok {
        return;
      }
      ok, dcs, pos' := HexNum(pdu, pos');
      ok := ok && pid == 0 && dcs == 4;
    }

    /** Decodes what stands in front of the user data, and stops there. */
    method DecodeHeader(pdu: string, recv: SmsRecord) returns (v: Verdict, n: nat, pos: nat)
      requires recv.Valid()
      modifies this`udhPresent, recv.addr
      ensures v == if NeverEnds(pdu) then Endless else if HeaderAccepted(pdu) then Accepted else Rejected
      ensures v == Accepted ==> pos == UdPos(pdu) && udhPresent == HasUdh(pdu) && n == Octet(pdu, AddrPos(pdu))
      ensures v == Accepted ==>
                recv.addr[..n] == AddrCells(pdu, AddrPos(pdu) + 4, n, old(recv.addr[..])) && recv.addr[n] == '\0'
      ensures recv.addr[..] == AddrImage(pdu, old(recv.addr[..]))
    {
      n := 0;
      v := Rejected;
      var ok;
      ok, pos := DecodeFront(pdu);
      if !ok {
        return;
      }
      v, n, pos := DecodeAddr(pdu, pos, recv);
      if v != Accepted {
        return;
      }
      ok, pos := DecodePidDcs(pdu, pos);
      pos := pos + SCTS_LEN * 2;
      v := if ok then Accepted else Rejected;
    }

    /**
     * Decodes a PDU of `len` characters into the record. A rejected one may leave the record partly overwritten; what
     * either buffer holds then is stated for every PDU.
     */
    method DecodePdu(len: nat, pdu: string, recv: SmsRecord) returns (v: Verdict, n: nat)
      requires recv.Valid()
      modifies this`udhPresent, recv, recv.buf, recv.addr
      ensures recv.Valid()
      ensures v == if NeverEnds(pdu) then Endless
                   else if Decode(len, pdu, old(recv.addr[..])).Some? then Accepted else Rejected
      ensures v == Accepted ==>
                var d := Decode(len, pdu, old(recv.addr[..])).value;
                recv.Segment() == d.seg && n == |d.addr| && recv.addr[..n] == d.addr && recv.addr[n] == '\0'
      ensures recv.addr[..] == AddrImage(pdu, old(recv.addr[..]))
      ensures recv.buf[..] == UdImage(len, pdu, old(recv.buf[..]))
    {
      DecodeSplits(len, pdu, recv.addr[..]);
      var header, p;
      header, n, p := DecodeHeader(pdu, recv);
      v := FinishPdu(header, len, p, pdu, recv);
    }

    /** Decodes the user data if the header was accepted. */
    method FinishPdu(header: Verdict, len: nat, pos: nat, pdu: string, recv: SmsRecord) returns (v: Verdict)
      requires recv.Valid()
      requires header == if NeverEnds(pdu) then Endless else if HeaderAccepted(pdu) then Accepted else Rejected
      requires header == Accepted ==> pos == UdPos(pdu) && udhPresent == HasUdh(pdu)
      modifies recv, recv.buf
      ensures recv.Valid()
      ensures v == if header == Accepted && UserPart(len, pdu).None? then Rejected else header
      ensures v == Accepted ==> recv.Segment() == UserPart(len, pdu).value
      ensures recv.buf[..] == if header == Accepted then UserWritten(len, pdu, old(recv.buf[..])) else old(recv.buf[..])
    {
      v := header;
      if header == Accepted {
        var ok := DecodeBody(len, pos, pdu, recv);
        v := if ok then Accepted else Rejected;
      }
    }

    /** What follows the header, up to the announced end of the PDU. */
    method DecodeBody(len: nat, pos: nat, pdu: string, recv: SmsRecord) returns (ok: bool)
      requires recv.Valid() && pos == UdPos(pdu) && udhPresent == HasUdh(pdu)
      modifies recv, recv.buf
      ensures recv.Valid()
      ensures ok <==> UserPart(len, pdu).Some?
      ensures ok ==> recv.Segment() == UserPart(len, pdu).value
      ensures recv.buf[..] == UserWritten(len, pdu, old(recv.buf[..]))
    {
      ok := DecodeUserData((len - pos) % 0x10000, pdu, pos, recv);
    }
  }

  // ----- Round trip

  /** `piece` stands in `pdu` at `pos`. */
  ghost predicate Stands(pdu: string, pos: nat, piece: string) {
    pos + |piece| <= |pdu| && pdu[pos..pos + |piece|] == piece
  }

  lemma StandsSplit(pdu: string, pos: nat, a: string, b: string)
    requires Stands(pdu, pos, a + b)
    ensures Stands(pdu, pos, a) && Stands(pdu, pos + |a|, b)
  {
    assert pdu[pos..pos + |a|] == pdu[pos..pos + |a + b|][..|a|];
    assert pdu[pos + |a|..pos + |a + b|] == pdu[pos..pos + |a + b|][|a|..];
  }

  lemma StandsAt(pdu: string, pos: nat, piece: string, i: nat)
    requires Stands(pdu, pos, piece) && i < |piece|
    ensures At(pdu, pos + i) == piece[i]
  {
    assert pdu[pos..pos + |piece|][i] == pdu[pos + i];
  }

  lemma HexReadsBack(pdu: string, pos: nat, b: byte)
    requires Stands(pdu, pos, Hex(b))
    ensures HexAt(pdu, pos) == Some(b) && Octet(pdu, pos) == b
  {
    StandsAt(pdu, pos, Hex(b), 0);
    StandsAt(pdu, pos, Hex(b), 1);
    assert DigitValue(HexDigit(b / 16)) == b / 16 && DigitValue(HexDigit(b % 16)) == b % 16;
  }

  lemma {:induction false} OctetsReadBack(pdu: string, pos: nat, bytes: seq<byte>)
    requires Stands(pdu, pos, HexAll(bytes))
    ensures Octets(pdu, pos, |bytes|) == Some(bytes)
  {
    if bytes != [] {
      var front, last := bytes[..|bytes| - 1], bytes[|bytes| - 1];
      StandsSplit(pdu, pos, HexAll(front), Hex(last));
      OctetsReadBack(pdu, pos, front);
      HexReadsBack(pdu, pos + 2 * |front|, last);
      assert bytes == front + [last];
    }
  }

  lemma {:induction false} SwappedPair(digits: string, m: nat)
    ensures 2 * m < |digits| ==> 2 * m + 1 < |Swapped(digits)| && Swapped(digits)[2 * m + 1] == digits[2 * m]
    ensures 2 * m + 1 < |digits| ==> Swapped(digits)[2 * m] == digits[2 * m + 1]
  {
    if m > 0 && |digits| > 1 {
      SwappedPair(digits[2..], m - 1);
    }
  }

  lemma {:induction false} SwappedRounds(digits: string, n: nat)
    requires |digits| == n
    ensures |Swapped(digits)| == RoundUp(n)
  {
    if n > 1 {
      SwappedRounds(digits[2..], n - 2);
    }
  }

  lemma CellIs(pdu: string, pos: nat, i: nat, m: nat, stale: string, c: char)
    requires i < |stale| && !IsFiller(c) && (i == 2 * m || i == 2 * m + 1)
    requires i == 2 * m ==> At(pdu, pos + 2 * m + 1) == c
    requires i == 2 * m + 1 ==> At(pdu, pos + 2 * m) == c
    ensures AddrCell(pdu, pos, i, stale) == c
  {}

  lemma AddrCellReadsBack(pdu: string, pos: nat, digits: string, stale: string, i: nat, m: nat)
    requires Stands(pdu, pos, Swapped(digits)) && |digits| <= |stale| && i < |digits|
    requires !IsFiller(digits[i]) && (i == 2 * m || i == 2 * m + 1)
    ensures AddrCell(pdu, pos, i, stale) == digits[i]
  {
    SwappedPair(digits, m);
    if i == 2 * m {
      StandsAt(pdu, pos, Swapped(digits), 2 * m + 1);
    } else {
      StandsAt(pdu, pos, Swapped(digits), 2 * m);
    }
    CellIs(pdu, pos, i, m, stale, digits[i]);
  }

  /** Unswapping gives the digits back, whatever the address buffer held. */
  lemma AddrReadsBack(pdu: string, pos: nat, digits: string, stale: string)
    requires Stands(pdu, pos, Swapped(digits)) && |digits| <= |stale|
    requires forall c :: c in digits ==> !IsFiller(c)
    ensures AddrCells(pdu, pos, |digits|, stale) == digits
  {
    var cells := AddrCells(pdu, pos, |digits|, stale);
    forall i | 0 <= i < |digits|
      ensures cells[i] == digits[i]
    {
      assert digits[i] in digits;
      AddrCellReadsBack(pdu, pos, digits, stale, i, i / 2);
    }
  }

  /** What of a part survives the trip: a message in one part loses its reference and number. */
  function Normalised(seg: SmsSeg): SmsSeg {
    if seg.numSeg > 1 then seg else SmsSeg(seg.payload, 0, 1, 0)
  }

  /** Room for the payload, and for the header when there is one, in the length octet. */
  predicate Encodable(seg: SmsSeg) {
    && seg.numSeg > 0
    && |seg.payload| + (if seg.numSeg > 1 then 6 else 0) < 0x100
  }

  lemma OnePartReadsBack(pdu: string, pos: nat, payload: seq<byte>, n: byte)
    requires |payload| == n && Stands(pdu, pos, Hex(n) + HexAll(payload))
    ensures DecodeUd(pdu, pos, 2 + 2 * n as int, false) == Some(SmsSeg(payload, 0, 1, 0))
    ensures Octet(pdu, pos) == n
  {
    StandsSplit(pdu, pos, Hex(n), HexAll(payload));
    HexReadsBack(pdu, pos, n);
    OctetsReadBack(pdu, pos + 2, payload);
  }

  /** The lengths of a part fit their octets. */
  lemma PartLengths(n: byte, m: nat)
    requires n == m + 6
    ensures PayloadLength(n, true) == m && (6 + m) % 0x100 == n
  {}

  lemma PartAccepted(pdu: string, pos: nat, seg: SmsSeg, n: byte)
    requires HexAt(pdu, pos) == Some(n) && PayloadLength(n, true) == |seg.payload|
    requires HexAt(pdu, pos + 2) == Some(UDHL_VAL) && HexAt(pdu, pos + 4) == Some(0) && HexAt(pdu, pos + 6) == Some(3)
    requires HexAt(pdu, pos + 8) == Some(seg.refNo) && HexAt(pdu, pos + 10) == Some(seg.numSeg)
    requires HexAt(pdu, pos + 12) == Some(seg.seqNo) && Octets(pdu, pos + 14, |seg.payload|) == Some(seg.payload)
    ensures DecodeUd(pdu, pos, 2 + 2 * n as int, true) == Some(seg)
  {}

  lemma PartReadsBack(pdu: string, pos: nat, seg: SmsSeg, n: byte)
    requires seg.numSeg > 1 && |seg.payload| + 6 == n
    requires Stands(pdu, pos, Hex(n) + UserHeader(seg) + HexAll(seg.payload))
    ensures DecodeUd(pdu, pos, 2 + 2 * n as int, true) == Some(seg)
    ensures Octet(pdu, pos) == n
  {
    StandsSplit(pdu, pos, Hex(n) + UserHeader(seg), HexAll(seg.payload));
    StandsSplit(pdu, pos, Hex(n), UserHeader(seg));
    HexReadsBack(pdu, pos, n);
    UserHeaderReadsBack(pdu, pos + 2, seg);
    OctetsReadBack(pdu, pos + 14, seg.payload);
    PartLengths(n, |seg.payload|);
    PartAccepted(pdu, pos, seg, n);
  }

  /** The user data of a part at the end of a PDU is read back. */
  lemma UserDataReadsBack(pdu: string, pos: nat, seg: SmsSeg)
    requires Encodable(seg) && Stands(pdu, pos, UserData(seg))
    ensures |UserData(seg)| <= 0x200
    ensures DecodeUd(pdu, pos, |UserData(seg)|, seg.numSeg > 1) == Some(Normalised(seg))
    ensures PayloadLength(Octet(pdu, pos), seg.numSeg > 1) == |seg.payload|
  {
    if seg.numSeg > 1 {
      var n: byte := 6 + |seg.payload|;
      PartLengths(n, |seg.payload|);
      assert UserData(seg) == Hex(n) + UserHeader(seg) + HexAll(seg.payload);
      PartReadsBack(pdu, pos, seg, n);
    } else {
      OnePartReadsBack(pdu, pos, seg.payload, |seg.payload|);
    }
  }

  lemma UserHeaderReadsBack(pdu: string, pos: nat, seg: SmsSeg)
    requires Stands(pdu, pos, UserHeader(seg))
    ensures HexAt(pdu, pos) == Some(UDHL_VAL) && HexAt(pdu, pos + 2) == Some(0) && HexAt(pdu, pos + 4) == Some(3)
    ensures HexAt(pdu, pos + 6) == Some(seg.refNo)
    ensures HexAt(pdu, pos + 8) == Some(seg.numSeg)
    ensures HexAt(pdu, pos + 10) == Some(seg.seqNo)
  {
    var h1 := Hex(UDHL_VAL) + Hex(0);
    var h2 := h1 + Hex(3);
    var h3 := h2 + Hex(seg.refNo);
    var h4 := h3 + Hex(seg.numSeg);
    StandsSplit(pdu, pos, h4, Hex(seg.seqNo));
    StandsSplit(pdu, pos, h3, Hex(seg.numSeg));
    StandsSplit(pdu, pos, h2, Hex(seg.refNo));
    StandsSplit(pdu, pos, h1, Hex(3));
    StandsSplit(pdu, pos, Hex(UDHL_VAL), Hex(0));
    HexReadsBack(pdu, pos, UDHL_VAL);
    HexReadsBack(pdu, pos + 2, 0);
    HexReadsBack(pdu, pos + 4, 3);
    HexReadsBack(pdu, pos + 6, seg.refNo);
    HexReadsBack(pdu, pos + 8, seg.numSeg);
    HexReadsBack(pdu, pos + 10, seg.seqNo);
  }

  /**
   * An SMS-DELIVER as the network hands it over (sections 9.1.2.5 and 9.2.2.1): service centre address, first octet,
   * originating address, protocol and coding octets, time stamp, user data.
   */
  function DeliverText(smsc: string, scts: string, addr: string, seg: SmsSeg): string
    requires |smsc| / 2 < 0x100 && |Digits(addr)| < 0x100 && |seg.payload| < 0x100
  {
    Hex(|smsc| / 2) + smsc + Hex(DeliverOctet(seg)) + AddrText(addr) + Hex(0) + Hex(4) + scts +
    UserData(seg)
  }

  ghost predicate Deliverable(smsc: string, scts: string, addr: string, seg: SmsSeg) {
    && |smsc| % 2 == 0 && |smsc| < 0x200 && |scts| == 2 * SCTS_LEN
    && |Digits(addr)| < ENDLESS && (forall c :: c in Digits(addr) ==> !IsFiller(c))
    && Encodable(seg)
  }

  function DeliverOctet(seg: SmsSeg): byte {
    if seg.numSeg > 1 then 0x44 else 0x04
  }

  /** The pieces of an SMS-DELIVER behind a service centre address of `k` octets, for an address of `d` digits. */
  ghost predicate LaidOut(pdu: string, k: byte, d: byte, digits: string, seg: SmsSeg)
    requires |seg.payload| < 0x100
  {
    var a := 4 + 2 * k as int;
    var p := a + 4 + |Swapped(digits)|;
    && |digits| == d
    && Stands(pdu, 0, Hex(k))
    && Stands(pdu, a - 2, Hex(DeliverOctet(seg)))
    && Stands(pdu, a, Hex(d) + Hex(ISDN_NUM_TYPE) + Swapped(digits))
    && Stands(pdu, p, Hex(0))
    && Stands(pdu, p + 2, Hex(4))
    && Stands(pdu, p + 4 + 2 * SCTS_LEN, UserData(seg))
    && |pdu| == p + 4 + 2 * SCTS_LEN + |UserData(seg)|
  }

  lemma StandInOrder(
      pdu: string, a: string, b: string, c: string, d: string, e: string, f: string, g: string, h: string)
    requires pdu == a + b + c + d + e + f + g + h
    ensures Stands(pdu, 0, a) && Stands(pdu, |a|, b) && Stands(pdu, |a| + |b|, c) && Stands(pdu, |a| + |b| + |c|, d)
    ensures Stands(pdu, |a| + |b| + |c| + |d|, e) && Stands(pdu, |a| + |b| + |c| + |d| + |e|, f)
    ensures Stands(pdu, |a| + |b| + |c| + |d| + |e| + |f| + |g|, h)
    ensures |pdu| == |a| + |b| + |c| + |d| + |e| + |f| + |g| + |h|
  {
    StandsSplit(pdu, 0, a + b + c + d + e + f + g, h);
    StandsSplit(pdu, 0, a + b + c + d + e + f, g);
    StandsSplit(pdu, 0, a + b + c + d + e, f);
    StandsSplit(pdu, 0, a + b + c + d, e);
    StandsSplit(pdu, 0, a + b + c, d);
    StandsSplit(pdu, 0, a + b, c);
    StandsSplit(pdu, 0, a, b);
  }

  lemma DeliverIsLaidOut(smsc: string, scts: string, addr: string, seg: SmsSeg, k: byte)
    requires Deliverable(smsc, scts, addr, seg) && k == |smsc| / 2
    ensures LaidOut(DeliverText(smsc, scts, addr, seg), k, |Digits(addr)|, Digits(addr), seg)
  {
    var pdu, d := DeliverText(smsc, scts, addr, seg), Digits(addr);
    StandInOrder(pdu, Hex(k), smsc, Hex(DeliverOctet(seg)), AddrText(addr), Hex(0), Hex(4), scts, UserData(seg));
    assert 2 + |smsc| == (4 + 2 * k as int) - 2;
    assert AddrText(addr) == Hex(|d|) + Hex(ISDN_NUM_TYPE) + Swapped(d);
    assert |AddrText(addr)| == 4 + |Swapped(d)|;
  }

  /** An address field is read back wherever it stands. */
  lemma AddrFieldReadsBack(pdu: string, a: nat, d: byte, digits: string, stale: string)
    requires d == |digits| < |stale| && forall c :: c in digits ==> !IsFiller(c)
    requires Stands(pdu, a, Hex(d) + Hex(ISDN_NUM_TYPE) + Swapped(digits))
    ensures HexAt(pdu, a) == Some(d) && Octet(pdu, a) == d && HexAt(pdu, a + 2) == Some(ISDN_NUM_TYPE)
    ensures |Swapped(digits)| == RoundUp(d) && AddrCells(pdu, a + 4, d, stale) == digits
  {
    StandsSplit(pdu, a, Hex(d) + Hex(ISDN_NUM_TYPE), Swapped(digits));
    StandsSplit(pdu, a, Hex(d), Hex(ISDN_NUM_TYPE));
    HexReadsBack(pdu, a, d);
    HexReadsBack(pdu, a + 2, ISDN_NUM_TYPE);
    SwappedRounds(digits, d);
    AddrReadsBack(pdu, a + 4, digits, stale);
  }

  /** The decoder's read positions land on those pieces. */
  lemma LaidOutAddr(pdu: string, k: byte, d: byte, digits: string, seg: SmsSeg, stale: string)
    requires d < |stale| && |seg.payload| < 0x100
    requires forall c :: c in digits ==> !IsFiller(c)
    requires LaidOut(pdu, k, d, digits, seg)
    ensures HexAt(pdu, 0) == Some(k) && HexAt(pdu, FirstOctetPos(pdu)) == Some(DeliverOctet(seg))
    ensures AddrPos(pdu) == 4 + 2 * k as int
    ensures HexAt(pdu, AddrPos(pdu)) == Some(d) && HexAt(pdu, AddrPos(pdu) + 2) == Some(ISDN_NUM_TYPE)
    ensures Octet(pdu, AddrPos(pdu)) == d && PidPos(pdu) == 8 + 2 * k as int + |Swapped(digits)|
    ensures AddrCells(pdu, AddrPos(pdu) + 4, d, stale) == digits
  {
    AddrLands(pdu, k, DeliverOctet(seg), d, digits, stale);
  }

  lemma AddrLands(pdu: string, k: byte, first: byte, d: byte, digits: string, stale: string)
    requires d == |digits| < |stale| && forall c :: c in digits ==> !IsFiller(c)
    requires Stands(pdu, 0, Hex(k)) && Stands(pdu, 2 + 2 * k as int, Hex(first))
    requires Stands(pdu, 4 + 2 * k as int, Hex(d) + Hex(ISDN_NUM_TYPE) + Swapped(digits))
    ensures HexAt(pdu, 0) == Some(k) && HexAt(pdu, FirstOctetPos(pdu)) == Some(first)
    ensures AddrPos(pdu) == 4 + 2 * k as int
    ensures HexAt(pdu, AddrPos(pdu)) == Some(d) && HexAt(pdu, AddrPos(pdu) + 2) == Some(ISDN_NUM_TYPE)
    ensures Octet(pdu, AddrPos(pdu)) == d && PidPos(pdu) == 8 + 2 * k as int + |Swapped(digits)|
    ensures AddrCells(pdu, AddrPos(pdu) + 4, d, stale) == digits
  {
    HexReadsBack(pdu, 0, k);
    HexReadsBack(pdu, 2 + 2 * k as int, first);
    AddrFieldReadsBack(pdu, 4 + 2 * k as int, d, digits, stale);
    assert FirstOctetPos(pdu) == 2 + 2 * k as int && AddrPos(pdu) == 4 + 2 * k as int;
  }

  lemma Fits16Bits(n: nat, m: int)
    requires m == n < 0x10000
    ensures m % 0x10000 == n
  {}

  lemma AcceptsHeader(pdu: string, first: byte)
    requires HexAt(pdu, 0).Some? && HexAt(pdu, FirstOctetPos(pdu)) == Some(first) && (first == 0x04 || first == 0x44)
    requires HexAt(pdu, AddrPos(pdu)).Some? && HexAt(pdu, AddrPos(pdu) + 2) == Some(ISDN_NUM_TYPE)
    requires HexAt(pdu, PidPos(pdu)) == Some(0) && HexAt(pdu, PidPos(pdu) + 2) == Some(4)
    ensures HeaderAccepted(pdu) && HasUdh(pdu) == (first == 0x44)
  {}

  lemma LaidOutUserData(pdu: string, k: byte, d: byte, digits: string, seg: SmsSeg, stale: string)
    requires d < |stale| && |seg.payload| < 0x100
    requires forall c :: c in digits ==> !IsFiller(c)
    requires LaidOut(pdu, k, d, digits, seg)
    ensures Stands(pdu, UdPos(pdu), UserData(seg)) && |pdu| == UdPos(pdu) + |UserData(seg)|
  {
    LaidOutAddr(pdu, k, d, digits, seg, stale);
  }

  lemma LaidOutHeader(pdu: string, k: byte, d: byte, digits: string, seg: SmsSeg, stale: string)
    requires d < |stale| && Encodable(seg)
    requires forall c :: c in digits ==> !IsFiller(c)
    requires LaidOut(pdu, k, d, digits, seg)
    ensures HeaderAccepted(pdu) && HasUdh(pdu) == (seg.numSeg > 1) && Octet(pdu, AddrPos(pdu)) == d
    ensures AddrCells(pdu, AddrPos(pdu) + 4, d, stale) == digits
  {
    LaidOutAddr(pdu, k, d, digits, seg, stale);
    HexReadsBack(pdu, PidPos(pdu), 0);
    HexReadsBack(pdu, PidPos(pdu) + 2, 4);
    AcceptsHeader(pdu, DeliverOctet(seg));
  }

  /** Once the header is accepted, the user data decides. */
  lemma DecodeIs(len: nat, pdu: string, stale: string, digits: string, seg: SmsSeg)
    requires HeaderAccepted(pdu) && Octet(pdu, AddrPos(pdu)) <= |stale|
    requires AddrCells(pdu, AddrPos(pdu) + 4, Octet(pdu, AddrPos(pdu)), stale) == digits
    requires DecodeUd(pdu, UdPos(pdu), (len - UdPos(pdu)) % 0x10000, HasUdh(pdu)) == Some(seg)
    ensures Decode(len, pdu, stale) == Some(Decoded(digits, seg))
  {}

  /** What an accepted header and the user data behind it make of the reach. */
  lemma ReachIs(pdu: string, d: byte, m: nat)
    requires HeaderAccepted(pdu) && Octet(pdu, AddrPos(pdu)) == d < ENDLESS
    requires UdReach(pdu, UdPos(pdu), (|pdu| - UdPos(pdu)) % 0x10000, HasUdh(pdu)) == m
    ensures !NeverEnds(pdu) && Reach(|pdu|, pdu) == (d as int + 1, m)
  {}

  /** With an accepted header, user data that reaches to the end of the PDU is decoded and written in full. */
  lemma UserDataDecodes(pdu: string, d: byte, digits: string, seg: SmsSeg, stale: string)
    requires HeaderAccepted(pdu) && HasUdh(pdu) == (seg.numSeg > 1) && Octet(pdu, AddrPos(pdu)) == d < |stale|
    requires AddrCells(pdu, AddrPos(pdu) + 4, d, stale) == digits && Encodable(seg) && d < ENDLESS
    requires Stands(pdu, UdPos(pdu), UserData(seg)) && |pdu| == UdPos(pdu) + |UserData(seg)|
    ensures Decode(|pdu|, pdu, stale) == Some(Decoded(digits, Normalised(seg)))
    ensures !NeverEnds(pdu) && Reach(|pdu|, pdu) == (d as int + 1, |seg.payload|)
  {
    var pos, rem := UdPos(pdu), |UserData(seg)|;
    UserDataReadsBack(pdu, pos, seg);
    Fits16Bits(rem, |pdu| - pos);
    DecodeIs(|pdu|, pdu, stale, digits, Normalised(seg));
    UdReachIs(pdu, pos, rem, HasUdh(pdu));
    ReachIs(pdu, d, |seg.payload|);
  }

  /** Accepted user data is written in full. */
  lemma UdReachIs(pdu: string, pos: nat, rem: int, udh: bool)
    requires DecodeUd(pdu, pos, rem, udh).Some?
    ensures UdReach(pdu, pos, rem, udh) == |DecodeUd(pdu, pos, rem, udh).value.payload|
  {}

  /** A PDU laid out like that decodes to what it was made of, and is written in full. */
  lemma LaidOutDecodes(pdu: string, k: byte, d: byte, digits: string, seg: SmsSeg, stale: string)
    requires d < ENDLESS && MEMORY_SZ <= |stale| && Encodable(seg)
    requires forall c :: c in digits ==> !IsFiller(c)
    requires LaidOut(pdu, k, d, digits, seg)
    ensures !NeverEnds(pdu) && Octet(pdu, AddrPos(pdu)) < MEMORY_SZ
    ensures Decode(|pdu|, pdu, stale) == Some(Decoded(digits, Normalised(seg)))
    ensures Reach(|pdu|, pdu) == (d as int + 1, |seg.payload|)
  {
    LaidOutHeader(pdu, k, d, digits, seg, stale);
    LaidOutUserData(pdu, k, d, digits, seg, stale);
    UserDataDecodes(pdu, d, digits, seg, stale);
  }

  /** Decoding an assembled PDU gives back the payload, the bare digits, and the numbering of a multi-part message. */
  lemma DeliverRoundTrip(smsc: string, scts: string, addr: string, seg: SmsSeg, stale: string)
    requires Deliverable(smsc, scts, addr, seg) && MEMORY_SZ <= |stale|
    ensures var pdu := DeliverText(smsc, scts, addr, seg);
            && !NeverEnds(pdu)
            && Octet(pdu, AddrPos(pdu)) < MEMORY_SZ
            && Decode(|pdu|, pdu, stale) == Some(Decoded(Digits(addr), Normalised(seg)))
  {
    var k: byte := |smsc| / 2;
    DeliverIsLaidOut(smsc, scts, addr, seg, k);
    LaidOutDecodes(DeliverText(smsc, scts, addr, seg), k, |Digits(addr)|, Digits(addr), seg, stale);
  }

  /** At most `b` octets are read exactly if no more were announced, or a malformed one comes first. */
  lemma {:induction false} ReadableAtMost(pdu: string, pos: nat, n: nat, b: nat)
    ensures Readable(pdu, pos, n) <= b <==> n <= b || Octets(pdu, pos, b + 1).None?
    decreases n
  {
    if n > b + 1 {
      ReadableAtMost(pdu, pos, n - 1, b);
      if Octets(pdu, pos, b + 1).None? {
        NoOctets(pdu, pos, b + 1, n - 1);
      }
    }
  }

  /**
   * Exactly which PDUs, accepted or not, the decoder decodes within its buffers: no more than 21 digits are announced,
   * unless the decoder does not get that far, and no more than 140 payload bytes, unless it does not get there or meets
   * a malformed octet in time.
   */
  lemma StaysInBuffersExactly(len: nat, pdu: string)
    ensures StaysInBuffers(len, pdu) <==>
            var pos, udh := UdPos(pdu), HasUdh(pdu);
            var udl := Octet(pdu, pos);
            && (FrontAccepted(pdu) && AddrAccepted(pdu, AddrPos(pdu)) ==> Octet(pdu, AddrPos(pdu)) <= ADDR_SZ)
            && (HeaderAccepted(pdu) && !NeverEnds(pdu) && HexAt(pdu, pos).Some? &&
                (len - pos) % 0x10000 == (udl + 1) * 2 && (udh ==> UdhAccepted(pdu, pos + 2)) ==>
                  || PayloadLength(udl, udh) <= MAX_DATA_SZ
                  || Octets(pdu, if udh then pos + 14 else pos + 2, MAX_DATA_SZ + 1).None?)
  {
    var pos, udh := UdPos(pdu), HasUdh(pdu);
    ReadableAtMost(pdu, if udh then pos + 14 else pos + 2, PayloadLength(Octet(pdu, pos), udh), MAX_DATA_SZ);
  }

  /** What an accepted PDU overwrites is the address with its terminator, and the payload. */
  lemma AcceptedReach(len: nat, pdu: string, stale: string)
    requires Octet(pdu, AddrPos(pdu)) <= |stale| && !NeverEnds(pdu) && Decode(len, pdu, stale).Some?
    ensures var d := Decode(len, pdu, stale).value; Reach(len, pdu) == (|d.addr| + 1, |d.seg.payload|)
  {
    UdReachIs(pdu, UdPos(pdu), (len - UdPos(pdu)) % 0x10000, HasUdh(pdu));
  }

  /** Among the PDUs the decoder accepts: no more than 21 digits, and no more than 140 payload bytes. */
  lemma AcceptedStaysInBuffersExactly(len: nat, pdu: string, stale: string)
    requires Octet(pdu, AddrPos(pdu)) <= |stale| && !NeverEnds(pdu) && Decode(len, pdu, stale).Some?
    ensures var d := Decode(len, pdu, stale).value;
            StaysInBuffers(len, pdu) <==> |d.addr| <= ADDR_SZ && |d.seg.payload| <= MAX_DATA_SZ
  {
    AcceptedReach(len, pdu, stale);
  }

  // ----- An SMS-SUBMIT, field by field (sections 9.1.2.5, 9.2.2.2, 9.2.3.24 and 9.2.3.24.1)

  const UPPER: string := "0123456789ABCDEF"
  const LOWER: string := "0123456789abcdef"

  /** A plus in front of a number is left out, and nothing else is. */
  lemma PlusIsLeftOut(addr: string)
    ensures Digits(['+'] + addr) == addr
    ensures addr == [] || addr[0] != '+' ==> Digits(addr) == addr
  {}

  /** Digits come in swapped pairs, and where F stands for a missing one the cell keeps what it held. */
  lemma CellsAreSwapped(pdu: string, pos: nat, i: nat, stale: string)
    requires i < |stale| && pos + i + 1 < |pdu| && 0 < pos
    ensures AddrCell(pdu, pos, i, stale) ==
            if i % 2 == 0 then pdu[pos + i + 1]
            else if pdu[pos + i - 1] in {'F', 'f'} then stale[i]
            else pdu[pos + i - 1]
  {}

  /** The decoder never ends exactly if it gets to the address and its index never reaches the announced length. */
  lemma NeverEndsExactly(pdu: string)
    ensures NeverEnds(pdu) <==>
            && FrontAccepted(pdu) && AddrAccepted(pdu, AddrPos(pdu))
            && !exists k: nat :: LoopIndex(k) >= Octet(pdu, AddrPos(pdu))
  {
    AddrLoopEnds(Octet(pdu, AddrPos(pdu)));
  }

  /** Octets are written with the usual digits, and read back from those in either case and from no other character. */
  lemma HexIsUsual(b: byte, c: char)
    ensures Hex(b) == [UPPER[b / 16], UPPER[b % 16]]
    ensures DigitValue(UPPER[b % 16]) == DigitValue(LOWER[b % 16]) == b % 16
    ensures DigitValue(c) >= 0 <==> '0' <= c <= '9' || 'A' <= c <= 'F' || 'a' <= c <= 'f'
  {}

  /** Digits trade places in pairs; an odd last one is preceded by F. */
  lemma {:induction false} SwappedAt(digits: string, i: nat)
    requires i < |digits|
    ensures |Swapped(digits)| == RoundUp(|digits|)
    ensures Swapped(digits)[if i % 2 == 0 then i + 1 else i - 1] == digits[i]
    ensures |digits| % 2 == 1 ==> Swapped(digits)[|digits| - 1] == 'F'
    decreases |digits|
  {
    if |digits| > 2 {
      SwappedAt(digits[2..], if i < 2 then 0 else i - 2);
    }
  }

  /** User data in octets: its length and, for a part of several, the concatenation header; then the payload. */
  function UserOctets(seg: SmsSeg): seq<byte>
    requires Encodable(seg)
  {
    (if seg.numSeg > 1 then [|seg.payload| + 6, 5, 0, 3, seg.refNo, seg.numSeg, seg.seqNo] else [|seg.payload|])
    + seg.payload
  }

  lemma {:induction false} HexAllJoins(a: seq<byte>, b: seq<byte>)
    ensures HexAll(a + b) == HexAll(a) + HexAll(b)
    decreases |b|
  {
    if b == [] {
      assert a + b == a;
    } else {
      assert (a + b)[..|a + b| - 1] == a + b[..|b| - 1];
      HexAllJoins(a, b[..|b| - 1]);
    }
  }

  lemma HexAllNext(a: seq<byte>, b: byte)
    ensures HexAll(a + [b]) == HexAll(a) + Hex(b)
  {
    assert (a + [b])[..|a|] == a;
  }

  lemma HexAllSeven(a: byte, b: byte, c: byte, d: byte, e: byte, f: byte, g: byte)
    ensures HexAll([a, b, c, d, e, f, g]) == Hex(a) + (Hex(b) + Hex(c) + Hex(d) + Hex(e) + Hex(f) + Hex(g))
  {
    HexAllNext([], a);
    HexAllNext([a], b);
    HexAllNext([a, b], c);
    HexAllNext([a, b, c], d);
    HexAllNext([a, b, c, d], e);
    HexAllNext([a, b, c, d, e], f);
    HexAllNext([a, b, c, d, e, f], g);
    assert [] + [a] == [a] && [a] + [b] == [a, b] && [a, b] + [c] == [a, b, c] && [a, b, c] + [d] == [a, b, c, d];
    assert [a, b, c, d] + [e] == [a, b, c, d, e] && [a, b, c, d, e] + [f] == [a, b, c, d, e, f];
    assert [a, b, c, d, e, f] + [g] == [a, b, c, d, e, f, g];
  }

  /** The user data written is exactly those octets. */
  lemma UserDataInOctets(seg: SmsSeg)
    requires Encodable(seg)
    ensures UserData(seg) == HexAll(UserOctets(seg))
  {
    if seg.numSeg > 1 {
      var n: byte := |seg.payload| + 6;
      PartLengths(n, |seg.payload|);
      HexAllSeven(n, 5, 0, 3, seg.refNo, seg.numSeg, seg.seqNo);
      HexAllJoins([n, 5, 0, 3, seg.refNo, seg.numSeg, seg.seqNo], seg.payload);
    } else {
      HexAllNext([], |seg.payload|);
      assert [] + [|seg.payload| as byte] == [|seg.payload|];
      HexAllJoins([|seg.payload|], seg.payload);
    }
  }

  /** Type bits of a submission, no validity period, no report, no reply path; bit 6 announces the header. */
  ghost predicate IsFirstOctet(first: byte, header: bool) {
    && first % 4 == 1 && first / 4 % 2 == 0 && first / 8 % 4 == 0
    && first / 32 % 2 == 0 && (first / 64 % 2 == 1 <==> header) && first / 128 == 0
  }

  lemma FirstOctetIsRight(seg: SmsSeg)
    ensures IsFirstOctet(FirstOctet(seg), seg.numSeg > 1)
  {}

  /** A submission in octets: first octet, reference, address, protocol, coding, user data. */
  ghost predicate IsSubmit(pdu: string, first: byte, seg: SmsSeg, digits: string, msgRef: byte) {
    && Encodable(seg) && |digits| <= 0xFF
    && pdu == HexAll([first, msgRef, |digits|, 0x91]) + Swapped(digits) + HexAll([0, 4]) + HexAll(UserOctets(seg))
  }

  lemma HexAllTwo(a: byte, b: byte)
    ensures HexAll([a, b]) == Hex(a) + Hex(b)
  {
    HexAllNext([], a);
    HexAllNext([a], b);
    assert [] + [a] == [a] && [a] + [b] == [a, b];
  }

  lemma HexAllFour(a: byte, b: byte, c: byte, d: byte)
    ensures HexAll([a, b, c, d]) == Hex(a) + Hex(b) + Hex(c) + Hex(d)
  {
    HexAllTwo(a, b);
    HexAllNext([a, b], c);
    HexAllNext([a, b, c], d);
    assert [a, b] + [c] == [a, b, c] && [a, b, c] + [d] == [a, b, c, d];
  }

  lemma RegroupFields(
      a: string, b: string, c: string, d: string, e: string, f: string, g: string, h: string, x: string, y: string)
    requires x == a + b + c + d && y == f + g
    ensures a + b + (c + d + e) + f + g + h == x + e + y + h
  {}

  lemma SubmitInOctets(seg: SmsSeg, addr: string, msgRef: byte, first: byte, d: byte)
    requires Encodable(seg) && |Digits(addr)| == d && first == FirstOctet(seg)
    ensures SubmitText(seg, addr, msgRef) ==
            HexAll([first, msgRef, d, 0x91]) + Swapped(Digits(addr)) + HexAll([0, 4]) + UserData(seg)
  {
    var front, mid := HexAll([first, msgRef, d, 0x91]), HexAll([0, 4]);
    HexAllFour(first, msgRef, d, 0x91);
    HexAllTwo(0, 4);
    RegroupFields(
      Hex(first), Hex(msgRef), Hex(d), Hex(0x91), Swapped(Digits(addr)), Hex(0), Hex(4), UserData(seg), front, mid);
  }

  /** What the encoder writes is a submission as the standard has it. */
  lemma SubmitIsStandard(seg: SmsSeg, addr: string, msgRef: byte)
    requires Encodable(seg) && |Digits(addr)| < 0x100
    ensures IsSubmit(SubmitText(seg, addr, msgRef), FirstOctet(seg), seg, Digits(addr), msgRef)
  {
    SubmitInOctets(seg, addr, msgRef, FirstOctet(seg), |Digits(addr)|);
    UserDataInOctets(seg);
  }

  /** Where the fields of a submission stand. */
  lemma SubmitFieldsStand(pdu: string, front: string, digits: string, d: byte, mid: string, ud: string)
    requires |digits| == d && |front| == 8 && |mid| == 4 && pdu == front + Swapped(digits) + mid + ud
    ensures Stands(pdu, 0, front) && Stands(pdu, 8, Swapped(digits)) && |Swapped(digits)| == RoundUp(d)
    ensures Stands(pdu, 12 + RoundUp(d), ud) && |pdu| == 12 + RoundUp(d) + |ud|
  {
    SwappedRounds(digits, d);
    StandsSplit(pdu, 0, front + Swapped(digits) + mid, ud);
    StandsSplit(pdu, 0, front + Swapped(digits), mid);
    StandsSplit(pdu, 0, front, Swapped(digits));
  }

  lemma SubmitPlaces(pdu: string, first: byte, seg: SmsSeg, digits: string, msgRef: byte, d: byte)
    requires IsSubmit(pdu, first, seg, digits, msgRef) && d == |digits|
    ensures Stands(pdu, 0, HexAll([first, msgRef, d, 0x91])) && Stands(pdu, 8, Swapped(digits))
    ensures Stands(pdu, 12 + RoundUp(d), UserData(seg)) && |pdu| == 12 + RoundUp(d) + |UserData(seg)|
  {
    UserDataInOctets(seg);
    SubmitFieldsStand(pdu, HexAll([first, msgRef, d, 0x91]), digits, d, HexAll([0, 4]), UserData(seg));
  }

  /** The first octet of a submission can be read. */
  lemma SubmitFirstReadsBack(pdu: string, first: byte, seg: SmsSeg, digits: string, msgRef: byte)
    requires IsSubmit(pdu, first, seg, digits, msgRef)
    ensures HexAt(pdu, 0) == Some(first)
  {
    SubmitPlaces(pdu, first, seg, digits, msgRef, |digits|);
    HexAllFour(first, msgRef, |digits|, 0x91);
    Regroup(Hex(first) + Hex(msgRef), Hex(|digits|), Hex(0x91));
    Regroup(Hex(first), Hex(msgRef), Hex(|digits|) + Hex(0x91));
    StandsSplit(pdu, 0, Hex(first), Hex(msgRef) + (Hex(|digits|) + Hex(0x91)));
    HexReadsBack(pdu, 0, first);
  }

  /** The address of a submission, at character 8, gives the digits. */
  lemma SubmitAddrReadsBack(pdu: string, first: byte, seg: SmsSeg, digits: string, msgRef: byte, stale: string)
    requires IsSubmit(pdu, first, seg, digits, msgRef)
    requires |digits| <= |stale| && forall c :: c in digits ==> !IsFiller(c)
    ensures AddrCells(pdu, 8, |digits|, stale) == digits
  {
    SubmitPlaces(pdu, first, seg, digits, msgRef, |digits|);
    AddrReadsBack(pdu, 8, digits, stale);
  }

  /** The user data of a submission, decoded as the header bit of its first octet tells, gives the segment. */
  lemma SubmitUserDataReadsBack(pdu: string, first: byte, seg: SmsSeg, digits: string, msgRef: byte, u: nat)
    requires IsSubmit(pdu, first, seg, digits, msgRef) && u == 12 + RoundUp(|digits|)
    requires first / 64 % 2 == 1 <==> seg.numSeg > 1
    ensures DecodeUd(pdu, u, |pdu| - u, first / 64 % 2 == 1) == Some(Normalised(seg))
  {
    SubmitPlaces(pdu, first, seg, digits, msgRef, |digits|);
    UserDataReadsBack(pdu, u, seg);
  }

  // ----- An SMS-DELIVER, field by field (section 9.2.2.1)

  /** Type bits of a delivery, no more messages waiting, no loop, report or reply path; bit 6 announces the header. */
  ghost predicate IsDeliverOctet(first: byte, header: bool) {
    && first % 4 == 0 && first / 4 % 2 == 1 && first / 8 % 8 == 0
    && (first / 64 % 2 == 1 <==> header) && first / 128 == 0
  }

  lemma DeliverOctetIsRight(seg: SmsSeg)
    ensures IsDeliverOctet(DeliverOctet(seg), seg.numSeg > 1)
  {}

  lemma RegroupDelivery(
      a: string, b: string, c: string, d: string, e: string, f: string, g: string, h: string, i: string, j: string,
      x: string, y: string)
    requires x == c + d + e && y == g + h
    ensures a + b + c + (d + e + f) + g + h + i + j == a + b + x + f + y + i + j
  {}

  lemma HexAllThree(a: byte, b: byte, c: byte)
    ensures HexAll([a, b, c]) == Hex(a) + Hex(b) + Hex(c)
  {
    HexAllTwo(a, b);
    HexAllNext([a, b], c);
    assert [a, b] + [c] == [a, b, c];
  }

  /** What the round trip starts from is a delivery as the standard has it. */
  lemma DeliverInOctets(smsc: string, scts: string, addr: string, seg: SmsSeg, first: byte, d: byte)
    requires |smsc| / 2 < 0x100 && |Digits(addr)| == d && Encodable(seg) && first == DeliverOctet(seg)
    ensures DeliverText(smsc, scts, addr, seg) ==
            Hex(|smsc| / 2) + smsc + HexAll([first, d, 0x91]) + Swapped(Digits(addr)) + HexAll([0, 4]) + scts
            + UserData(seg)
  {
    HexAllThree(first, d, 0x91);
    HexAllTwo(0, 4);
    RegroupDelivery(
      Hex(|smsc| / 2), smsc, Hex(first), Hex(d), Hex(0x91), Swapped(Digits(addr)), Hex(0), Hex(4), scts, UserData(seg),
      HexAll([first, d, 0x91]), HexAll([0, 4]));
  }

  /** The header fields the decoder insists on, at places counted from the front. */
  predicate FieldsAreRight(pdu: string, k: byte, d: byte) {
    && HexAt(pdu, 0) == Some(k)
    && (HexAt(pdu, 2 + 2 * k as int) == Some(0x04) || HexAt(pdu, 2 + 2 * k as int) == Some(0x44))
    && HexAt(pdu, 4 + 2 * k as int) == Some(d) && HexAt(pdu, 6 + 2 * k as int) == Some(0x91)
    && HexAt(pdu, 8 + 2 * k as int + d as int + d as int % 2) == Some(0)
    && HexAt(pdu, 10 + 2 * k as int + d as int + d as int % 2) == Some(4)
  }

  /** Where those fields make the decoder read on. */
  lemma FieldsFixPlaces(pdu: string, k: byte, d: byte)
    requires FieldsAreRight(pdu, k, d)
    ensures Octet(pdu, 0) == k && AddrPos(pdu) == 4 + 2 * k as int && Octet(pdu, AddrPos(pdu)) == d
    ensures PidPos(pdu) == 8 + 2 * k as int + d as int + d as int % 2
    ensures UdPos(pdu) == 26 + 2 * k as int + d as int + d as int % 2
  {}

  /** A PDU with any other header field is refused, and no other is. */
  lemma HeaderAcceptedExactly(pdu: string)
    ensures HeaderAccepted(pdu) <==> exists k: byte, d: byte :: FieldsAreRight(pdu, k, d)
  {
    if HeaderAccepted(pdu) {
      assert FieldsAreRight(pdu, Octet(pdu, 0), Octet(pdu, AddrPos(pdu)));
    }
    if k: byte, d: byte :| FieldsAreRight(pdu, k, d) {
      FieldsFixPlaces(pdu, k, d);
    }
  }

  /** User data is accepted exactly if its length is right, the concatenation header too, and the octets are legible. */
  lemma UserDataAcceptedExactly(pdu: string, u: nat, rem: int, udh: bool)
    ensures DecodeUd(pdu, u, rem, udh).Some? <==>
            && HexAt(pdu, u).Some? && rem == 2 * (HexAt(pdu, u).value as int + 1)
            && if udh then
                 && HexAt(pdu, u + 2) == Some(5) && HexAt(pdu, u + 4) == Some(0) && HexAt(pdu, u + 6) == Some(3)
                 && HexAt(pdu, u + 8).Some? && HexAt(pdu, u + 10).Some? && HexAt(pdu, u + 12).Some?
                 && Octets(pdu, u + 14, (HexAt(pdu, u).value - 6) as int % 0x100).Some?
               else Octets(pdu, u + 2, HexAt(pdu, u).value).Some?
  {}
}
