/** The UART receive ring: filled by the receive interrupt, searched and drained by the main loop. */
module UartRing {
  import opened Bytes
  import opened Patterns

  const UART_BUF_SIZE: nat := 1024
  const UART_BUF_BEGIN: int := -1
  const UART_BUF_NOT_FOUND: int := -1
  const UART_BUF_INV_PARAM: int := -2

  /** Cell index of a position at most one turn past the start of the ring. */
  function Wrap(x: nat): (w: nat)
    requires x < 2 * UART_BUF_SIZE
    ensures w < UART_BUF_SIZE && w == x % UART_BUF_SIZE
  {
    if x < UART_BUF_SIZE then x else x - UART_BUF_SIZE
  }

  /** The `n` cells met when walking the ring from `start`. */
  ghost function Linear(cells: seq<byte>, start: nat, n: nat): (s: seq<byte>)
    requires |cells| == UART_BUF_SIZE && start < UART_BUF_SIZE && n <= UART_BUF_SIZE
    ensures |s| == n
    ensures forall i :: 0 <= i < n ==> s[i] == cells[Wrap(start + i)]
  {
    seq(n, i requires 0 <= i < n => cells[Wrap(start + i)])
  }

  /** How many cells a walk from `start` visits before it meets `stop` again; a full turn when they coincide. */
  function Distance(start: nat, stop: nat): (d: nat)
    requires start < UART_BUF_SIZE && stop < UART_BUF_SIZE
    ensures 0 < d <= UART_BUF_SIZE && Wrap(start + d) == stop
  {
    if start < stop then stop - start else stop + UART_BUF_SIZE - start
  }

  /** Ring index of a search result, which is an offset from `start` or -1. */
  function Located(start: nat, k: int): int
    requires start < UART_BUF_SIZE && k <= UART_BUF_SIZE
  {
    if k < 0 then UART_BUF_NOT_FOUND else Wrap(start + k)
  }

  /** `line` bytes of `text` open with the header and close with a trailer that does not overlap it. */
  ghost predicate IsLine(text: seq<byte>, header: seq<byte>, trailer: seq<byte>, line: int) {
    && |header| + |trailer| <= line <= |text|
    && text[..|header|] == header
    && text[line - |trailer|..line] == trailer
  }

  /** There are enough bytes for a line, and the header is somewhere among them. */
  ghost predicate Searchable(text: seq<byte>, header: seq<byte>, trailer: seq<byte>) {
    0 < |text| && |header| + |trailer| <= |text| && header != [] && First(text, header) != -1
  }

  /** Bytes from the header at offset `h` to the end of the trailer at offset `t`, as the ring indices give them. */
  function Span(h: nat, t: nat, tlen: nat): nat
    requires h < UART_BUF_SIZE
  {
    if t == h then 0 else if t > h then t - h + tlen else t + UART_BUF_SIZE - h + tlen
  }

  /**
   * What the line finder reports: nothing unless both searches succeed, otherwise the span between the first header
   * and the first trailer clear of the front |header| bytes.
   */
  ghost function LineAnswer(text: seq<byte>, header: seq<byte>, trailer: seq<byte>): int
    requires |text| <= UART_BUF_SIZE
  {
    if !Searchable(text, header, trailer) || trailer == [] then 0
    else
      var h, t := First(text, header), First(text[|header|..], trailer);
      if t < 0 then 0 else Span(h, |header| + t, |trailer|)
  }

  /** The difference of the two ring indices, taken the way the finder does, is the span of the offsets. */
  lemma RingSpan(start: nat, h: nat, t: nat, hlen: nat, tlen: nat)
    requires start < UART_BUF_SIZE && h < UART_BUF_SIZE && hlen + t < UART_BUF_SIZE
    ensures LineLength(Wrap(start + h), Wrap(start + hlen + t), tlen) == Span(h, hlen + t, tlen)
  {}

  /** Length of the line computed from the ring indices of its header and trailer. */
  function LineLength(hidx: nat, tidx: nat, tlen: nat): int {
    var len := if tidx >= hidx then tidx - hidx else tidx + UART_BUF_SIZE - hidx;
    if len == 0 then len else len + tlen
  }

  lemma AnswerFromIndices(text: seq<byte>, header: seq<byte>, trailer: seq<byte>, start: nat, hidx: int, tidx: int)
    requires |text| <= UART_BUF_SIZE && Searchable(text, header, trailer) && start + |header| < UART_BUF_SIZE
    requires hidx == Located(start, First(text, header))
    requires tidx == if trailer == [] then UART_BUF_NOT_FOUND
                     else Located(start + |header|, First(text[|header|..], trailer))
    ensures hidx >= 0
    ensures LineAnswer(text, header, trailer) ==
            if tidx == UART_BUF_NOT_FOUND then 0 else LineLength(hidx, tidx, |trailer|)
  {
    var h, t := First(text, header), First(text[|header|..], trailer);
    if trailer != [] && t >= 0 {
      RingSpan(start, h, t, |header|, |trailer|);
    }
  }

  /**
   * What the finder's answer means when the header is somewhere among the bytes, `h` the first place, and `t` the first
   * place of the trailer clear of the front |header| bytes: 0 exactly if there is no such trailer or it is found at the
   * header itself; the bytes from header to the end of the trailer if it comes later; and otherwise too long by what a
   * trip round the ring adds.
   */
  lemma AnswerMeans(text: seq<byte>, header: seq<byte>, trailer: seq<byte>, h: int, t: int)
    requires |text| <= UART_BUF_SIZE && Searchable(text, header, trailer) && trailer != []
    requires h == First(text, header)
    requires t == if First(text[|header|..], trailer) < 0 then -1 else |header| + First(text[|header|..], trailer)
    ensures var n := LineAnswer(text, header, trailer);
            && (n == 0 <==> t < 0 || t == h)
            && (t > h ==> h + n == t + |trailer| <= |text| && header <= text[h..] &&
                          text[h + n - |trailer|..h + n] == trailer)
            && (0 <= t < h ==> n == 1024 - (h - t) + |trailer|)
  {
    FirstMeans(text, header);
    FirstMeans(text[|header|..], trailer);
    if t > h {
      var k := First(text[|header|..], trailer);
      assert text[|header|..][k..k + |trailer|] == text[t..t + |trailer|];
      assert text[h..h + |header|] == header;
    }
  }

  /** `n` is the shortest line opening `text`, or 0 when none does. */
  ghost predicate IsShortestLine(text: seq<byte>, header: seq<byte>, trailer: seq<byte>, n: int) {
    && (n != 0 ==> IsLine(text, header, trailer, n))
    && forall m :: IsLine(text, header, trailer, m) ==> n != 0 && n <= m
  }

  /** A line of length `m` is the header followed by text in which the trailer ends at `m`. */
  lemma LineIsTrailer(text: seq<byte>, header: seq<byte>, trailer: seq<byte>, m: int)
    requires header <= text
    ensures IsLine(text, header, trailer, m) <==>
            OccursAt(text[|header|..], trailer, m - |header| - |trailer|)
  {
    var k := m - |header| - |trailer|;
    if 0 <= k && m <= |text| {
      assert text[|header|..][k..k + |trailer|] == text[m - |trailer|..m];
      assert text[..|header|] == header;
    }
  }

  /** When the unread bytes open with the header, the answer is the shortest line, even if header == trailer. */
  lemma AnswerIsShortest(text: seq<byte>, header: seq<byte>, trailer: seq<byte>)
    requires |text| <= UART_BUF_SIZE
    requires header != [] && trailer != [] && header <= text
    ensures IsShortestLine(text, header, trailer, LineAnswer(text, header, trailer))
  {
    forall m
      ensures IsLine(text, header, trailer, m) <==>
              OccursAt(text[|header|..], trailer, m - |header| - |trailer|)
    {
      LineIsTrailer(text, header, trailer, m);
    }
    assert OccursAt(text, header, 0);
    FirstIs(text, header, 0);
    FirstMeans(text[|header|..], trailer);
  }

  /** Outcome of the line finder; `OutsideBuffer` marks the case where its second search starts past the last cell. */
  datatype LineResult = Length(value: int) | OutsideBuffer

  /** The cell after a given one. */
  function Next(idx: nat): nat {
    if idx + 1 == UART_BUF_SIZE then 0 else idx + 1
  }

  /** Moving on one cell, back to the front at the end of the buffer, reaches `stop` only after the whole distance. */
  lemma Advance(start: nat, stop: nat, k: nat)
    requires start < UART_BUF_SIZE && stop < UART_BUF_SIZE && k < Distance(start, stop)
    ensures Next(Wrap(start + k)) == Wrap(start + k + 1)
    ensures Next(Wrap(start + k)) == stop <==> k + 1 == Distance(start, stop)
  {}

  /** The search is at cell `bidx`, `idx` bytes into a match that started at `foundIdx`, on candidate `candidate`. */
  ghost predicate Searching(
      text: seq<byte>, pattern: seq<byte>, start: nat, candidate: nat, idx: nat, bidx: nat, foundIdx: nat) {
    && start < UART_BUF_SIZE && |text| <= UART_BUF_SIZE
    && idx < |pattern| && candidate + idx < |text|
    && bidx == Wrap(start + candidate + idx)
    && (idx > 0 ==> foundIdx == Wrap(start + candidate))
    && Scanning(text, pattern, candidate, idx)
  }

  /** A matching byte completes the match, carries it on, or runs into the write index. */
  lemma SearchMatches(
      text: seq<byte>, pattern: seq<byte>, start: nat, stop: nat, candidate: nat, idx: nat, bidx: nat, foundIdx: nat)
    requires Searching(text, pattern, start, candidate, idx, bidx, foundIdx)
    requires stop < UART_BUF_SIZE && |text| == Distance(start, stop) && pattern[idx] == text[candidate + idx]
    ensures var found := if idx == 0 then bidx else foundIdx;
            if idx + 1 == |pattern| then Located(start, First(text, pattern)) == found
            else if Next(bidx) == stop then First(text, pattern) == -1
            else Searching(text, pattern, start, candidate, idx + 1, Next(bidx), found)
  {
    ScanMatch(text, pattern, candidate, idx);
    Advance(start, stop, candidate + idx);
    if idx + 1 < |pattern| && candidate + idx + 1 == |text| {
      ScanEnd(text, pattern, candidate, idx + 1);
    }
  }

  /** A byte that does not match sends the search on to the next candidate, or ends it. */
  lemma SearchFails(
      text: seq<byte>, pattern: seq<byte>, start: nat, stop: nat, candidate: nat, idx: nat, bidx: nat, foundIdx: nat)
    requires Searching(text, pattern, start, candidate, idx, bidx, foundIdx)
    requires stop < UART_BUF_SIZE && |text| == Distance(start, stop) && pattern[idx] != text[candidate + idx]
    ensures var next := Next(if idx == 0 then bidx else foundIdx);
            if next == stop then First(text, pattern) == -1
            else Searching(text, pattern, start, candidate + 1, 0, next, start)
  {
    ScanMismatch(text, pattern, candidate, idx);
    Advance(start, stop, candidate);
    if candidate + 1 == |text| {
      ScanEnd(text, pattern, candidate + 1, 0);
    }
  }

  /** The ring's fields at one instant. */
  datatype Rx = Rx(cells: seq<byte>, ridx: nat, widx: nat, numUnread: nat)

  /** One run of the receive interrupt. */
  function Accept(rx: Rx, data: byte): Rx {
    if rx.numUnread < UART_BUF_SIZE && rx.widx < |rx.cells| then
      Rx(rx.cells[rx.widx := data], rx.ridx, (rx.widx + 1) % UART_BUF_SIZE, rx.numUnread + 1)
    else
      rx
  }

  class Ring {
    const buffer: array<byte>
    var ridx: nat
    var widx: nat
    var numUnread: nat

    ghost predicate Valid()
      reads this, buffer
    {
      && buffer.Length == UART_BUF_SIZE
      && ridx < UART_BUF_SIZE
      && numUnread <= UART_BUF_SIZE
      && widx == Wrap(ridx + numUnread)
    }

    ghost function Snapshot(): Rx
      reads this, buffer
    {
      Rx(buffer[..], ridx, widx, numUnread)
    }

    /** The unread bytes, oldest first. */
    ghost function Contents(): (s: seq<byte>)
      requires Valid()
      reads this, buffer
      ensures |s| == numUnread
    {
      Linear(buffer[..], ridx, numUnread)
    }

    /** What a search from `start` looks at: everything up to the write index. */
    ghost function Scanned(start: nat): seq<byte>
      requires Valid() && start < UART_BUF_SIZE
      reads this, buffer
    {
      Linear(buffer[..], start, Distance(start, widx))
    }

    constructor ()
      ensures Valid() && Contents() == [] && ridx == 0
      ensures fresh(buffer)
    {
      buffer := new byte[UART_BUF_SIZE](_ => 0);
      ridx, widx, numUnread := 0, 0, 0;
    }

    /** The receive interrupt: keeps the byte unless the ring is full. */
    method RxChar(data: byte) returns (overflow: bool)
      requires Valid()
      modifies this`widx, this`numUnread, buffer
      ensures Valid()
      ensures Snapshot() == Accept(old(Snapshot()), data)
      ensures overflow <==> |old(Contents())| == UART_BUF_SIZE
      ensures Contents() == if overflow then old(Contents()) else old(Contents()) + [data]
    {
      overflow := false;
      if numUnread < UART_BUF_SIZE {
        buffer[widx] := data;
        widx := (widx + 1) % UART_BUF_SIZE;
        numUnread := numUnread + 1;
      } else {
        overflow := true;
      }
    }

    method Flush()
      requires Valid()
      modifies this
      ensures Valid() && Contents() == [] && ridx == 0
    {
      widx, ridx, numUnread := 0, 0, 0;
    }

    /** The byte copies of a read: the read index moves along, and the count of unread bytes is left for later. */
    method CopyOut(buf: array<byte>, n: nat)
      requires Valid() && n <= numUnread && n <= buf.Length && buf != buffer
      modifies this`ridx, buf
      ensures ridx == Wrap(old(ridx) + n)
      ensures buf[..n] == old(Contents())[..n] && buf[n..] == old(buf[n..])
    {
      ghost var unread := Contents();
      var i := 0;
      while n - i > 0
        invariant 0 <= i <= n
        invariant ridx == Wrap(old(ridx) + i)
        invariant buffer[..] == old(buffer[..])
        invariant forall k :: 0 <= k < i ==> buf[k] == unread[k]
        invariant forall k :: i <= k < buf.Length ==> buf[k] == old(buf[k])
      {
        buf[i] := buffer[ridx];
        assert buffer[ridx] == unread[i];
        i := i + 1;
        ridx := (ridx + 1) % UART_BUF_SIZE;
      }
    }

    /** Copies out at most `sz` of the oldest unread bytes. */
    method Read(buf: array?<byte>, sz: nat) returns (n: int)
      requires Valid()
      requires buf != null ==> buf != buffer && sz <= buf.Length
      modifies this`ridx, this`numUnread, buf
      ensures Valid()
      ensures old(numUnread) > 0 && buf == null ==> n == UART_BUF_INV_PARAM && Contents() == old(Contents())
      ensures old(numUnread) == 0 || buf != null ==> n == Min(sz, old(numUnread))
      ensures n >= 0 ==> ridx == Wrap(old(ridx) + n) && numUnread == old(numUnread) - n
      ensures n >= 0 ==> Contents() == old(Contents())[n..]
      ensures n > 0 ==> buf != null && buf[..n] == old(Contents())[..n] && buf[n..] == old(buf[n..])
      ensures n == 0 && buf != null ==> buf[..] == old(buf[..])
    {
      if numUnread == 0 {
        return 0;
      }
      if buf == null {
        return UART_BUF_INV_PARAM;
      }
      ghost var unread := Contents();
      var nBytes := if sz > numUnread then numUnread else sz;
      CopyOut(buf, nBytes);
      numUnread := numUnread - nBytes;
      assert Contents() == unread[nBytes..];
      n := nBytes;
    }

    /** Backtracking search from `start` up to the write index. */
    method FindSubstr(start: nat, pattern: seq<byte>) returns (r: int)
      requires Valid() && start < UART_BUF_SIZE
      ensures r == if pattern == [] then UART_BUF_NOT_FOUND
                   else Located(start, First(Scanned(start), pattern))
    {
      if |pattern| == 0 {
        return UART_BUF_NOT_FOUND;
      }
      ghost var text := Scanned(start);
      ghost var candidate: nat := 0;
      var bidx: nat, idx: nat, foundIdx: nat, firstCharSeen := start, 0, start, false;
      while true
        invariant Searching(text, pattern, start, candidate, idx, bidx, foundIdx)
        invariant firstCharSeen <==> idx > 0
        decreases |text| - candidate, |text| - idx
      {
        assert buffer[bidx] == text[candidate + idx];
        if pattern[idx] == buffer[bidx] {
          SearchMatches(text, pattern, start, widx, candidate, idx, bidx, foundIdx);
          if !firstCharSeen {
            firstCharSeen := true;
            foundIdx := bidx;
          }
          idx := idx + 1;
          bidx := bidx + 1;
        } else {
          SearchFails(text, pattern, start, widx, candidate, idx, bidx, foundIdx);
          if firstCharSeen {
            firstCharSeen := false;
            bidx := foundIdx + 1;
          } else {
            bidx := bidx + 1;
          }
          foundIdx := start;
          idx := 0;
          candidate := candidate + 1;
        }
        if firstCharSeen && idx == |pattern| {
          return foundIdx;
        }
        if bidx == UART_BUF_SIZE {
          bidx := 0;
        }
        if bidx == widx {
          return UART_BUF_NOT_FOUND;
        }
      }
    }

    /** A search from inside the unread region looks at exactly the unread bytes from there on. */
    lemma ScannedIsUnread(skip: nat)
      requires Valid() && skip < numUnread
      ensures Scanned(Wrap(ridx + skip)) == Contents()[skip..]
    {
      assert Distance(Wrap(ridx + skip), widx) == numUnread - skip;
    }

    lemma UnreadFirst(pattern: seq<byte>)
      requires Valid() && 0 < numUnread
      ensures First(Scanned(ridx), pattern) == First(Contents(), pattern)
    {
      ScannedIsUnread(0);
      assert Contents()[0..] == Contents();
    }

    lemma UnreadFirstAfter(text: seq<byte>, skip: nat, pattern: seq<byte>)
      requires Valid() && text == Contents() && ridx + skip < UART_BUF_SIZE
      requires |pattern| > 0 && skip + |pattern| <= numUnread
      ensures First(Scanned(ridx + skip), pattern) == First(text[skip..], pattern)
    {
      ScannedIsUnread(skip);
    }

    /** Looks for the first `nlen` bytes of `pattern` from an index, or from the oldest unread byte. */
    method FindPattern(startIdx: int, pattern: seq<byte>, nlen: nat) returns (r: int)
      requires Valid() && UART_BUF_BEGIN <= startIdx && nlen <= |pattern|
      ensures r == if startIdx >= UART_BUF_SIZE || nlen == 0 then UART_BUF_INV_PARAM
                   else if numUnread == 0 then UART_BUF_NOT_FOUND
                   else if startIdx == UART_BUF_BEGIN then Located(ridx, First(Contents(), pattern[..nlen]))
                   else Located(startIdx, First(Scanned(startIdx), pattern[..nlen]))
    {
      if startIdx >= UART_BUF_SIZE || nlen == 0 {
        return UART_BUF_INV_PARAM;
      }
      if numUnread == 0 {
        return UART_BUF_NOT_FOUND;
      }
      var start := if startIdx == UART_BUF_BEGIN then ridx else startIdx;
      r := FindSubstr(start, pattern[..nlen]);
      UnreadFirst(pattern[..nlen]);
    }

    /** Length of the line that opens the unread bytes, or 0; `header` is a C string, so it is never absent. */
    method LineAvail(header: seq<byte>, trailer: Option<seq<byte>>) returns (r: LineResult)
      requires Valid()
      ensures trailer.None? ==> r == Length(UART_BUF_INV_PARAM)
      ensures trailer.Some? ==>
                (r == OutsideBuffer <==>
                 && ridx + |header| >= UART_BUF_SIZE
                 && Searchable(Contents(), header, trailer.value) && trailer.value != [])
      ensures trailer.Some? && r.Length? ==> r.value == LineAnswer(Contents(), header, trailer.value)
    {
      if trailer.None? {
        return Length(UART_BUF_INV_PARAM);
      }
      if numUnread == 0 {
        return Length(0);
      }
      ghost var text := Contents();
      var hlen, tlen := |header|, |trailer.value|;
      if numUnread < hlen + tlen {
        return Length(0);
      }
      var hidx := FindSubstr(ridx, header);
      UnreadFirst(header);
      if hidx == UART_BUF_NOT_FOUND {
        return Length(0);
      }
      if tlen == 0 {
        // The second search gives up before it looks at any cell.
        return Length(0);
      }
      if ridx + hlen >= UART_BUF_SIZE {
        return OutsideBuffer;
      }
      var len := LineFrom(hidx, header, trailer.value);
      r := Length(len);
    }

    /** The second half of the line finder: the trailer, and the distance between the two. */
    method LineFrom(hidx: nat, header: seq<byte>, trailer: seq<byte>) returns (len: int)
      requires Valid() && ridx + |header| < UART_BUF_SIZE
      requires trailer != [] && Searchable(Contents(), header, trailer)
      requires hidx == Located(ridx, First(Contents(), header))
      ensures len == LineAnswer(Contents(), header, trailer)
    {
      var tidx := FindSubstr(ridx + |header|, trailer);
      UnreadFirstAfter(Contents(), |header|, trailer);
      AnswerFromIndices(Contents(), header, trailer, ridx, hidx, tidx);
      if tidx == UART_BUF_NOT_FOUND {
        return 0;
      }
      len := if tidx >= hidx then tidx - hidx else tidx + UART_BUF_SIZE - hidx;
      len := if len == 0 then len else len + |trailer|;
    }
  }
}
