/** The direct-link layer as it runs: one connection state, one detector record, one receive ring, one side buffer. */
module DirectLinkLayer {
  import opened Bytes
  import opened Patterns
  import opened UartRing
  import opened OnePassScan
  import opened DisconnectDetector

  /** What the result of the partial-state functions stands for; -1 passes as "as many as asked for". */
  function RulingOf(res: int): Ruling {
    if res == DL_PARTIAL_ERROR then Everything
    else if res == DL_PARTIAL_TO_FULL then FromRescued
    else if res < 0 then AsAsked
    else Capped(res)
  }

  /** The size a receive passes on to the ring's read, for a result of the partial-state functions. */
  function Want(res: int, len: nat, unread: nat): nat {
    if res == DL_PARTIAL_ERROR then unread else if 0 <= res < len then res else len
  }

  lemma WantIsTaken(res: int, len: nat, unread: nat)
    requires res <= UART_BUF_SIZE && unread <= UART_BUF_SIZE && res != DL_PARTIAL_TO_FULL
    ensures Min(Want(res, len, unread) % 0x10000, unread) == Taken(RulingOf(res), len, unread)
  {}

  lemma NothingSpills(kept: seq<byte>, spilled: seq<byte>, out: seq<byte>, len: nat)
    requires |out| <= len && |kept| == Min(len, |out|) && kept + spilled == out
    ensures spilled == [] && kept == out
  {}

  lemma PrefixOfPrefix(a: seq<byte>, b: seq<byte>, n: nat, k: nat)
    requires k <= n <= |a| && n <= |b| && a[..n] == b[..n]
    ensures a[..k] == b[..k]
  {
    assert a[..k] == a[..n][..k];
  }

  class DirectLink {
    const ring: Ring
    const disStr: seq<byte>
    const dlBuf: array<byte>
    var link: Link
    var disState: DisState
    var matchedBytes: nat
    var lMatchedPos: int
    var dlRidx: nat
    var dlUnread: nat

    ghost predicate Valid()
      reads this, ring, ring.buffer
    {
      && ring.Valid()
      && 0 < |disStr| < 0x100
      && dlBuf.Length == UART_BUF_SIZE && dlBuf != ring.buffer
      && dlRidx + dlUnread <= UART_BUF_SIZE
      && (link.direct ==> dlUnread == 0)
    }

    ghost function Now(): View
      requires Valid()
      reads this, ring, ring.buffer, dlBuf
    {
      View(link, State(), ring.Contents(), ring.ridx, Rescued())
    }

    ghost function State(): Detector
      reads this
    {
      Detector(disState, matchedBytes, lMatchedPos)
    }

    /** Data rescued from in front of the announcement and not yet handed out. */
    ghost function Rescued(): seq<byte>
      requires Valid()
      reads this, ring, ring.buffer, dlBuf
    {
      dlBuf[dlRidx..dlRidx + dlUnread]
    }

    constructor ()
      ensures Valid() && State() == RESET && disStr == DIS_STR && Rescued() == [] && ring.Contents() == []
      ensures fresh(ring) && fresh(ring.buffer) && fresh(dlBuf)
    {
      ring := new Ring();
      disStr := DIS_STR;
      dlBuf := new byte[UART_BUF_SIZE](_ => 0);
      link := Link(false, false, false, false, false);
      disState, matchedBytes, lMatchedPos := DisIdle, 0, NO_POSITION;
      dlRidx, dlUnread := 0, 0;
    }

    method ResetDlState()
      requires Valid()
      modifies this
      ensures Valid() && State() == RESET && Rescued() == [] && link == old(link)
    {
      disState := DisIdle;
      dlUnread, dlRidx := 0, 0;
      lMatchedPos := NO_POSITION;
      matchedBytes := 0;
    }

    /** Looks for ever longer prefixes of the announcement among the unread bytes. */
    method LongestPrefix() returns (itr: nat, curF: int)
      requires Valid()
      ensures itr == Longest(ring.Contents(), disStr, |disStr|)
      ensures itr < |disStr| ==>
                curF == if itr == 0 then 0 else Located(ring.ridx, First(ring.Contents(), disStr[..itr]))
    {
      ghost var text := ring.Contents();
      curF, itr := 0, 0;
      while itr < |disStr|
        invariant 0 <= itr <= |disStr|
        invariant itr > 0 ==> First(text, disStr[..itr]) != -1
        invariant curF == if itr == 0 then 0 else Located(ring.ridx, First(text, disStr[..itr]))
      {
        var nwF := ring.FindPattern(UART_BUF_BEGIN, disStr, itr + 1);
        if nwF == UART_BUF_NOT_FOUND {
          break;
        }
        curF := nwF;
        itr := itr + 1;
      }
      LongestFromFirst(text, disStr, itr);
    }

    /** One lookup: what is found is set against what was found before. */
    method LookupDlEscStr()
      requires Valid()
      modifies this`disState, this`matchedBytes, this`lMatchedPos
      ensures Valid()
      ensures State() == Looked(old(State()), ring.Contents(), disStr, ring.ridx)
      ensures Now() == old(Now()).(det := State())
    {
      var itr, curF := LongestPrefix();
      if itr < |disStr| {
        Record(itr, curF);
      } else {
        disState, matchedBytes, lMatchedPos := DisFull, 0, NO_POSITION;
      }
    }

    /** Records that the first `k` bytes of the announcement were found, first at `at`, and no more. */
    method Record(k: nat, at: int)
      modifies this`disState, this`matchedBytes, this`lMatchedPos
      ensures State() == Settle(old(State()), k, at)
    {
      if disState == DisIdle {
        if k > 0 {
          disState, matchedBytes, lMatchedPos := DisPartial, k, at;
        }
      } else if disState == DisPartial {
        if k == 0 {
          disState, matchedBytes, lMatchedPos := DisIdle, 0, NO_POSITION;
        } else if matchedBytes == k {
          if lMatchedPos == at {
            disState, matchedBytes, lMatchedPos := DisIdle, 0, NO_POSITION;
          }
        } else {
          matchedBytes, lMatchedPos := k, at;
        }
      }
    }

    /** Moves the oldest unread byte to the side buffer, if there is one. */
    method PullByte(ghost start: nat, ghost text: seq<byte>, at: nat)
      requires Valid() && at < |text| && Moved(start, text, at)
      modifies ring`ridx, ring`numUnread, dlBuf
      ensures Valid() && Moved(start, text, at + 1)
    {
      var one := new byte[1];
      var n := ring.Read(one, 1);
      assert one[..1][0] == text[at..][..1][0];
      dlBuf[at] := one[0];
      assert text[at..][1..] == text[at + 1..];
      assert text[..at + 1] == text[..at] + [text[at]];
      assert dlBuf[..at + 1] == dlBuf[..at] + [text[at]];
    }

    /** As far as byte `n` the stream has been moved to the side buffer, and the rest is in the ring as it was. */
    ghost predicate Moved(start: nat, text: seq<byte>, n: nat)
      requires Valid()
      reads this, ring, ring.buffer, dlBuf
    {
      && n <= |text| <= UART_BUF_SIZE && start < UART_BUF_SIZE
      && ring.Contents() == text[n..] && dlBuf[..n] == text[..n]
      && ring.ridx == Wrap(start + n)
    }

    /** The byte to look at next, which a mismatch may leave in place for a second look. */
    method NextByte(ghost start: nat, ghost text: seq<byte>, at: nat, skipRead: bool) returns (b: byte)
      requires Valid() && at < |text| && Moved(start, text, if skipRead then at + 1 else at)
      modifies ring`ridx, ring`numUnread, dlBuf
      ensures Valid() && Moved(start, text, at + 1) && b == text[at]
    {
      if !skipRead {
        PullByte(start, text, at);
      }
      assert dlBuf[..at + 1][at] == text[at];
      b := dlBuf[at];
    }

    /** The extraction loop: moves bytes from the ring to the side buffer until the announcement has gone by. */
    method ExtractUntilFound(sz: nat) returns (foundStart: bool, foundIdx: nat, matchIdx: nat, startIdx: nat)
      requires Valid() && sz == |ring.Contents()|
      modifies ring`ridx, ring`numUnread, dlBuf
      ensures Valid() && Moved(old(ring.ridx), old(ring.Contents()), startIdx)
      ensures Extracting(old(ring.Contents()), disStr, startIdx, matchIdx, foundStart, foundIdx)
      ensures matchIdx == |disStr| || startIdx == sz
    {
      ghost var start, text := ring.ridx, ring.Contents();
      ghost var pulled: nat := 0;
      var skipRead := false;
      startIdx, matchIdx, foundStart, foundIdx := 0, 0, false, 0;
      while startIdx < sz
        invariant Valid() && sz == |text| && matchIdx < |disStr|
        invariant Extracting(text, disStr, startIdx, matchIdx, foundStart, foundIdx)
        invariant skipRead ==> matchIdx == 0 && startIdx < sz
        invariant pulled == (if skipRead then startIdx + 1 else startIdx) && Moved(start, text, pulled)
        decreases sz - startIdx, matchIdx, if skipRead then 0 else 1
      {
        var b := NextByte(start, text, startIdx, skipRead);
        ExtractionSteps(text, disStr, startIdx, matchIdx, foundStart, foundIdx);
        pulled := startIdx + 1;
        if disStr[matchIdx] == b {
          if !foundStart {
            foundStart := true;
            foundIdx := startIdx;
          }
          matchIdx := matchIdx + 1;
          startIdx := startIdx + 1;
          skipRead := false;
        } else {
          if foundStart {
            foundStart := false;
            skipRead := true;
          } else {
            startIdx := startIdx + 1;
            skipRead := false;
          }
          foundIdx := 0;
          matchIdx := 0;
        }
        if foundStart && matchIdx == |disStr| {
          break;
        }
      }
    }

    /** Takes the announcement's trailer out of the ring, if all of it is there. */
    method SkipTrailer(ghost text: seq<byte>, at: nat) returns (whole: bool)
      requires Valid() && at <= |text| && ring.Contents() == text[at..]
      modifies ring`ridx, ring`numUnread
      ensures Valid() && (whole <==> at + TRAILER_SZ <= |text|)
      ensures whole ==> ring.Contents() == text[at + TRAILER_SZ..] && ring.ridx == Wrap(old(ring.ridx) + TRAILER_SZ)
    {
      var temp := new byte[TRAILER_SZ];
      var n := ring.Read(temp, TRAILER_SZ);
      whole := n == TRAILER_SZ;
    }

    /**
     * Rescues the data in front of the announcement, unless the announcement is all there is, and lets the command
     * layer read the modem lines behind it.
     */
    method XferToBuf(urcs: Urcs)
      requires Valid() && link == REMOTE_CLOSED && dlUnread == 0
      modifies this, ring, dlBuf
      ensures Valid() && Now() == Extracted(old(Now()), urcs, disStr)
    {
      var whole := Rescue();
      if whole {
        ProcessUrc(urcs);
      }
    }

    /** The extraction itself; `whole` says that announcement and trailer have gone by. */
    method Rescue() returns (whole: bool)
      requires Valid() && dlUnread == 0 && !link.direct
      modifies ring, dlBuf, this`dlRidx, this`dlUnread
      ensures Valid() && (Rescued(), ring.Contents()) == Salvage(old(ring.Contents()), disStr)
      ensures whole <==> Rescued() != []
      ensures whole ==> ring.ridx == Wrap(old(ring.ridx) + (old(|ring.Contents()|) - |ring.Contents()|))
      ensures !whole ==> ring.ridx == if old(ring.Contents()) == [] then old(ring.ridx) else 0
    {
      dlRidx := 0;
      var sz := ring.numUnread;
      if sz == 0 {
        dlUnread := 0;
        return false;
      }
      if sz == |disStr| + TRAILER_SZ {
        ring.Flush();
        return false;
      }
      whole := Extract(sz);
    }

    /** Moves the data to the side buffer, and takes announcement and trailer out of the ring. */
    method Extract(sz: nat) returns (whole: bool)
      requires Valid() && dlUnread == 0 && dlRidx == 0 && !link.direct && sz == |ring.Contents()|
      modifies ring, dlBuf, this`dlRidx, this`dlUnread
      ensures Valid() && (Rescued(), ring.Contents()) == Salvage(old(ring.Contents()), disStr)
      ensures whole <==> Rescued() != []
      ensures ring.ridx == if whole then Wrap(old(ring.ridx) + (sz - |ring.Contents()|)) else 0
    {
      ghost var text := ring.Contents();
      var foundStart, foundIdx, matchIdx, startIdx := ExtractUntilFound(sz);
      SalvageFrom(text, disStr, startIdx, matchIdx, foundStart, foundIdx);
      if !foundStart || foundIdx == 0 {
        DropAll();
        return false;
      }
      dlUnread := foundIdx;
      PrefixOfPrefix(dlBuf[..], text, startIdx, foundIdx);
      whole := SkipTrailer(text, startIdx);
      if !whole {
        DropAll();
      }
    }

    method DropAll()
      requires Valid()
      modifies ring, this`dlRidx, this`dlUnread
      ensures Valid() && Rescued() == [] && ring.Contents() == [] && ring.ridx == 0
    {
      dlUnread, dlRidx := 0, 0;
      ring.Flush();
    }

    /** The command layer reads modem lines off the front of the ring. */
    method ProcessUrc(urcs: Urcs)
      requires Valid()
      modifies this`link, ring`ridx, ring`numUnread
      ensures Valid() && Now() == ReadLines(old(Now()), urcs)
    {
      var lines := new byte[urcs.taken];
      var n := ring.Read(lines, urcs.taken);
      if urcs.closed {
        link := REMOTE_CLOSED;
      }
    }

    /** Hands out rescued data, oldest first. */
    method ProcessIntrBuffer(buf: array<byte>, len: nat) returns (n: nat)
      requires Valid() && buf != dlBuf && buf != ring.buffer && len <= buf.Length
      modifies buf, this`dlRidx, this`dlUnread
      ensures Valid()
      ensures n == Min(len, |old(Rescued())|)
      ensures buf[..n] == old(Rescued())[..n] && buf[n..] == old(buf[n..])
      ensures Rescued() == old(Rescued())[n..]
    {
      if dlUnread == 0 {
        dlRidx := 0;
        return 0;
      }
      n := if len < dlUnread then len else dlUnread;
      forall i | 0 <= i < n {
        buf[i] := dlBuf[dlRidx + i];
      }
      dlUnread := dlUnread - n;
      dlRidx := dlRidx + n;
    }

    /** The serial callback. Outside direct-link mode it lets the command layer read modem lines. */
    method UartCallback(urcs: Urcs)
      requires Valid()
      modifies this, ring, dlBuf
      ensures Valid() && Now() == OnIdle(old(Now()), urcs, disStr)
    {
      if link.direct && !link.receiving {
        if disState != DisFull {
          LookupDlEscStr();
          if disState == DisFull {
            ExtractedClosesLink(Now(), urcs, disStr);
            link := REMOTE_CLOSED;
            XferToBuf(urcs);
          }
        }
      } else if !link.direct {
        ProcessUrc(urcs);
      }
    }

    /**
     * What may be handed out in the partial state, or a negative code. With nothing beyond the match there is a second
     * look, and if that leaves things open, a wait.
     */
    method ProcessRcvDlPartial(during: seq<Interrupt>) returns (res: int)
      requires Valid() && disState == DisPartial
      modifies this, ring, ring.buffer, dlBuf
      ensures Valid()
      ensures var (w, ruling) := Decided(old(Now()), during, disStr);
              Now() == w && ruling == RulingOf(res) && res <= UART_BUF_SIZE
    {
      var prevMatched, prevPos := matchedBytes, lMatchedPos;
      var sz := ring.numUnread;
      if prevMatched > sz {
        ResetDlState();
        return DL_PARTIAL_ERROR;
      }
      if sz - prevMatched > 0 {
        return sz - prevMatched;
      }
      SecondLookup();
      if disState == DisFull {
        return DL_PARTIAL_TO_FULL;
      }
      if disState == DisIdle {
        return DL_PARTIAL_ERROR;
      }
      Delay(during);
      res := TestAfterDelay(prevMatched, prevPos);
    }

    method SecondLookup()
      requires Valid()
      modifies this`link, this`disState, this`matchedBytes, this`lMatchedPos
      ensures Valid()
      ensures var v := old(Now());
              Now() == v.(det := Looked(v.det, v.text, disStr, v.ridx), link := v.link.(receiving := false))
    {
      link := link.(receiving := true);
      LookupDlEscStr();
      link := link.(receiving := false);
    }

    /** The one-second wait, with the interrupts that fall into it. */
    method Delay(during: seq<Interrupt>)
      requires Valid()
      modifies this, ring, ring.buffer, dlBuf
      ensures Valid() && Now() == During(old(Now()), during, disStr)
    {
      for i := 0 to |during|
        invariant Valid() && Now() == During(old(Now()), during[..i], disStr)
      {
        assert during[..i + 1][..i] == during[..i];
        match during[i]
        case Arrives(data) => RxChar(data);
        case LineIdle(urcs) => UartCallback(urcs);
      }
      assert during[..|during|] == during;
    }

    /** The receive interrupt; on overflow the command layer empties the ring. */
    method RxChar(data: byte)
      requires Valid()
      modifies ring, ring.buffer
      ensures Valid() && Now() == OnByte(old(Now()), data)
    {
      var overflow := ring.RxChar(data);
      if overflow {
        ring.Flush();
      }
    }

    method TestAfterDelay(prevMatched: nat, prevPos: int) returns (res: int)
      requires Valid()
      modifies this
      ensures Valid()
      ensures var (w, ruling) := AfterWait(Detector(DisPartial, prevMatched, prevPos), old(Now()));
              Now() == w && ruling == RulingOf(res) && res <= UART_BUF_SIZE
    {
      if disState == DisFull {
        return DL_PARTIAL_TO_FULL;
      }
      if disState == DisIdle {
        return DL_PARTIAL_ERROR;
      }
      if prevPos != lMatchedPos {
        res := CalcNewLen();
      } else if prevMatched == matchedBytes {
        res := ring.numUnread;
        ResetDlState();
      } else if matchedBytes > prevMatched {
        res := AT_TCP_RCV_FAIL;
      } else {
        ResetDlState();
        res := DL_PARTIAL_ERROR;
      }
    }

    method CalcNewLen() returns (res: int)
      requires Valid()
      modifies this
      ensures Valid()
      ensures var v := old(Now());
              if v.det.matched > |v.text| then res == DL_PARTIAL_ERROR && Now() == v.(det := RESET, rescued := [])
              else res == |v.text| - v.det.matched && Now() == v
    {
      if matchedBytes > ring.numUnread {
        ResetDlState();
        return DL_PARTIAL_ERROR;
      }
      res := ring.numUnread - matchedBytes;
    }

    /**
     * Reads `want` bytes, a size that is passed on in 16 bits, to where the caller has room for `len`: the bytes beyond
     * land in the memory behind the buffer.
     */
    method ReadOut(buf: array<byte>, len: nat, want: nat) returns (r: int, spilled: seq<byte>)
      requires Valid() && buf != dlBuf && buf != ring.buffer && len <= buf.Length
      modifies buf, ring`ridx, ring`numUnread
      ensures Valid()
      ensures var v := old(Now());
              var n := Min(want % 0x10000, |v.text|);
              && Now() == Dropped(v, n)
              && r == (if n == 0 then AT_TCP_RCV_FAIL else n)
              && HandedOut(buf, len, spilled, v.text[..n])
    {
      var size := want % 0x10000;
      ghost var out := Now().text[..Min(size, |Now().text|)];
      var memory := new byte[size];
      var n := ring.Read(memory, size);
      assert memory[..n] == out;
      spilled := Deliver(memory, n, buf, len);
      r := if n == 0 then AT_TCP_RCV_FAIL else n;
    }

    /** What fits goes to the caller's buffer. */
    method Deliver(memory: array<byte>, n: nat, buf: array<byte>, len: nat) returns (spilled: seq<byte>)
      requires n <= memory.Length && len <= buf.Length && memory != buf
      modifies buf
      ensures HandedOut(buf, len, spilled, memory[..n])
    {
      var fits := if n < len then n else len;
      forall i | 0 <= i < fits {
        buf[i] := memory[i];
      }
      spilled := memory[fits..n];
      assert buf[..fits] == memory[..fits];
    }

    /** The bytes handed out are in the caller's `len` bytes as far as those go, and the others behind them. */
    ghost predicate HandedOut(buf: array<byte>, len: nat, spilled: seq<byte>, out: seq<byte>)
      requires len <= buf.Length
      reads buf
    {
      buf[..Min(len, |out|)] + spilled == out
    }

    /** A receive for a caller with a buffer of `len` bytes, with the interrupts that come in if it has to wait. */
    method TcpRecv(buf: array<byte>, len: nat, during: seq<Interrupt>) returns (r: int, spilled: seq<byte>)
      requires Valid() && buf != dlBuf && buf != ring.buffer && len <= buf.Length
      modifies this, ring, ring.buffer, dlBuf, buf
      ensures Valid()
      ensures old(link).connected && old(link).direct ==>
                var (w, out) := Received(old(Now()), during, len, disStr);
                && Now() == w
                && HandedOut(buf, len, spilled, out)
                && r == if out == [] && Decided(old(Now()), during, disStr).1 != FromRescued then AT_TCP_RCV_FAIL
                        else |out|
      // Outside the partial state: the oldest bytes, as many as fit, and nothing else happens.
      ensures old(link).connected && old(link).direct && old(disState) != DisPartial && len < 0x10000 ==>
                GaveOldest(buf, spilled, r, Min(len, |old(ring.Contents())|))
      // With something beyond a match: the same, but the match is left.
      ensures old(link).connected && old(link).direct && old(disState) == DisPartial &&
              old(matchedBytes) < |old(ring.Contents())| ==>
                GaveOldest(buf, spilled, r, Min(len, |old(ring.Contents())| - old(matchedBytes)))
      ensures old(link).connected && !old(link).direct ==> r == AT_TCP_RCV_FAIL && spilled == [] && Now() == old(Now())
      ensures !old(link).connected && old(link).closed ==> r == 0 && spilled == [] && Now() == old(Now())
      ensures !old(link).connected && !old(link).closed ==>
                var v := old(Now());
                var n := Min(len, |v.rescued|);
                && Now() == v.(rescued := v.rescued[n..])
                && HandedOut(buf, len, spilled, v.rescued[..n])
                && r == if n == 0 then AT_TCP_RCV_FAIL else n
    {
      spilled := [];
      if !link.connected {
        if link.closed {
          return 0, [];
        }
        r := ProcessIntrBuffer(buf, len);
        if r == 0 {
          r := AT_TCP_RCV_FAIL;
        }
        return;
      }
      if !link.direct {
        return AT_TCP_RCV_FAIL, [];
      }
      r, spilled := RecvDirect(buf, len, during);
    }

    /** The `n` oldest bytes of `text` are in the buffer, the rest is unread, and nothing else has happened. */
    twostate predicate GaveOldest(buf: array<byte>, spilled: seq<byte>, r: int, n: nat)
      requires old(Valid()) && Valid() && n <= buf.Length && n <= |old(ring.Contents())|
      reads this, ring, ring.buffer, buf
    {
      && buf[..n] == old(ring.Contents())[..n] && spilled == [] && ring.Contents() == old(ring.Contents())[n..]
      && State() == old(State()) && link == old(link)
      && r == if n == 0 then -1 else n
    }

    /** The direct-link part of a receive, and what it comes to where there is no wait and nothing is given up. */
    method RecvDirect(buf: array<byte>, len: nat, during: seq<Interrupt>) returns (r: int, spilled: seq<byte>)
      requires Valid() && buf != dlBuf && buf != ring.buffer && len <= buf.Length
      modifies this, ring, ring.buffer, dlBuf, buf
      ensures Valid()
      ensures var (w, out) := Received(old(Now()), during, len, disStr);
              && Now() == w
              && HandedOut(buf, len, spilled, out)
              && r == if out == [] && Decided(old(Now()), during, disStr).1 != FromRescued then AT_TCP_RCV_FAIL
                      else |out|
      ensures old(disState) != DisPartial && len < 0x10000 ==>
                GaveOldest(buf, spilled, r, Min(len, |old(ring.Contents())|))
      ensures old(disState) == DisPartial && old(matchedBytes) < |old(ring.Contents())| ==>
                GaveOldest(buf, spilled, r, Min(len, |old(ring.Contents())| - old(matchedBytes)))
    {
      ghost var v := Now();
      r, spilled := RecvRuled(buf, len, during);
      ghost var out := Received(v, during, len, disStr).1;
      if v.det.state != DisPartial {
        ReceivesOutsidePartial(v, during, len, disStr);
        if len < 0x10000 {
          NothingSpills(buf[..Min(len, |out|)], spilled, out, len);
        }
      } else if v.det.matched < |v.text| {
        ReceivesBeyondMatch(v, during, len, disStr);
        NothingSpills(buf[..Min(len, |out|)], spilled, out, len);
      }
    }

    /** A receive as the ruling has it. */
    method RecvRuled(buf: array<byte>, len: nat, during: seq<Interrupt>) returns (r: int, spilled: seq<byte>)
      requires Valid() && buf != dlBuf && buf != ring.buffer && len <= buf.Length
      modifies this, ring, ring.buffer, dlBuf, buf
      ensures Valid()
      ensures var (w, out) := Received(old(Now()), during, len, disStr);
              && Now() == w
              && HandedOut(buf, len, spilled, out)
              && r == if out == [] && Decided(old(Now()), during, disStr).1 != FromRescued then AT_TCP_RCV_FAIL
                      else |out|
    {
      if disState != DisPartial {
        r, spilled := ReadOut(buf, len, len);
        return;
      }
      var res := ProcessRcvDlPartial(during);
      if res == DL_PARTIAL_TO_FULL {
        r := ProcessIntrBuffer(buf, len);
        return r, [];
      }
      WantIsTaken(res, len, ring.numUnread);
      r, spilled := ReadOut(buf, len, Want(res, len, ring.numUnread));
    }
  }
}
