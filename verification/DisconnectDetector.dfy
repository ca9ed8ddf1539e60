/**
 * Direct-link mode of the TOBY-L201 TCP layer: modem data and the modem's own disconnect announcement share one
 * byte stream, so the layer looks for the announcement in the receive ring before it hands bytes out.
 */
module DisconnectDetector {
  import opened Bytes
  import opened Patterns
  import opened UartRing
  import opened OnePassScan

  /** CR LF "DISCONNECT" CR LF CR LF "OK" CR LF CR LF "+UUSOCL: " */
  const DIS_STR: seq<byte> :=
    [13, 10, 68, 73, 83, 67, 79, 78, 78, 69, 67, 84, 13, 10, 13, 10, 79, 75, 13, 10, 13, 10,
     43, 85, 85, 83, 79, 67, 76, 58, 32]

  const AT_TCP_RCV_FAIL: int := -1
  const DL_PARTIAL_TO_FULL: int := -4
  const DL_PARTIAL_ERROR: int := -5

  /** The value -1 takes in the 16-bit position field. */
  const NO_POSITION: int := 0xFFFF

  /** Socket id, CR and LF follow the announcement. */
  const TRAILER_SZ: nat := 3

  datatype DisState = DisIdle | DisPartial | DisFull

  datatype Detector = Detector(state: DisState, matched: nat, position: int)

  const RESET: Detector := Detector(DisIdle, 0, NO_POSITION)

  // ----- One lookup

  /** A lookup that found at most the first `k` bytes of the string, first at ring index `at`. */
  function Settle(d: Detector, k: nat, at: int): Detector {
    match d.state
    case DisIdle => if k > 0 then Detector(DisPartial, k, at) else d
    case DisPartial =>
      if k == 0 then RESET
      else if d.matched != k then Detector(DisPartial, k, at)
      else if d.position == at then RESET
      else d
    case DisFull => d
  }

  /** Effect of a lookup over the unread bytes `text`, the oldest of which is at ring index `ridx`. */
  ghost function Looked(d: Detector, text: seq<byte>, pattern: seq<byte>, ridx: nat): Detector
    requires ridx < UART_BUF_SIZE && |text| <= UART_BUF_SIZE
  {
    var k := Longest(text, pattern, |pattern|);
    if k == |pattern| then Detector(DisFull, 0, NO_POSITION)
    else Settle(d, k, if k == 0 then 0 else Located(ridx, First(text, pattern[..k])))
  }

  /**
   * After a lookup that did not start out full, the state is full exactly when the whole string is among the unread
   * bytes, and partial only with the length of the longest non-empty prefix found there.
   */
  lemma LookupClassifies(d: Detector, text: seq<byte>, pattern: seq<byte>, ridx: nat)
    requires ridx < UART_BUF_SIZE && |text| <= UART_BUF_SIZE && pattern != []
    requires d.state != DisFull
    ensures var e := Looked(d, text, pattern, ridx);
            && (e.state == DisFull <==> Occurs(text, pattern))
            && (e.state == DisFull ==> e.matched == 0 && e.position == 0xFFFF)
            && (e.state == DisPartial ==> e.matched > 0 && IsLongest(text, pattern, e.matched))
  {
    LongestMeans(text, pattern, |pattern|);
    assert pattern[..|pattern|] == pattern;
  }

  /** A first lookup finds the partial state exactly if some of the string, but not all of it, is among the bytes. */
  lemma FreshLookup(text: seq<byte>, pattern: seq<byte>, ridx: nat)
    requires ridx < UART_BUF_SIZE && |text| <= UART_BUF_SIZE && pattern != []
    ensures var e := Looked(RESET, text, pattern, ridx);
            && (e.state == DisPartial <==> Occurs(text, pattern[..1]) && !Occurs(text, pattern))
            && (e.state == DisIdle <==> !Occurs(text, pattern[..1]))
            && (e.state == DisPartial ==>
                  IsLongest(text, pattern, e.matched) &&
                  e.position == (ridx + First(text, pattern[..e.matched])) % UART_BUF_SIZE)
  {
    LookupClassifies(RESET, text, pattern, ridx);
    LongestMeans(text, pattern, |pattern|);
    assert pattern[..|pattern|] == pattern;
    var k := Longest(text, pattern, |pattern|);
    if k > 0 {
      var i :| OccursAt(text, pattern[..k], i);
      PrefixOccurs(text, pattern, k, 1, i);
      FirstMeans(text, pattern[..k]);
    }
  }

  /**
   * A second lookup over the same bytes forgets a partial match it would only confirm: the state goes back to idle
   * exactly when the recorded position is that of the first occurrence.
   */
  lemma RepeatedLookupForgets(d: Detector, text: seq<byte>, pattern: seq<byte>, ridx: nat)
    requires ridx < UART_BUF_SIZE && |text| <= UART_BUF_SIZE && pattern != []
    requires d.state == DisPartial && IsLongest(text, pattern, d.matched) && 0 < d.matched < |pattern|
    ensures Looked(d, text, pattern, ridx) ==
            if d.position == Located(ridx, First(text, pattern[..d.matched])) then RESET else d
  {
    LongestIs(text, pattern, d.matched);
  }

  // ----- Extraction of the data in front of the announcement

  /** The data in front of what the scan finds, and the bytes behind the announcement and its trailer. */
  function Salvage(text: seq<byte>, pattern: seq<byte>): (seq<byte>, seq<byte>) {
    match Scan(text, pattern, 0, 0)
    case Some(k) =>
      if 0 < k && k + |pattern| + TRAILER_SZ <= |text| then (text[..k], text[k + |pattern| + TRAILER_SZ..])
      else ([], [])
    case None => ([], [])
  }

  /** Whatever is salvaged really stood in front of an announcement. */
  lemma SalvageIsGenuine(text: seq<byte>, pattern: seq<byte>)
    requires pattern != []
    ensures var (data, rest) := Salvage(text, pattern);
            data != [] ==>
              && data <= text && OccursAt(text, pattern, |data|)
              && |data| + |pattern| + TRAILER_SZ + |rest| == |text|
              && rest == text[|text| - |rest|..]
  {
    ScanIsSound(text, pattern, 0, 0);
  }

  /**
   * With data in front of the first announcement, exactly that data is rescued if and only if the announcement is not
   * overrun and its trailer has come in whole. What follows the trailer is then kept.
   */
  lemma RescueIsExact(text: seq<byte>, pattern: seq<byte>, q: nat)
    requires pattern != [] && IsFirst(text, pattern, q) && 0 < q
    ensures Salvage(text, pattern).0 == text[..q] <==>
            !Overrun(text, pattern, q) && q + |pattern| + TRAILER_SZ <= |text|
    ensures Salvage(text, pattern).0 == text[..q] ==> Salvage(text, pattern).1 == text[q + |pattern| + TRAILER_SZ..]
  {
    FirstIsFoundUnlessOverrun(text, pattern, q);
    ScanIsSound(text, pattern, 0, 0);
  }

  /** A data byte and an announcement whose trailer has not come yet: nothing is overrun, and the byte is lost. */
  lemma CutTrailerLosesData()
    ensures var text := [88] + DIS_STR;
            && IsFirst(text, DIS_STR, 1) && !Overrun(text, DIS_STR, 1)
            && Salvage(text, DIS_STR) == ([], [])
  {
    var text := [88] + DIS_STR;
    assert text[1..1 + |DIS_STR|] == DIS_STR;
    assert text[0..|DIS_STR|][0] == 88 && DIS_STR[0] == 13;
    if Overrun(text, DIS_STR, 1) {
      var _ := OverrunHasPiece(text, DIS_STR, 1);
    }
    RescueIsExact(text, DIS_STR, 1);
    FirstIsFoundUnlessOverrun(text, DIS_STR, 1);
  }

  /** The extraction loop is at byte `i` with the last `m` bytes matched, from `foundIdx` on, and has missed nothing. */
  ghost predicate Extracting(text: seq<byte>, pattern: seq<byte>, i: nat, m: nat, foundStart: bool, foundIdx: nat) {
    && m <= |pattern| && m <= i <= |text|
    && (foundStart <==> m > 0)
    && foundIdx == (if foundStart then i - m else 0)
    && Scan(text, pattern, i, m) == Scan(text, pattern, 0, 0)
  }

  lemma ExtractionSteps(text: seq<byte>, pattern: seq<byte>, i: nat, m: nat, foundStart: bool, foundIdx: nat)
    requires Extracting(text, pattern, i, m, foundStart, foundIdx) && i < |text| && m < |pattern|
    ensures if pattern[m] == text[i] then
              Extracting(text, pattern, i + 1, m + 1, true, if foundStart then foundIdx else i)
            else Extracting(text, pattern, if foundStart then i else i + 1, 0, false, 0)
  {
    ScanStep(text, pattern, i, m);
  }

  /** What the loop has come to at its end says what is salvaged. */
  lemma SalvageFrom(text: seq<byte>, pattern: seq<byte>, i: nat, m: nat, foundStart: bool, foundIdx: nat)
    requires Extracting(text, pattern, i, m, foundStart, foundIdx) && pattern != [] && (m == |pattern| || i == |text|)
    ensures Salvage(text, pattern) ==
            if foundStart && foundIdx > 0 && i + TRAILER_SZ <= |text| then (text[..foundIdx], text[i + TRAILER_SZ..])
            else ([], [])
  {}

  /** A pattern whose bytes 12 and 13 repeat its first two is missed when an occurrence starts on that repeat. */
  lemma OverlapIsMissed(text: seq<byte>, pattern: seq<byte>)
    requires |pattern| == 31 && pattern[12..14] == pattern[..2]
    requires text == [88] + pattern[..14] + pattern[2..]
    requires pattern[0] != 88 && pattern[14] != pattern[2]
    ensures OccursAt(text, pattern, 13) && Scan(text, pattern, 0, 0) == None
  {
    assert text[13..44] == pattern[12..14] + pattern[2..];
    assert pattern == pattern[..2] + pattern[2..];
    assert text[1..15] == pattern[0..14];
    assert Scan(text, pattern, 0, 0) == Scan(text, pattern, 1, 0);
    ScanRun(text, pattern, 1, 0, 14);
    assert text[15] == pattern[2];
    assert Scan(text, pattern, 15, 14) == Scan(text, pattern, 15, 0);
    ScanIsSound(text, pattern, 15, 0);
  }

  lemma AnnouncementRepeats()
    ensures |DIS_STR| == 31 && DIS_STR[0] == DIS_STR[12] == DIS_STR[14] == 13 && DIS_STR[1] == DIS_STR[13] == 10
    ensures DIS_STR[2] == 68
  {}

  /**
   * A data byte, a banner cut short, then a whole announcement that shares the banner's last CR LF: the detector
   * reports it, but the scan runs past it and the data is dropped.
   */
  lemma ScanIsIncomplete()
    ensures exists text :: Occurs(text, DIS_STR) && !OccursAt(text, DIS_STR, 0) && Scan(text, DIS_STR, 0, 0) == None
  {
    ghost var pattern := DIS_STR;
    AnnouncementRepeats();
    var text := [88] + pattern[..14] + pattern[2..];
    OverlapIsMissed(text, pattern);
    assert text[0..31][0] == 88;
    assert OccursAt(text, pattern, 13) && !OccursAt(text, pattern, 0);
  }

  // ----- What happens to the layer

  /** The bits of the connection state that the receive path looks at. */
  datatype Link = Link(connected: bool, closed: bool, remoteClosed: bool, direct: bool, receiving: bool)

  const REMOTE_CLOSED: Link := Link(false, false, true, false, false)

  /** Connection state, detector, unread bytes and where the oldest of them is, rescued data not yet handed out. */
  datatype View = View(link: Link, det: Detector, text: seq<byte>, ridx: nat, rescued: seq<byte>)

  predicate Fits(v: View) {
    v.ridx < UART_BUF_SIZE && |v.text| <= UART_BUF_SIZE && (v.link.direct ==> v.rescued == [])
  }

  /** What reading modem lines takes out of the ring, and whether one of them says that the connection is closed. */
  datatype Urcs = Urcs(taken: nat, closed: bool)

  /** A byte comes in, or the line falls idle or enough bytes have come; the command layer may then read modem lines. */
  datatype Interrupt = Arrives(data: byte) | LineIdle(urcs: Urcs)

  /** The `n` oldest bytes leave the ring. */
  function Dropped(v: View, n: nat): View
    requires Fits(v) && n <= |v.text|
  {
    v.(text := v.text[n..], ridx := Wrap(v.ridx + n))
  }

  function ReadLines(v: View, urcs: Urcs): View
    requires Fits(v)
  {
    Dropped(v, Min(urcs.taken, |v.text|)).(link := if urcs.closed then REMOTE_CLOSED else v.link)
  }

  /** The whole string is there: the data in front of it is rescued, then modem lines may follow. */
  function Extracted(v: View, urcs: Urcs, pattern: seq<byte>): View
    requires Fits(v)
  {
    var (data, rest) := Salvage(v.text, pattern);
    var w := v.(link := REMOTE_CLOSED, text := rest, rescued := data);
    if data == [] then w.(ridx := if v.text == [] then v.ridx else 0)
    else ReadLines(w.(ridx := Wrap(v.ridx + (|v.text| - |rest|))), urcs)
  }

  lemma ExtractedClosesLink(v: View, urcs: Urcs, pattern: seq<byte>)
    requires Fits(v)
    ensures Extracted(v.(link := REMOTE_CLOSED), urcs, pattern) == Extracted(v, urcs, pattern)
  {}

  /** The serial callback. */
  ghost function OnIdle(v: View, urcs: Urcs, pattern: seq<byte>): View
    requires Fits(v)
  {
    if !v.link.direct then ReadLines(v, urcs)
    else if v.link.receiving || v.det.state == DisFull then v
    else
      var w := v.(det := Looked(v.det, v.text, pattern, v.ridx));
      if w.det.state == DisFull then Extracted(w, urcs, pattern) else w
  }

  /** In direct-link mode the callback disconnects exactly when the whole string is there, and then keeps the data. */
  lemma IdleDetects(v: View, urcs: Urcs, pattern: seq<byte>)
    requires Fits(v) && v.link.direct && !v.link.receiving && v.det.state != DisFull && pattern != []
    ensures var w := OnIdle(v, urcs, pattern);
            if Occurs(v.text, pattern) then
              && w.link == Link(false, false, true, false, false) && w.det.state == DisFull
              && w.rescued == Salvage(v.text, pattern).0
            else
              && w.link == v.link && w.text == v.text && w.ridx == v.ridx && w.rescued == v.rescued
              && w.det.state != DisFull
  {
    LookupClassifies(v.det, v.text, pattern, v.ridx);
  }

  /**
   * Otherwise it leaves a receive that is under way and a full detector alone, and outside direct-link mode lets the
   * command layer read its lines off the front of the ring.
   */
  lemma IdleElsewhere(v: View, urcs: Urcs, pattern: seq<byte>)
    requires Fits(v)
    ensures v.link.direct && (v.link.receiving || v.det.state == DisFull) ==> OnIdle(v, urcs, pattern) == v
    ensures !v.link.direct ==> LinesAreRead(v, OnIdle(v, urcs, pattern), urcs)
  {}

  /** Modem lines have left the ring at its front, and the link has closed if one of them says so. */
  ghost predicate LinesAreRead(before: View, after: View, urcs: Urcs)
    requires Fits(before)
  {
    var n := if urcs.taken < |before.text| then urcs.taken else |before.text|;
    && after.text == before.text[n..] && after.ridx == (before.ridx + n) % 1024
    && after.link == (if urcs.closed then Link(false, false, true, false, false) else before.link)
    && after.det == before.det && after.rescued == before.rescued
  }

  /**
   * What an extraction leaves: without data to rescue an empty ring, otherwise what follows the announcement, where it
   * was, less the modem lines that are then read.
   */
  lemma ExtractionLeaves(v: View, urcs: Urcs, pattern: seq<byte>)
    requires Fits(v) && pattern != []
    ensures var (data, rest) := Salvage(v.text, pattern);
            var w := Extracted(v, urcs, pattern);
            if data == [] then w == View(REMOTE_CLOSED, v.det, [], if v.text == [] then v.ridx else 0, [])
            else
              var behind := (v.ridx + |data| + |pattern| + 3) % 1024;
              LinesAreRead(View(REMOTE_CLOSED, v.det, rest, behind, data), w, urcs)
  {
    SalvageIsGenuine(v.text, pattern);
  }

  /** A byte for which there is no room empties the ring. */
  function OnByte(v: View, data: byte): View {
    if |v.text| < UART_BUF_SIZE then v.(text := v.text + [data]) else v.(text := [], ridx := 0)
  }

  ghost function During(v: View, interrupts: seq<Interrupt>, pattern: seq<byte>): (w: View)
    requires Fits(v)
    ensures Fits(w)
  {
    if interrupts == [] then v
    else
      var before := During(v, interrupts[..|interrupts| - 1], pattern);
      match interrupts[|interrupts| - 1]
      case Arrives(data) => OnByte(before, data)
      case LineIdle(urcs) => OnIdle(before, urcs, pattern)
  }

  // ----- A receive

  /** How many bytes a receive may take: so many, all there are, as many as asked for, or rescued ones instead. */
  datatype Ruling = Capped(n: nat) | Everything | AsAsked | FromRescued | Waits

  /** The partial state before any waiting; with nothing beyond the match there is a second look. */
  ghost function FirstRuling(v: View, pattern: seq<byte>): (View, Ruling)
    requires Fits(v)
  {
    if v.det.matched > |v.text| then (v.(det := RESET, rescued := []), Everything)
    else if v.det.matched < |v.text| then (v, Capped(|v.text| - v.det.matched))
    else
      var w := v.(det := Looked(v.det, v.text, pattern, v.ridx), link := v.link.(receiving := false));
      (w, match w.det.state
          case DisFull => FromRescued
          case DisIdle => Everything
          case DisPartial => Waits)
  }

  /** The decision after the wait; `prev` is the detector before the second look. */
  function AfterWait(prev: Detector, v: View): (View, Ruling) {
    match v.det.state
    case DisFull => (v, FromRescued)
    case DisIdle => (v, Everything)
    case DisPartial =>
      var given := v.(det := RESET, rescued := []);
      if prev.position != v.det.position then
        if v.det.matched > |v.text| then (given, Everything) else (v, Capped(|v.text| - v.det.matched))
      else if prev.matched == v.det.matched then (given, Capped(|v.text|))
      else if prev.matched < v.det.matched then (v, AsAsked)
      else (given, Everything)
  }

  /** The whole decision, with the interrupts that come in if there is a wait. */
  ghost function Decided(v: View, interrupts: seq<Interrupt>, pattern: seq<byte>): (View, Ruling)
    requires Fits(v)
  {
    if v.det.state != DisPartial then (v, AsAsked)
    else
      var (w, ruling) := FirstRuling(v, pattern);
      if ruling == Waits then AfterWait(v.det, During(w, interrupts, pattern)) else (w, ruling)
  }

  /** How many bytes a read of the ring then hands out, when `len` were asked for; the read takes a 16-bit size. */
  function Taken(ruling: Ruling, len: nat, unread: nat): (n: nat)
    ensures n <= unread
  {
    match ruling
    case Capped(n) => Min(Min(len, n), unread)
    case Everything => unread
    case AsAsked => Min(len % 0x10000, unread)
    case FromRescued => 0
    case Waits => 0
  }

  /** A receive in direct-link mode: what is left, and the bytes handed out. */
  ghost function Received(v: View, interrupts: seq<Interrupt>, len: nat, pattern: seq<byte>): (View, seq<byte>)
    requires Fits(v)
  {
    var (w, ruling) := Decided(v, interrupts, pattern);
    DecidedFits(v, interrupts, pattern);
    if ruling == FromRescued then
      var n := Min(len, |w.rescued|);
      (w.(rescued := w.rescued[n..]), w.rescued[..n])
    else
      var n := Taken(ruling, len, |w.text|);
      (Dropped(w, n), w.text[..n])
  }

  lemma DecidedFits(v: View, interrupts: seq<Interrupt>, pattern: seq<byte>)
    requires Fits(v)
    ensures Fits(Decided(v, interrupts, pattern).0)
  {}

  // ----- What a receive hands out, said of the bytes alone

  /** The `n` oldest bytes are handed out; the rest stays where it is, and the detector is left as `det`. */
  ghost predicate TakesOldest(before: View, after: View, out: seq<byte>, n: nat, det: Detector) {
    && n <= |before.text| && out == before.text[..n]
    && before.ridx + n < 2 * UART_BUF_SIZE
    && after.text == before.text[n..] && after.ridx == Wrap(before.ridx + n)
    && after.det == det && after.link == before.link
  }

  /** Outside the partial state: as many bytes as asked for, in 16 bits, or all there are. */
  lemma ReceivesOutsidePartial(v: View, interrupts: seq<Interrupt>, len: nat, pattern: seq<byte>)
    requires Fits(v) && v.det.state != DisPartial
    ensures var (w, out) := Received(v, interrupts, len, pattern);
            TakesOldest(v, w, out, Min(len % 0x10000, |v.text|), v.det) && w.rescued == v.rescued
  {
    RingIsTaken(v, interrupts, len, pattern);
  }

  /** In the partial state with something beyond the match: all but as many bytes as matched, at most. */
  lemma ReceivesBeyondMatch(v: View, interrupts: seq<Interrupt>, len: nat, pattern: seq<byte>)
    requires Fits(v) && v.det.state == DisPartial && v.det.matched < |v.text|
    ensures var (w, out) := Received(v, interrupts, len, pattern);
            TakesOldest(v, w, out, Min(len, |v.text| - v.det.matched), v.det) && w.rescued == v.rescued
  {
    RingIsTaken(v, interrupts, len, pattern);
  }

  /** The partial state is given up before any wait: everything there is. */
  lemma ReceivesGivenUp(v: View, interrupts: seq<Interrupt>, len: nat, pattern: seq<byte>)
    requires Fits(v) && v.det.state == DisPartial && v.det.matched >= |v.text|
    requires v.det.matched == |v.text| ==> Looked(v.det, v.text, pattern, v.ridx).state == DisIdle
    ensures var (w, out) := Received(v, interrupts, len, pattern);
            && out == v.text && w.text == []
            && w.det == (if v.det.matched > |v.text| then RESET else Looked(v.det, v.text, pattern, v.ridx))
            && w.rescued == if v.det.matched > |v.text| then [] else v.rescued
  {}

  /** The match is all there is, and outlives the second look. */
  ghost predicate WaitsFor(v: View, pattern: seq<byte>) {
    && Fits(v) && v.det.state == DisPartial && v.det.matched == |v.text|
    && Looked(v.det, v.text, pattern, v.ridx).state == DisPartial
  }

  /** The layer after the wait that a match outliving the second look leads to. */
  ghost function Waited(v: View, interrupts: seq<Interrupt>, pattern: seq<byte>): (w: View)
    requires Fits(v)
    ensures Fits(w)
  {
    During(v.(det := Looked(v.det, v.text, pattern, v.ridx), link := v.link.(receiving := false)), interrupts, pattern)
  }

  lemma RingIsTaken(v: View, interrupts: seq<Interrupt>, len: nat, pattern: seq<byte>)
    requires Fits(v) && Decided(v, interrupts, pattern).1 != FromRescued
    ensures var (w, ruling) := Decided(v, interrupts, pattern);
            var (after, out) := Received(v, interrupts, len, pattern);
            TakesOldest(w, after, out, Taken(ruling, len, |w.text|), w.det)
  {
    DecidedFits(v, interrupts, pattern);
  }

  /** The match has moved during the wait: all but the match. */
  lemma ReceivesAfterMove(v: View, interrupts: seq<Interrupt>, len: nat, pattern: seq<byte>)
    requires WaitsFor(v, pattern)
    requires var w := Waited(v, interrupts, pattern);
             w.det.state == DisPartial && w.det.position != v.det.position && w.det.matched <= |w.text|
    ensures var w, (after, out) := Waited(v, interrupts, pattern), Received(v, interrupts, len, pattern);
            TakesOldest(w, after, out, Min(len, |w.text| - w.det.matched), w.det) && after.rescued == w.rescued
  {
    RingIsTaken(v, interrupts, len, pattern);
  }

  /** Nothing has come of it: as many as asked for, and the match is forgotten. */
  lemma ReceivesAfterNothing(v: View, interrupts: seq<Interrupt>, len: nat, pattern: seq<byte>)
    requires WaitsFor(v, pattern)
    requires var w := Waited(v, interrupts, pattern);
             w.det.state == DisPartial && w.det.position == v.det.position && w.det.matched == v.det.matched
    ensures var w, (after, out) := Waited(v, interrupts, pattern), Received(v, interrupts, len, pattern);
            TakesOldest(w, after, out, Min(len, |w.text|), RESET) && after.rescued == []
  {
    RingIsTaken(v, interrupts, len, pattern);
  }

  /** The match has grown where it was: as many as asked for, in 16 bits, from the front of the announcement itself. */
  lemma ReceivesAfterGrowth(v: View, interrupts: seq<Interrupt>, len: nat, pattern: seq<byte>)
    requires WaitsFor(v, pattern)
    requires var w := Waited(v, interrupts, pattern);
             w.det.state == DisPartial && w.det.position == v.det.position && w.det.matched > v.det.matched
    ensures var w, (after, out) := Waited(v, interrupts, pattern), Received(v, interrupts, len, pattern);
            TakesOldest(w, after, out, Min(len % 0x10000, |w.text|), w.det) && after.rescued == w.rescued
  {
    RingIsTaken(v, interrupts, len, pattern);
  }

  /** The match is gone, or makes no sense: everything there is. */
  lemma ReceivesAfterLoss(v: View, interrupts: seq<Interrupt>, len: nat, pattern: seq<byte>)
    requires WaitsFor(v, pattern)
    requires var w := Waited(v, interrupts, pattern);
             w.det.state == DisIdle ||
             (w.det.state == DisPartial &&
              if w.det.position == v.det.position then w.det.matched < v.det.matched else w.det.matched > |w.text|)
    ensures var w, (after, out) := Waited(v, interrupts, pattern), Received(v, interrupts, len, pattern);
            && TakesOldest(w, after, out, |w.text|, if w.det.state == DisIdle then w.det else RESET)
            && after.rescued == if w.det.state == DisIdle then w.rescued else []
  {
    RingIsTaken(v, interrupts, len, pattern);
  }

  /** The whole announcement has come: what was rescued, and nothing from the ring. */
  lemma ReceivesAfterExtraction(v: View, interrupts: seq<Interrupt>, len: nat, pattern: seq<byte>)
    requires WaitsFor(v, pattern) && Waited(v, interrupts, pattern).det.state == DisFull
    ensures var w := Waited(v, interrupts, pattern);
            var n := Min(len, |w.rescued|);
            Received(v, interrupts, len, pattern) == (w.(rescued := w.rescued[n..]), w.rescued[..n])
  {}

  // ----- When a receive hands out more than was asked for

  /** The detector's match length is that of the longest match in the ring: true after a lookup, until more arrives. */
  ghost predicate InSync(v: View, pattern: seq<byte>) {
    && Fits(v)
    && v.det.state == DisPartial
    && 0 < v.det.matched < |pattern|
    && IsLongest(v.text, pattern, v.det.matched)
  }

  /** More than `len` bytes are written exactly when all that is unread is handed out, and that is more. */
  lemma OverfillsExactly(v: View, interrupts: seq<Interrupt>, len: nat, pattern: seq<byte>)
    requires Fits(v)
    ensures var (w, ruling) := Decided(v, interrupts, pattern);
            |Received(v, interrupts, len, pattern).1| > len <==> ruling == Everything && |w.text| > len
  {}

  lemma {:induction false} DuringSplit(v: View, a: seq<Interrupt>, b: seq<Interrupt>, pattern: seq<byte>)
    requires Fits(v)
    ensures During(v, a + b, pattern) == During(During(v, a, pattern), b, pattern)
    decreases |b|
  {
    if b == [] {
      assert a + b == a;
    } else {
      assert (a + b)[..|a + b| - 1] == a + b[..|b| - 1];
      DuringSplit(v, a, b[..|b| - 1], pattern);
    }
  }

  function Arrivals(bytes: seq<byte>): seq<Interrupt> {
    seq(|bytes|, i requires 0 <= i < |bytes| => Arrives(bytes[i]))
  }

  /** The ring overflows, the line falls idle, and other bytes come. */
  function Flood(v: View, refill: seq<byte>): seq<Interrupt>
    requires Fits(v)
  {
    Arrivals(seq(UART_BUF_SIZE - |v.text|, _ => 0)) + [Arrives(0), LineIdle(Urcs(0, false))] + Arrivals(refill)
  }

  lemma NothingLooked(d: Detector, pattern: seq<byte>)
    requires pattern != [] && d.state == DisPartial
    ensures Looked(d, [], pattern, 0) == RESET
  {
    EmptyOccurs([], pattern);
    LongestIs([], pattern, 0);
  }

  /** After a flood the match is forgotten, and only the other bytes are there. */
  lemma FloodForgets(v: View, refill: seq<byte>, pattern: seq<byte>)
    requires Fits(v) && v.link.direct && !v.link.receiving && v.det.state == DisPartial && pattern != []
    requires |refill| <= UART_BUF_SIZE
    ensures var w := During(v, Flood(v, refill), pattern); w.det.state == DisIdle && w.text == refill
  {
    var filling := seq(UART_BUF_SIZE - |v.text|, _ => 0);
    var two := [Arrives(0), LineIdle(Urcs(0, false))];
    DuringSplit(v, Arrivals(filling) + two, Arrivals(refill), pattern);
    DuringSplit(v, Arrivals(filling), two, pattern);
    ArrivalsAppend(v, filling, pattern);
    var full := v.(text := v.text + filling);
    Overflows(full, two, pattern);
    var calm := full.(text := [], ridx := 0, det := RESET);
    ArrivalsAppend(calm, refill, pattern);
  }

  lemma Overflows(v: View, two: seq<Interrupt>, pattern: seq<byte>)
    requires Fits(v) && v.link.direct && !v.link.receiving && v.det.state == DisPartial && pattern != []
    requires |v.text| == UART_BUF_SIZE && two == [Arrives(0), LineIdle(Urcs(0, false))]
    ensures During(v, two, pattern) == v.(text := [], ridx := 0, det := RESET)
  {
    assert two[..1] == [Arrives(0)] && two[..1][..0] == [];
    var empty := v.(text := [], ridx := 0);
    assert During(v, two[..1], pattern) == empty;
    NothingLooked(v.det, pattern);
  }

  /**
   * Whether a receive can write more than the caller has room for, said of the state before the call: never while
   * there is anything beyond the match; when the match is longer than what is unread, or a second look drops it, if
   * more than `len` are unread; and when the match outlives the second look, for every buffer smaller than the ring.
   */
  lemma NeverOverfillsExactly(v: View, len: nat, pattern: seq<byte>)
    requires Fits(v) && v.link.direct && v.det.state == DisPartial && pattern != []
    ensures (forall interrupts :: |Received(v, interrupts, len, pattern).1| <= len) <==>
            if v.det.matched < |v.text| then true
            else if v.det.matched > |v.text| then |v.text| <= len
            else match Looked(v.det, v.text, pattern, v.ridx).state
                 case DisFull => true
                 case DisIdle => |v.text| <= len
                 case DisPartial => UART_BUF_SIZE <= len
  {
    var first := FirstRuling(v, pattern).0;
    if v.det.matched == |v.text| && first.det.state == DisPartial {
      var flood := Flood(first, seq(UART_BUF_SIZE, _ => 0));
      FloodForgets(first, seq(UART_BUF_SIZE, _ => 0), pattern);
      OverfillsExactly(v, flood, len, pattern);
      assert |Received(v, flood, len, pattern).1| > len <==> UART_BUF_SIZE > len;
    } else {
      OverfillsExactly(v, [], len, pattern);
      assert |Received(v, [], len, pattern).1| <= len <==>
             v.det.matched < |v.text| || first.det.state == DisFull || |v.text| <= len;
    }
    forall interrupts
      ensures |Received(v, interrupts, len, pattern).1| > len ==>
                && v.det.matched >= |v.text| && first.det.state != DisFull
                && ((v.det.matched == |v.text| && first.det.state == DisPartial) || |v.text| > len)
                && UART_BUF_SIZE > len
    {
      OverfillsExactly(v, interrupts, len, pattern);
      DecidedFits(v, interrupts, pattern);
    }
  }

  /** For a detector in sync: the match is not where it was recorded, or it is. */
  lemma NeverOverfillsInSync(v: View, len: nat, pattern: seq<byte>)
    requires InSync(v, pattern) && v.link.direct
    ensures (forall interrupts :: |Received(v, interrupts, len, pattern).1| <= len) <==>
            v.det.matched < |v.text| ||
            (if v.det.position == v.ridx then |v.text| <= len else UART_BUF_SIZE <= len)
  {
    NeverOverfillsExactly(v, len, pattern);
    MatchFits(v, pattern);
    SecondLook(v, pattern);
  }

  /** A second look at nothing but the match itself drops it exactly if it is where it was found before. */
  lemma SecondLook(v: View, pattern: seq<byte>)
    requires InSync(v, pattern)
    ensures v.det.matched == |v.text| ==>
              && v.text == pattern[..v.det.matched]
              && Looked(v.det, v.text, pattern, v.ridx) == if v.det.position == v.ridx then RESET else v.det
  {
    var k := v.det.matched;
    if k == |v.text| {
      var i :| OccursAt(v.text, pattern[..k], i);
      assert i == 0 && v.text[0..k] == v.text;
      FirstIs(v.text, pattern[..k], 0);
      RepeatedLookupForgets(v.det, v.text, pattern, v.ridx);
    }
  }

  // ----- When a receive hands out the front of a split announcement

  /** Any tail of the unread bytes that could be the front of the announcement is still unread. */
  ghost predicate KeepsPartial(before: seq<byte>, after: seq<byte>, pattern: seq<byte>) {
    forall j :: 0 <= j <= |before| && j <= |pattern| && before[|before| - j..] == pattern[..j] ==>
      j <= |after| && after[|after| - j..] == pattern[..j]
  }

  /** Holding back as many bytes as the longest match anywhere in the buffer is always enough. */
  lemma CapKeepsPartial(text: seq<byte>, pattern: seq<byte>, n: nat, taken: nat)
    requires IsLongest(text, pattern, n) && taken + n <= |text|
    ensures KeepsPartial(text, text[taken..], pattern)
  {
    forall j | 0 <= j <= |text| && j <= |pattern| && text[|text| - j..] == pattern[..j]
      ensures j <= |text| - taken && text[taken..][|text| - taken - j..] == pattern[..j]
    {
      SuffixIsBounded(text, pattern, n, j);
    }
  }

  /** Length of the longest tail of the text that is a prefix of the pattern, looking no further than `bound`. */
  function Tail(text: seq<byte>, pattern: seq<byte>, bound: nat): (n: nat)
    requires bound <= |text| && bound <= |pattern|
    ensures n <= bound && text[|text| - n..] == pattern[..n]
  {
    if bound == 0 || text[|text| - bound..] == pattern[..bound] then bound else Tail(text, pattern, bound - 1)
  }

  function LongestTail(text: seq<byte>, pattern: seq<byte>): nat {
    Tail(text, pattern, Min(|text|, |pattern|))
  }

  lemma {:induction false} TailIsLongest(text: seq<byte>, pattern: seq<byte>, bound: nat, j: nat)
    requires j <= bound <= |text| && bound <= |pattern| && text[|text| - j..] == pattern[..j]
    ensures j <= Tail(text, pattern, bound)
  {
    if j < bound {
      TailIsLongest(text, pattern, bound - 1, j);
    }
  }

  /** Taking bytes off the front keeps every such tail exactly if it stops short of the longest one. */
  lemma KeepsExactly(text: seq<byte>, pattern: seq<byte>, taken: nat)
    requires taken <= |text|
    ensures KeepsPartial(text, text[taken..], pattern) <==> taken + LongestTail(text, pattern) <= |text|
  {
    var n := LongestTail(text, pattern);
    if taken + n <= |text| {
      forall j | 0 <= j <= |text| && j <= |pattern| && text[|text| - j..] == pattern[..j]
        ensures j <= |text| - taken && text[taken..][|text| - taken - j..] == pattern[..j]
      {
        TailIsLongest(text, pattern, Min(|text|, |pattern|), j);
      }
    }
  }

  /** A receive hands out nothing that could be the front of the announcement. */
  ghost predicate HoldsBack(v: View, interrupts: seq<Interrupt>, len: nat, pattern: seq<byte>)
    requires Fits(v)
  {
    var (w, ruling) := Decided(v, interrupts, pattern);
    KeepsPartial(w.text, w.text[Taken(ruling, len, |w.text|)..], pattern)
  }

  /**
   * Exactly when one receive in sync holds a split announcement back: always while there is anything beyond the match.
   * Otherwise the match must not be where it was recorded, so that there is a wait, and what is then handed out must
   * stop short of the longest tail that may be the announcement's front.
   */
  lemma HoldsBackExactly(v: View, interrupts: seq<Interrupt>, len: nat, pattern: seq<byte>)
    requires InSync(v, pattern)
    ensures var (w, ruling) := Decided(v, interrupts, pattern);
            HoldsBack(v, interrupts, len, pattern) <==>
              || v.det.matched < |v.text|
              || (v.det.position != v.ridx &&
                  Taken(ruling, len, |w.text|) + LongestTail(w.text, pattern) <= |w.text|)
  {
    var (w, ruling) := Decided(v, interrupts, pattern);
    var n := Taken(ruling, len, |w.text|);
    KeepsExactly(w.text, pattern, n);
    MatchFits(v, pattern);
    if v.det.matched < |v.text| {
      CapKeepsPartial(v.text, pattern, v.det.matched, n);
    } else {
      SecondLook(v, pattern);
      WholeTail(v.text, pattern);
    }
  }

  /** With no interrupts during the wait, that is: anything beyond the match, or a moved match and nothing asked for. */
  lemma HoldsBackUndisturbed(v: View, len: nat, pattern: seq<byte>)
    requires InSync(v, pattern)
    ensures HoldsBack(v, [], len, pattern) <==>
            v.det.matched < |v.text| || (v.det.position != v.ridx && len == 0)
  {
    HoldsBackExactly(v, [], len, pattern);
    MatchFits(v, pattern);
    if v.det.matched == |v.text| {
      SecondLook(v, pattern);
      WholeTail(v.text, pattern);
    }
  }

  /** A receive holds back whatever comes in exactly if, before the call, there is anything beyond the match. */
  lemma AlwaysHoldsBackExactly(v: View, len: nat, pattern: seq<byte>)
    requires InSync(v, pattern) && v.link.direct
    ensures (forall interrupts :: HoldsBack(v, interrupts, len, pattern)) <==> v.det.matched < |v.text|
  {
    MatchFits(v, pattern);
    if v.det.matched < |v.text| {
      forall interrupts
        ensures HoldsBack(v, interrupts, len, pattern)
      {
        HoldsBackExactly(v, interrupts, len, pattern);
      }
    } else if v.det.position == v.ridx {
      HoldsBackUndisturbed(v, len, pattern);
    } else {
      MovedMatchIsReleased(v, len, pattern);
    }
  }

  /** After a flood everything is handed out. */
  lemma FloodedRuling(v: View, refill: seq<byte>, pattern: seq<byte>)
    requires InSync(v, pattern) && v.link.direct && v.det.matched == |v.text| && v.det.position != v.ridx
    requires |refill| <= UART_BUF_SIZE
    ensures var (w, ruling) := Decided(v, Flood(FirstRuling(v, pattern).0, refill), pattern);
            ruling == Everything && w.text == refill
  {
    SecondLook(v, pattern);
    FloodForgets(FirstRuling(v, pattern).0, refill, pattern);
  }

  /** Taking the string's first byte keeps nothing of it. */
  lemma FirstByteIsFront(text: seq<byte>, pattern: seq<byte>)
    requires |text| == 1 && pattern != [] && text[0] == pattern[0]
    ensures !KeepsPartial(text, text[1..], pattern)
  {
    assert text[|text| - 1..] == pattern[..1];
  }

  lemma MovedMatchIsReleased(v: View, len: nat, pattern: seq<byte>)
    requires InSync(v, pattern) && v.link.direct && v.det.matched == |v.text| && v.det.position != v.ridx
    ensures !HoldsBack(v, Flood(FirstRuling(v, pattern).0, [pattern[0]]), len, pattern)
  {
    FloodedRuling(v, [pattern[0]], pattern);
    FirstByteIsFront([pattern[0]], pattern);
  }

  lemma MatchFits(v: View, pattern: seq<byte>)
    requires InSync(v, pattern)
    ensures v.det.matched <= |v.text|
  {
    var i :| OccursAt(v.text, pattern[..v.det.matched], i);
  }

  lemma WholeTail(text: seq<byte>, pattern: seq<byte>)
    requires |text| <= |pattern| && text == pattern[..|text|]
    ensures LongestTail(text, pattern) == |text|
  {
    assert text[|text| - |text|..] == text;
  }

  /** The state after the callback found the first `k` bytes of the string at the end of what is unread. */
  ghost predicate JustSplit(v: View, k: nat, pattern: seq<byte>) {
    && Fits(v) && v.link.direct && v.link.connected && !v.link.receiving
    && 0 < k < |pattern| && k < |v.text|
    && IsLongest(v.text, pattern, k) && IsFirst(v.text, pattern[..k], |v.text| - k)
    && v.det == Looked(RESET, v.text, pattern, v.ridx)
  }

  /**
   * The ordinary course of a split announcement: one receive takes exactly the data in front, holding the front of the
   * announcement back; the next, however little it asks for, finds it where it was, and hands all of it out at once.
   */
  lemma SecondReceiveReleases(
      v: View, k: nat, first: seq<Interrupt>, second: seq<Interrupt>, len: nat, more: nat, pattern: seq<byte>)
    requires JustSplit(v, k, pattern) && |v.text| - k <= len
    ensures var (mid, data) := Received(v, first, len, pattern);
            && data == v.text[..|v.text| - k] && mid.text == pattern[..k] && Fits(mid)
            && var (end, out) := Received(mid, second, more, pattern);
               out == pattern[..k] && end.text == [] && end.det == RESET
  {
    var q := |v.text| - k;
    LongestIs(v.text, pattern, k);
    FirstIs(v.text, pattern[..k], q);
    assert v.det == Detector(DisPartial, k, Wrap(v.ridx + q));
    assert v.text[q..q + k] == v.text[q..] == pattern[..k];
    var mid := Received(v, first, len, pattern).0;
    assert mid == Dropped(v, q);
    PrefixOfItself(pattern, k);
    SecondLook(mid, pattern);
  }

  lemma PrefixOfItself(pattern: seq<byte>, k: nat)
    requires k <= |pattern|
    ensures IsLongest(pattern[..k], pattern, k)
  {
    assert pattern[..k][0..k] == pattern[..k];
    assert OccursAt(pattern[..k], pattern[..k], 0);
  }

  lemma {:induction false} ArrivalsAppend(v: View, bytes: seq<byte>, pattern: seq<byte>)
    requires Fits(v) && |v.text| + |bytes| <= UART_BUF_SIZE
    ensures During(v, Arrivals(bytes), pattern) == v.(text := v.text + bytes)
  {
    var arrivals := Arrivals(bytes);
    if bytes == [] {
      assert v.text + bytes == v.text;
    } else {
      var front := bytes[..|bytes| - 1];
      assert arrivals[..|arrivals| - 1] == Arrivals(front);
      ArrivalsAppend(v, front, pattern);
      assert v.text + front + [bytes[|bytes| - 1]] == v.text + bytes;
    }
  }

  /** Once its front has been handed out, the rest of the announcement comes in without being recognised. */
  lemma RestIsMissed(v: View, k: nat, urcs: Urcs, pattern: seq<byte>)
    requires Fits(v) && v.link.direct && !v.link.receiving && v.text == [] && v.det == RESET
    requires 0 < k <= |pattern| <= UART_BUF_SIZE
    ensures var rest := pattern[k..];
            var w := During(v, Arrivals(rest), pattern);
            OnIdle(w, urcs, pattern).det.state != DisFull && OnIdle(w, urcs, pattern).link == v.link
  {
    var rest := pattern[k..];
    ArrivalsAppend(v, rest, pattern);
    assert v.text + rest == rest;
    LookupClassifies(RESET, rest, pattern, v.ridx);
  }

  /** An input for which a caller with room for one byte is given more: data, then CR LF, then two receives. */
  lemma OverfillsByOne(data: byte)
    requires data != 13
    ensures var text: seq<byte> := [data, 13, 10];
            var v := View(Link(true, false, false, true, false), Looked(RESET, text, DIS_STR, 0), text, 0, []);
            && JustSplit(v, 2, DIS_STR)
            && var mid := Received(v, [], 1, DIS_STR).0;
               Fits(mid) && Received(mid, [], 1, DIS_STR).1 == [13, 10]
  {
    var text: seq<byte> := [data, 13, 10];
    var v := View(Link(true, false, false, true, false), Looked(RESET, text, DIS_STR, 0), text, 0, []);
    SplitAfterOne(text);
    SecondReceiveReleases(v, 2, [], [], 1, 1, DIS_STR);
    assert DIS_STR[..2] == [13, 10];
  }

  lemma SplitAfterOne(text: seq<byte>)
    requires |text| == 3 && text[0] != 13 && text[1] == 13 && text[2] == 10
    ensures IsLongest(text, DIS_STR, 2) && IsFirst(text, DIS_STR[..2], 1)
  {
    AnnouncementRepeats();
    assert text[1..3] == DIS_STR[..2];
    assert OccursAt(text, DIS_STR[..2], 1);
    assert !OccursAt(text, DIS_STR[..2], 0) by {
      if OccursAt(text, DIS_STR[..2], 0) {
        OccurrenceAt(text, DIS_STR[..2], 0, 0);
      }
    }
    forall k
      ensures !OccursAt(text, DIS_STR[..3], k)
    {
      if OccursAt(text, DIS_STR[..3], k) {
        OccurrenceAt(text, DIS_STR[..3], 0, 0);
      }
    }
    LongestFromFailure(text, DIS_STR, 2);
  }
}
