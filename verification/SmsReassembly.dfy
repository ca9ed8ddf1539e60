/** Rebuilding an SMSNAS message from the SMS segments that arrive, with one receive path. */
module SmsReassembly {
  import opened Bytes
  import opened SmsSegmentation

  const MAX_CONC_SMS_NUM: nat := 4

  datatype AckNack = AckPending | NackPending | NoAckNack

  /** The partly received concatenated message; `partial` is what has been copied into the intermediate buffer. */
  datatype Path = Path(inProgress: bool, service: byte, cref: int, curSeq: nat, partial: seq<byte>)

  datatype Rcv = Rcv(armed: bool, rcvSz: nat, ack: AckNack, path: Path)

  /** What the application's callback is told. */
  datatype Event = Message(bytes: seq<byte>, service: byte) | Overflow(size: nat, service: byte)

  /** What the application may do from inside its callback. */
  datatype Reaction = SendAck | SendNack | Arm(sz: nat)

  const INITIAL: Rcv := Rcv(false, 0, NoAckNack, Path(false, 0, -1, 0, []))

  function ResetPath(p: Path): Path {
    Path(false, p.service, -1, 0, [])
  }

  /** Supplying a receive buffer: refused while one is in use. */
  function Armed(st: Rcv, sz: nat): Rcv {
    if sz > PROTO_MAX_MSG_SZ || st.armed then st else st.(armed := true, rcvSz := sz)
  }

  function React(st: Rcv, reactions: seq<Reaction>): Rcv
    decreases |reactions|
  {
    if reactions == [] then st
    else
      var before := React(st, reactions[..|reactions| - 1]);
      match reactions[|reactions| - 1]
      case SendAck => before.(ack := AckPending)
      case SendNack => before.(ack := NackPending)
      case Arm(sz) => Armed(before, sz)
  }

  function Nacked(st: Rcv): Rcv {
    st.(ack := NackPending)
  }

  /** A new concatenated message must start with segment 1 of at most four and carry the right version. */
  predicate GoodFirst(seg: SmsSeg, mem: seq<byte>)
    requires 2 <= |mem|
  {
    seg.numSeg <= MAX_CONC_SMS_NUM && seg.seqNo == 1 && mem[0] == SMSNAS_VERSION
  }

  /** A segment that starts a concatenated message. */
  function ReceiveFirst(st: Rcv, seg: SmsSeg, mem: seq<byte>, reactions: seq<Reaction>): (Rcv, seq<Event>)
    requires 2 <= |mem|
  {
    if !GoodFirst(seg, mem) then (Nacked(st), [])
    else
      var rcvd := |st.path.partial| + |seg.payload|;
      if st.rcvSz < rcvd then
        (React(st, reactions).(armed := false, path := ResetPath(st.path)), [Overflow(st.rcvSz, mem[1])])
      else if rcvd > PROTO_MAX_MSG_SZ then
        (Nacked(st).(path := ResetPath(st.path)), [])
      else
        (st.(ack := AckPending, path := Path(true, mem[1], seg.refNo, seg.seqNo, seg.payload)), [])
  }

  /** A further segment of the message in progress. */
  function ReceiveNext(st: Rcv, seg: SmsSeg, reactions: seq<Reaction>): (Rcv, seq<Event>) {
    var p := st.path;
    var rcvd := |p.partial| + |seg.payload|;
    if st.rcvSz < rcvd then
      (React(st, reactions).(armed := false, path := ResetPath(p)), [Overflow(st.rcvSz, 0)])
    else if rcvd > PROTO_MAX_MSG_SZ || seg.numSeg > MAX_CONC_SMS_NUM || seg.seqNo != p.curSeq + 1 then
      (Nacked(st).(path := ResetPath(p)), [])
    else if seg.seqNo == seg.numSeg then
      (React(st.(armed := false), reactions).(path := ResetPath(p)), [Message(p.partial + seg.payload, p.service)])
    else
      (st.(ack := AckPending, path := p.(curSeq := seg.seqNo, partial := p.partial + seg.payload)), [])
  }

  /** A message that fits one SMS. */
  function ReceiveSingle(st: Rcv, seg: SmsSeg, mem: seq<byte>, reactions: seq<Reaction>): (Rcv, seq<Event>)
    requires 2 <= |mem|
  {
    if mem[0] != SMSNAS_VERSION then (Nacked(st), [])
    else
      (React(st.(armed := false), reactions),
       [if st.rcvSz < |seg.payload| then Overflow(st.rcvSz, mem[1]) else Message(seg.payload, mem[1])])
  }

  /**
   * One arriving segment. `residue` is what the modem layer's buffer holds behind the payload: the header bytes of a
   * segment too short to have them are read from there.
   */
  function Receive(st: Rcv, seg: SmsSeg, residue: seq<byte>, reactions: seq<Reaction>): (Rcv, seq<Event>)
    requires 2 <= |residue|
  {
    var mem := seg.payload + residue;
    if !st.armed then (Nacked(st), [])
    else if seg.numSeg > 1 then
      if !st.path.inProgress then ReceiveFirst(st, seg, mem, reactions)
      else if st.path.cref == seg.refNo then ReceiveNext(st, seg, reactions)
      else (Nacked(st), [])
    else ReceiveSingle(st, seg, mem, reactions)
  }

  class Receiver {
    var armed: bool
    var rcvSz: nat
    var rcvBuf: array?<byte>
    var ack: AckNack
    var inProgress: bool
    var service: byte
    var cref: int
    var curSeq: nat
    var wrIdx: nat
    const buf: array<byte>
    /** Every call of the application's callback so far. */
    var events: seq<Event>

    ghost predicate Valid()
      reads this
    {
      && buf.Length == PROTO_MAX_MSG_SZ
      && wrIdx <= PROTO_MAX_MSG_SZ
      && rcvSz <= PROTO_MAX_MSG_SZ
      && (armed ==> rcvBuf != null)
      && (rcvBuf != null ==> rcvBuf != buf && rcvSz <= rcvBuf.Length)
      && (!inProgress ==> wrIdx == 0)
    }

    ghost function Snapshot(): Rcv
      requires Valid()
      reads this, buf
    {
      Rcv(armed, rcvSz, ack, Path(inProgress, service, cref, curSeq, buf[..wrIdx]))
    }

    constructor ()
      ensures Valid() && Snapshot() == INITIAL && events == []
    {
      armed, rcvSz, rcvBuf, ack := false, 0, null, NoAckNack;
      inProgress, service, cref, curSeq, wrIdx := false, 0, -1, 0, 0;
      buf := new byte[PROTO_MAX_MSG_SZ](_ => 0);
      events := [];
    }

    method SetRecvBuffer(newBuf: array<byte>, sz: nat) returns (ok: bool)
      requires Valid() && newBuf != buf && (sz <= PROTO_MAX_MSG_SZ ==> sz <= newBuf.Length)
      modifies this`armed, this`rcvSz, this`rcvBuf
      ensures Valid() && Snapshot() == Armed(old(Snapshot()), sz)
      ensures ok <==> sz <= PROTO_MAX_MSG_SZ && !old(armed)
      ensures rcvBuf == if ok then newBuf else old(rcvBuf)
    {
      if sz > PROTO_MAX_MSG_SZ {
        return false;
      }
      if armed {
        return false;
      }
      rcvBuf, rcvSz, armed := newBuf, sz, true;
      return true;
    }

    method ResetRcvPath()
      requires Valid()
      modifies this`wrIdx, this`curSeq, this`cref, this`inProgress
      ensures Valid() && Snapshot() == old(Snapshot()).(path := ResetPath(old(Snapshot()).path))
    {
      wrIdx, curSeq, cref, inProgress := 0, 0, -1, false;
    }

    /** The callback: tells the application, then does what it does, re-arming with `spare` when it asks to. */
    method Callback(event: Event, reactions: seq<Reaction>, spare: array<byte>)
      requires Valid() && spare != buf && spare.Length >= PROTO_MAX_MSG_SZ
      modifies this`events, this`ack, this`armed, this`rcvSz, this`rcvBuf
      ensures Valid() && Snapshot() == React(old(Snapshot()), reactions)
      ensures events == old(events) + [event]
    {
      events := events + [event];
      for i := 0 to |reactions|
        invariant Valid() && Snapshot() == React(old(Snapshot()), reactions[..i])
        invariant events == old(events) + [event]
      {
        assert reactions[..i + 1][..i] == reactions[..i];
        match reactions[i]
        case SendAck => ack := AckPending;
        case SendNack => ack := NackPending;
        case Arm(sz) => var _ := SetRecvBuffer(spare, sz);
      }
      assert reactions[..|reactions|] == reactions;
    }

    /** Copies a payload behind what the intermediate buffer already holds. */
    method Append(payload: seq<byte>)
      requires Valid() && wrIdx + |payload| <= PROTO_MAX_MSG_SZ
      modifies buf
      ensures buf[..wrIdx + |payload|] == old(buf[..wrIdx]) + payload
      ensures buf[..wrIdx] == old(buf[..wrIdx])
    {
      forall i | 0 <= i < |payload| {
        buf[wrIdx + i] := payload[i];
      }
    }

    /** Copies bytes to the front of the application's buffer. */
    method Deliver(bytes: seq<byte>)
      requires Valid() && rcvBuf != null && |bytes| <= rcvBuf.Length
      modifies rcvBuf
      ensures rcvBuf[..|bytes|] == bytes && rcvBuf[|bytes|..] == old(rcvBuf[|bytes|..])
    {
      forall i | 0 <= i < |bytes| {
        rcvBuf[i] := bytes[i];
      }
    }

    /** The application's buffer holds the message it is told about. */
    ghost predicate Filled(buffer: array?<byte>, evs: seq<Event>)
      reads buffer
    {
      evs != [] && evs[0].Message? ==>
        buffer != null && |evs[0].bytes| <= buffer.Length && buffer[..|evs[0].bytes|] == evs[0].bytes
    }

    /** First part of a concatenated message, on a free path. */
    method RcvFirst(seg: SmsSeg, mem: seq<byte>, reactions: seq<Reaction>, spare: array<byte>)
      requires Valid() && armed && !inProgress && 2 <= |mem|
      requires spare != buf && spare.Length >= PROTO_MAX_MSG_SZ
      modifies this, buf
      ensures Valid()
      ensures var (st, evs) := ReceiveFirst(old(Snapshot()), seg, mem, reactions);
              Snapshot() == st && events == old(events) + evs
    {
      if !(seg.numSeg <= MAX_CONC_SMS_NUM && seg.seqNo == 1 && mem[0] == SMSNAS_VERSION) {
        ack := NackPending;
        return;
      }
      var rcvd := wrIdx + |seg.payload|;
      if rcvSz < rcvd {
        Callback(Overflow(rcvSz, mem[1]), reactions, spare);
        armed := false;
        ResetRcvPath();
        return;
      }
      service, cref := mem[1], seg.refNo;
      Append(seg.payload);
      inProgress := true;
      curSeq, wrIdx, ack := seg.seqNo, wrIdx + |seg.payload|, AckPending;
    }

    /**
     * A further part of the message in progress; the last one is delivered. The source's second size check cannot
     * fire: no armed buffer is larger than the intermediate one.
     */
    method RcvNext(seg: SmsSeg, reactions: seq<Reaction>, spare: array<byte>)
      requires Valid() && armed && inProgress
      requires spare != buf && spare.Length >= PROTO_MAX_MSG_SZ
      modifies this, buf, rcvBuf
      ensures Valid()
      ensures var (st, evs) := ReceiveNext(old(Snapshot()), seg, reactions);
              Snapshot() == st && events == old(events) + evs
      ensures Filled(old(rcvBuf), ReceiveNext(old(Snapshot()), seg, reactions).1)
    {
      var rcvd := wrIdx + |seg.payload|;
      if rcvSz < rcvd {
        Callback(Overflow(rcvSz, 0), reactions, spare);
        armed := false;
        ResetRcvPath();
        return;
      }
      if seg.numSeg > MAX_CONC_SMS_NUM || seg.seqNo != curSeq + 1 {
        ack := NackPending;
        ResetRcvPath();
        return;
      }
      Append(seg.payload);
      if seg.seqNo == seg.numSeg {
        armed := false;
        Deliver(buf[..rcvd]);
        Callback(Message(buf[..rcvd], service), reactions, spare);
        ResetRcvPath();
        return;
      }
      curSeq, wrIdx, ack := seg.seqNo, rcvd, AckPending;
    }

    /** A message in one SMS. */
    method RcvSingle(seg: SmsSeg, mem: seq<byte>, reactions: seq<Reaction>, spare: array<byte>)
      requires Valid() && armed && 2 <= |mem|
      requires spare != buf && spare.Length >= PROTO_MAX_MSG_SZ
      modifies this, rcvBuf
      ensures Valid()
      ensures var (st, evs) := ReceiveSingle(old(Snapshot()), seg, mem, reactions);
              Snapshot() == st && events == old(events) + evs
      ensures Filled(old(rcvBuf), ReceiveSingle(old(Snapshot()), seg, mem, reactions).1)
    {
      if mem[0] != SMSNAS_VERSION {
        ack := NackPending;
        return;
      }
      armed := false;
      if rcvSz < |seg.payload| {
        Callback(Overflow(rcvSz, mem[1]), reactions, spare);
        return;
      }
      Deliver(seg.payload);
      Callback(Message(seg.payload, mem[1]), reactions, spare);
    }

    /** The modem layer's callback for one received SMS. */
    method RcvCb(seg: SmsSeg, residue: seq<byte>, reactions: seq<Reaction>, spare: array<byte>)
      requires Valid() && 2 <= |residue|
      requires spare != buf && spare.Length >= PROTO_MAX_MSG_SZ
      modifies this, buf, rcvBuf
      ensures Valid()
      ensures var (st, evs) := Receive(old(Snapshot()), seg, residue, reactions);
              Snapshot() == st && events == old(events) + evs
      ensures Filled(old(rcvBuf), Receive(old(Snapshot()), seg, residue, reactions).1)
    {
      var mem := seg.payload + residue;
      if !armed {
        ack := NackPending;
        return;
      }
      if seg.numSeg > 1 {
        if !inProgress {
          RcvFirst(seg, mem, reactions, spare);
        } else if cref == seg.refNo {
          RcvNext(seg, reactions, spare);
        } else {
          ack := NackPending;
        }
      } else {
        RcvSingle(seg, mem, reactions, spare);
      }
    }

    /**
     * Maintenance: flushes the pending acknowledgement and, when the next segment is overdue, gives up the message in
     * progress. Whether it is overdue is left to the caller.
     */
    method Maintenance(overdue: bool) returns (flushed: AckNack)
      requires Valid()
      modifies this
      ensures Valid() && Snapshot() == Maintained(old(Snapshot()), overdue)
      ensures flushed == old(ack) && events == old(events)
    {
      flushed := ack;
      ack := NoAckNack;
      if inProgress && overdue {
        inProgress := false;
        wrIdx := 0;
        ResetRcvPath();
      }
    }
  }

  // ----- Runs

  datatype Input =
    | Segment(seg: SmsSeg, residue: seq<byte>, reactions: seq<Reaction>)
    | Maintain(overdue: bool)
    | Supply(sz: nat)

  function Maintained(st: Rcv, overdue: bool): Rcv {
    st.(ack := NoAckNack, path := if st.path.inProgress && overdue then ResetPath(st.path) else st.path)
  }

  function Step(st: Rcv, input: Input): (Rcv, seq<Event>) {
    match input
    case Segment(seg, residue, reactions) => if 2 <= |residue| then Receive(st, seg, residue, reactions) else (st, [])
    case Maintain(overdue) => (Maintained(st, overdue), [])
    case Supply(sz) => (Armed(st, sz), [])
  }

  /** State after a sequence of inputs. */
  function Run(inputs: seq<Input>): Rcv {
    if inputs == [] then INITIAL else Step(Run(inputs[..|inputs| - 1]), inputs[|inputs| - 1]).0
  }

  // ----- What becomes of a segment, said of the fields alone

  /** The version and service bytes, which a segment too short to have them takes from behind its payload. */
  function VersionOf(seg: SmsSeg, residue: seq<byte>): byte
    requires 2 <= |residue|
  {
    (seg.payload + residue)[0]
  }

  function ServiceOf(seg: SmsSeg, residue: seq<byte>): byte
    requires 2 <= |residue|
  {
    (seg.payload + residue)[1]
  }

  /** Where no message is in progress nothing is stored; a receive buffer is no larger than the intermediate one. */
  ghost predicate Tidy(st: Rcv) {
    st.rcvSz <= 512 && (!st.path.inProgress ==> st.path.partial == [] && st.path.curSeq == 0)
  }

  /** Segment 1 of two to four, or the next one of the message in progress; its length apart. */
  predicate Continues(st: Rcv, seg: SmsSeg, residue: seq<byte>)
    requires 2 <= |residue|
  {
    && st.armed && 2 <= seg.numSeg <= 4
    && if st.path.inProgress then seg.refNo == st.path.cref && seg.seqNo == st.path.curSeq + 1
       else seg.seqNo == 1 && VersionOf(seg, residue) == 1
  }

  /** Judged by length before by sequence, once a message is in progress. */
  predicate LongPart(st: Rcv, seg: SmsSeg, residue: seq<byte>)
    requires 2 <= |residue|
  {
    && st.armed && 2 <= seg.numSeg && |st.path.partial| + |seg.payload| > st.rcvSz
    && if st.path.inProgress then seg.refNo == st.path.cref else Continues(st, seg, residue)
  }

  predicate Alone(st: Rcv, seg: SmsSeg, residue: seq<byte>)
    requires 2 <= |residue|
  {
    st.armed && seg.numSeg <= 1 && VersionOf(seg, residue) == 1
  }

  /** The segment's payload is stored, and more is awaited. */
  predicate Stored(st: Rcv, seg: SmsSeg, residue: seq<byte>)
    requires 2 <= |residue|
  {
    && Continues(st, seg, residue) && !LongPart(st, seg, residue)
    && !(st.path.inProgress && seg.seqNo == seg.numSeg)
  }

  /** The segment's payload completes the message. */
  predicate Completes(st: Rcv, seg: SmsSeg, residue: seq<byte>)
    requires 2 <= |residue|
  {
    && Continues(st, seg, residue) && !LongPart(st, seg, residue)
    && st.path.inProgress && seg.seqNo == seg.numSeg
  }

  /** A part of the message in progress that is not stored ends it; so does a first part that is too long. */
  predicate EndsPath(st: Rcv, seg: SmsSeg, residue: seq<byte>)
    requires 2 <= |residue|
  {
    || LongPart(st, seg, residue)
    || (st.armed && seg.numSeg > 1 && st.path.inProgress && seg.refNo == st.path.cref && !Stored(st, seg, residue))
  }

  /** Which segments lead to a callback, and to which. */
  lemma CallbackIsExact(st: Rcv, seg: SmsSeg, residue: seq<byte>, reactions: seq<Reaction>)
    requires Tidy(st) && 2 <= |residue|
    ensures Receive(st, seg, residue, reactions).1 ==
            if Completes(st, seg, residue) then [Message(st.path.partial + seg.payload, st.path.service)]
            else if Alone(st, seg, residue) && |seg.payload| <= st.rcvSz then
              [Message(seg.payload, ServiceOf(seg, residue))]
            else if Alone(st, seg, residue) then [Overflow(st.rcvSz, ServiceOf(seg, residue))]
            else if LongPart(st, seg, residue) then
              [Overflow(st.rcvSz, if st.path.inProgress then 0 else ServiceOf(seg, residue))]
            else []
  {}

  /** What becomes of the message in progress. */
  lemma PathIsExact(st: Rcv, seg: SmsSeg, residue: seq<byte>, reactions: seq<Reaction>)
    requires Tidy(st) && 2 <= |residue|
    ensures var p := Receive(st, seg, residue, reactions).0.path;
            if Stored(st, seg, residue) then
              && p.inProgress && p.cref == seg.refNo && p.curSeq == seg.seqNo
              && p.partial == st.path.partial + seg.payload
              && p.service == (if st.path.inProgress then st.path.service else ServiceOf(seg, residue))
            else if EndsPath(st, seg, residue) then
              p == Path(false, st.path.service, -1, 0, [])
            else p == st.path
  {
    ReactKeepsPath(st, reactions);
    ReactKeepsPath(st.(armed := false), reactions);
  }

  /** The last answer among the application's reactions, or what was there before. */
  function LastAnswer(reactions: seq<Reaction>, before: AckNack): AckNack {
    if reactions == [] then before
    else
      match reactions[|reactions| - 1]
      case SendAck => AckPending
      case SendNack => NackPending
      case Arm(_) => LastAnswer(reactions[..|reactions| - 1], before)
  }

  lemma {:induction false} ReactAnswers(st: Rcv, reactions: seq<Reaction>)
    ensures React(st, reactions).ack == LastAnswer(reactions, st.ack)
    decreases |reactions|
  {
    if reactions != [] {
      ReactAnswers(st, reactions[..|reactions| - 1]);
    }
  }

  /**
   * The answer that is due: the application's last one if it was called back and gave one, the old one if it gave none;
   * without a callback an acknowledgement exactly if the payload was stored, and a rejection otherwise.
   */
  lemma AnswerIsExact(st: Rcv, seg: SmsSeg, residue: seq<byte>, reactions: seq<Reaction>)
    requires Tidy(st) && 2 <= |residue|
    ensures var (t, events) := Receive(st, seg, residue, reactions);
            t.ack == if events != [] then LastAnswer(reactions, st.ack)
                     else if Stored(st, seg, residue) then AckPending
                     else NackPending
  {
    ReactAnswers(st, reactions);
    ReactAnswers(st.(armed := false), reactions);
  }

  /** In every run: the answer, said of what happened to the partial message rather than of the segment. */
  lemma SilentSegmentIsAnsweredByStorage(inputs: seq<Input>, last: Input)
    requires last.Segment? && 2 <= |last.residue|
    requires Step(Run(inputs), last).1 == []
    ensures var before, after := Run(inputs).path, Step(Run(inputs), last).0.path;
            var stored := after.inProgress && after.cref == last.seg.refNo && after.curSeq == before.curSeq + 1 &&
                          after.partial == before.partial + last.seg.payload;
            Step(Run(inputs), last).0.ack == if stored then AckPending else NackPending
  {
    var _ := PathIsAssembled(inputs);
    AnswerIsExact(Run(inputs), last.seg, last.residue, last.reactions);
    PathIsExact(Run(inputs), last.seg, last.residue, last.reactions);
  }

  /** In every run: after a callback the application's last answer is due, or the one that was due before. */
  lemma CallbackIsAnsweredByApplication(inputs: seq<Input>, last: Input)
    requires last.Segment? && 2 <= |last.residue|
    requires Step(Run(inputs), last).1 != []
    ensures Step(Run(inputs), last).0.ack == LastAnswer(last.reactions, Run(inputs).ack)
  {
    var _ := PathIsAssembled(inputs);
    AnswerIsExact(Run(inputs), last.seg, last.residue, last.reactions);
  }

  /** What a maintenance pass sends to the network. */
  function Flushed(st: Rcv): AckNack {
    st.ack
  }

  /** That answer is what maintenance sends, though buffers are supplied in between; a second pass sends none. */
  lemma AnswerIsFlushedOnce(inputs: seq<Input>, last: Input, sizes: seq<nat>, overdue: bool)
    requires last.Segment? && 2 <= |last.residue|
    ensures var supplied := inputs + [last] + seq(|sizes|, i requires 0 <= i < |sizes| => Supply(sizes[i]));
            && Flushed(Run(supplied)) == Step(Run(inputs), last).0.ack
            && Flushed(Run(supplied + [Maintain(overdue)])) == NoAckNack
  {
    SuppliesKeepAnswer(inputs + [last], sizes);
    RunSnoc(inputs, last);
    RunSnoc(inputs + [last] + seq(|sizes|, i requires 0 <= i < |sizes| => Supply(sizes[i])), Maintain(overdue));
  }

  lemma {:induction false} SuppliesKeepAnswer(inputs: seq<Input>, sizes: seq<nat>)
    ensures Run(inputs + seq(|sizes|, i requires 0 <= i < |sizes| => Supply(sizes[i]))).ack == Run(inputs).ack
    decreases |sizes|
  {
    var supplies := seq(|sizes|, i requires 0 <= i < |sizes| => Supply(sizes[i]));
    if sizes == [] {
      assert inputs + supplies == inputs;
    } else {
      var front := sizes[..|sizes| - 1];
      assert supplies[..|supplies| - 1] == seq(|front|, i requires 0 <= i < |front| => Supply(front[i]));
      assert (inputs + supplies)[..|inputs + supplies| - 1] == inputs + supplies[..|supplies| - 1];
      SuppliesKeepAnswer(inputs, front);
    }
  }

  /** A receive buffer is taken over exactly if none is in use and it is no larger than a message can be. */
  lemma SupplyIsExact(st: Rcv, sz: nat)
    ensures var t := Armed(st, sz);
            if !st.armed && sz <= 512 then t.armed && t.rcvSz == sz && t.ack == st.ack && t.path == st.path
            else t == st
  {}

  predicate Fitting(r: Reaction) {
    r.Arm? && r.sz <= 512
  }

  /** Of the buffers supplied from inside a callback the first that fits is taken over, if none is in use. */
  ghost predicate TakesFirstFitting(before: Rcv, reactions: seq<Reaction>, after: Rcv) {
    if !before.armed && exists i :: 0 <= i < |reactions| && Fitting(reactions[i]) then
      && after.armed
      && exists i :: 0 <= i < |reactions| && Fitting(reactions[i]) && after.rcvSz == reactions[i].sz &&
                     forall j :: 0 <= j < i ==> !Fitting(reactions[j])
    else after.armed == before.armed && after.rcvSz == before.rcvSz
  }

  lemma {:induction false} ReactArms(st: Rcv, reactions: seq<Reaction>)
    ensures TakesFirstFitting(st, reactions, React(st, reactions))
    decreases |reactions|
  {
    if reactions != [] {
      var front := reactions[..|reactions| - 1];
      ReactArms(st, front);
      assert forall i :: 0 <= i < |front| ==> front[i] == reactions[i];
    }
  }

  /**
   * A delivered message frees the buffer before the application is called back, so a new one can be supplied there; one
   * too long in several parts frees it afterwards, so nothing supplied there is taken over.
   */
  lemma ReactionsArm(st: Rcv, seg: SmsSeg, residue: seq<byte>, reactions: seq<Reaction>)
    requires Tidy(st) && 2 <= |residue|
    ensures var (t, events) := Receive(st, seg, residue, reactions);
            if events == [] then t.armed == st.armed && t.rcvSz == st.rcvSz
            else if LongPart(st, seg, residue) then !t.armed && t.rcvSz == st.rcvSz
            else TakesFirstFitting(st.(armed := false), reactions, t)
  {
    ReactArms(st, reactions);
    ReactArms(st.(armed := false), reactions);
  }

  /** Whether a receive buffer is armed afterwards: used up by a message, or by one too long, unless armed again. */
  lemma ArmedIsExact(st: Rcv, seg: SmsSeg, residue: seq<byte>)
    requires Tidy(st) && 2 <= |residue|
    ensures Receive(st, seg, residue, []).0.armed <==> st.armed && Receive(st, seg, residue, []).1 == []
  {}

  /** While a concatenated message is in progress, other traffic does not touch it. */
  lemma OtherTrafficLeavesPathAlone(st: Rcv, input: Input)
    requires st.path.inProgress
    requires match input
             case Segment(seg, _, _) => seg.numSeg <= 1 || seg.refNo != st.path.cref || !st.armed
             case Maintain(overdue) => !overdue
             case Supply(_) => true
    ensures Step(st, input).0.path == st.path
  {
    if input.Segment? {
      ReactKeepsPath(st.(armed := false), input.reactions);
    }
  }

  lemma {:induction false} ReactKeepsPath(st: Rcv, reactions: seq<Reaction>)
    ensures React(st, reactions).path == st.path
    ensures st.rcvSz <= PROTO_MAX_MSG_SZ ==> React(st, reactions).rcvSz <= PROTO_MAX_MSG_SZ
    decreases |reactions|
  {
    if reactions != [] {
      ReactKeepsPath(st, reactions[..|reactions| - 1]);
    }
  }

  // ----- Every delivered concatenated message is assembled from segments 1..n of one reference number

  ghost predicate IsSegment(inputs: seq<Input>, k: int, refNo: int) {
    0 <= k < |inputs| && inputs[k].Segment? && 2 <= |inputs[k].residue| && inputs[k].seg.numSeg > 1 &&
    inputs[k].seg.refNo == refNo
  }

  /** `at[j]` is where segment j + 1 of the message arrived. */
  ghost predicate InOrder(inputs: seq<Input>, at: seq<nat>, refNo: int) {
    && (forall j :: 0 <= j < |at| ==> IsSegment(inputs, at[j], refNo) && inputs[at[j]].seg.seqNo == j + 1)
    && (forall j :: 0 < j < |at| ==> at[j - 1] < at[j])
  }

  /** Since the first piece, a segment of that reference was left out only when no receive buffer was armed. */
  ghost predicate NoneSkipped(inputs: seq<Input>, at: seq<nat>, refNo: int) {
    |at| > 0 ==>
      forall k :: at[0] <= k < |inputs| && IsSegment(inputs, k, refNo) && k !in at ==> !Run(inputs[..k]).armed
  }

  function Pieces(inputs: seq<Input>, at: seq<nat>): seq<seq<byte>> {
    seq(|at|, j requires 0 <= j < |at| =>
      if at[j] < |inputs| && inputs[at[j]].Segment? then inputs[at[j]].seg.payload else [])
  }

  /** The first piece opened the message: right version, and the service the message is delivered to. */
  ghost predicate OpenedBy(inputs: seq<Input>, k: nat, service: byte) {
    && k < |inputs| && inputs[k].Segment? && 2 <= |inputs[k].residue|
    && var mem := inputs[k].seg.payload + inputs[k].residue;
       mem[0] == SMSNAS_VERSION && mem[1] == service
  }

  ghost predicate AssembledFrom(inputs: seq<Input>, at: seq<nat>, refNo: int, service: byte, bytes: seq<byte>) {
    && 0 < |at|
    && InOrder(inputs, at, refNo)
    && NoneSkipped(inputs, at, refNo)
    && OpenedBy(inputs, at[0], service)
    && bytes == Concat(Pieces(inputs, at))
  }

  ghost predicate PathIs(inputs: seq<Input>, at: seq<nat>) {
    var st := Run(inputs);
    && st.rcvSz <= PROTO_MAX_MSG_SZ
    && |at| == st.path.curSeq
    && if st.path.inProgress then
         AssembledFrom(inputs, at, st.path.cref, st.path.service, st.path.partial)
       else
         st.path.partial == [] && st.path.curSeq == 0
  }

  lemma ConcatOne(p: seq<byte>)
    ensures Concat([p]) == p
  {
    assert [p][..0] == [];
  }

  /** One more input leaves what was said about the earlier ones standing. */
  lemma {:induction false} Extended(
      inputs: seq<Input>, next: Input, at: seq<nat>, refNo: int, service: byte, bytes: seq<byte>)
    requires AssembledFrom(inputs, at, refNo, service, bytes)
    requires IsSegment([next], 0, refNo) ==> !Run(inputs).armed
    ensures AssembledFrom(inputs + [next], at, refNo, service, bytes)
  {
    var more := inputs + [next];
    forall j | 0 <= j < |at|
      ensures IsSegment(more, at[j], refNo) && more[at[j]] == inputs[at[j]]
    {
      assert IsSegment(inputs, at[j], refNo);
    }
    assert Pieces(more, at) == Pieces(inputs, at);
    forall k | at[0] <= k < |more| && IsSegment(more, k, refNo) && k !in at
      ensures !Run(more[..k]).armed
    {
      assert more[..k] == inputs[..k];
      if k < |inputs| {
        assert IsSegment(inputs, k, refNo);
      } else {
        assert inputs[..k] == inputs && IsSegment([next], 0, refNo);
      }
    }
    assert IsSegment(inputs, at[0], refNo);
  }

  lemma JoinedInOrder(inputs: seq<Input>, next: Input, at: seq<nat>, refNo: int)
    requires InOrder(inputs, at, refNo) && IsSegment([next], 0, refNo) && next.seg.seqNo == |at| + 1
    ensures InOrder(inputs + [next], at + [|inputs|], refNo)
    ensures Pieces(inputs + [next], at + [|inputs|]) == Pieces(inputs, at) + [next.seg.payload]
  {
    var more := inputs + [next];
    forall j | 0 <= j < |at|
      ensures IsSegment(more, at[j], refNo) && more[at[j]] == inputs[at[j]]
    {
      assert IsSegment(inputs, at[j], refNo);
    }
    assert IsSegment(more, |inputs|, refNo);
  }

  lemma JoinedNoneSkipped(inputs: seq<Input>, next: Input, at: seq<nat>, refNo: int, k: int)
    requires 0 < |at| && NoneSkipped(inputs, at, refNo)
    requires at[0] <= k < |inputs| + 1 && IsSegment(inputs + [next], k, refNo) && k !in at + [|inputs|]
    ensures !Run((inputs + [next])[..k]).armed
  {
    var more, at' := inputs + [next], at + [|inputs|];
    assert at'[|at|] == |inputs|;
    assert forall j :: 0 <= j < |at| ==> at'[j] == at[j];
    assert k < |inputs| && k !in at;
    assert more[..k] == inputs[..k];
    assert IsSegment(inputs, k, refNo);
  }

  /** The next segment in sequence joins the pieces. */
  lemma Joined(inputs: seq<Input>, next: Input, at: seq<nat>, refNo: int, service: byte, bytes: seq<byte>)
    requires AssembledFrom(inputs, at, refNo, service, bytes)
    requires IsSegment([next], 0, refNo) && next.seg.seqNo == |at| + 1
    ensures AssembledFrom(inputs + [next], at + [|inputs|], refNo, service, bytes + next.seg.payload)
  {
    var more, at' := inputs + [next], at + [|inputs|];
    JoinedInOrder(inputs, next, at, refNo);
    assert Pieces(more, at')[..|at|] == Pieces(inputs, at);
    forall k | at'[0] <= k < |more| && IsSegment(more, k, refNo) && k !in at'
      ensures !Run(more[..k]).armed
    {
      JoinedNoneSkipped(inputs, next, at, refNo, k);
    }
  }

  lemma Opened(inputs: seq<Input>, next: Input, service: byte)
    requires next.Segment? && 2 <= |next.residue| && next.seg.numSeg > 1 && next.seg.seqNo == 1
    requires OpenedBy([next], 0, service)
    ensures AssembledFrom(inputs + [next], [|inputs|], next.seg.refNo, service, next.seg.payload)
  {
    var more := inputs + [next];
    assert Pieces(more, [|inputs|]) == [next.seg.payload];
    ConcatOne(next.seg.payload);
    assert IsSegment(more, |inputs|, next.seg.refNo);
    assert [|inputs|][0] == |inputs|;
  }

  lemma RunSnoc(inputs: seq<Input>, next: Input)
    ensures Run(inputs + [next]) == Step(Run(inputs), next).0
  {
    assert (inputs + [next])[..|inputs|] == inputs;
  }

  /** An input that leaves the path as it was. */
  lemma PathStays(inputs: seq<Input>, next: Input, at: seq<nat>)
    requires PathIs(inputs, at)
    requires var st := Run(inputs);
             && Step(st, next).0.path == st.path
             && Step(st, next).0.rcvSz <= PROTO_MAX_MSG_SZ
             && (st.path.inProgress && IsSegment([next], 0, st.path.cref) ==> !st.armed)
    ensures PathIs(inputs + [next], at)
  {
    RunSnoc(inputs, next);
    var p := Run(inputs).path;
    if p.inProgress {
      Extended(inputs, next, at, p.cref, p.service, p.partial);
    }
  }

  lemma PathStarts(inputs: seq<Input>, next: Input, at: seq<nat>) returns (at': seq<nat>)
    requires PathIs(inputs, at) && Run(inputs).armed && !Run(inputs).path.inProgress
    requires next.Segment? && 2 <= |next.residue| && next.seg.numSeg > 1
    ensures PathIs(inputs + [next], at')
  {
    RunSnoc(inputs, next);
    var st := Run(inputs);
    var mem := next.seg.payload + next.residue;
    ReactKeepsPath(st, next.reactions);
    at' := [];
    if Step(st, next).0.path.inProgress {
      at' := [|inputs|];
      Opened(inputs, next, mem[1]);
    }
  }

  lemma PathGrows(inputs: seq<Input>, next: Input, at: seq<nat>) returns (at': seq<nat>)
    requires PathIs(inputs, at) && Run(inputs).armed && Run(inputs).path.inProgress
    requires IsSegment([next], 0, Run(inputs).path.cref)
    ensures PathIs(inputs + [next], at')
    ensures var (st, evs) := Step(Run(inputs), next);
            evs != [] && evs[0].Message? ==>
              && next.seg.seqNo == next.seg.numSeg == |at| + 1 <= MAX_CONC_SMS_NUM
              && AssembledFrom(inputs + [next], at + [|inputs|], next.seg.refNo, evs[0].service, evs[0].bytes)
  {
    RunSnoc(inputs, next);
    var st := Run(inputs);
    ReactKeepsPath(st, next.reactions);
    ReactKeepsPath(st.(armed := false), next.reactions);
    at' := [];
    if next.seg.seqNo == st.path.curSeq + 1 {
      Joined(inputs, next, at, st.path.cref, st.path.service, st.path.partial);
      if Step(st, next).0.path.inProgress {
        at' := at + [|inputs|];
      }
    }
  }

  lemma PathKept(inputs: seq<Input>, next: Input, at: seq<nat>) returns (at': seq<nat>)
    requires PathIs(inputs, at)
    ensures PathIs(inputs + [next], at')
  {
    var st := Run(inputs);
    if next.Segment? && 2 <= |next.residue| && st.armed && next.seg.numSeg > 1 && !st.path.inProgress {
      at' := PathStarts(inputs, next, at);
    } else if st.path.inProgress && st.armed && IsSegment([next], 0, st.path.cref) {
      at' := PathGrows(inputs, next, at);
    } else if next.Maintain? && next.overdue && st.path.inProgress {
      RunSnoc(inputs, next);
      at' := [];
    } else {
      if next.Segment? {
        ReactKeepsPath(st.(armed := false), next.reactions);
      }
      PathStays(inputs, next, at);
      at' := at;
    }
  }

  /** In every reachable state the partial buffer is the concatenation of segments 1..curSeq of its reference. */
  lemma {:induction false} PathIsAssembled(inputs: seq<Input>) returns (at: seq<nat>)
    ensures PathIs(inputs, at)
  {
    at := [];
    if inputs != [] {
      var front, next := inputs[..|inputs| - 1], inputs[|inputs| - 1];
      at := PathIsAssembled(front);
      at := PathKept(front, next, at);
      assert front + [next] == inputs;
    }
  }

  /**
   * Every concatenated message any run delivers is the in-order concatenation of segments 1..n, n at most 4, of one
   * reference number, the last of which announced n parts, with none skipped while a receive buffer was armed.
   */
  lemma DeliveredIsAssembled(inputs: seq<Input>, last: Input) returns (at: seq<nat>)
    requires last.Segment? && last.seg.numSeg > 1
    requires var evs := Step(Run(inputs), last).1; evs != [] && evs[0].Message?
    ensures var evs := Step(Run(inputs), last).1;
            && |evs| == 1
            && |at| == last.seg.numSeg <= MAX_CONC_SMS_NUM && at[|at| - 1] == |inputs|
            && AssembledFrom(inputs + [last], at, last.seg.refNo, evs[0].service, evs[0].bytes)
  {
    var before := PathIsAssembled(inputs);
    assert IsSegment([last], 0, Run(inputs).path.cref);
    var _ := PathGrows(inputs, last, before);
    at := before + [|inputs|];
  }

  /** A buffer is handed a message only while armed, and no message is longer than the buffer that was armed. */
  lemma DeliveriesFit(inputs: seq<Input>, last: Input)
    requires var evs := Step(Run(inputs), last).1; evs != [] && evs[0].Message?
    ensures Run(inputs).armed && |Step(Run(inputs), last).1[0].bytes| <= Run(inputs).rcvSz <= PROTO_MAX_MSG_SZ
  {
    var _ := PathIsAssembled(inputs);
  }
}
