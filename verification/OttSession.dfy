/**
 * The OTT session machine as a function of what the network and the application's callbacks do. The callbacks may
 * re-enter through the acknowledge and reject calls.
 */
module OttSession {
  import opened Bytes
  import opened OttFraming

  // ----- The environment

  /** One call of the TLS read: nothing yet, the peer's close notice, an error, bytes, or end of stream. */
  datatype Read = WouldBlock | PeerClosed(closedCleanly: bool) | Broken | Data(bytes: seq<byte>) | Eof

  /** What the application does from inside a callback. */
  datatype Act = Ack | Nack

  /** What it does in the callbacks that one received message, or one time-out, leads to. */
  datatype Reaction = Reaction(onMsg: seq<Act>, onSend: seq<Act>, onQuit: seq<Act>)

  /**
   * How an attempt to connect goes: the socket is freed, it is left open because the server's name could not be set,
   * or there is a channel, over which the authentication message is written or not.
   */
  datatype Connect = Refused | NameNotSet | Connected(authWritten: bool)

  /**
   * What lies ahead: results of the TLS read, reactions, connection attempts, and outcomes of message writes. A list
   * that has run out stands for silence until the time-out, no reaction, a refused connection, or a failed write.
   */
  datatype Env = Env(inbox: seq<Read>, reactions: seq<Reaction>, connects: seq<Connect>, writes: seq<bool>)

  function NextReaction(env: Env): Reaction {
    if env.reactions == [] then Reaction([], [], []) else env.reactions[0]
  }

  function AfterReaction(env: Env): Env {
    if env.reactions == [] then env else env.(reactions := env.reactions[1..])
  }

  // ----- The session

  datatype Event = RcvdMsg(bytes: seq<byte>) | RcvdAck | RcvdNack | SendTimeout | RcvdQuit

  /** The socket under the channel: none, one in use, or one that a failed attempt has left open. */
  datatype Socket = NoSocket | InUse | LeftBehind

  /**
   * The session record, the receive buffer, channel and socket, and logs of command bytes and callbacks. `owed` is not
   * in the code: the application has acknowledged something, and since then no byte that says so has been sent, the
   * cloud has acknowledged nothing, and the session has not been reset.
   */
  datatype Session = Session(
    connDone: bool, authDone: bool, pendBit: bool, pendAck: bool, nackSent: bool, sendCb: bool,
    rx: Rx, open: bool, socket: Socket, commands: seq<byte>, events: seq<Event>, owed: bool)

  const NO_FLAGS: Flags := Flags(false, false, false, false)
  const NACK_QUIT: Flags := Flags(true, false, false, true)
  const QUIT: Flags := Flags(false, false, false, true)

  function Written(s: Session, f: Flags, mType: nat): Session
    requires mType < 16
  {
    s.(commands := s.commands + [Command(f, mType)], owed := s.owed && !f.ack)
  }

  function SendCtrl(s: Session, f: Flags): Session {
    if FlagsAreValid(f) then Written(s, f, MT_NONE) else s
  }

  function Closed(s: Session): Session {
    s.(open := false, socket := NoSocket)
  }

  function Reset(s: Session): Session {
    s.(connDone := false, authDone := false, pendBit := false, pendAck := false, nackSent := false, sendCb := false,
       owed := false)
  }

  function InitiateQuit(s: Session, sendNack: bool): Session {
    if !s.connDone || !s.authDone then s
    else Reset(Closed(SendCtrl(s, if sendNack then NACK_QUIT else QUIT)))
  }

  function SendNack(s: Session): Session {
    InitiateQuit(s, true).(nackSent := true)
  }

  function Acknowledged(s: Session): Session {
    s.(pendAck := true, owed := true)
  }

  /** The calls an application makes inside one callback, in order. */
  function Perform(s: Session, acts: seq<Act>): Session {
    if acts == [] then s
    else
      var before := Perform(s, acts[..|acts| - 1]);
      match acts[|acts| - 1]
      case Ack => Acknowledged(before)
      case Nack => SendNack(before)
  }

  function Notify(s: Session, e: Event, acts: seq<Act>): Session {
    Perform(s.(events := s.events + [e]), acts)
  }

  /** The send callback is only called when one is registered at that moment. */
  function NotifySender(s: Session, e: Event, acts: seq<Act>, invoke: bool): Session {
    if invoke && s.sendCb then Notify(s, e, acts) else s
  }

  function HasBody(cmd: byte): bool {
    LoadType(cmd) == MT_UPDATE || LoadType(cmd) == MT_CMD_SL || LoadType(cmd) == MT_CMD_PI
  }

  /** A message with a body is shown to the application, a command in the guise of a service message. */
  function ShowBody(s: Session, length: nat, acts: seq<Act>): Session
    requires 4 <= |s.rx.buf|
  {
    var b, n := Presented(s.rx.buf), PresentedLength(s.rx.buf, length);
    Notify(s.(rx := Rx(b, s.rx.recvd)), RcvdMsg(b[..Min(n, |b|)]), acts)
  }

  /** A message in the buffer that acknowledges the last one sent, and may carry something itself. */
  function ProcessAck(s: Session, length: nat, invoke: bool, r: Reaction): Session
    requires 4 <= |s.rx.buf|
  {
    var acked := s.(authDone := true, pendAck := false, owed := false);
    var told := if HasBody(s.rx.buf[0]) then ShowBody(acked, length, r.onMsg) else acked;
    NotifySender(told, RcvdAck, r.onSend, invoke)
  }

  /** A message in the buffer, or what is left there of an earlier one after end of stream. */
  function Process(s: Session, length: nat, invoke: bool, r: Reaction): (Session, bool)
    requires 4 <= |s.rx.buf|
  {
    var f := LoadFlags(s.rx.buf[0]);
    var noted := s.(pendBit := f.pending);
    var answered :=
      if f.ack then ProcessAck(noted, length, invoke, r)
      else if f.nack then NotifySender(noted, RcvdNack, r.onSend, invoke)
      else noted;
    (if f.quit then Notify(Reset(Closed(answered)), RcvdQuit, r.onQuit) else answered, f.ack || !f.nack)
  }

  datatype Outcome = Nothing | Message(length: nat) | Failed

  /** A closed channel has nothing to deliver. */
  function Effective(s: Session, read: Read): Read {
    if s.open || read == WouldBlock then read else Broken
  }

  /** What is still to be read when some bytes of a record are left over. */
  function Unread(bytes: seq<byte>, rest: seq<Read>): seq<Read> {
    if bytes == [] then rest else [Data(bytes)] + rest
  }

  /** An invalid message is answered with a rejection, and the channel is closed. */
  function Judged(s: Session, got: Retrieved): (Outcome, Session) {
    match got
    case NoMsg => (Nothing, s)
    case Complete(length) => (Message(length), s)
    case Invalid => (Failed, Closed(SendCtrl(s, NACK_QUIT)))
  }

  /**
   * Bytes are there: as many as fit are taken, and the message is judged. With no room a read of no bytes succeeds,
   * leaves them in the channel, and passes for end of stream.
   */
  function RetrieveData(s: Session, bytes: seq<byte>, rest: seq<Read>): (Outcome, Session, seq<Read>)
    requires 4 <= |s.rx.buf| && s.rx.recvd <= |s.rx.buf|
  {
    var n := Min(|s.rx.buf| - s.rx.recvd, |bytes|);
    if n == 0 then (Message(0), s, Unread(bytes, rest))
    else
      var (got, rx) := Accept(s.rx, bytes[..n]);
      var (outcome, t) := Judged(s.(rx := rx), got);
      (outcome, t, Unread(bytes[n..], rest))
  }

  /** One attempt to retrieve a message; bytes that do not fit the buffer stay with the channel. */
  function Retrieve(s: Session, inbox: seq<Read>): (Outcome, Session, seq<Read>)
    requires inbox != []
  {
    var rest, room := inbox[1..], |s.rx.buf| - s.rx.recvd;
    if |s.rx.buf| < 4 || |s.rx.buf| > PROTO_MAX_MSG_SZ || room < 0 then (Failed, s, rest)
    else
      match Effective(s, inbox[0])
      case WouldBlock => (Nothing, s, rest)
      case PeerClosed(cleanly) => (if cleanly then Nothing else Failed, Closed(s), rest)
      case Broken => (Failed, s, rest)
      case Eof => (Message(0), s, rest)
      case Data(bytes) => RetrieveData(s, bytes, rest)
  }

  function Volume(inbox: seq<Read>): nat {
    if inbox == [] then 0
    else Volume(inbox[1..]) + (if inbox[0].Data? then |inbox[0].bytes| else 0)
  }

  lemma UnreadVolume(bytes: seq<byte>, rest: seq<Read>)
    ensures Volume(Unread(bytes, rest)) == Volume(rest) + |bytes|
    ensures |Unread(bytes, rest)| <= |rest| + 1
    ensures bytes == [] ==> |Unread(bytes, rest)| == |rest|
  {
    if bytes != [] {
      assert Unread(bytes, rest)[1..] == rest;
    }
  }

  lemma DataConsumes(s: Session, bytes: seq<byte>, rest: seq<Read>)
    requires 4 <= |s.rx.buf| && s.rx.recvd <= |s.rx.buf|
    ensures var (outcome, t, left) := RetrieveData(s, bytes, rest);
            && Volume(left) + |left| <= Volume(rest) + |bytes| + |rest| + 1
            && (outcome == Nothing ==> Volume(left) + |left| < Volume(rest) + |bytes| + |rest| + 1)
  {
    var n := Min(|s.rx.buf| - s.rx.recvd, |bytes|);
    UnreadVolume(bytes, rest);
    UnreadVolume(bytes[n..], rest);
  }

  lemma RetrieveConsumes(s: Session, inbox: seq<Read>)
    requires inbox != []
    ensures var (outcome, t, left) := Retrieve(s, inbox);
            && Volume(left) + |left| <= Volume(inbox) + |inbox|
            && (outcome == Nothing ==> Volume(left) + |left| < Volume(inbox) + |inbox|)
  {
    assert Volume(inbox) == Volume(inbox[1..]) + (if inbox[0].Data? then |inbox[0].bytes| else 0);
    if s.open && inbox[0].Data? && 4 <= |s.rx.buf| <= PROTO_MAX_MSG_SZ && s.rx.recvd <= |s.rx.buf| {
      BytesAreRetrieved(s, inbox);
      DataConsumes(s, inbox[0].bytes, inbox[1..]);
    } else {
      OtherwiseOneIsUsed(s, inbox);
    }
  }

  lemma BytesAreRetrieved(s: Session, inbox: seq<Read>)
    requires s.open && inbox != [] && inbox[0].Data? && 4 <= |s.rx.buf| <= PROTO_MAX_MSG_SZ
    requires s.rx.recvd <= |s.rx.buf|
    ensures Retrieve(s, inbox) == RetrieveData(s, inbox[0].bytes, inbox[1..])
  {}

  lemma OtherwiseOneIsUsed(s: Session, inbox: seq<Read>)
    requires inbox != []
    requires !(s.open && inbox[0].Data? && 4 <= |s.rx.buf| <= PROTO_MAX_MSG_SZ && s.rx.recvd <= |s.rx.buf|)
    ensures Retrieve(s, inbox).2 == inbox[1..]
  {}

  /** Waits for a response and processes it. The result says that a message came and was not a rejection. */
  function Receive(s: Session, env: Env, invoke: bool): (Session, Env, bool)
    decreases Volume(env.inbox) + |env.inbox|
  {
    if env.inbox == [] then
      (NotifySender(s, SendTimeout, NextReaction(env).onSend, invoke), AfterReaction(env), false)
    else
      var (outcome, t, left) := Retrieve(s, env.inbox);
      RetrieveConsumes(s, env.inbox);
      match outcome
      case Failed => (t, env.(inbox := left), false)
      case Nothing => Receive(t, env.(inbox := left), invoke)
      case Message(length) =>
        var (u, ok) := Process(t, length, invoke, NextReaction(env));
        (u, AfterReaction(env.(inbox := left)), ok)
  }

  function Budget(env: Env): nat {
    Volume(env.inbox) + |env.inbox|
  }

  /** Waits for a response, and ends the session with a rejection when none comes or it is itself a rejection. */
  function Await(s: Session, env: Env, invoke: bool): (Session, Env, bool) {
    var (u, env', ok) := Receive(s, env, invoke);
    (if ok then u else InitiateQuit(u, true), env', ok)
  }

  /** Over a new channel the first thing sent is the authentication message; without PENDING when only polling. */
  function Opened(s: Session, polling: bool): Session {
    var flags := if polling then NO_FLAGS else NO_FLAGS.(pending := true);
    Written(s.(open := true, socket := InUse, connDone := true), flags, MT_AUTH)
  }

  /** Authenticates over a channel just opened. */
  function Authenticate(s: Session, env: Env, written: bool, polling: bool): (Session, Env, bool) {
    if written then Await(Opened(s, polling), env, false)
    else (InitiateQuit(Opened(s, polling), false), env, false)
  }

  /** An attempt that fails frees the socket, or leaves the new one open. */
  function NotConnected(s: Session, c: Connect): Session {
    Closed(s).(socket := if c == NameNotSet then LeftBehind else NoSocket)
  }

  /** One attempt to connect and authenticate. */
  function Attempt(s: Session, env: Env, polling: bool): (Session, Env, bool) {
    if env.connects == [] then (NotConnected(s, Refused), env, false)
    else
      var rest := env.(connects := env.connects[1..]);
      match env.connects[0]
      case Connected(authWritten) => Authenticate(s, rest, authWritten, polling)
      case _ => (NotConnected(s, env.connects[0]), rest, false)
  }

  /** Connects and authenticates, over again while the application rejects what comes back. */
  function Establish(s: Session, env: Env, polling: bool): (Session, Env, bool)
    decreases |env.connects|
  {
    var (u, env', ok) := Attempt(s, env, polling);
    AttemptUsesUp(s, env, polling);
    if !ok then (u, env', false)
    else if u.nackSent then Establish(u.(nackSent := false), env', polling)
    else if polling && !u.connDone then (u.(authDone := false), env', false)
    else (u, env', true)
  }

  lemma AttemptUsesUp(s: Session, env: Env, polling: bool)
    ensures Attempt(s, env, polling).2 ==> |Attempt(s, env, polling).1.connects| < |env.connects|
  {
    if env.connects != [] {
      ReceiveKeepsConnects(Opened(s, polling), env.(connects := env.connects[1..]), false);
    }
  }

  lemma {:induction false} ReceiveKeepsConnects(s: Session, env: Env, invoke: bool)
    ensures Receive(s, env, invoke).1.connects == env.connects
    ensures Budget(Receive(s, env, invoke).1) <= Budget(env)
    ensures |Receive(s, env, invoke).1.reactions| <= |env.reactions|
    decreases Budget(env)
  {
    if env.inbox != [] {
      var (outcome, t, left) := Retrieve(s, env.inbox);
      RetrieveConsumes(s, env.inbox);
      if outcome == Nothing {
        ReceiveKeepsConnects(t, env.(inbox := left), invoke);
      }
    }
  }

  datatype Result = ProtoOk | ProtoError | ProtoInvParam

  function AfterWrite(env: Env): Env {
    if env.writes == [] then env else env.(writes := env.writes[1..])
  }

  /** Writes a message that acknowledges what is owed and says that more comes. */
  function WriteMsg(s: Session, env: Env, mType: nat): (Session, Env, Result)
    requires mType < 16
  {
    var w := Written(s, Flags(false, s.pendAck, true, false), mType);
    (w, AfterWrite(env), if env.writes != [] && env.writes[0] then ProtoOk else ProtoError)
  }

  /** A status message has a bounded size, passed on in 16 bits. */
  function WriteStatus(s: Session, env: Env, size: nat): (Session, Env, Result) {
    if size % 0x10000 > PROTO_DATA_SZ then (s, env, ProtoInvParam) else WriteMsg(s, env, MT_STATUS)
  }

  /** Waits for the answer to a message; `cb` says whether the application supplied a send callback. */
  function Answered(s: Session, env: Env, cb: bool): (Session, Env, Result) {
    var (u, env', ok) := Await(s.(sendCb := cb, pendAck := false), env, true);
    if ok then (u.(nackSent := false), env', ProtoOk) else (u, env', ProtoError)
  }

  /** What follows a write: the wait for its answer, or the end of the session. */
  function AfterWriting(w: Session, env: Env, res: Result, cb: bool): (Session, Env, Result) {
    if res != ProtoOk then (InitiateQuit(w, false), env, res) else Answered(w, env, cb)
  }

  /** What is sent in a session: a status message of some size, or the request to have the configuration sent again. */
  datatype Outgoing = Status(size: nat) | Restarted

  function SendInSession(s: Session, env: Env, m: Outgoing, cb: bool): (Session, Env, Result) {
    var (w, env', res) := if m.Status? then WriteStatus(s, env, m.size) else WriteMsg(s, env, MT_RESTARTED);
    AfterWriting(w, env', res, cb)
  }

  /** Sends it in a session established for it if there is none. */
  function SendOut(s: Session, env: Env, m: Outgoing, cb: bool): (Session, Env, Result) {
    var (t, env', up) := if s.authDone then (s, env, true) else Establish(s, env, false);
    if !up then (t, env', ProtoError) else SendInSession(t, env', m, cb)
  }

  /** Where the application addresses a message; of the control service's only one kind can be sent. */
  datatype Service = Basic | Control(resend: bool) | Other

  function SendMsg(s: Session, env: Env, size: nat, svc: Service, cb: bool): (Session, Env, Result) {
    if size == 0 then (s, env, ProtoInvParam)
    else
      match svc
      case Basic => SendOut(s, env, Status(size), cb)
      case Control(resend) => if resend then SendOut(s, env, Restarted, cb) else (s, env, ProtoInvParam)
      case Other => (s, env, ProtoInvParam)
  }

  /** One round of the maintenance loop while more is announced: acknowledge what is owed, and fetch. */
  function Round(s: Session, env: Env): (Session, Env, bool) {
    var (u, env', ok) := Await(SendCtrl(s, Flags(false, s.pendAck, false, false)), env, true);
    (if ok then u.(nackSent := false) else u, env', ok)
  }

  /** A round brings the loop nearer its end, unless nothing was read or decided and more is still announced. */
  predicate Progress(env: Env, u: Session, env': Env) {
    Budget(env') < Budget(env) || |env'.reactions| < |env.reactions| || !u.pendBit
  }

  lemma RoundUsesUp(s: Session, env: Env)
    ensures var env' := Round(s, env).1; Budget(env') <= Budget(env) && |env'.reactions| <= |env.reactions|
  {
    ReceiveKeepsConnects(SendCtrl(s, Flags(false, s.pendAck, false, false)), env, true);
  }

  function Steps(s: Session): nat {
    if s.pendBit then 1 else 0
  }

  /**
   * The maintenance loop: answer, and fetch, until neither side has anything left. The last component says whether the
   * loop ends; a round without progress would be repeated for ever.
   */
  function Drain(s: Session, env: Env): (Session, Env, bool)
    decreases Budget(env), |env.reactions|, Steps(s)
  {
    if !s.pendBit && !s.pendAck then (s, env, true)
    else if !s.pendBit then (Reset(Closed(SendCtrl(s, Flags(false, s.pendAck, false, true)))), env, true)
    else
      var (u, env', ok) := Round(s, env);
      RoundUsesUp(s, env);
      if !ok then (u, env', true)
      else if Progress(env, u, env') then Drain(u, env')
      else (u, env', false)
  }

  function Maintain(s: Session, env: Env, pollDue: bool): (Session, Env, bool) {
    if s.authDone then Drain(s, env)
    else if !pollDue then (s, env, true)
    else
      var (t, env', up) := Establish(s, env, true);
      if up then Drain(t, env') else (t, env', true)
  }

  // ----- The session invariant

  ghost predicate CommandsValid(commands: seq<byte>) {
    forall i :: 0 <= i < |commands| ==> FlagsAreValid(LoadFlags(commands[i]))
  }

  /**
   * An open channel, an authenticated session and an announced message each mean that a connection was made; so does
   * a socket, unless a failed attempt has left it behind. An acknowledgement that is owed is not forgotten.
   */
  ghost predicate Inv(s: Session) {
    && (s.open ==> s.connDone && s.socket == InUse)
    && (s.socket == InUse ==> s.connDone)
    && (s.authDone ==> s.connDone)
    && (s.pendBit ==> s.connDone)
    && (s.owed ==> s.pendAck)
    && CommandsValid(s.commands)
  }

  lemma WrittenKeeps(s: Session, f: Flags, mType: nat)
    requires CommandsValid(s.commands) && FlagsAreValid(f) && mType < 16
    ensures CommandsValid(Written(s, f, mType).commands)
  {
    CommandReadsBack(f, mType);
  }

  lemma QuitKeeps(s: Session, sendNack: bool)
    requires Inv(s)
    ensures Inv(InitiateQuit(s, sendNack))
  {
    WrittenKeeps(s, if sendNack then NACK_QUIT else QUIT, MT_NONE);
  }

  lemma {:induction false} PerformKeeps(s: Session, acts: seq<Act>)
    requires Inv(s)
    ensures Inv(Perform(s, acts))
  {
    if acts != [] {
      PerformKeeps(s, acts[..|acts| - 1]);
      QuitKeeps(Perform(s, acts[..|acts| - 1]), true);
    }
  }

  lemma NotifySenderKeeps(s: Session, e: Event, acts: seq<Act>, invoke: bool)
    requires Inv(s)
    ensures Inv(NotifySender(s, e, acts, invoke))
  {
    PerformKeeps(s.(events := s.events + [e]), acts);
  }

  lemma ProcessAckKeeps(s: Session, length: nat, invoke: bool, r: Reaction)
    requires Inv(s) && s.connDone && 4 <= |s.rx.buf|
    ensures Inv(ProcessAck(s, length, invoke, r))
  {
    var acked := s.(authDone := true, pendAck := false, owed := false);
    var b, n := Presented(s.rx.buf), PresentedLength(s.rx.buf, length);
    var e := RcvdMsg(b[..Min(n, |b|)]);
    PerformKeeps(acked.(rx := Rx(b, s.rx.recvd), events := acked.events + [e]), r.onMsg);
    NotifySenderKeeps(
      if HasBody(s.rx.buf[0]) then ShowBody(acked, length, r.onMsg) else acked, RcvdAck, r.onSend, invoke);
  }

  lemma ProcessKeeps(s: Session, length: nat, invoke: bool, r: Reaction)
    requires Inv(s) && s.connDone && 4 <= |s.rx.buf|
    ensures Inv(Process(s, length, invoke, r).0)
  {
    var f := LoadFlags(s.rx.buf[0]);
    var noted := s.(pendBit := f.pending);
    ProcessAckKeeps(noted, length, invoke, r);
    NotifySenderKeeps(noted, RcvdNack, r.onSend, invoke);
    var answered :=
      if f.ack then ProcessAck(noted, length, invoke, r)
      else if f.nack then NotifySender(noted, RcvdNack, r.onSend, invoke)
      else noted;
    var closed := Reset(Closed(answered));
    PerformKeeps(closed.(events := closed.events + [RcvdQuit]), r.onQuit);
  }

  /** Retrieving leaves the session's state alone, sends at most a rejection, and may close the channel. */
  ghost predicate Touched(s: Session, t: Session) {
    && t.connDone == s.connDone && t.authDone == s.authDone && t.pendBit == s.pendBit
    && t.pendAck == s.pendAck && (t.owed ==> s.owed)
    && (t.open ==> s.open) && (t.socket == s.socket || (t.socket == NoSocket && !t.open))
    && (t.commands == s.commands || t.commands == SendCtrl(s, NACK_QUIT).commands)
  }

  lemma JudgedTouches(s: Session, got: Retrieved)
    ensures var t := Judged(s, got).1; Touched(s, t) && t.rx == s.rx
  {}

  lemma DataTouches(s: Session, bytes: seq<byte>, rest: seq<Read>)
    requires 4 <= |s.rx.buf| && s.rx.recvd <= |s.rx.buf|
    ensures var t := RetrieveData(s, bytes, rest).1; Touched(s, t) && 4 <= |t.rx.buf|
  {
    var n := Min(|s.rx.buf| - s.rx.recvd, |bytes|);
    if n > 0 {
      var (got, rx) := Accept(s.rx, bytes[..n]);
      JudgedTouches(s.(rx := rx), got);
      var t := Judged(s.(rx := rx), got).1;
      assert RetrieveData(s, bytes, rest).1 == t;
      assert SendCtrl(s.(rx := rx), NACK_QUIT).commands == SendCtrl(s, NACK_QUIT).commands;
    }
  }

  lemma RetrieveTouches(s: Session, inbox: seq<Read>)
    requires inbox != []
    ensures var (outcome, t, left) := Retrieve(s, inbox);
            Touched(s, t) && (outcome.Message? ==> s.open && 4 <= |t.rx.buf|)
  {
    if s.open && inbox[0].Data? && 4 <= |s.rx.buf| <= PROTO_MAX_MSG_SZ && s.rx.recvd <= |s.rx.buf| {
      DataTouches(s, inbox[0].bytes, inbox[1..]);
      BytesAreRetrieved(s, inbox);
    } else {
      OtherReadsTouch(s, inbox);
    }
  }

  lemma OtherReadsTouch(s: Session, inbox: seq<Read>)
    requires inbox != []
    requires !(s.open && inbox[0].Data? && 4 <= |s.rx.buf| <= PROTO_MAX_MSG_SZ && s.rx.recvd <= |s.rx.buf|)
    ensures var (outcome, t, left) := Retrieve(s, inbox);
            t in {s, Closed(s)} && (outcome.Message? ==> s.open && 4 <= |s.rx.buf|)
  {}

  lemma RetrieveKeeps(s: Session, inbox: seq<Read>)
    requires Inv(s) && inbox != []
    ensures Inv(Retrieve(s, inbox).1)
  {
    RetrieveTouches(s, inbox);
    WrittenKeeps(s, NACK_QUIT, MT_NONE);
  }

  lemma {:induction false} ReceiveKeeps(s: Session, env: Env, invoke: bool)
    requires Inv(s)
    ensures Inv(Receive(s, env, invoke).0)
    decreases Budget(env)
  {
    if env.inbox == [] {
      NotifySenderKeeps(s, SendTimeout, NextReaction(env).onSend, invoke);
    } else {
      var (outcome, t, left) := Retrieve(s, env.inbox);
      RetrieveConsumes(s, env.inbox);
      RetrieveKeeps(s, env.inbox);
      RetrieveTouches(s, env.inbox);
      match outcome
      case Nothing => ReceiveKeeps(t, env.(inbox := left), invoke);
      case Message(length) => ProcessKeeps(t, length, invoke, NextReaction(env));
      case Failed =>
    }
  }

  lemma AwaitKeeps(s: Session, env: Env, invoke: bool)
    requires Inv(s)
    ensures Inv(Await(s, env, invoke).0)
  {
    ReceiveKeeps(s, env, invoke);
    QuitKeeps(Receive(s, env, invoke).0, true);
  }

  lemma OpenedKeeps(s: Session, polling: bool)
    requires Inv(s)
    ensures Inv(Opened(s, polling))
  {
    var flags := if polling then NO_FLAGS else NO_FLAGS.(pending := true);
    WrittenKeeps(s.(open := true, socket := InUse, connDone := true), flags, MT_AUTH);
  }

  lemma AuthenticateKeeps(s: Session, env: Env, written: bool, polling: bool)
    requires Inv(s)
    ensures Inv(Authenticate(s, env, written, polling).0)
  {
    OpenedKeeps(s, polling);
    QuitKeeps(Opened(s, polling), false);
    AwaitKeeps(Opened(s, polling), env, false);
  }

  lemma NotConnectedKeeps(s: Session, c: Connect)
    requires Inv(s)
    ensures Inv(NotConnected(s, c))
  {}

  lemma AttemptKeeps(s: Session, env: Env, polling: bool)
    requires Inv(s)
    ensures Inv(Attempt(s, env, polling).0)
  {
    if env.connects != [] && env.connects[0].Connected? {
      AuthenticateKeeps(s, env.(connects := env.connects[1..]), env.connects[0].authWritten, polling);
    } else {
      NotConnectedKeeps(s, if env.connects == [] then Refused else env.connects[0]);
    }
  }

  lemma {:induction false} EstablishKeeps(s: Session, env: Env, polling: bool)
    requires Inv(s)
    ensures Inv(Establish(s, env, polling).0)
    decreases |env.connects|
  {
    AttemptKeeps(s, env, polling);
    AttemptUsesUp(s, env, polling);
    var (u, env', ok) := Attempt(s, env, polling);
    if ok && u.nackSent {
      EstablishKeeps(u.(nackSent := false), env', polling);
    }
  }

  lemma SendInSessionKeeps(s: Session, env: Env, m: Outgoing, cb: bool)
    requires Inv(s)
    ensures Inv(SendInSession(s, env, m, cb).0)
  {
    WrittenKeeps(s, Flags(false, s.pendAck, true, false), if m.Status? then MT_STATUS else MT_RESTARTED);
    var (w, env', res) := if m.Status? then WriteStatus(s, env, m.size) else WriteMsg(s, env, MT_RESTARTED);
    QuitKeeps(w, false);
    if res == ProtoOk {
      AwaitKeeps(w.(sendCb := cb, pendAck := false), env', true);
    }
  }

  lemma SendOutKeeps(s: Session, env: Env, m: Outgoing, cb: bool)
    requires Inv(s)
    ensures Inv(SendOut(s, env, m, cb).0)
  {
    EstablishKeeps(s, env, false);
    var (t, env', up) := if s.authDone then (s, env, true) else Establish(s, env, false);
    SendInSessionKeeps(t, env', m, cb);
  }

  lemma MaintainKeeps(s: Session, env: Env, pollDue: bool)
    requires Inv(s)
    ensures Inv(Maintain(s, env, pollDue).0)
  {
    EstablishKeeps(s, env, true);
    DrainKeeps(s, env);
    var (t, env', up) := Establish(s, env, true);
    DrainKeeps(t, env');
  }

  lemma RoundKeeps(s: Session, env: Env)
    requires Inv(s)
    ensures Inv(Round(s, env).0)
  {
    WrittenKeeps(s, Flags(false, s.pendAck, false, false), MT_NONE);
    AwaitKeeps(SendCtrl(s, Flags(false, s.pendAck, false, false)), env, true);
  }

  lemma {:induction false} DrainKeeps(s: Session, env: Env)
    requires Inv(s)
    ensures Inv(Drain(s, env).0)
    decreases Budget(env), |env.reactions|, Steps(s)
  {
    if s.pendBit {
      RoundKeeps(s, env);
      RoundUsesUp(s, env);
      var (u, env', ok) := Round(s, env);
      if ok && Progress(env, u, env') {
        DrainKeeps(u, env');
      }
    } else {
      WrittenKeeps(s, Flags(false, s.pendAck, false, true), MT_NONE);
    }
  }

  /** A call into the protocol. */
  datatype Call =
    | Send(size: nat, svc: Service, cb: bool)
    | Resend(cb: bool)
    | Maintenance(pollDue: bool)
    | Acknowledge
    | Reject
    | Leave(nack: bool)

  function Step(s: Session, call: Call, env: Env): Session {
    match call
    case Send(size, svc, cb) => SendMsg(s, env, size, svc, cb).0
    case Resend(cb) => SendOut(s, env, Restarted, cb).0
    case Maintenance(pollDue) => Maintain(s, env, pollDue).0
    case Acknowledge => Acknowledged(s)
    case Reject => SendNack(s)
    case Leave(nack) => InitiateQuit(s, nack)
  }

  lemma StepKeeps(s: Session, call: Call, env: Env)
    requires Inv(s)
    ensures Inv(Step(s, call, env))
  {
    match call
    case Send(size, svc, cb) => SendOutKeeps(s, env, if svc.Basic? then Status(size) else Restarted, cb);
    case Resend(cb) => SendOutKeeps(s, env, Restarted, cb);
    case Maintenance(pollDue) => MaintainKeeps(s, env, pollDue);
    case Acknowledge =>
    case Reject => QuitKeeps(s, true);
    case Leave(nack) => QuitKeeps(s, nack);
  }

  function Initial(buf: seq<byte>): Session {
    Session(false, false, false, false, false, false, Rx(buf, 0), false, NoSocket, [], [], false)
  }

  function Run(buf: seq<byte>, calls: seq<(Call, Env)>): Session {
    if calls == [] then Initial(buf)
    else Step(Run(buf, calls[..|calls| - 1]), calls[|calls| - 1].0, calls[|calls| - 1].1)
  }

  /** The invariant holds after any calls, whatever the network does and however the callbacks re-enter. */
  lemma {:induction false} EveryRunKeeps(buf: seq<byte>, calls: seq<(Call, Env)>)
    ensures Inv(Run(buf, calls))
  {
    if calls != [] {
      EveryRunKeeps(buf, calls[..|calls| - 1]);
      StepKeeps(Run(buf, calls[..|calls| - 1]), calls[|calls| - 1].0, calls[|calls| - 1].1);
    }
  }

  // ----- What is sent, byte by byte

  lemma QuitExtends(s: Session, sendNack: bool)
    ensures s.commands <= InitiateQuit(s, sendNack).commands
  {}

  lemma {:induction false} PerformExtends(s: Session, acts: seq<Act>)
    ensures s.commands <= Perform(s, acts).commands
  {
    if acts != [] {
      PerformExtends(s, acts[..|acts| - 1]);
      QuitExtends(Perform(s, acts[..|acts| - 1]), true);
    }
  }

  lemma NotifySenderExtends(s: Session, e: Event, acts: seq<Act>, invoke: bool)
    ensures s.commands <= NotifySender(s, e, acts, invoke).commands
  {
    PerformExtends(s.(events := s.events + [e]), acts);
  }

  lemma ProcessAckExtends(s: Session, length: nat, invoke: bool, r: Reaction)
    requires 4 <= |s.rx.buf|
    ensures s.commands <= ProcessAck(s, length, invoke, r).commands
  {
    var acked := s.(authDone := true, pendAck := false, owed := false);
    var b, n := Presented(s.rx.buf), PresentedLength(s.rx.buf, length);
    PerformExtends(acked.(rx := Rx(b, s.rx.recvd), events := acked.events + [RcvdMsg(b[..Min(n, |b|)])]), r.onMsg);
    NotifySenderExtends(
      if HasBody(s.rx.buf[0]) then ShowBody(acked, length, r.onMsg) else acked, RcvdAck, r.onSend, invoke);
  }

  lemma ProcessExtends(s: Session, length: nat, invoke: bool, r: Reaction)
    requires 4 <= |s.rx.buf|
    ensures s.commands <= Process(s, length, invoke, r).0.commands
  {
    var f := LoadFlags(s.rx.buf[0]);
    var noted := s.(pendBit := f.pending);
    ProcessAckExtends(noted, length, invoke, r);
    NotifySenderExtends(noted, RcvdNack, r.onSend, invoke);
    var answered :=
      if f.ack then ProcessAck(noted, length, invoke, r)
      else if f.nack then NotifySender(noted, RcvdNack, r.onSend, invoke)
      else noted;
    var closed := Reset(Closed(answered));
    PerformExtends(closed.(events := closed.events + [RcvdQuit]), r.onQuit);
  }

  lemma SendCtrlExtends(s: Session, f: Flags)
    ensures s.commands <= SendCtrl(s, f).commands
  {}

  lemma RetrieveExtends(s: Session, inbox: seq<Read>)
    requires inbox != []
    ensures s.commands <= Retrieve(s, inbox).1.commands
  {
    RetrieveTouches(s, inbox);
    SendCtrlExtends(s, NACK_QUIT);
  }

  lemma {:induction false} ReceiveExtends(s: Session, env: Env, invoke: bool)
    ensures s.commands <= Receive(s, env, invoke).0.commands
    decreases Budget(env)
  {
    if env.inbox == [] {
      NotifySenderExtends(s, SendTimeout, NextReaction(env).onSend, invoke);
    } else {
      var (outcome, t, left) := Retrieve(s, env.inbox);
      RetrieveConsumes(s, env.inbox);
      RetrieveExtends(s, env.inbox);
      match outcome
      case Nothing => ReceiveExtends(t, env.(inbox := left), invoke);
      case Message(length) =>
        RetrieveTouches(s, env.inbox);
        ProcessExtends(t, length, invoke, NextReaction(env));
      case Failed =>
    }
  }

  lemma AwaitExtends(s: Session, env: Env, invoke: bool)
    ensures s.commands <= Await(s, env, invoke).0.commands
  {
    ReceiveExtends(s, env, invoke);
    QuitExtends(Receive(s, env, invoke).0, true);
  }

  /** Leaving a session sends one byte, which says whether that is a rejection; outside one it does nothing. */
  lemma QuitSays(s: Session, sendNack: bool)
    ensures var t := InitiateQuit(s, sendNack);
            if s.connDone && s.authDone then
              t.commands == s.commands + [if sendNack then 0x90 else 0x80] && !t.open && !t.connDone && !t.pendAck
            else t == s
  {}

  /** A message is sent with its type, announces more, and acknowledges exactly what is owed. */
  lemma MessageSays(s: Session, env: Env, m: Outgoing, cb: bool)
    requires m.Status? ==> m.size <= 509
    ensures s.commands + [(if s.pendAck then 0x60 else 0x40) + (if m.Status? then 2 else 4)]
            <= SendInSession(s, env, m, cb).0.commands
  {
    var (w, env', res) := if m.Status? then WriteStatus(s, env, m.size) else WriteMsg(s, env, MT_RESTARTED);
    QuitExtends(w, false);
    AwaitExtends(w.(sendCb := cb, pendAck := false), env', true);
  }

  /** The same of a call into an authenticated session. */
  lemma SendSays(s: Session, env: Env, size: nat, svc: Service, cb: bool)
    requires s.authDone && 0 < size && (svc == Basic ==> size <= 509) && (svc == Basic || svc == Control(true))
    ensures s.commands + [(if s.pendAck then 0x60 else 0x40) + (if svc == Basic then 2 else 4)]
            <= SendMsg(s, env, size, svc, cb).0.commands
  {
    MessageSays(s, env, if svc == Basic then Status(size) else Restarted, cb);
  }

  /** Over a new channel the authentication message goes first, and announces a message to come unless polling. */
  lemma ConnectionSays(s: Session, env: Env, polling: bool)
    requires env.connects != [] && env.connects[0].Connected?
    ensures s.commands + [if polling then 0x01 else 0x41] <= Attempt(s, env, polling).0.commands
  {
    var t := Opened(s, polling);
    assert t.commands == s.commands + [if polling then 0x01 else 0x41];
    QuitExtends(t, false);
    AwaitExtends(t, env.(connects := env.connects[1..]), false);
  }

  /** An attempt that does not get as far as a channel sends nothing, and leaves no channel. */
  lemma NoConnectionSays(s: Session, env: Env, polling: bool)
    requires env.connects == [] || !env.connects[0].Connected?
    ensures var (t, env', ok) := Attempt(s, env, polling);
            !ok && t.commands == s.commands && t.events == s.events && !t.open && t.authDone == s.authDone
  {}

  lemma AttemptExtends(s: Session, env: Env, polling: bool)
    ensures s.commands <= Attempt(s, env, polling).0.commands
  {
    if env.connects != [] && env.connects[0].Connected? {
      ConnectionSays(s, env, polling);
    } else {
      NoConnectionSays(s, env, polling);
    }
  }

  lemma {:induction false} EstablishExtends(s: Session, env: Env, polling: bool)
    ensures Attempt(s, env, polling).0.commands <= Establish(s, env, polling).0.commands
    decreases |env.connects|
  {
    AttemptUsesUp(s, env, polling);
    var (u, env', ok) := Attempt(s, env, polling);
    if ok && u.nackSent {
      EstablishExtends(u.(nackSent := false), env', polling);
      AttemptExtends(u.(nackSent := false), env', polling);
    }
  }

  lemma WaitExtends(w: Session, env: Env, res: Result, cb: bool)
    ensures w.commands <= AfterWriting(w, env, res, cb).0.commands
  {
    QuitExtends(w, false);
    AwaitExtends(w.(sendCb := cb, pendAck := false), env, true);
  }

  lemma SendInSessionExtends(s: Session, env: Env, m: Outgoing, cb: bool)
    ensures s.commands <= SendInSession(s, env, m, cb).0.commands
  {
    var (w, env', res) := if m.Status? then WriteStatus(s, env, m.size) else WriteMsg(s, env, MT_RESTARTED);
    WaitExtends(w, env', res, cb);
  }

  /** A send outside a session connects first, and its authentication announces the message to come. */
  lemma SendConnectsFirst(s: Session, env: Env, m: Outgoing, cb: bool)
    requires !s.authDone && env.connects != [] && env.connects[0].Connected?
    ensures s.commands + [0x41] <= SendOut(s, env, m, cb).0.commands
  {
    ConnectionSays(s, env, false);
    EstablishExtends(s, env, false);
    var (t, env', up) := Establish(s, env, false);
    SendInSessionExtends(t, env', m, cb);
  }

  lemma {:induction false} DrainExtends(s: Session, env: Env)
    ensures s.commands <= Drain(s, env).0.commands
    decreases Budget(env), |env.reactions|, Steps(s)
  {
    if s.pendBit {
      RoundSays(s, env);
      RoundUsesUp(s, env);
      var (u, env', ok) := Round(s, env);
      if ok && Progress(env, u, env') {
        DrainExtends(u, env');
      }
    } else if s.pendAck {
      LastRoundSays(s, env);
    }
  }

  /** A poll that is due connects, and announces nothing. */
  lemma PollSays(s: Session, env: Env)
    requires !s.authDone && env.connects != [] && env.connects[0].Connected?
    ensures s.commands + [0x01] <= Maintain(s, env, true).0.commands
  {
    ConnectionSays(s, env, true);
    EstablishExtends(s, env, true);
    var (t, env', up) := Establish(s, env, true);
    DrainExtends(t, env');
  }

  /** While more is announced the loop sends a byte that acknowledges what is owed, and nothing else. */
  lemma RoundSays(s: Session, env: Env)
    ensures s.commands + [if s.pendAck then 0x20 else 0x00] <= Round(s, env).0.commands
  {
    AwaitExtends(SendCtrl(s, Flags(false, s.pendAck, false, false)), env, true);
  }

  /** With nothing more announced it acknowledges, ends the session with the same byte, and closes. */
  lemma LastRoundSays(s: Session, env: Env)
    requires !s.pendBit && s.pendAck
    ensures var (t, env', ends) := Drain(s, env);
            && ends && env' == env && t.commands == s.commands + [0xA0]
            && !t.open && t.socket == NoSocket && !t.connDone && !t.authDone && !t.pendAck && t.events == s.events
  {}

  /** A message judged invalid is answered with a rejection that ends the session, and nobody is told. */
  lemma RefusalSays(s: Session)
    ensures var (outcome, t) := Judged(s, Invalid);
            outcome == Failed && t.commands == s.commands + [0x90] && !t.open && t.events == s.events
  {}

  /** Over every run: an acknowledgement that the application has asked for and that is still owed is pending. */
  lemma OwedIsNotForgotten(buf: seq<byte>, calls: seq<(Call, Env)>)
    ensures Run(buf, calls).owed ==> Run(buf, calls).pendAck
  {
    EveryRunKeeps(buf, calls);
  }

  /** What makes an acknowledgement owed, and what discharges it. */
  lemma OwedMeans(s: Session, f: Flags, mType: nat)
    requires mType < 16
    ensures Perform(s, [Ack]).owed && Step(s, Acknowledge, Env([], [], [], [])).owed
    ensures Written(s, f, mType).owed <==> s.owed && LoadFlags(Written(s, f, mType).commands[|s.commands|]).ack == false
    ensures !Reset(s).owed
  {
    CommandReadsBack(f, mType);
    assert [Ack][..0] == [];
  }

  // ----- A message in pieces, through a whole wait

  /** The bytes that a series of reads brings. */
  function Payload(pieces: seq<Read>): seq<byte> {
    if pieces == [] then [] else (if pieces[0].Data? then pieces[0].bytes else []) + Payload(pieces[1..])
  }

  /** Reads that bring a message: pieces of it with pauses between them, the last piece at the end. */
  ghost predicate Bring(pieces: seq<Read>) {
    && pieces != []
    && pieces[|pieces| - 1].Data?
    && forall i :: 0 <= i < |pieces| ==> pieces[i] == WouldBlock || (pieces[i].Data? && pieces[i].bytes != [])
  }

  lemma {:induction false} BringsSomething(pieces: seq<Read>)
    requires Bring(pieces)
    ensures Payload(pieces) != []
  {
    if pieces[0] == WouldBlock {
      BringsSomething(pieces[1..]);
    }
  }

  /** The session with a complete message at the front of its buffer. */
  function Holding(s: Session, m: seq<byte>): Session
    requires |m| <= |s.rx.buf|
  {
    s.(rx := Rx(m + s.rx.buf[|m|..], 0))
  }

  lemma PieceIsTaken(s: Session, front: seq<byte>, bytes: seq<byte>, more: seq<byte>, rest: seq<Read>)
    requires 4 <= |s.rx.buf| <= PROTO_MAX_MSG_SZ && Holds(s.rx, |s.rx.buf|, front)
    requires bytes != [] && IsMessage(front + bytes + more) && |front + bytes + more| <= |s.rx.buf|
    ensures var (outcome, t, left) := RetrieveData(s, bytes, rest);
            && left == rest
            && if more == [] then outcome == Message(|front + bytes|) && t == Holding(s, front + bytes)
               else && outcome == Nothing && t == s.(rx := Store(s.rx, bytes))
                    && Holds(t.rx, |s.rx.buf|, front + bytes)
                    && t.rx.buf[|front + bytes|..] == s.rx.buf[|front + bytes|..]
  {
    var m := front + bytes + more;
    assert bytes[..|bytes|] == bytes && bytes[|bytes|..] == [];
    StoreHolds(s.rx, |s.rx.buf|, front, bytes);
    var stored := Store(s.rx, bytes);
    assert m[..|front + bytes|] == front + bytes;
    CompleteExactlyAtEnd(stored.buf, m, stored.recvd);
  }

  lemma HoldingBehind(s: Session, t: Session, k: nat, m: seq<byte>)
    requires k <= |m| <= |s.rx.buf| == |t.rx.buf| && t == s.(rx := t.rx) && t.rx.buf[k..] == s.rx.buf[k..]
    ensures Holding(t, m) == Holding(s, m)
  {
    assert t.rx.buf[|m|..] == t.rx.buf[k..][|m| - k..];
    assert s.rx.buf[|m|..] == s.rx.buf[k..][|m| - k..];
  }

  lemma PauseIsSkipped(s: Session, env: Env, invoke: bool)
    requires 4 <= |s.rx.buf| <= PROTO_MAX_MSG_SZ && s.rx.recvd <= |s.rx.buf|
    requires env.inbox != [] && env.inbox[0] == WouldBlock
    ensures Receive(s, env, invoke) == Receive(s, env.(inbox := env.inbox[1..]), invoke)
  {}

  /** What a wait comes to that takes in the message `m` and leaves the reads `rest`. */
  function TakenIn(s: Session, m: seq<byte>, rest: seq<Read>, env: Env, invoke: bool): (Session, Env, bool)
    requires |m| <= |s.rx.buf| && 4 <= |s.rx.buf|
  {
    var (u, ok) := Process(Holding(s, m), |m|, invoke, NextReaction(env));
    (u, AfterReaction(env.(inbox := rest)), ok)
  }

  lemma LastPiece(s: Session, front: seq<byte>, bytes: seq<byte>, rest: seq<Read>, env: Env, invoke: bool)
    requires s.open && 4 <= |s.rx.buf| <= PROTO_MAX_MSG_SZ && Holds(s.rx, |s.rx.buf|, front)
    requires bytes != [] && IsMessage(front + bytes) && |front + bytes| <= |s.rx.buf|
    requires env.inbox == [Data(bytes)] + rest
    ensures Receive(s, env, invoke) == TakenIn(s, front + bytes, rest, env, invoke)
  {
    assert front + bytes + [] == front + bytes && env.inbox[1..] == rest;
    PieceIsTaken(s, front, bytes, [], rest);
    assert Retrieve(s, env.inbox) == RetrieveData(s, bytes, rest);
  }

  lemma EarlierPiece(
      s: Session, front: seq<byte>, bytes: seq<byte>, more: seq<byte>, left: seq<Read>, env: Env, invoke: bool)
    requires s.open && 4 <= |s.rx.buf| <= PROTO_MAX_MSG_SZ && Holds(s.rx, |s.rx.buf|, front)
    requires bytes != [] && more != [] && IsMessage(front + bytes + more) && |front + bytes + more| <= |s.rx.buf|
    requires env.inbox == [Data(bytes)] + left
    ensures var t := s.(rx := Store(s.rx, bytes));
            && Receive(s, env, invoke) == Receive(t, env.(inbox := left), invoke)
            && Holds(t.rx, |s.rx.buf|, front + bytes)
            && Holding(t, front + bytes + more) == Holding(s, front + bytes + more)
  {
    assert env.inbox[1..] == left;
    PieceIsTaken(s, front, bytes, more, left);
    assert Retrieve(s, env.inbox) == RetrieveData(s, bytes, left);
    HoldingBehind(s, s.(rx := Store(s.rx, bytes)), |front + bytes|, front + bytes + more);
  }

  /**
   * However a message is cut up and whatever pauses come between the pieces, one wait takes in exactly that message,
   * processes it, and leaves what follows it in the stream alone.
   */
  lemma {:induction false} ReceiveTakesWholeMessage(
      s: Session, front: seq<byte>, pieces: seq<Read>, rest: seq<Read>, env: Env, invoke: bool)
    requires s.open && 4 <= |s.rx.buf| <= PROTO_MAX_MSG_SZ && Holds(s.rx, |s.rx.buf|, front)
    requires Bring(pieces) && env.inbox == pieces + rest
    requires IsMessage(front + Payload(pieces)) && |front + Payload(pieces)| <= |s.rx.buf|
    ensures Receive(s, env, invoke) == TakenIn(s, front + Payload(pieces), rest, env, invoke)
    decreases |pieces|
  {
    var later := pieces[1..];
    assert env.inbox[1..] == later + rest;
    assert env.inbox == [pieces[0]] + (later + rest);
    if pieces[0] == WouldBlock {
      assert Payload(pieces) == Payload(later);
      PauseIsSkipped(s, env, invoke);
      ReceiveTakesWholeMessage(s, front, later, rest, env.(inbox := later + rest), invoke);
    } else if later == [] {
      assert later + rest == rest && Payload(pieces) == pieces[0].bytes + Payload(later) == pieces[0].bytes;
      LastPiece(s, front, pieces[0].bytes, rest, env, invoke);
    } else {
      var bytes := pieces[0].bytes;
      assert front + Payload(pieces) == front + bytes + Payload(later);
      BringsSomething(later);
      EarlierPiece(s, front, bytes, Payload(later), later + rest, env, invoke);
      var t := s.(rx := Store(s.rx, bytes));
      ReceiveTakesWholeMessage(t, front + bytes, later, rest, env.(inbox := later + rest), invoke);
    }
  }

  // ----- The maintenance loop ends with nothing owed

  /** Connected and authenticated: what a quit requires before it does anything. */
  predicate Up(s: Session) {
    s.connDone && s.authDone
  }

  /** Neither side has anything left to say. */
  predicate Clear(s: Session) {
    !s.pendBit && !s.pendAck
  }

  ghost predicate AckAfterNack(acts: seq<Act>) {
    exists i, j :: 0 <= i < j < |acts| && acts[i] == Nack && acts[j] == Ack
  }

  /** The application does not acknowledge what it has just rejected, nor a session that has just ended. */
  ghost predicate Quiet(r: Reaction) {
    Ack !in r.onQuit && !AckAfterNack(r.onSend)
  }

  ghost predicate AllQuiet(env: Env) {
    forall r :: r in env.reactions ==> Quiet(r)
  }

  lemma AckAfterNackStep(acts: seq<Act>)
    requires acts != []
    ensures var front, last := acts[..|acts| - 1], acts[|acts| - 1];
            && (AckAfterNack(acts) <==> AckAfterNack(front) || (last == Ack && Nack in front))
            && (Ack in acts <==> Ack in front || last == Ack)
            && (Nack in acts <==> Nack in front || last == Nack)
  {
    var front, last := acts[..|acts| - 1], acts[|acts| - 1];
    assert acts == front + [last];
    if AckAfterNack(front) {
      var i, j :| 0 <= i < j < |front| && front[i] == Nack && front[j] == Ack;
      assert acts[i] == Nack && acts[j] == Ack;
    }
    if last == Ack && Nack in front {
      var i :| 0 <= i < |front| && front[i] == Nack;
      assert acts[i] == Nack && acts[|acts| - 1] == Ack;
    }
    if AckAfterNack(acts) {
      var i, j :| 0 <= i < j < |acts| && acts[i] == Nack && acts[j] == Ack;
      assert acts[i] == front[i];
      if j < |front| {
        assert front[j] == Ack;
      }
    }
  }

  /** What any mixture of acknowledging and rejecting in one callback comes to. */
  lemma {:induction false} PerformMeans(s: Session, acts: seq<Act>)
    ensures var p := Perform(s, acts);
            if Up(s) && Nack in acts then
              !p.connDone && !p.authDone && !p.pendBit && !p.sendCb && p.pendAck == AckAfterNack(acts)
            else
              && p.connDone == s.connDone && p.authDone == s.authDone && p.pendBit == s.pendBit
              && p.sendCb == s.sendCb && p.pendAck == (s.pendAck || Ack in acts)
    ensures Perform(s, acts).events == s.events && Perform(s, acts).rx == s.rx
  {
    if acts != [] {
      PerformMeans(s, acts[..|acts| - 1]);
      AckAfterNackStep(acts);
    }
  }

  /** The one way in which a message that is not acknowledged leaves something owed behind. */
  ghost predicate LeavesAck(s: Session, f: Flags, invoke: bool, r: Reaction) {
    if f.quit then Ack in r.onQuit else invoke && s.sendCb && AckAfterNack(r.onSend)
  }

  /** The acknowledgement branch leaves the session up, or ended with no message announced. */
  lemma ProcessAckSettles(s: Session, length: nat, invoke: bool, r: Reaction)
    requires Up(s) && 4 <= |s.rx.buf|
    ensures var u := ProcessAck(s, length, invoke, r); u.pendBit ==> Up(u)
  {
    var acked := s.(authDone := true, pendAck := false, owed := false);
    var b, n := Presented(s.rx.buf), PresentedLength(s.rx.buf, length);
    PerformMeans(acked.(rx := Rx(b, s.rx.recvd), events := acked.events + [RcvdMsg(b[..Min(n, |b|)])]), r.onMsg);
    var told := if HasBody(s.rx.buf[0]) then ShowBody(acked, length, r.onMsg) else acked;
    assert told.pendBit ==> Up(told);
    PerformMeans(told.(events := told.events + [RcvdAck]), r.onSend);
  }

  /** A report to the sender settles with a quit unless the sender acknowledges after rejecting. */
  lemma ReportSettles(s: Session, e: Event, acts: seq<Act>, invoke: bool)
    requires Up(s)
    ensures Clear(InitiateQuit(NotifySender(s, e, acts, invoke), true)) <==> !(invoke && s.sendCb && AckAfterNack(acts))
  {
    PerformMeans(s.(events := s.events + [e]), acts);
  }

  /**
   * One message in an authenticated session. After one that is accepted, more is expected only while the session is
   * up. After a rejection, quitting settles everything exactly when the callbacks did not acknowledge too late.
   */
  lemma ProcessSettles(s: Session, length: nat, invoke: bool, r: Reaction)
    requires Up(s) && 4 <= |s.rx.buf|
    ensures var (u, ok) := Process(s, length, invoke, r);
            if ok then u.pendBit ==> Up(u)
            else Clear(InitiateQuit(u, true)) <==> !LeavesAck(s, LoadFlags(s.rx.buf[0]), invoke, r)
  {
    var f := LoadFlags(s.rx.buf[0]);
    var noted := s.(pendBit := f.pending);
    ProcessAckSettles(noted, length, invoke, r);
    ReportSettles(noted, RcvdNack, r.onSend, invoke);
    var answered :=
      if f.ack then ProcessAck(noted, length, invoke, r)
      else if f.nack then NotifySender(noted, RcvdNack, r.onSend, invoke)
      else noted;
    var closed := Reset(Closed(answered));
    PerformMeans(closed.(events := closed.events + [RcvdQuit]), r.onQuit);
  }

  lemma {:induction false} ReceiveSettles(s: Session, env: Env, invoke: bool)
    requires Up(s) && AllQuiet(env)
    ensures var (u, env', ok) := Receive(s, env, invoke);
            && (if ok then u.pendBit ==> Up(u) else Clear(InitiateQuit(u, true)))
            && AllQuiet(env')
    decreases Budget(env)
  {
    assert Quiet(NextReaction(env));
    assert AllQuiet(AfterReaction(env));
    if env.inbox == [] {
      ReportSettles(s, SendTimeout, NextReaction(env).onSend, invoke);
    } else {
      var (outcome, t, left) := Retrieve(s, env.inbox);
      RetrieveConsumes(s, env.inbox);
      RetrieveTouches(s, env.inbox);
      match outcome
      case Nothing => ReceiveSettles(t, env.(inbox := left), invoke);
      case Message(length) => ProcessSettles(t, length, invoke, NextReaction(env));
      case Failed =>
    }
  }

  lemma RoundSettles(s: Session, env: Env)
    requires Up(s) && AllQuiet(env)
    ensures var (u, env', ok) := Round(s, env);
            (if ok then u.pendBit ==> Up(u) else Clear(u)) && AllQuiet(env')
  {
    ReceiveSettles(SendCtrl(s, Flags(false, s.pendAck, false, false)), env, true);
  }

  /** Started in a session that is up, the loop, if it ends, leaves no message announced and no acknowledgement owed. */
  lemma {:induction false} DrainEndsClear(s: Session, env: Env)
    requires (s.pendBit ==> Up(s)) && AllQuiet(env)
    ensures Drain(s, env).2 ==> Clear(Drain(s, env).0)
    decreases Budget(env), |env.reactions|, Steps(s)
  {
    if s.pendBit {
      RoundSettles(s, env);
      RoundUsesUp(s, env);
      var (u, env', ok) := Round(s, env);
      if ok && Progress(env, u, env') {
        DrainEndsClear(u, env');
      }
    }
  }

  // ----- The loop that does not end

  /** No room in the receive buffer, bytes in the channel, and no more reactions to come. */
  predicate Stuck(s: Session, env: Env) {
    && s.open && 4 <= |s.rx.buf| <= PROTO_MAX_MSG_SZ && s.rx.recvd == |s.rx.buf|
    && env.inbox != [] && env.inbox[0].Data? && env.inbox[0].bytes != []
    && env.reactions == []
  }

  /** What lies in the buffer announces more and is neither a rejection nor the end. */
  predicate KeepsAnnouncing(cmd: byte) {
    var f := LoadFlags(cmd);
    f.pending && !f.quit && (f.ack || !f.nack)
  }

  /** Nothing was read: the buffer is full and its old contents are processed again. */
  lemma {:induction false} UnreadMeansFull(s: Session, env: Env)
    requires Receive(s, env, true).2 && Budget(Receive(s, env, true).1) == Budget(env)
    ensures env.inbox != [] && env.inbox[0].Data? && env.inbox[0].bytes != []
    ensures s.open && 4 <= |s.rx.buf| <= PROTO_MAX_MSG_SZ && s.rx.recvd == |s.rx.buf|
    ensures var (u, ok) := Process(s, 0, true, NextReaction(env)); Receive(s, env, true) == (u, AfterReaction(env), ok)
  {
    if env.inbox != [] {
      var (outcome, t, left) := Retrieve(s, env.inbox);
      RetrieveConsumes(s, env.inbox);
      if outcome == Nothing {
        ReceiveKeepsConnects(t, env.(inbox := left), true);
      } else if outcome.Message? {
        MessageUnread(s, env.inbox);
      }
    }
  }

  lemma MessageUnread(s: Session, inbox: seq<Read>)
    requires inbox != [] && Retrieve(s, inbox).0.Message?
    requires Volume(Retrieve(s, inbox).2) + |Retrieve(s, inbox).2| == Volume(inbox) + |inbox|
    ensures inbox[0].Data? && inbox[0].bytes != []
    ensures s.open && 4 <= |s.rx.buf| <= PROTO_MAX_MSG_SZ && s.rx.recvd == |s.rx.buf|
    ensures Retrieve(s, inbox) == (Message(0), s, inbox)
  {
    if s.open && inbox[0].Data? {
      var bytes, rest := inbox[0].bytes, inbox[1..];
      var n := Min(|s.rx.buf| - s.rx.recvd, |bytes|);
      UnreadVolume(bytes, rest);
      UnreadVolume(bytes[n..], rest);
      assert inbox == [Data(bytes)] + rest;
    }
  }

  /** With no reactions, processing what announces more changes nothing that matters to the loop. */
  lemma ProcessAgain(s: Session)
    requires 4 <= |s.rx.buf|
    ensures var (u, ok) := Process(s, 0, true, Reaction([], [], []));
            (ok && u.pendBit ==> KeepsAnnouncing(s.rx.buf[0]))
    ensures KeepsAnnouncing(s.rx.buf[0]) ==>
              var (u, ok) := Process(s, 0, true, Reaction([], [], []));
              && ok && u.pendBit && u.open == s.open
              && u.rx.recvd == s.rx.recvd && |u.rx.buf| == |s.rx.buf| && u.rx.buf[0] == s.rx.buf[0]
  {}

  /** Full and announcing more, a round comes back to where it began. */
  lemma StuckRound(s: Session, env: Env)
    requires Stuck(s, env) && KeepsAnnouncing(s.rx.buf[0])
    ensures var (u, env', ok) := Round(s, env);
            ok && env' == env && u.pendBit && Stuck(u, env) && u.rx.buf[0] == s.rx.buf[0]
  {
    var t := SendCtrl(s, Flags(false, s.pendAck, false, false));
    FullReceive(t, env);
    ProcessAgain(t);
  }

  /** A round without progress means just that. */
  lemma NoProgressMeansStuck(s: Session, env: Env)
    requires var (u, env', ok) := Round(s, env); ok && !Progress(env, u, env')
    ensures Stuck(s, env) && KeepsAnnouncing(s.rx.buf[0])
  {
    var t := SendCtrl(s, Flags(false, s.pendAck, false, false));
    RoundUsesUp(s, env);
    UnreadMeansFull(t, env);
    ProcessAgain(t);
  }

  /** So many rounds, one after the other. */
  function Rounds(s: Session, env: Env, n: nat): (Session, Env) {
    if n == 0 then (s, env)
    else
      var (t, e) := Rounds(s, env, n - 1);
      var (u, e', _) := Round(t, e);
      (u, e')
  }

  ghost predicate Rotates(s: Session, env: Env) {
    s.pendBit && Stuck(s, env) && KeepsAnnouncing(s.rx.buf[0])
  }

  lemma StuckOnceMore(s: Session, env: Env)
    requires Rotates(s, env)
    ensures Rotates(Round(s, env).0, env) && Round(s, env).1 == env
  {
    StuckRound(s, env);
  }

  lemma {:induction false} StuckForEver(s: Session, env: Env, n: nat)
    requires Rotates(s, env)
    ensures Rotates(Rounds(s, env, n).0, env) && Rounds(s, env, n).1 == env
  {
    if n > 0 {
      StuckForEver(s, env, n - 1);
      StuckOnceMore(Rounds(s, env, n - 1).0, env);
    }
  }

  /** Where the loop is said not to end, it is stuck, and every further round succeeds and announces more. */
  lemma {:induction false} DrainNeverEnds(s: Session, env: Env)
    requires !Drain(s, env).2
    ensures var (u, e, _) := Drain(s, env);
            && Stuck(u, e) && KeepsAnnouncing(u.rx.buf[0])
            && forall n: nat :: Rounds(u, e, n).0.pendBit && Round(Rounds(u, e, n).0, Rounds(u, e, n).1).2
    decreases Budget(env), |env.reactions|, Steps(s)
  {
    RoundUsesUp(s, env);
    var (u, env', ok) := Round(s, env);
    if Progress(env, u, env') {
      DrainNeverEnds(u, env');
    } else {
      NoProgressMeansStuck(s, env);
      StuckRound(s, env);
      forall n: nat
        ensures Rounds(u, env, n).0.pendBit && Round(Rounds(u, env, n).0, Rounds(u, env, n).1).2
      {
        StuckForEver(u, env, n);
        StuckRound(Rounds(u, env, n).0, env);
      }
    }
  }

  // ----- Maintenance from any state

  lemma {:induction false} ReceiveKeepsQuiet(s: Session, env: Env, invoke: bool)
    requires AllQuiet(env)
    ensures AllQuiet(Receive(s, env, invoke).1)
    decreases Budget(env)
  {
    if env.inbox != [] {
      var (outcome, t, left) := Retrieve(s, env.inbox);
      RetrieveConsumes(s, env.inbox);
      if outcome == Nothing {
        ReceiveKeepsQuiet(t, env.(inbox := left), invoke);
      }
    }
  }

  /**
   * The loop is stranded when it runs without authentication, because the answer to the poll announced more without
   * acknowledging, and a wait fails before an acknowledgement comes or nothing more is announced, and leaves something
   * owed: quitting does nothing then.
   */
  ghost predicate Stranded(s: Session, env: Env)
    decreases Budget(env), |env.reactions|, Steps(s)
  {
    s.pendBit && !s.authDone &&
    var (u, env', ok) := Round(s, env);
    RoundUsesUp(s, env);
    if ok then Progress(env, u, env') && Stranded(u, env') else !Clear(u)
  }

  lemma {:induction false} DrainEndsClearUnlessStranded(s: Session, env: Env)
    requires Inv(s) && AllQuiet(env)
    ensures Drain(s, env).2 ==> (Clear(Drain(s, env).0) <==> !Stranded(s, env))
    decreases Budget(env), |env.reactions|, Steps(s)
  {
    if !s.pendBit || s.authDone {
      DrainEndsClear(s, env);
    } else {
      RoundKeeps(s, env);
      RoundUsesUp(s, env);
      ReceiveKeepsQuiet(SendCtrl(s, Flags(false, s.pendAck, false, false)), env, true);
      var (u, env', ok) := Round(s, env);
      if ok && Progress(env, u, env') {
        DrainEndsClearUnlessStranded(u, env');
      }
    }
  }

  lemma {:induction false} EstablishKeepsQuiet(s: Session, env: Env, polling: bool)
    requires AllQuiet(env)
    ensures AllQuiet(Establish(s, env, polling).1)
    decreases |env.connects|
  {
    AttemptUsesUp(s, env, polling);
    if env.connects != [] {
      ReceiveKeepsQuiet(Opened(s, polling), env.(connects := env.connects[1..]), false);
    }
    var (u, env', ok) := Attempt(s, env, polling);
    if ok && u.nackSent {
      EstablishKeepsQuiet(u.(nackSent := false), env', polling);
    }
  }

  /** Exactly when maintenance that ends does so with nothing owed, from any state and in any course of events. */
  lemma MaintenanceIsExact(s: Session, env: Env, pollDue: bool)
    requires Inv(s) && AllQuiet(env)
    ensures Maintain(s, env, pollDue).2 ==>
              (Clear(Maintain(s, env, pollDue).0) <==>
               if s.authDone then true
               else if !pollDue then Clear(s)
               else var (t, env', up) := Establish(s, env, true); if up then !Stranded(t, env') else Clear(t))
  {
    EstablishKeeps(s, env, true);
    EstablishKeepsQuiet(s, env, true);
    var (t, env', up) := Establish(s, env, true);
    DrainEndsClearUnlessStranded(t, env');
    if s.authDone {
      DrainEndsClear(s, env);
    }
  }

  /** A message of the single byte `cmd`, on its own in the stream's next read. */
  lemma OneByteMessage(s: Session, cmd: byte, rest: seq<Read>, env: Env, invoke: bool)
    requires s.open && 4 <= |s.rx.buf| <= PROTO_MAX_MSG_SZ && s.rx.recvd == 0
    requires LoadType(cmd) == MT_NONE && FlagsAreValid(LoadFlags(cmd)) && env.inbox == [Data([cmd])] + rest
    ensures var (u, ok) := Process(Holding(s, [cmd]), 1, invoke, NextReaction(env));
            Receive(s, env, invoke) == (u, AfterReaction(env.(inbox := rest)), ok)
  {
    var pieces := [Data([cmd])];
    assert Payload(pieces) == [cmd] by { assert Payload(pieces[1..]) == []; }
    assert [] + Payload(pieces) == [cmd];
    ReceiveTakesWholeMessage(s, [], pieces, rest, env, invoke);
  }

  const BLANK: seq<byte> := [0, 0, 0, 0]
  const MORE_COMES: byte := Command(Flags(false, true, true, false), MT_NONE)

  /** The network that acknowledges a connection and a message, announcing more each time. */
  const WELCOMING: Env :=
    Env([Data([MORE_COMES]), Data([MORE_COMES])], [], [Connected(true)], [true])

  lemma WelcomedIsUp()
    ensures var (u, env', up) := Establish(Initial(BLANK), WELCOMING, false);
            && up && Up(u) && u.open && |u.rx.buf| == 4 && u.rx.recvd == 0
            && env' == Env([Data([MORE_COMES])], [], [], [true])
  {
    var t := Opened(Initial(BLANK), false);
    CommandReadsBack(Flags(false, true, true, false), MT_NONE);
    OneByteMessage(t, MORE_COMES, [Data([MORE_COMES])], WELCOMING.(connects := []), false);
  }

  lemma StatusIsAnswered(s: Session)
    requires Up(s) && s.open && |s.rx.buf| == 4 && s.rx.recvd == 0
    ensures var t := SendInSession(s, Env([Data([MORE_COMES])], [], [], [true]), Status(1), true).0;
            && Up(t) && t.open && t.pendBit && t.sendCb && |t.rx.buf| == 4 && t.rx.recvd == 0
  {
    var w := Written(s, Flags(false, s.pendAck, true, false), MT_STATUS).(sendCb := true, pendAck := false);
    CommandReadsBack(Flags(false, true, true, false), MT_NONE);
    OneByteMessage(w, MORE_COMES, [], Env([Data([MORE_COMES])], [], [], []), true);
  }

  /** A session with a message announced, and a send callback that is still registered. */
  lemma OneSendIsEnough()
    ensures var s := Run(BLANK, [(Send(1, Basic, true), WELCOMING)]);
            && Up(s) && s.open && s.pendBit && s.sendCb && |s.rx.buf| == 4 && s.rx.recvd == 0
  {
    assert [(Send(1, Basic, true), WELCOMING)][..0] == [];
    WelcomedIsUp();
    StatusIsAnswered(Establish(Initial(BLANK), WELCOMING, false).0);
  }

  const ONLY_MORE: byte := Command(Flags(false, false, true, false), MT_NONE)

  /** The network that answers a poll by announcing more, without an acknowledgement, and then falls silent. */
  const ANNOUNCING: Env := Env([Data([ONLY_MORE])], [], [Connected(true)], [])

  lemma AnnouncingStrands(s: Session)
    requires !s.authDone && 4 <= |s.rx.buf| <= PROTO_MAX_MSG_SZ && s.rx.recvd == 0
    ensures Maintain(s, ANNOUNCING, true).2 && !Clear(Maintain(s, ANNOUNCING, true).0)
  {
    var t := Opened(s, true);
    CommandReadsBack(Flags(false, false, true, false), MT_NONE);
    OneByteMessage(t, ONLY_MORE, [], ANNOUNCING.(connects := []), false);
    var (u, env', ok) := Attempt(s, ANNOUNCING, true);
    assert ok && u.pendBit && !u.authDone && u.connDone && env' == Env([], [], [], []);
    WaitInVain(u);
    WaitInVain(u.(nackSent := false));
  }

  /** Nothing comes, and without authentication nothing is put in order. */
  lemma WaitInVain(s: Session)
    requires s.pendBit && !s.authDone
    ensures var silence := Env([], [], [], []);
            Drain(s, silence).2 && !Clear(Drain(s, silence).0) && !Clear(Establish(s, silence, true).0)
  {}

  /**
   * For a state in which no message is half received: maintenance that ends leaves nothing owed against every network,
   * for an application that does not acknowledge too late, exactly if the session is authenticated, or nothing was
   * owed and no poll is due.
   */
  lemma MaintenanceAlwaysEndsClear(s: Session, pollDue: bool)
    requires Inv(s) && 4 <= |s.rx.buf| <= PROTO_MAX_MSG_SZ && s.rx.recvd == 0
    ensures (forall env | AllQuiet(env) && Maintain(s, env, pollDue).2 :: Clear(Maintain(s, env, pollDue).0))
            <==> s.authDone || (!pollDue && Clear(s))
  {
    if s.authDone || !pollDue {
      forall env | AllQuiet(env) && Maintain(s, env, pollDue).2
        ensures Clear(Maintain(s, env, pollDue).0) <==> s.authDone || Clear(s)
      {
        MaintenanceIsExact(s, env, pollDue);
      }
      assert AllQuiet(Env([], [], [], []));
    } else {
      AnnouncingStrands(s);
      assert AllQuiet(ANNOUNCING);
    }
  }

  ghost predicate Uses(env: Env, allowed: set<Reaction>) {
    forall r :: r in env.reactions ==> r in allowed
  }

  /** A reaction that is not quiet leaves an acknowledgement owed after the right message. */
  lemma LateAckStays(s: Session, r: Reaction) returns (env: Env)
    requires Up(s) && s.open && s.pendBit && s.sendCb && |s.rx.buf| == 4 && s.rx.recvd == 0 && !Quiet(r)
    ensures Uses(env, {r}) && Drain(s, env).2 && !Clear(Drain(s, env).0)
  {
    var f := Flags(true, false, false, Ack in r.onQuit);
    CommandReadsBack(f, MT_NONE);
    var cmd := Command(f, MT_NONE);
    env := Env([Data([cmd])], [r], [], []);
    var t := SendCtrl(s, Flags(false, s.pendAck, false, false));
    OneByteMessage(t, cmd, [], env, true);
    var held := Holding(t, [cmd]);
    ProcessSettles(held, 1, true, r);
    assert LeavesAck(held, f, true, r);
  }

  /**
   * For any set of ways in which an application may react: maintenance in an authenticated session that ends leaves
   * nothing owed, after every history and against every network, exactly when all of those ways are quiet.
   */
  lemma MaintenanceEndsClearExactlyWhenQuiet(allowed: set<Reaction>)
    ensures (forall buf, calls, env, pollDue | Run(buf, calls).authDone && Uses(env, allowed) ::
              var (u, _, ends) := Maintain(Run(buf, calls), env, pollDue); ends ==> Clear(u))
            <==> (forall r | r in allowed :: Quiet(r))
  {
    if r :| r in allowed && !Quiet(r) {
      OneSendIsEnough();
      var calls := [(Send(1, Basic, true), WELCOMING)];
      var env := LateAckStays(Run(BLANK, calls), r);
      var (u, _, ends) := Maintain(Run(BLANK, calls), env, false);
      assert ends && !Clear(u);
    } else {
      forall buf, calls, env, pollDue | Run(buf, calls).authDone && Uses(env, allowed)
        ensures var (u, _, ends) := Maintain(Run(buf, calls), env, pollDue); ends ==> Clear(u)
      {
        EveryRunKeeps(buf, calls);
        DrainEndsClear(Run(buf, calls), env);
      }
    }
  }

  const ENDLESS_UPDATE: byte := Command(Flags(false, true, true, false), MT_UPDATE)

  /** The front of a long update fills the buffer, and more of it is there. */
  const OVERLONG: Env := Env([Data([ENDLESS_UPDATE, 255, 0, 0]), Data([0])], [], [], [])

  /** After one message, an update that does not fit the receive buffer keeps maintenance busy for ever. */
  lemma OverlongUpdateNeverEnds()
    ensures !Maintain(Run(BLANK, [(Send(1, Basic, true), WELCOMING)]), OVERLONG, false).2
  {
    OneSendIsEnough();
    OverlongDrain(Run(BLANK, [(Send(1, Basic, true), WELCOMING)]));
  }

  lemma OverlongDrain(s: Session)
    requires s.open && s.pendBit && |s.rx.buf| == 4 && s.rx.recvd == 0
    ensures !Drain(s, OVERLONG).2
  {
    OverlongRound(s);
    var (u, env', ok) := Round(s, OVERLONG);
    assert Volume(OVERLONG.inbox[1..]) == Volume([Data([0])]);
    StuckNeverDrains(u, env');
  }

  lemma StuckNeverDrains(s: Session, env: Env)
    requires s.pendBit && Stuck(s, env) && KeepsAnnouncing(s.rx.buf[0])
    ensures !Drain(s, env).2
  {
    StuckRound(s, env);
  }

  lemma OverlongRound(s: Session)
    requires s.open && s.pendBit && |s.rx.buf| == 4 && s.rx.recvd == 0
    ensures var (u, env', ok) := Round(s, OVERLONG);
            && ok && u.pendBit && Stuck(u, env') && KeepsAnnouncing(u.rx.buf[0])
            && env' == OVERLONG.(inbox := [Data([0])])
  {
    var t := SendCtrl(s, Flags(false, s.pendAck, false, false));
    CommandReadsBack(Flags(false, true, true, false), MT_UPDATE);
    var bytes, rest := [ENDLESS_UPDATE, 255, 0, 0], [Data([0])];
    assert OVERLONG.inbox == [Data(bytes)] + rest;
    BufferFills(t, bytes, rest);
    FullReceive(t.(rx := Rx(bytes, 4)), OVERLONG.(inbox := rest));
    ProcessAgain(t.(rx := Rx(bytes, 4)));
  }

  lemma FullReceive(s: Session, env: Env)
    requires Stuck(s, env)
    ensures var (u, ok) := Process(s, 0, true, Reaction([], [], []));
            Receive(s, env, true) == (u, env, ok)
  {
    var bytes, rest := env.inbox[0].bytes, env.inbox[1..];
    assert env.inbox == [Data(bytes)] + rest;
    assert Retrieve(s, env.inbox) == (Message(0), s, env.inbox);
  }

  lemma BufferFills(s: Session, bytes: seq<byte>, rest: seq<Read>)
    requires s.open && |s.rx.buf| == 4 && s.rx.recvd == 0
    requires |bytes| == 4 && LoadType(bytes[0]) == MT_UPDATE && SizeField(bytes) == 255
    ensures Retrieve(s, [Data(bytes)] + rest) == (Nothing, s.(rx := Rx(bytes, 4)), rest)
  {
    assert bytes[..4] == bytes && bytes[4..] == [] && Store(s.rx, bytes).buf == bytes;
    assert ([Data(bytes)] + rest)[1..] == rest;
  }

  /** A socket is open without a connection having been made only if an attempt failed and left it; and that happens. */
  lemma SocketMeansConnectionUnlessLeft(buf: seq<byte>, calls: seq<(Call, Env)>)
    ensures var s := Run(buf, calls); s.socket != NoSocket && !s.connDone ==> s.socket == LeftBehind
  {
    EveryRunKeeps(buf, calls);
  }

  lemma SocketIsLeftBehind()
    ensures var s := Run(BLANK, [(Maintenance(true), Env([], [], [NameNotSet], []))]);
            s.socket == LeftBehind && !s.connDone
  {
    var calls := [(Maintenance(true), Env([], [], [NameNotSet], []))];
    assert calls[..0] == [];
  }

  // ----- Results and events

  /** What a wait without an answer comes to. */
  lemma SilenceMeans(s: Session, env: Env, invoke: bool)
    requires env.inbox == []
    ensures var (u, env', ok) := Receive(s, env, invoke);
            !ok && u.events == s.events + if invoke && s.sendCb then [SendTimeout] else []
  {
    PerformMeans(s.(events := s.events + [SendTimeout]), NextReaction(env).onSend);
  }

  /** Leaving an authenticated session: a quit, with or without a rejection, and nothing of the session is left. */
  lemma LeavingIsExact(s: Session, sendNack: bool)
    ensures InitiateQuit(s, sendNack) ==
            if s.connDone && s.authDone then
              Session(false, false, false, false, false, false, s.rx, false, NoSocket,
                      s.commands + [if sendNack then 0x90 else 0x80], s.events, false)
            else s
  {}

  /** The application calls between messages: acknowledging is put off, rejecting and leaving end the session. */
  lemma CallsAreExact(s: Session, nack: bool, env: Env)
    ensures Step(s, Acknowledge, env) == s.(pendAck := true, owed := true)
    ensures var left := Session(false, false, false, false, false, false, s.rx, false, NoSocket,
                                s.commands + [if nack then 0x90 else 0x80], s.events, false);
            if s.connDone && s.authDone then
              && Step(s, Leave(nack), env) == left
              && (nack ==> Step(s, Reject, env) == left.(nackSent := true))
            else
              Step(s, Leave(nack), env) == s && Step(s, Reject, env) == s.(nackSent := true)
  {
    LeavingIsExact(s, nack);
  }

  /** A wait that fails is followed by a rejection if there is still a session to reject it in. */
  lemma FailedWaitRejects(s: Session, env: Env, invoke: bool)
    ensures var (t, env', ok) := Receive(s, env, invoke);
            var (u, left, good) := Await(s, env, invoke);
            && good == ok && left == env'
            && if ok || !t.connDone || !t.authDone then u == t
               else u.commands == t.commands + [0x90] && !u.open && !u.connDone && !u.authDone && u.events == t.events
  {}

  /** The end of the stream passes for a message of no length: what is in the buffer is processed as it is. */
  lemma StreamEndIsProcessed(s: Session, rest: seq<Read>, env: Env, invoke: bool)
    requires s.open && 4 <= |s.rx.buf| <= PROTO_MAX_MSG_SZ && s.rx.recvd <= |s.rx.buf|
    requires env.inbox == [Eof] + rest
    ensures var (t, env', ok) := Receive(s, env, invoke);
            (t, ok) == Process(s, 0, invoke, NextReaction(env)) && env'.inbox == rest
  {
    assert env.inbox[1..] == rest;
  }

  /** An authentication message that cannot be written ends the session there was, or leaves the new channel open. */
  lemma UnwrittenAuthentication(s: Session, env: Env, polling: bool)
    requires env.connects != [] && env.connects[0] == Connected(false)
    ensures var (u, env', ok) := Attempt(s, env, polling);
            && !ok && env'.inbox == env.inbox && u.events == s.events
            && u.commands == s.commands + [if polling then 0x01 else 0x41] + (if s.authDone then [0x80] else [])
            && u.open == u.connDone == !s.authDone && !u.authDone
  {}

  /** A failed attempt is the last, and so is one that is not rejected; for polling it must have left a connection. */
  lemma OneAttemptIsEnough(s: Session, env: Env, polling: bool)
    requires var (u, env', ok) := Attempt(s, env, polling); ok ==> !u.nackSent
    ensures var (u, env', ok) := Attempt(s, env, polling);
            Establish(s, env, polling) ==
            if ok && polling && !u.connDone then (u.(authDone := false), env', false) else (u, env', ok)
  {}

  /** Once a wait has succeeded, an earlier rejection is forgotten. */
  lemma SuccessForgetsRejection(s: Session, env: Env, m: Outgoing, cb: bool)
    ensures var (u, env', res) := SendInSession(s, env, m, cb); res == ProtoOk ==> !u.nackSent
    ensures var (u, env', ok) := Round(s, env); ok ==> !u.nackSent
  {}

  /** Updates and the two kinds of command are shown to the application. */
  lemma BodiesInFigures(cmd: byte)
    ensures HasBody(cmd) <==> cmd % 16 in {3, 10, 11}
  {}

  /** What the sender's callback hears of a message. */
  function SenderHears(s: Session, f: Flags, body: bool, invoke: bool, r: Reaction): seq<Event> {
    if !invoke || !s.sendCb then []
    else if f.ack then (if body && s.connDone && Nack in r.onMsg then [] else [RcvdAck])
    else if f.nack then [RcvdNack]
    else []
  }

  lemma EventsOfPlainAck(s: Session, length: nat, invoke: bool, r: Reaction)
    requires 4 <= |s.rx.buf| && !HasBody(s.rx.buf[0])
    ensures ProcessAck(s, length, invoke, r).events == s.events + if invoke && s.sendCb then [RcvdAck] else []
  {
    var acked := s.(authDone := true, pendAck := false, owed := false);
    PerformMeans(acked.(events := acked.events + [RcvdAck]), r.onSend);
  }

  lemma EventsOfNack(s: Session, invoke: bool, r: Reaction)
    ensures NotifySender(s, RcvdNack, r.onSend, invoke).events ==
            s.events + if invoke && s.sendCb then [RcvdNack] else []
  {
    PerformMeans(s.(events := s.events + [RcvdNack]), r.onSend);
  }

  lemma EventsOfQuit(s: Session, r: Reaction)
    ensures Notify(Reset(Closed(s)), RcvdQuit, r.onQuit).events == s.events + [RcvdQuit]
  {
    PerformMeans(Reset(Closed(s)).(events := s.events + [RcvdQuit]), r.onQuit);
  }

  lemma EventsOfAcking(s: Session, length: nat, invoke: bool, r: Reaction)
    requires 4 <= |s.rx.buf| && LoadFlags(s.rx.buf[0]).ack
    ensures var f, body := LoadFlags(s.rx.buf[0]), HasBody(s.rx.buf[0]);
            var b, n := Presented(s.rx.buf), PresentedLength(s.rx.buf, length);
            Process(s, length, invoke, r).0.events ==
            s.events + (if body then [RcvdMsg(b[..Min(n, |b|)])] else []) + SenderHears(s, f, body, invoke, r)
            + (if f.quit then [RcvdQuit] else [])
  {
    var noted := s.(pendBit := LoadFlags(s.rx.buf[0]).pending);
    if HasBody(s.rx.buf[0]) {
      EventsOfAck(noted, length, invoke, r);
    } else {
      EventsOfPlainAck(noted, length, invoke, r);
    }
    EventsOfQuit(ProcessAck(noted, length, invoke, r), r);
  }

  lemma EventsOfOther(s: Session, length: nat, invoke: bool, r: Reaction)
    requires 4 <= |s.rx.buf| && !LoadFlags(s.rx.buf[0]).ack
    ensures var f := LoadFlags(s.rx.buf[0]);
            Process(s, length, invoke, r).0.events ==
            s.events + SenderHears(s, f, HasBody(s.rx.buf[0]), invoke, r) + if f.quit then [RcvdQuit] else []
  {
    var f := LoadFlags(s.rx.buf[0]);
    var noted := s.(pendBit := f.pending);
    EventsOfNack(noted, invoke, r);
    EventsOfQuit(if f.nack then NotifySender(noted, RcvdNack, r.onSend, invoke) else noted, r);
  }

  /** Everything a message makes the application hear, in order, and whether it counts as an answer. */
  lemma EventsOfProcess(s: Session, length: nat, invoke: bool, r: Reaction)
    requires 4 <= |s.rx.buf|
    ensures var f, body := LoadFlags(s.rx.buf[0]), HasBody(s.rx.buf[0]);
            var b, n := Presented(s.rx.buf), PresentedLength(s.rx.buf, length);
            var (u, ok) := Process(s, length, invoke, r);
            && (ok <==> f.ack || !f.nack)
            && u.events == s.events + (if f.ack && body then [RcvdMsg(b[..Min(n, |b|)])] else [])
                           + SenderHears(s, f, body, invoke, r) + (if f.quit then [RcvdQuit] else [])
  {
    if LoadFlags(s.rx.buf[0]).ack {
      EventsOfAcking(s, length, invoke, r);
    } else {
      EventsOfOther(s, length, invoke, r);
    }
  }

  /** A broken channel fails a wait at once, and changes nothing. */
  lemma BrokenFails(s: Session, rest: seq<Read>, env: Env, invoke: bool)
    requires s.open && 4 <= |s.rx.buf| <= PROTO_MAX_MSG_SZ && s.rx.recvd <= |s.rx.buf|
    requires env.inbox == [Broken] + rest
    ensures Receive(s, env, invoke) == (s, env.(inbox := rest), false)
  {
    assert env.inbox[1..] == rest;
  }

  /** The peer's close notice closes the channel, and whatever follows it is not read. */
  lemma CloseNoticeFails(s: Session, cleanly: bool, next: Read, rest: seq<Read>, env: Env, invoke: bool)
    requires s.open && 4 <= |s.rx.buf| <= PROTO_MAX_MSG_SZ && s.rx.recvd <= |s.rx.buf| && next != WouldBlock
    requires env.inbox == [PeerClosed(cleanly), next] + rest
    ensures var (t, env', ok) := Receive(s, env, invoke);
            && !ok && t == s.(open := false, socket := NoSocket)
            && env'.inbox == if cleanly then rest else [next] + rest
  {
    assert env.inbox[1..] == [next] + rest && ([next] + rest)[1..] == rest;
  }

  /** The result of a send in an authenticated session, up to the wait. */
  lemma SendResults(s: Session, env: Env, size: nat, svc: Service, cb: bool)
    requires s.authDone
    ensures var (t, env', res) := SendMsg(s, env, size, svc, cb);
            if size == 0 || svc == Other || svc == Control(false) then res == ProtoInvParam && t == s && env' == env
            else if svc == Basic && size % 0x10000 > 509 then res == ProtoInvParam && t == InitiateQuit(s, false)
            else if env.writes == [] || !env.writes[0] then res == ProtoError
            else res == ProtoOk || res == ProtoError
  {}

  /** A wait that finds one byte is a success exactly if that acknowledges, or does not reject. */
  lemma OneByteDecides(s: Session, cmd: byte, rest: seq<Read>, env: Env, invoke: bool)
    requires s.open && 4 <= |s.rx.buf| <= PROTO_MAX_MSG_SZ && s.rx.recvd == 0
    requires cmd % 16 == 0 && FlagsAreValid(LoadFlags(cmd)) && env.inbox == [Data([cmd])] + rest
    ensures Receive(s, env, invoke).2 <==> cmd / 32 % 2 == 1 || cmd / 16 % 2 == 0
  {
    OneByteMessage(s, cmd, rest, env, invoke);
  }

  /** The result of a send is that of the wait for its answer. */
  lemma WaitDecides(s: Session, env: Env, m: Outgoing, cb: bool)
    requires (m.Status? ==> m.size <= 509) && env.writes != [] && env.writes[0]
    ensures exists t: Session :: t.open == s.open && t.rx == s.rx &&
                        (SendInSession(s, env, m, cb).2 == ProtoOk <==> Receive(t, AfterWrite(env), true).2)
  {
    var (w, env', res) := if m.Status? then WriteStatus(s, env, m.size) else WriteMsg(s, env, MT_RESTARTED);
    var t := w.(sendCb := cb, pendAck := false);
    assert t.open == s.open && t.rx == s.rx && env' == AfterWrite(env) && res == ProtoOk;
    assert SendInSession(s, env, m, cb).2 == ProtoOk <==> Receive(t, AfterWrite(env), true).2;
  }

  /** After an answer of one byte a send succeeds exactly if it acknowledges or does not reject; after silence never. */
  lemma AnswerDecides(s: Session, env: Env, m: Outgoing, cb: bool, cmd: byte, rest: seq<Read>)
    requires s.open && 4 <= |s.rx.buf| <= PROTO_MAX_MSG_SZ && s.rx.recvd == 0
    requires (m.Status? ==> m.size <= 509) && env.writes != [] && env.writes[0]
    requires cmd % 16 == 0 && FlagsAreValid(LoadFlags(cmd))
    ensures env.inbox == [Data([cmd])] + rest ==>
              (SendInSession(s, env, m, cb).2 == ProtoOk <==> cmd / 32 % 2 == 1 || cmd / 16 % 2 == 0)
    ensures env.inbox == [] ==> SendInSession(s, env, m, cb).2 != ProtoOk
  {
    WaitDecides(s, env, m, cb);
    var t: Session :| t.open == s.open && t.rx == s.rx &&
             (SendInSession(s, env, m, cb).2 == ProtoOk <==> Receive(t, AfterWrite(env), true).2);
    if env.inbox == [Data([cmd])] + rest {
      OneByteDecides(t, cmd, rest, AfterWrite(env), true);
    } else if env.inbox == [] {
      SilenceMeans(t, AfterWrite(env), true);
    }
  }

  /** A message of one byte with contradictory flags is refused. */
  lemma InvalidByteIsRefused(s: Session, cmd: byte, rest: seq<Read>, env: Env, invoke: bool)
    requires s.open && 4 <= |s.rx.buf| <= PROTO_MAX_MSG_SZ && s.rx.recvd == 0
    requires cmd % 16 == 0 && !FlagsAreValid(LoadFlags(cmd)) && env.inbox == [Data([cmd])] + rest
    ensures var (t, env', ok) := Receive(s, env, invoke);
            && !ok && t.commands == s.commands + [0x90] && !t.open && t.events == s.events
            && env' == env.(inbox := rest)
  {
    assert env.inbox[1..] == rest;
    BytesAreRetrieved(s, env.inbox);
    var one := [cmd];
    assert one[..1] == one && one[1..] == [];
  }

  /** A session is only said to be up once the last answer was accepted, not rejected, and, if polling, left open. */
  lemma EstablishedMeans(s: Session, env: Env, polling: bool)
    ensures var (t, env', up) := Establish(s, env, polling);
            up ==> !t.nackSent && (polling ==> t.connDone) && |env'.connects| < |env.connects|
    decreases |env.connects|
  {
    AttemptUsesUp(s, env, polling);
    var (u, env', ok) := Attempt(s, env, polling);
    if ok && u.nackSent {
      EstablishedMeans(u.(nackSent := false), env', polling);
    }
  }

  const ROOMY: seq<byte> := [0, 0, 0, 0, 0]

  /** A command that comes with the acknowledgement of authentication and is rejected, then a plain acknowledgement. */
  const TRYING: Env :=
    Env([Data([0x2A, 1, 2, 3, 4]), Data([0x20])], [Reaction([Nack], [], [])], [Connected(true), Connected(true)], [])

  /** Rejecting what comes with authentication ends that session and makes another, which is then up. */
  lemma RejectionReconnects()
    ensures var (t, env', up) := Establish(Initial(ROOMY), TRYING, false);
            up && t.commands == [0x41, 0x90, 0x41] && Up(t) && t.open && env'.connects == []
  {
    var s := Initial(ROOMY);
    FirstTry(s);
    var (u, env', ok) := Attempt(s, TRYING, false);
    SecondTry(u.(nackSent := false), env');
  }

  lemma FirstTry(s: Session)
    requires |s.rx.buf| == 5 && s.rx.recvd == 0
    ensures var (u, env', ok) := Attempt(s, TRYING, false);
            && ok && u.nackSent && u.commands == s.commands + [0x41, 0x90] && |u.rx.buf| == 5 && u.rx.recvd == 0
            && env' == Env([Data([0x20])], [], [Connected(true)], [])
  {
    var t := Opened(s, false);
    assert t.commands == s.commands + [0x41];
    var m: seq<byte> := [0x2A, 1, 2, 3, 4];
    var env := TRYING.(connects := [Connected(true)]);
    assert [] + m == m && TRYING.connects[1..] == [Connected(true)];
    LastPiece(t, [], m, [Data([0x20])], env, false);
    RejectedCommand(t, m);
  }

  lemma SecondTry(s: Session, env: Env)
    requires |s.rx.buf| == 5 && s.rx.recvd == 0 && !s.nackSent
    requires env == Env([Data([0x20])], [], [Connected(true)], [])
    ensures var (u, env', up) := Establish(s, env, false);
            up && u.commands == s.commands + [0x41] && Up(u) && u.open && env'.connects == []
  {
    var t := Opened(s, false);
    assert t.commands == s.commands + [0x41];
    OneByteMessage(t, 0x20, [], env.(connects := []), false);
  }

  lemma RejectedCommand(s: Session, m: seq<byte>)
    requires s.connDone && |s.rx.buf| == 5 && m == [0x2A, 1, 2, 3, 4]
    ensures var (u, ok) := Process(Holding(s, m), 5, false, Reaction([Nack], [], []));
            && ok && u.nackSent && u.commands == s.commands + [0x90] && |u.rx.buf| == 5 && u.rx.recvd == 0
  {
    var held := Holding(s, m);
    assert held.rx.buf == m;
    var acked := held.(pendBit := false, authDone := true, pendAck := false, owed := false);
    var told := acked.(rx := Rx(Presented(m), 0), events := acked.events + [RcvdMsg(Presented(m)[..5])]);
    assert Presented(m)[..Min(PresentedLength(m, 5), 5)] == Presented(m)[..5];
    assert [Nack][..0] == [] && Perform(told, [Nack]) == SendNack(told);
    QuitSays(told, true);
    assert ShowBody(acked, 5, [Nack]) == SendNack(told);
  }

  /** What the application is told of an acknowledging message with a body, in order. */
  lemma EventsOfAck(s: Session, length: nat, invoke: bool, r: Reaction)
    requires 4 <= |s.rx.buf| && HasBody(s.rx.buf[0])
    ensures var u := ProcessAck(s, length, invoke, r);
            var b, n := Presented(s.rx.buf), PresentedLength(s.rx.buf, length);
            && u.rx == Rx(b, s.rx.recvd)
            && u.events == s.events + [RcvdMsg(b[..Min(n, |b|)])]
                           + if invoke && s.sendCb && !(s.connDone && Nack in r.onMsg) then [RcvdAck] else []
  {
    var acked := s.(authDone := true, pendAck := false, owed := false);
    var b, n := Presented(s.rx.buf), PresentedLength(s.rx.buf, length);
    PerformMeans(acked.(rx := Rx(b, s.rx.recvd), events := acked.events + [RcvdMsg(b[..Min(n, |b|)])]), r.onMsg);
    var told := ShowBody(acked, length, r.onMsg);
    PerformMeans(told.(events := told.events + [RcvdAck]), r.onSend);
  }

  /** What the application is told: an update as it came, a command as the front of a service message. */
  function Delivered(buf: seq<byte>, m: seq<byte>): seq<byte>
    requires 4 <= |buf| && |m| <= |buf|
  {
    var held := m + buf[|m|..];
    Presented(held)[..Min(PresentedLength(held, |m|), |buf|)]
  }

  /** Where the message that the application is meant to see ends in the buffer. */
  function MeantLength(m: seq<byte>): nat
    requires m != []
  {
    if IsCommand(m[0]) then PROTO_OVERHEAD_SZ + 6 else |m|
  }

  lemma UpdateIsDeliveredAsIs(buf: seq<byte>, m: seq<byte>)
    requires 4 <= |buf| && 0 < |m| <= |buf| && LoadType(m[0]) == MT_UPDATE
    ensures Delivered(buf, m) == m
  {}

  /** The application is told of the whole message exactly if that is not a command. */
  lemma ToldWholeExactlyUnlessCommand(buf: seq<byte>, m: seq<byte>)
    requires IsMessage(m) && |m| <= |buf| && 4 <= |buf| && HasBody(m[0])
    ensures |Delivered(buf, m)| == MeantLength(m) <==> !IsCommand(m[0])
  {}

  /** What the application is told of a command ends after the interval's first byte, whatever the last two are. */
  lemma IntervalIsCut(buf: seq<byte>, cmd: byte, a: byte, rest: seq<byte>, other: seq<byte>)
    requires IsCommand(cmd) && 9 <= |buf| && |rest| == |other| == 3
    ensures |Delivered(buf, [cmd, a] + rest)| == 6
    ensures rest[0] == other[0] ==> Delivered(buf, [cmd, a] + rest) == Delivered(buf, [cmd, a] + other)
    ensures Delivered(buf, [cmd, a] + rest)[PROTO_OVERHEAD_SZ + 2] == a
  {}

  lemma EventsOfMessage(s: Session, m: seq<byte>, invoke: bool, r: Reaction)
    requires 4 <= |s.rx.buf| && 0 < |m| <= |s.rx.buf| && HasBody(m[0]) && LoadFlags(m[0]).ack
    ensures var (u, ok) := Process(Holding(s, m), |m|, invoke, r);
            && ok && u.rx.recvd == 0
            && u.events == s.events + [RcvdMsg(Delivered(s.rx.buf, m))]
                           + (if invoke && s.sendCb && !(s.connDone && Nack in r.onMsg) then [RcvdAck] else [])
                           + (if LoadFlags(m[0]).quit then [RcvdQuit] else [])
  {
    var noted := Holding(s, m).(pendBit := LoadFlags(m[0]).pending);
    EventsOfAck(noted, |m|, invoke, r);
    var closed := Reset(Closed(ProcessAck(noted, |m|, invoke, r)));
    PerformMeans(closed.(events := closed.events + [RcvdQuit]), r.onQuit);
  }

  /**
   * Of an acknowledging message with a body that arrives in any pieces the application is told once, before anything
   * else it is told: of an update in full, of a command as `Delivered` says. The send callback hears of it only if the
   * message was not rejected meanwhile.
   */
  lemma BodyIsHandedOverOnce(s: Session, pieces: seq<Read>, rest: seq<Read>, env: Env, invoke: bool)
    requires s.open && 4 <= |s.rx.buf| <= PROTO_MAX_MSG_SZ && s.rx.recvd == 0
    requires Bring(pieces) && env.inbox == pieces + rest
    requires var m := Payload(pieces); IsMessage(m) && |m| <= |s.rx.buf| && HasBody(m[0]) && LoadFlags(m[0]).ack
    ensures var m, (u, env', ok) := Payload(pieces), Receive(s, env, invoke);
            && ok && env'.inbox == rest && u.rx.recvd == 0
            && u.events == s.events + [RcvdMsg(Delivered(s.rx.buf, m))]
                           + (if invoke && s.sendCb && !(s.connDone && Nack in NextReaction(env).onMsg)
                              then [RcvdAck] else [])
                           + (if LoadFlags(m[0]).quit then [RcvdQuit] else [])
  {
    var m := Payload(pieces);
    assert [] + m == m;
    ReceiveTakesWholeMessage(s, [], pieces, rest, env, invoke);
    EventsOfMessage(s, m, invoke, NextReaction(env));
  }
}
