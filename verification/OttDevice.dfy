/** The OTT protocol module as it runs: one session record, one receive buffer, one channel, all updated in place. */
module OttDevice {
  import opened Bytes
  import opened OttFraming
  import opened OttSession

  class Device {
    // The session record
    var connDone: bool
    var authDone: bool
    var pendBit: bool
    var pendAck: bool
    var nackSent: bool
    var sendCb: bool
    // The receive buffer, and how much of it the current message has filled
    const rcvBuf: array<byte>
    var recvd: nat
    // The channel, the command bytes sent over it, and what the application has been told
    var open: bool
    var socket: Socket
    var commands: seq<byte>
    var events: seq<Event>
    /** An acknowledgement not yet sent, overtaken or dropped with the session. */
    ghost var owed: bool
    // What the network and the application are going to do
    var ahead: Env

    /** What every step needs of the buffer, also in the middle of a call. */
    ghost predicate Buffered()
      reads this
    {
      recvd <= rcvBuf.Length
    }

    /** What holds between calls. */
    ghost predicate Valid()
      reads this, rcvBuf
    {
      Buffered() && Inv(Now())
    }

    ghost function Now(): Session
      reads this, rcvBuf
    {
      Session(connDone, authDone, pendBit, pendAck, nackSent, sendCb, Rx(rcvBuf[..], recvd), open, socket,
              commands, events, owed)
    }

    constructor (buf: array<byte>, env: Env)
      ensures Valid() && rcvBuf == buf && ahead == env && Now() == Initial(buf[..])
    {
      connDone, authDone, pendBit, pendAck, nackSent, sendCb := false, false, false, false, false, false;
      rcvBuf, recvd := buf, 0;
      open, socket, commands, events := false, NoSocket, [], [];
      owed := false;
      ahead := env;
    }

    // ----- Sending

    method Write(f: Flags, mType: nat)
      requires mType < 16
      modifies this`commands, this`owed
      ensures Now() == Written(old(Now()), f, mType)
    {
      commands := commands + [Command(f, mType)];
      owed := owed && !f.ack;
    }

    method SendCtrlMsg(f: Flags)
      modifies this`commands, this`owed
      ensures Now() == SendCtrl(old(Now()), f)
    {
      if FlagsAreValid(f) {
        Write(f, MT_NONE);
      }
    }

    method CloseConnection()
      modifies this`open, this`socket
      ensures Now() == Closed(old(Now()))
    {
      open, socket := false, NoSocket;
    }

    method ResetState()
      modifies this`connDone, this`authDone, this`pendBit, this`pendAck, this`nackSent, this`sendCb,
        this`owed
      ensures Now() == Reset(old(Now()))
    {
      sendCb, connDone, authDone := false, false, false;
      pendBit, pendAck, nackSent := false, false, false;
      owed := false;
    }

    method Quit(sendNack: bool)
      requires Buffered()
      modifies this
      ensures Buffered() && ahead == old(ahead) && Now() == InitiateQuit(old(Now()), sendNack)
    {
      if !connDone || !authDone {
        return;
      }
      SendCtrlMsg(if sendNack then NACK_QUIT else QUIT);
      CloseConnection();
      ResetState();
    }

    method AcknowledgeLater()
      modifies this`pendAck, this`owed
      ensures Now() == Acknowledged(old(Now()))
    {
      pendAck := true;
      owed := true;
    }

    method SendNackNow()
      requires Buffered()
      modifies this
      ensures Buffered() && ahead == old(ahead) && Now() == SendNack(old(Now()))
    {
      Quit(true);
      nackSent := true;
    }

    // ----- Callbacks

    /** A callback: the application is told, and acknowledges or rejects as it pleases. */
    method Callback(e: Event, acts: seq<Act>)
      requires Buffered()
      modifies this
      ensures Buffered() && ahead == old(ahead) && Now() == Notify(old(Now()), e, acts)
    {
      events := events + [e];
      ghost var told := Now();
      for i := 0 to |acts|
        invariant Buffered() && ahead == old(ahead) && Now() == Perform(told, acts[..i])
      {
        assert acts[..i + 1][..i] == acts[..i];
        match acts[i]
        case Ack => AcknowledgeLater();
        case Nack => SendNackNow();
      }
      assert acts[..|acts|] == acts;
    }

    method SendCallback(e: Event, acts: seq<Act>, invoke: bool)
      requires Buffered()
      modifies this
      ensures Buffered() && ahead == old(ahead) && Now() == NotifySender(old(Now()), e, acts, invoke)
    {
      if invoke && sendCb {
        Callback(e, acts);
      }
    }

    /** How the application is going to react to the next thing it is told. */
    method TakeReaction() returns (r: Reaction)
      modifies this`ahead
      ensures r == NextReaction(old(ahead)) && ahead == AfterReaction(old(ahead)) && Now() == old(Now())
    {
      r := NextReaction(ahead);
      ahead := AfterReaction(ahead);
    }

    // ----- Receiving

    /** A command is made into a message of the control service where it stands. */
    method FakeReceivingServiceMsg()
      requires Buffered() && 4 <= rcvBuf.Length && IsCommand(rcvBuf[0])
      modifies rcvBuf
      ensures Now() == old(Now()).(rx := Rx(Presented(old(rcvBuf[..])), recvd))
    {
      var interval := rcvBuf[1..Min(rcvBuf.Length, 5)];
      var polling := LoadType(rcvBuf[0]) == MT_CMD_PI;
      rcvBuf[PROTO_OVERHEAD_SZ] := CONTROL_PROTOCOL_VERSION;
      if PROTO_OVERHEAD_SZ + 1 < rcvBuf.Length {
        rcvBuf[PROTO_OVERHEAD_SZ + 1] := if polling then CTRL_MSG_SET_POLLING_INTERVAL else CTRL_MSG_MAKE_DEVICE_SLEEP;
      }
      forall i | 0 <= i < 4 && PROTO_OVERHEAD_SZ + 2 + i < rcvBuf.Length {
        rcvBuf[PROTO_OVERHEAD_SZ + 2 + i] := interval[i];
      }
      assert rcvBuf[..] == Presented(old(rcvBuf[..]));
    }

    method ShowMsg(length: nat, acts: seq<Act>)
      requires Buffered() && 4 <= rcvBuf.Length
      modifies this, rcvBuf
      ensures Buffered() && ahead == old(ahead) && Now() == ShowBody(old(Now()), length, acts)
    {
      var rcvd := length;
      if IsCommand(rcvBuf[0]) {
        FakeReceivingServiceMsg();
        rcvd := rcvd + 1;
      }
      Callback(RcvdMsg(rcvBuf[..Min(rcvd, rcvBuf.Length)]), acts);
    }

    method ProcessAckMsg(length: nat, invoke: bool, r: Reaction)
      requires Buffered() && 4 <= rcvBuf.Length
      modifies this, rcvBuf
      ensures Buffered() && ahead == old(ahead) && Now() == ProcessAck(old(Now()), length, invoke, r)
    {
      authDone := true;
      pendAck := false;
      owed := false;
      if HasBody(rcvBuf[0]) {
        ShowMsg(length, r.onMsg);
      }
      SendCallback(RcvdAck, r.onSend, invoke);
    }

    method ProcessRecvdMsg(length: nat, invoke: bool, r: Reaction) returns (noNack: bool)
      requires Buffered() && 4 <= rcvBuf.Length
      modifies this, rcvBuf
      ensures Buffered() && ahead == old(ahead)
      ensures (Now(), noNack) == Process(old(Now()), length, invoke, r)
    {
      var f := LoadFlags(rcvBuf[0]);
      noNack := true;
      pendBit := f.pending;
      if f.ack {
        ProcessAckMsg(length, invoke, r);
      } else if f.nack {
        noNack := false;
        SendCallback(RcvdNack, r.onSend, invoke);
      }
      if f.quit {
        CloseConnection();
        ResetState();
        Callback(RcvdQuit, r.onQuit);
      }
    }

    /** The bytes of one read, put behind those already there. */
    method StoreBytes(bytes: seq<byte>)
      requires Buffered() && recvd + |bytes| <= rcvBuf.Length
      modifies this`recvd, rcvBuf
      ensures Buffered()
      ensures Now() == old(Now()).(rx := Store(old(Now()).rx, bytes))
    {
      forall i | 0 <= i < |bytes| {
        rcvBuf[recvd + i] := bytes[i];
      }
      recvd := recvd + |bytes|;
    }

    /** One read's bytes are taken in; a message that they complete is judged. */
    method AcceptBytes(bytes: seq<byte>) returns (got: Retrieved)
      requires Buffered() && 4 <= rcvBuf.Length && recvd + |bytes| <= rcvBuf.Length
      modifies this`recvd, rcvBuf
      ensures Buffered()
      ensures var (expected, rx) := Accept(old(Now()).rx, bytes); got == expected && Now() == old(Now()).(rx := rx)
    {
      StoreBytes(bytes);
      if !IsComplete(rcvBuf[..], recvd) {
        return NoMsg;
      }
      got := if IsValid(rcvBuf[..]) then Complete(recvd) else Invalid;
      recvd := 0;
    }

    method Judge(got: Retrieved) returns (outcome: Outcome)
      requires Buffered()
      modifies this`commands, this`owed, this`open, this`socket
      ensures (outcome, Now()) == Judged(old(Now()), got)
    {
      match got
      case NoMsg =>
        outcome := Nothing;
      case Complete(length) =>
        outcome := Message(length);
      case Invalid =>
        SendCtrlMsg(NACK_QUIT);
        CloseConnection();
        outcome := Failed;
    }

    method TakeData(bytes: seq<byte>) returns (outcome: Outcome)
      requires Buffered() && 4 <= rcvBuf.Length
      modifies this, rcvBuf
      ensures Buffered() && ahead == old(ahead).(inbox := ahead.inbox)
      ensures (outcome, Now(), ahead.inbox) == RetrieveData(old(Now()), bytes, old(ahead.inbox))
    {
      var n := Min(rcvBuf.Length - recvd, |bytes|);
      if n == 0 {
        ahead := ahead.(inbox := Unread(bytes, ahead.inbox));
        return Message(0);
      }
      var got := AcceptBytes(bytes[..n]);
      outcome := Judge(got);
      ahead := ahead.(inbox := Unread(bytes[n..], ahead.inbox));
    }

    method RetrieveMsg() returns (outcome: Outcome)
      requires Buffered() && ahead.inbox != []
      modifies this, rcvBuf
      ensures Buffered() && ahead == old(ahead).(inbox := ahead.inbox)
      ensures (outcome, Now(), ahead.inbox) == Retrieve(old(Now()), old(ahead.inbox))
    {
      var read := ahead.inbox[0];
      ahead := ahead.(inbox := ahead.inbox[1..]);
      if rcvBuf.Length < 4 || rcvBuf.Length > PROTO_MAX_MSG_SZ {
        return Failed;
      }
      if !open && read != WouldBlock {
        return Failed;
      }
      match read
      case WouldBlock =>
        outcome := Nothing;
      case PeerClosed(cleanly) =>
        CloseConnection();
        outcome := if cleanly then Nothing else Failed;
      case Broken =>
        outcome := Failed;
      case Eof =>
        outcome := Message(0);
      case Data(bytes) =>
        outcome := TakeData(bytes);
    }

    method RecvRespWithinTimeout(invoke: bool) returns (noNack: bool)
      requires Buffered()
      modifies this, rcvBuf
      ensures Buffered()
      ensures (Now(), ahead, noNack) == Receive(old(Now()), old(ahead), invoke)
    {
      while ahead.inbox != []
        invariant Buffered()
        invariant Receive(Now(), ahead, invoke) == Receive(old(Now()), old(ahead), invoke)
        decreases Budget(ahead)
      {
        RetrieveConsumes(Now(), ahead.inbox);
        var outcome := RetrieveMsg();
        match outcome
        case Failed => return false;
        case Nothing =>
        case Message(length) =>
          var r := TakeReaction();
          noNack := ProcessRecvdMsg(length, invoke, r);
          return;
      }
      var r := TakeReaction();
      SendCallback(SendTimeout, r.onSend, invoke);
      return false;
    }

    // ----- Sessions

    /** How the next attempt to connect is going to go. */
    method TakeConnect() returns (c: Connect)
      modifies this`ahead
      ensures ahead == if old(ahead).connects == [] then old(ahead)
                       else old(ahead).(connects := old(ahead).connects[1..])
      ensures c == if old(ahead).connects == [] then Refused else old(ahead).connects[0]
      ensures Now() == old(Now())
    {
      c := Refused;
      if ahead.connects != [] {
        c := ahead.connects[0];
        ahead := ahead.(connects := ahead.connects[1..]);
      }
    }

    method InitiateConnection(c: Connect)
      modifies this`open, this`socket
      ensures Now() == if c.Connected? then old(Now()).(open := true, socket := InUse) else NotConnected(old(Now()), c)
    {
      match c
      case Connected(_) =>
        open, socket := true, InUse;
      case NameNotSet =>
        open, socket := false, LeftBehind;
      case Refused =>
        CloseConnection();
    }

    method AwaitResponse(invoke: bool) returns (ok: bool)
      requires Buffered()
      modifies this, rcvBuf
      ensures Buffered()
      ensures (Now(), ahead, ok) == Await(old(Now()), old(ahead), invoke)
    {
      ok := RecvRespWithinTimeout(invoke);
      if !ok {
        Quit(true);
      }
    }

    method SendAuthToCloud(polling: bool)
      requires Buffered() && open && socket == InUse
      modifies this`connDone, this`commands, this`owed
      ensures Now() == Opened(old(Now()), polling)
    {
      connDone := true;
      Write(if polling then NO_FLAGS else NO_FLAGS.(pending := true), MT_AUTH);
    }

    /** One pass of the retry loop: connect, authenticate, wait. */
    method TryConnection(polling: bool) returns (ok: bool)
      requires Buffered()
      modifies this, rcvBuf
      ensures Buffered()
      ensures (Now(), ahead, ok) == Attempt(old(Now()), old(ahead), polling)
    {
      var c := TakeConnect();
      InitiateConnection(c);
      if !c.Connected? {
        return false;
      }
      SendAuthToCloud(polling);
      if !c.authWritten {
        Quit(false);
        return false;
      }
      ok := AwaitResponse(false);
    }

    method EstablishSession(polling: bool) returns (up: bool)
      requires Buffered()
      modifies this, rcvBuf
      ensures Buffered()
      ensures (Now(), ahead, up) == Establish(old(Now()), old(ahead), polling)
    {
      while true
        invariant Buffered()
        invariant Establish(Now(), ahead, polling) == Establish(old(Now()), old(ahead), polling)
        decreases |ahead.connects|
      {
        AttemptUsesUp(Now(), ahead, polling);
        var ok := TryConnection(polling);
        if !ok {
          return false;
        }
        if !nackSent {
          break;
        }
        nackSent := false;
      }
      if polling && !connDone {
        authDone := false;
        return false;
      }
      return true;
    }

    method WriteMessage(mType: nat) returns (res: Result)
      requires mType < 16
      modifies this`commands, this`owed, this`ahead
      ensures (Now(), ahead, res) == WriteMsg(old(Now()), old(ahead), mType)
    {
      Write(Flags(false, pendAck, true, false), mType);
      res := if ahead.writes != [] && ahead.writes[0] then ProtoOk else ProtoError;
      ahead := AfterWrite(ahead);
    }

    method SendStatusToCloud(size: nat) returns (res: Result)
      modifies this`commands, this`owed, this`ahead
      ensures (Now(), ahead, res) == WriteStatus(old(Now()), old(ahead), size)
    {
      if size % 0x10000 > PROTO_DATA_SZ {
        return ProtoInvParam;
      }
      res := WriteMessage(MT_STATUS);
    }

    /** What is noted once a message is on its way. */
    method NoteSent(cb: bool)
      modifies this`sendCb, this`pendAck
      ensures Now() == old(Now()).(sendCb := cb, pendAck := false)
    {
      sendCb := cb;
      pendAck := false;
    }

    method ClearNack()
      modifies this`nackSent
      ensures Now() == old(Now()).(nackSent := false)
    {
      nackSent := false;
    }

    method AwaitAnswer(cb: bool) returns (res: Result)
      requires Buffered()
      modifies this, rcvBuf
      ensures Buffered()
      ensures (Now(), ahead, res) == Answered(old(Now()), old(ahead), cb)
    {
      NoteSent(cb);
      var ok := AwaitResponse(true);
      if !ok {
        return ProtoError;
      }
      ClearNack();
      res := ProtoOk;
    }

    /** Writes a message in the session, and waits for its answer. */
    method Exchange(m: Outgoing, cb: bool) returns (res: Result)
      requires Buffered()
      modifies this, rcvBuf
      ensures Buffered()
      ensures (Now(), ahead, res) == SendInSession(old(Now()), old(ahead), m, cb)
    {
      match m {
        case Status(size) => res := SendStatusToCloud(size);
        case Restarted => res := WriteMessage(MT_RESTARTED);
      }
      if res != ProtoOk {
        Quit(false);
        return;
      }
      res := AwaitAnswer(cb);
    }

    /** Sends in a session that is established if there is none: status messages and configuration requests alike. */
    method SendEstablished(m: Outgoing, cb: bool) returns (res: Result)
      requires Valid()
      modifies this, rcvBuf
      ensures Valid()
      ensures (Now(), ahead, res) == SendOut(old(Now()), old(ahead), m, cb)
    {
      SendOutKeeps(Now(), ahead, m, cb);
      if !authDone {
        var up := EstablishSession(false);
        if !up {
          return ProtoError;
        }
      }
      res := Exchange(m, cb);
    }

    method SendMsgToCloud(size: nat, svc: Service, cb: bool) returns (res: Result)
      requires Valid()
      modifies this, rcvBuf
      ensures Valid()
      ensures (Now(), ahead, res) == SendMsg(old(Now()), old(ahead), size, svc, cb)
      // In an authenticated session the first byte sent gives the kind of message, and acknowledges what is owed.
      ensures old(authDone) && svc == Basic && 0 < size <= 509 ==>
                old(commands) + [if old(pendAck) then 0x62 else 0x42] <= commands
      ensures old(authDone) && svc == Control(true) && 0 < size ==>
                old(commands) + [if old(pendAck) then 0x64 else 0x44] <= commands
    {
      if authDone && 0 < size && (svc == Basic ==> size <= 509) && (svc == Basic || svc == Control(true)) {
        SendSays(Now(), ahead, size, svc, cb);
      }
      if size == 0 {
        return ProtoInvParam;
      }
      match svc
      case Basic =>
        res := SendEstablished(Status(size), cb);
      case Control(resend) =>
        if !resend {
          return ProtoInvParam;
        }
        res := ResendInitConfig(cb);
      case Other =>
        res := ProtoInvParam;
    }

    method ResendInitConfig(cb: bool) returns (res: Result)
      requires Valid()
      modifies this, rcvBuf
      ensures Valid()
      ensures (Now(), ahead, res) == SendOut(old(Now()), old(ahead), Restarted, cb)
      ensures old(authDone) ==> old(commands) + [if old(pendAck) then 0x64 else 0x44] <= commands
    {
      if authDone {
        MessageSays(Now(), ahead, Restarted, cb);
      }
      res := SendEstablished(Restarted, cb);
    }

    /** One round of the drain loop that expects another message. */
    method FetchNext() returns (ok: bool)
      requires Buffered() && pendBit
      modifies this, rcvBuf
      ensures Buffered()
      ensures (Now(), ahead, ok) == Round(old(Now()), old(ahead))
    {
      SendCtrlMsg(Flags(false, pendAck, false, false));
      ok := AwaitResponse(true);
      if ok {
        ClearNack();
      }
    }

    /** The drain loop; `ends` is false where it would go round for ever. */
    method DrainLoop() returns (ends: bool)
      requires Buffered()
      modifies this, rcvBuf
      ensures Buffered()
      ensures (Now(), ahead, ends) == Drain(old(Now()), old(ahead))
    {
      while pendBit || pendAck
        invariant Buffered()
        invariant Drain(Now(), ahead) == Drain(old(Now()), old(ahead))
        decreases Budget(ahead), |ahead.reactions|, Steps(Now()), pendBit || pendAck
      {
        if !pendBit {
          SendCtrlMsg(Flags(false, pendAck, false, true));
          CloseConnection();
          ResetState();
          return true;
        }
        var before := ahead;
        RoundUsesUp(Now(), ahead);
        var ok := FetchNext();
        if !ok {
          return true;
        }
        if pendBit && Budget(ahead) == Budget(before) && |ahead.reactions| == |before.reactions| {
          return false;
        }
      }
      return true;
    }

    /**
     * Fetches what is announced and sends what is owed. An authenticated session is left with neither, if that ends and
     * the application does not acknowledge too late; `MaintenanceIsExact` says when any session is.
     */
    method Maintenance(pollDue: bool) returns (ends: bool)
      requires Valid()
      modifies this, rcvBuf
      ensures Valid()
      ensures (Now(), ahead, ends) == Maintain(old(Now()), old(ahead), pollDue)
      ensures ends && old(authDone) && AllQuiet(old(ahead)) ==> Clear(Now())
      ensures !old(authDone) && !pollDue ==> ends && Now() == old(Now())
      ensures old(authDone) && !old(pendBit) && old(pendAck) ==>
                ends && commands == old(commands) + [0xA0] && !open && !connDone && !authDone && !pendAck
    {
      MaintainKeeps(Now(), ahead, pollDue);
      if AllQuiet(ahead) {
        MaintenanceIsExact(Now(), ahead, pollDue);
      }
      if authDone || pollDue {
        if !authDone {
          var up := EstablishSession(true);
          if !up {
            return true;
          }
        }
        ends := DrainLoop();
      } else {
        ends := true;
      }
    }

    // ----- The application's own calls, between others or from inside a callback

    method AckFromApplication()
      requires Valid()
      modifies this`pendAck, this`owed
      ensures Valid() && Now() == Step(old(Now()), Acknowledge, ahead)
    {
      AcknowledgeLater();
    }

    method NackFromApplication()
      requires Valid()
      modifies this
      ensures Valid() && ahead == old(ahead) && Now() == Step(old(Now()), Reject, ahead)
    {
      StepKeeps(Now(), Reject, ahead);
      SendNackNow();
    }

    method QuitFromApplication(sendNack: bool)
      requires Valid()
      modifies this
      ensures Valid() && ahead == old(ahead) && Now() == Step(old(Now()), Leave(sendNack), ahead)
    {
      StepKeeps(Now(), Leave(sendNack), ahead);
      Quit(sendNack);
    }
  }
}
