/** The session as it runs: fields updated in place, loops over what the world answers. */
module SessionCode {
  import opened Bytes
  import opened Mgs
  import MgsCode
  import opened Outbox
  import opened Session
  import Json
  import JsonText
  import JsonCode

  class Connection {
    const w: World
    const outbox: Outbox
    var outSeq: nat
    var nextExpected: int
    var log: seq<Act>

    ghost function View(): State
      reads this, outbox
    {
      State(outSeq, outbox.buf, nextExpected, log)
    }

    constructor (w: World)
      ensures View() == State(0, [], 0, []) && this.w == w && fresh(outbox)
    {
      this.w := w;
      outbox := new Outbox();
      outSeq, nextExpected, log := 0, 0, [];
    }

    method Record(a: Act)
      modifies this
      ensures View() == Note(old(View()), a)
    {
      log := log + [a];
    }

    method SendStreamData(payloadType: u32, payload: bytes, stamp: Stamp) returns (ok: bool)
      modifies this, outbox
      ensures View() == SendStream(w, old(View()), payloadType, payload, stamp) && ok == stamp.ok
    {
      hide Serialize;
      var m := AgentMessage(OUTPUT_STREAM_DATA, 1, stamp.createdMs, Wire64(outSeq), if outSeq == 0 then 1 else 0, stamp.id,
                            payloadType, payload);
      var frame := MgsCode.Write(m, w.sha(payload));
      var number := outSeq;
      outSeq := outSeq + 1;
      outbox.Add(number, frame[..], stamp.at);
      Record(Sent(m, stamp.at));
      ok := stamp.ok;
    }

    /** False when the peer has stopped acknowledging; a resend is made at most once and whatever comes of it. */
    method PumpOutbox(at: int) returns (alive: bool)
      modifies this, outbox
      ensures (View(), alive) == Pump(old(View()), at)
    {
      var frame, dead := outbox.DueResend(at);
      if dead {
        Record(Pumped(at, Dead));
      } else if frame.Some? {
        Record(Pumped(at, Resend(frame.value)));
      } else {
        Record(Pumped(at, Nothing));
      }
      alive := !dead;
    }

    method HandleAcknowledge(payload: bytes)
      modifies this, outbox
      ensures View() == HandleAck(w, old(View()), payload)
    {
      hide Json.Parse, JsonText.Find;
      var parsed := JsonCode.ParseText(payload);
      if parsed.Document? && parsed.value.Obj? {
        var number := -1;
        match JsonText.Find(parsed.value.members, SEQUENCE_KEY) {
          case Some(Int(n)) => number := n;
          case Some(Real(token, _)) => number := OrMinusOne(w.integerOf(token));
          case Some(Str(s)) => if s != [] { number := OrMinusOne(w.integerOf(s)); }
          case _ =>
        }
        outbox.Ack(number);
        Record(HeardAck(number));
      }
    }

    method Receive(inbound: Inbound) returns (a: Arrival)
      ensures a == Arrive(inbound)
    {
      hide Deserialize;
      match inbound {
        case Quiet => a := Idle;
        case Broken => a := Closed;
        case Frame(payload) =>
          var decoded := MgsCode.Read(payload);
          match decoded {
            case Ok(m) => a := Message(m);
            case OutOfRange => a := Crash;
            case _ => a := Idle;
          }
      }
    }

    /** Wait for the handshake response; nothing else that comes in meanwhile is acted on. */
    method AwaitHandshake(deadline: int, waits: seq<Wait>) returns (waited: Waited)
      modifies this, outbox
      ensures (View(), waited) == Handshake(w, old(View()), deadline, waits)
    {
      hide Pump, HandleAck, Arrive;
      ghost var whole := Handshake(w, View(), deadline, waits);
      var i := 0;
      assert waits[0..] == waits;
      while i < |waits|
        invariant 0 <= i <= |waits|
        invariant Handshake(w, View(), deadline, waits[i..]) == whole
      {
        var t := waits[i];
        i := i + 1;
        assert waits[i - 1..][1..] == waits[i..] && waits[i - 1..][0] == t;
        if t.now > deadline {
          return GaveUp;
        }
        var alive := PumpOutbox(t.pumpAt);
        if !alive {
          return GaveUp;
        }
        var arrival := Receive(t.inbound);
        match arrival {
          case Idle =>
          case Closed => return GaveUp;
          case Crash => return Crashed;
          case Message(m) =>
            if m.messageType == ACKNOWLEDGE {
              HandleAcknowledge(m.payload);
            } else if m.messageType == INPUT_STREAM_DATA && m.payloadType == HANDSHAKE_RESPONSE {
              Record(AckSent(m));
              if !w.accepts(m.payload) {
                return GaveUp;
              }
              return Ready(m.sequence);
            } else if m.messageType == CHANNEL_CLOSED {
              return GaveUp;
            } else {
              Record(AckSent(m));
            }
        }
      }
      return GaveUp;
    }

    /** Send all the shell has ready; a failed send ends the session after the draining. */
    method DrainShell(output: seq<Chunk>) returns (running: bool)
      modifies this, outbox
      ensures View() == Drain(w, old(View()), output) && running == AllSent(output)
    {
      hide SendStream;
      ghost var whole := Drain(w, View(), output);
      running := true;
      var i := 0;
      assert output[0..] == output;
      while i < |output|
        invariant 0 <= i <= |output|
        invariant Drain(w, View(), output[i..]) == whole
        invariant running <==> forall k :: 0 <= k < i ==> output[k].stamp.ok
      {
        assert output[i..][1..] == output[i + 1..] && output[i..][0] == output[i];
        var ok := SendStreamData(OUTPUT, output[i].data, output[i].stamp);
        if !ok {
          running := false;
        }
        i := i + 1;
      }
    }

    /** Write keystrokes until all are taken or a write fails. */
    method TypeKeys(payload: bytes, writes: seq<nat>) returns (running: bool)
      modifies this
      ensures Taken(|payload|, writes).0 <= |payload|
      ensures View() == Note(old(View()), Wrote(payload[..Taken(|payload|, writes).0]))
      ensures running == Taken(|payload|, writes).1
    {
      TakenWithin(|payload|, writes);
      running := true;
      var written, i := 0, 0;
      assert writes[0..] == writes;
      while written < |payload| && running
        invariant 0 <= i <= |writes| && 0 <= written <= |payload|
        invariant running ==>
            var (n, all) := Taken(|payload| - written, writes[i..]);
            Taken(|payload|, writes) == (written + n, all)
        invariant !running ==> Taken(|payload|, writes) == (written, false)
        decreases |writes| - i, running
      {
        if i == |writes| || writes[i] == 0 {
          running := false;
        } else {
          assert writes[i..][1..] == writes[i + 1..];
          written := written + Min(writes[i], |payload| - written);
          i := i + 1;
        }
      }
      Record(Wrote(payload[..written]));
    }

    method ApplyInput(m: AgentMessage, writes: seq<nat>) returns (running: bool)
      modifies this
      ensures (View(), running) == Apply(old(View()), m, writes)
    {
      hide Taken, Json.Parse;
      nextExpected := nextExpected + 1;
      Record(Typed(m));
      running := true;
      if m.payloadType == SIZE {
        var parsed := JsonCode.ParseText(m.payload);
        if parsed.Document? {
          Record(Resized(m.payload));
        }
      } else if m.payloadType == OUTPUT {
        running := TypeKeys(m.payload, writes);
      }
    }

    /** Acknowledged always, applied only in order. */
    method HandleMessage(m: AgentMessage, writes: seq<nat>) returns (running: bool)
      modifies this
      ensures (View(), running) == HandleInput(Note(old(View()), AckSent(m)), m, writes)
    {
      hide Apply;
      Record(AckSent(m));
      if m.messageType != INPUT_STREAM_DATA || m.sequence != nextExpected {
        return true;
      }
      running := ApplyInput(m, writes);
    }

    /** Resend, check for idleness, drain the shell, handle one message; until something ends it. */
    method BridgeShell(activeAt: int, passes: seq<Pass>) returns (passed: Passed)
      modifies this, outbox
      ensures (View(), passed) == Bridge(w, old(View()), activeAt, passes)
    {
      hide Pump, HandleAck, Arrive, Drain, HandleInput, AllSent;
      ghost var whole := Bridge(w, View(), activeAt, passes);
      var active, i := activeAt, 0;
      assert passes[0..] == passes;
      while i < |passes|
        invariant 0 <= i <= |passes|
        invariant Bridge(w, View(), active, passes[i..]) == whole
      {
        var p := passes[i];
        i := i + 1;
        assert passes[i - 1..][1..] == passes[i..] && passes[i - 1..][0] == p;
        var alive := PumpOutbox(p.pumpAt);
        if !alive || p.idleAt - active > IDLE_TIMEOUT_SECONDS {
          return Finished;
        }
        var running := DrainShell(p.output);
        if !running || p.shellEnded {
          return Finished;
        }
        var arrival := Receive(p.inbound);
        match arrival {
          case Idle =>
          case Closed => return Finished;
          case Crash => return Down;
          case Message(m) =>
            active := p.activeAt;
            if m.messageType == CHANNEL_CLOSED {
              return Finished;
            } else if m.messageType == ACKNOWLEDGE {
              HandleAcknowledge(m.payload);
            } else {
              running := HandleMessage(m, p.writes);
              if !running {
                return Finished;
              }
            }
        }
      }
      return Finished;
    }

    method TearDownShell(exitCode: bytes, stamp: Stamp)
      modifies this, outbox
      ensures View() == TearDown(w, old(View()), exitCode, stamp)
    {
      hide Note, SendStream;
      Record(Killed);
      Record(Reaped);
      Record(PtyClosed);
      var _ := SendStreamData(EXIT_CODE, exitCode, stamp);
      Record(Announced(false));
      Record(ChannelClosed);
    }

    method RunSession(s: Script)
      requires View() == State(0, [], 0, [])
      modifies this, outbox
      ensures View() == Play(w, s)
    {
      hide SendStream, Handshake, Bridge, TearDown;
      Record(Announced(true));
      assert log == [Announced(true)];
      var ok := SendStreamData(HANDSHAKE_REQUEST, s.request, s.opening);
      if !ok {
        return;
      }
      var waited := AwaitHandshake(s.start + HANDSHAKE_TIMEOUT_SECONDS, s.waits);
      if waited.Crashed? {
        Record(Aborted);
        return;
      }
      if !waited.Ready? {
        return;
      }
      Record(Accepted(waited.sequence));
      var _ := SendStreamData(HANDSHAKE_COMPLETE, NO_COMPLETION, s.completing);
      if !s.spawns {
        var _ := SendStreamData(STD_ERR, s.failure, s.failing);
        return;
      }
      Record(Spawned);
      nextExpected := waited.sequence + 1;
      var passed := BridgeShell(s.activeAt, s.passes);
      if passed.Down? {
        Record(Aborted);
        return;
      }
      TearDownShell(s.exitCode, s.closing);
    }
  }
}
