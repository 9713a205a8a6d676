/** What a session answers: every message it hears, once and in order. */
module SessionAnswers {
  import opened Bytes
  import opened Mgs
  import opened Outbox
  import opened Session
  import opened SessionPasses
  import Json

  // ---- acknowledgements ----

  /** The acknowledgements sent, and the numbers heard, in a log. */
  function Acks(acts: seq<Act>): seq<AgentMessage> {
    if acts == [] then []
    else if acts[|acts| - 1].AckSent? then Acks(acts[..|acts| - 1]) + [acts[|acts| - 1].m]
    else Acks(acts[..|acts| - 1])
  }

  function HearsIn(acts: seq<Act>): seq<int> {
    if acts == [] then []
    else if acts[|acts| - 1].HeardAck? then HearsIn(acts[..|acts| - 1]) + [acts[|acts| - 1].number]
    else HearsIn(acts[..|acts| - 1])
  }

  lemma NextAct(acts: seq<Act>, a: Act)
    ensures Acks(acts + [a]) == if a.AckSent? then Acks(acts) + [a.m] else Acks(acts)
    ensures HearsIn(acts + [a]) == if a.HeardAck? then HearsIn(acts) + [a.number] else HearsIn(acts)
  {
    assert (acts + [a])[..|acts|] == acts;
  }

  /** What each arrival deserves: everything but an acknowledgement or a close is acknowledged once. */
  function AckDue(inbound: Inbound): seq<AgentMessage> {
    match Arrive(inbound)
    case Message(m) => if m.messageType == ACKNOWLEDGE || m.messageType == CHANNEL_CLOSED then [] else [m]
    case _ => []
  }

  /** And an acknowledgement that parses is heard. */
  function HearingDue(w: World, inbound: Inbound): seq<int> {
    match Arrive(inbound)
    case Message(m) =>
      if m.messageType == ACKNOWLEDGE && AckNumber(w, m.payload).Some? then [AckNumber(w, m.payload).value] else []
    case _ => []
  }

  function AcksDue(inbounds: seq<Inbound>): seq<AgentMessage> {
    if inbounds == [] then [] else AckDue(inbounds[0]) + AcksDue(inbounds[1..])
  }

  function HearingsDue(w: World, inbounds: seq<Inbound>): seq<int> {
    if inbounds == [] then [] else HearingDue(w, inbounds[0]) + HearingsDue(w, inbounds[1..])
  }

  /** Between two states: those acknowledgements sent and those numbers heard, and no others. */
  ghost predicate Answered(before: State, after: State, acks: seq<AgentMessage>, heard: seq<int>) {
    Acks(after.log) == Acks(before.log) + acks && HearsIn(after.log) == HearsIn(before.log) + heard
  }

  lemma AnsweredTwice(a: State, b: State, c: State, acks: seq<AgentMessage>, heard: seq<int>,
                      acks': seq<AgentMessage>, heard': seq<int>)
    requires Answered(a, b, acks, heard) && Answered(b, c, acks', heard')
    ensures Answered(a, c, acks + acks', heard + heard')
  {
    hide Acks, HearsIn;
    assert Acks(a.log) + acks + acks' == Acks(a.log) + (acks + acks');
    assert HearsIn(a.log) + heard + heard' == HearsIn(a.log) + (heard + heard');
  }

  lemma SilentThen(a: State, b: State, c: State, acks: seq<AgentMessage>, heard: seq<int>)
    requires Answered(a, b, [], []) && Answered(b, c, acks, heard)
    ensures Answered(a, c, acks, heard)
  {
    AnsweredTwice(a, b, c, [], [], acks, heard);
    assert [] + acks == acks && [] + heard == heard;
  }

  lemma ThenSilent(a: State, b: State, c: State, acks: seq<AgentMessage>, heard: seq<int>)
    requires Answered(a, b, acks, heard) && Answered(b, c, [], [])
    ensures Answered(a, c, acks, heard)
  {
    AnsweredTwice(a, b, c, acks, heard, [], []);
    assert acks + [] == acks && heard + [] == heard;
  }

  lemma NoAnswer(st: State, st': State, a: Act)
    requires st'.log == st.log + [a] && !a.AckSent? && !a.HeardAck?
    ensures Answered(st, st', [], [])
  {
    NextAct(st.log, a);
    hide Acks, HearsIn;
    assert Acks(st.log) + [] == Acks(st.log) && HearsIn(st.log) + [] == HearsIn(st.log);
  }

  lemma Silent(st: State, st': State)
    requires st'.log == st.log
    ensures Answered(st, st', [], [])
  {
    hide Acks, HearsIn;
    assert Acks(st.log) + [] == Acks(st.log) && HearsIn(st.log) + [] == HearsIn(st.log);
  }

  lemma AckAnswers(st: State, m: AgentMessage)
    ensures Answered(st, Note(st, AckSent(m)), [m], [])
  {
    NextAct(st.log, AckSent(m));
    hide Acks, HearsIn;
    assert HearsIn(st.log) + [] == HearsIn(st.log);
  }

  lemma HandleAckHears(w: World, st: State, payload: bytes)
    ensures var n := AckNumber(w, payload);
      Answered(st, HandleAck(w, st, payload), [], if n.Some? then [n.value] else [])
  {
    hide AckNumber, Acked;
    var n := AckNumber(w, payload);
    if n.Some? {
      NextAct(st.log, HeardAck(n.value));
    }
    hide Acks, HearsIn;
    assert Acks(st.log) + [] == Acks(st.log) && HearsIn(st.log) + [] == HearsIn(st.log);
  }

  lemma {:induction false} DrainIsSilent(w: World, st: State, output: seq<Chunk>)
    ensures Answered(st, Drain(w, st, output), [], [])
    decreases |output|
  {
    hide Answered, FrameOf, Added, StreamMessage;
    if output == [] {
      Silent(st, st);
    } else {
      var st1 := SendStream(w, st, OUTPUT, output[0].data, output[0].stamp);
      NoAnswer(st, st1, st1.log[|st.log|]);
      DrainIsSilent(w, st1, output[1..]);
      SilentThen(st, st1, Drain(w, st1, output[1..]), [], []);
    }
  }

  lemma OneWaitAnswers(w: World, st: State, deadline: int, t: Wait)
    ensures var (st', waited) := OneWait(w, st, deadline, t);
      if Waits(st, deadline, t) then Answered(st, st', AckDue(t.inbound), HearingDue(w, t.inbound))
      else waited.GaveUp? && Answered(st, st', [], [])
  {
    hide Answered, HandleAck, Arrive, AckNumber, Answer, Polled, Note;
    Silent(st, st);
    var st1 := Pump(st, t.pumpAt).0;
    PumpIsSilent(st, t.pumpAt);
    NamesDiffer();
    if t.now <= deadline && Arrive(t.inbound).Message? {
      var m := Arrive(t.inbound).m;
      HandleAckHears(w, st1, m.payload);
      AckAnswers(st1, m);
      var n := AckNumber(w, m.payload);
      SilentThen(st, st1, HandleAck(w, st1, m.payload), [], if n.Some? then [n.value] else []);
      SilentThen(st, st1, Note(st1, AckSent(m)), [m], []);
    }
  }

  lemma PumpIsSilent(st: State, at: int)
    ensures Answered(st, Pump(st, at).0, [], [])
  {
    hide Answered, Answer, Polled;
    NoAnswer(st, Pump(st, at).0, Pumped(at, Answer(st.outbox, at)));
  }

  lemma InputIsSilent(st: State, m: AgentMessage, writes: seq<nat>)
    ensures Answered(st, HandleInput(st, m, writes).0, [], [])
  {
    hide Answered, Taken, Json.Parse;
    Silent(st, st);
    if m.messageType == INPUT_STREAM_DATA && m.sequence == st.next {
      var st1 := Note(st.(next := st.next + 1), Typed(m));
      NoAnswer(st, st1, Typed(m));
      var st2 := HandleInput(st, m, writes).0;
      if st2.log == st1.log {
        Silent(st1, st2);
      } else {
        NoAnswer(st1, st2, st2.log[|st1.log|]);
      }
      SilentThen(st, st1, st2, [], []);
    }
  }

  function WaitInbounds(waits: seq<Wait>): seq<Inbound> {
    if waits == [] then [] else [waits[0].inbound] + WaitInbounds(waits[1..])
  }

  /** The wait for the handshake acknowledges exactly the messages it hears that deserve it, each once and in order, input
      for a shell included, and hears exactly the acknowledgements among them. */
  lemma {:induction false} HandshakeAnswersInOrder(w: World, st: State, deadline: int, waits: seq<Wait>)
    ensures var heard := WaitInbounds(waits[..WaitsHeard(w, st, deadline, waits)]);
      Answered(st, Handshake(w, st, deadline, waits).0, AcksDue(heard), HearingsDue(w, heard))
    decreases |waits|
  {
    hide Answered, OneWait, AckDue, HearingDue, Waits;
    Silent(st, st);
    if waits != [] {
      var n := WaitsHeard(w, st, deadline, waits);
      var (st1, waited) := OneWait(w, st, deadline, waits[0]);
      OneWaitAnswers(w, st, deadline, waits[0]);
      OneWaitVerdict(w, st, deadline, waits[0]);
      if Waits(st, deadline, waits[0]) {
        WaitStep(w, waits, n);
        var later := waits[1..][..n - 1];
        Silent(st1, st1);
        if waited.Again? {
          HandshakeAnswersInOrder(w, st1, deadline, waits[1..]);
        }
        AnsweredTwice(st, st1, Handshake(w, st, deadline, waits).0, AckDue(waits[0].inbound), HearingDue(w, waits[0].inbound),
                      AcksDue(WaitInbounds(later)), HearingsDue(w, WaitInbounds(later)));
      }
    }
  }

  lemma WaitStep(w: World, waits: seq<Wait>, n: nat)
    requires 0 < n <= |waits|
    ensures AcksDue(WaitInbounds(waits[..n])) == AckDue(waits[0].inbound) + AcksDue(WaitInbounds(waits[1..][..n - 1]))
    ensures HearingsDue(w, WaitInbounds(waits[..n]))
         == HearingDue(w, waits[0].inbound) + HearingsDue(w, WaitInbounds(waits[1..][..n - 1]))
  {
    hide AckDue, HearingDue;
    var some := waits[..n];
    assert some[0] == waits[0] && some[1..] == waits[1..][..n - 1];
    assert WaitInbounds(some)[0] == waits[0].inbound && WaitInbounds(some)[1..] == WaitInbounds(some[1..]);
  }

  /** A pass that listens answers what came in as it deserves; any other answers nothing. */
  lemma OnePassAnswers(w: World, st: State, active: int, p: Pass)
    ensures var (st', passed) := OnePass(w, st, active, p);
      if Listens(st, active, p) then Answered(st, st', AckDue(p.inbound), HearingDue(w, p.inbound))
      else Answered(st, st', [], [])
  {
    SentAll(p.output);
    hide Answered, HandleAck, HandleInput, Arrive, AckNumber, Drain, Answer, Polled, AllSent;
    NamesDiffer();
    var st1 := Pump(st, p.pumpAt).0;
    PumpIsSilent(st, p.pumpAt);
    var st2 := Drain(w, st1, p.output);
    DrainIsSilent(w, st1, p.output);
    SilentThen(st, st1, st2, [], []);
    if Arrive(p.inbound).Message? {
      var m := Arrive(p.inbound).m;
      var n := AckNumber(w, m.payload);
      HandleAckHears(w, st2, m.payload);
      SilentThen(st, st2, HandleAck(w, st2, m.payload), [], if n.Some? then [n.value] else []);
      var st3 := Note(st2, AckSent(m));
      AckAnswers(st2, m);
      InputIsSilent(st3, m, p.writes);
      SilentThen(st, st2, st3, [m], []);
      ThenSilent(st, st3, HandleInput(st3, m, p.writes).0, [m], []);
    }
  }

  function Inbounds(passes: seq<Pass>): seq<Inbound> {
    if passes == [] then [] else [passes[0].inbound] + Inbounds(passes[1..])
  }

  /** Over the whole bridge: of the passes heard, exactly the messages that deserve it are acknowledged, each once and in
      order, and exactly the acknowledgements are heard. */
  lemma {:induction false} BridgeAnswersInOrder(w: World, st: State, active: int, passes: seq<Pass>)
    ensures var heard := Inbounds(passes[..PassesHeard(w, st, active, passes)]);
      Answered(st, Bridge(w, st, active, passes).0, AcksDue(heard), HearingsDue(w, heard))
    decreases |passes|
  {
    hide Answered, OnePass, AckDue, HearingDue, Listens;
    Silent(st, st);
    if passes != [] {
      var n := PassesHeard(w, st, active, passes);
      var (st1, passed) := OnePass(w, st, active, passes[0]);
      OnePassAnswers(w, st, active, passes[0]);
      PassGoesOn(w, st, active, passes[0]);
      if Listens(st, active, passes[0]) {
        DueStep(w, passes, n);
        var later := passes[1..][..n - 1];
        Silent(st1, st1);
        if passed.Running? {
          BridgeAnswersInOrder(w, st1, passed.active, passes[1..]);
        }
        AnsweredTwice(st, st1, Bridge(w, st, active, passes).0, AckDue(passes[0].inbound), HearingDue(w, passes[0].inbound),
                      AcksDue(Inbounds(later)), HearingsDue(w, Inbounds(later)));
      }
    }
  }

  lemma DueStep(w: World, passes: seq<Pass>, n: nat)
    requires 0 < n <= |passes|
    ensures AcksDue(Inbounds(passes[..n])) == AckDue(passes[0].inbound) + AcksDue(Inbounds(passes[1..][..n - 1]))
    ensures HearingsDue(w, Inbounds(passes[..n]))
         == HearingDue(w, passes[0].inbound) + HearingsDue(w, Inbounds(passes[1..][..n - 1]))
  {
    hide AckDue, HearingDue;
    var some := passes[..n];
    assert some[0] == passes[0] && some[1..] == passes[1..][..n - 1];
    assert Inbounds(some)[0] == passes[0].inbound && Inbounds(some)[1..] == Inbounds(some[1..]);
  }
}
