/** What a session puts on the channel: numbering, the order of payload types, and resends. */
module SessionFrames {
  import opened Bytes
  import opened Mgs
  import opened Outbox
  import opened Session
  import opened SessionRuns

  // ---- the log as a history of the buffer ----

  /** What an act means to the buffer. */
  function EventOf(w: World, a: Act): seq<Event> {
    match a
    case Sent(m, at) => [Send(FrameOf(w, m), at)]
    case Pumped(at, _) => [Poll(at)]
    case HeardAck(number) => [Ack(number)]
    case _ => []
  }

  function Events(w: World, log: seq<Act>): seq<Event> {
    if log == [] then [] else Events(w, log[..|log| - 1]) + EventOf(w, log[|log| - 1])
  }

  /** The fresh stream-data messages of a log, in order. */
  function Streams(log: seq<Act>): seq<AgentMessage> {
    if log == [] then []
    else if log[|log| - 1].Sent? then Streams(log[..|log| - 1]) + [log[|log| - 1].m]
    else Streams(log[..|log| - 1])
  }

  /** The last act against everything before it. */
  ghost predicate Follows(w: World, before: seq<Act>, a: Act) {
    match a
    case Sent(m, at) => exists payload, stamp :: m == StreamMessage(|Streams(before)|, m.payloadType, payload, stamp)
    case Pumped(at, answer) => answer == Answer(Run(Events(w, before)).buf, at)
    case _ => true
  }

  ghost predicate Consistent(w: World, log: seq<Act>) {
    forall i :: 0 <= i < |log| ==> Follows(w, log[..i], log[i])
  }

  /** The buffer the session holds is the one its log produces. */
  ghost predicate Faithful(w: World, st: State) {
    && Consistent(w, st.log)
    && Run(Events(w, st.log)).buf == st.outbox
    && |Run(Events(w, st.log)).sent| == |Streams(st.log)| == st.outSeq
  }

  lemma Appended(w: World, log: seq<Act>, a: Act)
    requires Consistent(w, log) && Follows(w, log, a)
    ensures Consistent(w, log + [a])
  {
    hide Follows;
    var longer := log + [a];
    forall i | 0 <= i < |longer| ensures Follows(w, longer[..i], longer[i]) {
      assert i < |log| ==> longer[..i] == log[..i] && longer[i] == log[i];
      assert i == |log| ==> longer[..i] == log;
    }
  }

  lemma NextEvent(w: World, log: seq<Act>, a: Act)
    ensures Streams(log + [a]) == if a.Sent? then Streams(log) + [a.m] else Streams(log)
    ensures Events(w, log + [a]) == Events(w, log) + EventOf(w, a)
  {
    assert (log + [a])[..|log|] == log;
  }

  lemma NextRun(events: seq<Event>, e: Event)
    ensures Run(events + [e]) == Step(Run(events), e)
  {
    assert (events + [e])[..|events|] == events;
  }

  lemma NoteIsFaithful(w: World, st: State, a: Act)
    requires Faithful(w, st) && !a.Sent? && !a.Pumped? && !a.HeardAck?
    ensures Faithful(w, Note(st, a))
  {
    Appended(w, st.log, a);
    NextEvent(w, st.log, a);
    assert Events(w, st.log) + [] == Events(w, st.log);
    hide Consistent, Follows, Events, Streams, Run;
  }

  lemma SendIsFaithful(w: World, st: State, payloadType: u32, payload: bytes, stamp: Stamp)
    requires Faithful(w, st)
    ensures Faithful(w, SendStream(w, st, payloadType, payload, stamp))
  {
    var m := StreamMessage(st.outSeq, payloadType, payload, stamp);
    assert Follows(w, st.log, Sent(m, stamp.at));
    Appended(w, st.log, Sent(m, stamp.at));
    NextEvent(w, st.log, Sent(m, stamp.at));
    NextRun(Events(w, st.log), Send(FrameOf(w, m), stamp.at));
    hide Consistent, Follows, Events, Streams, Run, FrameOf;
  }

  lemma PumpIsFaithful(w: World, st: State, at: int)
    requires Faithful(w, st)
    ensures Faithful(w, Pump(st, at).0)
  {
    var a := Pumped(at, Answer(st.outbox, at));
    Appended(w, st.log, a);
    NextEvent(w, st.log, a);
    NextRun(Events(w, st.log), Poll(at));
    hide Consistent, Follows, Events, Streams, Run;
  }

  lemma HandleAckIsFaithful(w: World, st: State, payload: bytes)
    requires Faithful(w, st)
    ensures Faithful(w, HandleAck(w, st, payload))
  {
    hide AckNumber;
    match AckNumber(w, payload)
    case None =>
    case Some(n) =>
      Appended(w, st.log, HeardAck(n));
      NextEvent(w, st.log, HeardAck(n));
      NextRun(Events(w, st.log), Ack(n));
      hide Consistent, Follows, Events, Streams, Run;
  }

  lemma {:induction false} DrainIsFaithful(w: World, st: State, output: seq<Chunk>)
    requires Faithful(w, st)
    ensures Faithful(w, Drain(w, st, output))
    decreases |output|
  {
    hide Faithful, SendStream;
    if output != [] {
      SendIsFaithful(w, st, OUTPUT, output[0].data, output[0].stamp);
      DrainIsFaithful(w, SendStream(w, st, OUTPUT, output[0].data, output[0].stamp), output[1..]);
    }
  }

  lemma OneWaitIsFaithful(w: World, st: State, deadline: int, t: Wait)
    requires Faithful(w, st)
    ensures Faithful(w, OneWait(w, st, deadline, t).0)
  {
    hide Faithful, Pump, HandleAck, Arrive, Note;
    PumpIsFaithful(w, st, t.pumpAt);
    var st1 := Pump(st, t.pumpAt).0;
    if Arrive(t.inbound).Message? {
      HandleAckIsFaithful(w, st1, Arrive(t.inbound).m.payload);
      NoteIsFaithful(w, st1, AckSent(Arrive(t.inbound).m));
    }
  }

  lemma {:induction false} HandshakeIsFaithful(w: World, st: State, deadline: int, waits: seq<Wait>)
    requires Faithful(w, st)
    ensures Faithful(w, Handshake(w, st, deadline, waits).0)
    decreases |waits|
  {
    hide OneWait, Faithful;
    if waits != [] {
      OneWaitIsFaithful(w, st, deadline, waits[0]);
      HandshakeIsFaithful(w, OneWait(w, st, deadline, waits[0]).0, deadline, waits[1..]);
    }
  }

  lemma NextIsFree(w: World, st: State, next: int)
    requires Faithful(w, st)
    ensures Faithful(w, st.(next := next))
  {
    hide Consistent, Events, Streams, Run;
  }

  lemma HandleInputIsFaithful(w: World, st: State, m: AgentMessage, writes: seq<nat>)
    requires Faithful(w, st)
    ensures Faithful(w, HandleInput(st, m, writes).0)
  {
    hide Faithful, Taken, Note;
    var st0 := st.(next := st.next + 1);
    NextIsFree(w, st, st.next + 1);
    var st1 := Note(st0, Typed(m));
    NoteIsFaithful(w, st0, Typed(m));
    NoteIsFaithful(w, st1, Resized(m.payload));
    TakenWithin(|m.payload|, writes);
    NoteIsFaithful(w, st1, Wrote(m.payload[..Taken(|m.payload|, writes).0]));
  }

  lemma OnePassIsFaithful(w: World, st: State, active: int, p: Pass)
    requires Faithful(w, st)
    ensures Faithful(w, OnePass(w, st, active, p).0)
  {
    hide Faithful, Pump, HandleAck, Arrive, Drain, HandleInput, Note;
    PumpIsFaithful(w, st, p.pumpAt);
    var st1 := Pump(st, p.pumpAt).0;
    DrainIsFaithful(w, st1, p.output);
    var st2 := Drain(w, st1, p.output);
    if Arrive(p.inbound).Message? {
      var m := Arrive(p.inbound).m;
      HandleAckIsFaithful(w, st2, m.payload);
      NoteIsFaithful(w, st2, AckSent(m));
      HandleInputIsFaithful(w, Note(st2, AckSent(m)), m, p.writes);
    }
  }

  lemma {:induction false} BridgeIsFaithful(w: World, st: State, active: int, passes: seq<Pass>)
    requires Faithful(w, st)
    ensures Faithful(w, Bridge(w, st, active, passes).0)
    decreases |passes|
  {
    hide OnePass, Faithful;
    if passes != [] {
      var (st1, passed) := OnePass(w, st, active, passes[0]);
      OnePassIsFaithful(w, st, active, passes[0]);
      if passed.Running? {
        BridgeIsFaithful(w, st1, passed.active, passes[1..]);
      }
    }
  }

  lemma TearDownIsFaithful(w: World, st: State, exitCode: bytes, stamp: Stamp)
    requires Faithful(w, st)
    ensures Faithful(w, TearDown(w, st, exitCode, stamp))
  {
    hide Faithful, Note, SendStream;
    NoteIsFaithful(w, st, Killed);
    NoteIsFaithful(w, Note(st, Killed), Reaped);
    NoteIsFaithful(w, Note(Note(st, Killed), Reaped), PtyClosed);
    var st1 := Note(Note(Note(st, Killed), Reaped), PtyClosed);
    SendIsFaithful(w, st1, EXIT_CODE, exitCode, stamp);
    var st2 := SendStream(w, st1, EXIT_CODE, exitCode, stamp);
    NoteIsFaithful(w, st2, Announced(false));
    NoteIsFaithful(w, Note(st2, Announced(false)), ChannelClosed);
  }

  lemma ServeIsFaithful(w: World, st: State, sequence: int, s: Script)
    requires Faithful(w, st)
    ensures Faithful(w, Serve(w, st, sequence, s))
  {
    hide Faithful, Note, SendStream, Bridge, TearDown;
    NoteIsFaithful(w, st, Accepted(sequence));
    SendIsFaithful(w, Note(st, Accepted(sequence)), HANDSHAKE_COMPLETE, NO_COMPLETION, s.completing);
    var st1 := SendStream(w, Note(st, Accepted(sequence)), HANDSHAKE_COMPLETE, NO_COMPLETION, s.completing);
    SendIsFaithful(w, st1, STD_ERR, s.failure, s.failing);
    NoteIsFaithful(w, st1, Spawned);
    NextIsFree(w, Note(st1, Spawned), sequence + 1);
    var st2 := Note(st1, Spawned).(next := sequence + 1);
    BridgeIsFaithful(w, st2, s.activeAt, s.passes);
    var st3 := Bridge(w, st2, s.activeAt, s.passes).0;
    NoteIsFaithful(w, st3, Aborted);
    TearDownIsFaithful(w, st3, s.exitCode, s.closing);
  }

  lemma OpenedIsFaithful(w: World, s: Script)
    ensures Faithful(w, Opened(w, s))
  {
    var st := State(0, [], 0, [Announced(true)]);
    assert st.log == [] + [Announced(true)];
    NextEvent(w, [], Announced(true));
    SendIsFaithful(w, st, HANDSHAKE_REQUEST, s.request, s.opening);
  }

  /** In every session the buffer is exactly what the log says it is. */
  lemma PlayIsFaithful(w: World, s: Script)
    ensures Faithful(w, Play(w, s))
  {
    hide Faithful, Handshake, Serve, Opened, Note;
    var st := Opened(w, s);
    OpenedIsFaithful(w, s);
    var deadline := s.start + HANDSHAKE_TIMEOUT_SECONDS;
    HandshakeIsFaithful(w, st, deadline, s.waits);
    var (st1, waited) := Handshake(w, st, deadline, s.waits);
    NoteIsFaithful(w, st1, Aborted);
    if waited.Ready? {
      ServeIsFaithful(w, st1, waited.sequence, s);
    }
  }

  // ---- fresh frames ----

  /** Fresh stream-data carries 0, 1, 2, ... with the SYN flag on the first alone. */
  lemma {:induction false} LogNumbersStreams(w: World, log: seq<Act>, k: nat)
    requires Consistent(w, log) && k < |Streams(log)|
    ensures var m := Streams(log)[k];
      && m.messageType == OUTPUT_STREAM_DATA && m.schemaVersion == 1
      && m.sequence == Wire64(k) && m.flags == (if k == 0 then 1 else 0)
  {
    var before := log[..|log| - 1];
    assert Follows(w, log[..|log| - 1], log[|log| - 1]);
    if k < |Streams(before)| {
      forall i | 0 <= i < |before| ensures Follows(w, before[..i], before[i]) {
        assert before[..i] == log[..i] && Follows(w, log[..i], log[i]);
      }
      hide Follows;
      LogNumbersStreams(w, before, k);
    }
  }

  lemma FreshFramesAreNumbered(w: World, s: Script, k: nat)
    requires k < |Streams(Play(w, s).log)|
    ensures var m := Streams(Play(w, s).log)[k];
      && m.messageType == OUTPUT_STREAM_DATA && m.schemaVersion == 1
      && m.sequence == Wire64(k) && m.flags == (if k == 0 then 1 else 0)
  {
    hide Play, Streams;
    PlayIsFaithful(w, s);
    LogNumbersStreams(w, Play(w, s).log, k);
  }

  lemma {:induction false} StreamsAdd(a: seq<Act>, b: seq<Act>)
    ensures Streams(a + b) == Streams(a) + Streams(b)
  {
    if b == [] {
      assert a + b == a;
    } else {
      assert (a + b)[..|a + b| - 1] == a + b[..|b| - 1];
      StreamsAdd(a, b[..|b| - 1]);
    }
  }

  ghost predicate AllTypes(ms: seq<AgentMessage>, payloadType: nat) {
    forall i :: 0 <= i < |ms| ==> ms[i].payloadType == payloadType
  }

  lemma {:induction false} WaitingStreams(acts: seq<Act>)
    requires All(acts, IsWaiting)
    ensures Streams(acts) == []
  {
    if acts != [] {
      WaitingStreams(acts[..|acts| - 1]);
    }
  }

  lemma {:induction false} BridgingStreams(acts: seq<Act>)
    requires All(acts, IsBridging)
    ensures AllTypes(Streams(acts), OUTPUT)
  {
    if acts != [] {
      BridgingStreams(acts[..|acts| - 1]);
    }
  }

  lemma OneStream(a: Act)
    ensures Streams([a]) == if a.Sent? then [a.m] else []
  {
    assert [a][..0] == [];
  }

  /** The payload types of a served session after its completion notice. */
  ghost predicate ServiceTypes(ms: seq<AgentMessage>, spawns: bool) {
    if !spawns then |ms| == 1 && ms[0].payloadType == 11
    else AllTypes(ms, 1) || (ms != [] && AllTypes(ms[..|ms| - 1], 1) && ms[|ms| - 1].payloadType == 12)
  }

  lemma TearDownStreams(acts: seq<Act>)
    requires IsTearDown(acts)
    ensures Streams(acts) == [acts[3].m]
  {
    hide Streams;
    assert acts == [acts[0]] + ([acts[1]] + ([acts[2]] + ([acts[3]] + ([acts[4]] + [acts[5]]))));
    StreamsAdd([acts[4]], [acts[5]]);
    StreamsAdd([acts[3]], [acts[4]] + [acts[5]]);
    StreamsAdd([acts[2]], [acts[3]] + ([acts[4]] + [acts[5]]));
    StreamsAdd([acts[1]], [acts[2]] + ([acts[3]] + ([acts[4]] + [acts[5]])));
    StreamsAdd([acts[0]], [acts[1]] + ([acts[2]] + ([acts[3]] + ([acts[4]] + [acts[5]]))));
    forall i | 0 <= i < 6 ensures Streams([acts[i]]) == if acts[i].Sent? then [acts[i].m] else [] {
      OneStream(acts[i]);
    }
  }

  lemma ServiceStreams(acts: seq<Act>, spawns: bool)
    requires IsService(acts, spawns)
    ensures ServiceTypes(Streams(acts), spawns)
  {
    hide Streams, IsTearDown;
    if spawns {
      var bridging, ending :| acts == [Spawned] + (bridging + ending) && All(bridging, IsBridging)
        && (ending == [Aborted] || IsTearDown(ending));
      BridgingStreams(bridging);
      OneStream(Spawned);
      OneStream(Aborted);
      StreamsAdd(bridging, ending);
      StreamsAdd([Spawned], bridging + ending);
      if IsTearDown(ending) {
        TearDownStreams(ending);
        ExitCodeLast(ending);
        assert (Streams(bridging) + Streams(ending))[..|Streams(bridging)|] == Streams(bridging);
      }
    } else {
      assert acts == [acts[0]];
      OneStream(acts[0]);
    }
  }

  lemma ExitCodeLast(acts: seq<Act>)
    requires IsTearDown(acts)
    ensures acts[3].Sent? && acts[3].m.payloadType == EXIT_CODE
  {}

  /** The request first; if anything follows it, the completion notice, then output and at most one exit code, or the one
      message that says no shell could be started. */
  lemma FreshFramesInOrder(w: World, s: Script)
    ensures var ms := Streams(Play(w, s).log);
      && ms != [] && ms[0].payloadType == 5
      && (|ms| > 1 ==> ms[1].payloadType == 7 && ServiceTypes(ms[2..], s.spawns))
  {
    hide Play, Streams, IsService, ServiceTypes, All;
    var head, tail := RunShape(w, s);
    StreamsAdd(head, tail);
    var pair, waiting := [head[0], head[1]], head[2..];
    assert head == pair + waiting && pair == [head[0]] + [head[1]];
    StreamsAdd(pair, waiting);
    StreamsAdd([head[0]], [head[1]]);
    WaitingStreams(waiting);
    OneStream(head[0]);
    OneStream(head[1]);
    OneStream(Aborted);
    NoStreams();
    if |tail| >= 2 {
      assert tail == ([tail[0]] + [tail[1]]) + tail[2..];
      StreamsAdd([tail[0]] + [tail[1]], tail[2..]);
      StreamsAdd([tail[0]], [tail[1]]);
      OneStream(tail[0]);
      OneStream(tail[1]);
      ServiceStreams(tail[2..], s.spawns);
      assert Streams(Play(w, s).log)[2..] == Streams(tail[2..]);
    }
  }

  lemma NoStreams()
    ensures Streams([]) == []
  {}

  // ---- resends and silence ----

  lemma NothingRuns(w: World)
    ensures Run(Events(w, [])) == History([], [], [])
  {}

  /** What one more act adds to the frames sent and resent. */
  lemma NextHistory(w: World, log: seq<Act>)
    requires log != []
    ensures var h, h' := Run(Events(w, log[..|log| - 1])), Run(Events(w, log));
      var a := log[|log| - 1];
      && h'.sent == (if a.Sent? then h.sent + [Sending(FrameOf(w, a.m), a.at)] else h.sent)
      && (!a.Pumped? ==> h'.resent == h.resent)
      && (a.Pumped? ==> h'.resent == if Answer(h.buf, a.at).Resend? then h.resent + [h.buf[0].number] else h.resent)
  {
    hide FrameOf, Added, Acked, Polled, Answer;
    var before, a := log[..|log| - 1], log[|log| - 1];
    assert Events(w, before) + [] == Events(w, before);
    if EventOf(w, a) != [] {
      NextRun(Events(w, before), EventOf(w, a)[0]);
    }
    hide Run;
  }

  /** The k-th frame the buffer was given is the k-th fresh message of the log, sent at the time the log says. */
  lemma {:induction false} SentIsLogged(w: World, log: seq<Act>, k: nat) returns (j: nat)
    requires k < |Run(Events(w, log)).sent|
    ensures j < |log| && log[j].Sent?
    ensures Run(Events(w, log)).sent[k] == Sending(FrameOf(w, log[j].m), log[j].at)
  {
    hide FrameOf, Run, Events, Answer;
    if log == [] {
      NothingRuns(w);
    }
    var before, a := log[..|log| - 1], log[|log| - 1];
    NextHistory(w, log);
    if k < |Run(Events(w, before)).sent| {
      j := SentIsLogged(w, before, k);
    } else {
      j := |log| - 1;
    }
  }

  /** Every resend is byte for byte a frame sent earlier in the same session. */
  lemma ResendsRepeatFrames(w: World, s: Script, i: nat) returns (j: nat)
    requires i < |Play(w, s).log| && Play(w, s).log[i].Pumped? && Play(w, s).log[i].answer.Resend?
    ensures var log := Play(w, s).log;
      j < i && log[j].Sent? && FrameOf(w, log[j].m) == log[i].answer.frame
  {
    hide Play, Events, Run, Answer, FrameOf;
    var log := Play(w, s).log;
    PlayIsFaithful(w, s);
    assert Follows(w, log[..i], log[i]);
    var events := Events(w, log[..i]);
    ResendRepeatsAFrame(events, log[i].at);
    j := SentIsLogged(w, log[..i], |Run(events).sent| - |Run(events).buf|);
  }

  predicate Resends(a: Act, frame: bytes) {
    a.Pumped? && a.answer == Resend(frame)
  }

  function TimesResent(log: seq<Act>, frame: bytes): nat {
    if log == [] then 0
    else TimesResent(log[..|log| - 1], frame) + if Resends(log[|log| - 1], frame) then 1 else 0
  }

  /** A peer is given up only for a frame first sent at least 241 intervals ago and resent at least 240 times since. */
  lemma PeerGivenUpOnlyAfterSilence(w: World, s: Script, i: nat) returns (j: nat)
    requires i < |Play(w, s).log| && Play(w, s).log[i].Pumped? && Play(w, s).log[i].answer.Dead?
    ensures var log := Play(w, s).log;
      && j < i && log[j].Sent?
      && log[i].at - log[j].at >= 241 * 250
      && TimesResent(log[..i], FrameOf(w, log[j].m)) >= 240
  {
    hide Play, Events, Run, Answer, FrameOf, Times, TimesResent;
    var log := Play(w, s).log;
    PlayIsFaithful(w, s);
    assert Follows(w, log[..i], log[i]);
    var events := Events(w, log[..i]);
    DeadOnlyAfterSilence(events, log[i].at);
    var oldest := |Run(events).sent| - |Run(events).buf|;
    j := SentIsLogged(w, log[..i], oldest);
    ConsistentBefore(w, log, i);
    ResendsAreLogged(w, log[..i], oldest);
  }

  lemma ConsistentBefore(w: World, log: seq<Act>, i: nat)
    requires Consistent(w, log) && i <= |log|
    ensures Consistent(w, log[..i])
  {
    hide Follows;
    forall k | 0 <= k < i ensures Follows(w, log[..i][..k], log[..i][k]) {
      assert log[..i][..k] == log[..k];
    }
  }

  lemma {:induction false} ResendsAreLogged(w: World, log: seq<Act>, k: nat)
    requires Consistent(w, log) && k < |Run(Events(w, log)).sent|
    ensures Times(Run(Events(w, log)).resent, k) <= TimesResent(log, Run(Events(w, log)).sent[k].frame)
  {
    hide FrameOf, Run, Events, Answer;
    if log == [] {
      NothingRuns(w);
    }
    var before, a := log[..|log| - 1], log[|log| - 1];
    NextHistory(w, log);
    ConsistentBefore(w, log, |log| - 1);
    assert Follows(w, log[..|log| - 1], a);
    hide Consistent;
    var h := Run(Events(w, before));
    EveryRunIsValid(Events(w, before));
    if k < |h.sent| {
      ResendsAreLogged(w, before, k);
      if a.Pumped? && a.answer.Resend? {
        ResendRepeatsAFrame(Events(w, before), a.at);
        OldestInFront(h);
      }
    } else {
      NeverResent(h.resent, k);
    }
  }

  lemma OldestInFront(h: History)
    requires Valid(h) && h.buf != []
    ensures h.buf[0].number == |h.sent| - |h.buf|
  {}
}
