/** What the shell says reaches the channel: every chunk, once and in order. */
module SessionOutput {
  import opened Bytes
  import opened Mgs
  import opened Outbox
  import opened Session
  import opened SessionPasses
  import opened SessionRuns
  import Json

  /** The payloads of the fresh stream-data in a log. */
  function Forwarded(acts: seq<Act>): seq<bytes> {
    if acts == [] then []
    else if acts[|acts| - 1].Sent? then Forwarded(acts[..|acts| - 1]) + [acts[|acts| - 1].m.payload]
    else Forwarded(acts[..|acts| - 1])
  }

  function Said(output: seq<Chunk>): seq<bytes> {
    if output == [] then [] else [output[0].data] + Said(output[1..])
  }

  function AllSaid(passes: seq<Pass>): seq<bytes> {
    if passes == [] then [] else Said(passes[0].output) + AllSaid(passes[1..])
  }

  predicate Quiet(a: Act) {
    !a.Sent?
  }

  lemma NextForwarded(acts: seq<Act>, a: Act)
    ensures Forwarded(acts + [a]) == if a.Sent? then Forwarded(acts) + [a.m.payload] else Forwarded(acts)
  {
    assert (acts + [a])[..|acts|] == acts;
  }

  lemma {:induction false} QuietForwardsNothing(before: seq<Act>, after: seq<Act>)
    requires before <= after && forall i :: |before| <= i < |after| ==> Quiet(after[i])
    ensures Forwarded(after) == Forwarded(before)
    decreases |after|
  {
    if |before| < |after| {
      assert Quiet(after[|after| - 1]);
      QuietForwardsNothing(before, after[..|after| - 1]);
    } else {
      assert before == after;
    }
  }

  lemma {:induction false} DrainForwards(w: World, st: State, output: seq<Chunk>)
    ensures Forwarded(Drain(w, st, output).log) == Forwarded(st.log) + Said(output)
    decreases |output|
  {
    hide Forwarded, SendStream;
    if output == [] {
      assert Forwarded(st.log) + [] == Forwarded(st.log);
    } else {
      var st1 := SendStream(w, st, OUTPUT, output[0].data, output[0].stamp);
      SendForwards(w, st, OUTPUT, output[0].data, output[0].stamp);
      DrainForwards(w, st1, output[1..]);
      assert Forwarded(st.log) + [output[0].data] + Said(output[1..])
          == Forwarded(st.log) + ([output[0].data] + Said(output[1..]));
    }
  }

  lemma PumpIsQuiet(st: State, at: int)
    ensures Forwarded(Pump(st, at).0.log) == Forwarded(st.log)
  {
    hide Forwarded, Answer;
    NextForwarded(st.log, Pumped(at, Answer(st.outbox, at)));
  }

  lemma AcksAreQuiet(w: World, st: State, m: AgentMessage, writes: seq<nat>)
    ensures Forwarded(HandleAck(w, st, m.payload).log) == Forwarded(st.log)
    ensures Forwarded(HandleInput(Note(st, AckSent(m)), m, writes).0.log) == Forwarded(st.log)
  {
    hide Forwarded, AckNumber, Acked, Taken, Json.Parse;
    QuietForwardsNothing(st.log, HandleAck(w, st, m.payload).log);
    QuietForwardsNothing(st.log, HandleInput(Note(st, AckSent(m)), m, writes).0.log);
  }

  /** A pass that gets as far as the shell forwards everything it says, even when a send fails or the shell ends. */
  lemma OnePassForwards(w: World, st: State, active: int, p: Pass)
    ensures var st' := OnePass(w, st, active, p).0;
      Forwarded(st'.log) == Forwarded(st.log) + if Drains(st, active, p) then Said(p.output) else []
  {
    hide Forwarded, Drain, HandleAck, HandleInput, Arrive, Answer, Polled;
    PumpIsQuiet(st, p.pumpAt);
    var st1 := Pump(st, p.pumpAt).0;
    DrainForwards(w, st1, p.output);
    var st2 := Drain(w, st1, p.output);
    assert Forwarded(st.log) + [] == Forwarded(st.log);
    if Arrive(p.inbound).Message? {
      AcksAreQuiet(w, st2, Arrive(p.inbound).m, p.writes);
    }
  }

  /** The fresh stream-data of the bridge is exactly what the shell said in the passes that got as far as it, chunk for
      chunk. */
  lemma {:induction false} BridgeForwardsOutput(w: World, st: State, active: int, passes: seq<Pass>)
    ensures var n := PassesDrained(w, st, active, passes);
      Forwarded(Bridge(w, st, active, passes).0.log) == Forwarded(st.log) + AllSaid(passes[..n])
    decreases |passes|
  {
    hide Forwarded, OnePass, Said, Drains, Listens;
    if passes == [] || !Drains(st, active, passes[0]) {
      if passes != [] {
        OnePassForwards(w, st, active, passes[0]);
        PassGoesOn(w, st, active, passes[0]);
        ListeningDrains(st, active, passes[0]);
      }
      assert passes[..0] == [] && Forwarded(st.log) + [] == Forwarded(st.log);
    } else {
      var (st1, passed) := OnePass(w, st, active, passes[0]);
      OnePassForwards(w, st, active, passes[0]);
      var n := PassesDrained(w, st, active, passes);
      var later := passes[1..][..n - 1];
      assert passes[..n][0] == passes[0] && passes[..n][1..] == later;
      if passed.Running? {
        BridgeForwardsOutput(w, st1, passed.active, passes[1..]);
      } else {
        assert later == [] && Forwarded(st1.log) + [] == Forwarded(st1.log);
      }
      assert Forwarded(st.log) + Said(passes[0].output) + AllSaid(later)
          == Forwarded(st.log) + (Said(passes[0].output) + AllSaid(later));
    }
  }

  lemma ListeningDrains(st: State, active: int, p: Pass)
    ensures Listens(st, active, p) ==> Drains(st, active, p)
  {
    hide Drains;
  }

  // ---- whole sessions ----

  lemma SendForwards(w: World, st: State, payloadType: u32, payload: bytes, stamp: Stamp)
    ensures Forwarded(SendStream(w, st, payloadType, payload, stamp).log) == Forwarded(st.log) + [payload]
  {
    hide FrameOf, Added, Forwarded;
    NextForwarded(st.log, Sent(StreamMessage(st.outSeq, payloadType, payload, stamp), stamp.at));
  }

  lemma NoteForwards(st: State, a: Act)
    requires !a.Sent?
    ensures Forwarded(Note(st, a).log) == Forwarded(st.log)
  {
    NextForwarded(st.log, a);
  }

  lemma HandshakeForwardsNothing(w: World, st: State, deadline: int, waits: seq<Wait>)
    ensures Forwarded(Handshake(w, st, deadline, waits).0.log) == Forwarded(st.log)
  {
    hide Forwarded, Handshake;
    HandshakeDoes(w, st, deadline, waits);
    QuietForwardsNothing(st.log, Handshake(w, st, deadline, waits).0.log);
  }

  lemma StartedForwards(w: World, s: Script)
    requires Served(w, s)
    ensures Forwarded(Started(w, s).log) == [s.request] + [NO_COMPLETION]
  {
    hide Forwarded, SendStream, Handshake, Opened, Note;
    OpenedForwards(w, s);
    HandshakeForwardsNothing(w, Opened(w, s), Deadline(s), s.waits);
    var (st, waited) := AfterWait(w, s);
    var accepted := Note(st, Accepted(waited.sequence));
    NoteForwards(st, Accepted(waited.sequence));
    SendForwards(w, accepted, HANDSHAKE_COMPLETE, NO_COMPLETION, s.completing);
    NoteForwards(SendStream(w, accepted, HANDSHAKE_COMPLETE, NO_COMPLETION, s.completing), Spawned);
  }

  lemma RefusalForwards(w: World, s: Script)
    requires Served(w, s) && !s.spawns
    ensures Forwarded(Play(w, s).log) == [s.request] + ([NO_COMPLETION] + [s.failure])
  {
    hide Forwarded, SendStream, Handshake, Opened, Note;
    OpenedForwards(w, s);
    HandshakeForwardsNothing(w, Opened(w, s), Deadline(s), s.waits);
    var (st, waited) := AfterWait(w, s);
    var accepted := Note(st, Accepted(waited.sequence));
    NoteForwards(st, Accepted(waited.sequence));
    SendForwards(w, accepted, HANDSHAKE_COMPLETE, NO_COMPLETION, s.completing);
    var completed := SendStream(w, accepted, HANDSHAKE_COMPLETE, NO_COMPLETION, s.completing);
    SendForwards(w, completed, STD_ERR, s.failure, s.failing);
    assert [s.request] + [NO_COMPLETION] + [s.failure] == [s.request] + ([NO_COMPLETION] + [s.failure]);
  }

  lemma TearDownForwards(w: World, st: State, exitCode: bytes, stamp: Stamp)
    ensures Forwarded(TearDown(w, st, exitCode, stamp).log) == Forwarded(st.log) + [exitCode]
  {
    hide Forwarded, SendStream, Note;
    NoteForwards(st, Killed);
    NoteForwards(Note(st, Killed), Reaped);
    NoteForwards(Note(Note(st, Killed), Reaped), PtyClosed);
    var st1 := Note(Note(Note(st, Killed), Reaped), PtyClosed);
    SendForwards(w, st1, EXIT_CODE, exitCode, stamp);
    var st2 := SendStream(w, st1, EXIT_CODE, exitCode, stamp);
    NoteForwards(st2, Announced(false));
    NoteForwards(Note(st2, Announced(false)), ChannelClosed);
  }

  /** Every session's fresh stream-data, payload by payload: the request; once accepted, the completion notice; then why no
      shell could be started, or what the shell said in the passes made and, unless the process goes down, its exit code. */
  lemma SessionForwards(w: World, s: Script)
    ensures !Served(w, s) ==> Forwarded(Play(w, s).log) == [s.request]
    ensures Served(w, s) && !s.spawns ==> Forwarded(Play(w, s).log) == [s.request] + ([NO_COMPLETION] + [s.failure])
    ensures Served(w, s) && s.spawns ==>
        var n := PassesDrained(w, Started(w, s), s.activeAt, s.passes);
        var code := if Bridge(w, Started(w, s), s.activeAt, s.passes).1.Down? then [] else [s.exitCode];
        Forwarded(Play(w, s).log) == [s.request] + ([NO_COMPLETION] + (AllSaid(s.passes[..n]) + code))
  {
    hide Forwarded, SendStream, Handshake, Opened, Note, AllSaid, Bridge, TearDown, Serve, Started;
    if !Served(w, s) {
      OpenedForwards(w, s);
      HandshakeForwardsNothing(w, Opened(w, s), Deadline(s), s.waits);
      NoteForwards(AfterWait(w, s).0, Aborted);
    } else if !s.spawns {
      RefusalForwards(w, s);
    } else {
      StartedForwards(w, s);
      ServedPlay(w, s);
      var st := Started(w, s);
      BridgeForwardsOutput(w, st, s.activeAt, s.passes);
      var said := AllSaid(s.passes[..PassesDrained(w, st, s.activeAt, s.passes)]);
      var after := Bridge(w, st, s.activeAt, s.passes).0;
      NoteForwards(after, Aborted);
      TearDownForwards(w, after, s.exitCode, s.closing);
      FourParts([s.request], [NO_COMPLETION], said, [s.exitCode]);
    }
  }

  lemma FourParts(a: seq<bytes>, b: seq<bytes>, c: seq<bytes>, d: seq<bytes>)
    ensures a + b + c + d == a + (b + (c + d))
    ensures a + b + c == a + (b + (c + []))
  {}

  lemma OpenedForwards(w: World, s: Script)
    ensures Forwarded(Opened(w, s).log) == [s.request]
  {
    var st := State(0, [], 0, [Announced(true)]);
    assert st.log == [] + [Announced(true)];
    NextForwarded([], Announced(true));
    SendForwards(w, st, HANDSHAKE_REQUEST, s.request, s.opening);
    assert [] + [s.request] == [s.request];
  }
}
