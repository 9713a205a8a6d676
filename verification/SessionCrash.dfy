/** A way out that leaves a shell behind: an inbound frame whose declared header length wraps in 32 bits makes the decoder
    reach past the end of the frame, and the exception brings the process down. */
module SessionCrash {
  import opened Bytes
  import opened Mgs
  import opened MgsProofs
  import opened Outbox
  import opened Session
  import opened SessionPasses
  import opened SessionRuns

  /** What a caller can check of a frame before handing it on. */
  predicate Wraps(inbound: Inbound) {
    && inbound.Frame? && |inbound.payload| >= PAYLOAD_OFFSET
    && Field(inbound.payload, 0, 4) >= TWO32 - 4 && |inbound.payload| < Field(inbound.payload, 0, 4) + 4
  }

  lemma CrashExactlyOnWrap(inbound: Inbound)
    ensures Arrive(inbound).Crash? <==> Wraps(inbound)
  {
    hide Field, Deserialize;
    if inbound.Frame? {
      OutOfRangeExactlyOnWrap(inbound.payload);
    }
  }

  // ---- exactly when a session goes down ----

  /** The wait ends in a crash exactly when an arrival it hears wraps. */
  lemma {:induction false} HandshakeCrashes(w: World, st: State, deadline: int, waits: seq<Wait>)
    ensures Handshake(w, st, deadline, waits).1.Crashed?
       <==> exists k :: 0 <= k < WaitsHeard(w, st, deadline, waits) && Wraps(waits[k].inbound)
    decreases |waits|
  {
    hide OneWait, Arrive, Wraps, Waits, Verdict;
    if waits != [] {
      OneWaitVerdict(w, st, deadline, waits[0]);
      CrashVerdict(w, waits[0].inbound);
      var (st1, waited) := OneWait(w, st, deadline, waits[0]);
      if waited.Again? {
        HandshakeCrashes(w, st1, deadline, waits[1..]);
        var n := WaitsHeard(w, st1, deadline, waits[1..]);
        assert forall k :: 0 <= k < n ==> waits[1..][k] == waits[k + 1];
        assert forall k :: 1 <= k < n + 1 ==> waits[k] == waits[1..][k - 1];
      }
    }
  }

  lemma CrashVerdict(w: World, inbound: Inbound)
    ensures Verdict(w, inbound).Crashed? <==> Wraps(inbound)
  {
    CrashExactlyOnWrap(inbound);
    hide Arrive, Wraps;
  }

  lemma OnePassCrashes(w: World, st: State, active: int, p: Pass)
    ensures OnePass(w, st, active, p).1.Down? <==> Listens(st, active, p) && Wraps(p.inbound)
  {
    SentAll(p.output);
    hide Arrive, Wraps, Note, Drain, Apply, AllSent, Answer, Polled, HandleAck;
    CrashExactlyOnWrap(p.inbound);
  }

  /** The main loop goes down exactly when an arrival it hears wraps. */
  lemma {:induction false} BridgeCrashes(w: World, st: State, active: int, passes: seq<Pass>)
    ensures Bridge(w, st, active, passes).1.Down?
       <==> exists k :: 0 <= k < PassesHeard(w, st, active, passes) && Wraps(passes[k].inbound)
    decreases |passes|
  {
    hide OnePass, Wraps, Listens;
    if passes != [] {
      OnePassCrashes(w, st, active, passes[0]);
      PassGoesOn(w, st, active, passes[0]);
      WrapsEnd(st.next, passes[0]);
      var (st1, passed) := OnePass(w, st, active, passes[0]);
      if passed.Running? {
        BridgeCrashes(w, st1, passed.active, passes[1..]);
        var n := PassesHeard(w, st1, passed.active, passes[1..]);
        assert forall k :: 0 <= k < n ==> passes[1..][k] == passes[k + 1];
        assert forall k :: 1 <= k < n + 1 ==> passes[k] == passes[1..][k - 1];
      }
    }
  }

  lemma WrapsEnd(next: int, p: Pass)
    ensures Wraps(p.inbound) ==> Ends(next, p)
  {
    CrashExactlyOnWrap(p.inbound);
    hide Arrive, Wraps;
  }

  /** An arrival of the wait, or of the loop, is heard and wraps. */
  ghost predicate WaitWraps(w: World, s: Script) {
    s.opening.ok
    && exists k :: 0 <= k < WaitsHeard(w, Opened(w, s), Deadline(s), s.waits) && Wraps(s.waits[k].inbound)
  }

  ghost predicate ShellWraps(w: World, s: Script) {
    Served(w, s) && s.spawns
    && exists k :: 0 <= k < PassesHeard(w, Started(w, s), s.activeAt, s.passes) && Wraps(s.passes[k].inbound)
  }

  predicate IsNotAborted(a: Act) {
    a != Aborted
  }

  lemma WaitIsNotAborted(w: World, s: Script)
    ensures All(Opened(w, s).log, IsNotAborted) && All(AfterWait(w, s).0.log, IsNotAborted)
  {
    hide FrameOf, Added, Handshake;
    assert All(Opened(w, s).log, IsNotAborted);
    hide Opened;
    HandshakeDoes(w, Opened(w, s), Deadline(s), s.waits);
  }

  lemma StartedIsNotAborted(w: World, s: Script)
    requires Served(w, s)
    ensures All(Started(w, s).log, IsNotAborted)
    ensures !s.spawns ==> All(Play(w, s).log, IsNotAborted)
  {
    WaitIsNotAborted(w, s);
    hide FrameOf, Added, Handshake, Opened;
  }

  lemma ShellIsAborted(w: World, s: Script)
    requires Served(w, s) && s.spawns
    ensures Aborted in Play(w, s).log <==> Bridge(w, Started(w, s), s.activeAt, s.passes).1.Down?
  {
    hide Bridge, Started, TearDown, Play, AfterWait;
    var st := Started(w, s);
    StartedIsNotAborted(w, s);
    ServedPlay(w, s);
    BridgeDoes(w, st, s.activeAt, s.passes);
    var (st1, passed) := Bridge(w, st, s.activeAt, s.passes);
    hide Served;
    var ending := TearDownShape(w, st1, s.exitCode, s.closing);
  }

  /** A session brings the process down exactly when an arrival that it hears wraps. */
  lemma DownExactlyOnWrap(w: World, s: Script)
    ensures Aborted in Play(w, s).log <==> WaitWraps(w, s) || ShellWraps(w, s)
  {
    hide Handshake, Wraps, WaitsHeard, PassesHeard, Started, FrameOf, Added, Opened, Bridge, Serve;
    HandshakeCrashes(w, Opened(w, s), Deadline(s), s.waits);
    WaitIsNotAborted(w, s);
    if Served(w, s) {
      StartedIsNotAborted(w, s);
      if s.spawns {
        ShellIsAborted(w, s);
        BridgeCrashes(w, Started(w, s), s.activeAt, s.passes);
      }
    }
  }

  /** A shell is left behind exactly when an arrival that its loop hears wraps; every other shell is torn down. */
  lemma ShellsAreTornDownExactlyWithoutWraps(w: World, s: Script)
    requires Served(w, s) && s.spawns
    ensures var log := Play(w, s).log;
      && Count(log, Spawned) == 1
      && Count(log, Killed) == Count(log, Reaped) == Count(log, PtyClosed)
      && Count(log, Killed) == if ShellWraps(w, s) then 0 else 1
  {
    hide Play, Started, Wraps, PassesHeard, Bridge, Count, AfterWait;
    ShellIsTornDownOnce(w, s);
    ShellIsAborted(w, s);
    BridgeCrashes(w, Started(w, s), s.activeAt, s.passes);
    SpawnIsLogged(w, s);
    var log := Play(w, s).log;
    CountsSeen(log, Spawned);
    CountsUnseen(log, Aborted);
    if Aborted in log {
      CountsSeen(log, Aborted);
    }
  }

  lemma SpawnIsLogged(w: World, s: Script)
    requires Served(w, s) && s.spawns
    ensures Spawned in Play(w, s).log
  {
    ServedPlay(w, s);
    var st := Started(w, s);
    assert st.log[|st.log| - 1] == Spawned;
    hide Started, Bridge, Served, Play, TearDown;
    BridgeDoes(w, st, s.activeAt, s.passes);
    var st1 := Bridge(w, st, s.activeAt, s.passes).0;
    assert st1.log[|st.log| - 1] == Spawned;
    var ending := TearDownShape(w, st1, s.exitCode, s.closing);
  }

  lemma {:induction false} CountsUnseen(log: seq<Act>, a: Act)
    ensures a !in log ==> Count(log, a) == 0
  {
    if log != [] {
      CountsUnseen(log[1..], a);
    }
  }

  lemma {:induction false} CountsSeen(log: seq<Act>, a: Act)
    requires a in log
    ensures Count(log, a) >= 1
  {
    if log[0] != a {
      CountsSeen(log[1..], a);
    }
  }

  // ---- it does happen ----

  const QUIET_STAMP := Stamp(0, [], 0, true)

  function Response(payload: bytes): AgentMessage {
    AgentMessage(INPUT_STREAM_DATA, 1, 0, 0, 0, UuidFromWire(Fill(16, 0)), HANDSHAKE_RESPONSE, payload)
  }

  /** One accepted handshake response, then one arrival. */
  function TwoArrivals(w: World, payload: bytes, f: Inbound): Script {
    Script([], QUIET_STAMP, 0, [Wait(0, 0, Frame(FrameOf(w, Response(payload))))],
           QUIET_STAMP, true, [], QUIET_STAMP,
           0, [Pass(0, 0, [], false, f, 0, [])],
           [], QUIET_STAMP)
  }

  lemma ResponseArrives(w: World, payload: bytes)
    ensures Arrive(Frame(FrameOf(w, Response(payload)))) == Message(Response(payload))
  {
    hide Serialize, Deserialize, UuidFromWire;
    MessageRoundTrip(Response(payload), w.sha(payload));
    assert FittingType(INPUT_STREAM_DATA) by {
      assert INPUT_STREAM_DATA[16] == 97;
    }
    UuidFromWireIsCanonical(Fill(16, 0));
  }

  lemma ResponseIs(payload: bytes)
    ensures var m := Response(payload);
      m.messageType == INPUT_STREAM_DATA && m.payloadType == HANDSHAKE_RESPONSE && m.payload == payload && m.sequence == 0
    ensures INPUT_STREAM_DATA != ACKNOWLEDGE
  {
    hide UuidFromWire;
    assert |INPUT_STREAM_DATA| == 17 && |ACKNOWLEDGE| == 11;
  }

  /** It is accepted, and its loop hears the arrival. */
  lemma TwoArrivalsAreHeard(w: World, payload: bytes, f: Inbound)
    requires w.accepts(payload)
    ensures var s := TwoArrivals(w, payload, f);
      && Served(w, s) && s.spawns
      && PassesHeard(w, Started(w, s), s.activeAt, s.passes) == 1
  {
    hide FrameOf, Arrive, Response, Serialize;
    var s := TwoArrivals(w, payload, f);
    ResponseArrives(w, payload);
    ResponseIs(payload);
    var t := s.waits[0];
    var st := Opened(w, s);
    OneWaitVerdict(w, st, Deadline(s), t);
    assert OneWait(w, st, Deadline(s), t).1 == Ready(0);
    assert AfterWait(w, s).1 == Ready(0);
    FreshBuffer(w, s);
    hide OnePass;
  }

  /** Nothing is due for a resend at the time it was sent. */
  lemma FreshBuffer(w: World, s: Script)
    requires Served(w, s) && |s.waits| == 1 && s.waits[0].pumpAt == s.opening.at == 0
    requires var a := Arrive(s.waits[0].inbound); a.Message? && a.m.messageType == INPUT_STREAM_DATA != ACKNOWLEDGE
    requires IsResponse(s.waits[0].inbound)
    ensures Answer(Started(w, s).outbox, 0) == Due.Nothing
  {
    hide FrameOf, Arrive;
    var st := Opened(w, s);
    assert st.outbox[0].lastSentMs == 0;
    assert Answer(st.outbox, 0) == Due.Nothing && Polled(st.outbox, 0) == st.outbox;
  }

  /** Every arrival that wraps has a session whose shell it leaves behind. */
  lemma WrapAbandonsShell(w: World, payload: bytes, f: Inbound)
    requires w.accepts(payload) && Wraps(f)
    ensures var log := Play(w, TwoArrivals(w, payload, f)).log;
      Count(log, Spawned) == 1 && Count(log, Killed) == 0
  {
    hide Play, Count, PassesHeard, Served, Started, Wraps, TwoArrivals;
    var s := TwoArrivals(w, payload, f);
    TheTwoArrivals(w, payload, f);
    TwoArrivalsAreHeard(w, payload, f);
    assert Wraps(s.passes[0].inbound);
    ShellsAreTornDownExactlyWithoutWraps(w, s);
  }

  lemma TheTwoArrivals(w: World, payload: bytes, f: Inbound)
    ensures var s := TwoArrivals(w, payload, f);
      && |s.waits| == 1 && s.waits[0].inbound == Frame(FrameOf(w, Response(payload)))
      && |s.passes| == 1 && s.passes[0].inbound == f
  {}

  /** Nothing but the arrival can wrap in it. */
  lemma TwoArrivalsWrapOnlyBy(w: World, payload: bytes, f: Inbound)
    ensures WrapsOnlyBy(TwoArrivals(w, payload, f), f)
  {
    hide Wraps, TwoArrivals, Arrive, FrameOf, Response;
    TheTwoArrivals(w, payload, f);
    ResponseArrives(w, payload);
    CrashExactlyOnWrap(TwoArrivals(w, payload, f).waits[0].inbound);
  }

  /** No arrival of the script wraps, unless it is f. */
  ghost predicate WrapsOnlyBy(s: Script, f: Inbound) {
    && (forall t :: t in s.waits ==> Wraps(t.inbound) ==> t.inbound == f)
    && (forall p :: p in s.passes ==> Wraps(p.inbound) ==> p.inbound == f)
  }

  /** An arrival is harmless, in that every session in which nothing else wraps tears its shell down, exactly when it does
      not wrap: the guard a caller can put in front of the decoder. */
  lemma HarmlessExactlyWithoutWrap(w: World, payload: bytes, f: Inbound)
    requires w.accepts(payload)
    ensures (forall s :: WrapsOnlyBy(s, f) ==> Count(Play(w, s).log, Killed) == Count(Play(w, s).log, Spawned)) <==> !Wraps(f)
  {
    hide Play, Count, Wraps, WrapsOnlyBy, TwoArrivals;
    if Wraps(f) {
      WrapAbandonsShell(w, payload, f);
      TwoArrivalsWrapOnlyBy(w, payload, f);
    } else {
      forall s | WrapsOnlyBy(s, f) ensures Count(Play(w, s).log, Killed) == Count(Play(w, s).log, Spawned) {
        NothingWraps(w, s, f);
        DownExactlyOnWrap(w, s);
        ShellIsTornDownOnce(w, s);
        CountsUnseen(Play(w, s).log, Aborted);
      }
    }
  }

  lemma NothingWraps(w: World, s: Script, f: Inbound)
    requires WrapsOnlyBy(s, f) && !Wraps(f)
    ensures !WaitWraps(w, s) && !ShellWraps(w, s)
  {
    hide Wraps, WaitsHeard, PassesHeard, Served, Started, Opened;
    assert forall k :: 0 <= k < |s.waits| ==> s.waits[k] in s.waits && !Wraps(s.waits[k].inbound);
    assert forall k :: 0 <= k < |s.passes| ==> s.passes[k] in s.passes && !Wraps(s.passes[k].inbound);
  }

  /** And one that does wrap: a frame of 120 bytes that declares a header of 2^32 - 1. */
  lemma WrappingFrameExists(tail: bytes)
    requires |tail| == 116
    ensures Wraps(Frame([255, 255, 255, 255] + tail))
  {
    hide Wraps;
    WrapHappens(tail);
    CrashExactlyOnWrap(Frame([255, 255, 255, 255] + tail));
  }
}
