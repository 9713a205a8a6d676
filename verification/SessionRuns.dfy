/** What holds over every session, whatever the world answers. */
module SessionRuns {
  import opened Bytes
  import opened Mgs
  import opened Outbox
  import opened Session

  // ---- what each phase may do ----

  /** While waiting for the handshake response. */
  predicate IsWaiting(a: Act) {
    a.Pumped? || a.HeardAck? || a.AckSent?
  }

  /** While the shell runs. */
  predicate IsBridging(a: Act) {
    IsWaiting(a) || a.Typed? || a.Wrote? || a.Resized? || (a.Sent? && a.m.payloadType == OUTPUT)
  }

  ghost predicate Does(before: State, after: State, p: Act -> bool) {
    && before.log <= after.log
    && forall i :: |before.log| <= i < |after.log| ==> p(after.log[i])
  }

  lemma PumpDoes(st: State, at: int)
    ensures Does(st, Pump(st, at).0, IsWaiting)
  {}

  lemma HandleAckDoes(w: World, st: State, payload: bytes)
    ensures Does(st, HandleAck(w, st, payload), IsWaiting)
  {
    hide AckNumber, Acked;
  }

  lemma {:induction false} DrainDoes(w: World, st: State, output: seq<Chunk>)
    ensures Does(st, Drain(w, st, output), IsBridging)
    decreases |output|
  {
    hide FrameOf, Added;
    if output != [] {
      var st1 := SendStream(w, st, OUTPUT, output[0].data, output[0].stamp);
      DrainDoes(w, st1, output[1..]);
    }
  }

  lemma OneWaitDoes(w: World, st: State, deadline: int, t: Wait)
    ensures Does(st, OneWait(w, st, deadline, t).0, IsWaiting)
  {
    hide Pump, HandleAck, Arrive;
    PumpDoes(st, t.pumpAt);
    if t.now <= deadline && Arrive(t.inbound).Message? {
      HandleAckDoes(w, Pump(st, t.pumpAt).0, Arrive(t.inbound).m.payload);
    }
  }

  lemma {:induction false} HandshakeDoes(w: World, st: State, deadline: int, waits: seq<Wait>)
    ensures Does(st, Handshake(w, st, deadline, waits).0, IsWaiting)
    decreases |waits|
  {
    hide OneWait;
    if waits != [] {
      OneWaitDoes(w, st, deadline, waits[0]);
      HandshakeDoes(w, OneWait(w, st, deadline, waits[0]).0, deadline, waits[1..]);
    }
  }

  lemma HandleInputDoes(st: State, m: AgentMessage, writes: seq<nat>)
    ensures Does(st, HandleInput(st, m, writes).0, IsBridging)
  {
    hide Taken;
  }

  lemma OnePassDoes(w: World, st: State, active: int, p: Pass)
    ensures Does(st, OnePass(w, st, active, p).0, IsBridging)
  {
    hide Pump, HandleAck, Arrive, Drain, HandleInput;
    PumpDoes(st, p.pumpAt);
    var st1 := Pump(st, p.pumpAt).0;
    DrainDoes(w, st1, p.output);
    var st2 := Drain(w, st1, p.output);
    if Arrive(p.inbound).Message? {
      var m := Arrive(p.inbound).m;
      HandleAckDoes(w, st2, m.payload);
      HandleInputDoes(Note(st2, AckSent(m)), m, p.writes);
    }
  }

  lemma {:induction false} BridgeDoes(w: World, st: State, active: int, passes: seq<Pass>)
    ensures Does(st, Bridge(w, st, active, passes).0, IsBridging)
    decreases |passes|
  {
    hide OnePass;
    if passes != [] {
      var (st1, passed) := OnePass(w, st, active, passes[0]);
      OnePassDoes(w, st, active, passes[0]);
      if passed.Running? {
        BridgeDoes(w, st1, passed.active, passes[1..]);
      }
    }
  }

  // ---- the shape of a run ----

  predicate IsStream(a: Act, payloadType: nat) {
    a.Sent? && a.m.payloadType == payloadType
  }

  ghost predicate All(acts: seq<Act>, p: Act -> bool) {
    forall i :: 0 <= i < |acts| ==> p(acts[i])
  }

  /** Kill, reap, close the pty, send the exit code, say so, close the channel. */
  predicate IsTearDown(acts: seq<Act>) {
    && |acts| == 6 && acts[0] == Killed && acts[1] == Reaped && acts[2] == PtyClosed
    && IsStream(acts[3], EXIT_CODE) && acts[4] == Announced(false) && acts[5] == ChannelClosed
  }

  /** The request and the wait. */
  ghost predicate IsHead(acts: seq<Act>) {
    && |acts| >= 2 && acts[0] == Announced(true) && IsStream(acts[1], HANDSHAKE_REQUEST)
    && All(acts[2..], IsWaiting)
  }

  /** The news that no shell could be started, or a shell, a bridge and an end. */
  ghost predicate IsService(acts: seq<Act>, spawns: bool) {
    if !spawns then |acts| == 1 && IsStream(acts[0], STD_ERR)
    else exists bridging, ending ::
        acts == [Spawned] + (bridging + ending) && All(bridging, IsBridging) && (ending == [Aborted] || IsTearDown(ending))
  }

  /** What follows the wait: nothing, a crash, or acceptance, completion and service. */
  ghost predicate IsTail(acts: seq<Act>, spawns: bool) {
    || acts == []
    || acts == [Aborted]
    || (|acts| >= 2 && acts[0].Accepted? && IsStream(acts[1], HANDSHAKE_COMPLETE) && IsService(acts[2..], spawns))
  }

  lemma DoesSplits(before: State, after: State, p: Act -> bool) returns (acts: seq<Act>)
    requires Does(before, after, p)
    ensures after.log == before.log + acts && All(acts, p)
  {
    acts := after.log[|before.log|..];
  }

  lemma TearDownShape(w: World, st: State, exitCode: bytes, stamp: Stamp) returns (ending: seq<Act>)
    ensures IsTearDown(ending) && TearDown(w, st, exitCode, stamp).log == st.log + ending
  {
    hide FrameOf, Added;
    ending := TearDown(w, st, exitCode, stamp).log[|st.log|..];
  }

  lemma BridgeShape(w: World, st: State, s: Script) returns (bridging: seq<Act>)
    ensures All(bridging, IsBridging) && Bridge(w, st, s.activeAt, s.passes).0.log == st.log + bridging
  {
    BridgeDoes(w, st, s.activeAt, s.passes);
    bridging := DoesSplits(st, Bridge(w, st, s.activeAt, s.passes).0, IsBridging);
  }

  lemma ServeShape(w: World, st: State, sequence: int, s: Script) returns (tail: seq<Act>)
    ensures IsTail(tail, s.spawns) && tail != []
    ensures Serve(w, st, sequence, s).log == st.log + tail
  {
    hide FrameOf, Added, Bridge, TearDown, All, IsBridging, IsTearDown;
    var st1 := SendStream(w, Note(st, Accepted(sequence)), HANDSHAKE_COMPLETE, NO_COMPLETION, s.completing);
    var complete := st1.log[|st1.log| - 1];
    assert st1.log == st.log + [Accepted(sequence), complete];
    var service;
    if !s.spawns {
      service := [Serve(w, st, sequence, s).log[|st1.log|]];
    } else {
      var served := Note(st1, Spawned).(next := sequence + 1);
      var bridging := BridgeShape(w, served, s);
      var (st2, passed) := Bridge(w, served, s.activeAt, s.passes);
      var ending := TearDownShape(w, st2, s.exitCode, s.closing);
      if passed.Down? {
        ending := [Aborted];
      }
      service := [Spawned] + (bridging + ending);
      assert Serve(w, st, sequence, s).log == st1.log + [Spawned] + bridging + ending;
    }
    tail := [Accepted(sequence), complete] + service;
    assert tail[2..] == service;
  }

  /** Every session, as a sentence. */
  lemma RunShape(w: World, s: Script) returns (head: seq<Act>, tail: seq<Act>)
    ensures Play(w, s).log == head + tail
    ensures IsHead(head) && IsTail(tail, s.spawns)
  {
    hide FrameOf, Added, Handshake, Serve, IsService, IsWaiting;
    var st := Opened(w, s);
    assert st.log == [Announced(true), st.log[1]];
    var deadline := s.start + HANDSHAKE_TIMEOUT_SECONDS;
    var (st1, waited) := Handshake(w, st, deadline, s.waits);
    HandshakeDoes(w, st, deadline, s.waits);
    var waiting := DoesSplits(st, st1, IsWaiting);
    if !s.opening.ok {
      waiting := [];
    }
    head := st.log + waiting;
    assert head[2..] == waiting;
    tail := [];
    if s.opening.ok && waited.Crashed? {
      tail := [Aborted];
    } else if s.opening.ok && waited.Ready? {
      tail := ServeShape(w, st1, waited.sequence, s);
    }
  }

  function Count(acts: seq<Act>, a: Act): nat {
    if acts == [] then 0 else (if acts[0] == a then 1 else 0) + Count(acts[1..], a)
  }

  lemma {:induction false} CountAdds(before: seq<Act>, after: seq<Act>, a: Act)
    ensures Count(before + after, a) == Count(before, a) + Count(after, a)
  {
    if before == [] {
      assert before + after == after;
    } else {
      assert (before + after)[1..] == before[1..] + after;
      CountAdds(before[1..], after, a);
    }
  }

  lemma {:induction false} CountNone(acts: seq<Act>, p: Act -> bool, a: Act)
    requires All(acts, p) && !p(a)
    ensures Count(acts, a) == 0
  {
    if acts != [] {
      CountNone(acts[1..], p, a);
    }
  }

  lemma CountOne(b: Act, acts: seq<Act>, a: Act)
    ensures Count([b] + acts, a) == (if b == a then 1 else 0) + Count(acts, a)
  {
    assert ([b] + acts)[1..] == acts;
  }

  /** The acts that start, end or abandon a shell. */
  predicate IsLife(a: Act) {
    a == Spawned || a == Aborted || a == Killed || a == Reaped || a == PtyClosed
  }

  function Once(b: bool): nat {
    if b then 1 else 0
  }

  lemma CountTearDown(acts: seq<Act>, a: Act)
    requires IsTearDown(acts) && IsLife(a)
    ensures Count(acts, a) == Once(a == Killed || a == Reaped || a == PtyClosed)
  {
    hide Count;
    var r3 := [acts[5]];
    var r2 := [acts[4]] + r3;
    var r1 := [acts[3]] + r2;
    CountOne(acts[5], [], a);
    CountOne(acts[4], r3, a);
    CountOne(acts[3], r2, a);
    CountOne(PtyClosed, r1, a);
    CountOne(Reaped, [PtyClosed] + r1, a);
    CountOne(Killed, [Reaped] + ([PtyClosed] + r1), a);
    assert acts == [Killed] + ([Reaped] + ([PtyClosed] + r1));
    assert r3 + [] == r3;
    CountNone([], IsWaiting, a);
  }

  lemma CountHead(acts: seq<Act>, a: Act)
    requires IsHead(acts) && IsLife(a)
    ensures Count(acts, a) == 0
  {
    hide Count;
    CountNone(acts[2..], IsWaiting, a);
    CountPair(acts, a);
  }

  lemma CountPair(acts: seq<Act>, a: Act)
    requires |acts| >= 2 && acts[0] != a && acts[1] != a
    ensures Count(acts, a) == Count(acts[2..], a)
  {
    assert acts[1..][1..] == acts[2..];
  }

  lemma CountService(bridging: seq<Act>, ending: seq<Act>, a: Act)
    requires All(bridging, IsBridging) && (ending == [Aborted] || IsTearDown(ending)) && IsLife(a)
    ensures Count([Spawned] + (bridging + ending), a) == Once(a == Spawned || (a == Aborted) == (ending == [Aborted]))
  {
    hide Count, IsTearDown;
    CountOne(Spawned, bridging + ending, a);
    CountAdds(bridging, ending, a);
    CountNone(bridging, IsBridging, a);
    if ending == [Aborted] {
      CountAlone(Aborted, a);
    } else {
      CountTearDown(ending, a);
    }
  }

  lemma CountNothing(a: Act)
    ensures Count([], a) == 0
  {}

  lemma CountAlone(b: Act, a: Act)
    ensures Count([b], a) == Once(b == a)
  {
    CountOne(b, [], a);
    assert [b] + [] == [b];
  }

  /** How often each act that starts, ends or abandons a shell happens, given how the session went. */
  lemma CountTail(tail: seq<Act>, spawns: bool) returns (served: bool, crashed: bool)
    requires IsTail(tail, spawns)
    ensures forall a | IsLife(a) ::
        Count(tail, a) == Once(if a == Spawned then served else if a == Aborted then crashed else served && !crashed)
  {
    hide Count, IsTearDown, IsLife;
    served, crashed := spawns && |tail| >= 2, tail == [Aborted];
    if |tail| < 2 {
      forall a | IsLife(a) ensures Count(tail, a) == Once(a == Aborted && crashed) {
        CountAlone(Aborted, a);
        CountNothing(a);
      }
    } else if !spawns {
      forall a | IsLife(a) ensures Count(tail, a) == 0 {
        NotALife(a);
        CountPair(tail, a);
        CountAlone(tail[2], a);
        assert tail[2..] == [tail[2]];
      }
    } else {
      var bridging, ending :| tail[2..] == [Spawned] + (bridging + ending) && All(bridging, IsBridging)
        && (ending == [Aborted] || IsTearDown(ending));
      crashed := ending == [Aborted];
      forall a | IsLife(a) ensures Count(tail, a) == Once(a == Spawned || (a == Aborted) == crashed) {
        NotALife(a);
        CountPair(tail, a);
        CountService(bridging, ending, a);
      }
    }
  }

  lemma NotALife(a: Act)
    requires IsLife(a)
    ensures !a.Sent? && !a.Accepted?
  {}

  /** A shell is started at most once; on every way out short of the process itself going down it is killed, reaped and
      its pty closed exactly once, and nothing of the kind happens without a shell. */
  lemma ShellIsTornDownOnce(w: World, s: Script)
    ensures var log := Play(w, s).log;
      && Count(log, Spawned) <= 1 && Count(log, Aborted) <= 1
      && Count(log, Killed) == Count(log, Reaped) == Count(log, PtyClosed)
      && Count(log, Killed) == (if Count(log, Aborted) == 1 then 0 else Count(log, Spawned))
  {
    hide Play, Count, IsHead, IsTail;
    var head, tail := RunShape(w, s);
    var served, crashed := CountTail(tail, s.spawns);
    forall a | IsLife(a) ensures Count(Play(w, s).log, a) == Count(tail, a) {
      CountHead(head, a);
      CountAdds(head, tail, a);
    }
  }

  /** No shell without an accepted handshake before it. */
  lemma ShellNeedsHandshake(w: World, s: Script, i: nat)
    requires i < |Play(w, s).log| && Play(w, s).log[i] == Spawned
    ensures exists j :: 0 <= j < i && Play(w, s).log[j].Accepted?
  {
    hide Play, IsService, IsHead;
    var head, tail := RunShape(w, s);
    NoShellInHead(head);
    assert Play(w, s).log[|head|] == tail[0];
  }

  lemma NoShellInHead(head: seq<Act>)
    requires IsHead(head)
    ensures Spawned !in head
  {
    assert head == [head[0], head[1]] + head[2..];
  }
}
