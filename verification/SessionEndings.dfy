/** What ends a session. */
module SessionEndings {
  import opened Outbox
  import opened Session
  import opened SessionRuns
  import opened SessionPasses
  import Json

  // ---- endings ----

  predicate GivesUp(a: Act) {
    a.Pumped? && a.answer.Dead?
  }

  /** A peer given up for dead is the last thing these acts say. */
  ghost predicate DeadLast(before: State, after: State) {
    && before.log <= after.log
    && forall i :: |before.log| <= i < |after.log| - 1 ==> !GivesUp(after.log[i])
  }

  ghost predicate NeverDead(before: State, after: State) {
    && before.log <= after.log
    && forall i :: |before.log| <= i < |after.log| ==> !GivesUp(after.log[i])
  }

  predicate IsDraining(a: Act) {
    a.Sent?
  }

  lemma {:induction false} DrainOnlySends(w: World, st: State, output: seq<Chunk>)
    ensures Does(st, Drain(w, st, output), IsDraining)
    decreases |output|
  {
    hide FrameOf, Added;
    if output != [] {
      DrainOnlySends(w, SendStream(w, st, OUTPUT, output[0].data, output[0].stamp), output[1..]);
    }
  }

  lemma OnePassEndsWithTheDead(w: World, st: State, active: int, p: Pass)
    ensures var (st', passed) := OnePass(w, st, active, p);
      DeadLast(st, st') && (!passed.Finished? ==> NeverDead(st, st'))
  {
    hide Arrive, AckNumber, Acked, Polled, Drain, Taken, Json.Parse;
    var (st1, alive) := Pump(st, p.pumpAt);
    assert st1.log == st.log + [Pumped(p.pumpAt, Answer(st.outbox, p.pumpAt))];
    hide Answer;
    DrainOnlySends(w, st1, p.output);
  }

  /** In the main loop nothing is done after giving the peer up: the teardown follows at once. */
  lemma {:induction false} DeadPeerEndsTheBridge(w: World, st: State, active: int, passes: seq<Pass>)
    ensures DeadLast(st, Bridge(w, st, active, passes).0)
    decreases |passes|
  {
    hide OnePass, GivesUp;
    if passes != [] {
      var (st1, passed) := OnePass(w, st, active, passes[0]);
      OnePassEndsWithTheDead(w, st, active, passes[0]);
      if passed.Running? {
        DeadPeerEndsTheBridge(w, st1, passed.active, passes[1..]);
      }
    }
  }

  /** A session with no message for longer than the idle limit is over: passes after the one that notices do not
      matter, and that one does nothing but see to the buffer. */
  lemma {:induction false} IdlenessEndsTheBridge(w: World, st: State, active: int, passes: seq<Pass>, k: nat)
    requires k < |passes| && passes[k].idleAt - active > IDLE_TIMEOUT_SECONDS
    requires forall i :: 0 <= i < k ==> !Arrive(passes[i].inbound).Message?
    ensures Bridge(w, st, active, passes) == Bridge(w, st, active, passes[..k] + [passes[k].(output := [], inbound := Quiet)])
    decreases k
  {
    hide Pump, Arrive, Drain, HandleInput, HandleAck, Note;
    var quiet := passes[k].(output := [], inbound := Quiet);
    var short := passes[..k] + [quiet];
    if k == 0 {
      assert short == [quiet];
      IdlePass(w, st, active, passes[0]);
      IdlePass(w, st, active, quiet);
    } else {
      assert short[0] == passes[0] && short[1..] == passes[1..][..k - 1] + [quiet];
      assert passes[1..][k - 1] == passes[k];
      SilentPass(w, st, active, passes[0]);
      var (st1, passed) := OnePass(w, st, active, passes[0]);
      hide OnePass;
      if passed.Running? {
        IdlenessEndsTheBridge(w, st1, active, passes[1..], k - 1);
      }
    }
  }

  lemma IdlePass(w: World, st: State, active: int, p: Pass)
    requires p.idleAt - active > IDLE_TIMEOUT_SECONDS
    ensures OnePass(w, st, active, p) == (Pump(st, p.pumpAt).0, Finished)
  {
    hide Pump, Arrive, Drain, HandleInput, HandleAck, Note;
  }

  /** Only a message moves the time of last activity. */
  lemma SilentPass(w: World, st: State, active: int, p: Pass)
    requires !Arrive(p.inbound).Message?
    ensures var passed := OnePass(w, st, active, p).1;
      passed.Running? ==> passed.active == active
  {
    hide Pump, Arrive, Drain, HandleInput, HandleAck, Note;
  }

  // ---- the idle clock ----

  /** The time of the last message among these passes, or `active` when they bring none. */
  function LastHeard(passes: seq<Pass>, active: int): int {
    if passes == [] then active
    else
      var last := passes[|passes| - 1];
      if Arrive(last.inbound).Message? then last.activeAt else LastHeard(passes[..|passes| - 1], active)
  }

  lemma {:induction false} LastHeardFirst(passes: seq<Pass>, active: int)
    requires passes != []
    ensures LastHeard(passes, active)
         == LastHeard(passes[1..], if Arrive(passes[0].inbound).Message? then passes[0].activeAt else active)
  {
    hide Arrive;
    if |passes| > 1 && !Arrive(passes[|passes| - 1].inbound).Message? {
      LastHeardFirst(passes[..|passes| - 1], active);
      assert passes[..|passes| - 1][1..] == passes[1..][..|passes| - 2];
    }
  }

  /** The loop comes to pass k: every pass before it goes on. */
  predicate Reaches(w: World, st: State, active: int, passes: seq<Pass>, k: nat)
    requires k <= |passes|
    decreases k
  {
    k == 0 ||
    var (st1, passed) := OnePass(w, st, active, passes[0]);
    passed.Running? && Reaches(w, st1, passed.active, passes[1..], k - 1)
  }

  lemma PassClock(w: World, st: State, active: int, p: Pass)
    ensures var passed := OnePass(w, st, active, p).1;
      passed.Running? ==> passed.active == if Arrive(p.inbound).Message? then p.activeAt else active
  {
    hide Pump, Arrive, Drain, HandleInput, HandleAck, Note;
  }

  /** At every pass the loop comes to, its clock says when the last message came. */
  lemma {:induction false} ClockIsLastHeard(w: World, st: State, active: int, passes: seq<Pass>, k: nat)
    requires k <= |passes| && Reaches(w, st, active, passes, k)
    ensures Before(w, st, active, passes, k).1 == LastHeard(passes[..k], active)
    decreases k
  {
    hide OnePass, Arrive;
    if k > 0 {
      PassClock(w, st, active, passes[0]);
      var (st1, passed) := OnePass(w, st, active, passes[0]);
      ClockIsLastHeard(w, st1, passed.active, passes[1..], k - 1);
      LastHeardFirst(passes[..k], active);
      assert passes[..k][1..] == passes[1..][..k - 1];
    }
  }

  /** Of the passes a loop with a live peer comes to, exactly those more than 20 minutes after the last message before them
      end it for idleness: they forward nothing, and see to the buffer alone. */
  lemma IdleExactlyAfterSilence(w: World, st: State, active: int, passes: seq<Pass>, k: nat)
    requires k < |passes| && Reaches(w, st, active, passes, k)
    requires Answer(Before(w, st, active, passes, k).0.outbox, passes[k].pumpAt) != Dead
    ensures var idle := passes[k].idleAt - LastHeard(passes[..k], active) > 20 * 60;
      && (PassesDrained(w, st, active, passes) == k <==> idle)
      && (idle ==> Bridge(w, st, active, passes)
                   == (Pump(Before(w, st, active, passes, k).0, passes[k].pumpAt).0, Finished))
  {
    hide OnePass, LastHeard, Pump, Before, Reaches, Answer;
    ClockIsLastHeard(w, st, active, passes, k);
    FromPass(w, st, active, passes, k);
    var (st', active') := Before(w, st, active, passes, k);
    assert passes[k..][0] == passes[k];
    if passes[k].idleAt - active' > 20 * 60 {
      IdlePass(w, st', active', passes[k]);
    }
  }

  /** From a pass it comes to, the loop is the loop over the passes left. */
  lemma {:induction false} FromPass(w: World, st: State, active: int, passes: seq<Pass>, k: nat)
    requires k <= |passes| && Reaches(w, st, active, passes, k)
    ensures var (st', active') := Before(w, st, active, passes, k);
      && Bridge(w, st, active, passes) == Bridge(w, st', active', passes[k..])
      && PassesDrained(w, st, active, passes) == k + PassesDrained(w, st', active', passes[k..])
    decreases k
  {
    hide OnePass, Drains;
    if k == 0 {
      assert passes[0..] == passes;
    } else {
      RunningDrains(w, st, active, passes[0]);
      var (st1, passed) := OnePass(w, st, active, passes[0]);
      FromPass(w, st1, passed.active, passes[1..], k - 1);
      assert passes[1..][k - 1..] == passes[k..];
    }
  }

  lemma RunningDrains(w: World, st: State, active: int, p: Pass)
    ensures OnePass(w, st, active, p).1.Running? ==> Drains(st, active, p)
  {
    PassGoesOn(w, st, active, p);
    hide OnePass;
  }

  // ---- the handshake ----

  /** The wait for the handshake is over at its deadline: nothing that comes later matters. */
  lemma {:induction false} HandshakeIsBounded(w: World, st: State, deadline: int, waits: seq<Wait>, k: nat)
    requires k < |waits| && waits[k].now > deadline
    ensures Handshake(w, st, deadline, waits) == Handshake(w, st, deadline, waits[..k])
    decreases k
  {
    if k == 0 {
      hide Pump, Arrive, HandleAck, Note;
      assert OneWait(w, st, deadline, waits[0]) == (st, GaveUp);
    } else {
      hide OneWait;
      assert waits[..k][0] == waits[0] && waits[..k][1..] == waits[1..][..k - 1];
      var (st1, waited) := OneWait(w, st, deadline, waits[0]);
      if waited.Again? {
        HandshakeIsBounded(w, st1, deadline, waits[1..], k - 1);
      }
    }
  }
}
