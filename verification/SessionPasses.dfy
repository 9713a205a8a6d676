/** How far a session gets: which passes of its loops are made, what ends them, and which of their arrivals are heard. */
module SessionPasses {
  import opened Bytes
  import opened Outbox
  import opened Session

  // ---- the main loop ----

  /** The pass gets as far as the shell's output: the peer is not given up and the session is not idle. */
  predicate Drains(st: State, active: int, p: Pass) {
    Answer(st.outbox, p.pumpAt) != Dead && p.idleAt - active <= 20 * 60
  }

  /** And as far as the channel: every send was taken and the shell has not ended. */
  predicate Listens(st: State, active: int, p: Pass) {
    Drains(st, active, p) && (forall c :: c in p.output ==> c.stamp.ok) && !p.shellEnded
  }

  lemma SentAll(output: seq<Chunk>)
    ensures AllSent(output) <==> forall c :: c in output ==> c.stamp.ok
  {}

  /** How many passes forward the shell's output. */
  function PassesDrained(w: World, st: State, active: int, passes: seq<Pass>): (n: nat)
    ensures n <= |passes|
    decreases |passes|
  {
    if passes == [] || !Drains(st, active, passes[0]) then 0
    else
      var (st1, passed) := OnePass(w, st, active, passes[0]);
      1 + if passed.Running? then PassesDrained(w, st1, passed.active, passes[1..]) else 0
  }

  /** How many passes hear what came in. */
  function PassesHeard(w: World, st: State, active: int, passes: seq<Pass>): (n: nat)
    ensures n <= |passes|
    decreases |passes|
  {
    if passes == [] || !Listens(st, active, passes[0]) then 0
    else
      var (st1, passed) := OnePass(w, st, active, passes[0]);
      1 + if passed.Running? then PassesHeard(w, st1, passed.active, passes[1..]) else 0
  }

  /** The state and the time of last activity before pass k. */
  function Before(w: World, st: State, active: int, passes: seq<Pass>, k: nat): (State, int)
    requires k <= |passes|
    decreases k
  {
    if k == 0 then (st, active)
    else
      var (st1, passed) := OnePass(w, st, active, passes[0]);
      Before(w, st1, if passed.Running? then passed.active else active, passes[1..], k - 1)
  }

  /** What makes a pass the last one by what it hears: the channel closes or breaks, the decoder brings the process
      down, or keystrokes whose turn it is cannot all be written. */
  predicate Ends(next: int, p: Pass) {
    match Arrive(p.inbound)
    case Idle => false
    case Message(m) =>
      m.messageType == CHANNEL_CLOSED
      || (m.messageType == INPUT_STREAM_DATA && m.sequence == next && m.payloadType == OUTPUT
          && !Taken(|m.payload|, p.writes).1)
    case _ => true
  }

  lemma {:induction false} DrainKeepsNext(w: World, st: State, output: seq<Chunk>)
    ensures Drain(w, st, output).next == st.next
    decreases |output|
  {
    hide FrameOf, Added;
    if output != [] {
      DrainKeepsNext(w, SendStream(w, st, OUTPUT, output[0].data, output[0].stamp), output[1..]);
    }
  }

  lemma NamesDiffer()
    ensures INPUT_STREAM_DATA != CHANNEL_CLOSED && INPUT_STREAM_DATA != ACKNOWLEDGE && CHANNEL_CLOSED != ACKNOWLEDGE
  {
    assert INPUT_STREAM_DATA[0] == 105 && CHANNEL_CLOSED[0] == 99 && ACKNOWLEDGE[0] == 97;
  }

  /** A pass is followed by another exactly when it hears what came in and that does not end the session. */
  lemma PassGoesOn(w: World, st: State, active: int, p: Pass)
    ensures OnePass(w, st, active, p).1.Running? <==> Listens(st, active, p) && !Ends(st.next, p)
  {
    SentAll(p.output);
    hide Arrive, AllSent, Drain, HandleAck, Taken, Answer, Polled;
    var st1 := Pump(st, p.pumpAt).0;
    DrainKeepsNext(w, st1, p.output);
    NamesDiffer();
  }

  /** The loop stops for no other reason: unless every pass was made, the last one heard ended the session or the next
      one was not fit to listen. */
  lemma {:induction false} BridgeStopsForAReason(w: World, st: State, active: int, passes: seq<Pass>)
    ensures var n := PassesHeard(w, st, active, passes);
      && (n < |passes| ==>
            || (n > 0 && Ends(Before(w, st, active, passes, n - 1).0.next, passes[n - 1]))
            || !Listens(Before(w, st, active, passes, n).0, Before(w, st, active, passes, n).1, passes[n]))
      && forall k :: 0 <= k < n - 1 ==> !Ends(Before(w, st, active, passes, k).0.next, passes[k])
    decreases |passes|
  {
    hide OnePass, Ends, Listens;
    if passes != [] && Listens(st, active, passes[0]) {
      PassGoesOn(w, st, active, passes[0]);
      var (st1, passed) := OnePass(w, st, active, passes[0]);
      if passed.Running? {
        BridgeStopsForAReason(w, st1, passed.active, passes[1..]);
        var n := PassesHeard(w, st, active, passes);
        assert n == 1 + PassesHeard(w, st1, passed.active, passes[1..]);
        forall k | 1 <= k <= |passes|
          ensures Before(w, st, active, passes, k) == Before(w, st1, passed.active, passes[1..], k - 1) {}
        forall k | 0 <= k < n - 1 ensures !Ends(Before(w, st, active, passes, k).0.next, passes[k]) {
          if k > 0 {
            assert passes[k] == passes[1..][k - 1];
          }
        }
      }
    }
  }

  /** The keystrokes that the arrival of a pass brings in its turn and its writes do not take. */
  function Unwritten(next: int, p: Pass): bytes {
    match Arrive(p.inbound)
    case Message(m) =>
      if m.messageType == INPUT_STREAM_DATA && m.sequence == next && m.payloadType == OUTPUT then
        TakenWithin(|m.payload|, p.writes);
        m.payload[Taken(|m.payload|, p.writes).0..]
      else []
    case _ => []
  }

  function MissingAfter(st: State, active: int, p: Pass): bytes {
    if Listens(st, active, p) then Unwritten(st.next, p) else []
  }

  /** What the last pass of the loop left unwritten. */
  function Missing(w: World, st: State, active: int, passes: seq<Pass>): bytes
    decreases |passes|
  {
    if passes == [] then []
    else
      var (st1, passed) := OnePass(w, st, active, passes[0]);
      if passed.Running? then Missing(w, st1, passed.active, passes[1..]) else MissingAfter(st, active, passes[0])
  }

  lemma MissingEnds(w: World, st: State, active: int, p: Pass)
    ensures MissingAfter(st, active, p) != [] ==> Ends(st.next, p) && Listens(st, active, p)
    ensures OnePass(w, st, active, p).1.Running? ==> MissingAfter(st, active, p) == []
  {
    PassGoesOn(w, st, active, p);
    hide OnePass, Taken, Listens;
    if Arrive(p.inbound).Message? {
      TakenWithin(|Arrive(p.inbound).m.payload|, p.writes);
    }
  }

  /** Something is missing only when the writes of the last pass heard fell short. */
  lemma {:induction false} MissingOnlyWhenShort(w: World, st: State, active: int, passes: seq<Pass>)
    ensures var n := PassesHeard(w, st, active, passes);
      Missing(w, st, active, passes) != [] ==> n > 0 && !Suffice(passes[n - 1])
    decreases |passes|
  {
    hide OnePass, MissingAfter, Listens, Ends, Suffice;
    if passes != [] {
      MissingEnds(w, st, active, passes[0]);
      ShortIsMissing(st, active, passes[0]);
      PassGoesOn(w, st, active, passes[0]);
      var (st1, passed) := OnePass(w, st, active, passes[0]);
      if passed.Running? {
        MissingOnlyWhenShort(w, st1, passed.active, passes[1..]);
        var n := PassesHeard(w, st1, passed.active, passes[1..]);
        assert n > 0 ==> passes[1..][n - 1] == passes[n];
      }
    }
  }

  /** The writes of a pass take the whole of what it brings for the shell. */
  predicate Suffice(p: Pass) {
    match Arrive(p.inbound)
    case Message(m) => m.payloadType == OUTPUT ==> Taken(|m.payload|, p.writes).1
    case _ => true
  }

  lemma ShortIsMissing(st: State, active: int, p: Pass)
    ensures MissingAfter(st, active, p) != [] ==> !Suffice(p)
  {
    hide Taken, Listens;
    if Arrive(p.inbound).Message? {
      TakenWithin(|Arrive(p.inbound).m.payload|, p.writes);
    }
  }

  // ---- the wait for the handshake ----

  /** The pass gets as far as the channel: the deadline has not passed and the peer is not given up. */
  predicate Waits(st: State, deadline: int, t: Wait) {
    t.now <= deadline && Answer(st.outbox, t.pumpAt) != Dead
  }

  /** How many passes hear what came in. */
  function WaitsHeard(w: World, st: State, deadline: int, waits: seq<Wait>): (n: nat)
    ensures n <= |waits|
    decreases |waits|
  {
    if waits == [] || !Waits(st, deadline, waits[0]) then 0
    else
      var (st1, waited) := OneWait(w, st, deadline, waits[0]);
      1 + if waited.Again? then WaitsHeard(w, st1, deadline, waits[1..]) else 0
  }

  /** The state before pass k. */
  function BeforeWait(w: World, st: State, deadline: int, waits: seq<Wait>, k: nat): State
    requires k <= |waits|
    decreases k
  {
    if k == 0 then st else BeforeWait(w, OneWait(w, st, deadline, waits[0]).0, deadline, waits[1..], k - 1)
  }

  predicate IsResponse(inbound: Inbound) {
    var a := Arrive(inbound);
    a.Message? && a.m.messageType == INPUT_STREAM_DATA && a.m.payloadType == 6
  }

  /** What one arrival makes of the wait. */
  function Verdict(w: World, inbound: Inbound): Waited {
    match Arrive(inbound)
    case Idle => Again
    case Closed => GaveUp
    case Crash => Crashed
    case Message(m) =>
      if IsResponse(inbound) then (if w.accepts(m.payload) then Ready(m.sequence) else GaveUp)
      else if m.messageType == CHANNEL_CLOSED then GaveUp
      else Again
  }

  lemma OneWaitVerdict(w: World, st: State, deadline: int, t: Wait)
    ensures OneWait(w, st, deadline, t).1 == if Waits(st, deadline, t) then Verdict(w, t.inbound) else GaveUp
  {
    hide Arrive, HandleAck, Answer, Polled, Note;
    NamesDiffer();
  }

  /** The wait ends with the verdict on the last arrival heard, the earlier ones having settled nothing; so the session is
      accepted exactly on the first handshake response heard, if it is a good one. With nothing settled it ends only at
      its deadline, with a dead peer, or on the stop flag. */
  lemma {:induction false} HandshakeOutcome(w: World, st: State, deadline: int, waits: seq<Wait>)
    ensures var n, waited := WaitsHeard(w, st, deadline, waits), Handshake(w, st, deadline, waits).1;
      && (forall k :: 0 <= k < n - 1 ==> Verdict(w, waits[k].inbound).Again?)
      && (n > 0 && !Verdict(w, waits[n - 1].inbound).Again? ==> waited == Verdict(w, waits[n - 1].inbound))
      && (n == 0 || Verdict(w, waits[n - 1].inbound).Again? ==>
            waited.GaveUp? && (n < |waits| ==> !Waits(BeforeWait(w, st, deadline, waits, n), deadline, waits[n])))
    decreases |waits|
  {
    hide OneWait, Verdict, Waits;
    if waits != [] {
      OneWaitVerdict(w, st, deadline, waits[0]);
      var (st1, waited) := OneWait(w, st, deadline, waits[0]);
      if waited.Again? {
        HandshakeOutcome(w, st1, deadline, waits[1..]);
        var n := WaitsHeard(w, st1, deadline, waits[1..]);
        forall k | 0 <= k < n ensures waits[1..][k] == waits[k + 1] {}
        forall k | 0 <= k < n ensures Verdict(w, waits[k].inbound).Again? {
          if k > 0 {
            assert waits[k] == waits[1..][k - 1];
          }
        }
      }
    }
  }

  // ---- whole sessions ----

  function Deadline(s: Script): int {
    s.start + 20
  }

  /** The end of the wait. */
  function AfterWait(w: World, s: Script): (State, Waited) {
    Handshake(w, Opened(w, s), Deadline(s), s.waits)
  }

  /** The handshake is accepted. */
  predicate Served(w: World, s: Script) {
    s.opening.ok && AfterWait(w, s).1.Ready?
  }

  /** The state in which the main loop starts. */
  function Started(w: World, s: Script): State
    requires Served(w, s)
  {
    var (st, waited) := AfterWait(w, s);
    var completed := SendStream(w, Note(st, Accepted(waited.sequence)), HANDSHAKE_COMPLETE, NO_COMPLETION, s.completing);
    Note(completed, Spawned).(next := waited.sequence + 1)
  }

  /** How a session with a shell ends. */
  lemma ServedPlay(w: World, s: Script)
    requires Served(w, s) && s.spawns
    ensures var (st, passed) := Bridge(w, Started(w, s), s.activeAt, s.passes);
      Play(w, s) == if passed.Down? then Note(st, Aborted) else TearDown(w, st, s.exitCode, s.closing)
  {
    hide Handshake, Bridge, SendStream, TearDown, Opened, Note;
  }
}
