/** One interactive session: the handshake, the bridge between the data channel and the shell, and the teardown,
    as functions of what the world answers. Every effect is logged in order. */
module Session {
  import opened Bytes
  import opened Mgs
  import opened Outbox
  import Json
  import JsonText

  const HANDSHAKE_TIMEOUT_SECONDS := 20
  const IDLE_TIMEOUT_SECONDS := 20 * 60

  const OUTPUT := 1
  const SIZE := 3
  const HANDSHAKE_REQUEST := 5
  const HANDSHAKE_RESPONSE := 6
  const HANDSHAKE_COMPLETE := 7
  const STD_ERR := 11
  const EXIT_CODE := 12

  const ACKNOWLEDGE := Ascii("acknowledge")
  const CHANNEL_CLOSED := Ascii("channel_closed")
  const INPUT_STREAM_DATA := Ascii("input_stream_data")
  const OUTPUT_STREAM_DATA := Ascii("output_stream_data")
  const SEQUENCE_KEY := Ascii("AcknowledgedMessageSequenceNumber")
  const NO_COMPLETION := Ascii("{\"CustomerMessage\":\"\",") + Ascii("\"HandshakeTimeToComplete\":0}")

  // ---- what the world answers ----

  type Sha256 = d: bytes | |d| == 32 witness Fill(32, 0)

  /** Code that is not modelled: the payload hash, the verdict on a handshake response, and the integer that
      a text read as a floating-point number converts to. */
  datatype World = World(sha: bytes -> Sha256, accepts: bytes -> bool, integerOf: bytes -> Option<int>)

  /** The clock, the random id and the outcome of one write to the channel. */
  datatype Stamp = Stamp(createdMs: u64, id: bytes, at: int, ok: bool)

  /** One call of `recv`: nothing yet, a closed or broken channel, or a message. */
  datatype Inbound = Quiet | Broken | Frame(payload: bytes)

  /** One pass of the loop that waits for the handshake response. */
  datatype Wait = Wait(now: int, pumpAt: int, inbound: Inbound)

  datatype Chunk = Chunk(data: bytes, stamp: Stamp)

  /** One pass of the main loop: what the shell had to say, whether it ended, what came in, and how many bytes each
      write to the shell took (a write refused for now is simply made again; 0 or nothing left is an error). */
  datatype Pass = Pass(pumpAt: int, idleAt: int, output: seq<Chunk>, shellEnded: bool, inbound: Inbound, activeAt: int,
                       writes: seq<nat>)

  /** A whole session. A script that runs out of passes has had its stop flag set. */
  datatype Script = Script(
    request: bytes, opening: Stamp, start: int, waits: seq<Wait>,
    completing: Stamp, spawns: bool, failure: bytes, failing: Stamp,
    activeAt: int, passes: seq<Pass>,
    exitCode: bytes, closing: Stamp)

  // ---- what the session does ----

  datatype Act =
    | Announced(connected: bool)
    | Sent(m: AgentMessage, at: int)
    | Pumped(at: int, answer: Due)
    | HeardAck(number: int)
    | AckSent(m: AgentMessage)
    | Accepted(sequence: int)
    | Spawned
    | Typed(m: AgentMessage)
    | Wrote(data: bytes)
    | Resized(payload: bytes)
    | Killed
    | Reaped
    | PtyClosed
    | ChannelClosed
    | Aborted

  datatype State = State(outSeq: nat, outbox: seq<Entry>, next: int, log: seq<Act>)

  function Note(st: State, act: Act): State {
    st.(log := st.log + [act])
  }

  /** A number in its 64-bit field. */
  function Wire64(n: int): i64 {
    Signed(n % TWO64)
  }

  function StreamMessage(number: nat, payloadType: u32, payload: bytes, stamp: Stamp): AgentMessage {
    AgentMessage(OUTPUT_STREAM_DATA, 1, stamp.createdMs, Wire64(number), if number == 0 then 1 else 0, stamp.id,
                 payloadType, payload)
  }

  function FrameOf(w: World, m: AgentMessage): bytes {
    Serialize(m, w.sha(m.payload))
  }

  function SendStream(w: World, st: State, payloadType: u32, payload: bytes, stamp: Stamp): State {
    var m := StreamMessage(st.outSeq, payloadType, payload, stamp);
    Note(st.(outSeq := st.outSeq + 1, outbox := Added(st.outbox, st.outSeq, FrameOf(w, m), stamp.at)), Sent(m, stamp.at))
  }

  /** Resend what is due; false when the peer has stopped acknowledging. */
  function Pump(st: State, at: int): (State, bool) {
    var answer := Answer(st.outbox, at);
    (Note(st.(outbox := Polled(st.outbox, at)), Pumped(at, answer)), !answer.Dead?)
  }

  function OrMinusOne(n: Option<int>): int {
    if n.Some? then n.value else -1
  }

  /** The number an acknowledgement carries; None when it is not a JSON object. */
  function AckNumber(w: World, payload: bytes): Option<int> {
    match Json.Parse(payload)
    case Document(Obj(members)) =>
      Some(match JsonText.Find(members, SEQUENCE_KEY)
           case Some(Int(n)) => n
           case Some(Real(token, _)) => OrMinusOne(w.integerOf(token))
           case Some(Str(s)) => if s == [] then -1 else OrMinusOne(w.integerOf(s))
           case _ => -1)
    case _ => None
  }

  function HandleAck(w: World, st: State, payload: bytes): State {
    match AckNumber(w, payload)
    case None => st
    case Some(n) => Note(st.(outbox := Acked(st.outbox, n)), HeardAck(n))
  }

  /** What one `recv` means: a frame that does not decode counts for nothing, and one that makes the decoder reach past
      its end brings the process down. */
  datatype Arrival = Idle | Closed | Crash | Message(m: AgentMessage)

  function Arrive(inbound: Inbound): Arrival {
    match inbound
    case Quiet => Idle
    case Broken => Closed
    case Frame(payload) =>
      match Deserialize(payload)
      case Ok(m) => Message(m)
      case OutOfRange => Crash
      case _ => Idle
  }

  // ---- the handshake ----

  datatype Waited = Again | Ready(sequence: int) | GaveUp | Crashed

  function OneWait(w: World, st: State, deadline: int, t: Wait): (State, Waited) {
    if t.now > deadline then (st, GaveUp)
    else
      var (st1, alive) := Pump(st, t.pumpAt);
      if !alive then (st1, GaveUp)
      else
        match Arrive(t.inbound)
        case Idle => (st1, Again)
        case Closed => (st1, GaveUp)
        case Crash => (st1, Crashed)
        case Message(m) =>
          if m.messageType == ACKNOWLEDGE then (HandleAck(w, st1, m.payload), Again)
          else if m.messageType == INPUT_STREAM_DATA && m.payloadType == HANDSHAKE_RESPONSE then
            (Note(st1, AckSent(m)), if w.accepts(m.payload) then Ready(m.sequence) else GaveUp)
          else if m.messageType == CHANNEL_CLOSED then (st1, GaveUp)
          else (Note(st1, AckSent(m)), Again)
  }

  /** Passes until one settles it; a stop flag ends the wait unsettled. */
  function Handshake(w: World, st: State, deadline: int, waits: seq<Wait>): (State, Waited)
    decreases |waits|
  {
    if waits == [] then (st, GaveUp)
    else
      var (st1, waited) := OneWait(w, st, deadline, waits[0]);
      if waited.Again? then Handshake(w, st1, deadline, waits[1..]) else (st1, waited)
  }

  // ---- the bridge ----

  /** Everything the shell has ready is sent; a send that fails ends the session but not the draining. */
  function Drain(w: World, st: State, output: seq<Chunk>): State
    decreases |output|
  {
    if output == [] then st
    else Drain(w, SendStream(w, st, OUTPUT, output[0].data, output[0].stamp), output[1..])
  }

  predicate AllSent(output: seq<Chunk>) {
    forall i :: 0 <= i < |output| ==> output[i].stamp.ok
  }

  /** How many of `size` bytes get written, and whether that is all of them. */
  function Taken(size: nat, writes: seq<nat>): (nat, bool)
    decreases |writes|
  {
    if size == 0 then (0, true)
    else if writes == [] || writes[0] == 0 then (0, false)
    else if writes[0] >= size then (size, true)
    else
      var (more, all) := Taken(size - writes[0], writes[1..]);
      (writes[0] + more, all)
  }

  lemma {:induction false} TakenWithin(size: nat, writes: seq<nat>)
    ensures Taken(size, writes).0 <= size
    ensures Taken(size, writes).1 <==> Taken(size, writes).0 == size
    decreases |writes|
  {
    if size > 0 && writes != [] && 0 < writes[0] < size {
      TakenWithin(size - writes[0], writes[1..]);
    }
  }

  /** What these writes take of a long text: all of them up to the first that takes nothing. */
  function Capacity(writes: seq<nat>): nat {
    if writes == [] || writes[0] == 0 then 0 else writes[0] + Capacity(writes[1..])
  }

  /** Of a text they take its first bytes, as many as they can, and it is written when that is all of it. */
  lemma {:induction false} TakenIsCapacity(size: nat, writes: seq<nat>)
    ensures Taken(size, writes) == (Min(size, Capacity(writes)), Capacity(writes) >= size)
    decreases |writes|
  {
    if size > 0 && writes != [] && 0 < writes[0] < size {
      TakenIsCapacity(size - writes[0], writes[1..]);
    }
  }

  /** The next input in order: a window size, or keystrokes for the shell. */
  function Apply(st: State, m: AgentMessage, writes: seq<nat>): (State, bool) {
    var st1 := Note(st.(next := st.next + 1), Typed(m));
    if m.payloadType == SIZE then
      (if Json.Parse(m.payload).Document? then Note(st1, Resized(m.payload)) else st1, true)
    else if m.payloadType == OUTPUT then
      TakenWithin(|m.payload|, writes);
      var (n, all) := Taken(|m.payload|, writes);
      (Note(st1, Wrote(m.payload[..n])), all)
    else (st1, true)
  }

  /** Already acknowledged; applied only when it is the next one. */
  function HandleInput(st: State, m: AgentMessage, writes: seq<nat>): (State, bool) {
    if m.messageType != INPUT_STREAM_DATA || m.sequence != st.next then (st, true) else Apply(st, m, writes)
  }

  datatype Passed = Running(active: int) | Finished | Down

  function OnePass(w: World, st: State, active: int, p: Pass): (State, Passed) {
    var (st1, alive) := Pump(st, p.pumpAt);
    if !alive || p.idleAt - active > IDLE_TIMEOUT_SECONDS then (st1, Finished)
    else
      var st2 := Drain(w, st1, p.output);
      if !AllSent(p.output) || p.shellEnded then (st2, Finished)
      else
        match Arrive(p.inbound)
        case Idle => (st2, Running(active))
        case Closed => (st2, Finished)
        case Crash => (st2, Down)
        case Message(m) =>
          if m.messageType == CHANNEL_CLOSED then (st2, Finished)
          else if m.messageType == ACKNOWLEDGE then (HandleAck(w, st2, m.payload), Running(p.activeAt))
          else
            var (st3, running) := HandleInput(Note(st2, AckSent(m)), m, p.writes);
            (st3, if running then Running(p.activeAt) else Finished)
  }

  /** The main loop, and how it ended; a stop flag finishes it. */
  function Bridge(w: World, st: State, active: int, passes: seq<Pass>): (State, Passed)
    decreases |passes|
  {
    if passes == [] then (st, Finished)
    else
      var (st1, passed) := OnePass(w, st, active, passes[0]);
      if passed.Running? then Bridge(w, st1, passed.active, passes[1..]) else (st1, passed)
  }

  // ---- the whole session ----

  function TearDown(w: World, st: State, exitCode: bytes, stamp: Stamp): State {
    var st1 := Note(Note(Note(st, Killed), Reaped), PtyClosed);
    Note(Note(SendStream(w, st1, EXIT_CODE, exitCode, stamp), Announced(false)), ChannelClosed)
  }

  function Opened(w: World, s: Script): State {
    SendStream(w, State(0, [], 0, [Announced(true)]), HANDSHAKE_REQUEST, s.request, s.opening)
  }

  /** From an accepted handshake on. */
  function Serve(w: World, st: State, sequence: int, s: Script): State {
    var st1 := SendStream(w, Note(st, Accepted(sequence)), HANDSHAKE_COMPLETE, NO_COMPLETION, s.completing);
    if !s.spawns then SendStream(w, st1, STD_ERR, s.failure, s.failing)
    else
      var (st2, passed) := Bridge(w, Note(st1, Spawned).(next := sequence + 1), s.activeAt, s.passes);
      if passed.Down? then Note(st2, Aborted) else TearDown(w, st2, s.exitCode, s.closing)
  }

  function Play(w: World, s: Script): State {
    var st := Opened(w, s);
    if !s.opening.ok then st
    else
      var (st1, waited) := Handshake(w, st, s.start + HANDSHAKE_TIMEOUT_SECONDS, s.waits);
      match waited
      case Crashed => Note(st1, Aborted)
      case Ready(sequence) => Serve(w, st1, sequence, s)
      case _ => st1
  }
}
