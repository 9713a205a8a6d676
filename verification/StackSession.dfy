/** Whole sessions, from the bytes of the data channel to the keystrokes the shell reads, and sessions that are so. */
module StackSession {
  import opened Bytes
  import Frames
  import W = WebSocket
  import opened Mgs
  import opened MgsProofs
  import opened Outbox
  import opened Session
  import opened SessionRuns
  import opened SessionPasses
  import opened SessionAnswers
  import opened SessionInput
  import opened Stack

  // ---- what a session hears ----

  /** What the wait for the handshake hears, and what the main loop hears. */
  function HeardWaiting(w: World, s: Script): seq<Inbound> {
    WaitInbounds(s.waits[..WaitsHeard(w, Opened(w, s), Deadline(s), s.waits)])
  }

  function PassesMade(w: World, s: Script): seq<Pass>
    requires Served(w, s)
  {
    s.passes[..PassesHeard(w, Started(w, s), s.activeAt, s.passes)]
  }

  /** The peer sends these messages, in these packets, which arrive in these reads; the client delivers them to the session,
      one a pass wherever a pass gets one, first to its wait and then to its main loop; and the shell takes what it is
      given. */
  ghost predicate Conveys(w: World, s: Script, sent: seq<AgentMessage>, packets: seq<W.Sent>, input: seq<W.Read>, writes: nat) {
    && Served(w, s) && s.spawns
    && Carried(w.sha, sent, packets) && (forall p <- packets :: W.GoodMessage(p))
    && W.WireBytes(input) == W.EncodeAll(packets) && W.Ending(input) == None && W.Answers(W.Expected(packets)) <= writes
    && Delivered(HeardWaiting(w, s)) + Delivered(Inbounds(PassesMade(w, s))) == Payloads(W.Poll(W.Fresh(writes), input).1)
    && forall p :: p in PassesMade(w, s) ==> Suffice(p)
  }

  // ---- the response that opens the session ----

  ghost predicate IsGoodResponse(w: World, m: AgentMessage) {
    m.messageType == INPUT_STREAM_DATA && m.payloadType == HANDSHAKE_RESPONSE && w.accepts(m.payload)
  }

  lemma {:induction false} DeliveredAdd(a: seq<Inbound>, b: seq<Inbound>)
    ensures Delivered(a + b) == Delivered(a) + Delivered(b)
  {
    if a == [] {
      assert a + b == b;
    } else {
      assert (a + b)[1..] == a[1..] + b;
      DeliveredAdd(a[1..], b);
    }
  }

  lemma {:induction false} WaitInboundsLast(waits: seq<Wait>)
    requires waits != []
    ensures WaitInbounds(waits) == WaitInbounds(waits[..|waits| - 1]) + [waits[|waits| - 1].inbound]
  {
    if |waits| > 1 {
      WaitInboundsLast(waits[1..]);
      assert waits[1..][..|waits| - 2] == waits[..|waits| - 1][1..];
    }
  }

  /** The last message that the wait of a served session hears is the response it accepts. */
  lemma ResponseIsLast(w: World, s: Script)
    requires Served(w, s)
    ensures var frames := Delivered(HeardWaiting(w, s));
      && frames != []
      && var a := Arrive(Inbound.Frame(frames[|frames| - 1]));
      a.Message? && IsGoodResponse(w, a.m) && AfterWait(w, s).1 == Ready(a.m.sequence)
  {
    hide Handshake, Opened, Arrive, WaitsHeard, WaitInbounds, Delivered;
    var n := WaitsHeard(w, Opened(w, s), Deadline(s), s.waits);
    HandshakeOutcome(w, Opened(w, s), Deadline(s), s.waits);
    var waits := s.waits[..n];
    WaitInboundsLast(waits);
    assert waits[n - 1] == s.waits[n - 1];
    var before, last := WaitInbounds(waits[..n - 1]), s.waits[n - 1].inbound;
    DeliveredAdd(before, [last]);
    AcceptedIsFrame(w, last);
    OneDelivered(last);
  }

  lemma AcceptedIsFrame(w: World, inbound: Inbound)
    ensures Verdict(w, inbound).Ready? ==> inbound.Frame? && Arrive(inbound).Message? && IsGoodResponse(w, Arrive(inbound).m)
                                           && Verdict(w, inbound) == Ready(Arrive(inbound).m.sequence)
  {
    hide Deserialize;
  }

  lemma OneDelivered(inbound: Inbound)
    ensures Delivered([inbound]) == if inbound.Frame? then [inbound.payload] else []
  {
    assert [inbound][1..] == [];
  }

  // ---- what a session writes ----

  lemma {:induction false} WrittenAdd(a: seq<Act>, b: seq<Act>)
    ensures Written(a + b) == Written(a) + Written(b)
  {
    if b == [] {
      assert a + b == a;
    } else {
      assert (a + b)[..|a + b| - 1] == a + b[..|b| - 1];
      WrittenAdd(a, b[..|b| - 1]);
    }
  }

  lemma {:induction false} UnfedWritesNothing(acts: seq<Act>)
    requires All(acts, Unfed)
    ensures Written(acts) == []
  {
    if acts != [] {
      UnfedWritesNothing(acts[..|acts| - 1]);
    }
  }

  lemma EverythingIsWritten(w: World, s: Script)
    requires Served(w, s) && s.spawns && forall p :: p in PassesMade(w, s) ==> Suffice(p)
    ensures Written(Play(w, s).log)
         == Keys(InOrder(InputsAmong(Inbounds(PassesMade(w, s))), AfterWait(w, s).1.sequence + 1))
  {
    hide Written, Keys, InOrder, InputsAmong, Inbounds, PassesHeard, Missing, Suffice, Applied, Resizes, Sizes, Unfed, All;
    hide Started, Play, AfterWait, Served;
    var acts, after := SessionFeedsInOrder(w, s);
    var st := Started(w, s);
    UnfedWritesNothing(st.log);
    UnfedWritesNothing(after);
    WrittenAdd(acts, after);
    WrittenAdd(st.log, acts + after);
    MissingOnlyWhenShort(w, st, s.activeAt, s.passes);
    var made := PassesMade(w, s);
    assert made != [] ==> made[|made| - 1] in made;
    assert Written(acts) + [] == Written(acts) == [] + Written(acts);
  }

  lemma DecodeTail(first: seq<bytes>, later: seq<bytes>, ms: seq<AgentMessage>)
    requires Decode(first + later, ms) && first != []
    ensures |first| <= |ms| && Decode(later, ms[|first|..])
    ensures Arrive(Inbound.Frame(first[|first| - 1])) == Message(ms[|first| - 1])
  {
    hide Arrive;
    var k := |first|;
    forall i | 0 <= i < |later| ensures Arrive(Inbound.Frame(later[i])) == Message(ms[k..][i]) {
      assert later[i] == (first + later)[k + i];
    }
    assert first[k - 1] == (first + later)[k - 1];
  }

  /** From the peer to the shell over a whole session: the last message its wait hears is a handshake response that is
      accepted, and of the messages after it the shell gets exactly the keystrokes of the inputs that come in their turn,
      counted from the number after that of the response, byte for byte, whatever their fragments and reads, repeats,
      gaps and reorderings, and whatever else the session does meanwhile. */
  lemma SessionWritesTheKeystrokes(w: World, s: Script, sent: seq<AgentMessage>, packets: seq<W.Sent>,
                                   input: seq<W.Read>, writes: nat)
    requires Conveys(w, s, sent, packets, input, writes)
    ensures var k := |Delivered(HeardWaiting(w, s))|;
      && 0 < k <= |sent| && IsGoodResponse(w, sent[k - 1])
      && Written(Play(w, s).log) == Keys(InOrder(OnlyInputs(sent[k..]), sent[k - 1].sequence + 1))
  {
    hide W.Poll, W.WireBytes, W.Ending, W.Answers, W.GoodMessage, W.EncodeAll, W.Expected, Carried, Arrive, Served, Play;
    hide Payloads, Delivered, Inbounds, InputsAmong, OnlyInputs, Written, InOrder, Keys, Suffice, HeardWaiting, PassesMade;
    hide AfterWait, IsGoodResponse, Decode;
    MessagesArrive(w.sha, sent, packets, input, writes);
    ResponseIsLast(w, s);
    EverythingIsWritten(w, s);
    var first, later := Delivered(HeardWaiting(w, s)), Delivered(Inbounds(PassesMade(w, s)));
    var k := |first|;
    DecodeTail(first, later, sent);
    InputsAmongDelivered(Inbounds(PassesMade(w, s)), sent[k..]);
  }

  /** The common case of it: what was typed after the response is what the shell reads. */
  lemma SessionReadsWhatWasTyped(w: World, s: Script, typed: seq<AgentMessage>, sent: seq<AgentMessage>,
                                 packets: seq<W.Sent>, input: seq<W.Read>, writes: nat, k: nat)
    requires Conveys(w, s, sent, packets, input, writes)
    requires k == |Delivered(HeardWaiting(w, s))| && 0 < k <= |sent|
    requires ComesInOrder(typed, OnlyInputs(sent[k..]), sent[k - 1].sequence + 1)
    ensures Written(Play(w, s).log) == Keys(typed)
  {
    hide Conveys, OnlyInputs, Written, InOrder, Keys, ComesInOrder, Play, HeardWaiting, Delivered;
    TakesExactlyTheStream(typed, OnlyInputs(sent[k..]), sent[k - 1].sequence + 1);
    SessionWritesTheKeystrokes(w, s, sent, packets, input, writes);
  }

  // ---- a session that is so ----

  const ID := UuidFromWire(Fill(16, 0))
  const STAMP := Stamp(0, ID, 0, true)

  /** A message the peer may send. */
  ghost predicate Plain(w: World, m: AgentMessage) {
    FittingType(m.messageType) && CanonicalUuid(m.messageId) && |FrameOf(w, m)| <= Frames.MAX_FRAME_SIZE
  }

  function InputMessage(sequence: i64, payloadType: u32, payload: bytes): AgentMessage {
    AgentMessage(INPUT_STREAM_DATA, 1, 0, sequence, 0, ID, payloadType, payload)
  }

  lemma InputIsPlain(w: World, sequence: i64, payloadType: u32, payload: bytes)
    requires |payload| <= 0x1_0000
    ensures Plain(w, InputMessage(sequence, payloadType, payload))
  {
    UuidFromWireIsCanonical(Fill(16, 0));
    assert INPUT_STREAM_DATA[|INPUT_STREAM_DATA| - 1] == 97;
    hide Header, CanonicalUuid, UuidFromWire;
  }

  /** Each message as one frame. */
  function OnePacket(data: bytes): W.Sent {
    W.Sent(W.OP_BINARY, [W.Part([], W.Layout(Frames.Long, None), data)])
  }

  ghost function Packets(w: World, ms: seq<AgentMessage>): seq<W.Sent> {
    if ms == [] then [] else [OnePacket(FrameOf(w, ms[0]))] + Packets(w, ms[1..])
  }

  lemma OnePacketIsGood(data: bytes)
    requires |data| <= Frames.MAX_FRAME_SIZE
    ensures W.GoodMessage(OnePacket(data)) && W.Text(OnePacket(data).parts) == data && W.AllPongs(OnePacket(data).parts) == []
  {
    var parts := OnePacket(data).parts;
    assert parts[1..] == [] && data + [] == data;
    assert W.GoodParts(W.OP_BINARY, parts[1..], false);
    assert W.Text(parts[1..]) == [] && W.AllPongs(parts[1..]) == [];
  }

  lemma {:induction false} PacketsFirst(w: World, ms: seq<AgentMessage>)
    requires ms != [] && Plain(w, ms[0])
    requires Carried(w.sha, ms[1..], Packets(w, ms[1..]))
    ensures Carried(w.sha, ms, Packets(w, ms))
  {
    hide FittingType, CanonicalUuid, Serialize, W.Text;
    OnePacketIsGood(FrameOf(w, ms[0]));
    var packets := Packets(w, ms);
    assert packets[1..] == Packets(w, ms[1..]);
    forall i | 0 <= i < |ms|
      ensures FittingType(ms[i].messageType) && CanonicalUuid(ms[i].messageId)
      ensures W.Text(packets[i].parts) == Serialize(ms[i], w.sha(ms[i].payload))
    {
      if i > 0 {
        assert ms[i] == ms[1..][i - 1] && packets[i] == packets[1..][i - 1];
      }
    }
  }

  lemma ExpectedFirst(data: bytes, later: seq<W.Sent>)
    requires |data| <= Frames.MAX_FRAME_SIZE
    ensures var packets := [OnePacket(data)] + later;
      W.Answers(W.Expected(packets)) == W.Answers(W.Expected(later)) && Texts(packets) == [data] + Texts(later)
  {
    OnePacketIsGood(data);
    var packets := [OnePacket(data)] + later;
    var message := [W.Message(W.OP_BINARY, data)];
    assert packets[1..] == later;
    assert W.Expected(packets) == message + W.Expected(later);
    W.AnswersAdd(message, W.Expected(later));
    assert message[1..] == [];
  }

  function FramesOf(w: World, ms: seq<AgentMessage>): seq<bytes> {
    if ms == [] then [] else [FrameOf(w, ms[0])] + FramesOf(w, ms[1..])
  }

  lemma {:induction false} PacketsAreGood(w: World, ms: seq<AgentMessage>)
    requires forall m :: m in ms ==> Plain(w, m)
    ensures Carried(w.sha, ms, Packets(w, ms)) && forall p <- Packets(w, ms) :: W.GoodMessage(p)
    ensures W.Answers(W.Expected(Packets(w, ms))) == 0 && Texts(Packets(w, ms)) == FramesOf(w, ms)
  {
    hide FittingType, CanonicalUuid, W.GoodMessage, FrameOf, W.Text, W.AllPongs;
    if ms != [] {
      assert ms[0] in ms;
      PacketsAreGood(w, ms[1..]);
      PacketsFirst(w, ms);
      OnePacketIsGood(FrameOf(w, ms[0]));
      ExpectedFirst(FrameOf(w, ms[0]), Packets(w, ms[1..]));
    }
  }

  /** They are what a client reading the stream in one piece delivers. */
  lemma PlainStream(w: World, ms: seq<AgentMessage>) returns (packets: seq<W.Sent>, input: seq<W.Read>)
    requires forall m :: m in ms ==> Plain(w, m)
    ensures Carried(w.sha, ms, packets) && (forall p <- packets :: W.GoodMessage(p))
    ensures W.WireBytes(input) == W.EncodeAll(packets) && W.Ending(input) == None && W.Answers(W.Expected(packets)) == 0
    ensures Payloads(W.Poll(W.Fresh(0), input).1) == FramesOf(w, ms)
  {
    hide Plain, Carried, W.GoodMessage, W.Poll, W.Expected;
    packets := Packets(w, ms);
    PacketsAreGood(w, ms);
    input := [W.Data(W.EncodeAll(packets))];
    assert input[1..] == [] && W.EncodeAll(packets) + [] == W.EncodeAll(packets);
    W.Reassembly(packets, input, 0);
    PayloadsAreTexts(packets);
  }

  /** A session in which the peer accepts the handshake with one message and types with another. */
  function TwoMessageScript(response: bytes, key: bytes, size: nat): Script {
    Script([], STAMP, 0, [Wait(0, 0, Inbound.Frame(response))], STAMP, true, [], STAMP, 0,
           [Pass(0, 0, [], false, Inbound.Frame(key), 0, [size])], [], STAMP)
  }

  /** Nothing is due from a buffer whose front has just been sent. */
  ghost predicate Idle(buf: seq<Entry>) {
    buf != [] && buf[0].lastSentMs == 0
  }

  lemma IdleIsQuiet(buf: seq<Entry>, number: int, frame: bytes)
    requires Idle(buf) && |buf| < MAX_BUFFERED
    ensures Answer(buf, 0) == Nothing && Polled(buf, 0) == buf && Idle(Added(buf, number, frame, 0))
  {}

  lemma ServedAtOnce(w: World, s: Script, inbound: Inbound, n: int)
    requires s.waits == [Wait(0, 0, inbound)] && s.start == 0 && s.opening == STAMP && s.completing == STAMP
    requires Verdict(w, inbound) == Ready(n)
    ensures Served(w, s) && AfterWait(w, s).1 == Ready(n)
    ensures WaitsHeard(w, Opened(w, s), Deadline(s), s.waits) == 1
    ensures Idle(Started(w, s).outbox) && |Started(w, s).outbox| == 2
  {
    hide FrameOf, StreamMessage, Verdict, Arrive;
    var st := Opened(w, s);
    assert Idle(st.outbox) && |st.outbox| == 1;
    IdleIsQuiet(st.outbox, 1, []);
    OneWaitVerdict(w, st, Deadline(s), s.waits[0]);
    OneWaitIsQuiet(w, st, Deadline(s), s.waits[0], n);
    hide OneWait, Opened, Idle;
    var st1 := AfterWait(w, s).0;
    assert st1.outbox == st.outbox && st1.outSeq == 1;
    var m := StreamMessage(1, HANDSHAKE_COMPLETE, NO_COMPLETION, STAMP);
    IdleIsQuiet(st1.outbox, 1, FrameOf(w, m));
  }

  lemma OneWaitIsQuiet(w: World, st: State, deadline: int, t: Wait, n: int)
    requires Answer(st.outbox, t.pumpAt) == Nothing && OneWait(w, st, deadline, t).1 == Ready(n)
    ensures OneWait(w, st, deadline, t).0.outbox == st.outbox && OneWait(w, st, deadline, t).0.outSeq == st.outSeq
  {
    hide Arrive, HandleAck;
  }

  lemma ResponseIsVerdict(w: World, m: AgentMessage)
    requires Plain(w, m) && IsGoodResponse(w, m)
    ensures Verdict(w, Inbound.Frame(FrameOf(w, m))) == Ready(m.sequence)
  {
    OneArrives(w.sha, m);
    hide Arrive, Serialize;
  }

  lemma KeyIsHeard(w: World, st: State, at: int, passes: seq<Pass>, key: AgentMessage)
    requires Plain(w, key) && Answer(st.outbox, at) == Nothing
    requires passes == [Pass(at, 0, [], false, Inbound.Frame(FrameOf(w, key)), 0, [|key.payload|])]
    ensures PassesHeard(w, st, 0, passes) == 1 && Suffice(passes[0])
  {
    OneArrives(w.sha, key);
    hide Arrive, Serialize, OnePass, Answer, Plain, FrameOf;
    KeySuffices(passes[0], key);
    OneListens(w, st, passes);
  }

  lemma KeySuffices(p: Pass, key: AgentMessage)
    requires Arrive(p.inbound) == Message(key) && p.writes == [|key.payload|]
    ensures Suffice(p)
  {
    hide Arrive;
  }

  lemma OneListens(w: World, st: State, passes: seq<Pass>)
    requires |passes| == 1 && Answer(st.outbox, passes[0].pumpAt) == Nothing
    requires passes[0].idleAt == 0 && passes[0].output == [] && !passes[0].shellEnded
    ensures PassesHeard(w, st, 0, passes) == 1
  {
    hide Answer, OnePass;
    assert Listens(st, 0, passes[0]);
    assert PassesHeard(w, st, 0, passes[1..]) == 0 by {
      assert passes[1..] == [];
    }
  }

  lemma TwoMessagesAreHeard(w: World, response: AgentMessage, key: AgentMessage)
    requires Plain(w, response) && IsGoodResponse(w, response) && Plain(w, key)
    ensures var s := TwoMessageScript(FrameOf(w, response), FrameOf(w, key), |key.payload|);
      && Served(w, s) && HeardWaiting(w, s) == [Inbound.Frame(FrameOf(w, response))]
      && PassesMade(w, s) == s.passes && Suffice(s.passes[0])
  {
    hide FrameOf, Plain, IsGoodResponse, Verdict, Suffice, Idle;
    var s := TwoMessageScript(FrameOf(w, response), FrameOf(w, key), |key.payload|);
    ResponseIsVerdict(w, response);
    ServedAtOnce(w, s, s.waits[0].inbound, response.sequence);
    hide Served, Started, Opened, WaitsHeard, AfterWait, PassesHeard;
    IdleIsQuiet(Started(w, s).outbox, 0, []);
    KeyIsHeard(w, Started(w, s), 0, s.passes, key);
    assert s.waits[..1] == s.waits && s.waits[1..] == [] && WaitInbounds(s.waits[1..]) == [];
    assert s.passes[..1] == s.passes;
  }

  lemma TwoMessagesConvey(w: World, response: AgentMessage, key: AgentMessage)
    returns (s: Script, packets: seq<W.Sent>, input: seq<W.Read>)
    requires Plain(w, response) && IsGoodResponse(w, response) && Plain(w, key)
    ensures Conveys(w, s, [response, key], packets, input, 0) && |Delivered(HeardWaiting(w, s))| == 1
  {
    hide Plain, FrameOf, Served, HeardWaiting, PassesMade, Suffice, Carried, W.GoodMessage, W.Expected, IsGoodResponse;
    hide W.Poll, W.EncodeAll, W.WireBytes, W.Ending, W.Answers, Payloads, Delivered, Inbounds, FramesOf;
    packets, input := PlainStream(w, [response, key]);
    TwoMessagesAreHeard(w, response, key);
    s := TwoMessageScript(FrameOf(w, response), FrameOf(w, key), |key.payload|);
    TwoFrames(w, response, key);
    OneDelivered(s.waits[0].inbound);
    OneDelivered(s.passes[0].inbound);
    OneInbound(s.passes);
  }

  /** For every response that is accepted and all keystrokes there is a session that meets the conditions above: in it the
      shell gets exactly those keystrokes. */
  lemma PlainSession(w: World, response: bytes, keys: bytes)
    returns (s: Script, sent: seq<AgentMessage>, packets: seq<W.Sent>, input: seq<W.Read>)
    requires w.accepts(response) && |response| <= 0x1_0000 && |keys| <= 0x1_0000
    ensures Conveys(w, s, sent, packets, input, 0) && Written(Play(w, s).log) == keys
  {
    var first := InputMessage(0, HANDSHAKE_RESPONSE, response);
    var key := InputMessage(1, OUTPUT, keys);
    InputIsPlain(w, 0, HANDSHAKE_RESPONSE, response);
    InputIsPlain(w, 1, OUTPUT, keys);
    hide Plain, Conveys, HeardWaiting, Delivered, Play, Written, Keys, InOrder, OnlyInputs;
    sent := [first, key];
    s, packets, input := TwoMessagesConvey(w, first, key);
    SessionWritesTheKeystrokes(w, s, sent, packets, input, 0);
    assert sent[1..] == [key];
    OneKey(key);
  }

  lemma OneMessageConveys(w: World, st: State, at: int, key: AgentMessage)
    returns (passes: seq<Pass>, packets: seq<W.Sent>, input: seq<W.Read>)
    requires Plain(w, key) && Answer(st.outbox, at) == Nothing
    ensures HearsAll(w, st, 0, passes, [key], packets, input, 0)
  {
    hide Plain, FrameOf, Suffice, Carried, W.GoodMessage, W.Expected, Answer, PassesHeard, FramesOf;
    hide W.Poll, W.EncodeAll, W.WireBytes, W.Ending, W.Answers, Payloads, Delivered, Inbounds;
    packets, input := PlainStream(w, [key]);
    OneFrame(w, key);
    passes := [Pass(at, 0, [], false, Inbound.Frame(FrameOf(w, key)), 0, [|key.payload|])];
    KeyIsHeard(w, st, at, passes, key);
    OneInbound(passes);
    OneDelivered(passes[0].inbound);
  }

  /** And a loop that meets those of `KeystrokesReachTheShell`, from every state and time at which no resend is due. */
  lemma PlainLoop(w: World, st: State, at: int, keys: bytes)
    returns (passes: seq<Pass>, key: AgentMessage, packets: seq<W.Sent>, input: seq<W.Read>)
    requires Answer(st.outbox, at) == Nothing && -TWO63 <= st.next < TWO63 && |keys| <= 0x1_0000
    ensures HearsAll(w, st, 0, passes, [key], packets, input, 0)
    ensures var after := Bridge(w, st, 0, passes).0; st.log <= after.log && Written(after.log[|st.log|..]) == keys
  {
    key := InputMessage(st.next, OUTPUT, keys);
    InputIsPlain(w, st.next, OUTPUT, keys);
    hide Plain, HearsAll, Answer, Bridge, Written, OnlyInputs, InOrder, Keys;
    passes, packets, input := OneMessageConveys(w, st, at, key);
    OneKey(key);
    KeystrokesReachTheShell(w, st, 0, passes, [key], packets, input, 0);
  }

  lemma OneFrame(w: World, m: AgentMessage)
    ensures FramesOf(w, [m]) == [FrameOf(w, m)]
  {
    hide FrameOf;
    assert [m][1..] == [] && FramesOf(w, [m][1..]) == [];
  }

  lemma TwoFrames(w: World, a: AgentMessage, b: AgentMessage)
    ensures FramesOf(w, [a, b]) == [FrameOf(w, a)] + [FrameOf(w, b)]
  {
    OneFrame(w, b);
    hide FrameOf;
    assert [a, b][1..] == [b];
  }

  lemma OneInbound(passes: seq<Pass>)
    requires |passes| == 1
    ensures Inbounds(passes) == [passes[0].inbound]
  {
    assert passes[1..] == [];
  }

  lemma OneKey(key: AgentMessage)
    requires key.messageType == INPUT_STREAM_DATA && key.payloadType == OUTPUT
    ensures Keys(InOrder(OnlyInputs([key]), key.sequence)) == key.payload
  {
    OneMessage(key);
    NextMessage([], key, key.sequence);
    var none: seq<AgentMessage> := [];
    assert none + [key] == [key] && InOrder(none, key.sequence) == none && Keys(none) == [];
    assert InOrder([key], key.sequence) == [key];
    assert OnlyInputs([key]) == [key];
    assert Keys([key]) == [] + KeysOf(key);
    assert KeysOf(key) == key.payload;
    assert [] + key.payload == key.payload;
    assert Keys([key]) == key.payload;
  }
}
