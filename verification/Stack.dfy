/** The layers put together: a message inside a frame, an acknowledgement the other side can read, and keystrokes from
    the bytes of the stream to the shell. */
module Stack {
  import opened Bytes
  import Frames
  import W = WebSocket
  import opened Mgs
  import opened MgsProofs
  import Json
  import JsonProofs
  import JsonText
  import opened Outbox
  import opened Session
  import opened SessionPasses
  import opened SessionAnswers
  import opened SessionInput

  // ---- one message in one frame ----

  /** What `send` puts on the wire, `parse_frame` and `deserialize` give back, whatever follows it. */
  lemma FramedMessageArrives(m: AgentMessage, digest: bytes, mask: bytes, rest: bytes)
    requires |digest| == 32 && |mask| == 4 && FittingType(m.messageType) && CanonicalUuid(m.messageId)
    requires |Serialize(m, digest)| <= Frames.MAX_FRAME_SIZE
    ensures var data := Serialize(m, digest);
      var frame := Frames.Encode(Frames.Wire(true, W.OP_BINARY, Frames.MinimalForm(|data|), Some(mask), data));
      && Frames.ParseFrame(frame + rest) == Frames.Frame(true, W.OP_BINARY, data, rest)
      && Deserialize(data) == Ok(m)
  {
    hide Serialize, Deserialize, Frames.ParseFrame, Frames.Encode, FittingType, CanonicalUuid;
    var data := Serialize(m, digest);
    Frames.ParsesEveryFrame(Frames.Wire(true, W.OP_BINARY, Frames.MinimalForm(|data|), Some(mask), data), rest);
    MessageRoundTrip(m, digest);
  }

  // ---- acknowledgements ----

  const TYPE_KEY := Ascii("AcknowledgedMessageType")
  const ID_KEY := Ascii("AcknowledgedMessageId")
  const SEQUENTIAL_KEY := Ascii("IsSequentialMessage")

  /** What `send_ack` prints: four members, assigned in this order to an ordered map. */
  function AckValue(m: AgentMessage): Json.Value {
    Json.Obj(Json.Insert(Json.Insert(Json.Insert(Json.Insert([],
      TYPE_KEY, Json.Str(m.messageType)),
      ID_KEY, Json.Str(m.messageId)),
      SEQUENCE_KEY, Json.Int(m.sequence)),
      SEQUENTIAL_KEY, Json.Bool(true)))
  }

  lemma KeysDiffer()
    ensures SEQUENCE_KEY != SEQUENTIAL_KEY
  {
    assert SEQUENCE_KEY[0] == 65 && SEQUENTIAL_KEY[0] == 73;
  }

  lemma {:induction false} InsertKeepsIntegral(members: seq<Json.Member>, key: bytes, v: Json.Value)
    requires (forall i :: 0 <= i < |members| ==> Json.Integral(members[i].value)) && Json.Integral(v)
    ensures forall i :: 0 <= i < |Json.Insert(members, key, v)| ==> Json.Integral(Json.Insert(members, key, v)[i].value)
    decreases |members|
  {
    if members != [] && !Json.Less(key, members[0].key) && members[0].key != key {
      InsertKeepsIntegral(members[1..], key, v);
      hide Json.Integral, Json.Less;
    }
  }

  lemma AckIsPrintable(m: AgentMessage)
    requires -Json.LIMIT < m.sequence < Json.LIMIT
    ensures Json.WellFormed(AckValue(m)) && Json.Integral(AckValue(m))
    ensures JsonText.Find(AckValue(m).members, SEQUENCE_KEY) == Some(Json.Int(m.sequence))
  {
    hide Json.Insert, JsonText.Find, Json.Less;
    var m1 := Json.Insert([], TYPE_KEY, Json.Str(m.messageType));
    var m2 := Json.Insert(m1, ID_KEY, Json.Str(m.messageId));
    var m3 := Json.Insert(m2, SEQUENCE_KEY, Json.Int(m.sequence));
    JsonText.InsertKeepsGood([], TYPE_KEY, Json.Str(m.messageType));
    JsonText.InsertKeepsGood(m1, ID_KEY, Json.Str(m.messageId));
    JsonText.InsertKeepsGood(m2, SEQUENCE_KEY, Json.Int(m.sequence));
    JsonText.InsertKeepsGood(m3, SEQUENTIAL_KEY, Json.Bool(true));
    InsertKeepsIntegral([], TYPE_KEY, Json.Str(m.messageType));
    InsertKeepsIntegral(m1, ID_KEY, Json.Str(m.messageId));
    InsertKeepsIntegral(m2, SEQUENCE_KEY, Json.Int(m.sequence));
    InsertKeepsIntegral(m3, SEQUENTIAL_KEY, Json.Bool(true));
    KeysDiffer();
    JsonText.InsertAssigns(m2, SEQUENCE_KEY, Json.Int(m.sequence), SEQUENCE_KEY);
    JsonText.InsertAssigns(m3, SEQUENTIAL_KEY, Json.Bool(true), SEQUENCE_KEY);
  }

  /** An acknowledgement printed by this agent reads as the number of the message it acknowledges. */
  lemma AckReads(w: World, m: AgentMessage)
    requires -Json.LIMIT < m.sequence < Json.LIMIT
    ensures Json.Integral(AckValue(m)) && AckNumber(w, Json.Dump(AckValue(m))) == Some(m.sequence)
  {
    hide Json.Parse, Json.Dump, Json.Integral, Json.WellFormed, JsonText.Find;
    AckIsPrintable(m);
    JsonProofs.ParseDump(AckValue(m));
  }

  /** An acknowledgement that names no number, or carries none that can be read, clears nothing. */
  lemma NumberlessAckClearsNothing(w: World, st: State, payload: bytes)
    requires forall e :: e in st.outbox ==> e.number >= 0
    requires Json.Parse(payload).Document? && Json.Parse(payload).value.Obj? ==>
               match JsonText.Find(Json.Parse(payload).value.members, SEQUENCE_KEY) {
                 case Some(Int(_)) => false
                 case Some(Real(token, _)) => w.integerOf(token) == None
                 case Some(Str(s)) => s == [] || w.integerOf(s) == None
                 case _ => true
               }
    ensures HandleAck(w, st, payload).outbox == st.outbox
  {
    hide Json.Parse, JsonText.Find;
    assert st.outbox != [] ==> st.outbox[0] in st.outbox;
  }

  /** And one that does carry a number clears what is numbered up to it. */
  lemma AckClears(w: World, st: State, payload: bytes, n: int)
    requires Json.Parse(payload).Document? && Json.Parse(payload).value.Obj?
    requires match JsonText.Find(Json.Parse(payload).value.members, SEQUENCE_KEY) {
               case Some(Int(m)) => m == n
               case Some(Real(token, _)) => w.integerOf(token) == Some(n)
               case Some(Str(s)) => s != [] && w.integerOf(s) == Some(n)
               case _ => false
             }
    ensures HandleAck(w, st, payload).outbox == Acked(st.outbox, n)
  {
    hide Json.Parse, JsonText.Find, Acked;
  }

  // ---- from the stream to the shell ----

  /** The payloads of the messages a client delivers. */
  function Payloads(events: seq<W.Event>): seq<bytes> {
    if events == [] then []
    else (if events[0].Message? then [events[0].payload] else []) + Payloads(events[1..])
  }

  lemma {:induction false} PayloadsAdd(a: seq<W.Event>, b: seq<W.Event>)
    ensures Payloads(a + b) == Payloads(a) + Payloads(b)
  {
    if a == [] {
      assert a + b == b;
    } else {
      assert (a + b)[1..] == a[1..] + b;
      PayloadsAdd(a[1..], b);
    }
  }

  lemma {:induction false} NoPayloadInPongs(cs: seq<W.Control>)
    ensures Payloads(W.Pongs(cs)) == []
  {
    if cs != [] {
      NoPayloadInPongs(cs[1..]);
      PayloadsAdd(if cs[0].isPing then [W.Pong(cs[0].payload)] else [], W.Pongs(cs[1..]));
    }
  }

  lemma {:induction false} NoPayloadInAllPongs(parts: seq<W.Part>)
    ensures Payloads(W.AllPongs(parts)) == []
  {
    if parts != [] {
      NoPayloadInPongs(parts[0].before);
      NoPayloadInAllPongs(parts[1..]);
      PayloadsAdd(W.Pongs(parts[0].before), W.AllPongs(parts[1..]));
    }
  }

  ghost function Texts(packets: seq<W.Sent>): seq<bytes> {
    if packets == [] then [] else [W.Text(packets[0].parts)] + Texts(packets[1..])
  }

  lemma {:induction false} PayloadsAreTexts(packets: seq<W.Sent>)
    ensures Payloads(W.Expected(packets)) == Texts(packets)
  {
    if packets != [] {
      var text := W.Text(packets[0].parts);
      var pongs, message, later := W.AllPongs(packets[0].parts), [W.Message(packets[0].opcode, text)], W.Expected(packets[1..]);
      NoPayloadInAllPongs(packets[0].parts);
      PayloadsAreTexts(packets[1..]);
      PayloadsAdd(pongs + message, later);
      PayloadsAdd(pongs, message);
      assert Payloads(message) == [text] + Payloads(message[1..]) && message[1..] == [];
    }
  }

  /** Messages a peer may send: each fits its fields, and each is carried by one packet in any fragments. */
  ghost predicate Carried(sha: bytes -> Sha256, ms: seq<AgentMessage>, packets: seq<W.Sent>) {
    && |ms| == |packets|
    && (forall i :: 0 <= i < |ms| ==> FittingType(ms[i].messageType) && CanonicalUuid(ms[i].messageId))
    && (forall i :: 0 <= i < |ms| ==> W.Text(packets[i].parts) == Serialize(ms[i], sha(ms[i].payload)))
  }

  /** These frames decode to these messages, one each. */
  ghost predicate Decode(frames: seq<bytes>, ms: seq<AgentMessage>) {
    |frames| == |ms| && forall i :: 0 <= i < |ms| ==> Arrive(Inbound.Frame(frames[i])) == Message(ms[i])
  }

  lemma DecodeFirst(frame: bytes, later: seq<bytes>, ms: seq<AgentMessage>)
    requires ms != []
    ensures Decode([frame] + later, ms) <==> Arrive(Inbound.Frame(frame)) == Message(ms[0]) && Decode(later, ms[1..])
  {
    hide Arrive;
    var frames := [frame] + later;
    if Decode(frames, ms) {
      assert forall i :: 0 <= i < |later| ==> later[i] == frames[i + 1] && ms[1..][i] == ms[i + 1];
    }
  }

  lemma {:induction false} TextsArrive(sha: bytes -> Sha256, ms: seq<AgentMessage>, packets: seq<W.Sent>)
    requires Carried(sha, ms, packets)
    ensures Decode(Texts(packets), ms)
  {
    hide Serialize, Arrive, FittingType, CanonicalUuid, Decode;
    if ms == [] {
      NothingDecodes();
    } else {
      OneArrives(sha, ms[0]);
      var later := ms[1..];
      assert Carried(sha, later, packets[1..]) by {
        assert forall i :: 0 <= i < |later| ==> later[i] == ms[i + 1] && packets[1..][i] == packets[i + 1];
      }
      TextsArrive(sha, later, packets[1..]);
      DecodeFirst(W.Text(packets[0].parts), Texts(packets[1..]), ms);
    }
  }

  lemma NothingDecodes()
    ensures Decode([], [])
  {}

  lemma OneArrives(sha: bytes -> Sha256, m: AgentMessage)
    requires FittingType(m.messageType) && CanonicalUuid(m.messageId)
    ensures Arrive(Inbound.Frame(Serialize(m, sha(m.payload)))) == Message(m)
  {
    hide Serialize, Deserialize, FittingType, CanonicalUuid;
    MessageRoundTrip(m, sha(m.payload));
  }

  /** Whatever the fragments, the control frames in between and the pieces the bytes arrive in, the client delivers
      exactly the messages sent, and each decodes to itself. */
  lemma MessagesArrive(sha: bytes -> Sha256, ms: seq<AgentMessage>, packets: seq<W.Sent>, input: seq<W.Read>, writes: nat)
    requires Carried(sha, ms, packets) && (forall p <- packets :: W.GoodMessage(p))
    requires W.WireBytes(input) == W.EncodeAll(packets) && W.Ending(input) == None && W.Answers(W.Expected(packets)) <= writes
    ensures Decode(Payloads(W.Poll(W.Fresh(writes), input).1), ms)
  {
    hide W.Poll, W.WireBytes, W.Ending, W.Answers, W.GoodMessage, W.EncodeAll, Carried, Arrive, W.Expected;
    W.Reassembly(packets, input, writes);
    PayloadsAreTexts(packets);
    TextsArrive(sha, ms, packets);
  }

  // ---- the shell gets every keystroke ----

  /** The frames among what the passes of a loop get from the channel; the others get nothing. */
  function Delivered(inbounds: seq<Inbound>): seq<bytes> {
    if inbounds == [] then []
    else (if inbounds[0].Frame? then [inbounds[0].payload] else []) + Delivered(inbounds[1..])
  }

  lemma OnlyFramesBring(inbound: Inbound)
    ensures !inbound.Frame? ==> InputIn(inbound) == []
  {}

  lemma OneMessage(m: AgentMessage)
    ensures OnlyInputs([m]) == if m.messageType == INPUT_STREAM_DATA then [m] else []
  {
    assert [m][..0] == [];
  }

  lemma DeliveredFirst(inbounds: seq<Inbound>)
    requires inbounds != []
    ensures Delivered(inbounds)
         == (if inbounds[0].Frame? then [inbounds[0].payload] else []) + Delivered(inbounds[1..])
  {}

  /** The inputs among them are the inputs among the messages they decode to. */
  lemma {:induction false} InputsAmongDelivered(inbounds: seq<Inbound>, ms: seq<AgentMessage>)
    requires Decode(Delivered(inbounds), ms)
    ensures InputsAmong(inbounds) == OnlyInputs(ms)
  {
    if inbounds != [] {
      DeliveredFirst(inbounds);
      OnlyFramesBring(inbounds[0]);
      assert InputsAmong(inbounds) == InputIn(inbounds[0]) + InputsAmong(inbounds[1..]);
      var rest := Delivered(inbounds[1..]);
      if inbounds[0].Frame? {
        hide Arrive, Delivered, InputsAmong, OnlyInputs;
        DecodeFirst(inbounds[0].payload, rest, ms);
        InputsAmongDelivered(inbounds[1..], ms[1..]);
        OneMessage(ms[0]);
        OnlyInputsAdd([ms[0]], ms[1..]);
        assert ms == [ms[0]] + ms[1..];
      } else {
        hide Arrive, InputIn, Delivered, InputsAmong, OnlyInputs, Decode;
        assert [] + rest == rest;
        InputsAmongDelivered(inbounds[1..], ms);
        assert [] + InputsAmong(inbounds[1..]) == InputsAmong(inbounds[1..]);
      }
    }
  }

  /** The peer sends these messages, in these packets, which arrive in these reads; a loop that makes all of these passes
      gets what the client delivers, one message a pass wherever a pass gets one; and the shell takes what it is given. */
  ghost predicate HearsAll(w: World, st: State, active: int, passes: seq<Pass>,
                           sent: seq<AgentMessage>, packets: seq<W.Sent>, input: seq<W.Read>, writes: nat) {
    && Carried(w.sha, sent, packets) && (forall p <- packets :: W.GoodMessage(p))
    && W.WireBytes(input) == W.EncodeAll(packets) && W.Ending(input) == None && W.Answers(W.Expected(packets)) <= writes
    && Delivered(Inbounds(passes)) == Payloads(W.Poll(W.Fresh(writes), input).1)
    && PassesHeard(w, st, active, passes) == |passes| && forall p :: p in passes ==> Suffice(p)
  }

  /** From the peer to the shell, for any messages the peer sends, fragmented and cut into reads in any way, with repeats,
      gaps and reorderings, acknowledgements and control messages among them: a loop that hears all of them, in passes that
      may be quiet in between, see output, resend, and write in pieces, writes to the shell exactly the keystrokes of
      the inputs that come in their turn, byte for byte. */
  lemma KeystrokesReachTheShell(w: World, st: State, active: int, passes: seq<Pass>,
                                sent: seq<AgentMessage>, packets: seq<W.Sent>, input: seq<W.Read>, writes: nat)
    requires HearsAll(w, st, active, passes, sent, packets, input, writes)
    ensures var after := Bridge(w, st, active, passes).0;
      && st.log <= after.log
      && Written(after.log[|st.log|..]) == Keys(InOrder(OnlyInputs(sent), st.next))
  {
    hide W.Poll, W.WireBytes, W.Ending, W.Answers, W.GoodMessage, W.EncodeAll, W.Expected, Carried, Arrive, Bridge;
    hide Payloads, Delivered, Inbounds, InputsAmong, OnlyInputs, Written, InOrder, Keys, PassesHeard, Suffice;
    MessagesArrive(w.sha, sent, packets, input, writes);
    InputsAmongDelivered(Inbounds(passes), sent);
    EveryKeyIsWritten(w, st, active, passes);
    assert passes[..|passes|] == passes;
  }

  /** One list of messages among another, in the same order. */
  ghost predicate Among(ms: seq<AgentMessage>, all: seq<AgentMessage>) {
    || ms == []
    || (all != [] && Among(ms, all[..|all| - 1]))
    || (all != [] && ms[|ms| - 1] == all[|all| - 1] && Among(ms[..|ms| - 1], all[..|all| - 1]))
  }

  lemma {:induction false} TakesAllAmong(ms: seq<AgentMessage>, all: seq<AgentMessage>, first: int)
    requires Among(ms, all) && forall i :: 0 <= i < |ms| ==> ms[i].sequence == first + i
    ensures |InOrder(all, first)| >= |ms|
    decreases |all|
  {
    if ms != [] {
      var before := all[..|all| - 1];
      if Among(ms, before) {
        TakesAllAmong(ms, before, first);
      } else {
        TakesAllAmong(ms[..|ms| - 1], before, first);
      }
    }
  }

  /** A typed stream, numbered from `first` on, that comes in order among repeats of itself and older input. */
  ghost predicate ComesInOrder(typed: seq<AgentMessage>, all: seq<AgentMessage>, first: int) {
    && Among(typed, all)
    && (forall i :: 0 <= i < |typed| ==> typed[i].sequence == first + i)
    && forall x :: x in all ==> x.sequence < first || (x.sequence < first + |typed| && x == typed[x.sequence - first])
  }

  /** Such a stream is exactly what is taken. */
  lemma TakesExactlyTheStream(ms: seq<AgentMessage>, all: seq<AgentMessage>, first: int)
    requires ComesInOrder(ms, all, first)
    ensures InOrder(all, first) == ms
  {
    hide InOrder, Among;
    TakesAllAmong(ms, all, first);
    TakesNoMore(ms, all, first);
    var taken := InOrder(all, first);
    forall k | 0 <= k < |taken| ensures taken[k] == ms[k] {
      TakenAt(ms, all, first, k);
    }
  }

  lemma TakenAt(ms: seq<AgentMessage>, all: seq<AgentMessage>, first: int, k: nat)
    requires k < |InOrder(all, first)| && k < |ms|
    requires forall x :: x in all && x.sequence == first + k ==> x == ms[k]
    ensures InOrder(all, first)[k] == ms[k]
  {
    hide InOrder;
    InOrderIsConsecutive(all, first, k);
  }

  lemma TakesNoMore(ms: seq<AgentMessage>, all: seq<AgentMessage>, first: int)
    requires forall x :: x in all ==> x.sequence < first + |ms|
    ensures |InOrder(all, first)| <= |ms|
  {
    hide InOrder;
    if |InOrder(all, first)| > |ms| {
      InOrderIsConsecutive(all, first, |ms|);
    }
  }

  /** The common case of it: what was typed is what the shell reads. */
  lemma TypedIsRead(w: World, st: State, active: int, passes: seq<Pass>, typed: seq<AgentMessage>,
                    sent: seq<AgentMessage>, packets: seq<W.Sent>, input: seq<W.Read>, writes: nat)
    requires HearsAll(w, st, active, passes, sent, packets, input, writes)
    requires ComesInOrder(typed, OnlyInputs(sent), st.next)
    ensures var after := Bridge(w, st, active, passes).0;
      st.log <= after.log && Written(after.log[|st.log|..]) == Keys(typed)
  {
    hide HearsAll, Bridge, OnlyInputs, Written, InOrder, Keys, ComesInOrder;
    TakesExactlyTheStream(typed, OnlyInputs(sent), st.next);
    KeystrokesReachTheShell(w, st, active, passes, sent, packets, input, writes);
  }
}
