/** What reaches the shell: each input once, in order, byte for byte. */
module SessionInput {
  import opened Bytes
  import opened Mgs
  import opened Outbox
  import opened Session
  import opened SessionRuns
  import opened SessionPasses
  import opened SessionAnswers
  import Json

  // ---- what a stretch of the log received and applied ----

  /** Every input message received; each is acknowledged, applied or not. */
  function Inputs(acts: seq<Act>): seq<AgentMessage> {
    if acts == [] then []
    else
      var before := Inputs(acts[..|acts| - 1]);
      if IsInput(acts[|acts| - 1]) then before + [acts[|acts| - 1].m] else before
  }

  predicate IsInput(a: Act) {
    a.AckSent? && a.m.messageType == INPUT_STREAM_DATA
  }

  function Applied(acts: seq<Act>): seq<AgentMessage> {
    if acts == [] then []
    else
      var before := Applied(acts[..|acts| - 1]);
      if acts[|acts| - 1].Typed? then before + [acts[|acts| - 1].m] else before
  }

  /** All bytes written to the shell. */
  function Written(acts: seq<Act>): bytes {
    if acts == [] then []
    else
      var before := Written(acts[..|acts| - 1]);
      if acts[|acts| - 1].Wrote? then before + acts[|acts| - 1].data else before
  }

  /** The window sizes set, in order, as the payloads they came from. */
  function Resizes(acts: seq<Act>): seq<bytes> {
    if acts == [] then []
    else
      var before := Resizes(acts[..|acts| - 1]);
      if acts[|acts| - 1].Resized? then before + [acts[|acts| - 1].payload] else before
  }

  /** Taking messages as they come, exactly those that carry the next number. */
  function InOrder(ms: seq<AgentMessage>, first: int): seq<AgentMessage> {
    if ms == [] then []
    else
      var before := InOrder(ms[..|ms| - 1], first);
      if ms[|ms| - 1].sequence == first + |before| then before + [ms[|ms| - 1]] else before
  }

  function KeysOf(m: AgentMessage): bytes {
    if m.payloadType == 1 then m.payload else []
  }

  /** The keystrokes of a list of messages. */
  function Keys(ms: seq<AgentMessage>): bytes {
    if ms == [] then []
    else Keys(ms[..|ms| - 1]) + KeysOf(ms[|ms| - 1])
  }

  /** The window sizes a message, and a list of them, asks for. */
  function SizesOf(m: AgentMessage): seq<bytes> {
    if m.payloadType == 3 && Json.Parse(m.payload).Document? then [m.payload] else []
  }

  function Sizes(ms: seq<AgentMessage>): seq<bytes> {
    if ms == [] then [] else Sizes(ms[..|ms| - 1]) + SizesOf(ms[|ms| - 1])
  }

  lemma NextInput(acts: seq<Act>, a: Act)
    ensures Inputs(acts + [a]) == if IsInput(a) then Inputs(acts) + [a.m] else Inputs(acts)
    ensures Applied(acts + [a]) == if a.Typed? then Applied(acts) + [a.m] else Applied(acts)
    ensures Written(acts + [a]) == if a.Wrote? then Written(acts) + a.data else Written(acts)
    ensures Resizes(acts + [a]) == if a.Resized? then Resizes(acts) + [a.payload] else Resizes(acts)
  {
    assert (acts + [a])[..|acts|] == acts;
  }

  lemma NextMessage(ms: seq<AgentMessage>, m: AgentMessage, first: int)
    ensures InOrder(ms + [m], first)
         == if m.sequence == first + |InOrder(ms, first)| then InOrder(ms, first) + [m] else InOrder(ms, first)
    ensures Keys(ms + [m]) == Keys(ms) + KeysOf(m)
    ensures Sizes(ms + [m]) == Sizes(ms) + SizesOf(m)
  {
    hide SizesOf, KeysOf;
    assert (ms + [m])[..|ms|] == ms;
  }

  /** The numbers taken are consecutive: no repeat and no hole. */
  lemma {:induction false} InOrderIsConsecutive(ms: seq<AgentMessage>, first: int, k: nat)
    requires k < |InOrder(ms, first)|
    ensures InOrder(ms, first)[k].sequence == first + k && InOrder(ms, first)[k] in ms
  {
    if k < |InOrder(ms[..|ms| - 1], first)| {
      InOrderIsConsecutive(ms[..|ms| - 1], first, k);
    }
  }

  /** And none is passed over: once the next number comes, it is taken. */
  lemma {:induction false} InOrderTakesTheNext(ms: seq<AgentMessage>, first: int, i: nat)
    requires i < |ms| && ms[i].sequence == first + |InOrder(ms[..i], first)|
    ensures ms[i] in InOrder(ms, first)
  {
    if i < |ms| - 1 {
      assert ms[..|ms| - 1][..i] == ms[..i];
      InOrderTakesTheNext(ms[..|ms| - 1], first, i);
    }
  }

  // ---- the main loop ----

  /** Since `base`, exactly the in-order inputs have been applied; the sizes set are those they ask for, and what was
      written is their keystrokes but for the last bytes, `missing`. */
  ghost predicate Fed(base: seq<Act>, first: int, st: State, missing: bytes) {
    && base <= st.log
    && var acts := st.log[|base|..];
    && Applied(acts) == InOrder(Inputs(acts), first)
    && st.next == first + |Applied(acts)|
    && Resizes(acts) == Sizes(Applied(acts))
    && Keys(Applied(acts)) == Written(acts) + missing
  }

  lemma FedNote(base: seq<Act>, first: int, st: State, a: Act)
    requires Fed(base, first, st, []) && !IsInput(a) && !a.Typed? && !a.Wrote? && !a.Resized?
    ensures Fed(base, first, Note(st, a), [])
  {
    var acts := st.log[|base|..];
    assert (st.log + [a])[|base|..] == acts + [a];
    NextInput(acts, a);
    hide Inputs, Applied, Written, Resizes, InOrder, Keys, Sizes;
  }

  lemma FedIgnoresBuffer(base: seq<Act>, first: int, st: State, outSeq: nat, outbox: seq<Entry>)
    requires Fed(base, first, st, [])
    ensures Fed(base, first, st.(outSeq := outSeq, outbox := outbox), [])
  {
    hide Inputs, Applied, Written, Resizes, InOrder, Keys, Sizes;
  }

  lemma FedPump(base: seq<Act>, first: int, st: State, at: int)
    requires Fed(base, first, st, [])
    ensures Fed(base, first, Pump(st, at).0, [])
  {
    hide Fed, Note;
    FedIgnoresBuffer(base, first, st, st.outSeq, Polled(st.outbox, at));
    FedNote(base, first, st.(outbox := Polled(st.outbox, at)), Pumped(at, Answer(st.outbox, at)));
  }

  lemma FedAck(w: World, base: seq<Act>, first: int, st: State, payload: bytes)
    requires Fed(base, first, st, [])
    ensures Fed(base, first, HandleAck(w, st, payload), [])
  {
    hide Fed, Note, AckNumber, Acked;
    if AckNumber(w, payload).Some? {
      var n := AckNumber(w, payload).value;
      FedIgnoresBuffer(base, first, st, st.outSeq, Acked(st.outbox, n));
      FedNote(base, first, st.(outbox := Acked(st.outbox, n)), HeardAck(n));
    }
  }

  lemma {:induction false} FedDrain(w: World, base: seq<Act>, first: int, st: State, output: seq<Chunk>)
    requires Fed(base, first, st, [])
    ensures Fed(base, first, Drain(w, st, output), [])
    decreases |output|
  {
    hide Fed, Note, FrameOf, Added, StreamMessage;
    if output != [] {
      var stamp := output[0].stamp;
      var m := StreamMessage(st.outSeq, OUTPUT, output[0].data, stamp);
      var st1 := st.(outSeq := st.outSeq + 1, outbox := Added(st.outbox, st.outSeq, FrameOf(w, m), stamp.at));
      FedIgnoresBuffer(base, first, st, st1.outSeq, st1.outbox);
      FedNote(base, first, st1, Sent(m, stamp.at));
      FedDrain(w, base, first, SendStream(w, st, OUTPUT, output[0].data, stamp), output[1..]);
    }
  }

  /** An input out of turn is acknowledged and otherwise ignored. */
  lemma FedSkip(base: seq<Act>, first: int, st: State, m: AgentMessage)
    requires Fed(base, first, st, []) && (m.messageType == INPUT_STREAM_DATA ==> m.sequence != st.next)
    ensures Fed(base, first, Note(st, AckSent(m)), [])
  {
    var acts := st.log[|base|..];
    assert (st.log + [AckSent(m)])[|base|..] == acts + [AckSent(m)];
    NextInput(acts, AckSent(m));
    NextMessage(Inputs(acts), m, first);
    hide Inputs, Applied, Written, Resizes, InOrder, Keys, Sizes;
  }

  /** Between taking an input and doing what it asks: keystrokes not yet written, sizes not yet set. */
  ghost predicate Owes(base: seq<Act>, first: int, st: State, data: bytes, sizes: seq<bytes>) {
    && base <= st.log
    && var acts := st.log[|base|..];
    && Applied(acts) == InOrder(Inputs(acts), first)
    && st.next == first + |Applied(acts)|
    && Sizes(Applied(acts)) == Resizes(acts) + sizes
    && Keys(Applied(acts)) == Written(acts) + data
  }

  lemma FedTake(base: seq<Act>, first: int, st: State, m: AgentMessage)
    requires Fed(base, first, st, []) && m.messageType == INPUT_STREAM_DATA && m.sequence == st.next
    ensures Owes(base, first, Note(Note(st, AckSent(m)).(next := st.next + 1), Typed(m)), KeysOf(m), SizesOf(m))
  {
    hide Inputs, Applied, Written, Resizes, InOrder, Keys, Sizes, KeysOf, SizesOf;
    var acts := st.log[|base|..];
    SinceTwo(base, st.log, AckSent(m), Typed(m));
    TakeActs(acts, m);
    NextMessage(Inputs(acts), m, first);
    NextMessage(Applied(acts), m, first);
  }

  lemma SinceTwo(base: seq<Act>, log: seq<Act>, a: Act, b: Act)
    requires base <= log
    ensures base <= log + [a] + [b] && (log + [a] + [b])[|base|..] == log[|base|..] + [a] + [b]
  {}

  lemma TakeActs(acts: seq<Act>, m: AgentMessage)
    requires m.messageType == INPUT_STREAM_DATA
    ensures var after := acts + [AckSent(m)] + [Typed(m)];
      && Inputs(after) == Inputs(acts) + [m] && Applied(after) == Applied(acts) + [m]
      && Written(after) == Written(acts) && Resizes(after) == Resizes(acts)
  {
    hide Inputs, Applied, Written, Resizes;
    NextInput(acts, AckSent(m));
    NextInput(acts + [AckSent(m)], Typed(m));
  }

  lemma FedPays(base: seq<Act>, first: int, st: State, owed: bytes, n: nat)
    requires Owes(base, first, st, owed, []) && n <= |owed|
    ensures Fed(base, first, Note(st, Wrote(owed[..n])), owed[n..])
  {
    hide Inputs, Applied, Written, Resizes, InOrder, Keys, Sizes;
    var acts := st.log[|base|..];
    assert (st.log + [Wrote(owed[..n])])[|base|..] == acts + [Wrote(owed[..n])];
    NextInput(acts, Wrote(owed[..n]));
    assert Written(acts) + owed == (Written(acts) + owed[..n]) + owed[n..];
    assert Resizes(acts) + [] == Resizes(acts);
  }

  lemma FedResizes(base: seq<Act>, first: int, st: State, payload: bytes)
    requires Owes(base, first, st, [], [payload])
    ensures Fed(base, first, Note(st, Resized(payload)), [])
  {
    hide Inputs, Applied, Written, Resizes, InOrder, Keys, Sizes;
    var acts := st.log[|base|..];
    assert (st.log + [Resized(payload)])[|base|..] == acts + [Resized(payload)];
    NextInput(acts, Resized(payload));
    assert Written(acts) + [] == Written(acts);
  }

  lemma FedOwesNothing(base: seq<Act>, first: int, st: State)
    requires Owes(base, first, st, [], [])
    ensures Fed(base, first, st, [])
  {
    hide Inputs, Applied, Written, Resizes, InOrder, Keys, Sizes;
    var acts := st.log[|base|..];
    assert Written(acts) + [] == Written(acts) && Resizes(acts) + [] == Resizes(acts);
  }

  lemma FedInput(base: seq<Act>, first: int, st: State, m: AgentMessage, p: Pass)
    requires Fed(base, first, st, []) && Arrive(p.inbound) == Message(m)
    ensures Fed(base, first, HandleInput(Note(st, AckSent(m)), m, p.writes).0, Unwritten(st.next, p))
  {
    if m.messageType != INPUT_STREAM_DATA || m.sequence != st.next {
      hide Fed, Arrive;
      FedSkip(base, first, st, m);
    } else {
      hide Fed, Owes, Taken, Json.Parse, Arrive;
      FedTake(base, first, st, m);
      var st' := Note(Note(st, AckSent(m)).(next := st.next + 1), Typed(m));
      if m.payloadType == OUTPUT {
        TakenWithin(|m.payload|, p.writes);
        FedPays(base, first, st', m.payload, Taken(|m.payload|, p.writes).0);
      } else if SizesOf(m) == [] {
        FedOwesNothing(base, first, st');
      } else {
        FedResizes(base, first, st', m.payload);
      }
    }
  }

  lemma FedPass(w: World, base: seq<Act>, first: int, st: State, active: int, p: Pass)
    requires Fed(base, first, st, [])
    ensures Fed(base, first, OnePass(w, st, active, p).0, MissingAfter(st, active, p))
  {
    SentAll(p.output);
    hide Fed, HandleAck, Arrive, Drain, HandleInput, Answer, Polled, AllSent, Taken, Unwritten;
    FedPump(base, first, st, p.pumpAt);
    var st1 := Pump(st, p.pumpAt).0;
    FedDrain(w, base, first, st1, p.output);
    var st2 := Drain(w, st1, p.output);
    DrainKeepsNext(w, st1, p.output);
    NamesDiffer();
    OnlyInputIsUnwritten(st.next, p);
    if Arrive(p.inbound).Message? {
      var m := Arrive(p.inbound).m;
      FedAck(w, base, first, st2, m.payload);
      FedInput(base, first, st2, m, p);
    }
  }

  lemma OnlyInputIsUnwritten(next: int, p: Pass)
    ensures var a := Arrive(p.inbound);
      !a.Message? || a.m.messageType != INPUT_STREAM_DATA ==> Unwritten(next, p) == []
  {
    hide Arrive, Taken;
  }

  lemma {:induction false} FedBridge(w: World, base: seq<Act>, first: int, st: State, active: int, passes: seq<Pass>)
    requires Fed(base, first, st, [])
    ensures Fed(base, first, Bridge(w, st, active, passes).0, Missing(w, st, active, passes))
    decreases |passes|
  {
    hide OnePass, Fed, MissingAfter;
    if passes != [] {
      var (st1, passed) := OnePass(w, st, active, passes[0]);
      FedPass(w, base, first, st, active, passes[0]);
      MissingEnds(w, st, active, passes[0]);
      if passed.Running? {
        FedBridge(w, base, first, st1, passed.active, passes[1..]);
      }
    }
  }

  // ---- arrivals ----

  /** The input messages among what came in. */
  function InputsAmong(inbounds: seq<Inbound>): seq<AgentMessage> {
    if inbounds == [] then [] else InputIn(inbounds[0]) + InputsAmong(inbounds[1..])
  }

  function InputIn(inbound: Inbound): seq<AgentMessage> {
    var a := Arrive(inbound);
    if a.Message? && a.m.messageType == INPUT_STREAM_DATA then [a.m] else []
  }

  function OnlyInputs(ms: seq<AgentMessage>): seq<AgentMessage> {
    if ms == [] then []
    else
      var before := OnlyInputs(ms[..|ms| - 1]);
      if ms[|ms| - 1].messageType == INPUT_STREAM_DATA then before + [ms[|ms| - 1]] else before
  }

  lemma {:induction false} OnlyInputsAdd(a: seq<AgentMessage>, b: seq<AgentMessage>)
    ensures OnlyInputs(a + b) == OnlyInputs(a) + OnlyInputs(b)
  {
    if b == [] {
      assert a + b == a;
    } else {
      assert (a + b)[..|a + b| - 1] == a + b[..|b| - 1];
      OnlyInputsAdd(a, b[..|b| - 1]);
    }
  }

  lemma {:induction false} InputsAreAcked(acts: seq<Act>)
    ensures Inputs(acts) == OnlyInputs(Acks(acts))
  {
    if acts != [] {
      InputsAreAcked(acts[..|acts| - 1]);
      if acts[|acts| - 1].AckSent? {
        var before := Acks(acts[..|acts| - 1]);
        assert (before + [acts[|acts| - 1].m])[..|before|] == before;
      }
    }
  }

  lemma {:induction false} InputsAmongAreDue(inbounds: seq<Inbound>)
    ensures OnlyInputs(AcksDue(inbounds)) == InputsAmong(inbounds)
  {
    hide Arrive;
    if inbounds != [] {
      NamesDiffer();
      InputsAmongAreDue(inbounds[1..]);
      OnlyInputsAdd(AckDue(inbounds[0]), AcksDue(inbounds[1..]));
      var due := AckDue(inbounds[0]);
      assert |due| == 1 ==> due[..0] == [];
    }
  }

  lemma {:induction false} AcksAdd(a: seq<Act>, b: seq<Act>)
    ensures Acks(a + b) == Acks(a) + Acks(b)
  {
    if b == [] {
      assert a + b == a;
    } else {
      assert (a + b)[..|a + b| - 1] == a + b[..|b| - 1];
      AcksAdd(a, b[..|b| - 1]);
    }
  }

  /** The inputs acknowledged in the loop are those that arrived in the passes heard. */
  lemma InputsAreArrivals(w: World, st: State, active: int, passes: seq<Pass>)
    requires st.log <= Bridge(w, st, active, passes).0.log
    ensures var acts := Bridge(w, st, active, passes).0.log[|st.log|..];
      Inputs(acts) == InputsAmong(Inbounds(passes[..PassesHeard(w, st, active, passes)]))
  {
    hide Bridge, Inputs, Acks, HearsIn, AcksDue, HearingsDue, OnlyInputs, InputsAmong, Inbounds, PassesHeard;
    var after := Bridge(w, st, active, passes).0;
    var acts := after.log[|st.log|..];
    var heard := Inbounds(passes[..PassesHeard(w, st, active, passes)]);
    BridgeAnswersInOrder(w, st, active, passes);
    assert after.log == st.log + acts;
    AcksAdd(st.log, acts);
    assert Acks(acts) == (Acks(st.log) + Acks(acts))[|Acks(st.log)|..];
    assert AcksDue(heard) == (Acks(st.log) + AcksDue(heard))[|Acks(st.log)|..];
    InputsAreAcked(acts);
    InputsAmongAreDue(heard);
  }

  // ---- the main loop, from the start of the shell ----

  /** Whatever repeats, gaps and reorderings come in: the inputs applied are exactly those that arrive in their turn in the
      passes heard, counted from `st.next`, each once; the window sizes set are theirs; and what was written to the shell
      is all of their keystrokes but for `Missing`, what the writes of the last pass did not take. */
  lemma InputIsAppliedOnceInOrder(w: World, st: State, active: int, passes: seq<Pass>)
    ensures var after := Bridge(w, st, active, passes).0;
      && st.log <= after.log
      && var acts := after.log[|st.log|..];
      var arrived := InputsAmong(Inbounds(passes[..PassesHeard(w, st, active, passes)]));
      && Applied(acts) == InOrder(arrived, st.next)
      && Resizes(acts) == Sizes(Applied(acts))
      && Keys(Applied(acts)) == Written(acts) + Missing(w, st, active, passes)
      && after.next == st.next + |Applied(acts)|
  {
    hide Bridge, Inputs, Applied, Written, Resizes, InOrder, Keys, Sizes, InputsAmong, Inbounds, PassesHeard, Missing;
    NothingFed(st);
    FedBridge(w, st.log, st.next, st, active, passes);
    InputsAreArrivals(w, st, active, passes);
  }

  /** When the writes take what they are given, the shell gets every keystroke of every input that arrives in its turn. */
  lemma EveryKeyIsWritten(w: World, st: State, active: int, passes: seq<Pass>)
    requires forall p :: p in passes ==> Suffice(p)
    ensures var after := Bridge(w, st, active, passes).0;
      && st.log <= after.log
      && Written(after.log[|st.log|..])
         == Keys(InOrder(InputsAmong(Inbounds(passes[..PassesHeard(w, st, active, passes)])), st.next))
  {
    hide Bridge, Inputs, Applied, Written, Resizes, InOrder, Keys, Sizes, InputsAmong, Inbounds, Missing, Suffice;
    InputIsAppliedOnceInOrder(w, st, active, passes);
    MissingOnlyWhenShort(w, st, active, passes);
    var acts := Bridge(w, st, active, passes).0.log[|st.log|..];
    assert Written(acts) + [] == Written(acts);
  }

  lemma NothingFed(st: State)
    ensures Fed(st.log, st.next, st, [])
  {
    assert st.log[|st.log|..] == [];
  }

  /** What the customer typed, as an unbroken stream: the payload of each number, up to `n` of them. */
  function Stream(typed: int -> bytes, first: int, n: nat): bytes {
    if n == 0 then [] else Stream(typed, first, n - 1) + typed(first + n - 1)
  }

  /** When every copy of an input carries the same keystrokes, those applied are an unbroken part of what was typed. */
  lemma {:induction false} KeysAreTheStream(ms: seq<AgentMessage>, first: int, typed: int -> bytes)
    requires forall i :: 0 <= i < |ms| ==> ms[i].sequence == first + i && typed(ms[i].sequence) == KeysOf(ms[i])
    ensures Keys(ms) == Stream(typed, first, |ms|)
  {
    if ms != [] {
      KeysAreTheStream(ms[..|ms| - 1], first, typed);
    }
  }

  /** Then the shell reads exactly what was typed, up to the last number that arrived in its turn and the bytes missing. */
  lemma ShellReadsWhatWasTyped(w: World, st: State, active: int, passes: seq<Pass>, typed: int -> bytes)
    requires forall m :: m in InputsAmong(Inbounds(passes[..PassesHeard(w, st, active, passes)]))
               ==> typed(m.sequence) == KeysOf(m)
    ensures var after := Bridge(w, st, active, passes).0;
      && st.log <= after.log && after.next >= st.next
      && Stream(typed, st.next, after.next - st.next)
         == Written(after.log[|st.log|..]) + Missing(w, st, active, passes)
  {
    hide Bridge, Inputs, Applied, Written, Resizes, InOrder, Keys, Sizes, InputsAmong, Inbounds, PassesHeard, Missing, KeysOf;
    InputIsAppliedOnceInOrder(w, st, active, passes);
    var acts := Bridge(w, st, active, passes).0.log[|st.log|..];
    var arrived := InputsAmong(Inbounds(passes[..PassesHeard(w, st, active, passes)]));
    var ms := Applied(acts);
    forall i | 0 <= i < |ms| ensures ms[i].sequence == st.next + i && typed(ms[i].sequence) == KeysOf(ms[i]) {
      InOrderIsConsecutive(arrived, st.next, i);
    }
    KeysAreTheStream(ms, st.next, typed);
  }

  // ---- whole sessions ----

  predicate Unfed(a: Act) {
    !a.Typed? && !a.Wrote? && !a.Resized?
  }

  /** A session without a shell applies and writes nothing. */
  lemma NoShellNoInput(w: World, s: Script)
    requires !(Served(w, s) && s.spawns)
    ensures All(Play(w, s).log, Unfed)
  {
    hide Handshake, FrameOf, Added;
    var st := Opened(w, s);
    assert All(st.log, Unfed);
    hide Opened;
    HandshakeDoes(w, st, Deadline(s), s.waits);
  }

  lemma StartedIsUnfed(w: World, s: Script)
    requires Served(w, s)
    ensures All(Started(w, s).log, Unfed)
  {
    hide Handshake, FrameOf, Added;
    var st := Opened(w, s);
    assert All(st.log, Unfed);
    hide Opened;
    HandshakeDoes(w, st, Deadline(s), s.waits);
  }

  /** A session with a shell: its log is the one at the start of the loop, the acts of the loop, and an end; outside the
      loop nothing is applied or written; and in it the inputs applied are those that arrive in their turn, counted from
      the number after that of the accepted response, and their keystrokes are written but for the bytes missing. */
  lemma SessionFeedsInOrder(w: World, s: Script) returns (acts: seq<Act>, after: seq<Act>)
    requires Served(w, s) && s.spawns
    ensures var st := Started(w, s);
      && Play(w, s).log == st.log + (acts + after)
      && All(st.log, Unfed) && All(after, Unfed)
      && st.next == AfterWait(w, s).1.sequence + 1
      && Applied(acts) == InOrder(InputsAmong(Inbounds(s.passes[..PassesHeard(w, st, s.activeAt, s.passes)])), st.next)
      && Resizes(acts) == Sizes(Applied(acts))
      && Keys(Applied(acts)) == Written(acts) + Missing(w, st, s.activeAt, s.passes)
  {
    hide Bridge, Inputs, Applied, Written, Resizes, InOrder, Keys, Sizes, InputsAmong, Inbounds, PassesHeard, Missing;
    hide Play, Started, Served, AfterWait, Unfed, All;
    StartedIsUnfed(w, s);
    StartedNext(w, s);
    var st := Started(w, s);
    InputIsAppliedOnceInOrder(w, st, s.activeAt, s.passes);
    var st1 := Bridge(w, st, s.activeAt, s.passes).0;
    acts := st1.log[|st.log|..];
    assert st1.log == st.log + acts;
    after := EndsUnfed(w, s);
    assert st.log + acts + after == st.log + (acts + after);
  }

  lemma EndsUnfed(w: World, s: Script) returns (after: seq<Act>)
    requires Served(w, s) && s.spawns
    ensures Play(w, s).log == Bridge(w, Started(w, s), s.activeAt, s.passes).0.log + after && All(after, Unfed)
  {
    hide Bridge, Started, Served, TearDown, Play;
    ServedPlay(w, s);
    var (st1, passed) := Bridge(w, Started(w, s), s.activeAt, s.passes);
    after := TearDownShape(w, st1, s.exitCode, s.closing);
    if passed.Down? {
      after := [Aborted];
    }
  }

  lemma StartedNext(w: World, s: Script)
    requires Served(w, s)
    ensures Started(w, s).next == AfterWait(w, s).1.sequence + 1
  {
    hide SendStream, Note, AfterWait;
  }
}
