/** The WebSocket client's receive side: buffering, control frames and message reassembly, and the
    proof that what is received does not depend on how the bytes arrive. */
module WebSocket {
  import opened Bytes
  import opened Frames

  const OP_CONTINUATION := 0
  const OP_TEXT := 1
  const OP_BINARY := 2
  const OP_CLOSE := 8
  const OP_PING := 9
  const OP_PONG := 10

  /** What one read of the stream yields. */
  datatype Read = Data(chunk: bytes) | Timeout | Eof | Broken(error: string)

  datatype Reason = NotOpen | BadFrame(error: FrameError) | CloseReceived | ConnectionClosed | ReadFailed(text: string)

  /** Everything a peer or a caller can observe. */
  datatype Event =
    | Pong(payload: bytes)
    | CloseEcho(payload: bytes)
    | Message(opcode: byte, payload: bytes)
    | Outgoing(opcode: byte, payload: bytes)
    | Stopped(reason: Reason)

  /** The client's fields; `writes` is how many more frames the link will take before it breaks. */
  datatype State = State(buf: bytes, fragOpcode: byte, frag: bytes, open: bool, writes: nat)

  // ---- one frame ----

  datatype Verdict = Continue | Deliver(opcode: byte, payload: bytes) | Stop(reason: Reason)

  /** `send`: a write that fails closes the connection, and a closed connection writes nothing. */
  function Answer(st: State, e: Event): (State, seq<Event>) {
    if !st.open then (st, [])
    else if st.writes == 0 then (st.(open := false), [])
    else (st.(writes := st.writes - 1), [e])
  }

  function Handle(st: State, fin: bool, opcode: byte, payload: bytes): (State, seq<Event>, Verdict) {
    if opcode == OP_PING then
      var (st', sent) := Answer(st, Pong(payload));
      (st', sent, Continue)
    else if opcode == OP_PONG then (st, [], Continue)
    else if opcode == OP_CLOSE then
      var (st', sent) := Answer(st, CloseEcho(payload));
      (st'.(open := false), sent, Stop(CloseReceived))
    else if opcode == OP_CONTINUATION then
      var whole := st.frag + payload;
      if fin then (st.(fragOpcode := 0, frag := []), [], Deliver(st.fragOpcode, whole))
      else (st.(frag := whole), [], Continue)
    else if !fin then (st.(fragOpcode := opcode, frag := payload), [], Continue)
    else (st, [], Deliver(opcode, payload))
  }

  // ---- one call of recv, and repeated calls ----

  function StopReason(read: Read): Reason
    requires read.Eof? || read.Broken?
  {
    if read.Broken? && read.error != "" then ReadFailed(read.error) else ConnectionClosed
  }

  datatype Received = Received(st: State, input: seq<Read>, sent: seq<Event>, verdict: Verdict)

  function Then(sent: seq<Event>, r: Received): Received {
    r.(sent := sent + r.sent)
  }

  lemma ThenTwice(a: seq<Event>, b: seq<Event>, r: Received)
    ensures Then(a, Then(b, r)) == Then(a + b, r)
  {
    assert a + (b + r.sent) == (a + b) + r.sent;
  }

  /** What is left to do: unread buffer and unread input. */
  function Pending(st: State, input: seq<Read>): nat {
    if input == [] then |st.buf|
    else 1 + (if input[0].Data? then |input[0].chunk| else 0) + Pending(st, input[1..])
  }

  lemma {:induction false} PendingAdds(st: State, st': State, input: seq<Read>)
    ensures Pending(st, input) + |st'.buf| == Pending(st', input) + |st.buf|
  {
    if input != [] {
      PendingAdds(st, st', input[1..]);
    }
  }

  /** One call of `recv` on an open client; when the script of input is used up, the read times out. */
  function Receive(st: State, input: seq<Read>): (r: Received)
    decreases |input|, |st.buf|
  {
    hide ParseFrame;
    match ParseFrame(st.buf)
    case Malformed(e) => Received(st.(open := false), input, [], Stop(BadFrame(e)))
    case NeedMore =>
      if input == [] then Received(st, input, [], Continue)
      else (match input[0]
            case Timeout => Received(st, input[1..], [], Continue)
            case Data(chunk) => Receive(st.(buf := st.buf + chunk), input[1..])
            case _ => Received(st.(open := false), input[1..], [], Stop(StopReason(input[0]))))
    case Frame(fin, opcode, payload, rest) =>
      DecisionIsStable(st.buf, []);
      var (st', sent, verdict) := Handle(st.(buf := rest), fin, opcode, payload);
      if verdict.Continue? then
        Then(sent, Receive(st', input))
      else Received(st', input, sent, verdict)
  }

  /** What one call does with a frame or a protocol error at the front of the buffer. */
  lemma ReceiveDecided(st: State, input: seq<Read>)
    ensures var f := ParseFrame(st.buf);
      && (f.Malformed? ==> Receive(st, input) == Received(st.(open := false), input, [], Stop(BadFrame(f.error))))
      && (f.Frame? ==>
            var (st', sent, verdict) := Handle(st.(buf := f.rest), f.fin, f.opcode, f.payload);
            var done := Received(st', input, sent, verdict);
            Receive(st, input) == if verdict.Continue? then Then(sent, Receive(st', input)) else done)
  {
    hide ParseFrame, Handle;
  }

  lemma {:induction false} RecvProgress(st: State, input: seq<Read>)
    ensures var r := Receive(st, input);
      && Pending(r.st, r.input) <= Pending(st, input)
      && (Pending(r.st, r.input) == Pending(st, input) ==> (r.verdict.Continue? && r.input == []) || r.verdict.Stop?)
    decreases |input|, |st.buf|
  {
    hide ParseFrame;
    match ParseFrame(st.buf)
    case Malformed(e) =>
      PendingAdds(st, st.(open := false), input);
    case NeedMore =>
      if input != [] {
        PendingAdds(st, st.(open := false), input[1..]);
        if input[0].Data? {
          var st' := st.(buf := st.buf + input[0].chunk);
          PendingAdds(st, st', input[1..]);
          RecvProgress(st', input[1..]);
        }
      }
    case Frame(fin, opcode, payload, rest) =>
      DecisionIsStable(st.buf, []);
      var (st', sent, verdict) := Handle(st.(buf := rest), fin, opcode, payload);
      PendingAdds(st, st', input);
      if verdict.Continue? {
        RecvProgress(st', input);
      }
  }

  /** A caller polling `recv` until it fails: all events, in order. When the input is used up the stream is quiet: an open
      client has nothing more to report, and a closed one fails at the next poll. */
  function Poll(st: State, input: seq<Read>): (State, seq<Event>)
    decreases Pending(st, input)
  {
    if !st.open then (st, [Stopped(NotOpen)])
    else
      RecvProgress(st, input);
      var r := Receive(st, input);
      match r.verdict
      case Stop(reason) => (r.st, r.sent + [Stopped(reason)])
      case Deliver(opcode, payload) =>
        var (st', events) := Poll(r.st, r.input);
        (st', r.sent + [Message(opcode, payload)] + events)
      case Continue =>
        if !r.st.open then (r.st, r.sent + [Stopped(NotOpen)])
        else if r.input == [] then (r.st, r.sent)
        else
          var (st', events) := Poll(r.st, r.input);
          (st', r.sent + events)
  }

  // ---- the whole stream at once ----

  /** What a byte stream means, parsed in one go, starting from a half-received message. */
  datatype Digest = Digest(buf: bytes, fragOpcode: byte, frag: bytes, open: bool, events: seq<Event>)

  function Prepend(events: seq<Event>, d: Digest): Digest {
    d.(events := events + d.events)
  }

  function Consume(buf: bytes, fragOpcode: byte, frag: bytes): (d: Digest)
    decreases |buf|
  {
    match ParseFrame(buf)
    case NeedMore => Digest(buf, fragOpcode, frag, true, [])
    case Malformed(e) => Digest(buf, fragOpcode, frag, false, [Stopped(BadFrame(e))])
    case Frame(fin, opcode, payload, rest) =>
      DecisionIsStable(buf, []);
      if opcode == 8 then
        Digest(rest, fragOpcode, frag, false, [CloseEcho(payload), Stopped(CloseReceived)])
      else if opcode == 9 then Prepend([Pong(payload)], Consume(rest, fragOpcode, frag))
      else if opcode == 10 then Consume(rest, fragOpcode, frag)
      else if opcode == 0 && fin then
        Prepend([Message(fragOpcode, frag + payload)], Consume(rest, 0, []))
      else if opcode == 0 then Consume(rest, fragOpcode, frag + payload)
      else if fin then Prepend([Message(opcode, payload)], Consume(rest, fragOpcode, frag))
      else Consume(rest, opcode, payload)
  }

  /** The bytes of a read script, up to the end of the stream. */
  function WireBytes(input: seq<Read>): bytes {
    if input == [] then []
    else match input[0] {
      case Data(chunk) => chunk + WireBytes(input[1..])
      case Timeout => WireBytes(input[1..])
      case _ => []
    }
  }

  /** How the stream ends, if the script says so. */
  function Ending(input: seq<Read>): Option<Reason> {
    if input == [] then None
    else match input[0] {
      case Data(_) => Ending(input[1..])
      case Timeout => Ending(input[1..])
      case Eof => Some(ConnectionClosed)
      case Broken(error) => Some(if error == "" then ConnectionClosed else ReadFailed(error))
    }
  }

  function End(d: Digest, ending: Option<Reason>): Digest {
    if d.open && ending.Some? then d.(open := false, events := d.events + [Stopped(ending.value)]) else d
  }

  function Whole(st: State, input: seq<Read>): Digest {
    End(Consume(st.buf + WireBytes(input), st.fragOpcode, st.frag), Ending(input))
  }

  function Answers(events: seq<Event>): nat {
    if events == [] then 0
    else (if events[0].Pong? || events[0].CloseEcho? then 1 else 0) + Answers(events[1..])
  }

  function Pings(events: seq<Event>): nat {
    if events == [] then 0 else (if events[0].Pong? then 1 else 0) + Pings(events[1..])
  }

  /** What is left of the events when the link takes `writes` frames: an echo of a close may go unsent, and a pong that
      does closes the client. */
  function Served(events: seq<Event>, writes: nat): seq<Event> {
    if events == [] then []
    else if events[0].Pong? && writes == 0 then [Stopped(NotOpen)]
    else if events[0].CloseEcho? && writes == 0 then Served(events[1..], 0)
    else if (events[0].Pong? || events[0].CloseEcho?) && writes > 0 then [events[0]] + Served(events[1..], writes - 1)
    else [events[0]] + Served(events[1..], writes)
  }

  ghost predicate OnlyPongs(events: seq<Event>) {
    forall e :: e in events ==> e.Pong?
  }

  /** Nothing but pongs is to come after the first pong that the link does not take. */
  ghost predicate Settled(events: seq<Event>, writes: nat) {
    if events == [] then true
    else if !events[0].Pong? then Settled(events[1..], writes)
    else if writes == 0 then OnlyPongs(events[1..])
    else Settled(events[1..], writes - 1)
  }

  lemma {:induction false} FittingIsSettled(events: seq<Event>, writes: nat)
    requires Pings(events) <= writes
    ensures Settled(events, writes)
  {
    if events != [] {
      FittingIsSettled(events[1..], if events[0].Pong? then writes - 1 else writes);
    }
  }

  lemma {:induction false} ServedWhole(events: seq<Event>, writes: nat)
    requires Answers(events) <= writes
    ensures Served(events, writes) == events && Pings(events) <= Answers(events)
  {
    if events != [] {
      ServedWhole(events[1..], if events[0].Pong? || events[0].CloseEcho? then writes - 1 else writes);
    }
  }

  /** Events that hold no echo are served before what follows them. */
  lemma {:induction false} ServedInOrder(a: seq<Event>, b: seq<Event>, writes: nat)
    requires (forall e :: e in a ==> !e.CloseEcho?) && Pings(a) <= writes
    ensures Served(a + b, writes) == a + Served(b, writes - Pings(a))
  {
    if a == [] {
      assert a + b == b && [] + Served(b, writes) == Served(b, writes);
    } else {
      assert (a + b)[1..] == a[1..] + b;
      assert a[0] in a;
      ServedInOrder(a[1..], b, if a[0].Pong? then writes - 1 else writes);
      assert [a[0]] + (a[1..] + Served(b, writes - Pings(a))) == a + Served(b, writes - Pings(a));
    }
  }

  lemma {:induction false} SettledInOrder(a: seq<Event>, b: seq<Event>, writes: nat)
    requires Pings(a) <= writes
    ensures Settled(a + b, writes) == Settled(b, writes - Pings(a))
  {
    if a == [] {
      assert a + b == b;
    } else {
      assert (a + b)[1..] == a[1..] + b;
      SettledInOrder(a[1..], b, if a[0].Pong? then writes - 1 else writes);
    }
  }

  lemma {:induction false} AnswersAdd(a: seq<Event>, b: seq<Event>)
    ensures Answers(a + b) == Answers(a) + Answers(b)
  {
    if a == [] {
      assert a + b == b;
    } else {
      assert (a + b)[1..] == a[1..] + b;
      AnswersAdd(a[1..], b);
    }
  }

  lemma PrependTwice(a: seq<Event>, b: seq<Event>, d: Digest)
    ensures Prepend(a, Prepend(b, d)) == Prepend(a + b, d) && Prepend([], d) == d
  {
    assert a + (b + d.events) == (a + b) + d.events;
    assert [] + d.events == d.events;
  }

  /** What one frame contributes to the events of a poll. */
  function Head(sent: seq<Event>, verdict: Verdict): seq<Event> {
    if verdict.Deliver? then sent + [Message(verdict.opcode, verdict.payload)] else sent
  }

  /** The events `head` are the first of the one-shot reading, and all of them are served. */
  ghost predicate Leads(st: State, input: seq<Read>, head: seq<Event>, st': State, input': seq<Read>) {
    && st'.open && Whole(st, input) == Prepend(head, Whole(st', input'))
    && (forall e :: e in head ==> e.Pong? || e.Message?)
    && st'.writes == st.writes - Pings(head)
  }

  /** The events `sent` and the stop for `reason` are all that is served of the one-shot reading. */
  ghost predicate Ends(st: State, input: seq<Read>, sent: seq<Event>, reason: Reason) {
    Served(Whole(st, input).events, st.writes) == sent + [Stopped(reason)]
  }

  /** From `st` and `input`, the events `sent` and the verdict are the head of what the link serves of the one-shot
      reading, and its tail is what `st'` and `input'` still hold. */
  ghost predicate IsHead(st: State, input: seq<Read>, sent: seq<Event>, verdict: Verdict,
                         st': State, input': seq<Read>) {
    if verdict.Stop? then Ends(st, input, sent, verdict.reason) && !st'.open && Fails(st, input)
    else if verdict.Continue? && !st'.open then Ends(st, input, sent, NotOpen) && Fails(st, input)
    else Leads(st, input, Head(sent, verdict), st', input')
  }

  /** The client ends up closed: by the stream, or by a pong too many. */
  predicate Fails(st: State, input: seq<Read>) {
    !Whole(st, input).open || Pings(Whole(st, input).events) > st.writes
  }

  lemma LeadsThenEnds(st: State, input: seq<Read>, head: seq<Event>, st': State, input': seq<Read>,
                      sent: seq<Event>, reason: Reason)
    requires Leads(st, input, head, st', input')
    ensures Fails(st, input) == Fails(st', input')
    ensures Served(Whole(st, input).events, st.writes) == head + Served(Whole(st', input').events, st'.writes)
    ensures Settled(Whole(st, input).events, st.writes) == Settled(Whole(st', input').events, st'.writes)
    ensures Ends(st', input', sent, reason) ==> Ends(st, input, head + sent, reason)
  {
    hide Whole, Served, Pings, Settled;
    ServedInOrder(head, Whole(st', input').events, st.writes);
    SettledInOrder(head, Whole(st', input').events, st.writes);
    PingsAdd(head, Whole(st', input').events);
    assert head + (sent + [Stopped(reason)]) == (head + sent) + [Stopped(reason)];
  }

  lemma LeadsTwice(st: State, input: seq<Read>, head: seq<Event>, st': State, input': seq<Read>,
                   head': seq<Event>, st'': State, input'': seq<Read>)
    requires Leads(st, input, head, st', input') && Leads(st', input', head', st'', input'')
    ensures Leads(st, input, head + head', st'', input'')
  {
    hide Whole, Pings;
    PingsAdd(head, head');
    PrependTwice(head, head', Whole(st'', input''));
  }

  lemma HeadsCompose(st: State, input: seq<Read>, sent: seq<Event>, st': State,
                     sent': seq<Event>, verdict: Verdict, st'': State, input'': seq<Read>)
    requires Leads(st, input, sent, st', input) && IsHead(st', input, sent', verdict, st'', input'')
    ensures IsHead(st, input, sent + sent', verdict, st'', input'')
  {
    hide Leads, Ends, Fails;
    LeadsThenEnds(st, input, sent, st', input, sent', if verdict.Stop? then verdict.reason else NotOpen);
    if verdict.Deliver? || st''.open {
      if !verdict.Stop? {
        LeadsTwice(st, input, sent, st', input, Head(sent', verdict), st'', input'');
        assert Head(sent + sent', verdict) == sent + Head(sent', verdict);
      }
    }
  }

  lemma {:induction false} PingsAdd(a: seq<Event>, b: seq<Event>)
    ensures Pings(a + b) == Pings(a) + Pings(b)
  {
    if a == [] {
      assert a + b == b;
    } else {
      assert (a + b)[1..] == a[1..] + b;
      PingsAdd(a[1..], b);
    }
  }

  /** The one-shot reading of a buffer that starts with a whole frame. */
  lemma ConsumeFrame(buf: bytes, more: bytes, fragOpcode: byte, frag: bytes)
    requires ParseFrame(buf).Frame?
    ensures var f := ParseFrame(buf);
      Consume(buf + more, fragOpcode, frag)
      == if f.opcode == OP_CLOSE then
           Digest(f.rest + more, fragOpcode, frag, false, [CloseEcho(f.payload), Stopped(CloseReceived)])
         else if f.opcode == OP_PING then Prepend([Pong(f.payload)], Consume(f.rest + more, fragOpcode, frag))
         else if f.opcode == OP_PONG then Consume(f.rest + more, fragOpcode, frag)
         else if f.opcode == OP_CONTINUATION && f.fin then
           Prepend([Message(fragOpcode, frag + f.payload)], Consume(f.rest + more, 0, []))
         else if f.opcode == OP_CONTINUATION then Consume(f.rest + more, fragOpcode, frag + f.payload)
         else if f.fin then Prepend([Message(f.opcode, f.payload)], Consume(f.rest + more, fragOpcode, frag))
         else Consume(f.rest + more, f.opcode, f.payload)
  {
    hide ParseFrame;
    DecisionIsStable(buf, more);
  }

  lemma EndAfter(events: seq<Event>, d: Digest, ending: Option<Reason>)
    ensures End(Prepend(events, d), ending) == Prepend(events, End(d, ending))
  {
    if ending.Some? {
      assert events + (d.events + [Stopped(ending.value)]) == (events + d.events) + [Stopped(ending.value)];
    }
  }

  /** Handling one frame is the head of the one-shot reading; a ping that cannot be answered is where it ends. */
  lemma HandleIsHead(st: State, input: seq<Read>)
    requires st.open && ParseFrame(st.buf).Frame?
    ensures var f := ParseFrame(st.buf);
      var (st', sent, verdict) := Handle(st.(buf := f.rest), f.fin, f.opcode, f.payload);
      && IsHead(st, input, sent, verdict, st', input)
      && (!verdict.Stop? && !st'.open ==>
            verdict.Continue? && sent == [] && st.writes == 0
            && Whole(st, input) == Prepend([Pong(f.payload)], Whole(st', input)))
  {
    hide Served, Pings;
    var f := ParseFrame(st.buf);
    var more := WireBytes(input);
    var (st', sent, verdict) := Handle(st.(buf := f.rest), f.fin, f.opcode, f.payload);
    NoPings();
    ConsumeFrame(st.buf, more, st.fragOpcode, st.frag);
    hide ParseFrame, Consume;
    if f.opcode == OP_CLOSE {
      EchoServed(f.payload, st.writes);
    } else if f.opcode == OP_PING {
      EndAfter([Pong(f.payload)], Consume(f.rest + more, st.fragOpcode, st.frag), Ending(input));
      OnePing(f.payload, Consume(f.rest + more, st.fragOpcode, st.frag), Ending(input));
    } else if verdict.Deliver? {
      var message := [Message(verdict.opcode, verdict.payload)];
      OneMessage(message[0], []);
      EndAfter(message, Consume(f.rest + more, st'.fragOpcode, st'.frag), Ending(input));
      assert sent + message == message;
    } else {
      PrependTwice([], [], Whole(st', input));
    }
  }

  lemma OneMessage(m: Event, events: seq<Event>)
    requires m.Message?
    ensures Pings([m] + events) == Pings(events) && Pings([m]) == 0
  {
    assert ([m] + events)[1..] == events && [m][1..] == [];
  }

  lemma NoPings()
    ensures Pings([]) == 0
  {}

  lemma StopServed(reason: Reason, writes: nat)
    ensures Served([Stopped(reason)], writes) == [] + [Stopped(reason)]
  {
    assert [Stopped(reason)][1..] == [];
  }

  lemma EchoServed(payload: bytes, writes: nat)
    ensures Served([CloseEcho(payload), Stopped(CloseReceived)], writes)
         == (if writes == 0 then [] else [CloseEcho(payload)]) + [Stopped(CloseReceived)]
  {
    var es := [CloseEcho(payload), Stopped(CloseReceived)];
    assert es[1..] == [Stopped(CloseReceived)] && es[1..][1..] == [];
    assert Served(es[1..], if writes == 0 then 0 else writes - 1) == [Stopped(CloseReceived)];
  }

  lemma OnePing(payload: bytes, d: Digest, ending: Option<Reason>)
    ensures var events := End(Prepend([Pong(payload)], d), ending).events;
      && Pings(events) == 1 + Pings(End(d, ending).events)
      && Served(events, 0) == [] + [Stopped(NotOpen)]
    ensures Pings([Pong(payload)]) == 1
  {
    EndAfter([Pong(payload)], d, ending);
    assert ([Pong(payload)] + End(d, ending).events)[1..] == End(d, ending).events;
    assert Pings([Pong(payload)][1..]) == 0;
  }

  /** The end of a stream shows, and so does whatever is not a pong in front of it. */
  lemma StopShows(d: Digest, ending: Option<Reason>)
    ensures d.open && ending.Some? ==> !OnlyPongs(End(d, ending).events)
    ensures !d.open && d.events != [] && !d.events[|d.events| - 1].Pong? ==> !OnlyPongs(End(d, ending).events)
  {
    if d.open && ending.Some? {
      assert Stopped(ending.value) in End(d, ending).events;
    }
  }

  lemma FirstShows(e: Event, d: Digest, ending: Option<Reason>)
    ensures OnlyPongs(End(Prepend([e], d), ending).events) == (e.Pong? && OnlyPongs(End(d, ending).events))
  {
    EndAfter([e], d, ending);
    var rest := End(d, ending).events;
    assert forall x :: x == e || x in rest ==> x in [e] + rest;
  }

  /** A closed client with only pings to come says nothing. */
  lemma {:induction false} ClosedIsSilent(st: State, input: seq<Read>)
    requires !st.open && OnlyPongs(Whole(st, input).events)
    ensures var r := Receive(st, input); r.sent == [] && r.verdict.Continue? && !r.st.open
    decreases |input|, |st.buf|
  {
    hide ParseFrame, OnlyPongs, Handle;
    StopShows(Consume(st.buf + WireBytes(input), st.fragOpcode, st.frag), Ending(input));
    match ParseFrame(st.buf)
    case Malformed(e) =>
      DecisionIsStable(st.buf, WireBytes(input));
    case NeedMore =>
      if input != [] && input[0].Data? {
        var st' := st.(buf := st.buf + input[0].chunk);
        assert st'.buf + WireBytes(input[1..]) == st.buf + WireBytes(input);
        ClosedIsSilent(st', input[1..]);
      } else {
        assert input == [] || !input[0].Timeout? ==> st.buf + WireBytes(input) == st.buf;
      }
    case Frame(fin, opcode, payload, rest) =>
      DecisionIsStable(st.buf, []);
      ClosedHandles(st, input);
      hide Consume;
      ClosedIsSilent(Handle(st.(buf := rest), fin, opcode, payload).0, input);
  }

  lemma ClosedHandles(st: State, input: seq<Read>)
    requires !st.open && ParseFrame(st.buf).Frame?
    ensures var f := ParseFrame(st.buf);
      var (st', sent, verdict) := Handle(st.(buf := f.rest), f.fin, f.opcode, f.payload);
      && sent == [] && !st'.open && st'.buf == f.rest && (verdict.Stop? ==> verdict.reason == CloseReceived)
      && OnlyPongs(Whole(st, input).events) == (verdict.Continue? && OnlyPongs(Whole(st', input).events))
  {
    var f := ParseFrame(st.buf);
    var more := WireBytes(input);
    var (st', sent, verdict) := Handle(st.(buf := f.rest), f.fin, f.opcode, f.payload);
    ConsumeFrame(st.buf, more, st.fragOpcode, st.frag);
    hide ParseFrame, Consume, OnlyPongs;
    var later := Consume(f.rest + more, st'.fragOpcode, st'.frag);
    if f.opcode == OP_CLOSE {
      StopShows(Consume(st.buf + more, st.fragOpcode, st.frag), Ending(input));
    } else if f.opcode == OP_PING {
      FirstShows(Pong(f.payload), later, Ending(input));
    } else if verdict.Deliver? {
      FirstShows(Message(verdict.opcode, verdict.payload), later, Ending(input));
    }
  }

  /** One call of `recv`: what it reports is the head of what the link serves, and the rest is still to come. */
  lemma {:induction false} RecvIsHead(st: State, input: seq<Read>)
    requires st.open && Settled(Whole(st, input).events, st.writes)
    ensures var r := Receive(st, input);
      IsHead(st, input, r.sent, r.verdict, r.st, r.input)
      && (r.verdict.Continue? && r.st.open ==> ParseFrame(r.st.buf).NeedMore?)
    decreases |input|, |st.buf|
  {
    hide ParseFrame, Served, Pings, Settled;
    match ParseFrame(st.buf)
    case Malformed(e) =>
      DecisionIsStable(st.buf, WireBytes(input));
      StopServed(BadFrame(e), st.writes);
    case NeedMore =>
      if input != [] && input[0].Data? {
        var st' := st.(buf := st.buf + input[0].chunk);
        assert st'.buf + WireBytes(input[1..]) == st.buf + WireBytes(input);
        RecvIsHead(st', input[1..]);
      } else {
        assert input == [] || !input[0].Timeout? ==> st.buf + WireBytes(input) == st.buf;
        if Ending(input).Some? {
          StopServed(Ending(input).value, st.writes);
          assert [] + [Stopped(Ending(input).value)] == [Stopped(Ending(input).value)];
        }
        NoPings();
        PrependTwice([], [], Whole(st, input));
      }
    case Frame(fin, opcode, payload, rest) =>
      DecisionIsStable(st.buf, []);
      HandleIsHead(st, input);
      hide Handle, Leads, Ends, Fails, Whole, Consume;
      var (st', sent, verdict) := Handle(st.(buf := rest), fin, opcode, payload);
      if verdict.Continue? {
        var r := Receive(st', input);
        assert Receive(st, input) == Then(sent, r);
        if st'.open {
          LeadsThenEnds(st, input, sent, st', input, [], NotOpen);
          RecvIsHead(st', input);
          HeadsCompose(st, input, sent, st', r.sent, r.verdict, r.st, r.input);
        } else {
          LastPong(payload, Whole(st', input).events);
          ClosedIsSilent(st', input);
        }
      }
  }

  /** Behind a pong that fails nothing but pongs is to come. */
  lemma LastPong(payload: bytes, events: seq<Event>)
    ensures Settled([Pong(payload)] + events, 0) == OnlyPongs(events)
  {
    assert ([Pong(payload)] + events)[1..] == events;
  }

  /** Sends never exceed what the link takes. */
  lemma {:induction false} RecvSendsWithin(st: State, input: seq<Read>)
    ensures var r := Receive(st, input); r.st.writes + Answers(r.sent) == st.writes
    decreases |input|, |st.buf|
  {
    hide ParseFrame;
    match ParseFrame(st.buf)
    case Malformed(e) =>
    case NeedMore =>
      if input != [] && input[0].Data? {
        RecvSendsWithin(st.(buf := st.buf + input[0].chunk), input[1..]);
      }
    case Frame(fin, opcode, payload, rest) =>
      DecisionIsStable(st.buf, []);
      var (st', sent, verdict) := Handle(st.(buf := rest), fin, opcode, payload);
      if verdict.Continue? {
        RecvSendsWithin(st', input);
        AnswersAdd(sent, Receive(st', input).sent);
      }
  }

  lemma {:induction false} PollSendsWithin(st: State, input: seq<Read>)
    ensures Answers(Poll(st, input).1) <= st.writes
    decreases Pending(st, input)
  {
    hide Receive, Answers;
    NoAnswer([], NotOpen);
    assert [] + [Stopped(NotOpen)] == [Stopped(NotOpen)];
    if st.open {
      RecvProgress(st, input);
      RecvSendsWithin(st, input);
      var r := Receive(st, input);
      NoAnswer(r.sent, if r.verdict.Stop? then r.verdict.reason else NotOpen);
      if r.verdict.Deliver? || (r.verdict.Continue? && r.st.open && r.input != []) {
        PollSendsWithin(r.st, r.input);
        HeadAnswers(r.sent, r.verdict, Poll(r.st, r.input).1);
      }
    }
  }

  lemma NoAnswer(sent: seq<Event>, reason: Reason)
    ensures Answers(sent + [Stopped(reason)]) == Answers(sent) && Answers([]) == 0
  {
    AnswersAdd(sent, [Stopped(reason)]);
    assert [Stopped(reason)][1..] == [];
  }

  lemma HeadAnswers(sent: seq<Event>, verdict: Verdict, events: seq<Event>)
    ensures Answers(Head(sent, verdict) + events) == Answers(sent) + Answers(events)
  {
    AnswersAdd(Head(sent, verdict), events);
    if verdict.Deliver? {
      var message := [Message(verdict.opcode, verdict.payload)];
      AnswersAdd(sent, message);
      assert message[1..] == [];
    }
  }

  /** Polling yields what the link serves of the one-shot reading, if nothing but pongs follows one that fails. */
  lemma {:induction false} PollIsServed(st: State, input: seq<Read>)
    requires st.open && Settled(Whole(st, input).events, st.writes)
    ensures var (st', events) := Poll(st, input);
      && events == Served(Whole(st, input).events, st.writes) && st'.open == !Fails(st, input)
      && (st'.open ==> Digest(st'.buf, st'.fragOpcode, st'.frag, true, Whole(st, input).events) == Whole(st, input))
    decreases Pending(st, input)
  {
    hide Served, Pings, Whole, Receive, Settled, Ends, Fails;
    RecvProgress(st, input);
    RecvIsHead(st, input);
    var r := Receive(st, input);
    if !r.verdict.Stop? && (r.verdict.Deliver? || r.st.open) {
      LeadsThenEnds(st, input, Head(r.sent, r.verdict), r.st, r.input, [], NotOpen);
      if r.verdict.Continue? && r.input == [] {
        NothingLeft(r.st);
        assert r.sent + [] == r.sent;
      } else {
        PollIsServed(r.st, r.input);
      }
    } else {
      assert Ends(st, input, r.sent, if r.verdict.Stop? then r.verdict.reason else NotOpen);
      EndsSay(st, input, r.sent, if r.verdict.Stop? then r.verdict.reason else NotOpen);
    }
  }

  lemma EndsSay(st: State, input: seq<Read>, sent: seq<Event>, reason: Reason)
    requires Ends(st, input, sent, reason)
    ensures Served(Whole(st, input).events, st.writes) == sent + [Stopped(reason)]
  {}

  lemma NothingLeft(st: State)
    requires ParseFrame(st.buf).NeedMore?
    ensures Whole(st, []) == Digest(st.buf, st.fragOpcode, st.frag, true, []) && Served([], st.writes) == []
    ensures !Fails(st, [])
  {
    hide ParseFrame;
    assert st.buf + WireBytes([]) == st.buf;
    NoPings();
  }

  /** Polling agrees with the one-shot reading as long as every answer can be sent. */
  lemma PollIsWhole(st: State, input: seq<Read>)
    requires st.open && Answers(Whole(st, input).events) <= st.writes
    ensures var (st', events) := Poll(st, input);
      && events == Whole(st, input).events && st'.open == Whole(st, input).open
      && (st'.open ==> Digest(st'.buf, st'.fragOpcode, st'.frag, true, events) == Whole(st, input))
  {
    hide Poll, Whole, Answers, Served, Settled;
    ServedWhole(Whole(st, input).events, st.writes);
    FittingIsSettled(Whole(st, input).events, st.writes);
    PollIsServed(st, input);
  }

  /** However the bytes of a server stream (malformed ones included) are cut into reads with timeouts between, polling
      `recv` yields exactly the messages, pongs, echo and close or error point of parsing the stream once, if and only
      if the link takes every answer the stream asks for. */
  lemma SplitIndependence(st: State, input: seq<Read>)
    requires st.open
    ensures Poll(st, input).1 == Whole(st, input).events <==> Answers(Whole(st, input).events) <= st.writes
  {
    PollSendsWithin(st, input);
    if Answers(Whole(st, input).events) <= st.writes {
      PollIsWhole(st, input);
    }
  }

  /** Two ways of cutting one stream cannot be told apart if nothing but pongs follows one that fails. */
  lemma SplitsAgree(st: State, one: seq<Read>, other: seq<Read>)
    requires st.open && WireBytes(one) == WireBytes(other) && Ending(one) == Ending(other)
    requires Settled(Whole(st, one).events, st.writes)
    ensures Poll(st, one).1 == Poll(st, other).1
  {
    hide Poll;
    PollIsServed(st, one);
    PollIsServed(st, other);
  }

  function Fresh(writes: nat): State {
    State([], 0, [], true, writes)
  }

  lemma EmptyNeedsMore()
    ensures ParseFrame([]) == NeedMore
  {}

  // ---- reassembly (RFC 6455 sections 5.4 and 5.5) ----

  datatype Layout = Layout(form: LengthForm, mask: Option<bytes>)

  /** A ping or a pong. */
  datatype Control = Control(isPing: bool, layout: Layout, payload: bytes)

  /** One fragment of a message, and the control frames sent just before it. */
  datatype Part = Part(before: seq<Control>, layout: Layout, body: bytes)

  datatype Sent = Sent(opcode: byte, parts: seq<Part>)

  ghost function ControlFrame(c: Control): Wire {
    Wire(true, if c.isPing then OP_PING else OP_PONG, c.layout.form, c.layout.mask, c.payload)
  }

  /** The frame of a fragment: the opcode on the first only, FIN on the last only. */
  ghost function PartFrame(opcode: byte, parts: seq<Part>, first: bool): Wire
    requires parts != []
  {
    Wire(|parts| == 1, if first then opcode else OP_CONTINUATION, parts[0].layout.form, parts[0].layout.mask, parts[0].body)
  }

  ghost predicate Sendable(w: Wire) {
    Fits(w) && |w.payload| <= MAX_FRAME_SIZE
  }

  ghost predicate GoodParts(opcode: byte, parts: seq<Part>, first: bool) {
    parts != [] ==>
      && (forall c <- parts[0].before :: Sendable(ControlFrame(c)))
      && Sendable(PartFrame(opcode, parts, first))
      && GoodParts(opcode, parts[1..], false)
  }

  /** A text or binary message in at least one fragment. */
  ghost predicate GoodMessage(m: Sent) {
    (m.opcode == OP_TEXT || m.opcode == OP_BINARY) && m.parts != [] && GoodParts(m.opcode, m.parts, true)
  }

  ghost function EncodeControls(cs: seq<Control>): bytes
    requires forall c <- cs :: Sendable(ControlFrame(c))
  {
    if cs == [] then []
    else
      assert cs[0] in cs && Sendable(ControlFrame(cs[0]));
      Encode(ControlFrame(cs[0])) + EncodeControls(cs[1..])
  }

  ghost function EncodeParts(opcode: byte, parts: seq<Part>, first: bool): bytes
    requires GoodParts(opcode, parts, first)
  {
    if parts == [] then []
    else EncodeControls(parts[0].before) + (Encode(PartFrame(opcode, parts, first)) + EncodeParts(opcode, parts[1..], false))
  }

  ghost function EncodeAll(ms: seq<Sent>): bytes
    requires forall m <- ms :: GoodMessage(m)
  {
    if ms == [] then []
    else
      assert ms[0] in ms && GoodMessage(ms[0]);
      EncodeParts(ms[0].opcode, ms[0].parts, true) + EncodeAll(ms[1..])
  }

  /** The pings of a list of control frames, each answered with its own payload. */
  ghost function Pongs(cs: seq<Control>): seq<Event> {
    if cs == [] then [] else (if cs[0].isPing then [Pong(cs[0].payload)] else []) + Pongs(cs[1..])
  }

  ghost function AllPongs(parts: seq<Part>): seq<Event> {
    if parts == [] then [] else Pongs(parts[0].before) + AllPongs(parts[1..])
  }

  ghost function Text(parts: seq<Part>): bytes {
    if parts == [] then [] else parts[0].body + Text(parts[1..])
  }

  ghost function Expected(ms: seq<Sent>): seq<Event> {
    if ms == [] then []
    else AllPongs(ms[0].parts) + [Message(ms[0].opcode, Text(ms[0].parts))] + Expected(ms[1..])
  }

  lemma {:induction false} ControlsConsumed(cs: seq<Control>, rest: bytes, fragOpcode: byte, frag: bytes)
    requires forall c <- cs :: Sendable(ControlFrame(c))
    ensures Consume(EncodeControls(cs) + rest, fragOpcode, frag) == Prepend(Pongs(cs), Consume(rest, fragOpcode, frag))
  {
    hide ParseFrame;
    var after := Consume(rest, fragOpcode, frag);
    if cs == [] {
      assert [] + rest == rest;
      PrependTwice([], [], after);
    } else {
      var w := ControlFrame(cs[0]);
      var more := EncodeControls(cs[1..]) + rest;
      assert EncodeControls(cs) + rest == Encode(w) + more;
      ParsesEveryFrame(w, more);
      ControlsConsumed(cs[1..], rest, fragOpcode, frag);
      PrependTwice(if cs[0].isPing then [Pong(cs[0].payload)] else [], Pongs(cs[1..]), after);
    }
  }

  /** One fragment consumed: it starts, continues or finishes the message. */
  lemma PartConsumed(opcode: byte, parts: seq<Part>, first: bool, more: bytes, frag: bytes)
    requires (opcode == OP_TEXT || opcode == OP_BINARY) && parts != [] && Sendable(PartFrame(opcode, parts, first))
    requires first ==> frag == []
    ensures Consume(Encode(PartFrame(opcode, parts, first)) + more, if first then 0 else opcode, frag)
         == if |parts| == 1 then Prepend([Message(opcode, frag + parts[0].body)], Consume(more, 0, []))
            else Consume(more, opcode, frag + parts[0].body)
  {
    hide ParseFrame, Encode, Fits;
    ParsesEveryFrame(PartFrame(opcode, parts, first), more);
    assert first ==> frag + parts[0].body == parts[0].body;
  }

  /** The fragments still to come complete the message started with `opcode` and `frag`. */
  lemma {:induction false} PartsConsumed(opcode: byte, parts: seq<Part>, first: bool, rest: bytes, frag: bytes)
    requires (opcode == OP_TEXT || opcode == OP_BINARY) && parts != [] && GoodParts(opcode, parts, first)
    requires first ==> frag == []
    ensures Consume(EncodeParts(opcode, parts, first) + rest, if first then 0 else opcode, frag)
         == Prepend(AllPongs(parts) + [Message(opcode, frag + Text(parts))], Consume(rest, 0, []))
  {
    hide ParseFrame, Encode, Fits, EncodeControls, Pongs, Consume;
    var w := PartFrame(opcode, parts, first);
    var more := EncodeParts(opcode, parts[1..], false) + rest;
    assert EncodeParts(opcode, parts, first) + rest == EncodeControls(parts[0].before) + (Encode(w) + more);
    ControlsConsumed(parts[0].before, Encode(w) + more, if first then 0 else opcode, frag);
    PartConsumed(opcode, parts, first, more, frag);
    var pongs := Pongs(parts[0].before);
    var whole := frag + parts[0].body;
    if |parts| == 1 {
      assert parts[1..] == [] && more == rest;
      assert frag + Text(parts) == whole && AllPongs(parts) == pongs;
      PrependTwice(pongs, [Message(opcode, whole)], Consume(rest, 0, []));
    } else {
      PartsConsumed(opcode, parts[1..], false, rest, whole);
      assert whole + Text(parts[1..]) == frag + Text(parts);
      var tail := AllPongs(parts[1..]) + [Message(opcode, frag + Text(parts))];
      PrependTwice(pongs, tail, Consume(rest, 0, []));
      assert pongs + tail == AllPongs(parts) + [Message(opcode, frag + Text(parts))];
    }
  }

  lemma {:induction false} MessagesConsumed(ms: seq<Sent>)
    requires forall m <- ms :: GoodMessage(m)
    ensures Consume(EncodeAll(ms), 0, []) == Digest([], 0, [], true, Expected(ms))
  {
    hide ParseFrame;
    if ms == [] {
      EmptyNeedsMore();
    } else {
      assert ms[0] in ms && GoodMessage(ms[0]);
      PartsConsumed(ms[0].opcode, ms[0].parts, true, EncodeAll(ms[1..]), []);
      MessagesConsumed(ms[1..]);
      assert [] + Text(ms[0].parts) == Text(ms[0].parts);
    }
  }

  /** Reassembly: any messages, each cut into fragments anywhere, with pings and pongs in between and the bytes
      arriving in any pieces, come out whole, in order, with the first fragment's opcode; every ping is answered
      with its own payload; and nothing is left over. */
  lemma Reassembly(ms: seq<Sent>, input: seq<Read>, writes: nat)
    requires forall m <- ms :: GoodMessage(m)
    requires WireBytes(input) == EncodeAll(ms) && Ending(input) == None && Answers(Expected(ms)) <= writes
    ensures var (st, events) := Poll(Fresh(writes), input);
      events == Expected(ms) && st.open && st.buf == [] && st.frag == []
  {
    MessagesConsumed(ms);
    assert [] + WireBytes(input) == EncodeAll(ms);
    PollIsWhole(Fresh(writes), input);
  }

  // ---- the code ----

  type Mask = m: bytes | |m| == 4 witness [0, 0, 0, 0]

  function EventOf(opcode: byte, payload: bytes): Event {
    if opcode == OP_PONG then Pong(payload) else if opcode == OP_CLOSE then CloseEcho(payload) else Outgoing(opcode, payload)
  }

  /** The bytes of one frame sent: final, masked, in the shortest length form. */
  ghost function FrameOf(opcode: byte, payload: bytes, mask: Mask): bytes
    requires |payload| < TWO64
  {
    Encode(Wire(true, opcode % 16, MinimalForm(|payload|), Some(mask), payload))
  }

  /** The client and its end of the stream: reads come from the script `input`, the n-th frame is masked with
      `masks(n)`, and what is written is kept as bytes in `frames` and as events in `sent`. */
  class Client {
    const masks: nat -> Mask
    var readBuf: bytes
    var fragOpcode: byte
    var fragPayload: bytes
    var open: bool
    var input: seq<Read>
    var writes: nat
    var sent: seq<Event>
    var frames: seq<bytes>

    function View(): State
      reads this
    {
      State(readBuf, fragOpcode, fragPayload, open, writes)
    }

    /** Every frame written is the answer at its place, under the mask drawn for it. */
    ghost predicate Written()
      reads this
    {
      && |frames| == |sent|
      && forall i :: 0 <= i < |sent| ==>
          && (sent[i].Pong? ==> |sent[i].payload| < TWO64 && frames[i] == FrameOf(10, sent[i].payload, masks(i)))
          && (sent[i].CloseEcho? ==> |sent[i].payload| < TWO64 && frames[i] == FrameOf(8, sent[i].payload, masks(i)))
          && (sent[i].Outgoing? ==> |sent[i].payload| < TWO64 && frames[i] == FrameOf(sent[i].opcode, sent[i].payload, masks(i)))
    }

    constructor (input: seq<Read>, writes: nat, masks: nat -> Mask)
      ensures View() == Fresh(writes) && this.input == input && sent == [] && this.masks == masks && Written()
    {
      readBuf, fragOpcode, fragPayload, open := [], 0, [], true;
      this.input, this.writes, sent, frames, this.masks := input, writes, [], [], masks;
    }

    /** `send`: the frame goes out masked, or the client closes; a closed client writes nothing. */
    method Send(opcode: byte, payload: bytes) returns (ok: bool)
      requires |payload| < TWO64 && Written()
      modifies this`open, this`writes, this`sent, this`frames
      ensures Written() && View() == Answer(old(View()), EventOf(opcode, payload)).0
      ensures sent == old(sent) + Answer(old(View()), EventOf(opcode, payload)).1
      ensures ok <==> old(open && writes > 0)
      ensures frames == old(frames) + if ok then [FrameOf(opcode, payload, masks(|old(frames)|))] else []
    {
      hide Encode;
      ok := false;
      if !open {
        return;
      }
      var frame := MakeFrame(opcode, payload, masks(|frames|));
      if writes == 0 {
        open := false;
        return;
      }
      writes := writes - 1;
      sent := sent + [EventOf(opcode, payload)];
      frames := frames + [frame];
      ok := true;
    }

    /** The switch over a frame's opcode. */
    method Dispatch(fin: bool, op: byte, body: bytes) returns (verdict: Verdict)
      requires |body| < TWO64 && Written()
      modifies this
      ensures Written() && input == old(input) && readBuf == old(readBuf)
      ensures var (st, answers, v) := Handle(old(View()), fin, op, body);
              View() == st && sent == old(sent) + answers && verdict == v
    {
      hide FrameOf;
      verdict := Continue;
      if op == OP_PING {
        var ok := Send(OP_PONG, body);
      } else if op == OP_PONG {
      } else if op == OP_CLOSE {
        var ok := Send(OP_CLOSE, body);
        open := false;
        verdict := Stop(CloseReceived);
      } else if op == OP_CONTINUATION {
        fragPayload := fragPayload + body;
        if fin {
          verdict := Deliver(fragOpcode, fragPayload);
          fragPayload := [];
          fragOpcode := 0;
        }
      } else if !fin {
        fragOpcode := op;
        fragPayload := body;
      } else {
        verdict := Deliver(op, body);
      }
    }

    /** One read of the stream when the buffer holds no whole frame: more bytes, a timeout, or the end. */
    method Fill() returns (more: bool, reason: Option<Reason>)
      requires ParseFrame(readBuf).NeedMore?
      modifies this`input, this`readBuf, this`open
      ensures sent == old(sent)
      ensures more ==> |input| < |old(input)| && Receive(View(), input) == Receive(old(View()), old(input))
      ensures var verdict := if reason == None then Continue else Stop(reason.value);
              !more ==> Receive(old(View()), old(input)) == Received(View(), input, [], verdict)
    {
      hide ParseFrame, Handle;
      if input == [] {
        return false, None;
      }
      var read := input[0];
      input := input[1..];
      match read {
        case Timeout => return false, None;
        case Data(chunk) =>
          readBuf := readBuf + chunk;
          return true, None;
        case _ =>
          open := false;
          return false, Some(StopReason(read));
      }
    }

    /** One pass of the loop: handle the frame at the front of the buffer, or read more. */
    method Turn() returns (again: bool, verdict: Verdict, ghost answers: seq<Event>)
      requires Written()
      modifies this
      ensures Written() && sent == old(sent) + answers
      ensures Receive(old(View()), old(input))
              == if again then Then(answers, Receive(View(), input)) else Received(View(), input, answers, verdict)
      ensures again ==> |input| < |old(input)| || (input == old(input) && |readBuf| < |old(readBuf)|)
    {
      ReceiveDecided(View(), input);
      DecisionIsStable(readBuf, []);
      PayloadsFit(readBuf);
      hide ParseFrame, Handle, Receive, FrameOf;
      answers := [];
      var code, rest, fin, op, body, error := ParseFrameInPlace(readBuf);
      if code == 0 {
        var more, reason := Fill();
        assert more ==> Then([], Receive(View(), input)) == Receive(View(), input);
        return more, if reason == None then Continue else Stop(reason.value), [];
      }
      readBuf := rest;
      if code < 0 {
        open := false;
        return false, Stop(BadFrame(error.value)), [];
      }
      verdict := Dispatch(fin, op, body);
      answers := sent[|old(sent)|..];
      again := verdict.Continue?;
    }

    /** Return code 1 with a message, 0 on a read timeout, -1 once closed or failed. */
    method Recv() returns (rc: int, opcode: byte, payload: bytes, err: Option<Reason>)
      requires Written()
      modifies this
      ensures Written()
      ensures !old(open) ==> rc == -1 && err == Some(NotOpen) && unchanged(this)
      ensures var r := Receive(old(View()), old(input));
              old(open) ==> View() == r.st && input == r.input && sent == old(sent) + r.sent
                            && Reports(r.verdict, rc, opcode, payload, err)
    {
      hide Receive, FrameOf;
      if !open {
        return -1, 0, [], Some(NotOpen);
      }
      ghost var answers: seq<Event> := [];
      var again, verdict := true, Continue;
      while again
        invariant Written() && sent == old(sent) + answers
        invariant Receive(old(View()), old(input))
               == if again then Then(answers, Receive(View(), input)) else Received(View(), input, answers, verdict)
        decreases again, |input|, |readBuf|
      {
        ghost var more;
        again, verdict, more := Turn();
        ThenTwice(answers, more, Receive(View(), input));
        answers := answers + more;
      }
      match verdict {
        case Continue => rc, opcode, payload, err := 0, 0, [], None;
        case Stop(reason) => rc, opcode, payload, err := -1, 0, [], Some(reason);
        case Deliver(o, p) => rc, opcode, payload, err := 1, o, p, None;
      }
    }
  }

  lemma PayloadsFit(buf: bytes)
    ensures ParseFrame(buf).Frame? ==> |ParseFrame(buf).payload| < TWO64
  {
    if ParseFrame(buf).Frame? {
      var w := ParsesOnlyFrames(buf);
    }
  }

  predicate Reports(verdict: Verdict, rc: int, opcode: byte, payload: bytes, err: Option<Reason>) {
    match verdict
    case Continue => rc == 0 && err == None
    case Deliver(o, p) => rc == 1 && opcode == o && payload == p && err == None
    case Stop(reason) => rc == -1 && err == Some(reason)
  }
}
