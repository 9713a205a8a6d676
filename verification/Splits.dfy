/** When the cutting of a stream into reads can be seen: exactly when a pong fails and something other than pongs is to
    come. */
module Splits {
  import opened Bytes
  import opened Frames
  import opened WebSocket

  // ---- a poll, frame by frame ----

  lemma PollStep(st: State, input: seq<Read>)
    requires st.open
    ensures var r := Receive(st, input);
      Poll(st, input).1
      == if r.verdict.Stop? then r.sent + [Stopped(r.verdict.reason)]
         else if r.verdict.Continue? && !r.st.open then r.sent + [Stopped(NotOpen)]
         else if r.verdict.Continue? && r.input == [] then r.sent
         else Head(r.sent, r.verdict) + Poll(r.st, r.input).1
  {
    hide Receive;
  }

  /** Polling past a frame that leaves the client open is polling on from behind it. */
  lemma PollPastFrame(st: State, input: seq<Read>)
    requires st.open && ParseFrame(st.buf).Frame?
    ensures var f := ParseFrame(st.buf);
      var (st', sent, verdict) := Handle(st.(buf := f.rest), f.fin, f.opcode, f.payload);
      !verdict.Stop? && st'.open ==> Poll(st, input).1 == Head(sent, verdict) + Poll(st', input).1
  {
    hide ParseFrame, Handle, Receive, Poll;
    var f := ParseFrame(st.buf);
    var (st', sent, verdict) := Handle(st.(buf := f.rest), f.fin, f.opcode, f.payload);
    ReceiveDecided(st, input);
    PollStep(st, input);
    if st'.open && verdict.Continue? {
      PollStep(st', input);
      var r := Receive(st', input);
      SentFirst(sent, r.sent, r.verdict, Poll(r.st, r.input).1, if r.verdict.Stop? then r.verdict.reason else NotOpen);
    }
  }

  lemma SentFirst(a: seq<Event>, b: seq<Event>, verdict: Verdict, events: seq<Event>, reason: Reason)
    ensures Head(a + b, verdict) + events == a + (Head(b, verdict) + events)
    ensures (a + b) + [Stopped(reason)] == a + (b + [Stopped(reason)])
  {}

  /** Reading a chunk and polling is polling with the chunk in the buffer. */
  lemma PollOfChunk(st: State, chunk: bytes, input: seq<Read>)
    requires st.open && ParseFrame(st.buf).NeedMore?
    ensures Poll(st, [Data(chunk)] + input).1 == Poll(st.(buf := st.buf + chunk), input).1
  {
    hide ParseFrame;
    assert ([Data(chunk)] + input)[1..] == input;
    assert Receive(st, [Data(chunk)] + input) == Receive(st.(buf := st.buf + chunk), input);
    hide Receive;
  }

  // ---- the frame whose pong fails ----

  /** A closed client that reads on reports a message or an end of the stream if there is one to come. */
  lemma {:induction false} ClosedSpeaks(st: State, tail: seq<Read>)
    requires !st.open && IsTail(tail) && !OnlyPongs(Whole(st, tail).events)
    ensures var r := Receive(st, tail);
      r.sent == [] && !r.verdict.Continue? && (r.verdict.Stop? ==> r.verdict.reason != NotOpen)
    decreases |st.buf|
  {
    hide ParseFrame;
    assert st.buf + [] == st.buf;
    if ParseFrame(st.buf).Frame? {
      var f := ParseFrame(st.buf);
      DecisionIsStable(st.buf, []);
      ClosedHandles(st, tail);
      hide Handle, Whole;
      var (st', sent, verdict) := Handle(st.(buf := f.rest), f.fin, f.opcode, f.payload);
      if verdict.Continue? {
        ClosedSpeaks(st', tail);
        assert [] + Receive(st', tail).sent == [];
      }
    }
  }

  /** With no write left, a poll that has a ping at the front of its buffer reads on after it. */
  lemma FailedPing(st: State, input: seq<Read>)
    requires st.open && st.writes == 0 && ParseFrame(st.buf).Frame? && ParseFrame(st.buf).opcode == OP_PING
    ensures Receive(st, input) == Receive(st.(buf := ParseFrame(st.buf).rest, open := false), input)
  {
    ReceiveDecided(st, input);
    hide ParseFrame, Receive;
    var r := Receive(st.(buf := ParseFrame(st.buf).rest, open := false), input);
    assert [] + r.sent == r.sent;
  }

  /** Read in one piece with what follows, the poll does not begin with finding the client closed. */
  lemma UncutFirst(st: State, tail: seq<Read>)
    requires st.open && st.writes == 0 && ParseFrame(st.buf).Frame? && ParseFrame(st.buf).opcode == OP_PING
    requires IsTail(tail) && !OnlyPongs(Whole(st.(buf := ParseFrame(st.buf).rest, open := false), tail).events)
    ensures Poll(st, tail).1 != [Stopped(NotOpen)]
  {
    FailedPing(st, tail);
    var closed := st.(buf := ParseFrame(st.buf).rest, open := false);
    ClosedSpeaks(closed, tail);
    hide ParseFrame, Receive, Whole, OnlyPongs, Poll;
    PollStep(st, tail);
    var r := Receive(st, tail);
    FirstSaid(r.verdict, Poll(r.st, r.input).1);
  }

  lemma FirstSaid(verdict: Verdict, later: seq<Event>)
    ensures verdict.Stop? && verdict.reason != NotOpen ==> [] + [Stopped(verdict.reason)] != [Stopped(NotOpen)]
    ensures verdict.Deliver? ==> Head([], verdict) + later != [Stopped(NotOpen)]
  {
    assert verdict.Stop? ==> ([] + [Stopped(verdict.reason)])[0] == Stopped(verdict.reason);
    assert verdict.Deliver? ==> (Head([], verdict) + later)[0] == Message(verdict.opcode, verdict.payload);
  }

  /** Cut just behind it, with a timeout before the next read, it finds nothing else. */
  lemma CutFirst(st: State, later: seq<Read>)
    requires st.open && st.writes == 0 && ParseFrame(st.buf).Frame? && ParseFrame(st.buf).opcode == OP_PING
    requires ParseFrame(st.buf).rest == []
    ensures Poll(st, [Timeout] + later).1 == [Stopped(NotOpen)]
  {
    var input := [Timeout] + later;
    FailedPing(st, input);
    EmptyNeedsMore();
    hide ParseFrame;
    var closed := st.(buf := [], open := false);
    assert Receive(closed, input) == Received(closed, input[1..], [], Continue);
    hide Receive;
    assert [] + [Stopped(NotOpen)] == [Stopped(NotOpen)];
  }

  /** The first frame of a buffer, wherever the buffer is cut behind it. */
  ghost predicate StartsWith(b: bytes, w: Wire) {
    Fits(w) && |w.payload| <= MAX_FRAME_SIZE && Encode(w) <= b
  }

  lemma FirstFrame(b: bytes) returns (w: Wire)
    requires ParseFrame(b).Frame?
    ensures StartsWith(b, w) && b == Encode(w) + ParseFrame(b).rest
    ensures ParseFrame(b) == Frame(w.fin, w.opcode, w.payload, ParseFrame(b).rest)
  {
    w := ParsesOnlyFrames(b);
  }

  function Script(later: bytes, tail: seq<Read>): seq<Read> {
    [Timeout] + ([Data(later)] + tail)
  }

  /** The read that ends a stream, or nothing. */
  predicate IsTail(tail: seq<Read>) {
    |tail| <= 1 && (tail != [] ==> tail[0].Eof? || tail[0].Broken?)
  }

  /** Where a pong fails and not only pongs follow there is a place where cutting the stream, against not cutting it, shows. */
  lemma {:induction false} CutShows(st: State, tail: seq<Read>) returns (w: Wire, k: nat)
    requires st.open && IsTail(tail) && !Settled(Whole(st, tail).events, st.writes)
    ensures StartsWith(st.buf, w) && |Encode(w)| <= k <= |st.buf|
    ensures Poll(st, tail).1 != Poll(st.(buf := st.buf[..k]), Script(st.buf[k..], tail)).1
    decreases |st.buf|
  {
    hide Poll, Script, ParseFrame, Whole, Settled, Leads, Ends, Fails, Encode, Fits, OnlyPongs;
    FrameFirst(st, tail);
    var f := ParseFrame(st.buf);
    w := FirstFrame(st.buf);
    HandleIsHead(st, tail);
    var (st', sent, verdict) := Handle(st.(buf := f.rest), f.fin, f.opcode, f.payload);
    if st'.open {
      LeadsThenEnds(st, tail, Head(sent, verdict), st', tail, [], NotOpen);
      DecisionIsStable(st.buf, []);
      var _, j := CutShows(st', tail);
      k := |Encode(w)| + j;
      LaterCut(st, w, j, tail);
    } else {
      LastPong(f.payload, Whole(st', tail).events);
      k := |Encode(w)|;
      CutHere(st, w, tail);
    }
  }

  lemma CutHere(st: State, w: Wire, tail: seq<Read>)
    requires st.open && st.writes == 0 && ParseFrame(st.buf).Frame? && ParseFrame(st.buf).opcode == OP_PING
    requires IsTail(tail) && !OnlyPongs(Whole(st.(buf := ParseFrame(st.buf).rest, open := false), tail).events)
    requires StartsWith(st.buf, w) && ParseFrame(st.buf) == Frame(w.fin, w.opcode, w.payload, ParseFrame(st.buf).rest)
    ensures var k := |Encode(w)|;
      Poll(st, tail).1 != Poll(st.(buf := st.buf[..k]), Script(st.buf[k..], tail)).1
  {
    hide Poll, ParseFrame, Encode, Fits, Whole, OnlyPongs, IsTail;
    var g := Encode(w);
    assert st.buf[..|g|] == g + [];
    ParsesEveryFrame(w, []);
    UncutFirst(st, tail);
    CutFirst(st.(buf := st.buf[..|g|]), [Data(st.buf[|g|..])] + tail);
  }

  /** What is not settled starts with a frame other than a close. */
  lemma FrameFirst(st: State, tail: seq<Read>)
    requires IsTail(tail) && !Settled(Whole(st, tail).events, st.writes)
    ensures ParseFrame(st.buf).Frame? && ParseFrame(st.buf).opcode != OP_CLOSE
  {
    hide ParseFrame, Settled;
    assert st.buf + [] == st.buf;
    if !ParseFrame(st.buf).Frame? || ParseFrame(st.buf).opcode == OP_CLOSE {
      SettledWithoutPongs(Whole(st, tail).events, st.writes);
    }
  }

  lemma {:induction false} SettledWithoutPongs(events: seq<Event>, writes: nat)
    requires forall e :: e in events ==> !e.Pong?
    ensures Settled(events, writes)
  {
    if events != [] {
      assert events[0] in events;
      SettledWithoutPongs(events[1..], writes);
    }
  }

  /** A cut that shows behind the first frame shows from in front of it. */
  lemma LaterCut(st: State, w: Wire, j: nat, tail: seq<Read>)
    requires st.open && ParseFrame(st.buf).Frame? && StartsWith(st.buf, w)
    requires st.buf == Encode(w) + ParseFrame(st.buf).rest
    requires ParseFrame(st.buf) == Frame(w.fin, w.opcode, w.payload, ParseFrame(st.buf).rest)
    requires j <= |ParseFrame(st.buf).rest|
    requires var f := ParseFrame(st.buf);
      var (st', sent, verdict) := Handle(st.(buf := f.rest), f.fin, f.opcode, f.payload);
      && !verdict.Stop? && st'.open && st'.buf == f.rest
      && Poll(st', tail).1 != Poll(st'.(buf := st'.buf[..j]), Script(st'.buf[j..], tail)).1
    ensures var k := |Encode(w)| + j;
      Poll(st, tail).1 != Poll(st.(buf := st.buf[..k]), Script(st.buf[k..], tail)).1
  {
    hide ParseFrame, Poll, Script, Encode, Fits;
    var f := ParseFrame(st.buf);
    var k := |Encode(w)| + j;
    assert st.buf[..k] == Encode(w) + f.rest[..j] && st.buf[k..] == f.rest[j..];
    ParsesEveryFrame(w, f.rest[..j]);
    PollPastFrame(st, tail);
    var script := Script(st.buf[k..], tail);
    PollPastFrame(st.(buf := st.buf[..k]), script);
    var (st', sent, verdict) := Handle(st.(buf := f.rest), f.fin, f.opcode, f.payload);
    HandleLeavesBuffer(st, f.rest, f.rest[..j], f.fin, f.opcode, f.payload);
    hide Handle;
    OtherTail(Head(sent, verdict), Poll(st', tail).1, Poll(st'.(buf := f.rest[..j]), script).1);
  }

  lemma HandleLeavesBuffer(st: State, one: bytes, other: bytes, fin: bool, opcode: byte, payload: bytes)
    ensures var (st', sent, verdict) := Handle(st.(buf := one), fin, opcode, payload);
      Handle(st.(buf := other), fin, opcode, payload) == (st'.(buf := other), sent, verdict)
  {}

  lemma OtherTail(head: seq<Event>, a: seq<Event>, b: seq<Event>)
    requires a != b
    ensures head + a != head + b
  {
    assert (head + a)[|head|..] == a && (head + b)[|head|..] == b;
  }

  // ---- streams ----

  /** The same bytes, ended in the same way. */
  predicate SameStream(one: seq<Read>, other: seq<Read>) {
    WireBytes(one) == WireBytes(other) && Ending(one) == Ending(other)
  }

  /** The read that ends a stream, if any. */
  function Tail(input: seq<Read>): (tail: seq<Read>)
    ensures IsTail(tail)
  {
    if input == [] then []
    else if input[0].Eof? || input[0].Broken? then [input[0]]
    else Tail(input[1..])
  }

  lemma {:induction false} TailEnds(input: seq<Read>)
    ensures WireBytes(Tail(input)) == [] && Ending(Tail(input)) == Ending(input)
  {
    if input != [] && !(input[0].Eof? || input[0].Broken?) {
      TailEnds(input[1..]);
    }
  }

  lemma ChunkFirst(chunk: bytes, input: seq<Read>)
    ensures WireBytes([Data(chunk)] + input) == chunk + WireBytes(input)
    ensures Ending([Data(chunk)] + input) == Ending(input)
    ensures WireBytes([Timeout] + input) == WireBytes(input)
    ensures Ending([Timeout] + input) == Ending(input)
  {
    assert ([Data(chunk)] + input)[1..] == input;
    assert ([Timeout] + input)[1..] == input;
  }

  /** A buffer that a frame fits into holds a whole frame. */
  lemma FrameIsWhole(buf: bytes, wire: bytes, w: Wire)
    requires StartsWith(buf + wire, w)
    ensures |Encode(w)| <= |buf| ==> ParseFrame(buf).Frame?
  {
    hide ParseFrame, Encode, Fits;
    if |Encode(w)| <= |buf| {
      assert buf == Encode(w) + buf[|Encode(w)|..];
      ParsesEveryFrame(w, buf[|Encode(w)|..]);
    }
  }

  /** From a client with no whole frame buffered, a fresh one included: for every stream in which something other than pongs
      follows a pong the link does not take, there are two ways of cutting it that give different events. */
  lemma FailedPongTellsSplitsApart(st: State, input: seq<Read>) returns (one: seq<Read>, other: seq<Read>)
    requires st.open && ParseFrame(st.buf).NeedMore? && !Settled(Whole(st, input).events, st.writes)
    ensures SameStream(one, input) && SameStream(other, input) && Poll(st, one).1 != Poll(st, other).1
  {
    hide ParseFrame, Poll, Consume, Settled, WireBytes, Ending, IsTail;
    var wire, tail := WireBytes(input), Tail(input);
    TailEnds(input);
    var all := st.(buf := st.buf + wire);
    assert all.buf + [] == all.buf;
    var w, k := CutShows(all, tail);
    FrameIsWhole(st.buf, wire, w);
    var j := k - |st.buf|;
    one := [Data(wire)] + tail;
    PollOfChunk(st, wire, tail);
    var later := Script(wire[j..], tail);
    other := [Data(wire[..j])] + later;
    PollOfChunk(st, wire[..j], later);
    assert all.buf[..k] == st.buf + wire[..j] && all.buf[k..] == wire[j..];
    ChunkFirst(wire, tail);
    ChunkFirst(wire[..j], later);
    ChunkFirst(wire[j..], tail);
    ChunkFirst(wire[j..], [Data(wire[j..])] + tail);
    assert wire + [] == wire && wire[..j] + wire[j..] == wire && wire[j..] + [] == wire[j..];
  }

  /** Stream-split independence, exactly: all ways of cutting a stream give the same messages, answers and close or error
      point if and only if, in its one-shot reading, nothing but pongs follows the first pong that the link does not
      take. */
  lemma CutsAgreeExactlyWhenSettled(st: State, input: seq<Read>)
    requires st.open && ParseFrame(st.buf).NeedMore?
    ensures (forall one, other :: SameStream(one, input) && SameStream(other, input) ==> Poll(st, one).1 == Poll(st, other).1)
       <==> Settled(Whole(st, input).events, st.writes)
  {
    hide Poll, ParseFrame, Settled;
    if Settled(Whole(st, input).events, st.writes) {
      forall one, other | SameStream(one, input) && SameStream(other, input)
        ensures Poll(st, one).1 == Poll(st, other).1 {
        SplitsAgree(st, one, other);
      }
    } else {
      var one, other := FailedPongTellsSplitsApart(st, input);
    }
  }

  /** So no cut shows while all pongs fit, nor when pongs are all that a stream asks for. */
  lemma FittingPongsHideCuts(st: State, input: seq<Read>)
    requires Pings(Whole(st, input).events) <= st.writes || OnlyPongs(Whole(st, input).events)
    ensures Settled(Whole(st, input).events, st.writes)
  {
    hide Whole;
    if Pings(Whole(st, input).events) <= st.writes {
      FittingIsSettled(Whole(st, input).events, st.writes);
    } else {
      PongsAreSettled(Whole(st, input).events, st.writes);
    }
  }

  lemma {:induction false} PongsAreSettled(events: seq<Event>, writes: nat)
    requires OnlyPongs(events)
    ensures Settled(events, writes)
  {
    if events != [] && writes > 0 {
      PongsAreSettled(events[1..], writes - 1);
    }
  }
}
