/** The buffer at work: an agent, a channel that loses, repeats and reorders, and a peer that acknowledges a number
    only after delivering everything up to it. */
module LossyLink {
  import opened Bytes
  import opened Outbox

  datatype Packet = Packet(number: int, frame: bytes)

  /** `flying` and `acks` only grow: whatever was put on the channel may arrive at any later time, or never. */
  datatype Link = Link(agent: History, delivered: seq<bytes>, flying: set<Packet>, acks: set<int>)

  datatype Move =
    | AgentSends(frame: bytes, at: int)
    | AgentPolls(at: int)
    | AgentGetsAck(number: int)
    | PeerGets(packet: Packet)
    | PeerAcks(number: int)

  function Start(): Link {
    Link(History([], [], []), [], {}, {})
  }

  predicate Allowed(l: Link, m: Move) {
    match m
    case PeerGets(packet) => packet in l.flying
    case PeerAcks(number) => 0 <= number < |l.delivered|
    case AgentGetsAck(number) => number in l.acks
    case _ => true
  }

  /** The peer delivers in order and drops everything else. */
  function Next(l: Link, m: Move): Link {
    match m
    case AgentSends(frame, at) =>
      l.(agent := Step(l.agent, Send(frame, at)), flying := l.flying + {Packet(|l.agent.sent|, frame)})
    case AgentPolls(at) =>
      var again := if Answer(l.agent.buf, at).Resend? then {Packet(l.agent.buf[0].number, l.agent.buf[0].frame)} else {};
      l.(agent := Step(l.agent, Poll(at)), flying := l.flying + again)
    case AgentGetsAck(number) => l.(agent := Step(l.agent, Ack(number)))
    case PeerGets(packet) =>
      if packet.number == |l.delivered| then l.(delivered := l.delivered + [packet.frame]) else l
    case PeerAcks(number) => l.(acks := l.acks + {number})
  }

  predicate Legal(l: Link, moves: seq<Move>)
    decreases |moves|
  {
    moves == [] || (Allowed(l, moves[0]) && Legal(Next(l, moves[0]), moves[1..]))
  }

  function After(l: Link, moves: seq<Move>): Link
    decreases |moves|
  {
    if moves == [] then l else After(Next(l, moves[0]), moves[1..])
  }

  ghost predicate Safe(l: Link) {
    && Valid(l.agent)
    && (forall p :: p in l.flying ==> 0 <= p.number < |l.agent.sent| && p.frame == l.agent.sent[p.number].frame)
    && |l.delivered| <= |l.agent.sent|
    && (forall n :: 0 <= n < |l.delivered| ==> l.delivered[n] == l.agent.sent[n].frame)
    && (forall n :: n in l.acks ==> n < |l.delivered|)
    && |l.agent.buf| >= Min(|l.agent.sent| - |l.delivered|, MAX_BUFFERED)
  }

  lemma StartIsSafe()
    ensures Safe(Start())
  {}

  lemma SendIsSafe(l: Link, frame: bytes, at: int)
    requires Safe(l)
    ensures Safe(Next(l, AgentSends(frame, at)))
  {
    SendKeeps(l.agent, frame, at);
    hide Valid;
  }

  lemma PollIsSafe(l: Link, at: int)
    requires Safe(l)
    ensures Safe(Next(l, AgentPolls(at)))
  {
    PollKeeps(l.agent, at);
    if Answer(l.agent.buf, at).Resend? {
      assert Faithful(l.agent, l.agent.buf[0]);
    }
    hide Valid, Faithful, Times;
  }

  lemma AckIsSafe(l: Link, number: int)
    requires Safe(l) && number in l.acks
    ensures Safe(Next(l, AgentGetsAck(number)))
  {
    AckKeeps(l.agent, number);
    var k := AckedIsSuffix(l.agent.buf, number);
    if k > 0 {
      assert l.agent.buf[k - 1].number <= number;
    }
    hide Faithful, Times;
  }

  lemma {:induction false} MovesAreSafe(l: Link, moves: seq<Move>)
    requires Safe(l) && Legal(l, moves)
    ensures Safe(After(l, moves))
    decreases |moves|
  {
    if moves != [] {
      var l' := Next(l, moves[0]);
      match moves[0] {
        case AgentSends(frame, at) => SendIsSafe(l, frame, at);
        case AgentPolls(at) => PollIsSafe(l, at);
        case AgentGetsAck(number) => AckIsSafe(l, number);
        case PeerGets(packet) => DeliveryIsSafe(l, packet);
        case PeerAcks(number) => PromiseIsSafe(l, number);
      }
      hide Safe;
      MovesAreSafe(l', moves[1..]);
    }
  }

  lemma DeliveryIsSafe(l: Link, packet: Packet)
    requires Safe(l) && packet in l.flying
    ensures Safe(Next(l, PeerGets(packet)))
  {
    hide Valid;
  }

  lemma PromiseIsSafe(l: Link, number: int)
    requires Safe(l) && 0 <= number < |l.delivered|
    ensures Safe(Next(l, PeerAcks(number)))
  {
    hide Valid;
  }

  /** In every reachable state the peer has delivered exactly a prefix of what was sent, and each later frame is
      still buffered, with its own bytes, unless 8192 newer ones pushed it out. */
  lemma NothingIsLost(moves: seq<Move>, n: nat)
    requires Legal(Start(), moves)
    ensures var l := After(Start(), moves);
      && |l.delivered| <= |l.agent.sent|
      && (forall i :: 0 <= i < |l.delivered| ==> l.delivered[i] == l.agent.sent[i].frame)
      && (|l.delivered| <= n < |l.agent.sent| && n >= |l.agent.sent| - 8192
          ==> exists e :: e in l.agent.buf && e.number == n && e.frame == l.agent.sent[n].frame)
  {
    StartIsSafe();
    MovesAreSafe(Start(), moves);
    hide After, Start, Legal, Times;
    var l := After(Start(), moves);
    if |l.delivered| <= n < |l.agent.sent| && n >= |l.agent.sent| - MAX_BUFFERED {
      var e := l.agent.buf[n - (|l.agent.sent| - |l.agent.buf|)];
      assert Faithful(l.agent, e) && e in l.agent.buf;
    }
  }

  // ---- delivery stays possible ----

  /** Nothing undelivered has been pushed out, and the front has a resend left. */
  ghost predicate Recoverable(l: Link) {
    && Safe(l)
    && |l.agent.sent| - |l.delivered| <= |l.agent.buf|
    && (l.agent.buf != [] ==> l.agent.buf[0].resends < MAX_RESENDS)
  }

  /** One round: resend the front, deliver it, acknowledge it, hear the acknowledgement. */
  function Round(l: Link): seq<Move>
    requires l.agent.buf != []
  {
    var front := l.agent.buf[0];
    [AgentPolls(front.lastSentMs + RESEND_INTERVAL_MS), PeerGets(Packet(front.number, front.frame)),
     PeerAcks(front.number), AgentGetsAck(front.number)]
  }

  lemma FourMoves(l: Link, a: Move, b: Move, c: Move, d: Move)
    ensures var l1 := Next(l, a); var l2 := Next(l1, b); var l3 := Next(l2, c);
      && After(l, [a, b, c, d]) == Next(l3, d)
      && (Legal(l, [a, b, c, d]) <==> Allowed(l, a) && Allowed(l1, b) && Allowed(l2, c) && Allowed(l3, d))
  {
    hide Next, Allowed;
    var l1 := Next(l, a);
    var l2 := Next(l1, b);
    var l3 := Next(l2, c);
    assert [a, b, c, d][1..] == [b, c, d] && [b, c, d][1..] == [c, d] && [c, d][1..] == [d] && [d][1..] == [];
    assert After(l3, [d]) == After(Next(l3, d), []);
    assert Legal(l3, [d]) == (Allowed(l3, d) && Legal(Next(l3, d), []));
    assert After(l2, [c, d]) == After(l3, [d]) && Legal(l2, [c, d]) == (Allowed(l2, c) && Legal(l3, [d]));
    assert After(l1, [b, c, d]) == After(l2, [c, d]) && Legal(l1, [b, c, d]) == (Allowed(l1, b) && Legal(l2, [c, d]));
  }

  lemma RoundHelps(l: Link)
    requires Recoverable(l) && l.agent.buf != []
    ensures Legal(l, Round(l))
    ensures var l' := After(l, Round(l));
      && Recoverable(l') && l'.agent.sent == l.agent.sent && l'.agent.buf == l.agent.buf[1..]
  {
    var m := Round(l);
    var front := l.agent.buf[0];
    FourMoves(l, m[0], m[1], m[2], m[3]);
    hide Times, Faithful;
    var l1 := Next(l, m[0]);
    var l2 := Next(l1, m[1]);
    var l3 := Next(l2, m[2]);
    var l4 := Next(l3, m[3]);
    assert Allowed(l, m[0]) && Allowed(l1, m[1]) && front.number < |l2.delivered|;
    assert Legal(l, m);
    StepLeavesRest(l1.agent.buf, front.number);
    assert l4.agent.buf == l.agent.buf[1..];
    MovesAreSafe(l, m);
  }

  lemma StepLeavesRest(buf: seq<Entry>, number: int)
    requires buf != [] && buf[0].number == number && (|buf| > 1 ==> buf[1].number > number)
    ensures Acked(buf, number) == buf[1..]
  {
    assert Acked(buf, number) == Acked(buf[1..], number);
  }

  lemma {:induction false} Concatenated(l: Link, a: seq<Move>, b: seq<Move>)
    ensures After(l, a + b) == After(After(l, a), b)
    ensures Legal(l, a) && Legal(After(l, a), b) ==> Legal(l, a + b)
    decreases |a|
  {
    if a == [] {
      assert a + b == b;
    } else {
      assert (a + b)[1..] == a[1..] + b;
      Concatenated(Next(l, a[0]), a[1..], b);
    }
  }

  /** From every such state some schedule of the channel delivers everything sent and empties the buffer. */
  lemma {:induction false} DeliveryStaysPossible(l: Link) returns (moves: seq<Move>)
    requires Recoverable(l)
    ensures Legal(l, moves)
    ensures var l' := After(l, moves);
      l'.agent.buf == [] && l'.agent.sent == l.agent.sent && |l'.delivered| == |l.agent.sent| && Safe(l')
    decreases |l.agent.buf|
  {
    if l.agent.buf == [] {
      moves := [];
    } else {
      RoundHelps(l);
      var first := Round(l);
      hide Round, Recoverable, Safe;
      var later := DeliveryStaysPossible(After(l, first));
      moves := first + later;
      Concatenated(l, first, later);
    }
  }

  /** Were the peer to acknowledge a control message, whose number is always 0, the handshake request would leave
      the buffer undelivered and never be sent again. */
  lemma ControlAckDropsHandshake(request: bytes, at: int, later: int)
    ensures var l := Next(Start(), AgentSends(request, at));
      && l.delivered == [] && !Allowed(l, PeerAcks(0))
      && Answer(Acked(l.agent.buf, 0), later) == Nothing
  {
    var buf := Next(Start(), AgentSends(request, at)).agent.buf;
    assert buf == [Entry(0, request, at, 0)];
    assert Acked(buf, 0) == Acked(buf[1..], 0) == [];
  }
}
