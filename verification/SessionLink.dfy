/** A session over a channel that loses, repeats and reorders: nothing its peer has not delivered is lost. */
module SessionLink {
  import opened Outbox
  import opened Session
  import opened SessionFrames
  import L = LossyLink

  /** What one move does to the agent's buffer. */
  function AgentEvent(m: L.Move): seq<Event> {
    match m
    case AgentSends(frame, at) => [Send(frame, at)]
    case AgentPolls(at) => [Poll(at)]
    case AgentGetsAck(number) => [Ack(number)]
    case _ => []
  }

  function AgentEvents(moves: seq<L.Move>): seq<Event> {
    if moves == [] then [] else AgentEvent(moves[0]) + AgentEvents(moves[1..])
  }

  /** The agent of a link is a run of its own moves. */
  lemma {:induction false} AgentRuns(l: L.Link, moves: seq<L.Move>, events: seq<Event>)
    requires l.agent == Run(events)
    ensures L.After(l, moves).agent == Run(events + AgentEvents(moves))
    decreases |moves|
  {
    hide Run, Step;
    if moves == [] {
      assert events + [] == events;
    } else {
      var first := AgentEvent(moves[0]);
      assert events + AgentEvents(moves) == (events + first) + AgentEvents(moves[1..]);
      if first == [] {
        assert events + [] == events;
      } else {
        NextRun(events, first[0]);
      }
      AgentRuns(L.Next(l, moves[0]), moves[1..], events + first);
    }
  }

  lemma NothingMoved()
    ensures L.Start().agent == Run([])
  {}

  /** The frames sent are those of the fresh stream-data, in order. */
  lemma {:induction false} SentAreStreams(w: World, log: seq<Act>)
    ensures var sent := Run(Events(w, log)).sent;
      |sent| == |Streams(log)| && forall k :: 0 <= k < |sent| ==> sent[k].frame == FrameOf(w, Streams(log)[k])
  {
    hide FrameOf, Run, Events;
    if log == [] {
      NothingRuns(w);
    } else {
      NextHistory(w, log);
      SentAreStreams(w, log[..|log| - 1]);
    }
  }

  /** At every moment of every session, whatever the channel does to its frames and to the acknowledgements of a peer that
      acknowledges only what it has delivered: the peer has delivered exactly the first fresh stream-data of the session,
      in order, and each later one among the last 8192 is still in the buffer, byte for byte. */
  lemma SessionLosesNothing(w: World, s: Script, k: nat, moves: seq<L.Move>, n: nat)
    requires k <= |Play(w, s).log|
    requires L.Legal(L.Start(), moves) && AgentEvents(moves) == Events(w, Play(w, s).log[..k])
    ensures var streams := Streams(Play(w, s).log[..k]);
      var buf := Run(Events(w, Play(w, s).log[..k])).buf;
      var delivered := L.After(L.Start(), moves).delivered;
      && |delivered| <= |streams|
      && (forall i :: 0 <= i < |delivered| ==> delivered[i] == FrameOf(w, streams[i]))
      && (|delivered| <= n < |streams| && n >= |streams| - 8192
          ==> exists e :: e in buf && e.number == n && e.frame == FrameOf(w, streams[n]))
      && (k == |Play(w, s).log| ==> buf == Play(w, s).outbox)
  {
    hide Run, Events, L.After, L.Legal, AgentEvents, Play, FrameOf, Streams, Consistent;
    var log := Play(w, s).log[..k];
    NothingMoved();
    AgentRuns(L.Start(), moves, []);
    assert [] + AgentEvents(moves) == AgentEvents(moves);
    L.NothingIsLost(moves, n);
    SentAreStreams(w, log);
    PlayIsFaithful(w, s);
    assert k == |Play(w, s).log| ==> log == Play(w, s).log;
  }
}
