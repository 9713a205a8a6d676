/** The retransmission buffer: what it holds after any run of sends, acknowledgements and polls, and when it
    gives a peer up for dead. */
module Outbox {
  import opened Bytes

  const RESEND_INTERVAL_MS := 250
  const MAX_RESENDS := 240
  const MAX_BUFFERED := 8192

  datatype Entry = Entry(number: int, frame: bytes, lastSentMs: int, resends: nat)

  datatype Due = Nothing | Resend(frame: bytes) | Dead

  // ---- what each operation does to the buffer ----

  function Added(buf: seq<Entry>, number: int, frame: bytes, now: int): seq<Entry> {
    (if |buf| >= MAX_BUFFERED then buf[1..] else buf) + [Entry(number, frame, now, 0)]
  }

  function Acked(buf: seq<Entry>, number: int): seq<Entry> {
    if buf != [] && buf[0].number <= number then Acked(buf[1..], number) else buf
  }

  function Answer(buf: seq<Entry>, now: int): Due {
    if buf == [] || now - buf[0].lastSentMs < RESEND_INTERVAL_MS then Nothing
    else if buf[0].resends >= MAX_RESENDS then Dead
    else Resend(buf[0].frame)
  }

  function Polled(buf: seq<Entry>, now: int): seq<Entry> {
    if Answer(buf, now).Resend? then [buf[0].(lastSentMs := now, resends := buf[0].resends + 1)] + buf[1..] else buf
  }

  class Outbox {
    var buf: seq<Entry>

    constructor ()
      ensures buf == []
    {
      buf := [];
    }

    method Add(number: int, frame: bytes, now: int)
      modifies this
      ensures buf == Added(old(buf), number, frame, now)
    {
      if |buf| >= MAX_BUFFERED {
        buf := buf[1..];
      }
      buf := buf + [Entry(number, frame, now, 0)];
    }

    /** An acknowledgement clears its own frame and every older one. */
    method Ack(number: int)
      modifies this
      ensures buf == Acked(old(buf), number)
    {
      while buf != [] && buf[0].number <= number
        invariant Acked(buf, number) == Acked(old(buf), number)
        decreases |buf|
      {
        buf := buf[1..];
      }
    }

    method DueResend(now: int) returns (frame: Option<bytes>, dead: bool)
      modifies this
      ensures buf == Polled(old(buf), now)
      ensures dead == Answer(old(buf), now).Dead?
      ensures frame == if Answer(old(buf), now).Resend? then Some(Answer(old(buf), now).frame) else None
    {
      frame, dead := None, false;
      if buf == [] {
        return;
      }
      var front := buf[0];
      if now - front.lastSentMs < RESEND_INTERVAL_MS {
        return;
      }
      if front.resends >= MAX_RESENDS {
        dead := true;
        return;
      }
      buf := buf[0 := front.(lastSentMs := now, resends := front.resends + 1)];
      frame := Some(front.frame);
    }
  }

  // ---- every run ----

  datatype Event = Send(frame: bytes, at: int) | Ack(number: int) | Poll(at: int)

  datatype Sending = Sending(frame: bytes, at: int)

  /** The buffer, every frame sent so far with the time it was first sent, and the numbers resent, in order. */
  datatype History = History(buf: seq<Entry>, sent: seq<Sending>, resent: seq<int>)

  function Step(h: History, e: Event): History {
    match e
    case Send(frame, at) => h.(buf := Added(h.buf, |h.sent|, frame, at), sent := h.sent + [Sending(frame, at)])
    case Ack(number) => h.(buf := Acked(h.buf, number))
    case Poll(at) =>
      var resent := if Answer(h.buf, at).Resend? then h.resent + [h.buf[0].number] else h.resent;
      h.(buf := Polled(h.buf, at), resent := resent)
  }

  /** Frames are numbered 0, 1, 2, ... as they are sent. */
  function Run(events: seq<Event>): History {
    if events == [] then History([], [], []) else Step(Run(events[..|events| - 1]), events[|events| - 1])
  }

  function Times(resent: seq<int>, number: int): nat {
    if resent == [] then 0
    else Times(resent[..|resent| - 1], number) + if resent[|resent| - 1] == number then 1 else 0
  }

  /** One entry against the history: its own frame, as many resends as happened, an interval between each two. */
  ghost predicate Faithful(h: History, e: Entry) {
    && 0 <= e.number < |h.sent|
    && e.frame == h.sent[e.number].frame
    && e.resends == Times(h.resent, e.number) <= 240
    && e.lastSentMs >= h.sent[e.number].at + 250 * e.resends
  }

  /** The buffer is the contiguous run of numbers that ends with the last frame sent, never more than the cap,
      and only its front has been resent. */
  ghost predicate Valid(h: History) {
    && |h.buf| <= 8192
    && |h.buf| <= |h.sent|
    && (forall i :: 0 <= i < |h.buf| ==> h.buf[i].number == |h.sent| - |h.buf| + i)
    && (forall i :: 0 <= i < |h.buf| ==> Faithful(h, h.buf[i]))
    && (forall i :: 1 <= i < |h.buf| ==> h.buf[i].resends == 0)
    && (forall n :: n in h.resent ==> n < |h.sent|)
  }

  lemma {:induction false} AckedIsSuffix(buf: seq<Entry>, number: int) returns (k: nat)
    ensures k <= |buf| && Acked(buf, number) == buf[k..]
    ensures forall i :: 0 <= i < k ==> buf[i].number <= number
    ensures k < |buf| ==> buf[k].number > number
  {
    k := 0;
    if buf != [] && buf[0].number <= number {
      var j := AckedIsSuffix(buf[1..], number);
      k := j + 1;
      assert forall i :: 1 <= i < k ==> buf[i] == buf[1..][i - 1];
    }
  }

  lemma {:induction false} NeverResent(resent: seq<int>, number: int)
    requires number !in resent
    ensures Times(resent, number) == 0
  {
    if resent != [] {
      NeverResent(resent[..|resent| - 1], number);
    }
  }

  lemma SendKeeps(h: History, frame: bytes, at: int)
    requires Valid(h)
    ensures Valid(Step(h, Send(frame, at)))
  {
    hide Times;
    var kept := if |h.buf| >= MAX_BUFFERED then h.buf[1..] else h.buf;
    var h' := Step(h, Send(frame, at));
    assert h'.buf == kept + [Entry(|h.sent|, frame, at, 0)];
    NeverResent(h.resent, |h.sent|);
    forall i | 0 <= i < |kept| ensures Faithful(h', kept[i]) && kept[i].number == |h.sent| - |kept| + i {
      assert Faithful(h, kept[i]);
    }
  }

  lemma AckKeeps(h: History, number: int)
    requires Valid(h)
    ensures Valid(Step(h, Ack(number)))
  {
    hide Times;
    var k := AckedIsSuffix(h.buf, number);
    var h' := Step(h, Ack(number));
    forall i | 0 <= i < |h'.buf| ensures Faithful(h', h'.buf[i]) {
      assert h'.buf[i] == h.buf[k + i] && Faithful(h, h.buf[k + i]);
    }
  }

  lemma PollKeeps(h: History, at: int)
    requires Valid(h)
    ensures Valid(Step(h, Poll(at)))
  {
    var h' := Step(h, Poll(at));
    if Answer(h.buf, at).Resend? {
      var front := h.buf[0];
      assert Faithful(h, front);
      assert h'.resent[..|h.resent|] == h.resent;
      forall i | 0 <= i < |h'.buf| ensures Faithful(h', h'.buf[i]) {
        assert Faithful(h, h.buf[i]);
      }
    }
  }

  /** In every state of every run. */
  lemma {:induction false} EveryRunIsValid(events: seq<Event>)
    ensures Valid(Run(events))
  {
    hide Valid, Step;
    if events == [] {
      NothingYetIsValid();
    } else {
      var h := Run(events[..|events| - 1]);
      EveryRunIsValid(events[..|events| - 1]);
      match events[|events| - 1]
      case Send(frame, at) => SendKeeps(h, frame, at);
      case Ack(number) => AckKeeps(h, number);
      case Poll(at) => PollKeeps(h, at);
    }
  }

  lemma NothingYetIsValid()
    ensures Valid(History([], [], []))
  {}

  /** The peer is given up for dead only when the oldest frame has been resent 240 times and has been waiting for
      at least 241 intervals, whatever the clock did. */
  lemma DeadOnlyAfterSilence(events: seq<Event>, now: int)
    requires Answer(Run(events).buf, now).Dead?
    ensures var h := Run(events);
      var oldest := |h.sent| - |h.buf|;
      && 0 <= oldest < |h.sent|
      && Times(h.resent, oldest) == 240
      && now - h.sent[oldest].at >= 241 * 250
  {
    hide Run, Times;
    EveryRunIsValid(events);
    assert Faithful(Run(events), Run(events).buf[0]);
  }

  /** A resend repeats, byte for byte, a frame that was sent before and is not acknowledged yet. */
  lemma ResendRepeatsAFrame(events: seq<Event>, now: int)
    requires Answer(Run(events).buf, now).Resend?
    ensures var h := Run(events);
      var oldest := |h.sent| - |h.buf|;
      0 <= oldest < |h.sent| && Answer(h.buf, now).frame == h.sent[oldest].frame
  {
    hide Run, Times;
    EveryRunIsValid(events);
    assert Faithful(Run(events), Run(events).buf[0]);
  }

  // ---- how soon silence is noticed ----

  /** The answers to the polls that found the front due, in order. */
  function DueAnswers(buf: seq<Entry>, next: nat, events: seq<Event>): seq<Due>
    decreases |events|
  {
    if events == [] then []
    else
      match events[0]
      case Send(frame, at) => DueAnswers(Added(buf, next, frame, at), next + 1, events[1..])
      case Ack(number) => DueAnswers(Acked(buf, number), next, events[1..])
      case Poll(at) =>
        var answer := Answer(buf, at);
        (if answer.Nothing? then [] else [answer]) + DueAnswers(Polled(buf, at), next, events[1..])
  }

  function Sends(events: seq<Event>): nat {
    if events == [] then 0 else (if events[0].Send? then 1 else 0) + Sends(events[1..])
  }

  /** `Resend` while any of the front's resends are left, then `Dead` for ever. */
  function Escalation(front: Entry, n: nat): seq<Due> {
    seq(n, k => if front.resends + k < MAX_RESENDS then Resend(front.frame) else Dead)
  }

  /** With no acknowledgement and no eviction the answers to due polls are fixed: the 241st, and none before it,
      reports a fresh front dead. */
  lemma {:induction false} SilenceEscalates(buf: seq<Entry>, next: nat, events: seq<Event>)
    requires buf != [] && |buf| + Sends(events) <= MAX_BUFFERED
    requires forall e :: e in events ==> !e.Ack?
    ensures var answers := DueAnswers(buf, next, events);
      answers == Escalation(buf[0], |answers|)
    decreases |events|
  {
    hide Sends, Escalation;
    if events == [] {
      assert DueAnswers(buf, next, events) == [];
      EscalationStarts(buf[0], 0);
    } else {
      SendsStep(events);
      var e, later := events[0], events[1..];
      assert e in events;
      match e
      case Send(frame, at) =>
        SilenceEscalates(Added(buf, next, frame, at), next + 1, later);
      case Poll(at) =>
        SilenceEscalates(Polled(buf, at), next, later);
        EscalationStarts(buf[0], |DueAnswers(Polled(buf, at), next, later)|);
        if Answer(buf, at).Resend? {
          EscalationIgnoresClock(buf[0], Polled(buf, at)[0], |DueAnswers(Polled(buf, at), next, later)|);
        }
    }
  }

  lemma SendsStep(events: seq<Event>)
    requires events != []
    ensures Sends(events) == (if events[0].Send? then 1 else 0) + Sends(events[1..])
  {}

  lemma EscalationStarts(front: Entry, n: nat)
    ensures Escalation(front, 0) == []
    ensures front.resends < MAX_RESENDS
        ==> Escalation(front, n + 1) == [Resend(front.frame)] + Escalation(front.(resends := front.resends + 1), n)
    ensures front.resends >= MAX_RESENDS ==> Escalation(front, n + 1) == [Dead] + Escalation(front, n)
  {}

  lemma EscalationIgnoresClock(a: Entry, b: Entry, n: nat)
    requires a.frame == b.frame && b.resends == a.resends + 1
    ensures Escalation(b, n) == Escalation(a.(resends := a.resends + 1), n)
  {}

  /** Polls an interval apart. */
  function Ticks(start: int, n: nat): seq<Event>
    decreases n
  {
    if n == 0 then [] else [Poll(start + RESEND_INTERVAL_MS)] + Ticks(start + RESEND_INTERVAL_MS, n - 1)
  }

  lemma {:induction false} TicksAreDue(buf: seq<Entry>, next: nat, start: int, n: nat)
    requires buf != [] && buf[0].lastSentMs <= start
    ensures |DueAnswers(buf, next, Ticks(start, n))| == n
    decreases n
  {
    if n > 0 {
      var events, at := Ticks(start, n), start + RESEND_INTERVAL_MS;
      assert events[0] == Poll(at) && events[1..] == Ticks(at, n - 1);
      TicksAreDue(Polled(buf, at), next, at, n - 1);
    }
  }

  /** So a frame that nobody acknowledges is resent 240 times, once an interval, and at the 241st the peer is dead. */
  lemma SilenceIsNoticedInTime(buf: seq<Entry>, next: nat)
    requires buf != [] && buf[0].resends == 0 && |buf| <= MAX_BUFFERED
    ensures var answers := DueAnswers(buf, next, Ticks(buf[0].lastSentMs, MAX_RESENDS + 1));
      && |answers| == MAX_RESENDS + 1 && answers[MAX_RESENDS] == Dead
      && forall k :: 0 <= k < MAX_RESENDS ==> answers[k] == Resend(buf[0].frame)
  {
    hide DueAnswers, Ticks, Sends;
    TicksAreDue(buf, next, buf[0].lastSentMs, MAX_RESENDS + 1);
    TicksOnlyPoll(buf[0].lastSentMs, MAX_RESENDS + 1);
    SilenceEscalates(buf, next, Ticks(buf[0].lastSentMs, MAX_RESENDS + 1));
  }

  lemma {:induction false} TicksOnlyPoll(start: int, n: nat)
    ensures Sends(Ticks(start, n)) == 0 && forall e :: e in Ticks(start, n) ==> e.Poll?
    decreases n
  {
    if n > 0 {
      var events := Ticks(start, n);
      assert events[1..] == Ticks(start + RESEND_INTERVAL_MS, n - 1);
      TicksOnlyPoll(start + RESEND_INTERVAL_MS, n - 1);
      SendsStep(events);
      hide Sends;
    }
  }
}
