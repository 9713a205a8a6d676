/** The control channel's session requests: which of them start a session, and how many sessions are live. */
module Control {
  import opened Bytes

  const STANDARD_STREAM := Ascii("Standard_Stream")

  /** A parsed request; `ok` says that it parsed. */
  datatype Request = Request(ok: bool, sessionId: bytes, sessionType: bytes, kmsKeyId: bytes)

  /** Standard shells without session encryption, and nothing else. */
  predicate Supported(r: Request) {
    r.ok && (r.sessionType == [] || r.sessionType == STANDARD_STREAM) && r.kmsKeyId == []
  }

  datatype Event = Requested(r: Request) | Ended

  /** The sessions one connection starts, in order. */
  function Started(events: seq<Event>): seq<bytes> {
    if events == [] then []
    else
      var before := Started(events[..|events| - 1]);
      var e := events[|events| - 1];
      if e.Requested? && Supported(e.r) && e.r.sessionId !in before then before + [e.r.sessionId] else before
  }

  function Ends(events: seq<Event>): nat {
    if events == [] then 0 else Ends(events[..|events| - 1]) + if events[|events| - 1].Ended? then 1 else 0
  }

  /** However often a request is delivered, its session starts once. */
  lemma {:induction false} StartsOnce(events: seq<Event>, i: nat, j: nat)
    requires i < j < |Started(events)|
    ensures Started(events)[i] != Started(events)[j]
  {
    var before := Started(events[..|events| - 1]);
    if j < |before| {
      StartsOnce(events[..|events| - 1], i, j);
    } else {
      assert before[i] in before;
    }
  }

  /** A request for this session that parsed, names a standard shell or no type at all, and asks for no encryption. */
  ghost predicate AsksFor(e: Event, id: bytes) {
    && e.Requested? && e.r.ok && e.r.sessionId == id
    && e.r.sessionType in {[], Ascii("Standard_Stream")} && |e.r.kmsKeyId| == 0
  }

  /** And it does start exactly when some such request asks for it. */
  lemma {:induction false} StartsExactlyTheSupported(events: seq<Event>, id: bytes)
    ensures id in Started(events) <==> exists e :: e in events && AsksFor(e, id)
  {
    if events != [] {
      var before, last := events[..|events| - 1], events[|events| - 1];
      StartsExactlyTheSupported(before, id);
      SupportedIsAsked(last, id);
      hide Supported, AsksFor;
      assert events == before + [last];
    }
  }

  lemma SupportedIsAsked(e: Event, id: bytes)
    ensures e.Requested? && Supported(e.r) && e.r.sessionId == id <==> AsksFor(e, id)
  {
    assert STANDARD_STREAM == Ascii("Standard_Stream");
    hide Ascii;
  }

  lemma NextEvent(events: seq<Event>, e: Event)
    ensures Started(events + [e])
         == if e.Requested? && Supported(e.r) && e.r.sessionId !in Started(events) then Started(events) + [e.r.sessionId]
            else Started(events)
    ensures Ends(events + [e]) == Ends(events) + if e.Ended? then 1 else 0
  {
    assert (events + [e])[..|events|] == events;
  }

  class ControlChannel {
    var seen: set<bytes>
    var active: int
    ghost var events: seq<Event>

    /** The ids seen are the sessions started, and the live count is those less the ones that ended. */
    ghost predicate Valid()
      reads this
    {
      && seen == (set id | id in Started(events))
      && active == |Started(events)| - Ends(events)
    }

    constructor ()
      ensures Valid() && events == []
    {
      seen, active, events := {}, 0, [];
    }

    /** True when a worker is to be started; the count goes up before it is. */
    method HandleRequest(r: Request) returns (start: bool)
      requires Valid()
      modifies this
      ensures Valid() && events == old(events) + [Requested(r)]
      ensures start == (|Started(events)| > |Started(old(events))|)
    {
      hide Started, Ends;
      NextEvent(events, Requested(r));
      events := events + [Requested(r)];
      start := false;
      if !r.ok {
        return;
      }
      if r.sessionType != [] && r.sessionType != STANDARD_STREAM {
        return;
      }
      if r.kmsKeyId != [] {
        return;
      }
      if r.sessionId in seen {
        return;
      }
      seen := seen + {r.sessionId};
      active := active + 1;
      start := true;
    }

    /** A session worker returns, by whatever path. */
    method SessionEnded()
      requires Valid()
      modifies this
      ensures Valid() && events == old(events) + [Ended]
    {
      hide Started, Ends;
      NextEvent(events, Ended);
      events := events + [Ended];
      active := active - 1;
    }
  }
}
