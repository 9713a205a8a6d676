/** Run Command bookkeeping: which commands were seen, which are running, and which worker a cancel reaches. */
module Commands {
  import opened Bytes

  const DEDUP_HISTORY := 512

  // ---- ids seen lately ----

  function Remembered(order: seq<bytes>, id: bytes): seq<bytes> {
    if id in order then order
    else if |order| >= DEDUP_HISTORY then order[1..] + [id]
    else order + [id]
  }

  /** A set for lookup and a queue for the order of arrival, kept in step. */
  class SeenCommands {
    var ids: set<bytes>
    var order: seq<bytes>

    ghost predicate Valid()
      reads this
    {
      && ids == (set id | id in order)
      && (forall i, j :: 0 <= i < j < |order| ==> order[i] != order[j])
    }

    constructor ()
      ensures Valid() && order == []
    {
      ids, order := {}, [];
    }

    method Seen(id: bytes) returns (b: bool)
      requires Valid()
      ensures b == (id in order)
    {
      b := id in ids;
    }

    method Add(id: bytes)
      requires Valid() && |order| <= DEDUP_HISTORY
      modifies this
      ensures Valid() && |order| <= DEDUP_HISTORY && order == Remembered(old(order), id)
    {
      if id !in ids {
        ids := ids + {id};
        order := order + [id];
        if |order| > DEDUP_HISTORY {
          assert order[1..] == old(order)[1..] + [id];
          ids := ids - {order[0]};
          order := order[1..];
        }
      }
    }
  }

  /** Cancel tokens by number, the table of running commands, and their count. */
  class InFlight {
    var requested: seq<bool>
    var table: map<bytes, nat>
    var count: int

    ghost predicate Valid()
      reads this
    {
      forall id :: id in table ==> table[id] < |requested|
    }

    constructor ()
      ensures Valid() && requested == [] && table == map[] && count == 0
    {
      requested, table, count := [], map[], 0;
    }

    method Add(id: bytes) returns (token: nat)
      requires Valid()
      modifies this
      ensures Valid() && token == |old(requested)| && requested == old(requested) + [false]
      ensures table == old(table)[id := token] && count == old(count) + 1
    {
      token := |requested|;
      requested := requested + [false];
      table := table[id := token];
      count := count + 1;
    }

    method Done(id: bytes)
      requires Valid()
      modifies this
      ensures Valid() && requested == old(requested)
      ensures table == old(table) - {id} && count == old(count) - 1
    {
      table := table - {id};
      count := count - 1;
    }

    method Cancel(id: bytes) returns (found: bool)
      requires Valid()
      modifies this
      ensures Valid() && table == old(table) && count == old(count) && found == (id in table)
      ensures requested == if found then old(requested)[table[id] := true] else old(requested)
    {
      found := id in table;
      if found {
        requested := requested[table[id] := true];
      }
    }

    method CancelAll()
      requires Valid()
      modifies this
      ensures Valid() && table == old(table) && count == old(count) && |requested| == |old(requested)|
      ensures forall k :: 0 <= k < |requested| ==>
          requested[k] == (old(requested)[k] || exists id :: id in table && table[id] == k)
    {
      var ids := table.Keys;
      while ids != {}
        invariant ids <= table.Keys && table == old(table) && count == old(count) && |requested| == |old(requested)|
        invariant Valid()
        invariant forall k :: 0 <= k < |requested| ==>
            requested[k] == (old(requested)[k] || exists id :: id in table.Keys - ids && table[id] == k)
        decreases ids
      {
        var id :| id in ids;
        ghost var done := table.Keys - ids;
        assert table.Keys - (ids - {id}) == done + {id};
        requested := requested[table[id] := true];
        ids := ids - {id};
      }
      assert table.Keys - ids == table.Keys;
    }

    /** Whether the wait for idleness succeeds. */
    method Drained() returns (ok: bool)
      ensures ok == (count == 0)
    {
      ok := count == 0;
    }
  }

  // ---- every run ----

  /** A worker, with the place of its command among those accepted. */
  datatype Worker = Worker(id: bytes, started: nat, running: bool, cancelled: bool)

  /** `accepted` and `workers` are the whole history; worker k holds token k. */
  datatype State = State(order: seq<bytes>, table: map<bytes, nat>, count: int, accepted: seq<bytes>, workers: seq<Worker>)

  datatype Event = Send(id: bytes, valid: bool) | Cancel(id: bytes) | CancelAll | Finish(k: nat)

  function Start(): State {
    State([], map[], 0, [], [])
  }

  predicate Allowed(st: State, e: Event) {
    e.Finish? ==> e.k < |st.workers| && st.workers[e.k].running
  }

  function Flagged(workers: seq<Worker>, tokens: set<nat>): seq<Worker> {
    seq(|workers|, k requires 0 <= k < |workers| =>
      if k in tokens then workers[k].(cancelled := true) else workers[k])
  }

  /** A repeated delivery is only acknowledged; a malformed payload is remembered but starts nothing. */
  function Step(st: State, e: Event): State
    requires Allowed(st, e)
  {
    match e
    case Send(id, valid) =>
      if id in st.order then st
      else
        var st1 := st.(order := Remembered(st.order, id), accepted := st.accepted + [id]);
        if !valid then st1
        else
          st1.(table := st.table[id := |st.workers|], count := st.count + 1,
               workers := st.workers + [Worker(id, |st.accepted|, true, false)])
    case Cancel(id) =>
      if id in st.table then st.(workers := Flagged(st.workers, {st.table[id]})) else st
    case CancelAll => st.(workers := Flagged(st.workers, st.table.Values))
    case Finish(k) =>
      st.(table := st.table - {st.workers[k].id}, count := st.count - 1,
          workers := st.workers[k := st.workers[k].(running := false)])
  }

  predicate Legal(st: State, events: seq<Event>)
    decreases |events|
  {
    events == [] || (Allowed(st, events[0]) && Legal(Step(st, events[0]), events[1..]))
  }

  function After(st: State, events: seq<Event>): State
    requires Legal(st, events)
    decreases |events|
  {
    if events == [] then st else After(Step(st, events[0]), events[1..])
  }

  function Running(workers: seq<Worker>): nat {
    if workers == [] then 0 else Running(workers[..|workers| - 1]) + if workers[|workers| - 1].running then 1 else 0
  }

  function LastOf(s: seq<bytes>, n: nat): seq<bytes> {
    if |s| <= n then s else s[|s| - n..]
  }

  // ---- at most once ----

  ghost predicate Sound(st: State) {
    && st.order == LastOf(st.accepted, 512)
    && (forall i, j :: 0 <= i < j < |st.accepted| && st.accepted[i] == st.accepted[j] ==> j - i > 512)
    && st.count == Running(st.workers)
    && (forall k :: 0 <= k < |st.workers| ==> st.workers[k].started < |st.accepted|)
    && (forall k :: 0 <= k < |st.workers| ==> st.accepted[st.workers[k].started] == st.workers[k].id)
  }

  lemma {:induction false} RunningUpdate(workers: seq<Worker>, k: nat, w: Worker)
    requires k < |workers|
    ensures Running(workers[k := w])
         == Running(workers) + (if w.running then 1 else 0) - (if workers[k].running then 1 else 0)
  {
    var init := workers[..|workers| - 1];
    if k < |init| {
      assert workers[k := w][..|workers| - 1] == init[k := w];
      RunningUpdate(init, k, w);
    } else {
      assert workers[k := w][..|workers| - 1] == init;
    }
  }

  lemma {:induction false} RunningFlagged(workers: seq<Worker>, tokens: set<nat>)
    ensures Running(Flagged(workers, tokens)) == Running(workers)
  {
    if workers != [] {
      var init := workers[..|workers| - 1];
      assert Flagged(workers, tokens)[..|workers| - 1] == Flagged(init, tokens);
      RunningFlagged(init, tokens);
    }
  }

  lemma SendIsSound(st: State, id: bytes, valid: bool)
    requires Sound(st) && id !in st.order
    ensures Sound(Step(st, Send(id, valid)))
  {
    hide Running;
    var st' := Step(st, Send(id, valid));
    var n := |st.accepted|;
    forall i | Max(0, n - DEDUP_HISTORY) <= i < n ensures st.accepted[i] != id {
      assert st.order[i - Max(0, n - DEDUP_HISTORY)] == st.accepted[i];
    }
    assert st'.order == LastOf(st'.accepted, DEDUP_HISTORY);
    RunningAppend(st.workers, Worker(id, |st.accepted|, true, false));
  }

  /** A delivery is remembered whether or not its payload is good, and a repeated one changes nothing. */
  lemma SendRemembers(st: State, id: bytes, valid: bool)
    requires Sound(st)
    ensures var st' := Step(st, Send(id, valid));
      && id in st'.order
      && (id in st.order ==> st' == st)
      && (id !in st.order ==> st'.order == LastOf(st.order + [id], 512) && st'.accepted == st.accepted + [id])
      && (id !in st.order && !valid ==> st'.workers == st.workers && st'.table == st.table && st'.count == st.count)
      && (id !in st.order && valid ==>
            st'.workers == st.workers + [Worker(id, |st.accepted|, true, false)] && id in st'.table
            && st'.table[id] == |st.workers|)
  {
    var st' := Step(st, Send(id, valid));
    if id !in st.order {
      assert st'.order[|st'.order| - 1] == id;
    }
  }

  lemma RunningAppend(workers: seq<Worker>, w: Worker)
    ensures Running(workers + [w]) == Running(workers) + if w.running then 1 else 0
  {
    assert (workers + [w])[..|workers|] == workers;
  }

  lemma FlaggingIsSound(st: State, tokens: set<nat>)
    requires Sound(st)
    ensures Sound(st.(workers := Flagged(st.workers, tokens)))
  {
    hide Running, LastOf;
    RunningFlagged(st.workers, tokens);
  }

  lemma FinishIsSound(st: State, k: nat)
    requires Sound(st) && Allowed(st, Finish(k))
    ensures Sound(Step(st, Finish(k)))
  {
    hide Running, LastOf;
    RunningUpdate(st.workers, k, st.workers[k].(running := false));
  }

  lemma StepIsSound(st: State, e: Event)
    requires Sound(st) && Allowed(st, e)
    ensures Sound(Step(st, e))
  {
    hide Sound, Flagged, Remembered;
    match e
    case Send(id, valid) => if id !in st.order { SendIsSound(st, id, valid); }
    case Cancel(id) => if id in st.table { FlaggingIsSound(st, {st.table[id]}); }
    case CancelAll => FlaggingIsSound(st, st.table.Values);
    case Finish(k) => FinishIsSound(st, k);
  }

  /** In every reachable state: the ids remembered are the last 512 accepted; a command is accepted again only after 512
      newer ones; and the count, on which shutdown waits, is the number of running workers. */
  lemma {:induction false} EveryRunIsSound(st: State, events: seq<Event>)
    requires Sound(st) && Legal(st, events)
    ensures Sound(After(st, events))
    decreases |events|
  {
    hide Sound, Step, Allowed;
    if events != [] {
      StepIsSound(st, events[0]);
      EveryRunIsSound(Step(st, events[0]), events[1..]);
    }
  }

  lemma {:induction false} NoneRunning(workers: seq<Worker>)
    ensures Running(workers) == 0 <==> forall k :: 0 <= k < |workers| ==> !workers[k].running
  {
    if workers != [] {
      var init := workers[..|workers| - 1];
      NoneRunning(init);
      assert forall k :: 0 <= k < |init| ==> init[k] == workers[k];
    }
  }

  /** `drain` succeeds exactly when no worker is running. */
  lemma DrainMeansIdle(events: seq<Event>)
    requires Legal(Start(), events)
    ensures var st := After(Start(), events);
      st.count == 0 <==> forall k :: 0 <= k < |st.workers| ==> !st.workers[k].running
  {
    hide After, Legal;
    StartIsSound();
    EveryRunIsSound(Start(), events);
    hide Start;
    NoneRunning(After(Start(), events).workers);
  }

  lemma StartIsSound()
    ensures Sound(Start())
  {}

  // ---- which worker a cancel reaches ----

  predicate Runs(st: State, k: nat, id: bytes)
    requires k < |st.workers|
  {
    st.workers[k].running && st.workers[k].id == id
  }

  /** At most one worker runs the command. */
  ghost predicate ApartFor(st: State, id: bytes) {
    forall i, j :: 0 <= i < j < |st.workers| ==> !(Runs(st, i, id) && Runs(st, j, id))
  }

  /** The table holds the token of the worker that runs the command, and none when there is no such worker. */
  ghost predicate ExactFor(st: State, id: bytes) {
    && (id in st.table ==> st.table[id] < |st.workers| && Runs(st, st.table[id], id))
    && (forall k :: 0 <= k < |st.workers| && Runs(st, k, id) ==> id in st.table && st.table[id] == k)
  }

  lemma ExactNeedsApart(st: State, id: bytes)
    requires ExactFor(st, id)
    ensures ApartFor(st, id)
  {}

  /** Once exact for a command, the table stays exact for it across a step exactly when no second worker comes to run it;
      what becomes of other commands does not matter. */
  lemma StepStaysExact(st: State, e: Event, id: bytes)
    requires ExactFor(st, id) && Allowed(st, e)
    ensures ExactFor(Step(st, e), id) <==> ApartFor(Step(st, e), id)
  {
    if e.Finish? {
      FinishStaysExact(st, e.k, id);
    } else if e == Send(id, true) && id !in st.order {
      SendStaysExact(st, id);
    } else {
      OthersStayExact(st, e, id);
    }
    hide Step, Allowed;
    if ExactFor(Step(st, e), id) {
      ExactNeedsApart(Step(st, e), id);
    }
  }

  /** Nothing else touches the command's workers or its place in the table. */
  lemma OthersStayExact(st: State, e: Event, id: bytes)
    requires ExactFor(st, id) && !e.Finish? && !(e == Send(id, true) && id !in st.order)
    ensures ExactFor(Step(st, e), id)
  {
    hide Remembered;
    var st' := Step(st, e);
    assert forall k :: 0 <= k < |st.workers| ==> Runs(st', k, id) == Runs(st, k, id);
    if e.Send? && e.valid && e.id !in st.order {
      assert st'.workers[|st.workers|].id == e.id;
    }
  }

  lemma SendStaysExact(st: State, id: bytes)
    requires ExactFor(st, id) && id !in st.order
    ensures ExactFor(Step(st, Send(id, true)), id) <==> ApartFor(Step(st, Send(id, true)), id)
    ensures (forall k :: 0 <= k < |st.workers| ==> !Runs(st, k, id)) ==> ExactFor(Step(st, Send(id, true)), id)
  {
    hide Remembered;
    var st' := Step(st, Send(id, true));
    assert forall k :: 0 <= k < |st.workers| ==> Runs(st', k, id) == Runs(st, k, id);
    assert Runs(st', |st.workers|, id);
    if ApartFor(st', id) {
      forall k | 0 <= k < |st.workers| ensures !Runs(st, k, id) {
        assert !Runs(st', k, id);
      }
    }
  }

  lemma FinishStaysExact(st: State, k: nat, id: bytes)
    requires ExactFor(st, id) && Allowed(st, Finish(k))
    ensures ExactFor(Step(st, Finish(k)), id)
  {
    var st' := Step(st, Finish(k));
    assert forall i :: 0 <= i < |st.workers| && i != k ==> Runs(st', i, id) == Runs(st, i, id);
    assert !Runs(st', k, id);
    if st.workers[k].id == id {
      assert Runs(st, k, id);
    } else {
      assert !Runs(st, k, id);
    }
  }

  /** Exact, or with one worker at most, in every state of a run. */
  ghost predicate AlwaysExactFor(st: State, events: seq<Event>, id: bytes)
    requires Legal(st, events)
    decreases |events|
  {
    ExactFor(st, id) && (events == [] || AlwaysExactFor(Step(st, events[0]), events[1..], id))
  }

  ghost predicate AlwaysApartFor(st: State, events: seq<Event>, id: bytes)
    requires Legal(st, events)
    decreases |events|
  {
    ApartFor(st, id) && (events == [] || AlwaysApartFor(Step(st, events[0]), events[1..], id))
  }

  /** Over whole runs, command by command: the table is exact for it in every state if and only if no two workers ever run
      it at the same time. */
  lemma {:induction false} RunStaysExact(st: State, events: seq<Event>, id: bytes)
    requires Legal(st, events) && ExactFor(st, id)
    ensures AlwaysExactFor(st, events, id) <==> AlwaysApartFor(st, events, id)
    decreases |events|
  {
    hide ExactFor, ApartFor, Step, Allowed;
    ExactNeedsApart(st, id);
    if events != [] {
      StepStaysExact(st, events[0], id);
      if ExactFor(Step(st, events[0]), id) {
        RunStaysExact(Step(st, events[0]), events[1..], id);
      }
    }
  }

  /** Every worker that runs the command does so while its command is among the ids remembered. */
  ghost predicate Timely(st: State, id: bytes) {
    forall k :: 0 <= k < |st.workers| && Runs(st, k, id) ==> |st.accepted| - st.workers[k].started <= DEDUP_HISTORY
  }

  lemma TimelyAreRemembered(st: State, k: nat, id: bytes)
    requires Sound(st) && Timely(st, id) && k < |st.workers| && Runs(st, k, id)
    ensures id in st.order
  {
    hide Running;
    var w := st.workers[k];
    var n := |st.accepted|;
    assert st.order[if n <= DEDUP_HISTORY then w.started else w.started - (n - DEDUP_HISTORY)] == w.id;
  }

  lemma TimelyStepStaysExact(st: State, e: Event, id: bytes)
    requires Sound(st) && ExactFor(st, id) && Timely(st, id) && Allowed(st, e)
    ensures ExactFor(Step(st, e), id)
  {
    hide Sound, Timely, ExactFor;
    if e.Finish? {
      FinishStaysExact(st, e.k, id);
    } else if e == Send(id, true) && id !in st.order {
      NoneRuns(st, id);
      SendStaysExact(st, id);
    } else {
      OthersStayExact(st, e, id);
    }
  }

  /** A command that is forgotten has no timely worker left. */
  lemma NoneRuns(st: State, id: bytes)
    requires Sound(st) && Timely(st, id) && id !in st.order
    ensures forall k :: 0 <= k < |st.workers| ==> !Runs(st, k, id)
  {
    hide Sound, Timely;
    forall k | 0 <= k < |st.workers| ensures Runs(st, k, id) ==> id in st.order {
      if Runs(st, k, id) {
        TimelyAreRemembered(st, k, id);
      }
    }
  }

  ghost predicate AlwaysTimely(st: State, events: seq<Event>, id: bytes)
    requires Legal(st, events)
    decreases |events|
  {
    Timely(st, id) && (events == [] || AlwaysTimely(Step(st, events[0]), events[1..], id))
  }

  /** While the workers of a command finish within its memory, the table is exact for it, whatever other commands do. */
  lemma {:induction false} TimelyRunStaysExact(st: State, events: seq<Event>, id: bytes)
    requires Sound(st) && ExactFor(st, id) && Legal(st, events) && AlwaysTimely(st, events, id)
    ensures AlwaysExactFor(st, events, id)
    decreases |events|
  {
    hide Sound, ExactFor, Timely, Step, Allowed;
    if events != [] {
      StepIsSound(st, events[0]);
      TimelyStepStaysExact(st, events[0], id);
      TimelyRunStaysExact(Step(st, events[0]), events[1..], id);
    }
  }

  /** A cancel then finds the command exactly when a worker is running it, and flags that worker alone. */
  lemma CancelReachesItsWorker(st: State, id: bytes, k: nat)
    requires ExactFor(st, id) && k < |st.workers|
    ensures id in st.table <==> exists i :: 0 <= i < |st.workers| && Runs(st, i, id)
    ensures var w := st.workers[k];
      Step(st, Cancel(id)).workers[k] == if Runs(st, k, id) then w.(cancelled := true) else w
  {}

  /** And a shutdown flags every running worker and no other. */
  lemma CancelAllReachesEveryWorker(st: State, k: nat)
    requires (forall id :: ExactFor(st, id)) && k < |st.workers|
    ensures var w, w' := st.workers[k], Step(st, CancelAll).workers[k];
      w' == if w.running then w.(cancelled := true) else w
  {
    var id := st.workers[k].id;
    assert ExactFor(st, id);
    forall other | other in st.table ensures st.table[other] < |st.workers| && Runs(st, st.table[other], other) {
      assert ExactFor(st, other);
    }
    if st.workers[k].running {
      assert Runs(st, k, id) && st.table[id] in st.table.Values;
    }
  }

  /** A worker that does outlive it: once its command is accepted again and the older worker finishes, the newer one
      runs on and no cancel can find it. */
  lemma OutlivedWorkerHidesTheNext(st: State, k: nat)
    requires k < |st.workers| && st.workers[k].running && st.workers[k].id !in st.order
    ensures var id := st.workers[k].id;
      var st1 := Step(st, Send(id, true));
      && Allowed(st1, Finish(k))
      && var st2 := Step(st1, Finish(k));
      && st2.workers[|st.workers|].running && st2.workers[|st.workers|].id == id
      && id !in st2.table && Step(st2, Cancel(id)) == st2
  {}

  // ---- such a worker exists ----

  /** Commands after the first: all different, none of them runnable. */
  function FillerIds(n: nat): seq<bytes> {
    seq(n, i requires 0 <= i < n => Fill(i + 2, 0))
  }

  /** The first command still running after `n` more have come in. */
  function Filled(n: nat): State {
    var accepted := [[0]] + FillerIds(n);
    State(LastOf(accepted, DEDUP_HISTORY), map[[0] := 0], 1, accepted, [Worker([0], 0, true, false)])
  }

  lemma NextFiller(n: nat)
    ensures Step(Filled(n), Send(Fill(n + 2, 0), false)) == Filled(n + 1)
  {
    var st, id := Filled(n), Fill(n + 2, 0);
    forall i | 0 <= i < |st.accepted| ensures st.accepted[i] != id {
      assert |st.accepted[i]| == i + 1;
    }
    assert id !in st.order;
    assert FillerIds(n + 1) == FillerIds(n) + [id];
    assert Filled(n + 1).accepted == st.accepted + [id];
    assert LastOf(st.accepted + [id], DEDUP_HISTORY) == Remembered(st.order, id);
  }

  lemma {:induction false} AfterAppend(st: State, events: seq<Event>, e: Event)
    requires Legal(st, events) && Allowed(After(st, events), e)
    ensures Legal(st, events + [e]) && After(st, events + [e]) == Step(After(st, events), e)
    decreases |events|
  {
    hide Allowed, Step;
    if events == [] {
      assert [e][1..] == [] && events + [e] == [e];
      assert Legal(Step(st, e), []) && After(Step(st, e), []) == Step(st, e);
    } else {
      assert (events + [e])[1..] == events[1..] + [e];
      AfterAppend(Step(st, events[0]), events[1..], e);
    }
  }

  lemma {:induction false} FilledIsReachable(n: nat) returns (events: seq<Event>)
    ensures Legal(Start(), events) && After(Start(), events) == Filled(n)
  {
    if n == 0 {
      events := [];
      AfterAppend(Start(), [], Send([0], true));
      assert [] + [Send([0], true)] == [Send([0], true)];
      events := [Send([0], true)];
      assert FillerIds(0) == [] && [[0]] + FillerIds(0) == [[0]];
    } else {
      var before := FilledIsReachable(n - 1);
      hide Filled, Start, Step, Legal, After;
      NextFiller(n - 1);
      AfterAppend(Start(), before, Send(Fill(n + 1, 0), false));
      events := before + [Send(Fill(n + 1, 0), false)];
    }
  }

  /** After 512 newer commands a worker that is still running has been forgotten. */
  lemma OutlivedWorkerIsReachable() returns (events: seq<Event>)
    ensures Legal(Start(), events)
    ensures var st := After(Start(), events);
      (forall id :: ExactFor(st, id)) && |st.workers| == 1 && st.workers[0].running && st.workers[0].id !in st.order
  {
    events := FilledIsReachable(DEDUP_HISTORY);
    hide Legal, After;
    var st := Filled(DEDUP_HISTORY);
    assert st.order == FillerIds(DEDUP_HISTORY);
    forall i | 0 <= i < DEDUP_HISTORY ensures st.order[i] != [0] {
      assert |st.order[i]| == i + 2;
    }
  }

  // ---- the agent ----

  class Agent {
    const seen: SeenCommands
    const inflight: InFlight
    ghost var accepted: seq<bytes>
    ghost var workers: seq<Worker>

    ghost predicate Valid()
      reads this, seen, inflight
    {
      && seen.Valid() && |seen.order| <= DEDUP_HISTORY && inflight.Valid()
      && |inflight.requested| == |workers|
      && forall k :: 0 <= k < |workers| ==> inflight.requested[k] == workers[k].cancelled
    }

    ghost function View(): State
      reads this, seen, inflight
    {
      State(seen.order, inflight.table, inflight.count, accepted, workers)
    }

    constructor ()
      ensures Valid() && View() == Start() && fresh(seen) && fresh(inflight)
    {
      seen := new SeenCommands();
      inflight := new InFlight();
      accepted, workers := [], [];
    }

    /** Remember the command before running it, so that a redelivery cannot start a second copy. */
    method HandleSendCommand(id: bytes, valid: bool) returns (token: Option<nat>)
      requires Valid()
      modifies this, seen, inflight
      ensures Valid() && View() == Step(old(View()), Send(id, valid))
      ensures token.Some? == (id !in old(seen.order) && valid)
      ensures token.Some? ==> token.value == |old(workers)|
    {
      token := None;
      var known := seen.Seen(id);
      if known {
        return;
      }
      seen.Add(id);
      accepted := accepted + [id];
      if !valid {
        return;
      }
      var t := inflight.Add(id);
      workers := workers + [Worker(id, |accepted| - 1, true, false)];
      token := Some(t);
    }

    method HandleCancelCommand(id: bytes) returns (found: bool)
      requires Valid()
      modifies this, inflight
      ensures Valid() && View() == Step(old(View()), Cancel(id)) && found == (id in old(inflight.table))
    {
      found := inflight.Cancel(id);
      if found {
        workers := Flagged(workers, {inflight.table[id]});
      }
    }

    /** A worker's last act. */
    method WorkerFinished(ghost k: nat, id: bytes)
      requires Valid() && Allowed(View(), Finish(k)) && workers[k].id == id
      modifies this, inflight
      ensures Valid() && View() == Step(old(View()), Finish(k))
    {
      inflight.Done(id);
      workers := workers[k := workers[k].(running := false)];
    }

    method CancelEverything()
      requires Valid()
      modifies this, inflight
      ensures Valid() && View() == Step(old(View()), CancelAll)
    {
      inflight.CancelAll();
      workers := Flagged(workers, inflight.table.Values);
    }
  }
}
