/** Supervising a child process: capture of its two output streams, and the escalation from SIGTERM to SIGKILL. */
module Exec {
  import opened Bytes

  const GRACE_MS := 5000
  const MARKER := Ascii("\n--output truncated--")

  // ---- what the world answers ----

  type chunk = c: bytes | c != [] witness [0]

  /** One read of a pipe that poll reported. */
  datatype Read = Got(data: chunk) | Again | Ended

  /** One pass of the loop: which pipes were ready and what reading them gave, the clock afterwards, and whether a
      cancel was pending. A script that runs out of passes ends in a failed poll. */
  datatype Pass = Pass(out: Option<Read>, err: Option<Read>, now: int, cancel: bool)

  datatype Signal = Term(at: int) | Kill(at: int)

  /** One captured stream; `seen` is everything ever read from it and `closes` how often its read end was closed. */
  datatype Stream = Stream(captured: bytes, clipped: bool, open: bool, seen: bytes, closes: nat)

  datatype State = State(out: Stream, err: Stream, signals: seq<Signal>, killAt: int, cancelled: bool, timedOut: bool)

  function Fresh(): Stream {
    Stream([], false, true, [], 0)
  }

  // ---- one pass ----

  function Take(s: Stream, max: nat, read: Option<Read>): Stream {
    if !s.open || read.None? then s
    else
      match read.value
      case Again => s
      case Ended => s.(open := false, closes := s.closes + 1)
      case Got(data) =>
        var room := Max(0, max - |s.captured|);
        s.(captured := s.captured + data[..Min(room, |data|)], clipped := s.clipped || |data| > room, seen := s.seen + data)
  }

  /** The first SIGTERM, on a cancel or at the deadline; then SIGKILL once the grace period is over, which ends the loop. */
  function Escalate(st: State, deadline: int, now: int, cancel: bool): (State, bool) {
    if st.signals == [] && (cancel || now >= deadline) then
      (st.(signals := [Term(now)], killAt := now + GRACE_MS, cancelled := cancel, timedOut := !cancel), true)
    else if |st.signals| == 1 && now >= st.killAt then (st.(signals := st.signals + [Kill(now)]), false)
    else (st, true)
  }

  function OnePass(st: State, max: nat, deadline: int, p: Pass): (State, bool) {
    Escalate(st.(out := Take(st.out, max, p.out), err := Take(st.err, max, p.err)), deadline, p.now, p.cancel)
  }

  function Loop(st: State, max: nat, deadline: int, passes: seq<Pass>): State
    decreases |passes|
  {
    if (!st.out.open && !st.err.open) || passes == [] then st
    else
      var (st1, again) := OnePass(st, max, deadline, passes[0]);
      if again then Loop(st1, max, deadline, passes[1..]) else st1
  }

  function Closed(s: Stream): Stream {
    if s.open then s.(open := false, closes := s.closes + 1) else s
  }

  function Marked(s: Stream): bytes {
    if s.clipped then s.captured + MARKER else s.captured
  }

  /** The state when the loop and the closing after it are done. */
  function Supervise(max: nat, deadline: int, passes: seq<Pass>): State {
    var st := Loop(State(Fresh(), Fresh(), [], 0, false, false), max, deadline, passes);
    st.(out := Closed(st.out), err := Closed(st.err))
  }

  // ---- what every run keeps ----

  /** Exactly the first `max` bytes are kept, and the stream counts as clipped exactly when there were more. */
  ghost predicate Kept(s: Stream, max: nat) {
    && s.captured == s.seen[..Min(|s.seen|, max)]
    && (s.clipped <==> |s.seen| > max)
    && s.closes == (if s.open then 0 else 1)
  }

  /** At most a SIGTERM and then a SIGKILL a grace period later; the SIGTERM has one reason. */
  ghost predicate Orderly(st: State, deadline: int) {
    && |st.signals| <= 2
    && (|st.signals| >= 1 ==> st.signals[0].Term? && st.killAt == st.signals[0].at + 5000)
    && (|st.signals| == 2 ==> st.signals[1].Kill? && st.signals[1].at >= st.killAt)
    && !(st.cancelled && st.timedOut)
    && (st.cancelled || st.timedOut <==> |st.signals| >= 1)
    && (st.timedOut ==> st.signals[0].at >= deadline)
  }

  ghost predicate Sound(st: State, max: nat, deadline: int) {
    Kept(st.out, max) && Kept(st.err, max) && Orderly(st, deadline)
  }

  lemma TakeKeeps(s: Stream, max: nat, read: Option<Read>)
    requires Kept(s, max)
    ensures Kept(Take(s, max, read), max)
  {
    if s.open && read.Some? && read.value.Got? {
      var data := read.value.data;
      var room := Max(0, max - |s.captured|);
      if |s.seen| <= max {
        assert s.seen[..|s.seen|] == s.seen;
        assert (s.seen + data)[..Min(|s.seen + data|, max)] == s.seen + data[..Min(room, |data|)];
      } else {
        assert (s.seen + data)[..max] == s.seen[..max];
        assert data[..0] == [];
      }
    }
  }

  lemma PassIsSound(st: State, max: nat, deadline: int, p: Pass)
    requires Sound(st, max, deadline)
    ensures Sound(OnePass(st, max, deadline, p).0, max, deadline)
  {
    TakeKeeps(st.out, max, p.out);
    TakeKeeps(st.err, max, p.err);
    hide Kept, Take;
  }

  lemma {:induction false} LoopIsSound(st: State, max: nat, deadline: int, passes: seq<Pass>)
    requires Sound(st, max, deadline)
    ensures Sound(Loop(st, max, deadline, passes), max, deadline)
    decreases |passes|
  {
    hide Sound, OnePass;
    if (st.out.open || st.err.open) && passes != [] {
      PassIsSound(st, max, deadline, passes[0]);
      LoopIsSound(OnePass(st, max, deadline, passes[0]).0, max, deadline, passes[1..]);
    }
  }

  /** For every interleaving of reads, clock readings and cancels: each stream reported is the first `max` bytes read, with
      the marker exactly when more were read; at most one SIGTERM is sent, then at most one SIGKILL no sooner than the
      grace period; a run is not both cancelled and timed out; and each read end is closed exactly once. */
  lemma EveryRunIsSound(max: nat, deadline: int, passes: seq<Pass>)
    ensures var st := Supervise(max, deadline, passes);
      && Marked(st.out) == st.out.seen[..Min(|st.out.seen|, max)] + (if |st.out.seen| > max then MARKER else [])
      && Marked(st.err) == st.err.seen[..Min(|st.err.seen|, max)] + (if |st.err.seen| > max then MARKER else [])
      && st.out.closes == st.err.closes == 1
      && Orderly(st, deadline)
  {
    var start := State(Fresh(), Fresh(), [], 0, false, false);
    assert Sound(start, max, deadline);
    LoopIsSound(start, max, deadline, passes);
    var st := Supervise(max, deadline, passes);
    hide Loop, Orderly;
    assert st.out.captured + [] == st.out.captured && st.err.captured + [] == st.err.captured;
  }

  // ---- everything that was readable is read ----

  /** What the passes offer on one stream until it ends. */
  function Offered(rs: seq<Option<Read>>): bytes {
    if rs == [] || (rs[0].Some? && rs[0].value.Ended?) then []
    else (if rs[0].Some? && rs[0].value.Got? then rs[0].value.data else []) + Offered(rs[1..])
  }

  /** The standard output or the standard error. */
  datatype Which = Out | Err

  function Part(st: State, which: Which): Stream {
    if which.Out? then st.out else st.err
  }

  function ReadOf(p: Pass, which: Which): Option<Read> {
    if which.Out? then p.out else p.err
  }

  function Reads(passes: seq<Pass>, which: Which): seq<Option<Read>> {
    if passes == [] then [] else [ReadOf(passes[0], which)] + Reads(passes[1..], which)
  }

  /** What the world still holds for a stream that is open, nothing for one that is closed. */
  function Coming(s: Stream, offered: bytes): bytes {
    if s.open then offered else []
  }

  lemma PassParts(st: State, max: nat, deadline: int, p: Pass, which: Which)
    requires |st.signals| <= 1
    ensures var (st', again) := OnePass(st, max, deadline, p);
      && Part(st', which) == Take(Part(st, which), max, ReadOf(p, which))
      && (if again then |st'.signals| <= 1 else |st'.signals| == 2)
  {
    hide Take;
  }

  /** Of each stream the loop reads a prefix of what is offered, and without a SIGKILL all of it, clipped or not. */
  lemma {:induction false} LoopReadsEverything(st: State, max: nat, deadline: int, passes: seq<Pass>, which: Which)
    requires |st.signals| <= 1
    ensures var st' := Loop(st, max, deadline, passes);
      var all := Part(st, which).seen + Coming(Part(st, which), Offered(Reads(passes, which)));
      && Part(st', which).seen <= all
      && (|st'.signals| < 2 ==> Part(st', which).seen == all)
    decreases |passes|
  {
    hide Take, OnePass, Offered;
    if (!st.out.open && !st.err.open) || passes == [] {
      NothingOffered();
    } else {
      var p := passes[0];
      var (st1, again) := OnePass(st, max, deadline, p);
      PassParts(st, max, deadline, p, which);
      TakeAdvances(Part(st, which), max, Reads(passes, which));
      assert Reads(passes, which)[1..] == Reads(passes[1..], which);
      hide Coming, Part;
      if again {
        LoopReadsEverything(st1, max, deadline, passes[1..], which);
      }
    }
  }

  lemma NothingOffered()
    ensures Offered([]) == []
  {}

  lemma TakeAdvances(s: Stream, max: nat, rs: seq<Option<Read>>)
    requires rs != []
    ensures Take(s, max, rs[0]).seen + Coming(Take(s, max, rs[0]), Offered(rs[1..])) == s.seen + Coming(s, Offered(rs))
  {
    hide Max, Min;
    var offered := Offered(rs[1..]);
    if s.open && rs[0].Some? && rs[0].value.Got? {
      assert (s.seen + rs[0].value.data) + offered == s.seen + (rs[0].value.data + offered);
    }
    hide Offered;
    assert [] + offered == offered;
  }

  // ---- signals come when they are due ----

  /** What the passes call for: a SIGTERM at the first cancel or at the deadline, and a SIGKILL once the grace is over. */
  function SignalsDue(passes: seq<Pass>, deadline: int): seq<Signal> {
    if passes == [] then []
    else if passes[0].cancel || passes[0].now >= deadline then
      [Term(passes[0].now)] + KillDue(passes[1..], passes[0].now + 5000)
    else SignalsDue(passes[1..], deadline)
  }

  function KillDue(passes: seq<Pass>, at: int): seq<Signal> {
    if passes == [] then [] else if passes[0].now >= at then [Kill(passes[0].now)] else KillDue(passes[1..], at)
  }

  /** How many passes the loop makes. */
  function Made(st: State, max: nat, deadline: int, passes: seq<Pass>): (n: nat)
    ensures n <= |passes|
    decreases |passes|
  {
    if (!st.out.open && !st.err.open) || passes == [] then 0
    else
      var (st1, again) := OnePass(st, max, deadline, passes[0]);
      1 + if again then Made(st1, max, deadline, passes[1..]) else 0
  }

  /** The loop sends exactly the signals its passes call for, and makes them all unless both streams end or it kills. */
  lemma {:induction false} SignalsComeWhenDue(st: State, max: nat, deadline: int, passes: seq<Pass>)
    requires |st.signals| <= 1
    ensures var st', n := Loop(st, max, deadline, passes), Made(st, max, deadline, passes);
      && st'.signals == st.signals
                      + (if st.signals == [] then SignalsDue(passes[..n], deadline) else KillDue(passes[..n], st.killAt))
      && (n < |passes| ==> (!st'.out.open && !st'.err.open) || |st'.signals| == 2)
    decreases |passes|
  {
    hide OnePass;
    if (!st.out.open && !st.err.open) || passes == [] {
      assert passes[..0] == [] && st.signals + [] == st.signals;
    } else {
      var p := passes[0];
      var (st1, again) := OnePass(st, max, deadline, p);
      EscalatesWhenDue(st, max, deadline, p);
      var n := Made(st, max, deadline, passes);
      assert passes[..n][0] == p && passes[..n][1..] == passes[1..][..n - 1];
      if again {
        SignalsComeWhenDue(st1, max, deadline, passes[1..]);
        assert [Term(p.now)] + KillDue(passes[..n][1..], p.now + GRACE_MS)
            == [] + ([Term(p.now)] + KillDue(passes[..n][1..], p.now + GRACE_MS));
      }
    }
  }

  /** The first pass that calls for a SIGTERM. */
  function FirstDue(passes: seq<Pass>, deadline: int): Option<Pass> {
    if passes == [] then None
    else if passes[0].cancel || passes[0].now >= deadline then Some(passes[0])
    else FirstDue(passes[1..], deadline)
  }

  /** Its reason is the cancel if there was one in that pass, and the deadline if not. */
  lemma {:induction false} ReasonIsOfTheFirst(st: State, max: nat, deadline: int, passes: seq<Pass>)
    requires st.signals == [] && !st.cancelled && !st.timedOut
    ensures var st', n := Loop(st, max, deadline, passes), Made(st, max, deadline, passes);
      var due := FirstDue(passes[..n], deadline);
      && (st'.cancelled <==> due.Some? && due.value.cancel)
      && (st'.timedOut <==> due.Some? && !due.value.cancel)
    decreases |passes|
  {
    hide OnePass;
    if (!st.out.open && !st.err.open) || passes == [] {
      assert passes[..0] == [];
    } else {
      var p := passes[0];
      var (st1, again) := OnePass(st, max, deadline, p);
      ReasonOfPass(st, max, deadline, p);
      var n := Made(st, max, deadline, passes);
      assert passes[..n][0] == p && passes[..n][1..] == passes[1..][..n - 1];
      if st1.signals == [] {
        ReasonIsOfTheFirst(st1, max, deadline, passes[1..]);
      } else {
        ReasonStays(st1, max, deadline, passes[1..]);
      }
    }
  }

  lemma ReasonOfPass(st: State, max: nat, deadline: int, p: Pass)
    requires st.signals == []
    ensures var (st', again) := OnePass(st, max, deadline, p);
      && again
      && (if p.cancel || p.now >= deadline then
            |st'.signals| == 1 && st'.cancelled == p.cancel && st'.timedOut == !p.cancel
          else st'.signals == [] && st'.cancelled == st.cancelled && st'.timedOut == st.timedOut)
  {
    hide Take;
  }

  /** It does not change afterwards. */
  lemma {:induction false} ReasonStays(st: State, max: nat, deadline: int, passes: seq<Pass>)
    requires st.signals != []
    ensures var st' := Loop(st, max, deadline, passes); st'.cancelled == st.cancelled && st'.timedOut == st.timedOut
    decreases |passes|
  {
    hide Take;
    if (st.out.open || st.err.open) && passes != [] {
      ReasonStays(OnePass(st, max, deadline, passes[0]).0, max, deadline, passes[1..]);
    }
  }

  lemma EscalatesWhenDue(st: State, max: nat, deadline: int, p: Pass)
    requires |st.signals| <= 1
    ensures var (st', again) := OnePass(st, max, deadline, p);
      && (st.signals == [] ==> again)
      && (st.signals == [] && (p.cancel || p.now >= deadline) ==> st'.signals == [Term(p.now)] && st'.killAt == p.now + GRACE_MS)
      && (st.signals == [] && !p.cancel && p.now < deadline ==> st'.signals == [])
      && (st.signals != [] && p.now >= st.killAt ==> !again && st'.signals == st.signals + [Kill(p.now)])
      && (st.signals != [] && p.now < st.killAt ==> again && st'.signals == st.signals && st'.killAt == st.killAt)
  {
    hide Take;
  }

  // ---- the loop itself ----

  /** One read of one ready pipe. */
  method HandleRead(captured: bytes, clipped: bool, max: nat, read: Read, ghost seen: bytes)
    returns (captured': bytes, clipped': bool, open: bool, ghost seen': bytes)
    ensures var s := Take(Stream(captured, clipped, true, seen, 0), max, Some(read));
      && captured' == s.captured && clipped' == s.clipped && open == s.open
      && seen' == s.seen && s.closes == if open then 0 else 1
  {
    captured', clipped', open, seen' := captured, clipped, true, seen;
    match read {
      case Got(data) =>
        seen' := seen + data;
        if |captured| < max {
          var room := max - |captured|;
          captured' := captured + data[..Min(room, |data|)];
          if |data| > room {
            clipped' := true;
          }
        } else {
          assert captured + data[..0] == captured;
          clipped' := true;
        }
      case Again =>
      case Ended => open := false;
    }
  }

  /** The loop over its local variables; the read ends still open after it are closed, and clipped streams marked. */
  method RunShell(max: nat, deadline: int, passes: seq<Pass>)
    returns (stdout: bytes, stderr: bytes, signals: seq<Signal>, cancelled: bool, timedOut: bool)
    ensures var st := Supervise(max, deadline, passes);
      && stdout == Marked(st.out) && stderr == Marked(st.err)
      && signals == st.signals && cancelled == st.cancelled && timedOut == st.timedOut
  {
    hide Take, Loop;
    stdout, stderr, signals, cancelled, timedOut := [], [], [], false, false;
    var outOpen, errOpen, outClipped, errClipped := true, true, false, false;
    var killedTerm, killedKill, killDeadline := false, false, 0;
    ghost var outSeen: bytes, errSeen: bytes := [], [];
    ghost var whole := Loop(State(Fresh(), Fresh(), [], 0, false, false), max, deadline, passes);
    var i := 0;
    assert passes[0..] == passes;
    while (outOpen || errOpen) && i < |passes| && !killedKill
      invariant 0 <= i <= |passes|
      invariant killedTerm == (signals != []) && killedKill == (|signals| == 2) && |signals| <= 2
      invariant !killedTerm ==> !cancelled && !timedOut
      invariant var st := State(Stream(stdout, outClipped, outOpen, outSeen, if outOpen then 0 else 1),
                                Stream(stderr, errClipped, errOpen, errSeen, if errOpen then 0 else 1),
                                signals, killDeadline, cancelled, timedOut);
        whole == if killedKill then st else Loop(st, max, deadline, passes[i..])
      decreases |passes| - i
    {
      var p := passes[i];
      assert passes[i..][0] == p && passes[i..][1..] == passes[i + 1..];
      LoopStep(State(Stream(stdout, outClipped, outOpen, outSeen, if outOpen then 0 else 1),
                     Stream(stderr, errClipped, errOpen, errSeen, if errOpen then 0 else 1),
                     signals, killDeadline, cancelled, timedOut), max, deadline, passes[i..]);
      i := i + 1;
      PassAlone(Stream(stdout, outClipped, outOpen, outSeen, if outOpen then 0 else 1), max, p.out);
      PassAlone(Stream(stderr, errClipped, errOpen, errSeen, if errOpen then 0 else 1), max, p.err);
      if outOpen && p.out.Some? {
        stdout, outClipped, outOpen, outSeen := HandleRead(stdout, outClipped, max, p.out.value, outSeen);
      }
      if errOpen && p.err.Some? {
        stderr, errClipped, errOpen, errSeen := HandleRead(stderr, errClipped, max, p.err.value, errSeen);
      }
      var cancelNow := p.cancel && !killedTerm;
      if cancelNow || (!killedTerm && p.now >= deadline) {
        if cancelNow {
          cancelled := true;
        } else {
          timedOut := true;
        }
        killedTerm := true;
        killDeadline := p.now + GRACE_MS;
        assert signals == [];
        signals := [Term(p.now)];
      } else if killedTerm && !killedKill && p.now >= killDeadline {
        killedKill := true;
        signals := signals + [Kill(p.now)];
      }
    }
    LoopStep(State(Stream(stdout, outClipped, outOpen, outSeen, if outOpen then 0 else 1),
                   Stream(stderr, errClipped, errOpen, errSeen, if errOpen then 0 else 1),
                   signals, killDeadline, cancelled, timedOut), max, deadline, passes[i..]);
    if outClipped {
      stdout := stdout + MARKER;
    }
    if errClipped {
      stderr := stderr + MARKER;
    }
  }

  lemma LoopStep(st: State, max: nat, deadline: int, passes: seq<Pass>)
    ensures Loop(st, max, deadline, passes)
         == if (!st.out.open && !st.err.open) || passes == [] then st
            else
              var (st1, again) := OnePass(st, max, deadline, passes[0]);
              if again then Loop(st1, max, deadline, passes[1..]) else st1
  {
    hide OnePass;
  }

  lemma PassAlone(s: Stream, max: nat, read: Option<Read>)
    ensures !s.open || read.None? ==> Take(s, max, read) == s
  {}
}
