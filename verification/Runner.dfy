/** Reporting a document's outcome: output cut to size, and one status from the results of the steps. */
module Runner {
  import opened Bytes

  // ---- output cut to size ----

  const ERR_TITLE := Ascii("\n----------ERROR-------\n")
  const OUT_MARKER := Ascii("\n---Output truncated---")
  const ERR_MARKER := Ascii("\n---Error truncated----")

  lemma TitleAndMarkers()
    ensures |ERR_TITLE| == 24 && |OUT_MARKER| == 23 && |ERR_MARKER| == 23
  {}

  /** The first n bytes, or all there are. */
  function Substr(s: bytes, n: nat): bytes {
    s[..Min(n, |s|)]
  }

  /** Unsigned 64-bit subtraction. */
  function Minus(a: nat, b: nat): u64 {
    (a - b) % TWO64
  }

  function TruncateOutput(out: bytes, err: bytes, capacity: nat): bytes {
    var title := if err != [] then ERR_TITLE else [];
    var available := Max(0, capacity - |title|);
    if |out| + |err| < available then out + title + err
    else
      var half := available / 2;
      if |out| > half && |err| > half then
        var room := Minus(Minus(available, |ERR_MARKER|), |OUT_MARKER|);
        Substr(out, room / 2) + OUT_MARKER + title + Substr(err, room / 2) + ERR_MARKER
      else if |out| <= half then
        var room := Minus(available, |ERR_MARKER|);
        out + title + Substr(err, Max(0, room - |out|)) + ERR_MARKER
      else
        var room := Minus(available, |OUT_MARKER|);
        Substr(out, Max(0, room - |err|)) + OUT_MARKER + title + err
  }

  /** A prefix of each stream, with its marker exactly when something of it is missing. */
  function Cut(out: bytes, k: nat, err: bytes, j: nat): bytes
    requires k <= |out| && j <= |err|
  {
    out[..k] + (if k < |out| then OUT_MARKER else []) + (if err != [] then ERR_TITLE else [])
    + err[..j] + (if j < |err| then ERR_MARKER else [])
  }

  const SMALLEST := 70

  lemma MinusIsMinus(a: nat, b: nat)
    requires b <= a < TWO64
    ensures Minus(a, b) == a - b
  {}

  lemma MinusWraps(a: nat, b: nat)
    requires a < b <= TWO64
    ensures Minus(a, b) == a - b + TWO64
  {}

  lemma BothCut(out: bytes, err: bytes, available: nat)
    requires 46 <= available < TWO64 && |out| > available / 2 && |err| > available / 2
    ensures var k := (available - 46) / 2;
      && k < |out| && k < |err| && 2 * k + 46 <= available
      && TruncateOutput(out, err, available + 24) == Cut(out, k, err, k)
  {
    TitleAndMarkers();
    hide Minus;
    MinusIsMinus(available, 23);
    MinusIsMinus(available - 23, 23);
  }

  lemma ErrCut(out: bytes, err: bytes, available: nat)
    requires 46 <= available < TWO64 && |out| <= available / 2 && |out| + |err| >= available
    ensures var j := available - 23 - |out|;
      0 <= j < |err| && TruncateOutput(out, err, available + 24) == Cut(out, |out|, err, j)
  {
    TitleAndMarkers();
    hide Minus;
    MinusIsMinus(available, 23);
    assert out[..|out|] == out && out + [] == out;
  }

  lemma OutCut(out: bytes, err: bytes, available: nat, capacity: nat)
    requires 46 <= available < TWO64 && |err| <= available / 2 < |out| && |out| + |err| >= available
    requires capacity == available + if err == [] then 0 else 24
    ensures var k := available - 23 - |err|;
      0 <= k < |out| && TruncateOutput(out, err, capacity) == Cut(out, k, err, |err|)
  {
    TitleAndMarkers();
    hide Minus;
    MinusIsMinus(available, 23);
    assert err[..|err|] == err && err + [] == err;
    assert forall t: bytes {:trigger t + []} :: t + [] == t;
  }

  lemma NoneCut(out: bytes, err: bytes, capacity: nat)
    requires |out| + |err| + (if err == [] then 0 else 24) < capacity
    ensures TruncateOutput(out, err, capacity) == Cut(out, |out|, err, |err|)
  {
    TitleAndMarkers();
    hide Minus;
    assert err[..|err|] == err && out[..|out|] == out && out + [] == out;
    assert forall t: bytes {:trigger t + []} :: t + [] == t;
  }

  lemma CutLength(out: bytes, k: nat, err: bytes, j: nat)
    requires k <= |out| && j <= |err|
    ensures |Cut(out, k, err, j)|
         == k + (if k < |out| then 23 else 0) + (if err == [] then 0 else 24) + j + (if j < |err| then 23 else 0)
  {
    TitleAndMarkers();
  }

  /** With room for the title and both markers: prefixes, markers exactly where something was cut, within capacity. */
  lemma TruncatedAsPromised(out: bytes, err: bytes, capacity: nat) returns (k: nat, j: nat)
    requires SMALLEST <= capacity < TWO64
    ensures k <= |out| && j <= |err| && TruncateOutput(out, err, capacity) == Cut(out, k, err, j)
    ensures |TruncateOutput(out, err, capacity)| <= capacity
    ensures var available := capacity - if err == [] then 0 else 24;
      if |out| + |err| < available then k == |out| && j == |err|
      else
        && |TruncateOutput(out, err, capacity)| >= capacity - 1
        && (|out| <= available / 2 ==> k == |out|) && (|err| <= available / 2 < |out| ==> j == |err|)
        && (|out| > available / 2 && |err| > available / 2 ==> k == j)
  {
    hide TruncateOutput, Cut;
    var available: nat := capacity - if err == [] then 0 else 24;
    k, j := |out|, |err|;
    if |out| + |err| < available {
      NoneCut(out, err, capacity);
    } else if |out| > available / 2 && |err| > available / 2 {
      BothCut(out, err, available);
      k, j := (available - 46) / 2, (available - 46) / 2;
    } else if |out| <= available / 2 {
      ErrCut(out, err, available);
      j := available - 23 - |out|;
    } else {
      OutCut(out, err, available, capacity);
      k := available - 23 - |err|;
    }
    CutLength(out, k, err, j);
  }

  /** Below that, two streams of 100 bytes come back whole and marked: the 64-bit subtraction has wrapped. */
  lemma SmallCapacityOverflows(out: bytes, err: bytes, capacity: nat)
    requires capacity < SMALLEST && 23 <= |out| < 1000 && 23 <= |err| < 1000
    ensures |TruncateOutput(out, err, capacity)| == |out| + |err| + 70
  {
    TitleAndMarkers();
    hide Minus;
    var available: nat := Max(0, capacity - 24);
    if available < 23 {
      MinusWraps(available, 23);
      MinusIsMinus(available - 23 + TWO64, 23);
    } else {
      MinusIsMinus(available, 23);
      MinusWraps(available - 23, 23);
    }
  }

  /** The size bound holds for all streams exactly from 70 bytes of capacity on. */
  lemma BoundHoldsFromSeventy(capacity: nat)
    requires capacity < TWO64
    ensures (forall out: bytes, err: bytes :: |TruncateOutput(out, err, capacity)| <= capacity) <==> capacity >= SMALLEST
  {
    hide TruncateOutput;
    if capacity >= SMALLEST {
      forall out: bytes, err: bytes ensures |TruncateOutput(out, err, capacity)| <= capacity {
        var _, _ := TruncatedAsPromised(out, err, capacity);
      }
    } else {
      SmallCapacityOverflows(Fill(100, 0), Fill(100, 0), capacity);
    }
  }

  // ---- one status from many ----

  datatype Status = Success | Failed | TimedOut | Cancelled | Skipped

  /** What running a script reported. */
  datatype Executed = Executed(exitCode: int, error: string, timedOut: bool, cancelled: bool)

  /** A step: ruled out by its precondition, of a kind that is not supported, without commands, or to be run. */
  datatype Step = Step(plugin: string, excluded: bool, supported: bool, empty: bool, run: Executed)

  datatype StepResult = StepResult(plugin: string, status: Status, code: int)

  function NonZero(code: int): int {
    if code == 0 then 1 else code
  }

  predicate Ran(s: Step) {
    !s.excluded && s.supported && !s.empty
  }

  predicate RanCleanly(s: Step) {
    Ran(s) && s.run == Executed(0, "", false, false)
  }

  /** A cancel outranks an error, an error outranks a timeout, a timeout outranks the exit code; a failure never has
      code 0. */
  function ResultOf(s: Step): (r: StepResult)
    ensures r.plugin == s.plugin
    ensures r.status == Skipped <==> s.excluded
    ensures r.status == Success <==> RanCleanly(s)
    ensures r.status == Cancelled <==> Ran(s) && s.run.cancelled
    ensures r.status == TimedOut <==> Ran(s) && s.run.timedOut && !s.run.cancelled && s.run.error == ""
    ensures Ran(s) && s.run.exitCode != 0 ==> r.code == s.run.exitCode
    ensures !Ran(s) || s.run.exitCode == 0 ==> r.code == if s.excluded || RanCleanly(s) then 0 else 1
  {
    if s.excluded then StepResult(s.plugin, Skipped, 0)
    else if !s.supported || s.empty then StepResult(s.plugin, Failed, 1)
    else if s.run.cancelled then StepResult(s.plugin, Cancelled, NonZero(s.run.exitCode))
    else if s.run.error != "" then StepResult(s.plugin, Failed, NonZero(s.run.exitCode))
    else if s.run.timedOut then StepResult(s.plugin, TimedOut, NonZero(s.run.exitCode))
    else StepResult(s.plugin, if s.run.exitCode == 0 then Success else Failed, s.run.exitCode)
  }

  predicate Fine(status: Status) {
    status == Success || status == Skipped
  }

  /** What the results of a document say about its steps. */
  lemma Concluded(steps: seq<Step>, results: seq<StepResult>)
    requires 0 < |results| <= |steps|
    requires forall i :: 0 <= i < |results| ==> results[i] == ResultOf(steps[i])
    requires forall i :: 0 <= i < |results| - 1 ==> results[i].status != Cancelled
    requires |results| < |steps| ==> results[|results| - 1].status == Cancelled
    ensures (forall i :: 0 <= i < |results| ==> Fine(results[i].status))
       <==> forall i :: 0 <= i < |steps| ==> steps[i].excluded || RanCleanly(steps[i])
    ensures results[|results| - 1].status == Cancelled
       <==> exists i :: 0 <= i < |steps| && Ran(steps[i]) && steps[i].run.cancelled
  {
    var last := |results| - 1;
    assert results[last] == ResultOf(steps[last]);
    forall i | 0 <= i < |results| ensures Fine(results[i].status) <==> steps[i].excluded || RanCleanly(steps[i]) {
      assert results[i] == ResultOf(steps[i]);
    }
    if results[last].status != Cancelled {
      forall i | 0 <= i < |steps| ensures !(Ran(steps[i]) && steps[i].run.cancelled) {
        assert results[i] == ResultOf(steps[i]);
      }
    }
  }

  lemma NotRun(s: Step)
    ensures !Ran(s) ==> ResultOf(s) == if s.excluded then StepResult(s.plugin, Skipped, 0) else StepResult(s.plugin, Failed, 1)
  {}

  /** The result of a step whose script was run. */
  method ReportRun(s: Step) returns (r: StepResult)
    requires Ran(s)
    ensures r == ResultOf(s)
  {
    r := StepResult(s.plugin, Success, s.run.exitCode);
    if s.run.cancelled {
      r := r.(status := Cancelled, code := NonZero(r.code));
    } else if s.run.error != "" {
      r := r.(status := Failed, code := NonZero(r.code));
    } else if s.run.timedOut {
      r := r.(status := TimedOut, code := NonZero(r.code));
    } else if r.code != 0 {
      r := r.(status := Failed);
    }
  }

  /** One result per step, in order, up to the first cancelled one; the document succeeds exactly when every step was
      ruled out or ran cleanly, and is cancelled exactly when a step was. */
  method RunDocument(steps: seq<Step>) returns (status: Status, results: seq<StepResult>)
    ensures steps == [] ==> status == Failed && results == []
    ensures steps != [] ==> 0 < |results| <= |steps|
    ensures forall i :: 0 <= i < |results| ==> results[i] == ResultOf(steps[i])
    ensures forall i :: 0 <= i < |results| - 1 ==> results[i].status != Cancelled
    ensures |results| < |steps| ==> results[|results| - 1].status == Cancelled
    ensures status == Success <==> steps != [] && forall i :: 0 <= i < |steps| ==> steps[i].excluded || RanCleanly(steps[i])
    ensures status == Cancelled <==> exists i :: 0 <= i < |steps| && Ran(steps[i]) && steps[i].run.cancelled
    ensures status == Success || status == Cancelled || status == Failed
  {
    hide ResultOf, RanCleanly;
    status, results := Success, [];
    if steps == [] {
      return Failed, [];
    }
    var i := 0;
    while i < |steps|
      invariant |results| == i <= |steps|
      invariant forall k :: 0 <= k < i ==> results[k] == ResultOf(steps[k]) && results[k].status != Cancelled
      invariant status == if forall k :: 0 <= k < i ==> Fine(results[k].status) then Success else Failed
    {
      var s := steps[i];
      NotRun(s);
      i := i + 1;
      if s.excluded {
        results := results + [StepResult(s.plugin, Skipped, 0)];
        continue;
      }
      if !s.supported || s.empty {
        results := results + [StepResult(s.plugin, Failed, 1)];
        status := Failed;
        assert !Fine(results[i - 1].status);
        continue;
      }
      var r := ReportRun(s);
      if r.status == Cancelled {
        status := Cancelled;
      } else if r.status != Success && status != Cancelled {
        status := Failed;
      }
      results := results + [r];
      assert results[i - 1] == r == ResultOf(s);
      if s.run.cancelled {
        Concluded(steps, results);
        return;
      }
    }
    Concluded(steps, results);
  }
}
