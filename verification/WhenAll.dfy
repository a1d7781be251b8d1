/** `when_all` and its counter: one parent coroutine waiting for any number of tasks on one thread. */
module WhenAll {
  import opened Bytes

  const WORD: nat := 0x1_0000_0000_0000_0000

  datatype Outcome = Value(v: int) | Raised(e: int)

  /** Where the parent is: in its start loop, suspended on the counter, or past it. */
  datatype Phase = Starting | Waiting | Proceeded

  /** `resumed` counts how often the code after `co_await counter` was entered. */
  datatype State = State(started: nat, tasks: seq<Option<Outcome>>, cnt: nat, continuation: bool,
                         phase: Phase, resumed: nat)

  /** Starting one task, a started task running to its end, and the parent reaching `co_await counter`. */
  datatype Step = Start | Finish(i: nat, outcome: Outcome) | Await

  function Init(n: nat): State { State(0, seq(n, _ => None), n, false, Starting, 0) }

  predicate Enabled(s: State, step: Step) {
    match step
    case Start => s.phase.Starting? && s.started < |s.tasks|
    case Finish(i, _) => i < s.started && i < |s.tasks| && s.tasks[i].None?
    case Await => s.phase.Starting? && s.started == |s.tasks|
  }

  /** `notify_complete_one`: the decrement wraps, and the last one resumes whoever is registered. */
  function Notify(s: State): State {
    var s' := s.(cnt := (s.cnt + WORD - 1) % WORD);
    if s.cnt == 1 && s.continuation then s'.(phase := Proceeded, resumed := s.resumed + 1) else s'
  }

  function AwaitCounter(s: State): State {
    if s.cnt == 0 then s.(phase := Proceeded, resumed := s.resumed + 1) else s.(continuation := true, phase := Waiting)
  }

  function Next(s: State, step: Step): State
    requires Enabled(s, step)
  {
    match step
    case Start => s.(started := s.started + 1)
    case Finish(i, outcome) => Notify(s.(tasks := s.tasks[i := Some(outcome)]))
    case Await => AwaitCounter(s)
  }

  function Run(s: State, steps: seq<Step>): State
    decreases |steps|
  {
    if steps == [] then s
    else if Enabled(s, steps[0]) then Run(Next(s, steps[0]), steps[1..])
    else Run(s, steps[1..])
  }

  // The invariant -------------------------------------------------------------------------------------

  function Done(tasks: seq<Option<Outcome>>): (r: nat)
    ensures r <= |tasks|
  {
    if tasks == [] then 0 else (if tasks[0].Some? then 1 else 0) + Done(tasks[1..])
  }

  predicate AllDone(tasks: seq<Option<Outcome>>) { forall i | 0 <= i < |tasks| :: tasks[i].Some? }

  lemma {:induction false} OneMoreDone(tasks: seq<Option<Outcome>>, i: nat, outcome: Outcome)
    requires i < |tasks| && tasks[i].None?
    ensures Done(tasks[i := Some(outcome)]) == Done(tasks) + 1
  {
    if i > 0 {
      assert tasks[i := Some(outcome)][1..] == tasks[1..][i - 1 := Some(outcome)];
      OneMoreDone(tasks[1..], i - 1, outcome);
    }
  }

  lemma {:induction false} FullCount(tasks: seq<Option<Outcome>>)
    ensures Done(tasks) == |tasks| <==> AllDone(tasks)
  {
    if tasks != [] {
      FullCount(tasks[1..]);
      assert AllDone(tasks) ==> AllDone(tasks[1..]);
      assert tasks[0].Some? && AllDone(tasks[1..]) ==> AllDone(tasks) by {
        assert forall i | 1 <= i < |tasks| :: tasks[i] == tasks[1..][i - 1];
      }
    }
  }

  lemma {:induction false} NoneDone(n: nat)
    ensures Done(seq(n, _ => None)) == 0
  {
    if n > 0 {
      assert seq<Option<Outcome>>(n, _ => None)[1..] == seq(n - 1, _ => None);
      NoneDone(n - 1);
    }
  }

  predicate Inv(s: State) {
    && s.started <= |s.tasks| < WORD
    && (forall i | s.started <= i < |s.tasks| :: s.tasks[i].None?)
    && s.cnt == |s.tasks| - Done(s.tasks)
    && match s.phase
       case Starting => !s.continuation && s.resumed == 0
       case Waiting => s.continuation && s.resumed == 0 && s.cnt > 0 && s.started == |s.tasks|
       case Proceeded => s.resumed == 1 && s.cnt == 0 && s.started == |s.tasks|
  }

  lemma NextKeepsInv(s: State, step: Step)
    requires Inv(s) && Enabled(s, step)
    ensures Inv(Next(s, step)) && |Next(s, step).tasks| == |s.tasks|
    ensures Taken(Next(s, step)) == Taken(s) + 1
  {
    if step.Finish? {
      OneMoreDone(s.tasks, step.i, step.outcome);
      FullCount(s.tasks);
    }
  }

  lemma {:induction false} RunKeepsInv(s: State, steps: seq<Step>)
    requires Inv(s)
    ensures Inv(Run(s, steps)) && |Run(s, steps).tasks| == |s.tasks|
    decreases |steps|
  {
    hide Inv, Enabled, Next;
    if steps != [] {
      if Enabled(s, steps[0]) {
        NextKeepsInv(s, steps[0]);
        RunKeepsInv(Next(s, steps[0]), steps[1..]);
      } else {
        RunKeepsInv(s, steps[1..]);
      }
    }
  }

  lemma Reachable(n: nat, steps: seq<Step>)
    requires n < WORD
    ensures var s := Run(Init(n), steps); Inv(s) && |s.tasks| == n
  {
    NoneDone(n);
    RunKeepsInv(Init(n), steps);
  }

  // What every run guarantees -----------------------------------------------------------------------------

  /** The counter is what is left to do, so it never wraps; the parent goes on once at most, after the last task. */
  lemma CountsDown(n: nat, steps: seq<Step>)
    requires n < WORD
    ensures var s := Run(Init(n), steps);
            s.cnt == n - Done(s.tasks) && s.resumed <= 1 && (s.phase.Proceeded? <==> s.resumed == 1)
    ensures var s := Run(Init(n), steps); s.phase.Proceeded? ==> AllDone(s.tasks)
  {
    Reachable(n, steps);
    FullCount(Run(Init(n), steps).tasks);
  }

  /** A parent that is waiting has a task to wait for: the last completion is never missed. */
  lemma NoLostWakeup(n: nat, steps: seq<Step>)
    requires n < WORD
    ensures var s := Run(Init(n), steps); s.phase.Waiting? ==> !AllDone(s.tasks)
  {
    Reachable(n, steps);
    FullCount(Run(Init(n), steps).tasks);
  }

  /** How many steps led here, read off the state. */
  function Taken(s: State): nat { s.started + Done(s.tasks) + if s.phase.Starting? then 0 else 1 }

  /** Every step of the run could be taken. */
  predicate Proper(s: State, steps: seq<Step>)
    decreases |steps|
  {
    steps == [] || (Enabled(s, steps[0]) && Proper(Next(s, steps[0]), steps[1..]))
  }

  lemma {:induction false} StepsCounted(s: State, steps: seq<Step>)
    requires Inv(s) && Proper(s, steps)
    ensures Taken(Run(s, steps)) == Taken(s) + |steps|
    decreases |steps|
  {
    hide Inv, Enabled, Next, Taken;
    if steps != [] {
      NextKeepsInv(s, steps[0]);
      StepsCounted(Next(s, steps[0]), steps[1..]);
    }
  }

  /** Whatever the order, 2n + 1 steps are all there are, and the parent has gone on exactly when they are spent. */
  lemma EveryRunEnds(n: nat, steps: seq<Step>)
    requires n < WORD && Proper(Init(n), steps)
    ensures |steps| <= 2 * n + 1
    ensures Run(Init(n), steps).phase.Proceeded? <==> |steps| == 2 * n + 1
  {
    var s := Run(Init(n), steps);
    NoneDone(n);
    Reachable(n, steps);
    StepsCounted(Init(n), steps);
    FullCount(s.tasks);
  }

  /** A run that has not got there can always go on, so no order of completions leaves the parent behind. */
  lemma NeverStuck(n: nat, steps: seq<Step>) returns (step: Step)
    requires n < WORD && !Run(Init(n), steps).phase.Proceeded?
    ensures Enabled(Run(Init(n), steps), step)
  {
    var s := Run(Init(n), steps);
    Reachable(n, steps);
    if s.phase.Waiting? {
      NoLostWakeup(n, steps);
      var i: nat :| i < |s.tasks| && s.tasks[i].None?;
      step := Finish(i, Value(0));
    } else {
      step := if s.started < n then Start else Await;
    }
  }

  /** A task that has been started may end at any moment, also while others are still to be started. */
  lemma MayEndAnyTime(n: nat, steps: seq<Step>, i: nat, outcome: Outcome)
    requires n < WORD
    ensures var s := Run(Init(n), steps);
            i < s.started && i < |s.tasks| && s.tasks[i].None? ==> Enabled(s, Finish(i, outcome))
  {
    Reachable(n, steps);
  }

  /** The tasks from `k` on, each ending inside its own start. */
  function AtOnce(outcomes: seq<Outcome>, k: nat): seq<Step>
    requires k <= |outcomes|
    decreases |outcomes| - k
  {
    if k == |outcomes| then [Await] else [Start, Finish(k, outcomes[k])] + AtOnce(outcomes, k + 1)
  }

  function FirstDone(outcomes: seq<Outcome>, k: nat): seq<Option<Outcome>>
    requires k <= |outcomes|
  {
    seq(|outcomes|, i requires 0 <= i < |outcomes| => if i < k then Some(outcomes[i]) else None)
  }

  lemma {:induction false} AtOnceFrom(outcomes: seq<Outcome>, k: nat)
    requires k <= |outcomes| < WORD
    ensures var s := State(k, FirstDone(outcomes, k), |outcomes| - k, false, Starting, 0);
            && Proper(s, AtOnce(outcomes, k))
            && Run(s, AtOnce(outcomes, k)) == State(|outcomes|, FirstDone(outcomes, |outcomes|), 0, false, Proceeded, 1)
    decreases |outcomes| - k
  {
    var n := |outcomes|;
    var s, steps := State(k, FirstDone(outcomes, k), n - k, false, Starting, 0), AtOnce(outcomes, k);
    if k < n {
      AtOnceFrom(outcomes, k + 1);
      var s1 := Next(s, Start);
      assert FirstDone(outcomes, k)[k := Some(outcomes[k])] == FirstDone(outcomes, k + 1);
      assert Next(s1, Finish(k, outcomes[k])) ==
             State(k + 1, FirstDone(outcomes, k + 1), n - k - 1, false, Starting, 0);
      assert steps[0] == Start && steps[1..][0] == Finish(k, outcomes[k]);
      assert steps[1..][1..] == AtOnce(outcomes, k + 1);
    }
  }

  /** Any number of tasks, all ending while they are started: the parent goes on without suspending. */
  lemma AllAtOnce(outcomes: seq<Outcome>)
    requires |outcomes| < WORD
    ensures Proper(Init(|outcomes|), AtOnce(outcomes, 0))
    ensures var s := Run(Init(|outcomes|), AtOnce(outcomes, 0));
            s.phase.Proceeded? && !s.continuation && s.tasks == FirstDone(outcomes, |outcomes|)
  {
    hide Run, Proper;
    AtOnceFrom(outcomes, 0);
    assert FirstDone(outcomes, 0) == Init(|outcomes|).tasks;
  }

  /** Slot `i` holds what task `i` ended with, and keeps it. */
  lemma {:induction false} ResultBelongs(s: State, steps: seq<Step>, i: nat)
    requires i < |s.tasks|
    ensures var s' := Run(s, steps);
            && i < |s'.tasks|
            && (s.tasks[i].Some? ==> s'.tasks[i] == s.tasks[i])
            && (s.tasks[i].None? && s'.tasks[i].Some? ==> Finish(i, s'.tasks[i].value) in steps)
    decreases |steps|
  {
    if steps != [] {
      if Enabled(s, steps[0]) {
        ResultBelongs(Next(s, steps[0]), steps[1..], i);
      } else {
        ResultBelongs(s, steps[1..], i);
      }
    }
  }

  // Collecting the results -----------------------------------------------------------------------------------

  datatype Collected = Results(values: seq<int>) | Rethrown(e: int)

  const UNIT: int := 0  // what stands in the tuple for a task without a value

  predicate Throws(outcomes: seq<Outcome>, isVoid: seq<bool>, i: nat)
    requires |isVoid| == |outcomes| && i < |outcomes|
  {
    !isVoid[i] && outcomes[i].Raised?
  }

  /** `get` on each task in turn: the first exception wins, and a void task's own exception is never looked at. */
  method Collect(outcomes: seq<Outcome>, isVoid: seq<bool>) returns (r: Collected)
    requires |isVoid| == |outcomes|
    ensures r.Results? <==> forall i: nat | i < |outcomes| :: !Throws(outcomes, isVoid, i)
    ensures r.Results? ==> |r.values| == |outcomes|
    ensures r.Results? ==> forall i: nat | i < |outcomes| ::
              if isVoid[i] then r.values[i] == UNIT else outcomes[i] == Value(r.values[i])
    ensures r.Rethrown? ==> exists i: nat :: && i < |outcomes| && Throws(outcomes, isVoid, i) && r.e == outcomes[i].e
                                             && forall j: nat | j < i :: !Throws(outcomes, isVoid, j)
  {
    var values := [];
    var k: nat := 0;
    while k < |outcomes|
      invariant k <= |outcomes| && |values| == k
      invariant forall i: nat | i < k :: !Throws(outcomes, isVoid, i)
      invariant forall i: nat | i < k :: if isVoid[i] then values[i] == UNIT else outcomes[i] == Value(values[i])
    {
      if isVoid[k] {
        values := values + [UNIT];
      } else {
        match outcomes[k] {
          case Value(v) => values := values + [v];
          case Raised(e) =>
            assert Throws(outcomes, isVoid, k);
            return Rethrown(e);
        }
      }
      k := k + 1;
    }
    return Results(values);
  }

  function Outcomes(tasks: seq<Option<Outcome>>): (outcomes: seq<Outcome>)
    requires AllDone(tasks)
    ensures |outcomes| == |tasks| && forall i | 0 <= i < |tasks| :: tasks[i] == Some(outcomes[i])
  {
    seq(|tasks|, i requires 0 <= i < |tasks| => tasks[i].value)
  }

  ghost predicate EndedWell(steps: seq<Step>, j: nat) { exists v :: Finish(j, Value(v)) in steps }

  /** A task that is finished is not finished again. */
  lemma {:induction false} FinishedOnce(s: State, steps: seq<Step>, i: nat, outcome: Outcome)
    requires Proper(s, steps) && i < |s.tasks| && Finish(i, outcome) in steps
    ensures s.tasks[i].None? && i < |Run(s, steps).tasks| && Run(s, steps).tasks[i] == Some(outcome)
    decreases |steps|
  {
    var s' := Next(s, steps[0]);
    if steps[0] == Finish(i, outcome) {
      ResultBelongs(s', steps[1..], i);
    } else {
      FinishedOnce(s', steps[1..], i, outcome);
    }
  }

  /** What the parent returns or throws after any run that let it go on: what its own tasks ended with. */
  method Gather(n: nat, steps: seq<Step>, isVoid: seq<bool>) returns (r: Collected)
    requires n < WORD && |isVoid| == n && Proper(Init(n), steps) && Run(Init(n), steps).phase.Proceeded?
    ensures r.Results? ==> |r.values| == n
    ensures r.Results? ==> forall i: nat | i < n :: isVoid[i] || Finish(i, Value(r.values[i])) in steps
    ensures forall i: nat, a, b | i < n && Finish(i, a) in steps && Finish(i, b) in steps :: a == b
    ensures r.Rethrown? ==> exists i: nat :: && i < n && !isVoid[i] && Finish(i, Raised(r.e)) in steps
                                             && forall j: nat | j < i :: isVoid[j] || EndedWell(steps, j)
  {
    CountsDown(n, steps);
    Reachable(n, steps);
    var tasks := Run(Init(n), steps).tasks;
    forall i: nat | i < n ensures Finish(i, tasks[i].value) in steps { ResultBelongs(Init(n), steps, i); }
    forall i: nat, a, b | i < n && Finish(i, a) in steps && Finish(i, b) in steps ensures a == b {
      FinishedOnce(Init(n), steps, i, a);
      FinishedOnce(Init(n), steps, i, b);
    }
    var outcomes := Outcomes(tasks);
    r := Collect(outcomes, isVoid);
    if r.Rethrown? {
      var i: nat :| && i < n && Throws(outcomes, isVoid, i) && r.e == outcomes[i].e
                    && forall j: nat | j < i :: !Throws(outcomes, isVoid, j);
      forall j: nat | j < i ensures isVoid[j] || EndedWell(steps, j) {
        if !isVoid[j] {
          assert !Throws(outcomes, isVoid, j);
          assert Finish(j, Value(outcomes[j].v)) in steps;
        }
      }
    }
  }
}
