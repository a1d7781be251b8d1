/** The life of an I/O operation: submission queue, kernel, completion queue, resumed coroutine. */
module Ring {
  import opened Bytes

  /** What a queue entry carries: an operation with its coroutine, or nothing for a bare timeout. */
  type Data = Option<nat>

  datatype Cqe = Cqe(data: Data, res: int)

  datatype Resumption = Resumption(op: nat, res: int)

  /** `resumed` and `answers` record what was resumed with what, and what the kernel answered. */
  datatype Ring = Ring(sq: seq<Data>, inflight: multiset<Data>, cq: seq<Cqe>, nextOp: nat,
                       resumed: seq<Resumption>, answers: map<nat, int>)

  datatype Step = Submit | SubmitTimeout | Enter | Complete(d: Data, res: int) | Reap

  const Empty: Ring := Ring([], multiset{}, [], 0, [], map[])

  predicate Enabled(r: Ring, step: Step) {
    match step
    case Complete(d, _) => d in r.inflight  // one completion per operation the kernel holds
    case Reap => r.cq != []
    case _ => true
  }

  function DoSubmit(r: Ring): Ring { r.(sq := r.sq + [Some(r.nextOp)], nextOp := r.nextOp + 1) }

  /** A bare timeout, which belongs to no coroutine. */
  function DoTimeout(r: Ring): Ring { r.(sq := r.sq + [None]) }

  /** The kernel takes all that waits. */
  function DoEnter(r: Ring): Ring { r.(sq := [], inflight := r.inflight + multiset(r.sq)) }

  function DoComplete(r: Ring, d: Data, res: int): Ring {
    r.(inflight := r.inflight - multiset{d}, cq := r.cq + [Cqe(d, res)],
       answers := if d.Some? then r.answers[d.value := res] else r.answers)
  }

  /** The callback of `for_each_cqe`: store the result and resume, unless the entry has no coroutine. */
  function DoReap(r: Ring): Ring
    requires r.cq != []
  {
    var e := r.cq[0];
    r.(cq := r.cq[1..],
       resumed := if e.data.Some? then r.resumed + [Resumption(e.data.value, e.res)] else r.resumed)
  }

  function Next(r: Ring, step: Step): Ring
    requires Enabled(r, step)
  {
    match step
    case Submit => DoSubmit(r)
    case SubmitTimeout => DoTimeout(r)
    case Enter => DoEnter(r)
    case Complete(d, res) => DoComplete(r, d, res)
    case Reap => DoReap(r)
  }

  function Run(r: Ring, steps: seq<Step>): Ring
    decreases |steps|
  {
    if steps == [] then r
    else if Enabled(r, steps[0]) then Run(Next(r, steps[0]), steps[1..])
    else Run(r, steps[1..])
  }

  // Every operation is in one place -----------------------------------------------------------

  function Datas(cq: seq<Cqe>): seq<Data> { seq(|cq|, i requires 0 <= i < |cq| => cq[i].data) }

  function Ops(rs: seq<Resumption>): seq<Data> { seq(|rs|, i requires 0 <= i < |rs| => Some(rs[i].op)) }

  function Bag(r: Ring): multiset<Data> {
    multiset(r.sq) + r.inflight + multiset(Datas(r.cq)) + multiset(Ops(r.resumed))
  }

  ghost predicate Counted(r: Ring) {
    forall op: nat :: Bag(r)[Some(op)] == if op < r.nextOp then 1 else 0
  }

  predicate Answered(answers: map<nat, int>, op: nat, res: int) { op in answers && answers[op] == res }

  predicate OwnAnswers(r: Ring) {
    && (forall k | 0 <= k < |r.cq| && r.cq[k].data.Some? :: Answered(r.answers, r.cq[k].data.value, r.cq[k].res))
    && (forall k | 0 <= k < |r.resumed| :: Answered(r.answers, r.resumed[k].op, r.resumed[k].res))
  }

  ghost predicate Linear(r: Ring) { Counted(r) && OwnAnswers(r) }

  lemma CompleteKeepsBag(r: Ring, d: Data, res: int)
    requires d in r.inflight
    ensures Bag(DoComplete(r, d, res)) == Bag(r)
  {
    assert Datas(r.cq + [Cqe(d, res)]) == Datas(r.cq) + [d];
    assert r.inflight - multiset{d} + multiset{d} == r.inflight;
  }

  lemma ReapKeepsBag(r: Ring)
    requires r.cq != []
    ensures Bag(DoReap(r)) == if r.cq[0].data.Some? then Bag(r) else Bag(r) - multiset{None}
  {
    var e := r.cq[0];
    assert Datas(r.cq) == [e.data] + Datas(r.cq[1..]);
    if e.data.Some? {
      assert Ops(r.resumed + [Resumption(e.data.value, e.res)]) == Ops(r.resumed) + [e.data];
    }
  }

  /** An operation in flight has not been completed before. */
  lemma InFlightIsNew(r: Ring, op: nat)
    requires Linear(r) && Some(op) in r.inflight
    ensures forall k | 0 <= k < |r.cq| :: r.cq[k].data != Some(op)
    ensures forall k | 0 <= k < |r.resumed| :: r.resumed[k].op != op
  {
    assert Bag(r)[Some(op)] <= 1;
    forall k | 0 <= k < |r.cq| ensures r.cq[k].data != Some(op) {
      assert Datas(r.cq)[k] in Datas(r.cq);
    }
    forall k | 0 <= k < |r.resumed| ensures r.resumed[k].op != op {
      assert Ops(r.resumed)[k] in Ops(r.resumed);
    }
  }

  lemma SameBag(r: Ring, r': Ring)
    requires Counted(r) && r'.nextOp == r.nextOp
    requires Bag(r') == Bag(r) || Bag(r') == Bag(r) - multiset{None} || Bag(r') == Bag(r) + multiset{None}
    ensures Counted(r')
  {
    hide Bag;
    forall op: nat ensures Bag(r')[Some(op)] == if op < r'.nextOp then 1 else 0 {
      assert Bag(r)[Some(op)] == if op < r.nextOp then 1 else 0;
    }
  }

  lemma SubmitKeepsLinear(r: Ring)
    requires Linear(r)
    ensures Linear(DoSubmit(r))
  {
    var r' := DoSubmit(r);
    assert Bag(r') == Bag(r) + multiset{Some(r.nextOp)};
    hide Bag, OwnAnswers;
    forall op: nat ensures Bag(r')[Some(op)] == if op < r'.nextOp then 1 else 0 {
      assert Bag(r)[Some(op)] == if op < r.nextOp then 1 else 0;
    }
    assert OwnAnswers(r') by { SameAnswers(r, r'); }
  }

  lemma SameAnswers(r: Ring, r': Ring)
    requires OwnAnswers(r) && r'.cq == r.cq && r'.resumed == r.resumed && r'.answers == r.answers
    ensures OwnAnswers(r')
  {
  }

  lemma CompleteKeepsLinear(r: Ring, d: Data, res: int)
    requires Linear(r) && d in r.inflight
    ensures Linear(DoComplete(r, d, res))
  {
    hide Bag, Counted, OwnAnswers;
    CompleteKeepsBag(r, d, res);
    SameBag(r, DoComplete(r, d, res));
    if d.Some? { InFlightIsNew(r, d.value); }
    NewAnswer(r, d, res);
  }

  lemma NewAnswer(r: Ring, d: Data, res: int)
    requires OwnAnswers(r)
    requires d.Some? ==> forall k | 0 <= k < |r.cq| :: r.cq[k].data != d
    requires d.Some? ==> forall k | 0 <= k < |r.resumed| :: r.resumed[k].op != d.value
    ensures OwnAnswers(DoComplete(r, d, res))
  {
  }

  lemma ReapKeepsLinear(r: Ring)
    requires Linear(r) && r.cq != []
    ensures Linear(DoReap(r))
  {
    hide Bag, Counted;
    ReapKeepsBag(r);
    SameBag(r, DoReap(r));
  }

  lemma NextKeepsLinear(r: Ring, step: Step)
    requires Linear(r) && Enabled(r, step)
    ensures Linear(Next(r, step))
  {
    hide Linear;
    match step {
      case Submit => SubmitKeepsLinear(r);
      case SubmitTimeout => TimeoutKeepsLinear(r);
      case Enter => EnterKeepsLinear(r);
      case Complete(d, res) => CompleteKeepsLinear(r, d, res);
      case Reap => ReapKeepsLinear(r);
    }
  }

  lemma TimeoutKeepsLinear(r: Ring)
    requires Linear(r)
    ensures Linear(DoTimeout(r))
  {
    var r' := DoTimeout(r);
    assert Bag(r') == Bag(r) + multiset{None};
    hide Bag;
    SameBag(r, r');
    SameAnswers(r, r');
  }

  lemma EnterKeepsLinear(r: Ring)
    requires Linear(r)
    ensures Linear(DoEnter(r))
  {
    var r' := DoEnter(r);
    assert Bag(r') == Bag(r);
    hide Bag;
    SameBag(r, r');
    SameAnswers(r, r');
  }

  lemma {:induction false} RunKeepsLinear(r: Ring, steps: seq<Step>)
    requires Linear(r)
    ensures Linear(Run(r, steps))
    decreases |steps|
  {
    hide Linear, Enabled, Next;
    if steps != [] {
      if Enabled(r, steps[0]) {
        NextKeepsLinear(r, steps[0]);
        RunKeepsLinear(Next(r, steps[0]), steps[1..]);
      } else {
        RunKeepsLinear(r, steps[1..]);
      }
    }
  }

  /** In every run, every started operation is waiting, in flight, completed or resumed: one of them, once. */
  lemma HeldOnce(steps: seq<Step>, op: nat)
    ensures var r := Run(Empty, steps);
            multiset(r.sq)[Some(op)] + r.inflight[Some(op)]
              + multiset(Datas(r.cq))[Some(op)] + multiset(Ops(r.resumed))[Some(op)]
              == if op < r.nextOp then 1 else 0
  {
    EmptyIsLinear();
    RunKeepsLinear(Empty, steps);
    var r := Run(Empty, steps);
    assert Bag(r)[Some(op)] == if op < r.nextOp then 1 else 0;
  }

  lemma EmptyIsLinear()
    ensures Linear(Empty)
  {
  }

  /** Whatever is on record as an answer, the kernel gave. */
  lemma {:induction false} AnswersWereGiven(r: Ring, steps: seq<Step>, op: nat, res: int)
    requires Answered(Run(r, steps).answers, op, res)
    ensures Answered(r.answers, op, res) || Complete(Some(op), res) in steps
    decreases |steps|
  {
    if steps != [] {
      if Enabled(r, steps[0]) {
        AnswersWereGiven(Next(r, steps[0]), steps[1..], op, res);
      } else {
        AnswersWereGiven(r, steps[1..], op, res);
      }
    }
  }

  /** Every resumed coroutine got what the kernel completed its own operation with. */
  lemma OwnResult(steps: seq<Step>, k: nat)
    requires k < |Run(Empty, steps).resumed|
    ensures var r := Run(Empty, steps); Complete(Some(r.resumed[k].op), r.resumed[k].res) in steps
  {
    var r := Run(Empty, steps);
    EmptyIsLinear();
    RunKeepsLinear(Empty, steps);
    AnswersWereGiven(Empty, steps, r.resumed[k].op, r.resumed[k].res);
  }

  // Getting to the kernel -----------------------------------------------------------------------

  /** The operation was started and is no longer waiting to be handed over. */
  predicate Handed(r: Ring, op: nat) { op < r.nextOp && Some(op) !in r.sq }

  /** It is with the kernel, completed or resumed, in one of these places and once. */
  predicate Reached(r: Ring, op: nat) {
    r.inflight[Some(op)] + multiset(Datas(r.cq))[Some(op)] + multiset(Ops(r.resumed))[Some(op)] == 1
  }

  lemma HandedMeans(r: Ring, op: nat)
    requires Linear(r) && Handed(r, op)
    ensures Reached(r, op)
  {
    assert Bag(r)[Some(op)] == 1;
  }

  /** What has been started stays started, and what has been handed over stays so. */
  ghost predicate Onward(r: Ring, r': Ring) {
    r.nextOp <= r'.nextOp && forall op: nat :: Handed(r, op) ==> Handed(r', op)
  }

  lemma NextOnward(r: Ring, step: Step)
    requires Enabled(r, step)
    ensures Onward(r, Next(r, step))
  {
  }

  lemma OnwardOn(r: Ring, r': Ring, r'': Ring)
    requires Onward(r, r') && Onward(r', r'')
    ensures Onward(r, r'')
  {
    hide Handed;
  }

  /** No coroutine is resumed twice. */
  lemma ResumedOnce(steps: seq<Step>, j: nat, k: nat)
    requires j < k < |Run(Empty, steps).resumed|
    ensures Run(Empty, steps).resumed[j].op != Run(Empty, steps).resumed[k].op
  {
    var r := Run(Empty, steps);
    EmptyIsLinear();
    RunKeepsLinear(Empty, steps);
    var ops, op := Ops(r.resumed), r.resumed[j].op;
    assert Bag(r)[Some(op)] <= 1;
    if r.resumed[k].op == op {
      TwiceInBag(ops, j, k);
    }
  }

  lemma TwiceInBag(s: seq<Data>, j: nat, k: nat)
    requires j < k < |s| && s[j] == s[k]
    ensures multiset(s)[s[j]] >= 2
  {
    assert s == s[..k] + [s[k]] + s[k + 1..];
    assert s[j] == s[..k][j];
    assert s[j] in s[..k];
  }

  // No operation is stuck --------------------------------------------------------------------------

  predicate IsResumed(r: Ring, op: nat) { exists j :: 0 <= j < |r.resumed| && r.resumed[j].op == op }

  function Reaps(n: nat): seq<Step> { if n == 0 then [] else [Reap] + Reaps(n - 1) }

  lemma ReapResumes(r: Ring, op: nat)
    requires r.cq != []
    ensures IsResumed(r, op) || r.cq[0].data == Some(op) ==> IsResumed(DoReap(r), op)
  {
    var r' := DoReap(r);
    if j :| 0 <= j < |r.resumed| && r.resumed[j].op == op {
      assert r'.resumed[j].op == op;
    } else if r.cq[0].data == Some(op) {
      assert r'.resumed[|r.resumed|].op == op;
    }
  }

  /** Reaping to the end of the queue resumes the coroutine of every completion in it. */
  lemma {:induction false} ReapAll(r: Ring, op: nat)
    ensures IsResumed(r, op) || (exists k :: 0 <= k < |r.cq| && r.cq[k].data == Some(op)) ==>
              IsResumed(Run(r, Reaps(|r.cq|)), op)
    decreases |r.cq|
  {
    hide IsResumed;
    if r.cq != [] {
      ReapResumes(r, op);
      ReapAll(DoReap(r), op);
      assert Reaps(|r.cq|)[0] == Reap && Reaps(|r.cq|)[1..] == Reaps(|r.cq| - 1);
      if k :| 0 < k < |r.cq| && r.cq[k].data == Some(op) {
        assert DoReap(r).cq[k - 1].data == Some(op);
      }
    }
  }

  lemma RunTwice(r: Ring, first: Step, rest: seq<Step>)
    requires Enabled(r, first)
    ensures Run(r, [first] + rest) == Run(Next(r, first), rest)
  {
    assert ([first] + rest)[1..] == rest;
  }

  /** From every state, whatever is to be the answer, an operation that was started can still be resumed. */
  lemma NeverStuck(r: Ring, op: nat, res: int) returns (steps: seq<Step>)
    requires Linear(r) && op < r.nextOp
    ensures IsResumed(Run(r, steps), op)
  {
    hide IsResumed, Run;
    var r1 := DoEnter(r);
    EnterKeepsLinear(r);
    HandedMeans(r1, op);
    if Some(op) in r1.inflight {
      var r2 := DoComplete(r1, Some(op), res);
      assert r2.cq[|r1.cq|].data == Some(op);
      ReapAll(r2, op);
      steps := [Enter] + ([Complete(Some(op), res)] + Reaps(|r2.cq|));
      RunTwice(r, Enter, [Complete(Some(op), res)] + Reaps(|r2.cq|));
      RunTwice(r1, Complete(Some(op), res), Reaps(|r2.cq|));
    } else {
      steps := [Enter] + Reaps(|r1.cq|);
      FoundIn(r1, op);
      ReapAll(r1, op);
      RunTwice(r, Enter, Reaps(|r1.cq|));
    }
  }

  lemma FoundIn(r: Ring, op: nat)
    requires Reached(r, op) && Some(op) !in r.inflight
    ensures IsResumed(r, op) || exists k :: 0 <= k < |r.cq| && r.cq[k].data == Some(op)
  {
    if Some(op) in multiset(Datas(r.cq)) {
      var k :| 0 <= k < |Datas(r.cq)| && Datas(r.cq)[k] == Some(op);
      assert r.cq[k].data == Some(op);
    } else {
      assert Some(op) in Ops(r.resumed);
      var j :| 0 <= j < |Ops(r.resumed)| && Ops(r.resumed)[j] == Some(op);
      assert r.resumed[j].op == op;
    }
  }
}
