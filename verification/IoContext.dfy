/** The run loop: posted tasks, spawned coroutines and I/O completions, one thread draining them all. */
module IoContext {
  import opened Bytes
  import opened Ring
  import opened TaskQueues

  // Completions ---------------------------------------------------------------------------------------

  function Woken(e: Cqe): seq<Resumption> {
    if e.data.Some? then [Resumption(e.data.value, e.res)] else []
  }

  /** The coroutines a batch of completions wakes, in order, each with its result. */
  function Resumptions(cqes: seq<Cqe>): (r: seq<Resumption>)
    ensures cqes == [] ==> r == []
  {
    if cqes == [] then [] else Woken(cqes[0]) + Resumptions(cqes[1..])
  }

  lemma {:induction false} ResumptionsAppend(cqes: seq<Cqe>, e: Cqe)
    ensures Resumptions(cqes + [e]) == Resumptions(cqes) + Woken(e)
  {
    if cqes != [] {
      assert (cqes + [e])[1..] == cqes[1..] + [e];
      ResumptionsAppend(cqes[1..], e);
    }
  }

  lemma {:induction false} ResumptionsPrefix(a: seq<Cqe>, b: seq<Cqe>)
    requires a <= b
    ensures Resumptions(a) <= Resumptions(b)
    decreases |b|
  {
    if a != b {
      var front := b[..|b| - 1];
      assert b == front + [b[|b| - 1]];
      ResumptionsAppend(front, b[|b| - 1]);
      ResumptionsPrefix(a, front);
    }
  }

  lemma ReapedNext(first: seq<Cqe>, seen: seq<Cqe>, cq: seq<Cqe>, cq': seq<Cqe>)
    requires first <= seen + cq && cq != [] && cq[1..] <= cq'
    ensures first <= seen + [cq[0]] + cq'
  {
    assert seen + cq == seen + [cq[0]] + cq[1..];
  }

  // The context --------------------------------------------------------------------------------------

  class Context {
    const bound: Thread
    var isStopped: bool
    ghost var stops: nat        // how often a stop was requested
    var remote: Queue
    var spawned: Queue
    var local: Queue
    var inline: seq<Execution>  // what was executed at once, by whom
    var ring: Ring
    var wakers: seq<Thread>     // who resumed each of `ring.resumed`

    constructor (bound: Thread)
      ensures Valid() && Idle() && this.bound == bound && !isStopped && stops == 0
      ensures S() == Lists(NONE_YET, NONE_YET, NONE_YET, []) && ring == Empty
    {
      hide Linear, Sound, Rested;
      NothingYet(bound);
      EmptyIsLinear();
      this.bound, isStopped, stops := bound, false, 0;
      remote, spawned, local, inline := NONE_YET, NONE_YET, NONE_YET, [];
      ring, wakers := Empty, [];
    }

    function S(): Lists
      reads this
    {
      Lists(remote, spawned, local, inline)
    }

    /** Order, the bound thread and one place per I/O operation: kept by everything below. */
    ghost predicate Valid()
      reads this
    {
      && Sound(S(), bound) && Linear(ring)
      && |wakers| == |ring.resumed| && forall i | 0 <= i < |wakers| :: wakers[i] == bound
    }

    /** No batch is being drained. */
    ghost predicate Idle()
      requires Valid()
      reads this
    {
      Rested(S(), bound)
    }

    // Entry points ------------------------------------------------------------------------------------

    /** Never runs the task now. A foreign thread touches only the remote queue, never the unlocked local one. */
    method Post(thread: Thread, t: Task)
      requires Valid()
      modifies this`remote, this`local
      ensures Valid() && HandedIn(old(S()), S(), t)
      ensures if thread == bound then remote == old(remote) else local == old(local)
    {
      hide Linear, Sound, HandedIn;
      if thread != bound {
        Queued(S(), Remote, t, bound);
        remote := Add(remote, t);
      } else {
        Queued(S(), Local, t, bound);
        local := Add(local, t);
      }
    }

    /**
      * Runs the task now on the context's own thread; what it does comes next in that thread's actions.
      * On any other thread nothing is executed.
      */
    method Dispatch(thread: Thread, t: Task)
      requires Valid()
      modifies this`remote, this`inline
      ensures Valid() && HandedIn(old(S()), S(), t)
      ensures if thread == bound then remote == old(remote) else inline == old(inline)
    {
      hide Linear, Sound, HandedIn;
      if thread != bound {
        Queued(S(), Remote, t, bound);
        remote := Add(remote, t);
      } else {
        RanInline(S(), t, thread);
        inline := inline + [Execution(t, thread)];
      }
    }

    /** `co_await schedule()`: a coroutine that goes on is on the context's thread, any other waits for it. */
    method Schedule(thread: Thread, continuation: Task) returns (suspended: bool)
      requires Valid()
      modifies this`remote, this`local, this`inline
      ensures Valid() && HandedIn(old(S()), S(), continuation) && local == old(local)
      ensures suspended <==> thread != bound
      ensures if suspended then inline == old(inline) else remote == old(remote)
    {
      hide Linear, Sound, HandedIn;
      if thread == bound {
        RanInline(S(), continuation, thread);
        inline := inline + [Execution(continuation, thread)];
        return false;
      }
      Post(thread, continuation);
      return true;
    }

    /** Starts the coroutine now on the context's own thread, and otherwise leaves it to that thread. */
    method CoSpawn(thread: Thread, t: Task)
      requires Valid()
      modifies this`spawned, this`inline
      ensures Valid() && HandedIn(old(S()), S(), t)
      ensures if thread == bound then spawned == old(spawned) else inline == old(inline)
    {
      hide Linear, Sound, HandedIn;
      if thread == bound {
        RanInline(S(), t, thread);
        inline := inline + [Execution(t, thread)];
      } else {
        Queued(S(), Spawned, t, bound);
        spawned := Add(spawned, t);
      }
    }

    method RequestStop()
      requires Valid()
      modifies this`isStopped, this`stops
      ensures Valid() && isStopped && stops == old(stops) + 1
    {
      isStopped, stops := true, stops + 1;
    }

    /** The stop flag goes up by a request and by nothing else, and I/O operations only go forward. */
    twostate predicate Proceeds()
      reads this
    {
      old(stops) <= stops && (isStopped <==> old(isStopped) || stops > old(stops)) && Onward(old(ring), ring)
    }

    // What everybody else may do ------------------------------------------------------------------------

    /** Any use of the entry points. */
    method AnyEntry(thread: Thread)
      requires Valid()
      modifies this`remote, this`spawned, this`local, this`inline
      ensures Valid() && Later(old(S()), S())
      ensures thread != bound ==> local == old(local) && inline == old(inline)
    {
      hide Linear, Sound, Later, Load;
      var t: Task :| true;
      if {
        case true => Post(thread, t);
        case true => Dispatch(thread, t);
        case true => var _ := Schedule(thread, t);
        case true => CoSpawn(thread, t);
      }
    }

    /** Any number of calls from other threads, each enqueue one atomic step, and perhaps a request to stop. */
    method OtherThreads()
      requires Valid()
      modifies this`remote, this`spawned, this`local, this`inline, this`isStopped, this`stops
      ensures Valid() && Later(old(S()), S()) && local == old(local) && inline == old(inline)
      ensures Proceeds()
    {
      hide Linear, Sound, Later;
      AllStill(S());
      var k: nat :| true;
      while k > 0
        invariant Valid() && Later(old(S()), S()) && local == old(local) && inline == old(inline)
        invariant Proceeds()
      {
        ghost var before := S();
        var other: Thread :| true;
        if other != bound {
          AnyEntry(other);
          LaterOn(old(S()), before, S());
        }
        if * {
          RequestStop();
        }
        k := k - 1;
      }
    }

    /** The kernel finishes some operations it holds, each with an answer of its choosing. */
    method Kernel()
      requires Valid()
      modifies this`ring
      ensures Valid() && ring.resumed == old(ring.resumed) && ring.sq == old(ring.sq)
      ensures old(ring.cq) <= ring.cq && |ring.cq| + |ring.inflight| == old(|ring.cq| + |ring.inflight|)
      ensures Onward(old(ring), ring)
    {
      hide Linear, Sound;
      var k: nat :| true;
      while k > 0 && ring.inflight != multiset{}
        invariant Onward(old(ring), ring)
        invariant Valid() && ring.resumed == old(ring.resumed) && ring.sq == old(ring.sq)
        invariant old(ring.cq) <= ring.cq && |ring.cq| + |ring.inflight| == old(|ring.cq| + |ring.inflight|)
      {
        var d :| d in ring.inflight;
        var res: int :| true;
        CompleteKeepsLinear(ring, d, res);
        NextOnward(ring, Step.Complete(d, res));
        OnwardOn(old(ring), ring, DoComplete(ring, d, res));
        ring := DoComplete(ring, d, res);
        k := k - 1;
      }
    }

    /** A coroutine awaiting I/O: its entry joins the submission queue of the context of this thread. */
    method SubmitIo(thread: Thread)
      requires Valid() && thread == bound
      modifies this`ring
      ensures Valid() && ring.cq == old(ring.cq) && ring.resumed == old(ring.resumed)
      ensures ring.inflight == old(ring.inflight) && ring.nextOp == old(ring.nextOp) + 1 && Onward(old(ring), ring)
    {
      hide Linear, Sound, Handed;
      SubmitKeepsLinear(ring);
      NextOnward(ring, Step.Submit);
      ring := DoSubmit(ring);
    }

    /** What a task or coroutine does while it runs, with other threads at work meanwhile. */
    method UserCode(thread: Thread)
      requires Valid() && thread == bound
      modifies this`remote, this`spawned, this`local, this`inline, this`isStopped, this`stops, this`ring
      ensures Valid() && Later(old(S()), S())
      ensures Proceeds()
      ensures ring.cq == old(ring.cq) && ring.resumed == old(ring.resumed) && ring.inflight == old(ring.inflight)
    {
      hide Linear, Sound, Later;
      AllStill(S());
      var k: nat :| true;
      while k > 0
        invariant Valid() && Later(old(S()), S())
        invariant Proceeds()
        invariant ring.cq == old(ring.cq) && ring.resumed == old(ring.resumed) && ring.inflight == old(ring.inflight)
      {
        ghost var before := S();
        AllStill(before);
        if {
          case true => AnyEntry(thread);
          case true => SubmitIo(thread);
          case true => OtherThreads();
          case true => RequestStop();
        }
        LaterOn(old(S()), before, S());
        k := k - 1;
      }
    }

    // The loop ---------------------------------------------------------------------------------------------

    method Record(which: Which, t: Task, thread: Thread)
      requires Valid() && thread == bound && Batch(Of(S(), which)) != [] && t == Batch(Of(S(), which))[0]
      modifies this`remote, this`spawned, this`local
      ensures Valid() && S() == With(old(S()), which, Execute(old(Of(S(), which)), t, thread))
      ensures Batch(Of(S(), which)) == old(Batch(Of(S(), which)))[1..]
    {
      ExecutedSound(S(), which, t, thread);
      hide Linear, Sound, Batch, Ordered, Execute;
      match which {
        case Remote => remote := Execute(remote, t, thread);
        case Spawned => spawned := Execute(spawned, t, thread);
        case Local => local := Execute(local, t, thread);
      }
    }

    /** `task()`: this task is executed, here and now. */
    method Invoke(which: Which, t: Task, thread: Thread)
      requires Valid() && thread == bound && Batch(Of(S(), which)) != [] && t == Batch(Of(S(), which))[0]
      modifies this`remote, this`spawned, this`local, this`inline, this`isStopped, this`stops, this`ring
      ensures Valid() && Drained(old(S()), S(), which, [t])
      ensures Proceeds()
      ensures Batch(Of(S(), which)) == old(Batch(Of(S(), which)))[1..]
      ensures ring.cq == old(ring.cq) && ring.resumed == old(ring.resumed)
    {
      hide Linear, Later, Drained, Batch, Ordered, Execute, AllOn;
      Record(which, t, thread);
      ghost var started := S();
      UserCode(thread);
      SameBatches(started, S(), bound, which);
      OneRan(old(S()), S(), which, t, thread);
    }

    /** Runs a batch that has been swapped out, to its end even if asked to stop; what it posts stays queued. */
    method Drain(which: Which, tasks: seq<Task>, thread: Thread)
      requires Valid() && thread == bound && Batch(Of(S(), which)) == tasks
      modifies this`remote, this`spawned, this`local, this`inline, this`isStopped, this`stops, this`ring
      ensures Valid() && Drained(old(S()), S(), which, tasks) && Batch(Of(S(), which)) == []
      ensures Proceeds()
      ensures ring.cq == old(ring.cq) && ring.resumed == old(ring.resumed)
    {
      hide Linear, Drained, Batch, Ordered, AllOn;
      NothingDrained(S(), which);
      var k := 0;
      while k < |tasks|
        invariant Valid() && k <= |tasks| && Drained(old(S()), S(), which, tasks[..k])
        invariant Batch(Of(S(), which)) == tasks[k..]
        invariant Proceeds()
        invariant ring.cq == old(ring.cq) && ring.resumed == old(ring.resumed)
      {
        ghost var before := S();
        Invoke(which, tasks[k], thread);
        DrainedOn(old(S()), before, S(), which, tasks[..k], [tasks[k]]);
        assert tasks[..k] + [tasks[k]] == tasks[..k + 1];
        k := k + 1;
      }
      assert tasks[..k] == tasks;
    }

    method TakeOut(which: Which) returns (tasks: seq<Task>)
      requires Valid() && Idle()
      modifies this`remote, this`spawned, this`local
      ensures Valid() && S() == With(old(S()), which, SwapOut(old(Of(S(), which))))
      ensures tasks == old(Of(S(), which).items) && Batch(Of(S(), which)) == tasks
    {
      SwapKeepsOrder(Of(S(), which));
      hide Linear, Ordered;
      match which {
        case Remote => tasks, remote := remote.items, SwapOut(remote);
        case Spawned => tasks, spawned := spawned.items, SwapOut(spawned);
        case Local => tasks, local := local.items, SwapOut(local);
      }
    }

    /** One of the three `resolve_` functions. The emptiness test takes no lock, so others may act around it. */
    method Resolve(which: Which, thread: Thread) returns (n: nat)
      requires Valid() && Idle() && thread == bound
      modifies this`remote, this`spawned, this`local, this`inline, this`isStopped, this`stops, this`ring
      ensures Valid() && Idle() && OthersGrew(old(S()), S(), which)
      ensures Proceeds()
      ensures Served(old(Of(S(), which)), Of(S(), which))
      ensures |Of(S(), which).ran| == |old(Of(S(), which).ran)| + n
      ensures which.Local? ==> Tasks(local.ran) == old(local.posted)
      ensures ring.cq == old(ring.cq) && ring.resumed == old(ring.resumed)
    {
      hide Linear, Sound, Batch, Ordered, Rested, Later, Served, Grew, Ran, OthersGrew;
      OtherThreads();
      LaterRests(old(S()), S(), bound);
      if Of(S(), which).items == [] {
        NothingToDo(old(S()), S(), which, bound);
        return 0;
      }
      ghost var seen := S();
      OtherThreads();
      LaterRests(seen, S(), bound);
      LaterOn(old(S()), seen, S());
      ghost var full := S();
      var tasks := TakeOut(which);
      Drain(which, tasks, thread);
      GrewFrom(old(S()), full, S(), which);
      StillRested(full, S(), which, bound);
      EachGrew(old(S()), full, which, bound);
      BatchServed(old(Of(S(), which)), Of(full, which), Of(S(), which));
      n := |tasks|;
    }

    /** The callback on the oldest completion: its coroutine, if it has one, gets the result and runs. */
    method ReapOne(thread: Thread)
      requires Valid() && thread == bound && ring.cq != []
      modifies this`remote, this`spawned, this`local, this`inline, this`isStopped, this`stops, this`ring, this`wakers
      ensures Valid() && Later(old(S()), S())
      ensures Proceeds()
      ensures old(ring.cq)[1..] <= ring.cq && |ring.cq| + |ring.inflight| == old(|ring.cq| + |ring.inflight|) - 1
      ensures ring.resumed == old(ring.resumed) + Woken(old(ring.cq)[0])
    {
      hide Linear, Sound, Later;
      AllStill(S());
      var data := ring.cq[0].data;
      ReapKeepsLinear(ring);
      NextOnward(ring, Step.Reap);
      ring := DoReap(ring);
      if data.Some? {
        wakers := wakers + [thread];
        UserCode(thread);
      }
      Kernel();
    }

    /** The completions, oldest first, including those that arrive meanwhile; nothing ready is left behind. */
    method ForEachCqe(thread: Thread) returns (ghost seen: seq<Cqe>)
      requires Valid() && thread == bound
      modifies this`remote, this`spawned, this`local, this`inline, this`isStopped, this`stops, this`ring, this`wakers
      ensures Valid() && Later(old(S()), S())
      ensures Proceeds()
      ensures old(ring.cq) <= seen && ring.cq == []
      ensures ring.resumed == old(ring.resumed) + Resumptions(seen)
    {
      hide Linear, Sound, Later, Resumptions, Woken;
      seen := [];
      OtherThreads();
      Kernel();
      while ring.cq != []
        invariant Valid() && Later(old(S()), S())
        invariant Proceeds()
        invariant old(ring.cq) <= seen + ring.cq && ring.resumed == old(ring.resumed) + Resumptions(seen)
        decreases |ring.cq| + |ring.inflight|
      {
        ghost var e, cq, before := ring.cq[0], ring.cq, S();
        ReapOne(thread);
        LaterOn(old(S()), before, S());
        ResumptionsAppend(seen, e);
        ReapedNext(old(ring.cq), seen, cq, ring.cq);
        seen := seen + [e];
      }
    }

    /** One round: whatever was ready or queued when it began has been resumed or run when it ends. */
    method RunOnce(thread: Thread) returns (cnt: nat, ghost seen: seq<Cqe>)
      requires Valid() && Idle() && thread == bound
      modifies this`remote, this`spawned, this`local, this`inline, this`isStopped, this`stops, this`ring, this`wakers
      ensures Valid() && Idle() && AllServed(old(S()), S())
      ensures Proceeds()
      ensures old(ring.cq) <= seen && ring.resumed == old(ring.resumed) + Resumptions(seen)
      ensures cnt == |old(ring.cq)| + TotalRan(S()) - TotalRan(old(S()))
    {
      hide Linear, Sound, Resumptions, Rested;
      cnt := |ring.cq|;
      seen := ForEachCqe(thread);
      LaterRests(old(S()), S(), bound);
      hide Later, OthersGrew, Grew, Served;
      ghost var s1 := S();
      var n := Resolve(Spawned, thread);
      cnt := cnt + n;
      ghost var s2 := S();
      n := Resolve(Remote, thread);
      cnt := cnt + n;
      ghost var s3 := S();
      n := Resolve(Local, thread);
      cnt := cnt + n;
      RoundServed(old(S()), s1, s2, s3, S());
    }

    /** `nonpoll_submit`: a bare timeout bounds the wait; meanwhile the kernel and other threads go on. */
    method Submit()
      requires Valid()
      modifies this`remote, this`spawned, this`local, this`inline, this`isStopped, this`stops, this`ring
      ensures Valid() && Later(old(S()), S()) && local == old(local) && inline == old(inline)
      ensures ring.sq == [] && old(ring.cq) <= ring.cq && ring.resumed == old(ring.resumed)
      ensures |ring.cq| + |ring.inflight| == old(|ring.cq| + |ring.inflight| + |ring.sq|) + 1
      ensures Proceeds()
    {
      hide Linear, Sound, Later;
      TimeoutKeepsLinear(ring);
      NextOnward(ring, SubmitTimeout);
      ring := DoTimeout(ring);
      EnterKeepsLinear(ring);
      NextOnward(ring, Enter);
      ring := DoEnter(ring);
      Kernel();
      OtherThreads();
    }

    /**
      * `run`, watched for at most `limit` rounds. It refuses a thread that is not the bound one, but only
      * after clearing the stop flag. One round serves everything queued or ready at the start, and after every round
      * all I/O started so far is with the kernel or past it.
      */
    method Loop(thread: Thread, limit: nat) returns (refused: bool, rounds: nat)
      requires Valid() && Idle()
      modifies this`remote, this`spawned, this`local, this`inline, this`isStopped, this`stops, this`ring, this`wakers
      ensures Valid() && Idle()
      ensures refused <==> thread != bound
      ensures refused ==> rounds == 0 && !isStopped && S() == old(S()) && ring == old(ring)
      ensures old(stops) <= stops && (isStopped <==> stops > old(stops))
      ensures rounds <= limit && (!refused && rounds < limit ==> stops > old(stops))
      ensures if rounds > 0 then AllServed(old(S()), S()) else Later(old(S()), S())
      ensures rounds > 0 ==> old(ring.resumed) + Resumptions(old(ring.cq)) <= ring.resumed
      ensures Onward(old(ring), ring) && (rounds > 0 ==> forall op: nat | op < ring.nextOp :: Handed(ring, op))
    {
      hide Linear, Sound, Resumptions, Rested, Later, AllServed;
      isStopped := false;
      if thread != bound {
        AllStill(S());
        return true, 0;
      }
      refused, rounds := false, 0;
      OtherThreads();
      LaterRests(old(S()), S(), bound);
      while !isStopped && rounds < limit
        invariant Valid() && Idle() && rounds <= limit
        invariant old(stops) <= stops && (isStopped <==> stops > old(stops))
        invariant rounds == 0 ==> ring == old(ring) && Later(old(S()), S())
        invariant rounds > 0 ==> AllServed(old(S()), S())
        invariant rounds > 0 ==> old(ring.resumed) + Resumptions(old(ring.cq)) <= ring.resumed
        invariant Onward(old(ring), ring) && (rounds > 0 ==> ring.sq == [])
      {
        ghost var before := S();
        var _, seen := RunOnce(thread);
        ghost var after := S();
        if rounds == 0 {
          ResumptionsPrefix(old(ring.cq), seen);
        }
        Submit();
        LaterRests(after, S(), bound);
        ServedOn(old(S()), before, after, S());
        rounds := rounds + 1;
      }
    }
  }

  // A whole life -------------------------------------------------------------------------------------------

  datatype Call = Post(thread: Thread, t: Task) | Dispatch(thread: Thread, t: Task) | Schedule(thread: Thread, t: Task)
                | CoSpawn(thread: Thread, t: Task) | AwaitIo(thread: Thread) | Run(thread: Thread, limit: nat)

  function Brings(call: Call): multiset<Task> {
    if call.AwaitIo? || call.Run? then multiset{} else multiset{call.t}
  }

  /** The tasks these calls hand in. */
  function Given(calls: seq<Call>): multiset<Task> {
    if calls == [] then multiset{}
    else Given(calls[..|calls| - 1]) + Brings(calls[|calls| - 1])
  }

  /** How many of these calls start I/O on this context. */
  function Awaits(calls: seq<Call>, bound: Thread): nat {
    if calls == [] then 0
    else Awaits(calls[..|calls| - 1], bound) + if calls[|calls| - 1] == AwaitIo(bound) then 1 else 0
  }

  lemma GivenOneMore(calls: seq<Call>, k: nat)
    requires k < |calls|
    ensures Given(calls[..k + 1]) == Given(calls[..k]) + Brings(calls[k])
    ensures forall b :: Awaits(calls[..k + 1], b) == Awaits(calls[..k], b) + if calls[k] == AwaitIo(b) then 1 else 0
  {
    assert calls[..k + 1][..k] == calls[..k];
  }

  /** The account after the first calls, which made these many rounds each. */
  predicate SoFar(calls: seq<Call>, rounds: seq<nat>, bound: Thread, s: Lists, stops: nat) {
    && |rounds| <= |calls| && Given(calls[..|rounds|]) <= Load(s)
    && (forall k | 0 <= k < |rounds| && rounds[k] > 0 :: Given(calls[..k]) <= Done(s))
    && (forall k | 0 <= k < |rounds| && calls[k].Run? && calls[k].thread == bound ::
          rounds[k] < calls[k].limit ==> stops > 0)
  }

  lemma Beginning(s: Lists, calls: seq<Call>, bound: Thread)
    ensures SoFar(calls, [], bound, s, 0) && IoSoFar(calls, [], [], bound, Empty)
  {
    assert calls[..0] == [];
  }

  lemma OneMoreCall(calls: seq<Call>, rounds: seq<nat>, bound: Thread, s: Lists, stops: nat, s': Lists, stops': nat,
                    n: nat)
    requires SoFar(calls, rounds, bound, s, stops) && |rounds| < |calls| && stops <= stops' && Done(s) <= Done(s')
    requires var call := calls[|rounds|];
             && Load(s) + Brings(call) <= Load(s')
             && (n > 0 ==> Load(s) <= Done(s'))
             && (call.Run? && call.thread == bound && n < call.limit ==> stops' > stops)
    ensures SoFar(calls, rounds + [n], bound, s', stops')
  {
    hide Given, Load, Done, Brings, Awaits;
    var k, more := |rounds|, rounds + [n];
    GivenOneMore(calls, k);
    WithinMore(Given(calls[..k]), Load(s), Brings(calls[k]), Load(s'));
    forall i | 0 <= i < |more| && more[i] > 0 ensures Given(calls[..i]) <= Done(s') {
      if i == k {
        WithinOn(Given(calls[..i]), Load(s), Done(s'));
      } else {
        assert rounds[i] > 0;
        WithinOn(Given(calls[..i]), Done(s), Done(s'));
      }
    }
  }

  lemma WithinOn(a: multiset<Task>, b: multiset<Task>, c: multiset<Task>)
    requires a <= b <= c
    ensures a <= c
  {
  }

  lemma WithinMore(a: multiset<Task>, b: multiset<Task>, x: multiset<Task>, c: multiset<Task>)
    requires a <= b && b + x <= c
    ensures a + x <= c
  {
  }

  lemma AtTheEnd(calls: seq<Call>, rounds: seq<nat>, bound: Thread, s: Lists, stops: nat)
    requires SoFar(calls, rounds, bound, s, stops) && |rounds| == |calls|
    ensures Given(calls) <= Load(s)
    ensures forall k | 0 <= k < |calls| && rounds[k] > 0 :: Given(calls[..k]) <= Done(s)
    ensures forall k | 0 <= k < |calls| && calls[k].Run? && calls[k].thread == bound ::
              rounds[k] < calls[k].limit ==> stops > 0
  {
    assert calls[..|calls|] == calls;
  }

  /** The account of I/O: `ops` is how many operations had been started before each call. */
  ghost predicate IoSoFar(calls: seq<Call>, rounds: seq<nat>, ops: seq<nat>, bound: Thread, r: Ring) {
    && |ops| == |rounds| <= |calls| && Awaits(calls[..|rounds|], bound) <= r.nextOp
    && (forall k | 0 <= k < |rounds| :: Awaits(calls[..k], bound) <= ops[k] <= r.nextOp)
    && forall k, op: nat | 0 <= k < |rounds| && rounds[k] > 0 && op < ops[k] :: Handed(r, op)
  }

  lemma OneMoreIo(calls: seq<Call>, rounds: seq<nat>, ops: seq<nat>, bound: Thread, r: Ring, r': Ring, n: nat)
    requires IoSoFar(calls, rounds, ops, bound, r) && |rounds| < |calls| && Onward(r, r')
    requires calls[|rounds|] == AwaitIo(bound) ==> r.nextOp < r'.nextOp
    requires n > 0 ==> forall op: nat | op < r'.nextOp :: Handed(r', op)
    ensures IoSoFar(calls, rounds + [n], ops + [r.nextOp], bound, r')
  {
    hide Given, Awaits, Handed;
    GivenOneMore(calls, |rounds|);
    var more, all := rounds + [n], ops + [r.nextOp];
    forall k, op: nat | 0 <= k < |more| && more[k] > 0 && op < all[k] ensures Handed(r', op) {
      if k < |rounds| { assert rounds[k] > 0 && op < ops[k] && Handed(r, op); }
    }
  }

  method RunOn(c: Context, thread: Thread, limit: nat) returns (rounds: nat)
    requires c.Valid() && c.Idle()
    modifies c
    ensures c.Valid() && c.Idle() && old(c.stops) <= c.stops
    ensures Load(old(c.S())) <= Load(c.S()) && Done(old(c.S())) <= Done(c.S())
    ensures rounds > 0 ==> Load(old(c.S())) <= Done(c.S())
    ensures thread == c.bound && rounds < limit ==> c.stops > old(c.stops)
    ensures Onward(old(c.ring), c.ring) && (rounds > 0 ==> forall op: nat | op < c.ring.nextOp :: Handed(c.ring, op))
  {
    hide Linear, Sound, Later, Rested, Load, Done, AllServed, Handed;
    ghost var before := c.S();
    var refused;
    refused, rounds := c.Loop(thread, limit);
    if rounds > 0 {
      ServedAccounts(before, c.S());
      DoneWasGiven(c.S(), c.bound);
    } else {
      LaterAccounts(before, c.S());
    }
  }

  lemma IoAtTheEnd(calls: seq<Call>, rounds: seq<nat>, ops: seq<nat>, bound: Thread, r: Ring)
    requires IoSoFar(calls, rounds, ops, bound, r) && |rounds| == |calls| && Linear(r)
    ensures |ops| == |calls| && forall k | 0 <= k < |calls| :: Awaits(calls[..k], bound) <= ops[k] <= r.nextOp
    ensures forall k, op: nat | 0 <= k < |calls| && rounds[k] > 0 && op < ops[k] :: Reached(r, op)
  {
    hide Awaits, Linear, Handed, Reached;
    forall k, op: nat | 0 <= k < |calls| && rounds[k] > 0 && op < ops[k] ensures Reached(r, op) {
      HandedMeans(r, op);
    }
  }

  /** One call, and whatever other threads and running tasks do on their own around it. */
  method Act(c: Context, call: Call) returns (rounds: nat)
    requires c.Valid() && c.Idle()
    modifies c
    ensures c.Valid() && c.Idle() && old(c.stops) <= c.stops
    ensures Load(old(c.S())) + Brings(call) <= Load(c.S())
    ensures Done(old(c.S())) <= Done(c.S())
    ensures rounds > 0 ==> call.Run? && Load(old(c.S())) <= Done(c.S())
    ensures call.Run? && call.thread == c.bound && rounds < call.limit ==> c.stops > old(c.stops)
    ensures Onward(old(c.ring), c.ring) && (call == AwaitIo(c.bound) ==> old(c.ring.nextOp) < c.ring.nextOp)
    ensures rounds > 0 ==> forall op: nat | op < c.ring.nextOp :: Handed(c.ring, op)
  {
    hide Linear, Sound, Later, Rested, Load, Done, Handed;
    rounds := 0;
    ghost var before := c.S();
    c.OtherThreads();
    LaterAccounts(before, c.S());
    LaterRests(before, c.S(), c.bound);
    ghost var s := c.S();
    match call {
      case Post(thread, t) => c.Post(thread, t);
      case Dispatch(thread, t) => c.Dispatch(thread, t);
      case Schedule(thread, t) => var _ := c.Schedule(thread, t);
      case CoSpawn(thread, t) => c.CoSpawn(thread, t);
      case AwaitIo(thread) =>
        AllStill(s);
        if thread == c.bound {
          c.SubmitIo(thread);
        }
      case Run(thread, limit) => rounds := RunOn(c, thread, limit);
    }
    if !call.Run? {
      LaterAccounts(s, c.S());
      LaterRests(s, c.S(), c.bound);
    }
  }

  /**
    * A context from its first moment on, for any list of calls from any threads, with other calls by tasks and
    * by other threads in between. Whatever was executed, queued or at once, ran on the bound thread. Each queue
    * ran in posting order, each task once, and the rest waits. All that was handed in has been taken on. What was
    * handed in before a run that made a round has been executed, and the I/O started before it is with the kernel,
    * completed or resumed, once and for all. `ops` is how many operations had been started before each call.
    */
  method Life(bound: Thread, calls: seq<Call>) returns (c: Context, rounds: seq<nat>, ops: seq<nat>)
    ensures fresh(c) && c.Valid() && c.Idle() && c.bound == bound
    ensures forall e | e in c.inline + c.remote.ran + c.spawned.ran + c.local.ran :: e.thread == bound
    ensures forall i | 0 <= i < |c.wakers| :: c.wakers[i] == bound
    ensures c.remote.posted == Tasks(c.remote.ran) + c.remote.items
    ensures c.spawned.posted == Tasks(c.spawned.ran) + c.spawned.items
    ensures c.local.posted == Tasks(c.local.ran) + c.local.items
    ensures Given(calls) <= Load(c.S()) && |rounds| == |calls|
    ensures forall k | 0 <= k < |calls| && rounds[k] > 0 :: Given(calls[..k]) <= Done(c.S())
    ensures forall k | 0 <= k < |calls| && calls[k].Run? && calls[k].thread == bound ::
              rounds[k] < calls[k].limit ==> c.stops > 0
    ensures |ops| == |calls| && forall k | 0 <= k < |calls| :: Awaits(calls[..k], bound) <= ops[k] <= c.ring.nextOp
    ensures forall k, op: nat | 0 <= k < |calls| && rounds[k] > 0 && op < ops[k] :: Reached(c.ring, op)
  {
    hide Linear, Given, Load, Done, Sound, Rested, SoFar, IoSoFar, Onward, Handed;
    c := new Context(bound);
    rounds, ops := [], [];
    Beginning(c.S(), calls, bound);
    var k := 0;
    while k < |calls|
      invariant fresh(c) && c.Valid() && c.Idle() && c.bound == bound && 0 <= k == |rounds| <= |calls|
      invariant SoFar(calls, rounds, bound, c.S(), c.stops) && IoSoFar(calls, rounds, ops, bound, c.ring)
    {
      ghost var s, stops, r := c.S(), c.stops, c.ring;
      var started := c.ring.nextOp;
      var n := Act(c, calls[k]);
      OneMoreCall(calls, rounds, bound, s, stops, c.S(), c.stops, n);
      OneMoreIo(calls, rounds, ops, bound, r, c.ring, n);
      rounds, ops, k := rounds + [n], ops + [started], k + 1;
    }
    IoAtTheEnd(calls, rounds, ops, bound, c.ring);
    AtTheEnd(calls, rounds, bound, c.S(), c.stops);
    AllInOrder(c.S(), bound);
  }
}
