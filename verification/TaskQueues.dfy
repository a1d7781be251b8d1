/** Task queues with the history of what was posted and what ran where, and the steps that keep them in order. */
module TaskQueues {

  type Task = nat
  type Thread = nat

  datatype Execution = Execution(task: Task, thread: Thread)

  function Tasks(es: seq<Execution>): (ts: seq<Task>)
    ensures |ts| == |es| && forall i | 0 <= i < |es| :: ts[i] == es[i].task
  {
    seq(|es|, i requires 0 <= i < |es| => es[i].task)
  }

  predicate AllOn(es: seq<Execution>, thread: Thread) { forall i | 0 <= i < |es| :: es[i].thread == thread }

  // A task queue ----------------------------------------------------------------------------------

  /** A deque of tasks; `posted` and `ran` record everything put in and everything executed, in order. */
  datatype Queue = Queue(items: seq<Task>, posted: seq<Task>, ran: seq<Execution>)

  const NONE_YET: Queue := Queue([], [], [])

  /** What ran is what was posted first, what waits is what was posted last. */
  predicate Ordered(q: Queue) {
    && |q.ran| + |q.items| <= |q.posted|
    && Tasks(q.ran) == q.posted[..|q.ran|]
    && q.items == q.posted[|q.posted| - |q.items|..]
  }

  /** The tasks in between: swapped out, not executed yet. */
  function Batch(q: Queue): seq<Task>
    requires Ordered(q)
  {
    q.posted[|q.ran|..|q.posted| - |q.items|]
  }

  function Add(q: Queue, t: Task): Queue { q.(items := q.items + [t], posted := q.posted + [t]) }

  function SwapOut(q: Queue): Queue { q.(items := []) }

  function Execute(q: Queue, t: Task, thread: Thread): Queue { q.(ran := q.ran + [Execution(t, thread)]) }

  /** New tasks may have joined at the back; nothing else happened. */
  predicate Grew(q: Queue, q': Queue) {
    q'.ran == q.ran && q.items <= q'.items && q'.posted == q.posted + q'.items[|q.items|..]
  }

  lemma AddGrows(q: Queue, t: Task)
    requires Ordered(q)
    ensures Ordered(Add(q, t)) && Grew(q, Add(q, t)) && Batch(Add(q, t)) == Batch(q)
  {
  }

  lemma GrewOn(q: Queue, q': Queue, q'': Queue)
    requires Grew(q, q') && Grew(q', q'')
    ensures Grew(q, q'')
  {
    assert q''.items[|q.items|..] == q'.items[|q.items|..] + q''.items[|q'.items|..];
  }

  lemma GrewKeepsBatch(q: Queue, q': Queue)
    requires Ordered(q) && Grew(q, q') && Ordered(q')
    ensures Batch(q') == Batch(q)
  {
  }

  lemma SwapKeepsOrder(q: Queue)
    requires Ordered(q) && Batch(q) == []
    ensures Ordered(SwapOut(q)) && Batch(SwapOut(q)) == q.items
  {
  }

  /** Order survives an execution if and only if it is the oldest task of the batch that is executed. */
  lemma OldestFirst(q: Queue, t: Task, thread: Thread)
    requires Ordered(q)
    ensures Ordered(Execute(q, t, thread)) <==> Batch(q) != [] && Batch(q)[0] == t
    ensures Ordered(Execute(q, t, thread)) ==> Batch(Execute(q, t, thread)) == Batch(q)[1..]
  {
    var q' := Execute(q, t, thread);
    var n := |q.ran|;
    assert |Tasks(q'.ran)| == n + 1;
    assert Tasks(q'.ran)[n] == t;
    assert Tasks(q'.ran)[..n] == Tasks(q.ran);
    if n < |q.posted| {
      assert q.posted[..n + 1] == q.posted[..n] + [q.posted[n]];
    }
  }

  /** Once nothing is swapped out, what was posted is what ran followed by what waits. */
  lemma Conserved(q: Queue)
    requires Ordered(q) && Batch(q) == []
    ensures q.posted == Tasks(q.ran) + q.items
  {
  }

  /** Everything posted to `q` has run by the time it is `q'`, and what ran before still counts. */
  predicate Served(q: Queue, q': Queue) { q.posted <= Tasks(q'.ran) && q.ran <= q'.ran }

  lemma ServedLater(q: Queue, q': Queue, q'': Queue)
    requires (Grew(q, q') && Served(q', q'')) || (Served(q, q') && (Grew(q', q'') || Served(q', q'')))
    ensures Served(q, q'')
  {
    assert forall i | 0 <= i < |q'.ran| :: q'.ran <= q''.ran ==> Tasks(q''.ran)[i] == Tasks(q'.ran)[i];
  }

  /** `done` ran between `q` and `q'`, in that order; new tasks may have joined at the back. */
  predicate Ran(q: Queue, q': Queue, done: seq<Task>) {
    q.posted <= q'.posted && q.ran <= q'.ran && Tasks(q'.ran) == Tasks(q.ran) + done
  }

  // The three queues together ---------------------------------------------------------------------------

  datatype Which = Remote | Spawned | Local

  /** `inline` records what was executed at once instead of being queued. */
  datatype Lists = Lists(remote: Queue, spawned: Queue, local: Queue, inline: seq<Execution>)

  function Of(s: Lists, which: Which): Queue {
    match which case Remote => s.remote case Spawned => s.spawned case Local => s.local
  }

  function With(s: Lists, which: Which, q: Queue): Lists {
    match which
    case Remote => s.(remote := q)
    case Spawned => s.(spawned := q)
    case Local => s.(local := q)
  }

  predicate Good(q: Queue, bound: Thread) { Ordered(q) && AllOn(q.ran, bound) }

  /** Each queue is in order, and every execution, queued or immediate, happened on the bound thread. */
  predicate Sound(s: Lists, bound: Thread) {
    Good(s.remote, bound) && Good(s.spawned, bound) && Good(s.local, bound) && AllOn(s.inline, bound)
  }

  predicate Later(s: Lists, s': Lists) {
    Grew(s.remote, s'.remote) && Grew(s.spawned, s'.spawned) && Grew(s.local, s'.local) && s.inline <= s'.inline
  }

  predicate OthersGrew(s: Lists, s': Lists, which: Which) {
    && (which.Remote? || Grew(s.remote, s'.remote)) && (which.Spawned? || Grew(s.spawned, s'.spawned))
    && (which.Local? || Grew(s.local, s'.local)) && s.inline <= s'.inline
  }

  /** As `Later`, except that `done` ran from one of the queues. */
  predicate Drained(s: Lists, s': Lists, which: Which, done: seq<Task>) {
    OthersGrew(s, s', which) && Ran(Of(s, which), Of(s', which), done)
  }

  /** All the context was ever given, in whatever way. */
  function Load(s: Lists): multiset<Task> {
    multiset(Tasks(s.inline)) + multiset(s.remote.posted) + multiset(s.spawned.posted) + multiset(s.local.posted)
  }

  /** One more task was taken on, once; nothing that was there is disturbed. */
  predicate HandedIn(s: Lists, s': Lists, t: Task) { Later(s, s') && Load(s') == Load(s) + multiset{t} }

  lemma Still(q: Queue)
    ensures Grew(q, q)
  {
  }

  lemma AllStill(s: Lists)
    ensures Later(s, s)
  {
  }

  lemma Queued(s: Lists, which: Which, t: Task, bound: Thread)
    requires Sound(s, bound)
    ensures var s' := With(s, which, Add(Of(s, which), t)); Sound(s', bound) && HandedIn(s, s', t)
  {
    hide Ordered, Grew, AllOn;
    AddGrows(Of(s, which), t);
    Still(s.remote);
    Still(s.spawned);
    Still(s.local);
  }

  lemma RanInline(s: Lists, t: Task, bound: Thread)
    requires Sound(s, bound)
    ensures var s' := s.(inline := s.inline + [Execution(t, bound)]); Sound(s', bound) && HandedIn(s, s', t)
  {
    hide Ordered, Grew;
    AllStill(s);
    assert Tasks(s.inline + [Execution(t, bound)]) == Tasks(s.inline) + [t];
  }

  lemma LaterOn(s: Lists, s': Lists, s'': Lists)
    requires Later(s, s') && Later(s', s'')
    ensures Later(s, s'')
  {
    hide Grew;
    GrewOn(s.remote, s'.remote, s''.remote);
    GrewOn(s.spawned, s'.spawned, s''.spawned);
    GrewOn(s.local, s'.local, s''.local);
  }

  lemma DrainedOn(s: Lists, s': Lists, s'': Lists, which: Which, done: seq<Task>, more: seq<Task>)
    requires Drained(s, s', which, done) && Drained(s', s'', which, more)
    ensures Drained(s, s'', which, done + more)
  {
    hide Grew;
    if !which.Remote? { GrewOn(s.remote, s'.remote, s''.remote); }
    if !which.Spawned? { GrewOn(s.spawned, s'.spawned, s''.spawned); }
    if !which.Local? { GrewOn(s.local, s'.local, s''.local); }
    assert Tasks(Of(s, which).ran) + done + more == Tasks(Of(s, which).ran) + (done + more);
  }

  /** Executing a task of a batch, then whatever user code does. */
  lemma OneRan(s: Lists, s': Lists, which: Which, t: Task, thread: Thread)
    requires Later(With(s, which, Execute(Of(s, which), t, thread)), s')
    ensures Drained(s, s', which, [t])
  {
    var q := Of(s, which);
    assert Tasks(q.ran + [Execution(t, thread)]) == Tasks(q.ran) + [t];
  }

  lemma ExecutedSound(s: Lists, which: Which, t: Task, bound: Thread)
    requires Sound(s, bound) && Batch(Of(s, which)) != [] && t == Batch(Of(s, which))[0]
    ensures var s' := With(s, which, Execute(Of(s, which), t, bound));
            Sound(s', bound) && Batch(Of(s', which)) == Batch(Of(s, which))[1..]
  {
    OldestFirst(Of(s, which), t, bound);
    hide Ordered;
  }

  /** User code and other threads leave alone what was swapped out. */
  lemma SameBatches(s: Lists, s': Lists, bound: Thread, which: Which)
    requires Sound(s, bound) && Sound(s', bound) && Later(s, s')
    ensures Batch(Of(s', which)) == Batch(Of(s, which))
  {
    GrewKeepsBatch(Of(s, which), Of(s', which));
  }

  lemma NothingDrained(s: Lists, which: Which)
    ensures Drained(s, s, which, [])
  {
  }

  /** Nothing is swapped out. */
  predicate Rested(s: Lists, bound: Thread)
    requires Sound(s, bound)
  {
    Batch(s.remote) == [] && Batch(s.spawned) == [] && Batch(s.local) == []
  }

  lemma NothingYet(bound: Thread)
    ensures var s := Lists(NONE_YET, NONE_YET, NONE_YET, []); Sound(s, bound) && Rested(s, bound)
  {
  }

  lemma LaterRests(s: Lists, s': Lists, bound: Thread)
    requires Sound(s, bound) && Sound(s', bound) && Later(s, s') && Rested(s, bound)
    ensures Rested(s', bound)
  {
    hide Sound, Later;
    SameBatches(s, s', bound, Remote);
    SameBatches(s, s', bound, Spawned);
    SameBatches(s, s', bound, Local);
  }

  /** A queue found empty has been served already. */
  lemma NothingToDo(s: Lists, s': Lists, which: Which, bound: Thread)
    requires Sound(s, bound) && Sound(s', bound) && Rested(s, bound) && Later(s, s') && Of(s', which).items == []
    ensures OthersGrew(s, s', which) && Served(Of(s, which), Of(s', which))
    ensures Of(s', which).ran == Of(s, which).ran && Tasks(Of(s', which).ran) == Of(s, which).posted
  {
    Conserved(Of(s, which));
  }

  lemma BatchServed(q: Queue, full: Queue, q': Queue)
    requires Ordered(full) && Batch(full) == [] && Grew(q, full) && Ran(SwapOut(full), q', full.items)
    ensures Served(q, q') && Tasks(q'.ran) == full.posted && |q'.ran| == |q.ran| + |full.items|
  {
    Conserved(full);
  }

  lemma EachGrew(s: Lists, s': Lists, which: Which, bound: Thread)
    requires Later(s, s') && Sound(s', bound) && Rested(s', bound)
    ensures Grew(Of(s, which), Of(s', which)) && Ordered(Of(s', which)) && Batch(Of(s', which)) == []
  {
  }

  lemma GrewFrom(s: Lists, full: Lists, s': Lists, which: Which)
    requires Later(s, full) && OthersGrew(With(full, which, SwapOut(Of(full, which))), s', which)
    ensures OthersGrew(s, s', which)
  {
    hide Grew;
    if !which.Remote? { GrewOn(s.remote, full.remote, s'.remote); }
    if !which.Spawned? { GrewOn(s.spawned, full.spawned, s'.spawned); }
    if !which.Local? { GrewOn(s.local, full.local, s'.local); }
  }

  lemma StillRested(s: Lists, s': Lists, which: Which, bound: Thread)
    requires Sound(s, bound) && Rested(s, bound) && Sound(s', bound) && Batch(Of(s', which)) == []
    requires OthersGrew(With(s, which, SwapOut(Of(s, which))), s', which)
    ensures Rested(s', bound)
  {
    hide Batch, Grew;
    if !which.Remote? { GrewKeepsBatch(s.remote, s'.remote); }
    if !which.Spawned? { GrewKeepsBatch(s.spawned, s'.spawned); }
    if !which.Local? { GrewKeepsBatch(s.local, s'.local); }
  }

  predicate AllServed(s: Lists, s': Lists) {
    && Served(s.remote, s'.remote) && Served(s.spawned, s'.spawned) && Served(s.local, s'.local)
    && s.inline <= s'.inline
  }

  function TotalRan(s: Lists): nat { |s.remote.ran| + |s.spawned.ran| + |s.local.ran| }

  /** A round: completions first, then the three queues one after the other. */
  lemma RoundServed(s: Lists, s1: Lists, s2: Lists, s3: Lists, s': Lists)
    requires Later(s, s1)
    requires OthersGrew(s1, s2, Spawned) && Served(s1.spawned, s2.spawned)
    requires OthersGrew(s2, s3, Remote) && Served(s2.remote, s3.remote)
    requires OthersGrew(s3, s', Local) && Served(s3.local, s'.local)
    ensures AllServed(s, s')
    ensures |s'.spawned.ran| == |s2.spawned.ran| && |s'.remote.ran| == |s3.remote.ran|
    ensures |s1.spawned.ran| == |s.spawned.ran| && |s2.remote.ran| == |s.remote.ran| && |s3.local.ran| == |s.local.ran|
  {
    ServedLater(s.spawned, s1.spawned, s2.spawned);
    ServedLater(s.spawned, s2.spawned, s3.spawned);
    ServedLater(s.spawned, s3.spawned, s'.spawned);
    GrewOn(s.remote, s1.remote, s2.remote);
    ServedLater(s.remote, s2.remote, s3.remote);
    ServedLater(s.remote, s3.remote, s'.remote);
    GrewOn(s.local, s1.local, s2.local);
    GrewOn(s.local, s2.local, s3.local);
    ServedLater(s.local, s3.local, s'.local);
  }

  /** What happens before a round, in it and after it. */
  lemma ServedOn(s: Lists, s1: Lists, s2: Lists, s': Lists)
    requires (Later(s, s1) || AllServed(s, s1)) && AllServed(s1, s2) && Later(s2, s')
    ensures AllServed(s, s')
  {
    hide Grew, Served;
    ServedLater(s.remote, s1.remote, s2.remote);
    ServedLater(s.remote, s2.remote, s'.remote);
    ServedLater(s.spawned, s1.spawned, s2.spawned);
    ServedLater(s.spawned, s2.spawned, s'.spawned);
    ServedLater(s.local, s1.local, s2.local);
    ServedLater(s.local, s2.local, s'.local);
  }

  // Accounts --------------------------------------------------------------------------------------------------

  /** All the context has executed, in whatever way. */
  function Done(s: Lists): multiset<Task> {
    multiset(Tasks(s.inline)) + multiset(Tasks(s.remote.ran))
      + multiset(Tasks(s.spawned.ran)) + multiset(Tasks(s.local.ran))
  }

  lemma PrefixFewer(a: seq<Task>, b: seq<Task>)
    requires a <= b
    ensures multiset(a) <= multiset(b)
  {
    assert b == a + b[|a|..];
  }

  lemma RanFewer(a: seq<Execution>, b: seq<Execution>)
    requires a <= b
    ensures multiset(Tasks(a)) <= multiset(Tasks(b))
  {
    assert Tasks(a) == Tasks(b)[..|a|];
    PrefixFewer(Tasks(a), Tasks(b));
  }

  /** As time goes on nothing is forgotten. */
  lemma LaterAccounts(s: Lists, s': Lists)
    requires Later(s, s')
    ensures Load(s) <= Load(s') && Done(s) <= Done(s')
  {
    RanFewer(s.inline, s'.inline);
    PrefixFewer(s.remote.posted, s'.remote.posted);
    PrefixFewer(s.spawned.posted, s'.spawned.posted);
    PrefixFewer(s.local.posted, s'.local.posted);
  }

  /** After a round everything there was at its start has been executed. */
  lemma ServedAccounts(s: Lists, s': Lists)
    requires AllServed(s, s')
    ensures Load(s) <= Done(s') && Done(s) <= Done(s')
  {
    RanFewer(s.inline, s'.inline);
    RanFewer(s.remote.ran, s'.remote.ran);
    RanFewer(s.spawned.ran, s'.spawned.ran);
    RanFewer(s.local.ran, s'.local.ran);
    PrefixFewer(s.remote.posted, Tasks(s'.remote.ran));
    PrefixFewer(s.spawned.posted, Tasks(s'.spawned.ran));
    PrefixFewer(s.local.posted, Tasks(s'.local.ran));
  }

  /** Nothing is executed that was not handed in. */
  lemma DoneWasGiven(s: Lists, bound: Thread)
    requires Sound(s, bound)
    ensures Done(s) <= Load(s)
  {
    PrefixFewer(Tasks(s.remote.ran), s.remote.posted);
    PrefixFewer(Tasks(s.spawned.ran), s.spawned.posted);
    PrefixFewer(Tasks(s.local.ran), s.local.posted);
  }

  lemma AllInOrder(s: Lists, bound: Thread)
    requires Sound(s, bound) && Rested(s, bound)
    ensures forall e | e in s.inline + s.remote.ran + s.spawned.ran + s.local.ran :: e.thread == bound
    ensures s.remote.posted == Tasks(s.remote.ran) + s.remote.items
    ensures s.spawned.posted == Tasks(s.spawned.ran) + s.spawned.items
    ensures s.local.posted == Tasks(s.local.ran) + s.local.items
  {
    Conserved(s.remote);
    Conserved(s.spawned);
    Conserved(s.local);
  }
}
