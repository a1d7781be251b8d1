/** The completion handshake of `future`, for any number of threads and nested coroutines. */
module Future {
  import opened Bytes

  type FrameId = nat

  datatype Outcome = Value(v: int) | Exception(e: int)

  /** Where a coroutine frame stands. From `Running` to `ResumeCont` a thread is inside it. */
  datatype Pc =
    | Created
    | Running
    | StoreCont(child: FrameId)      // in await_suspend; the child's first run has returned
    | ExchangeAwait(child: FrameId)  // continuation stored, flag not yet exchanged
    | AwaitResume(child: FrameId)    // about to read the child's result
    | ExchangeFinal                  // result stored, flag not yet exchanged
    | ResumeCont                     // the flag was set: about to resume the continuation
    | External                       // suspended on something outside, such as I/O
    | Waiting(child: FrameId)        // suspended until the child completes
    | Done
    | Destroyed

  datatype Place = Place(thread: nat, depth: nat)

  /**
   * A frame and its promise. `state`, `cont` and `result` are the promise's fields; `awaited`,
   * `awaiterEx`, `finalEx` and `resumes` record history and steer nothing.
   */
  datatype Frame = Frame(owner: Option<FrameId>, pc: Pc, at: Place,
                         state: bool, cont: Option<FrameId>, result: Option<Outcome>,
                         awaited: bool, awaiterEx: bool, finalEx: bool, resumes: nat,
                         received: seq<(FrameId, Outcome)>)

  /** Every thread is a stack of the frames it is inside, innermost last. */
  datatype State = State(frames: seq<Frame>, threads: seq<seq<FrameId>>)

  datatype Step =
    | Spawn(t: nat)
    | Create(t: nat)
    | Await(t: nat, child: FrameId)
    | Suspend(t: nat)
    | Wake(t: nat, frame: FrameId)
    | StoreContinuation(t: nat)
    | ExchangeByAwaiter(t: nat)
    | ReadResult(t: nat)
    | Finish(t: nat, r: Outcome)
    | ExchangeByFinal(t: nat)
    | ResumeContinuation(t: nat)
    | Destroy(t: nat, child: FrameId)
    | DestroyOrphan(child: FrameId)

  predicate OnStack(pc: Pc) {
    pc.Running? || pc.StoreCont? || pc.ExchangeAwait? || pc.AwaitResume? || pc.ExchangeFinal? || pc.ResumeCont?
  }

  function Init(threads: nat): State {
    State([], seq(threads, _ => []))
  }

  // Steps --------------------------------------------------------------------------------

  /** Thread `t` is inside a frame, the last on its stack. */
  predicate Inside(s: State, t: nat) {
    t < |s.threads| && s.threads[t] != [] && s.threads[t][|s.threads[t]| - 1] < |s.frames|
  }

  function Top(s: State, t: nat): FrameId
    requires Inside(s, t)
  {
    s.threads[t][|s.threads[t]| - 1]
  }

  function PcAt(s: State, t: nat): Pc
    requires Inside(s, t)
  {
    s.frames[Top(s, t)].pc
  }

  predicate RunningAt(s: State, t: nat) { Inside(s, t) && PcAt(s, t).Running? }

  /** A thread may enter another frame from its run loop or from code a frame is running. */
  predicate MayEnter(s: State, t: nat) {
    t < |s.threads| && (s.threads[t] == [] || RunningAt(s, t))
  }

  predicate Owns(s: State, p: FrameId, c: FrameId) {
    c < |s.frames| && s.frames[c].owner == Some(p) && s.frames[c].pc != Destroyed
  }

  predicate Orphan(s: State, c: FrameId) {
    && c < |s.frames| && s.frames[c].pc != Destroyed && s.frames[c].owner.Some?
    && s.frames[c].owner.value < |s.frames| && s.frames[s.frames[c].owner.value].pc == Destroyed
  }

  predicate Enabled(s: State, step: Step) {
    match step
    case Spawn(t) => MayEnter(s, t)
    case Create(t) => RunningAt(s, t)
    case Await(t, c) => RunningAt(s, t) && Owns(s, Top(s, t), c)
    case Suspend(t) => RunningAt(s, t)
    case Wake(t, f) => MayEnter(s, t) && f < |s.frames| && s.frames[f].pc == External
    case StoreContinuation(t) => Inside(s, t) && PcAt(s, t).StoreCont? && PcAt(s, t).child < |s.frames|
    case ExchangeByAwaiter(t) => Inside(s, t) && PcAt(s, t).ExchangeAwait? && PcAt(s, t).child < |s.frames|
    case ReadResult(t) => Inside(s, t) && PcAt(s, t).AwaitResume? && PcAt(s, t).child < |s.frames|
    case Finish(t, _) => RunningAt(s, t)
    case ExchangeByFinal(t) => Inside(s, t) && PcAt(s, t).ExchangeFinal?
    case ResumeContinuation(t) => Inside(s, t) && PcAt(s, t).ResumeCont?
    case Destroy(t, c) => RunningAt(s, t) && Owns(s, Top(s, t), c)
    case DestroyOrphan(c) => Orphan(s, c)
  }

  function NewFrame(owner: Option<FrameId>, pc: Pc): Frame {
    Frame(owner, pc, Place(0, 0), false, None, None, false, false, false, 0, [])
  }

  function Push(threads: seq<seq<FrameId>>, t: nat, f: FrameId): seq<seq<FrameId>>
    requires t < |threads|
  {
    threads[t := threads[t] + [f]]
  }

  function Pop(threads: seq<seq<FrameId>>, t: nat): seq<seq<FrameId>>
    requires t < |threads| && threads[t] != []
  {
    threads[t := threads[t][..|threads[t]| - 1]]
  }

  /** The place a frame gets when thread `t` enters it next. */
  function Above(s: State, t: nat): Place
    requires t < |s.threads|
  {
    Place(t, |s.threads[t]|)
  }

  function DoSpawn(s: State, t: nat): State
    requires MayEnter(s, t)
  {
    State(s.frames + [NewFrame(None, Running).(at := Above(s, t))], Push(s.threads, t, |s.frames|))
  }

  function DoCreate(s: State, t: nat): State
    requires RunningAt(s, t)
  {
    s.(frames := s.frames + [NewFrame(Some(Top(s, t)), Created)])
  }

  /** `await_ready` is `handle.done()`; otherwise `await_suspend` resumes the child, nested on this thread. */
  function DoAwait(s: State, t: nat, c: FrameId): State
    requires RunningAt(s, t) && Owns(s, Top(s, t), c)
  {
    var p := Top(s, t);
    if s.frames[c].pc == Done then s.(frames := s.frames[p := s.frames[p].(pc := AwaitResume(c))])
    else
      State(s.frames[p := s.frames[p].(pc := StoreCont(c))]
                    [c := s.frames[c].(pc := Running, at := Above(s, t), awaited := true)],
            Push(s.threads, t, c))
  }

  function DoSuspend(s: State, t: nat): State
    requires RunningAt(s, t)
  {
    var f := Top(s, t);
    State(s.frames[f := s.frames[f].(pc := External)], Pop(s.threads, t))
  }

  function DoWake(s: State, t: nat, f: FrameId): State
    requires MayEnter(s, t) && f < |s.frames|
  {
    State(s.frames[f := s.frames[f].(pc := Running, at := Above(s, t))], Push(s.threads, t, f))
  }

  function DoStore(s: State, t: nat): State
    requires Inside(s, t) && PcAt(s, t).StoreCont? && PcAt(s, t).child < |s.frames|
  {
    var p := Top(s, t);
    var c := s.frames[p].pc.child;
    var fs := s.frames[c := s.frames[c].(cont := Some(p))];
    s.(frames := fs[p := fs[p].(pc := ExchangeAwait(c))])
  }

  /** `set_continuation`: a flag that was already set means the child is finished, so go on inline. */
  function DoExchangeAwait(s: State, t: nat): State
    requires Inside(s, t) && PcAt(s, t).ExchangeAwait? && PcAt(s, t).child < |s.frames|
  {
    var p := Top(s, t);
    var c := s.frames[p].pc.child;
    var was := s.frames[c].state;
    var fs := s.frames[c := s.frames[c].(state := true, awaiterEx := true,
                                         resumes := s.frames[c].resumes + if was then 1 else 0)];
    if was then s.(frames := fs[p := fs[p].(pc := AwaitResume(c))])
    else State(fs[p := fs[p].(pc := Waiting(c))], Pop(s.threads, t))
  }

  function DoReadResult(s: State, t: nat): State
    requires Inside(s, t) && PcAt(s, t).AwaitResume? && PcAt(s, t).child < |s.frames|
  {
    var p := Top(s, t);
    var c := s.frames[p].pc.child;
    var got := if s.frames[c].result.Some? then [(c, s.frames[c].result.value)] else [];
    s.(frames := s.frames[p := s.frames[p].(pc := Running, received := s.frames[p].received + got)])
  }

  /** A one-way task has no final suspension: its frame goes away at once. */
  function DoFinish(s: State, t: nat, r: Outcome): State
    requires RunningAt(s, t)
  {
    var f := Top(s, t);
    if s.frames[f].owner.None?
    then State(s.frames[f := s.frames[f].(result := Some(r), pc := Destroyed)], Pop(s.threads, t))
    else s.(frames := s.frames[f := s.frames[f].(result := Some(r), pc := ExchangeFinal)])
  }

  function DoExchangeFinal(s: State, t: nat): State
    requires Inside(s, t)
  {
    var f := Top(s, t);
    if s.frames[f].state
    then s.(frames := s.frames[f := s.frames[f].(state := true, finalEx := true, pc := ResumeCont)])
    else State(s.frames[f := s.frames[f].(state := true, finalEx := true, pc := Done)], Pop(s.threads, t))
  }

  /** Nothing of the finished frame is used once the continuation has been entered. */
  function DoResume(s: State, t: nat): State
    requires Inside(s, t)
  {
    var f := Top(s, t);
    var fs := s.frames[f := s.frames[f].(resumes := s.frames[f].resumes + 1, pc := Done)];
    if s.frames[f].cont.Some? && s.frames[f].cont.value < |s.frames| then
      var p := s.frames[f].cont.value;
      State(fs[p := fs[p].(pc := AwaitResume(f), at := Place(t, |s.threads[t]| - 1))],
            Push(Pop(s.threads, t), t, p))
    else State(fs, Pop(s.threads, t))
  }

  function DoDestroy(s: State, c: FrameId): State
    requires c < |s.frames|
  {
    s.(frames := s.frames[c := s.frames[c].(pc := Destroyed)])
  }

  function Next(s: State, step: Step): State
    requires Enabled(s, step)
  {
    match step
    case Spawn(t) => DoSpawn(s, t)
    case Create(t) => DoCreate(s, t)
    case Await(t, c) => DoAwait(s, t, c)
    case Suspend(t) => DoSuspend(s, t)
    case Wake(t, f) => DoWake(s, t, f)
    case StoreContinuation(t) => DoStore(s, t)
    case ExchangeByAwaiter(t) => DoExchangeAwait(s, t)
    case ReadResult(t) => DoReadResult(s, t)
    case Finish(t, r) => DoFinish(s, t, r)
    case ExchangeByFinal(t) => DoExchangeFinal(s, t)
    case ResumeContinuation(t) => DoResume(s, t)
    case Destroy(_, c) => DoDestroy(s, c)
    case DestroyOrphan(c) => DoDestroy(s, c)
  }

  /** The frames whose memory a step reads or writes. */
  function Touched(s: State, step: Step): set<FrameId>
    requires Enabled(s, step)
  {
    match step
    case Spawn(_) => {}
    case Create(t) => {Top(s, t)}
    case Await(t, c) => {Top(s, t), c}
    case Suspend(t) => {Top(s, t)}
    case Wake(_, f) => {f}
    case StoreContinuation(t) => {Top(s, t), s.frames[Top(s, t)].pc.child}
    case ExchangeByAwaiter(t) => {Top(s, t), s.frames[Top(s, t)].pc.child}
    case ReadResult(t) => {Top(s, t), s.frames[Top(s, t)].pc.child}
    case Finish(t, _) => {Top(s, t)}
    case ExchangeByFinal(t) => {Top(s, t)}
    case ResumeContinuation(t) =>
      var f := Top(s, t);
      {f} + (if s.frames[f].cont.Some? then {s.frames[f].cont.value} else {})
    case Destroy(t, c) => {Top(s, t), c}
    case DestroyOrphan(c) => {c}
  }

  /** A step changes no frame outside that set, except by adding one. */
  lemma OthersUntouched(s: State, step: Step, f: FrameId)
    requires Enabled(s, step) && f < |s.frames| && f !in Touched(s, step)
    ensures f < |Next(s, step).frames| && Next(s, step).frames[f] == s.frames[f]
  {
  }

  function Run(s: State, steps: seq<Step>): State
    decreases |steps|
  {
    if steps == [] then s
    else if Enabled(s, steps[0]) then Run(Next(s, steps[0]), steps[1..])
    else Run(s, steps[1..])
  }

  // Invariant ------------------------------------------------------------------------------

  predicate StacksOk(s: State) {
    && (forall t, d | 0 <= t < |s.threads| && 0 <= d < |s.threads[t]| ::
          var f := s.threads[t][d];
          f < |s.frames| && OnStack(s.frames[f].pc) && s.frames[f].at == Place(t, d))
    && (forall f | 0 <= f < |s.frames| && OnStack(s.frames[f].pc) ::
          var at := s.frames[f].at;
          at.thread < |s.threads| && at.depth < |s.threads[at.thread]| && s.threads[at.thread][at.depth] == f)
  }

  /** The parent of an awaited, not yet resumed child is in that await and nowhere else. */
  predicate InAwaitOf(parent: Pc, c: FrameId, f: Frame) {
    if f.awaiterEx then parent == Waiting(c)
    else parent == StoreCont(c) || (parent == ExchangeAwait(c) && f.cont == f.owner)
  }

  /** What the fields of one frame say about each other. */
  predicate Local(f: Frame, c: FrameId) {
    && (f.owner.Some? ==> f.owner.value < c)
    && f.state == (f.awaiterEx || f.finalEx)
    && f.resumes == (if f.awaiterEx && f.finalEx && f.pc != ResumeCont then 1 else 0)
    && (f.finalEx ==> f.result.Some? && f.owner.Some? && (f.pc.Done? || f.pc.Destroyed? || f.pc.ResumeCont?))
    && (f.pc.Done? ==> f.finalEx)
    && (f.pc.ResumeCont? ==> f.finalEx && f.awaiterEx)
    && (f.pc.ExchangeFinal? ==> f.result.Some? && f.owner.Some?)
    && (!f.finalEx && !f.pc.ExchangeFinal? && !f.pc.Destroyed? ==> f.result.None?)
    && (f.awaited ==> f.owner.Some? && !f.pc.Created?)
    && (!f.awaited && f.owner.Some? ==> (f.pc.Created? || f.pc.Destroyed?) && !f.awaiterEx && !f.finalEx)
    && (f.owner.None? ==> !f.pc.Created?)
    && (f.awaiterEx ==> f.awaited && f.cont == f.owner)
    && (f.pc.Destroyed? && f.awaited ==> f.resumes == 1)
  }

  predicate AsChild(fs: seq<Frame>, c: FrameId)
    requires c < |fs|
  {
    var f := fs[c];
    && Local(f, c)
    && (f.awaited && f.resumes == 0 ==>
          f.owner.Some? && f.owner.value < |fs| && InAwaitOf(fs[f.owner.value].pc, c, f))
  }

  predicate AsParent(fs: seq<Frame>, p: FrameId)
    requires p < |fs|
  {
    var pc := fs[p].pc;
    && (pc.StoreCont? || pc.ExchangeAwait? || pc.Waiting? ==>
          var c := pc.child;
          && p < c < |fs| && fs[c].owner == Some(p) && fs[c].awaited && fs[c].resumes == 0
          && fs[c].awaiterEx == pc.Waiting?)
    && (pc.AwaitResume? ==> pc.child < |fs| && fs[pc.child].owner == Some(p) && fs[pc.child].pc == Done)
  }

  /** What a frame received is what its children stored. */
  predicate Heard(fs: seq<Frame>, p: FrameId, received: seq<(FrameId, Outcome)>) {
    forall k | 0 <= k < |received| ::
      received[k].0 < |fs| && fs[received[k].0].owner == Some(p) && fs[received[k].0].result == Some(received[k].1)
  }

  predicate FramesOk(fs: seq<Frame>) {
    forall f | 0 <= f < |fs| :: AsChild(fs, f) && AsParent(fs, f) && Heard(fs, f, fs[f].received)
  }

  predicate Inv(s: State) { StacksOk(s) && FramesOk(s.frames) }

  // Every step keeps it ------------------------------------------------------------------------

  /** Outside `moved`, frames are where they were; a new frame is on no stack. */
  predicate Stays(fs: seq<Frame>, fs': seq<Frame>, moved: set<FrameId>) {
    && |fs| <= |fs'|
    && (forall f | 0 <= f < |fs| && f !in moved :: OnStack(fs'[f].pc) == OnStack(fs[f].pc) && fs'[f].at == fs[f].at)
    && (forall f | |fs| <= f < |fs'| && f !in moved :: !OnStack(fs'[f].pc))
  }

  lemma StacksUnmoved(s: State, s': State)
    requires StacksOk(s) && s'.threads == s.threads && Stays(s.frames, s'.frames, {})
    ensures StacksOk(s')
  {
  }

  lemma StacksPushed(s: State, s': State, t: nat, f: FrameId)
    requires StacksOk(s) && t < |s.threads| && f < |s'.frames| && Stays(s.frames, s'.frames, {f})
    requires f < |s.frames| ==> !OnStack(s.frames[f].pc)
    requires s'.threads == Push(s.threads, t, f)
    requires OnStack(s'.frames[f].pc) && s'.frames[f].at == Place(t, |s.threads[t]|)
    ensures StacksOk(s')
  {
  }

  lemma StacksPopped(s: State, s': State, t: nat)
    requires StacksOk(s) && Inside(s, t) && Stays(s.frames, s'.frames, {Top(s, t)})
    requires s'.threads == Pop(s.threads, t)
    requires !OnStack(s'.frames[Top(s, t)].pc)
    ensures StacksOk(s')
  {
  }

  lemma StacksSwapped(s: State, s': State, t: nat, p: FrameId)
    requires StacksOk(s) && Inside(s, t) && Stays(s.frames, s'.frames, {Top(s, t), p})
    requires s'.threads == Push(Pop(s.threads, t), t, p)
    requires !OnStack(s'.frames[Top(s, t)].pc)
    requires p < |s.frames| && !OnStack(s.frames[p].pc)
    requires OnStack(s'.frames[p].pc) && s'.frames[p].at == Place(t, |s.threads[t]| - 1)
    ensures StacksOk(s')
  {
  }

  predicate HasChild(pc: Pc) { pc.StoreCont? || pc.ExchangeAwait? || pc.AwaitResume? || pc.Waiting? }

  /** `o` is in the middle of awaiting `a`. */
  predicate Looks(fs: seq<Frame>, o: FrameId, a: FrameId) {
    o < |fs| && HasChild(fs[o].pc) && fs[o].pc.child == a
  }

  /** Replacing `f` by `x`: its results stay, and a parent awaiting it sees what it saw before. */
  predicate Harmless(fs: seq<Frame>, a: FrameId, x: Frame)
    requires a < |fs|
  {
    && x.owner == fs[a].owner && x.received == fs[a].received
    && (fs[a].result.Some? ==> x.result == fs[a].result)
    && (x.awaited == fs[a].awaited && x.resumes == fs[a].resumes && x.awaiterEx == fs[a].awaiterEx)
    && (fs[a].pc.Done? ==> x.pc.Done?)
  }

  /** `a` was not in the middle of awaiting anybody but `c`. */
  predicate FreeBut(fs: seq<Frame>, a: FrameId, c: FrameId)
    requires a < |fs|
  {
    fs[a].pc.StoreCont? || fs[a].pc.ExchangeAwait? || fs[a].pc.Waiting? ==> fs[a].pc.child == c
  }

  lemma HeardStill(fs: seq<Frame>, fs': seq<Frame>, p: FrameId, received: seq<(FrameId, Outcome)>)
    requires Heard(fs, p, received) && |fs| <= |fs'|
    requires forall f | 0 <= f < |fs| :: fs'[f].owner == fs[f].owner
    requires forall f | 0 <= f < |fs| && fs[f].result.Some? :: fs'[f].result == fs[f].result
    ensures Heard(fs', p, received)
  {
  }

  /** One frame changes, in no way another frame could notice. */
  lemma OneChange(fs: seq<Frame>, a: FrameId, x: Frame)
    requires FramesOk(fs) && a < |fs| && FreeBut(fs, a, a)
    requires x.owner == fs[a].owner && (fs[a].result.Some? ==> x.result == fs[a].result)
    requires fs[a].owner.Some? && Looks(fs, fs[a].owner.value, a) ==> Harmless(fs, a, x.(received := fs[a].received))
    requires AsChild(fs[a := x], a) && AsParent(fs[a := x], a) && Heard(fs, a, x.received)
    ensures FramesOk(fs[a := x])
  {
    hide Local, Heard;
    var fs' := fs[a := x];
    forall f | 0 <= f < |fs'| ensures AsChild(fs', f) && AsParent(fs', f) && Heard(fs', f, fs'[f].received) {
      assert AsChild(fs, f) && AsParent(fs, f);
      HeardStill(fs, fs', f, fs'[f].received);
    }
  }

  /** A parent and a child of it change together. */
  lemma TwoChange(fs: seq<Frame>, p: FrameId, x: Frame, c: FrameId, y: Frame)
    requires FramesOk(fs) && p < c < |fs| && fs[c].owner == Some(p) && FreeBut(fs, p, c)
    requires y.pc == fs[c].pc || FreeBut(fs, c, c)
    requires y.owner == fs[c].owner && y.received == fs[c].received
    requires fs[c].result.Some? ==> y.result == fs[c].result
    requires Harmless(fs, p, x)
    requires var fs' := fs[p := x][c := y];
             AsChild(fs', p) && AsParent(fs', p) && AsChild(fs', c) && AsParent(fs', c)
    ensures FramesOk(fs[p := x][c := y])
  {
    hide Local, Heard;
    var fs' := fs[p := x][c := y];
    forall f | 0 <= f < |fs'| ensures AsChild(fs', f) && AsParent(fs', f) && Heard(fs', f, fs'[f].received) {
      assert AsChild(fs, f) && AsParent(fs, f);
      HeardStill(fs, fs', f, fs[f].received);
    }
  }

  lemma OneMore(fs: seq<Frame>, x: Frame)
    requires FramesOk(fs) && x.received == []
    requires AsChild(fs + [x], |fs|) && AsParent(fs + [x], |fs|)
    ensures FramesOk(fs + [x])
  {
    hide Local, Heard;
    var fs' := fs + [x];
    assert Heard(fs', |fs|, []) by { HeardNothing(fs', |fs|); }
    forall f | 0 <= f < |fs'| ensures AsChild(fs', f) && AsParent(fs', f) && Heard(fs', f, fs'[f].received) {
      if f < |fs| {
        assert AsChild(fs, f) && AsParent(fs, f);
        HeardStill(fs, fs', f, fs[f].received);
      }
    }
  }

  lemma HeardNothing(fs: seq<Frame>, p: FrameId)
    ensures Heard(fs, p, [])
  {
  }

  lemma FrameFacts(fs: seq<Frame>, f: FrameId)
    requires FramesOk(fs) && f < |fs|
    ensures AsChild(fs, f) && AsParent(fs, f) && Heard(fs, f, fs[f].received)
  {
  }

  lemma SpawnKeepsInv(s: State, t: nat)
    requires Inv(s) && MayEnter(s, t)
    ensures Inv(DoSpawn(s, t))
  {
    hide StacksOk, FramesOk;
    var s' := DoSpawn(s, t);
    var fs, fs' := s.frames, s'.frames;
    StacksPushed(s, s', t, |fs|);
    OneMore(fs, fs'[|fs|]);
  }

  lemma CreateKeepsInv(s: State, t: nat)
    requires Inv(s) && RunningAt(s, t)
    ensures Inv(DoCreate(s, t))
  {
    hide StacksOk, FramesOk;
    var s' := DoCreate(s, t);
    var fs, fs' := s.frames, s'.frames;
    var p := Top(s, t);
    FrameFacts(fs, p);
    StacksUnmoved(s, s');
    OneMore(fs, fs'[|fs|]);
  }

  lemma AwaitKeepsInv(s: State, t: nat, c: FrameId)
    requires Inv(s) && RunningAt(s, t) && Owns(s, Top(s, t), c)
    ensures Inv(DoAwait(s, t, c))
  {
    hide StacksOk, FramesOk;
    var s' := DoAwait(s, t, c);
    var fs, fs' := s.frames, s'.frames;
    var p := Top(s, t);
    FrameFacts(fs, p);
    FrameFacts(fs, c);
    if fs[c].pc == Done {
      StacksUnmoved(s, s');
      OneChange(fs, p, fs'[p]);
    } else {
      StacksPushed(s, s', t, c);
      TwoChange(fs, p, fs'[p], c, fs'[c]);
    }
  }

  lemma SuspendKeepsInv(s: State, t: nat)
    requires Inv(s) && RunningAt(s, t)
    ensures Inv(DoSuspend(s, t))
  {
    hide StacksOk, FramesOk;
    var s' := DoSuspend(s, t);
    var fs, fs' := s.frames, s'.frames;
    var f := Top(s, t);
    FrameFacts(fs, f);
    StacksPopped(s, s', t);
    OneChange(fs, f, fs'[f]);
  }

  lemma WakeKeepsInv(s: State, t: nat, f: FrameId)
    requires Inv(s) && MayEnter(s, t) && f < |s.frames| && s.frames[f].pc == External
    ensures Inv(DoWake(s, t, f))
  {
    hide StacksOk, FramesOk;
    var s' := DoWake(s, t, f);
    var fs, fs' := s.frames, s'.frames;
    FrameFacts(fs, f);
    StacksPushed(s, s', t, f);
    OneChange(fs, f, fs'[f]);
  }

  lemma StoreKeepsInv(s: State, t: nat)
    requires Inv(s) && Inside(s, t) && PcAt(s, t).StoreCont? && PcAt(s, t).child < |s.frames|
    ensures Inv(DoStore(s, t))
  {
    hide StacksOk, FramesOk;
    var s' := DoStore(s, t);
    var fs, fs' := s.frames, s'.frames;
    var p := Top(s, t);
    FrameFacts(fs, p);
    var c := fs[p].pc.child;
    FrameFacts(fs, c);
    assert fs' == fs[p := fs'[p]][c := fs'[c]];
    StacksUnmoved(s, s');
    TwoChange(fs, p, fs'[p], c, fs'[c]);
  }

  lemma ExchangeAwaitKeepsInv(s: State, t: nat)
    requires Inv(s) && Inside(s, t) && PcAt(s, t).ExchangeAwait? && PcAt(s, t).child < |s.frames|
    ensures Inv(DoExchangeAwait(s, t))
  {
    hide StacksOk, FramesOk;
    var s' := DoExchangeAwait(s, t);
    var fs, fs' := s.frames, s'.frames;
    var p := Top(s, t);
    FrameFacts(fs, p);
    var c := fs[p].pc.child;
    FrameFacts(fs, c);
    assert fs' == fs[p := fs'[p]][c := fs'[c]];
    if fs[c].state { StacksUnmoved(s, s'); } else { StacksPopped(s, s', t); }
    TwoChange(fs, p, fs'[p], c, fs'[c]);
  }

  lemma ReadResultKeepsInv(s: State, t: nat)
    requires Inv(s) && Inside(s, t) && PcAt(s, t).AwaitResume? && PcAt(s, t).child < |s.frames|
    ensures Inv(DoReadResult(s, t))
  {
    hide StacksOk, FramesOk;
    var s' := DoReadResult(s, t);
    var fs, fs' := s.frames, s'.frames;
    var p := Top(s, t);
    FrameFacts(fs, p);
    var c := fs[p].pc.child;
    FrameFacts(fs, c);
    StacksUnmoved(s, s');
    OneChange(fs, p, fs'[p]);
  }

  lemma FinishKeepsInv(s: State, t: nat, r: Outcome)
    requires Inv(s) && RunningAt(s, t)
    ensures Inv(DoFinish(s, t, r))
  {
    hide StacksOk, FramesOk;
    var s' := DoFinish(s, t, r);
    var fs, fs' := s.frames, s'.frames;
    var f := Top(s, t);
    FrameFacts(fs, f);
    if fs[f].owner.None? { StacksPopped(s, s', t); } else { StacksUnmoved(s, s'); }
    OneChange(fs, f, fs'[f]);
  }

  lemma ExchangeFinalKeepsInv(s: State, t: nat)
    requires Inv(s) && Inside(s, t) && PcAt(s, t).ExchangeFinal?
    ensures Inv(DoExchangeFinal(s, t))
  {
    hide StacksOk, FramesOk;
    var s' := DoExchangeFinal(s, t);
    var fs, fs' := s.frames, s'.frames;
    var f := Top(s, t);
    FrameFacts(fs, f);
    if fs[f].state { StacksUnmoved(s, s'); } else { StacksPopped(s, s', t); }
    OneChange(fs, f, fs'[f]);
  }

  lemma ResumeKeepsInv(s: State, t: nat)
    requires Inv(s) && Inside(s, t) && PcAt(s, t).ResumeCont?
    ensures Inv(DoResume(s, t))
  {
    hide StacksOk, FramesOk;
    var s' := DoResume(s, t);
    var fs, fs' := s.frames, s'.frames;
    var c := Top(s, t);
    FrameFacts(fs, c);
    var p := fs[c].owner.value;
    FrameFacts(fs, p);
    StacksSwapped(s, s', t, p);
    TwoChange(fs, p, fs'[p], c, fs'[c]);
    assert fs' == fs[p := fs'[p]][c := fs'[c]];
  }

  lemma DestroyKeepsInv(s: State, p: FrameId, c: FrameId)
    requires Inv(s) && p < |s.frames| && Owns(s, p, c) && (s.frames[p].pc.Running? || s.frames[p].pc.Destroyed?)
    ensures Inv(DoDestroy(s, c))
  {
    hide StacksOk, FramesOk;
    var s' := DoDestroy(s, c);
    var fs, fs' := s.frames, s'.frames;
    FrameFacts(fs, p);
    FrameFacts(fs, c);
    StacksUnmoved(s, s');
    OneChange(fs, c, fs'[c]);
  }

  lemma NextKeepsInv(s: State, step: Step)
    requires Inv(s) && Enabled(s, step)
    ensures Inv(Next(s, step))
  {
    hide Inv;
    match step {
      case Spawn(t) => SpawnKeepsInv(s, t);
      case Create(t) => CreateKeepsInv(s, t);
      case Await(t, c) => AwaitKeepsInv(s, t, c);
      case Suspend(t) => SuspendKeepsInv(s, t);
      case Wake(t, f) => WakeKeepsInv(s, t, f);
      case StoreContinuation(t) => StoreKeepsInv(s, t);
      case ExchangeByAwaiter(t) => ExchangeAwaitKeepsInv(s, t);
      case ReadResult(t) => ReadResultKeepsInv(s, t);
      case Finish(t, r) => FinishKeepsInv(s, t, r);
      case ExchangeByFinal(t) => ExchangeFinalKeepsInv(s, t);
      case ResumeContinuation(t) => ResumeKeepsInv(s, t);
      case Destroy(t, c) => DestroyKeepsInv(s, Top(s, t), c);
      case DestroyOrphan(c) => DestroyKeepsInv(s, s.frames[c].owner.value, c);
    }
  }

  lemma {:induction false} RunKeepsInv(s: State, steps: seq<Step>)
    requires Inv(s)
    ensures Inv(Run(s, steps))
    decreases |steps|
  {
    hide Inv, Enabled, Next;
    if steps != [] {
      if Enabled(s, steps[0]) {
        NextKeepsInv(s, steps[0]);
        RunKeepsInv(Next(s, steps[0]), steps[1..]);
      } else {
        RunKeepsInv(s, steps[1..]);
      }
    }
  }

  /** Any number of threads, any interleaving, any depth of nesting. */
  lemma Reachable(threads: nat, steps: seq<Step>)
    ensures Inv(Run(Init(threads), steps))
  {
    assert Inv(Init(threads));
    RunKeepsInv(Init(threads), steps);
  }

  // What that means -----------------------------------------------------------------------------

  /** No step of any run reads or writes a frame that has been destroyed. */
  lemma NoUseAfterDestroy(threads: nat, steps: seq<Step>, step: Step)
    requires Enabled(Run(Init(threads), steps), step)
    ensures var s := Run(Init(threads), steps);
            forall f | f in Touched(s, step) :: f < |s.frames| && s.frames[f].pc != Destroyed
  {
    Reachable(threads, steps);
    TouchesLive(Run(Init(threads), steps), step);
  }

  lemma TouchesLive(s: State, step: Step)
    requires Inv(s) && Enabled(s, step)
    ensures forall f | f in Touched(s, step) :: f < |s.frames| && s.frames[f].pc != Destroyed
  {
    var fs := s.frames;
    forall f | f in Touched(s, step) ensures f < |fs| && fs[f].pc != Destroyed {
      if !step.Spawn? && !step.Wake? && !step.DestroyOrphan? {
        var p := Top(s, step.t);
        assert AsChild(fs, p) && AsParent(fs, p);
        if p != f && f < |fs| { assert AsChild(fs, f); }
        if step.ResumeContinuation? { assert AsParent(fs, fs[p].owner.value); }
      }
    }
  }

  /** What is destroyed or resumed from outside has no thread inside it. */
  lemma OnlyIdleFramesGo(threads: nat, steps: seq<Step>, step: Step)
    requires Enabled(Run(Init(threads), steps), step)
    ensures var s := Run(Init(threads), steps);
            step.Destroy? || step.DestroyOrphan? || step.Await? ==>
              s.frames[step.child].pc.Created? || s.frames[step.child].pc.Done?
  {
    var s := Run(Init(threads), steps);
    Reachable(threads, steps);
    if step.Destroy? || step.DestroyOrphan? || step.Await? {
      var o := s.frames[step.child].owner.value;
      assert AsChild(s.frames, step.child) && AsParent(s.frames, o);
    }
  }

  /**
    * A continuation is resumed at most once, only after the result was stored, and has been resumed exactly
    * when both sides have met and the completer is not just about to do it.
    */
  lemma ResumedOnce(threads: nat, steps: seq<Step>, c: FrameId)
    requires c < |Run(Init(threads), steps).frames|
    ensures var f := Run(Init(threads), steps).frames[c];
            f.resumes <= 1 && (f.resumes == 1 ==> f.result.Some?)
    ensures var f := Run(Init(threads), steps).frames[c];
            f.resumes == 1 <==> f.awaiterEx && f.finalEx && f.pc != ResumeCont
  {
    var s := Run(Init(threads), steps);
    Reachable(threads, steps);
    assert AsChild(s.frames, c);
  }

  // Results -------------------------------------------------------------------------------------

  function After(s: State, step: Step): State { if Enabled(s, step) then Next(s, step) else s }

  /** This step is frame `c` returning or throwing `r`. */
  predicate Ends(s: State, step: Step, c: FrameId, r: Outcome) {
    Enabled(s, step) && step.Finish? && step.r == r && Top(s, step.t) == c
  }

  /** In this run frame `c` returned or threw `r`. */
  predicate EndedWith(s: State, steps: seq<Step>, c: FrameId, r: Outcome)
    decreases |steps|
  {
    steps != [] && (Ends(s, steps[0], c, r) || EndedWith(After(s, steps[0]), steps[1..], c, r))
  }

  predicate Holds(s: State, c: FrameId, r: Outcome) { c < |s.frames| && s.frames[c].result == Some(r) }

  lemma OthersStoreNothing(s: State, step: Step, c: FrameId, r: Outcome)
    requires Enabled(s, step) && !step.Finish?
    ensures Holds(Next(s, step), c, r) <==> Holds(s, c, r)
  {
  }

  lemma FinishStores(s: State, step: Step, c: FrameId, r: Outcome)
    requires Enabled(s, step) && step.Finish? && s.frames[Top(s, step.t)].result.None?
    ensures Holds(Next(s, step), c, r) <==> Holds(s, c, r) || Ends(s, step, c, r)
  {
  }

  /** A result appears by the frame's own end and stays as it is. */
  lemma ResultChanges(s: State, step: Step, c: FrameId, r: Outcome)
    requires Inv(s) && Enabled(s, step)
    ensures Holds(Next(s, step), c, r) <==> Holds(s, c, r) || Ends(s, step, c, r)
  {
    hide StacksOk, FramesOk, Next, Holds;
    if step.Finish? {
      FrameFacts(s.frames, Top(s, step.t));
      FinishStores(s, step, c, r);
    } else {
      OthersStoreNothing(s, step, c, r);
    }
  }

  lemma {:induction false} ResultsInRun(s: State, steps: seq<Step>, c: FrameId, r: Outcome)
    requires Inv(s)
    ensures Holds(Run(s, steps), c, r) <==> Holds(s, c, r) || EndedWith(s, steps, c, r)
    decreases |steps|
  {
    hide Inv, Enabled, Next, Holds, Ends;
    if steps != [] {
      if Enabled(s, steps[0]) {
        NextKeepsInv(s, steps[0]);
        ResultChanges(s, steps[0], c, r);
        ResultsInRun(Next(s, steps[0]), steps[1..], c, r);
      } else {
        NotTaken(s, steps[0], c, r);
        ResultsInRun(s, steps[1..], c, r);
      }
    }
  }

  lemma NotTaken(s: State, step: Step, c: FrameId, r: Outcome)
    requires !Enabled(s, step)
    ensures !Ends(s, step, c, r)
  {
  }

  /** In every run a frame holds an outcome exactly when its coroutine ended with it, so it ends with one only. */
  lemma StoresWhatItReturned(threads: nat, steps: seq<Step>, c: FrameId, r: Outcome)
    ensures Holds(Run(Init(threads), steps), c, r) <==> EndedWith(Init(threads), steps, c, r)
  {
    hide Enabled, Next, StacksOk, FramesOk, EndedWith;
    Reachable(threads, []);
    ResultsInRun(Init(threads), steps, c, r);
  }

  /** What an awaiting frame received is what a child of its own stored. */
  lemma ReceivesChildsResult(threads: nat, steps: seq<Step>, p: FrameId, k: nat)
    requires p < |Run(Init(threads), steps).frames|
    requires k < |Run(Init(threads), steps).frames[p].received|
    ensures var s := Run(Init(threads), steps); var (c, r) := s.frames[p].received[k];
            c < |s.frames| && s.frames[c].owner == Some(p) && EndedWith(Init(threads), steps, c, r)
  {
    hide Enabled, Next, EndedWith;
    var s := Run(Init(threads), steps);
    Reachable(threads, steps);
    FrameFacts(s.frames, p);
    var (c, r) := s.frames[p].received[k];
    StoresWhatItReturned(threads, steps, c, r);
  }

  // Every result arrives -----------------------------------------------------------------------------

  /** The owner of `c` has the result, or is just about to read it. */
  predicate Arrived(fs: seq<Frame>, c: FrameId)
    requires c < |fs|
  {
    && fs[c].owner.Some? && fs[c].owner.value < |fs|
    && (fs[fs[c].owner.value].pc == AwaitResume(c) || HasFrom(fs[fs[c].owner.value].received, c))
  }

  predicate HasFrom(received: seq<(FrameId, Outcome)>, c: FrameId) {
    exists k :: 0 <= k < |received| && received[k].0 == c
  }

  predicate AllArrive(fs: seq<Frame>) {
    forall c | 0 <= c < |fs| && fs[c].resumes == 1 :: Arrived(fs, c)
  }

  lemma HasMore(received: seq<(FrameId, Outcome)>, c: FrameId, got: (FrameId, Outcome))
    ensures HasFrom(received, c) ==> HasFrom(received + [got], c)
    ensures HasFrom(received + [got], got.0)
  {
    if k :| 0 <= k < |received| && received[k].0 == c {
      assert (received + [got])[k].0 == c;
    }
    assert (received + [got])[|received|].0 == got.0;
  }

  /** Nothing of a frame that bears on arrival changes. */
  predicate Quiescent(f: Frame, f': Frame) {
    f'.owner == f.owner && f'.resumes == f.resumes && f'.received == f.received && (f.pc.AwaitResume? ==> f'.pc == f.pc)
  }

  predicate MovesResults(step: Step) { step.ExchangeByAwaiter? || step.ResumeContinuation? || step.ReadResult? }

  lemma OthersAreQuiescent(s: State, step: Step, f: FrameId)
    requires Enabled(s, step) && !MovesResults(step) && f < |Next(s, step).frames|
    requires step.Destroy? || step.DestroyOrphan? ==> !s.frames[step.child].pc.AwaitResume?
    requires step.Await? ==> s.frames[step.child].pc.Created? || s.frames[step.child].pc.Done?
    ensures if f < |s.frames| then Quiescent(s.frames[f], Next(s, step).frames[f])
            else Next(s, step).frames[f].resumes == 0
  {
  }

  lemma ArrivedStill(fs: seq<Frame>, fs': seq<Frame>, c: FrameId)
    requires c < |fs| <= |fs'| && Arrived(fs, c) && Quiescent(fs[c], fs'[c])
    requires Quiescent(fs[fs[c].owner.value], fs'[fs[c].owner.value])
    ensures Arrived(fs', c)
  {
  }

  lemma IdleTarget(s: State, step: Step)
    requires Inv(s) && Enabled(s, step) && (step.Destroy? || step.DestroyOrphan? || step.Await?)
    ensures s.frames[step.child].pc.Created? || s.frames[step.child].pc.Done?
  {
    var o := s.frames[step.child].owner.value;
    FrameFacts(s.frames, step.child);
    FrameFacts(s.frames, o);
    hide FramesOk;
  }

  lemma OthersArrive(s: State, step: Step, c: FrameId)
    requires Inv(s) && AllArrive(s.frames) && Enabled(s, step) && !MovesResults(step)
    requires c < |Next(s, step).frames| && Next(s, step).frames[c].resumes == 1
    ensures Arrived(Next(s, step).frames, c)
  {
    hide Inv, Enabled, Next, Quiescent, Arrived;
    if step.Destroy? || step.DestroyOrphan? || step.Await? { IdleTarget(s, step); }
    OthersAreQuiescent(s, step, c);
    FramesStay(s, step);
    SameResumes(s, step, c);
    var fs := s.frames;
    assert Arrived(fs, c);
    OwnerThere(fs, c);
    OthersAreQuiescent(s, step, fs[c].owner.value);
    ArrivedStill(fs, Next(s, step).frames, c);
  }

  lemma FramesStay(s: State, step: Step)
    requires Enabled(s, step)
    ensures |s.frames| <= |Next(s, step).frames|
  {
  }

  lemma SameResumes(s: State, step: Step, c: FrameId)
    requires Enabled(s, step) && c < |s.frames| && c < |Next(s, step).frames|
    requires Quiescent(s.frames[c], Next(s, step).frames[c])
    ensures s.frames[c].resumes == Next(s, step).frames[c].resumes
  {
    hide Next, Enabled;
  }

  lemma OwnerThere(fs: seq<Frame>, c: FrameId)
    requires c < |fs| && Arrived(fs, c)
    ensures fs[c].owner.Some? && fs[c].owner.value < |fs|
  {
  }

  lemma ReadArrives(s: State, t: nat, c: FrameId)
    requires Inv(s) && AllArrive(s.frames) && Enabled(s, ReadResult(t)) && c < |s.frames| && s.frames[c].resumes == 1
    ensures Arrived(DoReadResult(s, t).frames, c)
  {
    var fs := s.frames;
    var p := Top(s, t);
    var d := fs[p].pc.child;
    FrameFacts(fs, p);
    FrameFacts(fs, d);
    assert Arrived(fs, c);
    hide Inv, AllArrive, HasFrom;
    HasMore(fs[p].received, c, (d, fs[d].result.value));
    HasMore(fs[p].received, d, (d, fs[d].result.value));
  }

  lemma ExchangeArrives(s: State, t: nat, c: FrameId)
    requires Inv(s) && AllArrive(s.frames) && Enabled(s, ExchangeByAwaiter(t)) && c < |s.frames|
    requires DoExchangeAwait(s, t).frames[c].resumes == 1
    ensures Arrived(DoExchangeAwait(s, t).frames, c)
  {
    var fs := s.frames;
    var p := Top(s, t);
    FrameFacts(fs, p);
    if fs[c].resumes == 1 { assert Arrived(fs, c); }
    hide Inv, AllArrive, HasFrom;
  }

  lemma ResumeArrives(s: State, t: nat, c: FrameId)
    requires Inv(s) && AllArrive(s.frames) && Enabled(s, ResumeContinuation(t)) && c < |s.frames|
    requires DoResume(s, t).frames[c].resumes == 1
    ensures Arrived(DoResume(s, t).frames, c)
  {
    var fs := s.frames;
    var f := Top(s, t);
    FrameFacts(fs, f);
    if fs[c].resumes == 1 { assert Arrived(fs, c); }
    hide Inv, AllArrive, HasFrom;
  }

  lemma NextArrives(s: State, step: Step)
    requires Inv(s) && AllArrive(s.frames) && Enabled(s, step)
    ensures AllArrive(Next(s, step).frames)
  {
    hide Inv, Arrived;
    var fs' := Next(s, step).frames;
    forall c | 0 <= c < |fs'| && fs'[c].resumes == 1 ensures Arrived(fs', c) {
      match step {
        case ReadResult(t) => ReadArrives(s, t, c);
        case ExchangeByAwaiter(t) => ExchangeArrives(s, t, c);
        case ResumeContinuation(t) => ResumeArrives(s, t, c);
        case _ => OthersArrive(s, step, c);
      }
    }
  }

  lemma {:induction false} RunArrives(s: State, steps: seq<Step>)
    requires Inv(s) && AllArrive(s.frames)
    ensures AllArrive(Run(s, steps).frames)
    decreases |steps|
  {
    hide Inv, Enabled, Next, AllArrive;
    if steps != [] {
      if Enabled(s, steps[0]) {
        NextKeepsInv(s, steps[0]);
        NextArrives(s, steps[0]);
        RunArrives(Next(s, steps[0]), steps[1..]);
      } else {
        RunArrives(s, steps[1..]);
      }
    }
  }

  /** Once a continuation has been resumed, its frame has the child's outcome or reads it as its next step. */
  lemma EveryResultArrives(threads: nat, steps: seq<Step>, c: FrameId)
    requires c < |Run(Init(threads), steps).frames| && Run(Init(threads), steps).frames[c].resumes == 1
    ensures Arrived(Run(Init(threads), steps).frames, c)
  {
    Reachable(threads, []);
    hide Inv, Enabled, Next, Arrived;
    RunArrives(Init(threads), steps);
  }

  /** Reading a result never finds it missing. */
  lemma ResultIsThere(threads: nat, steps: seq<Step>, t: nat)
    requires Enabled(Run(Init(threads), steps), ReadResult(t))
    ensures var s := Run(Init(threads), steps);
            s.frames[s.frames[Top(s, t)].pc.child].result.Some?
  {
    var s := Run(Init(threads), steps);
    Reachable(threads, steps);
    var p := Top(s, t);
    assert AsParent(s.frames, p) && AsChild(s.frames, s.frames[p].pc.child);
  }

  /** A thread that is inside a frame can always take its next step there. */
  lemma NeverStuck(threads: nat, steps: seq<Step>, t: nat) returns (step: Step)
    requires t < |Run(Init(threads), steps).threads| && Run(Init(threads), steps).threads[t] != []
    ensures Enabled(Run(Init(threads), steps), step) && !step.DestroyOrphan? && step.t == t
  {
    var s := Run(Init(threads), steps);
    Reachable(threads, steps);
    var p := s.threads[t][|s.threads[t]| - 1];
    assert OnStack(s.frames[p].pc) && AsParent(s.frames, p);
    step := match s.frames[p].pc
      case StoreCont(_) => StoreContinuation(t)
      case ExchangeAwait(_) => ExchangeByAwaiter(t)
      case AwaitResume(_) => ReadResult(t)
      case ExchangeFinal => ExchangeByFinal(t)
      case ResumeCont => ResumeContinuation(t)
      case _ => Suspend(t);
  }

  predicate Quiet(s: State) {
    && (forall t | 0 <= t < |s.threads| :: s.threads[t] == [])
    && (forall f | 0 <= f < |s.frames| :: s.frames[f].pc != External)
  }

  lemma {:induction false} WaitsForNobody(s: State, p: FrameId)
    requires Inv(s) && Quiet(s) && p < |s.frames|
    ensures !s.frames[p].pc.Waiting?
    decreases |s.frames| - p
  {
    var fs := s.frames;
    assert AsParent(fs, p);
    if fs[p].pc.Waiting? {
      var c := fs[p].pc.child;
      assert AsChild(fs, c);
      assert !OnStack(fs[c].pc);
      WaitsForNobody(s, c);
    }
  }

  /** Then what is not running is not about to read a result either. */
  lemma NobodyIsReading(s: State, p: FrameId)
    requires StacksOk(s) && Quiet(s) && p < |s.frames|
    ensures !s.frames[p].pc.AwaitResume?
  {
  }

  /** Every awaited frame has resumed its owner, which has its outcome. */
  predicate Settled(fs: seq<Frame>, f: FrameId)
    requires f < |fs|
  {
    && !fs[f].pc.Waiting?
    && (fs[f].awaited ==>
          && fs[f].resumes == 1 && fs[f].owner.Some? && fs[f].owner.value < |fs|
          && HasFrom(fs[fs[f].owner.value].received, f))
  }

  /** No wake-up is lost: once threads are idle and nothing outside is pending, every await has been answered. */
  lemma NoLostWakeup(threads: nat, steps: seq<Step>)
    requires Quiet(Run(Init(threads), steps))
    ensures var s := Run(Init(threads), steps); forall f | 0 <= f < |s.frames| :: Settled(s.frames, f)
  {
    hide HasFrom, Enabled, Next;
    var s := Run(Init(threads), steps);
    Reachable(threads, steps);
    forall f | 0 <= f < |s.frames| ensures Settled(s.frames, f) {
      WaitsForNobody(s, f);
      FrameFacts(s.frames, f);
      if s.frames[f].awaited {
        WaitsForNobody(s, s.frames[f].owner.value);
        assert s.frames[f].resumes == 1;
        EveryResultArrives(threads, steps, f);
        NobodyIsReading(s, s.frames[f].owner.value);
      }
    }
  }

  // All three meetings do happen --------------------------------------------------------------------

  /** The child ends before the parent's exchange, after it, or between its two steps on another thread. */
  datatype Meeting = Inline | Resumed | Raced

  function Schedule(m: Meeting, r: Outcome): seq<Step> {
    [Spawn(0), Create(0), Await(0, 1)] +
    match m
    case Inline =>
      [Finish(0, r), ExchangeByFinal(0), StoreContinuation(0), ExchangeByAwaiter(0), ReadResult(0)]
    case Resumed =>
      [Suspend(0), StoreContinuation(0), ExchangeByAwaiter(0), Wake(1, 1), Finish(1, r), ExchangeByFinal(1),
       ResumeContinuation(1), ReadResult(1)]
    case Raced =>
      [Suspend(0), StoreContinuation(0), Wake(1, 1), Finish(1, r), ExchangeByFinal(1), ExchangeByAwaiter(0),
       ReadResult(0)]
  }

  lemma RunStep(s: State, steps: seq<Step>)
    requires steps != [] && Enabled(s, steps[0])
    ensures Run(s, steps) == Run(Next(s, steps[0]), steps[1..])
  {
  }

  /** The parent runs on thread 0 and has just entered its child. */
  function Entered(): State {
    State([NewFrame(None, StoreCont(1)).(at := Place(0, 0)),
           NewFrame(Some(0), Running).(at := Place(0, 1), awaited := true)], [[0, 1], []])
  }

  lemma EntersChild(steps: seq<Step>)
    requires |steps| >= 3 && steps[..3] == [Spawn(0), Create(0), Await(0, 1)]
    ensures Run(Init(2), steps) == Run(Entered(), steps[3..])
  {
    var s0 := Init(2);
    assert steps[0] == steps[..3][0] && steps[1] == steps[..3][1] && steps[2] == steps[..3][2];
    RunStep(s0, steps);
    var s1 := Next(s0, steps[0]);
    RunStep(s1, steps[1..]);
    var s2 := Next(s1, steps[1]);
    RunStep(s2, steps[1..][1..]);
    assert steps[1..][1..][1..] == steps[3..];
    assert Next(s2, steps[2]).frames == Entered().frames;
    assert Next(s2, steps[2]).threads[0] == [0, 1];
    assert Next(s2, steps[2]).threads == Entered().threads;
  }

  function Parent(pc: Pc): Frame { NewFrame(None, pc).(at := Place(0, 0)) }

  function Child(pc: Pc, at: Place, cont: Option<FrameId>): Frame {
    NewFrame(Some(0), pc).(at := at, awaited := true, cont := cont)
  }

  /** The child has ended inside the parent's `await_suspend`. */
  function EndedInside(r: Outcome): State {
    State([Parent(StoreCont(1)), Child(Done, Place(0, 1), None).(result := Some(r), state := true, finalEx := true)],
          [[0], []])
  }

  /** The child is suspended and the parent has stored its continuation. */
  function Stored(): State {
    State([Parent(ExchangeAwait(1)), Child(External, Place(0, 1), Some(0))], [[0], []])
  }

  /** The child goes on on thread 1 while the parent waits. */
  function WokenLate(): State {
    State([Parent(Waiting(1)), Child(Running, Place(1, 0), Some(0)).(state := true, awaiterEx := true)], [[], [1]])
  }

  /** The child goes on on thread 1 before the parent has exchanged the flag. */
  function WokenEarly(): State {
    State([Parent(ExchangeAwait(1)), Child(Running, Place(1, 0), Some(0))], [[0], [1]])
  }

  lemma TwoStacks()
    ensures Pop([[0, 1], []], 0) == [[0], []] && Pop([[0], []], 0) == [[], []]
    ensures Push([[], []], 1, 1) == [[], [1]] && Push([[0], []], 1, 1) == [[0], [1]]
  {
    assert [0, 1][..1] == [0];
    assert [[0, 1], []][0 := [0]] == [[0], []];
    assert [[0], []][0 := []] == [[], []];
    var none: seq<FrameId> := [];
    assert none + [1] == [1];
    assert [none, none][1 := [1]] == [none, [1]];
    assert [[0], none][1 := [1]] == [[0], [1]];
  }

  lemma EndsInside(r: Outcome, steps: seq<Step>)
    requires |steps| >= 2 && steps[..2] == [Finish(0, r), ExchangeByFinal(0)]
    ensures Run(Entered(), steps) == Run(EndedInside(r), steps[2..])
  {
    TwoStacks();
    hide Pop, Push;
    assert steps[0] == steps[..2][0] && steps[1] == steps[..2][1];
    var s0 := Entered();
    RunStep(s0, steps);
    var s1 := Next(s0, steps[0]);
    RunStep(s1, steps[1..]);
    var s2 := Next(s1, steps[1]);
    assert s2.frames == EndedInside(r).frames;
    assert s2.threads == EndedInside(r).threads;
  }

  lemma InlineArrives(r: Outcome, steps: seq<Step>)
    requires |steps| >= 3 && steps[..3] == [StoreContinuation(0), ExchangeByAwaiter(0), ReadResult(0)]
    requires |steps| == 3
    ensures var s := Run(EndedInside(r), steps); |s.frames| == 2 && s.frames[0].received == [(1, r)]
  {
    assert steps[0] == steps[..3][0] && steps[1] == steps[..3][1] && steps[2] == steps[..3][2];
    var s0 := EndedInside(r);
    RunStep(s0, steps);
    var s1 := Next(s0, steps[0]);
    RunStep(s1, steps[1..]);
    var s2 := Next(s1, steps[1]);
    RunStep(s2, steps[2..]);
    assert steps[3..] == [];
  }

  lemma StoresFirst(steps: seq<Step>)
    requires |steps| >= 2 && steps[..2] == [Suspend(0), StoreContinuation(0)]
    ensures Run(Entered(), steps) == Run(Stored(), steps[2..])
  {
    TwoStacks();
    hide Pop, Push;
    assert steps[0] == steps[..2][0] && steps[1] == steps[..2][1];
    var s0 := Entered();
    RunStep(s0, steps);
    var s1 := Next(s0, steps[0]);
    RunStep(s1, steps[1..]);
    var s2 := Next(s1, steps[1]);
    assert s2.frames == Stored().frames;
    assert s2.threads == Stored().threads;
  }

  lemma WakesLate(steps: seq<Step>)
    requires |steps| >= 2 && steps[..2] == [ExchangeByAwaiter(0), Wake(1, 1)]
    ensures Run(Stored(), steps) == Run(WokenLate(), steps[2..])
  {
    TwoStacks();
    hide Pop, Push;
    assert steps[0] == steps[..2][0] && steps[1] == steps[..2][1];
    var s0 := Stored();
    RunStep(s0, steps);
    var s1 := Next(s0, steps[0]);
    RunStep(s1, steps[1..]);
    var s2 := Next(s1, steps[1]);
    assert s2.frames == WokenLate().frames;
    assert s2.threads == WokenLate().threads;
  }

  lemma WakesEarly(steps: seq<Step>)
    requires |steps| >= 1 && steps[..1] == [Wake(1, 1)]
    ensures Run(Stored(), steps) == Run(WokenEarly(), steps[1..])
  {
    TwoStacks();
    hide Pop, Push;
    assert steps[0] == steps[..1][0];
    var s0 := Stored();
    RunStep(s0, steps);
    var s1 := Next(s0, steps[0]);
    assert s1.frames == WokenEarly().frames;
    assert s1.threads == WokenEarly().threads;
  }

  lemma ResumedArrives(r: Outcome, steps: seq<Step>)
    requires |steps| >= 4 && steps[..4] == [Finish(1, r), ExchangeByFinal(1), ResumeContinuation(1), ReadResult(1)]
    requires |steps| == 4
    ensures var s := Run(WokenLate(), steps); |s.frames| == 2 && s.frames[0].received == [(1, r)]
  {
    assert steps[0] == steps[..4][0] && steps[1] == steps[..4][1] && steps[2] == steps[..4][2];
    assert steps[3] == steps[..4][3];
    var s0 := WokenLate();
    RunStep(s0, steps);
    var s1 := Next(s0, steps[0]);
    RunStep(s1, steps[1..]);
    var s2 := Next(s1, steps[1]);
    RunStep(s2, steps[2..]);
    var s3 := Next(s2, steps[2]);
    RunStep(s3, steps[3..]);
    assert steps[4..] == [];
  }

  lemma RacedArrives(r: Outcome, steps: seq<Step>)
    requires |steps| >= 4 && steps[..4] == [Finish(1, r), ExchangeByFinal(1), ExchangeByAwaiter(0), ReadResult(0)]
    requires |steps| == 4
    ensures var s := Run(WokenEarly(), steps); |s.frames| == 2 && s.frames[0].received == [(1, r)]
  {
    assert steps[0] == steps[..4][0] && steps[1] == steps[..4][1] && steps[2] == steps[..4][2];
    assert steps[3] == steps[..4][3];
    var s0 := WokenEarly();
    RunStep(s0, steps);
    var s1 := Next(s0, steps[0]);
    RunStep(s1, steps[1..]);
    var s2 := Next(s1, steps[1]);
    RunStep(s2, steps[2..]);
    var s3 := Next(s2, steps[2]);
    RunStep(s3, steps[3..]);
    assert steps[4..] == [];
  }

  /** On two threads each of the three delivers the outcome, whatever it is. */
  lemma MeetingsHappen(m: Meeting, r: Outcome)
    ensures var s := Run(Init(2), Schedule(m, r)); |s.frames| == 2 && s.frames[0].received == [(1, r)]
  {
    hide Run;
    var steps := Schedule(m, r);
    EntersChild(steps);
    match m {
      case Inline =>
        EndsInside(r, steps[3..]);
        InlineArrives(r, steps[3..][2..]);
      case Resumed =>
        StoresFirst(steps[3..]);
        WakesLate(steps[3..][2..]);
        ResumedArrives(r, steps[3..][2..][2..]);
      case Raced =>
        StoresFirst(steps[3..]);
        WakesEarly(steps[3..][2..]);
        RacedArrives(r, steps[3..][2..][1..]);
    }
  }
}
