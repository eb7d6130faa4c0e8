/** Runs of a Request's pipeline: any interleaving of appends, resume, suspend, cancel and
    finish with the blocks on the request's queues. */
module RequestRuns {
  import opened Wrappers
  import opened RequestPipeline

  // ------------------------------------------------ a request among its queues

  /** What the block running on the underlying queue is about to do: nothing, look for the
      next serializer, clear everything, or call these completions. */
  datatype Worker = Idle | Looking | Clearing | Calling(rest: seq<Id>)

  datatype System = System(
    shared: Shared,
    worker: Worker,
    pending: nat,                // calls of processNextResponseSerializer dispatched by appends
    serializationQueue: seq<Id>, // serializers dispatched and not run
    parsed: seq<Id>,             // serializers run whose block on the underlying queue has not
    began: bool,                 // whether finish has been called
    appended: seq<Id>,           // what has happened, in order
    dispatched: seq<Id>,
    ran: seq<Id>,
    called: seq<Id>)

  datatype Step =
    | Append(id: Id)
    | Resume
    | Suspend
    | Cancel
    | Finish
    | RunPending
    | LookForNext
    | Clear
    | CallCompletion
    | RunSerializer
    | DidComplete

  const INITIAL: System := System(Shared(Initialized, [], [], false, false), Idle, 0, [], [], false, [], [], [], [])

  /** Blocks of the underlying queue start when it is idle; the lock-only operations of other
      threads are possible at any time. */
  predicate Enabled(y: System, step: Step) {
    match step
    case Append(_) => true
    case Resume => true
    case Suspend => true
    case Cancel => true
    case Finish => y.worker.Idle?
    case RunPending => y.worker.Idle? && y.pending > 0
    case LookForNext => y.worker.Looking?
    case Clear => y.worker.Clearing?
    case CallCompletion => y.worker.Calling?
    case RunSerializer => y.serializationQueue != []
    case DidComplete => y.worker.Idle? && y.parsed != []
  }

  /** The serializer is handed to the serialization queue. */
  function Dispatch(y: System, id: Id): System {
    y.(serializationQueue := y.serializationQueue + [id], dispatched := y.dispatched + [id])
  }

  function Next(y: System, step: Step): System
    requires Enabled(y, step)
  {
    match step
    case Append(id) =>
      y.(shared := AfterAppend(y.shared, id), pending := y.pending + if y.shared.processingFinished then 1 else 0,
         appended := y.appended + [id])
    case Resume => y.(shared := AfterTransition(y.shared, Resumed))
    case Suspend => y.(shared := AfterTransition(y.shared, Suspended))
    case Cancel => y.(shared := AfterTransition(y.shared, Cancelled))
    case Finish =>
      y.(shared := y.shared.(isFinishing := true), began := true, worker := if y.shared.isFinishing then Idle else Looking)
    case RunPending => y.(pending := y.pending - 1, worker := Looking)
    case LookForNext =>
      var next := NextSerializer(y.shared);
      if next.None? then y.(worker := Clearing)
      else Dispatch(y.(worker := Idle), next.value)
    case Clear => y.(shared := AfterClear(y.shared), worker := Calling(y.shared.completions))
    case CallCompletion =>
      if y.worker.rest == [] then y.(worker := Idle)
      else y.(worker := Calling(y.worker.rest[1..]), called := y.called + [y.worker.rest[0]])
    case RunSerializer =>
      var id := y.serializationQueue[0];
      y.(serializationQueue := y.serializationQueue[1..], ran := y.ran + [id], parsed := y.parsed + [id])
    case DidComplete =>
      y.(shared := y.shared.(completions := y.shared.completions + [y.parsed[0]]), parsed := y.parsed[1..],
         worker := Looking)
  }

  /** Steps that are not enabled when their turn comes are passed over. */
  function Run(y: System, steps: seq<Step>): System
    decreases |steps|
  {
    if steps == [] then y
    else Run(if Enabled(y, steps[0]) then Next(y, steps[0]) else y, steps[1..])
  }

  /** A block of the pipeline itself, as opposed to calls from outside. */
  predicate Internal(step: Step) {
    step.RunPending? || step.LookForNext? || step.Clear? || step.CallCompletion? || step.RunSerializer?
    || step.DidComplete?
  }

  // ------------------------------------------------ when to append and to finish

  /** How many looks for a serializer are under way: dispatched by an append, about to be
      made, or to be made when the serializer they found has completed. */
  function Looks(y: System): nat {
    y.pending + |y.serializationQueue| + |y.parsed| + if y.worker.Looking? then 1 else 0
  }

  /** The conditions under which serializers run in order and once. An append must not come
      between the look that finds none left and the clearing; after the first clearing it
      dispatches a look of its own, and there must be no other. A finish that is not ignored
      begins to look, and then too there must be no other look. */
  predicate Allowed(y: System, step: Step) {
    match step
    case Append(_) => !y.worker.Clearing? && (y.shared.processingFinished ==> Looks(y) == 0)
    case Finish => y.shared.isFinishing || Looks(y) == 0
    case _ => true
  }

  predicate Careful(y: System, steps: seq<Step>)
    decreases |steps|
  {
    if steps == [] then true
    else if Enabled(y, steps[0]) then Allowed(y, steps[0]) && Careful(Next(y, steps[0]), steps[1..])
    else Careful(y, steps[1..])
  }

  // ------------------------------------------------ the stages of a request

  /** How many serializers were appended before those that are not cleared yet. */
  function Base(y: System): int {
    |y.appended| - |y.shared.serializers|
  }

  predicate NoneInFlight(y: System) {
    y.serializationQueue == [] == y.parsed
  }

  /** All completions before the current batch have been called, or are being called. */
  predicate CalledUpTo(y: System, n: nat)
    requires n <= |y.appended|
  {
    (if y.worker.Calling? then y.called + y.worker.rest else y.called) == y.appended[..n]
  }

  /** Before finish. */
  predicate Gathering(y: System) {
    var s := y.shared;
    !y.began && y.worker.Idle? && y.pending == 0 && NoneInFlight(y) && y.dispatched == [] == y.ran
    && s.serializers == y.appended && s.completions == [] && !s.isFinishing && y.called == []
    && !s.state.Finished? && !s.processingFinished
  }

  /** Where the look is, in a batch of which `k` serializers have completed. */
  predicate OneLook(y: System, base: nat, k: nat)
    requires base + k <= |y.appended|
  {
    match y.worker
    case Idle =>
      if y.pending > 0 then
        y.pending == 1 && k == 0 && NoneInFlight(y) && y.dispatched == y.ran == y.appended[..base]
      else
        base + k < |y.appended| && y.dispatched == y.appended[..base + k + 1]
        && (if y.parsed == [] then
              y.serializationQueue == [y.appended[base + k]] && y.ran == y.appended[..base + k]
            else
              y.serializationQueue == [] && y.parsed == [y.appended[base + k]] && y.ran == y.appended[..base + k + 1])
    case Looking => y.pending == 0 && NoneInFlight(y) && y.dispatched == y.ran == y.appended[..base + k]
    case Clearing =>
      y.pending == 0 && NoneInFlight(y) && base + k == |y.appended| && y.dispatched == y.ran == y.appended
    case Calling(_) => y.pending == 1 && k == 0 && NoneInFlight(y) && y.dispatched == y.ran == y.appended[..base]
  }

  /** While a batch of serializers is run: all that were appended before the first clearing,
      or one appended later. */
  predicate Serializing(y: System) {
    var s, base, k := y.shared, Base(y), |y.shared.completions|;
    y.began && !s.state.Finished? && 0 <= base && base + k <= |y.appended|
    && s.serializers == y.appended[base..] && s.completions == y.appended[base..base + k]
    && (if s.processingFinished then |s.serializers| == 1 && !s.isFinishing
        else base == 0 == y.pending && s.isFinishing)
    && CalledUpTo(y, base) && OneLook(y, base, k)
  }

  /** After the serializers have been cleared. */
  predicate Delivering(y: System) {
    var s := y.shared;
    y.began && y.pending == 0 && s.serializers == [] == s.completions && s.processingFinished && NoneInFlight(y)
    && y.dispatched == y.ran == y.appended && CalledUpTo(y, |y.appended|)
    && s.isFinishing == (y.worker.Looking? || y.worker.Clearing?) && (s.state.Finished? || s.state.Cancelled?)
  }

  predicate Inv(y: System) {
    Gathering(y) || Serializing(y) || Delivering(y)
  }

  lemma AppendToBatchKeeps(y: System, id: Id)
    requires Serializing(y) && Allowed(y, Append(id))
    ensures Serializing(Next(y, Append(id)))
  {
    var z, base, k := Next(y, Append(id)), Base(y), |y.shared.completions|;
    assert !y.shared.processingFinished && !y.worker.Clearing?;
    assert Base(z) == base == 0 && z.appended == y.appended + [id] && z.shared.serializers == z.appended;
    assert forall n: nat :: n <= |y.appended| ==> z.appended[..n] == y.appended[..n];
    assert z == y.(shared := z.shared, appended := z.appended);
    assert CalledUpTo(z, base) && OneLook(z, base, k);
  }

  lemma AppendKeeps(y: System, id: Id)
    requires Inv(y) && Allowed(y, Append(id))
    ensures Inv(Next(y, Append(id)))
  {
    var z := Next(y, Append(id));
    if Serializing(y) {
      AppendToBatchKeeps(y, id);
    } else if Delivering(y) {
      var n := |y.appended|;
      assert z.appended[..n] == y.appended && z.appended[n..] == [id] && Base(z) == n;
      assert CalledUpTo(z, n) && OneLook(z, n, 0);
      assert Serializing(z);
    } else {
      assert Gathering(z);
    }
  }

  lemma TransitionInBatchKeeps(y: System, state: State)
    requires Serializing(y) && !state.Finished?
    ensures Serializing(y.(shared := y.shared.(state := state)))
  {
    var z := y.(shared := y.shared.(state := state));
    assert Base(z) == Base(y) && CalledUpTo(z, Base(z)) && OneLook(z, Base(z), |z.shared.completions|);
  }

  lemma TransitionKeeps(y: System, to: State)
    requires Inv(y) && (to.Resumed? || to.Suspended? || to.Cancelled?)
    ensures Inv(y.(shared := AfterTransition(y.shared, to)))
  {
    var z := y.(shared := AfterTransition(y.shared, to));
    assert z == y.(shared := y.shared.(state := z.shared.state));
    if Gathering(y) {
      assert Gathering(z);
    } else if Serializing(y) {
      TransitionInBatchKeeps(y, z.shared.state);
    } else {
      assert Delivering(z);
    }
  }

  lemma FinishKeeps(y: System)
    requires Inv(y) && y.worker.Idle? && Allowed(y, Finish)
    ensures Inv(Next(y, Finish))
  {
    var z := Next(y, Finish);
    if Gathering(y) { assert Serializing(z); } else if Serializing(y) { assert z == y; } else { assert Delivering(z); }
  }

  lemma LookingKeeps(y: System)
    requires Serializing(y) && y.worker.Looking?
    ensures Serializing(Next(y, LookForNext))
  {
    var n, k, z := Base(y) + |y.shared.completions|, |y.shared.completions|, Next(y, LookForNext);
    assert y.dispatched == y.ran == y.appended[..n] && NoneInFlight(y);
    if n < |y.appended| {
      var id := y.appended[n];
      assert y.appended[..n + 1] == y.appended[..n] + [id];
      assert y.shared.serializers[k] == id;
      assert z == y.(worker := Idle, serializationQueue := [id], dispatched := y.dispatched + [id]);
      assert OneLook(z, Base(z), k);
    } else {
      assert z == y.(worker := Clearing) && y.appended[..n] == y.appended;
      assert OneLook(z, Base(z), k);
    }
    assert CalledUpTo(z, Base(z));
  }

  lemma LookKeeps(y: System)
    requires Inv(y) && y.worker.Looking?
    ensures Inv(Next(y, LookForNext))
  {
    if Serializing(y) {
      LookingKeeps(y);
    } else {
      assert Delivering(y) && Delivering(Next(y, LookForNext));
    }
  }

  lemma InFlight(y: System)
    requires Inv(y) && (y.serializationQueue != [] || y.parsed != [])
    ensures Serializing(y) && y.worker.Idle? && y.pending == 0 && Base(y) + |y.shared.completions| < |y.appended|
  {
  }

  lemma RunSerializerKeeps(y: System)
    requires Inv(y) && y.serializationQueue != []
    ensures Inv(Next(y, RunSerializer))
  {
    InFlight(y);
    var n := Base(y) + |y.shared.completions|;
    var id := y.appended[n];
    assert y.parsed == [] && y.serializationQueue == [id] && y.ran == y.appended[..n];
    assert y.appended[..n + 1] == y.appended[..n] + [id];
    var z := Next(y, RunSerializer);
    assert z == y.(serializationQueue := [], ran := y.ran + [id], parsed := [id]);
    assert Serializing(z);
  }

  lemma CompletesInBatch(y: System)
    requires Serializing(y) && y.worker.Idle? && y.pending == 0 && y.parsed != []
    ensures Serializing(Next(y, DidComplete))
  {
    var base, k, z := Base(y), |y.shared.completions|, Next(y, DidComplete);
    var id := y.appended[base + k];
    assert y.parsed == [id] && y.dispatched == y.ran == y.appended[..base + k + 1] && y.serializationQueue == [];
    assert y.appended[base..base + k + 1] == y.appended[base..base + k] + [id];
    assert z == y.(shared := y.shared.(completions := y.shared.completions + [id]), parsed := [], worker := Looking);
    assert Base(z) == base && CalledUpTo(z, base) && OneLook(z, base, k + 1);
  }

  lemma DidCompleteKeeps(y: System)
    requires Inv(y) && Enabled(y, DidComplete)
    ensures Inv(Next(y, DidComplete))
  {
    InFlight(y);
    CompletesInBatch(y);
  }

  lemma ClearKeeps(y: System)
    requires Inv(y) && y.worker.Clearing?
    ensures Inv(Next(y, Clear))
  {
    assert y.called + y.shared.completions == y.appended;
  }

  lemma CallCompletionKeeps(y: System)
    requires Inv(y) && y.worker.Calling?
    ensures Inv(Next(y, CallCompletion))
  {
    var rest := y.worker.rest;
    if rest != [] { assert (y.called + [rest[0]]) + rest[1..] == y.called + rest; }
  }

  lemma RunPendingKeeps(y: System)
    requires Inv(y) && Enabled(y, RunPending)
    ensures Inv(Next(y, RunPending))
  {
  }

  lemma StepKeeps(y: System, step: Step)
    requires Inv(y) && Enabled(y, step) && Allowed(y, step)
    ensures Inv(Next(y, step))
  {
    match step
    case Append(id) => AppendKeeps(y, id);
    case RunPending => RunPendingKeeps(y);
    case LookForNext => LookKeeps(y);
    case RunSerializer => RunSerializerKeeps(y);
    case DidComplete => DidCompleteKeeps(y);
    case Clear => ClearKeeps(y);
    case CallCompletion => CallCompletionKeeps(y);
    case Finish => FinishKeeps(y);
    case Resume => TransitionKeeps(y, Resumed);
    case Suspend => TransitionKeeps(y, Suspended);
    case Cancel => TransitionKeeps(y, Cancelled);
  }

  lemma {:induction false} RunKeeps(y: System, steps: seq<Step>)
    requires Inv(y) && Careful(y, steps)
    ensures Inv(Run(y, steps))
    decreases |steps|
  {
    if steps != [] {
      if Enabled(y, steps[0]) { StepKeeps(y, steps[0]); }
      RunKeeps(if Enabled(y, steps[0]) then Next(y, steps[0]) else y, steps[1..]);
    }
  }

  // ------------------------------------------------ what careful runs keep

  /** In every careful run serializers are dispatched and run in the order they were
      appended, each once; a completion is called only after the whole batch it belongs to has
      run and been cleared, and completions are called in the same order, each once. A
      finished request has run them all. */
  lemma InOrderAndOnce(steps: seq<Step>)
    requires Careful(INITIAL, steps)
    ensures var y := Run(INITIAL, steps);
            0 <= Base(y) && y.called <= y.appended[..Base(y)] <= y.ran <= y.dispatched <= y.appended
            && |y.dispatched| <= |y.ran| + 1 && (y.shared.state.Finished? ==> y.ran == y.appended)
  {
    RunKeeps(INITIAL, steps);
    OrderOf(Run(INITIAL, steps));
  }

  lemma OrderOf(y: System)
    requires Inv(y)
    ensures 0 <= Base(y) && y.called <= y.appended[..Base(y)] <= y.ran <= y.dispatched <= y.appended
    ensures |y.dispatched| <= |y.ran| + 1 && (y.shared.state.Finished? ==> y.ran == y.appended)
  {
    if y.worker.Calling? { assert y.called <= y.called + y.worker.rest; }
  }

  /** Appends before the first clearing, and not during it. */
  predicate AppendsBeforeClearing(y: System, steps: seq<Step>)
    decreases |steps|
  {
    if steps == [] then true
    else
      (steps[0].Append? ==> !y.shared.processingFinished && !y.worker.Clearing?)
      && AppendsBeforeClearing(if Enabled(y, steps[0]) then Next(y, steps[0]) else y, steps[1..])
  }

  /** An append has been made after the first clearing and its serializer is not cleared. */
  predicate Late(y: System) {
    y.shared.processingFinished && y.shared.serializers != []
  }

  lemma NotLateStays(y: System, step: Step)
    requires Inv(y) && !Late(y) && Enabled(y, step)
    requires step.Append? ==> !y.shared.processingFinished && !y.worker.Clearing?
    ensures Allowed(y, step) && !Late(Next(y, step))
  {
  }

  /** Then finish may be repeated at any time: such runs are careful. */
  lemma {:induction false} AppendsBeforeClearingAreCareful(y: System, steps: seq<Step>)
    requires Inv(y) && !Late(y) && AppendsBeforeClearing(y, steps)
    ensures Careful(y, steps)
    decreases |steps|
  {
    if steps != [] {
      if Enabled(y, steps[0]) {
        NotLateStays(y, steps[0]);
        StepKeeps(y, steps[0]);
      }
      AppendsBeforeClearingAreCareful(if Enabled(y, steps[0]) then Next(y, steps[0]) else y, steps[1..]);
    }
  }

  // ------------------------------------------------ and it ends

  /** How many blocks are still to run before the pipeline is at rest. */
  function Work(y: System): int {
    var s := y.shared;
    var left := 3 * (|s.serializers| - |s.completions|) + |s.serializers|;
    (if y.pending > 0 then left + 4 else 0)
    + match y.worker
      case Looking => left + 3
      case Clearing => |s.serializers| + 2
      case Calling(rest) => |rest| + 1
      case Idle => if y.serializationQueue != [] then left + 2 else if y.parsed != [] then left + 1 else 0
  }

  /** Once finish has been called, every block of the pipeline uses up one piece of work. */
  lemma BlockUsesWork(y: System, step: Step)
    requires Inv(y) && y.began && Enabled(y, step) && Internal(step)
    ensures Work(Next(y, step)) == Work(y) - 1
  {
    var z := Next(y, step);
    match step
    case RunPending => assert z.pending == 0 && z.shared == y.shared;
    case LookForNext => assert y.pending == 0 && z.shared == y.shared;
    case Clear => assert z.shared.serializers == [];
    case CallCompletion => assert z.pending == y.pending && z.shared == y.shared;
    case RunSerializer =>
      InFlight(y);
      assert z.serializationQueue == [] && |z.parsed| == 1 && z.shared == y.shared;
    case DidComplete =>
      InFlight(y);
      assert z.parsed == [] && |z.shared.completions| == |y.shared.completions| + 1;
  }

  predicate AllDone(y: System) {
    Delivering(y) && y.called == y.appended
  }

  /** Resume, suspend and cancel leave the work as it is, and so does a finish, unless all is
      done. */
  lemma CallAddsNoWork(y: System, step: Step)
    requires Inv(y) && y.began && Enabled(y, step) && Allowed(y, step) && !Internal(step) && !step.Append?
    ensures Work(Next(y, step)) == Work(y) || (step.Finish? && AllDone(y))
  {
  }

  lemma WorkIsOwed(y: System)
    requires Inv(y) && y.began
    ensures 0 <= Work(y) && (Work(y) == 0 ==> AllDone(y))
  {
  }

  lemma DoneStays(y: System, step: Step)
    requires AllDone(y) && Enabled(y, step) && !step.Append?
    ensures AllDone(Next(y, step)) && Allowed(y, step)
  {
  }

  lemma {:induction false} DoneForGood(y: System, steps: seq<Step>)
    requires AllDone(y) && forall step :: step in steps ==> !step.Append?
    ensures AllDone(Run(y, steps))
    decreases |steps|
  {
    if steps != [] {
      if Enabled(y, steps[0]) { DoneStays(y, steps[0]); }
      DoneForGood(if Enabled(y, steps[0]) then Next(y, steps[0]) else y, steps[1..]);
    }
  }

  /** How many blocks of the pipeline a run gets to. */
  function BlocksRun(y: System, steps: seq<Step>): nat
    decreases |steps|
  {
    if steps == [] then 0
    else if !Enabled(y, steps[0]) then BlocksRun(y, steps[1..])
    else (if Internal(steps[0]) then 1 else 0) + BlocksRun(Next(y, steps[0]), steps[1..])
  }

  lemma {:induction false} WorkGetsDone(y: System, steps: seq<Step>)
    requires Inv(y) && y.began && Careful(y, steps) && forall step :: step in steps ==> !step.Append?
    ensures BlocksRun(y, steps) >= Work(y) ==> AllDone(Run(y, steps))
    ensures BlocksRun(y, steps) > Work(y) ==> exists step :: step in steps && step.Finish?
    decreases |steps|
  {
    if steps == [] {
      WorkIsOwed(y);
    } else if !Enabled(y, steps[0]) {
      WorkGetsDone(y, steps[1..]);
    } else {
      var step, z := steps[0], Next(y, steps[0]);
      StepKeeps(y, step);
      if AllDone(y) { DoneForGood(y, steps); }
      if Internal(step) { BlockUsesWork(y, step); } else { CallAddsNoWork(y, step); }
      WorkGetsDone(z, steps[1..]);
    }
  }

  /** In every careful run: once finish has been called, whatever is called from outside,
      finish included, every completion has been called by the time the pipeline has run as
      many further blocks as there was work; and without a finish it runs no more than that.
      Unless a late serializer is under way, finish needs no care. */
  lemma PipelineEnds(steps: seq<Step>, more: seq<Step>)
    requires Careful(INITIAL, steps) && Run(INITIAL, steps).began
    requires forall step :: step in more ==> !step.Append?
    requires Late(Run(INITIAL, steps)) ==> Careful(Run(INITIAL, steps), more)
    ensures var y, z := Run(INITIAL, steps), Run(Run(INITIAL, steps), more);
            (BlocksRun(y, more) >= Work(y) ==>
               z.called == z.appended && (z.shared.state == Finished || z.shared.state == Cancelled))
            && ((forall step :: step in more ==> !step.Finish?) ==> BlocksRun(y, more) <= Work(y))
  {
    RunKeeps(INITIAL, steps);
    var y := Run(INITIAL, steps);
    if !Late(y) {
      NoAppends(y, more);
      AppendsBeforeClearingAreCareful(y, more);
    }
    WorkGetsDone(y, more);
  }

  lemma {:induction false} NoAppends(y: System, steps: seq<Step>)
    requires forall step :: step in steps ==> !step.Append?
    ensures AppendsBeforeClearing(y, steps)
    decreases |steps|
  {
    if steps != [] { NoAppends(if Enabled(y, steps[0]) then Next(y, steps[0]) else y, steps[1..]); }
  }

  /** And until then a block can run: in every careful run, once finish has been called,
      either no work is left and all completions have been called, or some block of the
      pipeline is enabled. */
  lemma WorkIsNotStuck(steps: seq<Step>) returns (step: Step)
    requires Careful(INITIAL, steps)
    ensures var y := Run(INITIAL, steps);
            y.began ==> if Work(y) == 0 then y.called == y.appended else Internal(step) && Enabled(y, step)
  {
    RunKeeps(INITIAL, steps);
    var y := Run(INITIAL, steps);
    step := match y.worker
      case Looking => LookForNext
      case Clearing => Clear
      case Calling(_) => CallCompletion
      case Idle =>
        if y.serializationQueue != [] then RunSerializer else if y.parsed != [] then DidComplete else RunPending;
  }

  /** A finish while serializers run changes nothing; one after all has been delivered runs
      three blocks that call nothing. */
  lemma FinishAgain(y: System)
    requires Inv(y) && y.began && y.worker.Idle? && Allowed(y, Finish)
    ensures if y.shared.isFinishing then Next(y, Finish) == y
            else Run(y, [Finish, LookForNext, Clear, CallCompletion]) == y
  {
    if !y.shared.isFinishing {
      var z := Next(y, Finish);
      assert [Finish, LookForNext, Clear, CallCompletion][1..] == [LookForNext, Clear, CallCompletion];
      assert [LookForNext, Clear, CallCompletion][1..] == [Clear, CallCompletion];
      assert [Clear, CallCompletion][1..] == [CallCompletion];
      assert Run(Next(Next(z, LookForNext), Clear), [CallCompletion]) == y;
    }
  }

  /** Whatever happens, and whenever serializers are appended, a cancelled request stays so. */
  lemma {:induction false} CancelledIsForGood(y: System, steps: seq<Step>)
    requires y.shared.state == Cancelled
    ensures Run(y, steps).shared.state == Cancelled
    decreases |steps|
  {
    if steps != [] { CancelledIsForGood(if Enabled(y, steps[0]) then Next(y, steps[0]) else y, steps[1..]); }
  }

  /** What every step does to the state: cancel is final, a finished request can only be
      revived by an append, and otherwise the last of suspend, resume and clearing decides. */
  lemma StateSteps(y: System, step: Step)
    requires Enabled(y, step)
    ensures Next(y, step).shared.state
         == match y.shared.state
            case Cancelled => Cancelled
            case Finished => if step.Append? then Resumed else Finished
            case state =>
              if step.Cancel? then Cancelled else if step.Suspend? then Suspended
              else if step.Resume? then Resumed else if step.Clear? then Finished else state
  {
  }

  lemma {:induction false} RunBoth(y: System, steps: seq<Step>, more: seq<Step>)
    ensures Run(y, steps + more) == Run(Run(y, steps), more)
    decreases |steps|
  {
    if steps == [] {
      assert steps + more == more;
    } else {
      assert (steps + more)[1..] == steps[1..] + more;
      RunBoth(if Enabled(y, steps[0]) then Next(y, steps[0]) else y, steps[1..], more);
    }
  }

  /** Every run in which cancel is called before the request has finished ends cancelled. */
  lemma CancelWins(y: System, before: seq<Step>, after: seq<Step>)
    requires Run(y, before).shared.state != Finished
    ensures Run(y, before + ([Cancel] + after)).shared.state == Cancelled
  {
    var z := Run(y, before);
    RunBoth(y, before, [Cancel] + after);
    RunsOn(z, Cancel, after);
    StateSteps(z, Cancel);
    CancelledIsForGood(Next(z, Cancel), after);
  }

  /** The last of suspend and resume, if there is one. */
  function LastOf(steps: seq<Step>, state: State): State {
    if steps == [] then state
    else
      var last := steps[|steps| - 1];
      if last.Suspend? then Suspended else if last.Resume? then Resumed else LastOf(steps[..|steps| - 1], state)
  }

  /** Between cancels and clearings it decides. */
  lemma {:induction false} LastOfThemWins(y: System, steps: seq<Step>)
    requires y.shared.state != Cancelled && y.shared.state != Finished
    requires forall step :: step in steps ==> !step.Cancel? && !step.Clear?
    ensures Run(y, steps).shared.state == LastOf(steps, y.shared.state)
    ensures Run(y, steps).shared.state != Cancelled && Run(y, steps).shared.state != Finished
    decreases |steps|
  {
    if steps != [] {
      var before, last := steps[..|steps| - 1], steps[|steps| - 1];
      assert steps == before + [last];
      LastOfThemWins(y, before);
      RunBoth(y, before, [last]);
      var z := Run(y, before);
      assert Run(z, [last]) == if Enabled(z, last) then Next(z, last) else z;
      assert last in steps;
      if Enabled(z, last) { StateSteps(z, last); }
    }
  }

  // ------------------------------------------------ a serializer that is dropped

  /** Serializer `id` has got nowhere. */
  predicate Nowhere(y: System, id: Id) {
    id !in y.dispatched && id !in y.serializationQueue && id !in y.ran && id !in y.parsed
    && id !in y.shared.completions && id !in y.called && (y.worker.Calling? ==> id !in y.worker.rest)
  }

  /** And will get nowhere: the list that holds it is about to be cleared. */
  predicate Dropped(y: System, id: Id) {
    Nowhere(y, id) && (y.worker.Clearing? || id !in y.shared.serializers)
  }

  lemma DroppedStays(y: System, step: Step, id: Id)
    requires Dropped(y, id) && Enabled(y, step) && step != Append(id)
    ensures Dropped(Next(y, step), id)
    ensures id !in y.shared.serializers ==> id !in Next(y, step).shared.serializers
  {
  }

  lemma {:induction false} DroppedForGood(y: System, steps: seq<Step>, id: Id)
    requires Dropped(y, id) && Append(id) !in steps
    ensures Dropped(Run(y, steps), id)
    ensures id !in y.shared.serializers ==> id !in Run(y, steps).shared.serializers
    decreases |steps|
  {
    if steps != [] {
      if Enabled(y, steps[0]) { DroppedStays(y, steps[0], id); }
      DroppedForGood(if Enabled(y, steps[0]) then Next(y, steps[0]) else y, steps[1..], id);
    }
  }

  /** In every run whatever, a serializer appended between the look that finds none left and
      the clearing is neither dispatched nor run, and its completion is not called, whatever
      follows. */
  lemma AppendWhileClearingIsLost(steps: seq<Step>, id: Id, more: seq<Step>)
    requires Append(id) !in steps && Append(id) !in more && Run(INITIAL, steps).worker.Clearing?
    ensures var z := Run(Next(Run(INITIAL, steps), Append(id)), more);
            id !in z.dispatched && id !in z.ran && id !in z.called
  {
    DroppedForGood(INITIAL, steps, id);
    DroppedForGood(Next(Run(INITIAL, steps), Append(id)), more, id);
  }

  // ------------------------------------------------ care is necessary

  /** What order and once ask for at any time: what has been dispatched is what was appended
      first, and what has not been is still in the list. */
  predicate Kept(y: System) {
    y.dispatched <= y.appended
    && forall i :: |y.dispatched| <= i < |y.appended| ==> y.appended[i] in y.shared.serializers
  }

  lemma InvKept(y: System)
    requires Inv(y)
    ensures Kept(y)
  {
    OrderOf(y);
    forall i | |y.dispatched| <= i < |y.appended| ensures y.appended[i] in y.shared.serializers {
      if !Delivering(y) { assert y.shared.serializers[i - Base(y)] == y.appended[i]; }
    }
  }

  lemma {:induction false} BlocksAreCareful(y: System, steps: seq<Step>)
    requires forall step :: step in steps ==> Internal(step)
    ensures Careful(y, steps)
    decreases |steps|
  {
    if steps != [] {
      assert Internal(steps[0]);
      BlocksAreCareful(if Enabled(y, steps[0]) then Next(y, steps[0]) else y, steps[1..]);
    }
  }

  lemma RunsOn(y: System, step: Step, steps: seq<Step>)
    requires Enabled(y, step)
    ensures Run(y, [step] + steps) == Run(Next(y, step), steps)
  {
    assert ([step] + steps)[1..] == steps;
  }

  /** A look that finds a serializer. */
  lemma LookFinds(y: System, id: Id, steps: seq<Step>)
    requires y.worker.Looking? && NextSerializer(y.shared) == Some(id)
    ensures Run(y, [LookForNext] + steps)
         == Run(Dispatch(y.(worker := Idle), id), steps)
  {
    RunsOn(y, LookForNext, steps);
  }

  lemma PendingFinds(y: System, id: Id, steps: seq<Step>)
    requires y.worker.Idle? && y.pending > 0 && NextSerializer(y.shared) == Some(id)
    ensures Run(y, [RunPending] + ([LookForNext] + steps))
         == Run(Dispatch(y.(pending := y.pending - 1), id), steps)
  {
    RunsOn(y, RunPending, [LookForNext] + steps);
    var z := Next(y, RunPending);
    LookFinds(z, id, steps);
    assert z.(worker := Idle) == y.(pending := y.pending - 1);
  }

  /** Another look before the serializer that the first one found has completed finds it
      again. */
  lemma LooksTwice(y: System, id: Id) returns (more: seq<Step>)
    requires NextSerializer(y.shared) == Some(id) && (y.worker.Looking? || y.worker.Idle?)
    requires y.pending + (if y.worker.Looking? then 1 else 0) >= 2
    ensures forall step :: step in more ==> Internal(step)
    ensures Run(y, more).appended == y.appended && Run(y, more).dispatched == y.dispatched + [id, id]
  {
    var again := [RunPending] + ([LookForNext] + []);
    if y.worker.Looking? {
      more := [LookForNext] + again;
      LookFinds(y, id, again);
      PendingFinds(Dispatch(y.(worker := Idle), id), id, []);
    } else {
      more := [RunPending] + ([LookForNext] + again);
      PendingFinds(y, id, again);
      PendingFinds(Dispatch(y.(pending := y.pending - 1), id), id, []);
    }
    assert y.dispatched + [id] + [id] == y.dispatched + [id, id];
  }

  lemma LooksOnce(y: System, id: Id) returns (more: seq<Step>)
    requires NextSerializer(y.shared) == Some(id)
    requires y.worker.Looking? || (y.worker.Idle? && y.pending > 0)
    ensures forall step :: step in more ==> Internal(step)
    ensures Run(y, more).appended == y.appended && Run(y, more).dispatched == y.dispatched + [id]
  {
    if y.worker.Looking? {
      more := [LookForNext] + [];
      LookFinds(y, id, []);
    } else {
      more := [RunPending] + ([LookForNext] + []);
      PendingFinds(y, id, []);
    }
  }

  /** Completions that are being called delay a look, no more. */
  lemma {:induction false} CallsEnd(y: System) returns (calls: seq<Step>)
    requires y.worker.Calling?
    ensures forall step :: step in calls ==> Internal(step)
    ensures forall more :: Run(y, calls + more) == Run(y.(worker := Idle, called := y.called + y.worker.rest), more)
    decreases |y.worker.rest|
  {
    var rest := y.worker.rest;
    var z := Next(y, CallCompletion);
    var after := y.(worker := Idle, called := y.called + rest);
    if rest == [] {
      calls := [CallCompletion];
      assert z == after;
      forall more: seq<Step> ensures Run(y, calls + more) == Run(after, more) { RunsOn(y, CallCompletion, more); }
    } else {
      var others := CallsEnd(z);
      calls := [CallCompletion] + others;
      assert z.called + z.worker.rest == y.called + rest;
      forall more: seq<Step> ensures Run(y, calls + more) == Run(after, more) {
        RunsOn(y, CallCompletion, others + more);
        assert calls + more == [CallCompletion] + (others + more);
      }
    }
  }

  /** More dispatches than appends, or another one than was appended. */
  lemma NotKept(z: System, before: seq<Id>, twice: seq<Id>, last: Id)
    requires z.dispatched == before + twice && |twice| == 2 && twice[0] == twice[1]
    requires z.appended == before + [last] || (|z.appended| == |before| + 2 && z.appended[|before|..] == [twice[0], last])
    requires last != twice[0] || z.appended == before + [last]
    ensures !Kept(z)
  {
    if z.appended != before + [last] {
      assert z.appended[|before| + 1] == z.appended[|before|..][1] == last;
      assert z.dispatched[|before| + 1] == twice[1];
    }
  }

  /** An append or a finish while a late serializer waits for its look, which has not been
      made: it is dispatched twice. */
  lemma BreaksWhilePending(y: System, step: Step) returns (more: seq<Step>)
    requires Inv(y) && y.pending > 0 && Enabled(y, step) && !Allowed(y, step)
    requires step.Append? ==> step.id !in y.appended
    ensures (forall s :: s in more ==> Internal(s)) && !Kept(Run(Next(y, step), more))
  {
    var z, base, x := Next(y, step), Base(y), y.appended[|y.appended| - 1];
    assert y.shared.serializers == [x] && y.appended == y.appended[..base] + [x];
    if z.worker.Calling? {
      var calls := CallsEnd(z);
      var w := z.(worker := Idle, called := z.called + z.worker.rest);
      var looks := LooksTwice(w, x);
      more := calls + looks;
      assert Run(z, more) == Run(w, looks);
    } else {
      more := LooksTwice(z, x);
    }
    var end := Run(z, more);
    assert end.dispatched == y.appended[..base] + [x, x];
    NotKept(end, y.appended[..base], [x, x], if step.Append? then step.id else x);
  }

  /** A step that is not allowed while a serializer is in flight finds it late. */
  lemma InFlightAndLate(y: System, step: Step)
    requires Inv(y) && !NoneInFlight(y) && Enabled(y, step) && !Allowed(y, step)
    ensures y.worker.Idle? && y.pending == 0 && y.shared.completions == [] && !y.shared.isFinishing
    ensures 0 <= Base(y) == |y.appended| - 1 && y.shared.serializers == [y.appended[Base(y)]]
    ensures y.shared.processingFinished && y.dispatched == y.appended
  {
    InFlight(y);
    var base := Base(y);
    assert y.shared.processingFinished;
    assert y.appended[..base + 1] == y.appended;
  }

  /** While it is in flight: it is found again. */
  lemma BreaksInFlight(y: System, step: Step) returns (more: seq<Step>)
    requires Inv(y) && !NoneInFlight(y) && Enabled(y, step) && !Allowed(y, step)
    requires step.Append? ==> step.id !in y.appended
    ensures (forall s :: s in more ==> Internal(s)) && !Kept(Run(Next(y, step), more))
  {
    InFlightAndLate(y, step);
    var z, base := Next(y, step), Base(y);
    var before, x := y.appended[..base], y.appended[base];
    assert y.appended == before + [x];
    more := LooksOnce(z, x);
    var end := Run(z, more);
    assert end.dispatched == before + [x] + [x] == before + [x, x];
    if step.Append? {
      assert end.appended[base..] == [x, step.id];
      NotKept(end, before, [x, x], step.id);
    } else {
      NotKept(end, before, [x, x], x);
    }
  }

  /** An append while a look is about to be made, after the first clearing: the look finds a
      late serializer, and so does the look of the append. */
  lemma BreaksLateLook(y: System, id: Id) returns (more: seq<Step>)
    requires Serializing(y) && y.worker.Looking? && !Allowed(y, Append(id)) && id !in y.appended
    requires y.shared.completions == []
    ensures (forall s :: s in more ==> Internal(s)) && !Kept(Run(Next(y, Append(id)), more))
  {
    var z, base := Next(y, Append(id)), Base(y);
    var before, x := y.appended[..base], y.appended[base];
    assert y.shared.serializers == [x] && y.appended == before + [x];
    more := LooksTwice(z, x);
    var end := Run(z, more);
    assert end.appended == before + [x] + [id] && end.appended[base..] == [x, id];
    NotKept(end, before, [x, x], id);
  }

  /** Or none but that of the append, which both find. */
  lemma BreaksLastLook(y: System, id: Id) returns (more: seq<Step>)
    requires Inv(y) && y.worker.Looking? && !Allowed(y, Append(id)) && id !in y.appended
    requires !Serializing(y) || y.shared.completions != []
    ensures (forall s :: s in more ==> Internal(s)) && !Kept(Run(Next(y, Append(id)), more))
  {
    var z := Next(y, Append(id));
    assert |y.shared.completions| == |y.shared.serializers| && y.dispatched == y.appended;
    more := LooksTwice(z, id);
    NotKept(Run(z, more), y.appended, [id, id], id);
  }

  lemma BreaksLooking(y: System, id: Id) returns (more: seq<Step>)
    requires Inv(y) && y.worker.Looking? && !Allowed(y, Append(id)) && id !in y.appended
    ensures (forall s :: s in more ==> Internal(s)) && !Kept(Run(Next(y, Append(id)), more))
  {
    if Serializing(y) && y.shared.completions == [] {
      more := BreaksLateLook(y, id);
    } else {
      more := BreaksLastLook(y, id);
    }
  }

  /** While clearing: it is dropped. */
  lemma BreaksClearing(y: System, id: Id)
    requires Inv(y) && y.worker.Clearing? && id !in y.appended
    ensures !Kept(Run(Next(y, Append(id)), [Clear]))
  {
    var z := Next(y, Append(id));
    assert Run(z, [Clear]) == Next(z, Clear);
    assert Next(z, Clear).appended[|y.appended|] == id && |Next(z, Clear).dispatched| == |y.appended|;
  }

  lemma Breaks(y: System, step: Step) returns (more: seq<Step>)
    requires Inv(y) && Enabled(y, step) && !Allowed(y, step)
    requires step.Append? ==> step.id !in y.appended
    ensures (forall s :: s in more ==> Internal(s)) && !Kept(Run(Next(y, step), more))
  {
    if y.worker.Clearing? {
      more := [Clear];
      BreaksClearing(y, step.id);
    } else if y.pending > 0 {
      more := BreaksWhilePending(y, step);
    } else if !NoneInFlight(y) {
      more := BreaksInFlight(y, step);
    } else {
      more := BreaksLooking(y, step.id);
    }
  }

  /** Care is exactly what order and once need: after any careful run, they survive an append
      of a new serializer or a finish, and whatever the pipeline does next, if and only if the
      append or the finish is allowed. */
  lemma CareIsNecessary(steps: seq<Step>, step: Step)
    requires Careful(INITIAL, steps) && Enabled(Run(INITIAL, steps), step)
    requires step.Append? ==> step.id !in Run(INITIAL, steps).appended
    ensures var y := Run(INITIAL, steps);
            Allowed(y, step) <==> forall more :: (forall s :: s in more ==> Internal(s)) ==> Kept(Run(Next(y, step), more))
  {
    RunKeeps(INITIAL, steps);
    var y := Run(INITIAL, steps);
    if Allowed(y, step) {
      StepKeeps(y, step);
      forall more: seq<Step> | forall s :: s in more ==> Internal(s) ensures Kept(Run(Next(y, step), more)) {
        BlocksAreCareful(Next(y, step), more);
        RunKeeps(Next(y, step), more);
        InvKept(Run(Next(y, step), more));
      }
    } else {
      var more := Breaks(y, step);
    }
  }

  // ------------------------------------------------ two runs without care

  /** The smallest run in which a serializer is dropped. */
  lemma AppendCanBeLost(id: Id)
    ensures var y := Run(INITIAL, [Finish, LookForNext, Append(id), Clear, CallCompletion]);
            y.appended == [id] && y.dispatched == [] == y.called && y.shared.serializers == []
            && y.pending == 0 == Work(y)
  {
    var y2 := Next(Next(INITIAL, Finish), LookForNext);
    var y4 := Next(Next(y2, Append(id)), Clear);
    assert Run(y4, [CallCompletion]) == Next(y4, CallCompletion);
    assert Run(y2, [Append(id), Clear, CallCompletion]) == Run(y4, [CallCompletion]);
  }

  /** Two pending looks find the same serializer, which then runs twice. */
  lemma BothRun(y: System, id: Id) returns (more: seq<Step>)
    requires y.worker.Idle? && y.pending == 2 && y.serializationQueue == [] && NextSerializer(y.shared) == Some(id)
    ensures var z := Run(y, more);
            z.appended == y.appended && z.dispatched == y.dispatched + [id, id] && z.ran == y.ran + [id, id]
  {
    var runs := [RunSerializer] + ([RunSerializer] + []);
    var second := [RunPending] + ([LookForNext] + runs);
    more := [RunPending] + ([LookForNext] + second);
    PendingFinds(y, id, second);
    var y1 := Dispatch(y.(pending := 1), id);
    PendingFinds(y1, id, runs);
    var y2 := Dispatch(y1.(pending := 0), id);
    RunsOn(y2, RunSerializer, [RunSerializer] + []);
    RunsOn(Next(y2, RunSerializer), RunSerializer, []);
    assert y2.dispatched == y.dispatched + [id, id] && y.ran + [id] + [id] == y.ran + [id, id];
  }

  /** Two serializers appended after the request has finished dispatch a look each: the first
      one can be found, and run, by both. */
  lemma AppendCanRunTwice(id: Id, other: Id) returns (steps: seq<Step>)
    ensures var y := Run(INITIAL, steps); y.appended == [id, other] && y.dispatched == [id, id] == y.ran
  {
    var y := INITIAL.(began := true, shared := AfterClear(INITIAL.shared));
    var z := Next(Next(y, Append(id)), Append(other));
    var more := BothRun(z, id);
    var late := [Append(id)] + ([Append(other)] + more);
    steps := [Finish, LookForNext, Clear, CallCompletion] + late;
    FinishesEmpty(late);
    RunsOn(y, Append(id), [Append(other)] + more);
    RunsOn(Next(y, Append(id)), Append(other), more);
  }

  lemma FinishesEmpty(steps: seq<Step>)
    ensures Run(INITIAL, [Finish, LookForNext, Clear, CallCompletion] + steps)
         == Run(INITIAL.(began := true, shared := AfterClear(INITIAL.shared)), steps)
  {
    var all := [Finish, LookForNext, Clear, CallCompletion] + steps;
    assert all[1..][1..] == [Clear, CallCompletion] + steps;
    assert all[1..][1..][1..][1..] == steps;
    var y := Next(Next(INITIAL, Finish), LookForNext);
    assert Run(INITIAL, all) == Run(y, all[1..][1..]);
    assert Run(y, all[1..][1..]) == Run(Next(Next(y, Clear), CallCompletion), all[1..][1..][1..][1..]);
  }
}
