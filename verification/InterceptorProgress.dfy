/** How far an AuthenticationInterceptor is from rest, when nobody calls it. */
module InterceptorProgress {
  import opened Wrappers
  import opened AuthenticationInterception
  import opened InterceptorRuns

  // ------------------------------------------------ the work that is left

  function Asking(y: System): set<Id> {
    set id | id in y.retrying && y.retrying[id].RetryCalled?
  }

  function Adapting(y: System): set<Id> {
    set id | id in y.adapting && y.adapting[id].AdaptCalled?
  }

  /** Calls of retry, each of which may start a refresh, and the refresh under way. */
  function RefreshWork(y: System): int {
    3 * |y.retrying| + |Asking(y)| + 2 * Starts(y.shared.queue) + y.started - y.completed
  }

  function BlockWork(b: Block): nat {
    match b
    case StartRefresh(_) => 0
    case Refreshed(adapts, retries) => 4 * |adapts| + |retries| + 1
    case NotRefreshed(_, adapts, retries) => |adapts| + |retries| + 1
  }

  function QueueWork(queue: seq<Block>): nat {
    if queue == [] then 0 else BlockWork(queue[0]) + QueueWork(queue[1..])
  }

  /** Calls of adapt, and completions in dispatched blocks. */
  function CallWork(y: System): nat {
    |y.adapting| + 2 * |Adapting(y)| + QueueWork(y.shared.queue)
  }

  /** A section of adapt that finds its credential expiring and starts a refresh. */
  predicate StartsByAdapt(y: System, step: Step) {
    Enabled(y, step) && step.AdaptSection? && Starts(Next(y, step).shared.queue) > Starts(y.shared.queue)
  }

  predicate Less(z: System, y: System) {
    RefreshWork(z) < RefreshWork(y) || (RefreshWork(z) == RefreshWork(y) && CallWork(z) < CallWork(y))
  }

  // ------------------------------------------------ counting

  lemma {:induction false} QueueWorkAppends(queue: seq<Block>, b: Block)
    ensures QueueWork(queue + [b]) == QueueWork(queue) + BlockWork(b)
    ensures Starts(queue + [b]) == Starts(queue) + if b.StartRefresh? then 1 else 0
  {
    if queue == [] {
      assert queue + [b] == [b];
    } else {
      assert (queue + [b])[1..] == queue[1..] + [b];
      QueueWorkAppends(queue[1..], b);
    }
  }

  lemma OneLess(ids: set<Id>, id: Id)
    requires id in ids
    ensures |ids - {id}| == |ids| - 1
  {
  }

  lemma KeyLess<T>(m: map<Id, T>, id: Id)
    requires id in m
    ensures |m - {id}| == |m| - 1
  {
    OneLess(m.Keys, id);
    assert (m - {id}).Keys == m.Keys - {id};
  }

  /** The call of retry `id` is over. */
  lemma RetryOver(y: System, z: System, id: Id)
    requires id in y.retrying && z.retrying == y.retrying - {id}
    ensures 3 * |z.retrying| + |Asking(z)| <= 3 * |y.retrying| + |Asking(y)| - 3
  {
    KeyLess(y.retrying, id);
    assert Asking(z) == Asking(y) - {id};
    if id in Asking(y) { OneLess(Asking(y), id); } else { assert Asking(z) == Asking(y); }
  }

  lemma RetryReadsOn(y: System, z: System, id: Id, c: Credential)
    requires id in y.retrying && y.retrying[id].RetryCalled? && z.retrying == y.retrying[id := RetryHolds(c)]
    ensures 3 * |z.retrying| + |Asking(z)| == 3 * |y.retrying| + |Asking(y)| - 1
  {
    assert z.retrying.Keys == y.retrying.Keys;
    assert Asking(z) == Asking(y) - {id};
    OneLess(Asking(y), id);
  }

  lemma AdaptOver(y: System, z: System, id: Id)
    requires id in y.adapting && z.adapting == y.adapting - {id}
    ensures |z.adapting| + 2 * |Adapting(z)|
         == |y.adapting| + 2 * |Adapting(y)| - if y.adapting[id].AdaptCalled? then 3 else 1
  {
    KeyLess(y.adapting, id);
    assert Adapting(z) == Adapting(y) - {id};
    if id in Adapting(y) { OneLess(Adapting(y), id); } else { assert Adapting(z) == Adapting(y); }
  }

  lemma AdaptDecides(y: System, z: System, id: Id, result: AdaptResult)
    requires id in y.adapting && y.adapting[id].AdaptCalled? && z.adapting == y.adapting[id := AdaptDecided(result)]
    ensures |z.adapting| + 2 * |Adapting(z)| == |y.adapting| + 2 * |Adapting(y)| - 2
  {
    assert z.adapting.Keys == y.adapting.Keys;
    assert Adapting(z) == Adapting(y) - {id};
    OneLess(Adapting(y), id);
  }

  lemma AdaptReturns(y: System, z: System, id: Id)
    requires z.adapting == y.adapting[id := AdaptCalled]
    ensures |z.adapting| + 2 * |Adapting(z)| <= |y.adapting| + 2 * |Adapting(y)| + 3
  {
    assert z.adapting.Keys == y.adapting.Keys + {id};
    assert Adapting(z) == Adapting(y) + {id};
  }

  // ------------------------------------------------ one step

  lemma AdaptSectionUses(y: System, step: Step)
    requires OneRefresh(y) && Enabled(y, step) && step.AdaptSection? && !StartsByAdapt(y, step)
    ensures Less(Next(y, step), y)
  {
    var s, z, id := y.shared, Next(y, step), step.id;
    assert Asking(z) == Asking(y);
    var result := AfterAdapt(s, id, step.expiring, step.checked, step.stamped).1;
    if result.AdaptDeferred? { AdaptOver(y, z, id); } else { AdaptDecides(y, z, id, result); }
    if !s.isRefreshing && s.credential.Some? && step.expiring {
      QueueWorkAppends(s.queue, StartRefresh(s.credential.value));
      QueueWorkAppends(s.queue, NotRefreshed(ExcessiveRefresh, s.adaptOperations + [id], s.requestsToRetry));
    }
  }

  lemma RetrySectionUses(y: System, step: Step)
    requires OneRefresh(y) && Enabled(y, step) && step.RetrySection?
    ensures Less(Next(y, step), y)
  {
    var s, z := y.shared, Next(y, step);
    RetryOver(y, z, step.id);
    if !s.isRefreshing {
      QueueWorkAppends(s.queue, StartRefresh(y.retrying[step.id].credential));
      QueueWorkAppends(s.queue, NotRefreshed(ExcessiveRefresh, s.adaptOperations, s.requestsToRetry + [step.id]));
    }
  }

  /** A block uses up a piece of its own work, or hands one operation back to adapt. */
  lemma BlockUsesItsOwn(y: System)
    requires y.shared.queue != []
    ensures var b, z := y.shared.queue[0], AfterBlock(y);
            z.retrying == y.retrying && z.started == y.started + (if b.StartRefresh? then 1 else 0)
            && if b.Refreshed? && b.adapts != [] then
                 z.adapting == y.adapting[b.adapts[0] := AdaptCalled]
                 && QueueWork(z.shared.queue) == QueueWork(y.shared.queue) - 4
               else
                 z.adapting == y.adapting
                 && QueueWork(z.shared.queue) == QueueWork(y.shared.queue) - if b.StartRefresh? then 0 else 1
  {
    var b, z := y.shared.queue[0], AfterBlock(y);
    if b.StartRefresh? || (b.adapts == [] && b.retries == []) {
      assert z.shared == Pop(y.shared);
    } else {
      var adapts := if b.adapts != [] then b.adapts[1..] else [];
      var retries := if b.adapts != [] then b.retries else b.retries[1..];
      var left := if b.Refreshed? then Refreshed(adapts, retries) else NotRefreshed(b.error, adapts, retries);
      assert z.shared == Requeue(y.shared, left);
      assert z.shared.queue[0] == left && z.shared.queue[1..] == y.shared.queue[1..];
    }
  }

  lemma BlockUses(y: System)
    requires y.shared.queue != []
    ensures Less(AfterBlock(y), y)
  {
    var q, z := y.shared.queue, AfterBlock(y);
    BlockStarts(y);
    BlockUsesItsOwn(y);
    assert Asking(z) == Asking(y);
    if q[0].Refreshed? && q[0].adapts != [] {
      AdaptReturns(y, z, q[0].adapts[0]);
    } else {
      assert Adapting(z) == Adapting(y);
    }
  }

  /** Every step of the interceptor or the authenticator uses up work, except a section of
      adapt that starts a refresh: either there is less refreshing left to do, or as much of
      that and fewer calls. */
  lemma StepUsesWork(y: System, step: Step)
    requires OneRefresh(y) && DecisionsStand(y) && Enabled(y, step) && Internal(step) && !StartsByAdapt(y, step)
    ensures Less(Next(y, step), y)
  {
    var s, z := y.shared, Next(y, step);
    match step
    case AdaptSection(_, _, _, _) => AdaptSectionUses(y, step);
    case AdaptDelivers(id) =>
      AdaptOver(y, z, id);
      assert Asking(z) == Asking(y);
    case RetryDeclines(id) => RetryOver(y, z, id);
    case RetryReads(id) =>
      if s.credential.None? { RetryOver(y, z, id); } else { RetryReadsOn(y, z, id, s.credential.value); }
    case RetryIsStale(id) => RetryOver(y, z, id);
    case RetrySection(_, _, _) => RetrySectionUses(y, step);
    case RunQueue => BlockUses(y);
    case RefreshSucceeds(c) =>
      QueueWorkAppends(s.queue, Refreshed(s.adaptOperations, s.requestsToRetry));
      assert Asking(z) == Asking(y);
    case RefreshFails(error) =>
      QueueWorkAppends(s.queue, NotRefreshed(error, s.adaptOperations, s.requestsToRetry));
      assert Asking(z) == Asking(y);
  }

  lemma WorkIsNatural(y: System)
    requires OneRefresh(y)
    ensures RefreshWork(y) >= 0
  {
  }

  // ------------------------------------------------ coming to rest

  lemma {:induction false} RunDecides(y: System, steps: seq<Step>)
    requires DecisionsStand(y)
    ensures DecisionsStand(Run(y, steps))
    decreases |steps|
  {
    if steps != [] {
      if Enabled(y, steps[0]) { StepDecides(y, steps[0]); }
      RunDecides(if Enabled(y, steps[0]) then Next(y, steps[0]) else y, steps[1..]);
    }
  }

  /** From wherever a run has got to, the interceptor and the authenticator can bring it to
      rest by themselves, and then every completion has been called exactly once. */
  lemma {:induction false} ComesToRest(credential: Option<Credential>, window: Option<RefreshWindow>, steps: seq<Step>)
    returns (more: seq<Step>)
    ensures forall step :: step in more ==> Internal(step)
    ensures AllCalledOnce(Run(Initial(credential, window), steps + more))
    decreases RefreshWork(Run(Initial(credential, window), steps)), CallWork(Run(Initial(credential, window), steps))
  {
    var y := Run(Initial(credential, window), steps);
    if AllCalledOnce(y) {
      more := [];
      assert steps + [] == steps;
    } else {
      var step := NothingIsStranded(credential, window, steps);
      OneRefreshAtATime(credential, window, steps);
      RunDecides(Initial(credential, window), steps);
      assert !StartsByAdapt(y, step);
      StepUsesWork(y, step);
      WorkIsNatural(y);
      RunMore(Initial(credential, window), steps, step);
      OneRefreshAtATime(credential, window, steps + [step]);
      WorkIsNatural(Run(Initial(credential, window), steps + [step]));
      var rest := ComesToRest(credential, window, steps + [step]);
      more := [step] + rest;
      assert steps + more == steps + [step] + rest;
    }
  }
}
