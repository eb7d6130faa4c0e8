/** Which credential a refresh is started with: retry reads the credential before it takes the
    lock, and may hold one that has been replaced. */
module InterceptorCredentials {
  import opened Wrappers
  import opened AuthenticationInterception
  import opened InterceptorRuns

  /** The step dispatches a refresh of `c`. */
  predicate Dispatches(y: System, step: Step, c: Credential) {
    Enabled(y, step) && Next(y, step).shared.queue == y.shared.queue + [StartRefresh(c)]
  }

  lemma LastBlock(queue: seq<Block>, b: Block, other: Block)
    ensures queue + [b] == queue + [other] ==> b == other
  {
    assert (queue + [b])[|queue|] == b && (queue + [other])[|queue|] == other;
  }

  lemma RefreshDispatches(s: Shared, held: Credential, checked: real, stamped: real, c: Credential)
    requires AfterRefresh(s, held, checked, stamped).queue == s.queue + [StartRefresh(c)]
    ensures c == held && !WindowFull(s, checked)
  {
    LastBlock(s.queue, StartRefresh(held), StartRefresh(c));
    LastBlock(s.queue, NotRefreshed(ExcessiveRefresh, s.adaptOperations, s.requestsToRetry), StartRefresh(c));
  }

  /** A refresh is dispatched by a section of adapt, with the current credential, or by one of
      retry, with the credential its call holds: so it is not of the current credential if and
      only if it is dispatched by a call of retry that holds another. */
  lemma StaleIffHeld(y: System, step: Step, c: Credential)
    requires Dispatches(y, step, c)
    ensures y.shared.credential != Some(c)
            <==> step.RetrySection? && y.shared.credential != Some(y.retrying[step.id].credential)
    ensures step.RetrySection? ==> c == y.retrying[step.id].credential
  {
    var s := y.shared;
    match step
    case AdaptSection(id, expiring, checked, stamped) =>
      if s.credential.Some? && expiring && !s.isRefreshing {
        RefreshDispatches(s.(adaptOperations := s.adaptOperations + [id]), s.credential.value, checked, stamped, c);
      }
    case RetrySection(id, checked, stamped) =>
      if !s.isRefreshing {
        RefreshDispatches(s.(requestsToRetry := s.requestsToRetry + [id]), y.retrying[id].credential, checked, stamped, c);
      }
    case RefreshSucceeds(_) => LastBlock(s.queue, Refreshed(s.adaptOperations, s.requestsToRetry), StartRefresh(c));
    case RefreshFails(error) =>
      LastBlock(s.queue, NotRefreshed(error, s.adaptOperations, s.requestsToRetry), StartRefresh(c));
    case _ =>
  }

  /** Every credential held by a call of retry is the current one. */
  predicate HeldIsCurrent(y: System) {
    forall id :: id in y.retrying && y.retrying[id].RetryHolds? ==> y.shared.credential == Some(y.retrying[id].credential)
  }

  predicate SomeHeld(y: System) {
    exists id :: id in y.retrying && y.retrying[id].RetryHolds?
  }

  /** The step puts another credential in the place of the one that some call holds. */
  predicate ReplacesHeld(y: System, step: Step) {
    Enabled(y, step) && SomeHeld(y) && Next(y, step).shared.credential != y.shared.credential
  }

  lemma SectionsKeepCredential(s: Shared, id: Id, c: Credential, expiring: bool, checked: real, stamped: real)
    ensures AfterAdapt(s, id, expiring, checked, stamped).0.credential == s.credential
    ensures AfterRetry(s, id, c, checked, stamped).credential == s.credential
  {
  }

  /** And that is the only way to come to hold a credential that is not current. */
  lemma HeldStaysCurrent(y: System, step: Step)
    requires HeldIsCurrent(y) && Enabled(y, step)
    ensures HeldIsCurrent(Next(y, step)) <==> !ReplacesHeld(y, step)
  {
    var z := Next(y, step);
    if z.shared.credential == y.shared.credential {
      assert forall id :: id in z.retrying && z.retrying[id].RetryHolds? ==>
                            (id in y.retrying && z.retrying[id] == y.retrying[id]) || step == RetryReads(id);
    } else {
      ReplacingKeepsCalls(y, step);
      if id :| id in y.retrying && y.retrying[id].RetryHolds? {
        assert id in z.retrying && z.retrying[id].RetryHolds?;
      }
    }
  }

  lemma ReplacingKeepsCalls(y: System, step: Step)
    requires Enabled(y, step) && Next(y, step).shared.credential != y.shared.credential
    ensures Next(y, step).retrying == y.retrying
  {
    if step.RetrySection? {
      SectionsKeepCredential(y.shared, step.id, y.retrying[step.id].credential, false, step.checked, step.stamped);
    }
  }

  /** No step of the run replaces a credential while a call of retry holds it. */
  predicate NoneReplacedWhileHeld(y: System, steps: seq<Step>)
    decreases |steps|
  {
    if steps == [] then true
    else
      !ReplacesHeld(y, steps[0])
      && NoneReplacedWhileHeld(if Enabled(y, steps[0]) then Next(y, steps[0]) else y, steps[1..])
  }

  lemma {:induction false} HeldIsCurrentInRun(y: System, steps: seq<Step>)
    requires HeldIsCurrent(y) && NoneReplacedWhileHeld(y, steps)
    ensures HeldIsCurrent(Run(y, steps))
    decreases |steps|
  {
    if steps != [] {
      if Enabled(y, steps[0]) { HeldStaysCurrent(y, steps[0]); }
      HeldIsCurrentInRun(if Enabled(y, steps[0]) then Next(y, steps[0]) else y, steps[1..]);
    }
  }

  /** In every run in which no credential is replaced while a call of retry holds it, every
      refresh is of the credential that is current when it is dispatched. */
  lemma RefreshesAreCurrent(
      credential: Option<Credential>, window: Option<RefreshWindow>, steps: seq<Step>, next: Step, c: Credential)
    requires NoneReplacedWhileHeld(Initial(credential, window), steps)
    requires Dispatches(Run(Initial(credential, window), steps), next, c)
    ensures Run(Initial(credential, window), steps).shared.credential == Some(c)
  {
    HeldIsCurrentInRun(Initial(credential, window), steps);
    StaleIffHeld(Run(Initial(credential, window), steps), next, c);
  }

  /** The section of a call of retry, while no refresh is under way, refreshes what the call
      holds, current or not, unless the window is full. */
  lemma HolderDispatches(y: System, id: Id, checked: real, stamped: real)
    requires Enabled(y, RetrySection(id, checked, stamped)) && !y.shared.isRefreshing
    ensures Dispatches(y, RetrySection(id, checked, stamped), y.retrying[id].credential) <==> !WindowFull(y.shared, checked)
  {
    var s := y.shared;
    var held := y.retrying[id].credential;
    assert Excessive(s.(requestsToRetry := s.requestsToRetry + [id]), checked) == Excessive(s, checked);
    LastBlock(s.queue, NotRefreshed(ExcessiveRefresh, s.adaptOperations, s.requestsToRetry + [id]), StartRefresh(held));
  }

  /** So, while no refresh is under way and the window is not full, a replaced credential can
      be refreshed next if and only if some call of retry holds one. */
  lemma StaleRefreshIff(y: System, now: real)
    requires !y.shared.isRefreshing && !WindowFull(y.shared, now)
    ensures (exists step, c :: Dispatches(y, step, c) && y.shared.credential != Some(c)) <==> !HeldIsCurrent(y)
  {
    if !HeldIsCurrent(y) {
      var id :| id in y.retrying && y.retrying[id].RetryHolds? && y.shared.credential != Some(y.retrying[id].credential);
      HolderDispatches(y, id, now, now);
      assert Dispatches(y, RetrySection(id, now, now), y.retrying[id].credential);
    }
    if step, c :| Dispatches(y, step, c) && y.shared.credential != Some(c) { StaleIffHeld(y, step, c); }
  }

  // ------------------------------------------------ a run that refreshes twice

  lemma RunFirst(y: System, step: Step, steps: seq<Step>)
    requires Enabled(y, step)
    ensures Run(y, [step] + steps) == Run(Next(y, step), steps)
  {
    assert ([step] + steps)[1..] == steps;
  }

  /** Retries 0 and 1 in the given phases, and nothing else in progress. */
  function TwoRetries(shared: Shared, retrying: map<Id, RetryPhase>, refreshes: nat): System {
    System(shared, map[], retrying, refreshes, refreshes, [], [], {}, {0, 1})
  }

  lemma BothReadTheCredential(c: Credential, steps: seq<Step>)
    ensures var y := Initial(Some(c), None);
            Run(y, [CallRetry(0)] + ([CallRetry(1)] + ([RetryReads(0)] + ([RetryReads(1)] + steps))))
            == Run(TwoRetries(y.shared, map[0 := RetryHolds(c), 1 := RetryHolds(c)], 0), steps)
  {
    var y := Initial(Some(c), None);
    RunFirst(y, CallRetry(0), [CallRetry(1)] + ([RetryReads(0)] + ([RetryReads(1)] + steps)));
    var y1 := Next(y, CallRetry(0));
    RunFirst(y1, CallRetry(1), [RetryReads(0)] + ([RetryReads(1)] + steps));
    var y2 := TwoRetries(y.shared, map[0 := RetryCalled, 1 := RetryCalled], 0);
    assert Next(y1, CallRetry(1)) == y2;
    RunFirst(y2, RetryReads(0), [RetryReads(1)] + steps);
    var y3 := TwoRetries(y.shared, map[0 := RetryHolds(c), 1 := RetryCalled], 0);
    assert Next(y2, RetryReads(0)) == y3;
    RunFirst(y3, RetryReads(1), steps);
    assert Next(y3, RetryReads(1)) == TwoRetries(y.shared, map[0 := RetryHolds(c), 1 := RetryHolds(c)], 0);
  }

  lemma FirstRetryRefreshes(stale: Credential, renewed: Credential, steps: seq<Step>)
    ensures var y := TwoRetries(Initial(Some(stale), None).shared, map[0 := RetryHolds(stale), 1 := RetryHolds(stale)], 0);
            Run(y, [RetrySection(0, 0.0, 0.0)] + ([RunQueue] + ([RefreshSucceeds(renewed)] + steps)))
            == Run(TwoRetries(Shared(Some(renewed), false, [0.0], None, [], [], [Refreshed([], [0])]),
                              map[1 := RetryHolds(stale)], 1), steps)
  {
    var s := Initial(Some(stale), None).shared;
    var y0 := TwoRetries(s, map[0 := RetryHolds(stale), 1 := RetryHolds(stale)], 0);
    RunFirst(y0, RetrySection(0, 0.0, 0.0), [RunQueue] + ([RefreshSucceeds(renewed)] + steps));
    var y1 := TwoRetries(Shared(Some(stale), true, [0.0], None, [], [0], [StartRefresh(stale)]),
                         map[1 := RetryHolds(stale)], 0);
    assert Next(y0, RetrySection(0, 0.0, 0.0)) == y1;
    RunFirst(y1, RunQueue, [RefreshSucceeds(renewed)] + steps);
    var y2 := TwoRetries(y1.shared.(queue := []), map[1 := RetryHolds(stale)], 1).(completed := 0);
    assert Next(y1, RunQueue) == y2;
    RunFirst(y2, RefreshSucceeds(renewed), steps);
    assert AfterSuccess(y2.shared, renewed).queue == [Refreshed([], [0])];
  }

  /** What the interceptor does not promise: a call of retry that read the credential before a
      refresh replaced it, and takes the lock after, refreshes the old credential again. */
  lemma RefreshCanBeRepeated(stale: Credential, renewed: Credential) returns (steps: seq<Step>)
    ensures var y := Run(Initial(Some(stale), None), steps);
            y.started == y.completed == 1 && y.shared.credential == Some(renewed)
            && y.shared.queue == [Refreshed([], [0]), StartRefresh(stale)]
  {
    var last := [RetrySection(1, 1.0, 1.0)];
    var first := [RetrySection(0, 0.0, 0.0)] + ([RunQueue] + ([RefreshSucceeds(renewed)] + last));
    steps := [CallRetry(0)] + ([CallRetry(1)] + ([RetryReads(0)] + ([RetryReads(1)] + first)));
    BothReadTheCredential(stale, first);
    FirstRetryRefreshes(stale, renewed, last);
    var y := TwoRetries(Shared(Some(renewed), false, [0.0], None, [], [], [Refreshed([], [0])]),
                        map[1 := RetryHolds(stale)], 1);
    RunFirst(y, last[0], []);
    assert last == last + [];
  }
}
