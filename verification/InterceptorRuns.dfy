/** Runs of an AuthenticationInterceptor: any interleaving of calls to adapt and retry, of
    the sections that hold the lock, of the blocks on the interceptor's queue and of the
    authenticator's answers. */
module InterceptorRuns {
  import opened Wrappers
  import opened AuthenticationInterception

  /** Where a call of adapt is: before its section, or after it with a decision to deliver. */
  datatype AdaptPhase = AdaptCalled | AdaptDecided(result: AdaptResult)

  /** Where a call of retry is: before it reads the credential, or holding the one it read. */
  datatype RetryPhase = RetryCalled | RetryHolds(credential: Credential)

  datatype AdaptOutcome = Authenticated(credential: Credential) | AdaptFailed(error: Failure)

  datatype RetryOutcome = Retry | DoNotRetry | DoNotRetryWithError(error: Failure)

  /** The interceptor, the calls in progress on other threads, and what has happened. */
  datatype System = System(
    shared: Shared,
    adapting: map<Id, AdaptPhase>,
    retrying: map<Id, RetryPhase>,
    started: nat,                       // calls of authenticator.refresh
    completed: nat,                     // of which so many have answered
    adapted: seq<(Id, AdaptOutcome)>,   // completions called, in order
    retried: seq<(Id, RetryOutcome)>,
    adaptCalls: set<Id>,                // completions ever handed over
    retryCalls: set<Id>)

  datatype Step =
    | CallAdapt(id: Id)
    | CallRetry(id: Id)
    | SetCredential(replacement: Option<Credential>)
    | AdaptSection(id: Id, expiring: bool, checked: real, stamped: real)
    | AdaptDelivers(id: Id)
    | RetryDeclines(id: Id)
    | RetryReads(id: Id)
    | RetryIsStale(id: Id)
    | RetrySection(id: Id, checked: real, stamped: real)
    | RunQueue
    | RefreshSucceeds(credential: Credential)
    | RefreshFails(error: Failure)

  function Initial(credential: Option<Credential>, window: Option<RefreshWindow>): System {
    System(Shared(credential, false, [], window, [], [], []), map[], map[], 0, 0, [], [], {}, {})
  }

  /** The clock is only asked not to go back between its two readings in one refresh. */
  predicate Enabled(y: System, step: Step) {
    match step
    case CallAdapt(id) => id !in y.adaptCalls
    case CallRetry(id) => id !in y.retryCalls
    case SetCredential(_) => true
    case AdaptSection(id, _, checked, stamped) => id in y.adapting && y.adapting[id].AdaptCalled? && checked <= stamped
    case AdaptDelivers(id) => id in y.adapting && y.adapting[id].AdaptDecided?
    case RetryDeclines(id) => id in y.retrying && y.retrying[id].RetryCalled?
    case RetryReads(id) => id in y.retrying && y.retrying[id].RetryCalled?
    case RetryIsStale(id) => id in y.retrying && y.retrying[id].RetryHolds?
    case RetrySection(id, checked, stamped) => id in y.retrying && y.retrying[id].RetryHolds? && checked <= stamped
    case RunQueue => y.shared.queue != []
    case RefreshSucceeds(_) => y.completed < y.started
    case RefreshFails(_) => y.completed < y.started
  }

  /** The head of the queue replaced by what is left of it. */
  function Requeue(s: Shared, left: Block): Shared
    requires s.queue != []
  {
    s.(queue := [left] + s.queue[1..])
  }

  function Pop(s: Shared): Shared
    requires s.queue != []
  {
    s.(queue := s.queue[1..])
  }

  /** The head of the queue does one thing: call the authenticator, or one completion, or
      re-enter adapt for one operation, or end. */
  function AfterBlock(y: System): System
    requires y.shared.queue != []
  {
    match y.shared.queue[0]
    case StartRefresh(_) => y.(started := y.started + 1, shared := Pop(y.shared))
    case Refreshed(adapts, retries) => AfterRefreshed(y, adapts, retries)
    case NotRefreshed(error, adapts, retries) => AfterNotRefreshed(y, error, adapts, retries)
  }

  function AfterRefreshed(y: System, adapts: seq<Id>, retries: seq<Id>): System
    requires y.shared.queue != []
  {
    if adapts != [] then
      y.(adapting := y.adapting[adapts[0] := AdaptCalled], shared := Requeue(y.shared, Refreshed(adapts[1..], retries)))
    else if retries != [] then
      y.(retried := y.retried + [(retries[0], Retry)], shared := Requeue(y.shared, Refreshed([], retries[1..])))
    else y.(shared := Pop(y.shared))
  }

  function AfterNotRefreshed(y: System, error: Failure, adapts: seq<Id>, retries: seq<Id>): System
    requires y.shared.queue != []
  {
    if adapts != [] then
      y.(adapted := y.adapted + [(adapts[0], AdaptFailed(error))],
         shared := Requeue(y.shared, NotRefreshed(error, adapts[1..], retries)))
    else if retries != [] then
      y.(retried := y.retried + [(retries[0], DoNotRetryWithError(error))],
         shared := Requeue(y.shared, NotRefreshed(error, [], retries[1..])))
    else y.(shared := Pop(y.shared))
  }

  /** A decision of adapt, told to its completion; a deferred call has left it behind. */
  function Outcome(result: AdaptResult): seq<AdaptOutcome> {
    match result
    case Adapt(c) => [Authenticated(c)]
    case DoNotAdapt(error) => [AdaptFailed(error)]
    case AdaptDeferred => []
  }

  function Next(y: System, step: Step): System
    requires Enabled(y, step)
  {
    match step
    case CallAdapt(id) => y.(adapting := y.adapting[id := AdaptCalled], adaptCalls := y.adaptCalls + {id})
    case CallRetry(id) => y.(retrying := y.retrying[id := RetryCalled], retryCalls := y.retryCalls + {id})
    case SetCredential(c) => y.(shared := y.shared.(credential := c))
    case AdaptSection(id, expiring, checked, stamped) =>
      var (shared, result) := AfterAdapt(y.shared, id, expiring, checked, stamped);
      y.(shared := shared,
         adapting := if result.AdaptDeferred? then y.adapting - {id} else y.adapting[id := AdaptDecided(result)])
    case AdaptDelivers(id) =>
      var outcome := Outcome(y.adapting[id].result);
      y.(adapting := y.adapting - {id}, adapted := y.adapted + seq(|outcome|, i requires 0 <= i < |outcome| => (id, outcome[i])))
    case RetryDeclines(id) => y.(retrying := y.retrying - {id}, retried := y.retried + [(id, DoNotRetry)])
    case RetryReads(id) =>
      if y.shared.credential.None? then
        y.(retrying := y.retrying - {id}, retried := y.retried + [(id, DoNotRetryWithError(MissingCredential))])
      else y.(retrying := y.retrying[id := RetryHolds(y.shared.credential.value)])
    case RetryIsStale(id) => y.(retrying := y.retrying - {id}, retried := y.retried + [(id, Retry)])
    case RetrySection(id, checked, stamped) =>
      y.(shared := AfterRetry(y.shared, id, y.retrying[id].credential, checked, stamped), retrying := y.retrying - {id})
    case RunQueue => AfterBlock(y)
    case RefreshSucceeds(c) => y.(shared := AfterSuccess(y.shared, c), completed := y.completed + 1)
    case RefreshFails(error) => y.(shared := AfterFailure(y.shared, error), completed := y.completed + 1)
  }

  /** Steps that are not enabled when their turn comes are passed over. */
  function Run(y: System, steps: seq<Step>): System
    decreases |steps|
  {
    if steps == [] then y
    else Run(if Enabled(y, steps[0]) then Next(y, steps[0]) else y, steps[1..])
  }

  /** A run of one step more. */
  lemma {:induction false} RunMore(y: System, steps: seq<Step>, last: Step)
    ensures Run(y, steps + [last])
         == if Enabled(Run(y, steps), last) then Next(Run(y, steps), last) else Run(y, steps)
    decreases |steps|
  {
    if steps == [] {
      assert steps + [last] == [last];
    } else {
      assert (steps + [last])[1..] == steps[1..] + [last];
      RunMore(if Enabled(y, steps[0]) then Next(y, steps[0]) else y, steps[1..], last);
    }
  }

  // ------------------------------------------------ where completions are

  function Adapts(b: Block): seq<Id> {
    match b
    case StartRefresh(_) => []
    case Refreshed(adapts, _) => adapts
    case NotRefreshed(_, adapts, _) => adapts
  }

  function Retries(b: Block): seq<Id> {
    match b
    case StartRefresh(_) => []
    case Refreshed(_, retries) => retries
    case NotRefreshed(_, _, retries) => retries
  }

  function Times(s: seq<Id>, id: Id): nat {
    if s == [] then 0 else (if s[0] == id then 1 else 0) + Times(s[1..], id)
  }

  function AdaptsIn(queue: seq<Block>, id: Id): nat {
    if queue == [] then 0 else Times(Adapts(queue[0]), id) + AdaptsIn(queue[1..], id)
  }

  function RetriesIn(queue: seq<Block>, id: Id): nat {
    if queue == [] then 0 else Times(Retries(queue[0]), id) + RetriesIn(queue[1..], id)
  }

  function Starts(queue: seq<Block>): nat {
    if queue == [] then 0 else (if queue[0].StartRefresh? then 1 else 0) + Starts(queue[1..])
  }

  /** How many times a completion has been called. */
  function Called<T>(delivered: seq<(Id, T)>, id: Id): nat {
    if delivered == [] then 0
    else Called(delivered[..|delivered| - 1], id) + if delivered[|delivered| - 1].0 == id then 1 else 0
  }

  /** How many times the interceptor itself holds a completion of adapt: waiting for a
      refresh, or in a dispatched block. */
  function AdaptsHeld(s: Shared, id: Id): nat {
    Times(s.adaptOperations, id) + AdaptsIn(s.queue, id)
  }

  function RetriesHeld(s: Shared, id: Id): nat {
    Times(s.requestsToRetry, id) + RetriesIn(s.queue, id)
  }

  /** Every place a completion of adapt can be, counted: with a call in progress, held by the
      interceptor, or called. */
  function AdaptPlaces(y: System, id: Id): nat {
    (if id in y.adapting then 1 else 0) + AdaptsHeld(y.shared, id) + Called(y.adapted, id)
  }

  function RetryPlaces(y: System, id: Id): nat {
    (if id in y.retrying then 1 else 0) + RetriesHeld(y.shared, id) + Called(y.retried, id)
  }

  /** The completion is in one place if it was ever handed over, and otherwise nowhere. */
  predicate Conserved(y: System, id: Id) {
    AdaptPlaces(y, id) == (if id in y.adaptCalls then 1 else 0)
    && RetryPlaces(y, id) == (if id in y.retryCalls then 1 else 0)
  }

  /** Only calls that were not deferred still have a decision to deliver. */
  predicate DecisionsStand(y: System) {
    forall id :: id in y.adapting && y.adapting[id].AdaptDecided? ==> !y.adapting[id].result.AdaptDeferred?
  }

  lemma {:induction false} TimesAppends(s: seq<Id>, last: Id, id: Id)
    ensures Times(s + [last], id) == Times(s, id) + if last == id then 1 else 0
  {
    if s == [] {
      assert s + [last] == [last];
    } else {
      assert (s + [last])[1..] == s[1..] + [last];
      TimesAppends(s[1..], last, id);
    }
  }

  lemma {:induction false} QueueAppends(queue: seq<Block>, b: Block, id: Id)
    ensures AdaptsIn(queue + [b], id) == AdaptsIn(queue, id) + Times(Adapts(b), id)
    ensures RetriesIn(queue + [b], id) == RetriesIn(queue, id) + Times(Retries(b), id)
    ensures Starts(queue + [b]) == Starts(queue) + if b.StartRefresh? then 1 else 0
  {
    if queue == [] {
      assert queue + [b] == [b];
    } else {
      assert (queue + [b])[1..] == queue[1..] + [b];
      QueueAppends(queue[1..], b, id);
    }
  }

  lemma CalledAppends<T>(delivered: seq<(Id, T)>, last: (Id, T), id: Id)
    ensures Called(delivered + [last], id) == Called(delivered, id) + if last.0 == id then 1 else 0
  {
    assert (delivered + [last])[..|delivered|] == delivered;
  }

  // ------------------------------------------------ the sections

  lemma SuccessHoldsOn(s: Shared, c: Credential, id: Id)
    ensures AdaptsHeld(AfterSuccess(s, c), id) == AdaptsHeld(s, id)
    ensures RetriesHeld(AfterSuccess(s, c), id) == RetriesHeld(s, id)
    ensures Starts(AfterSuccess(s, c).queue) == Starts(s.queue)
  {
    QueueAppends(s.queue, Refreshed(s.adaptOperations, s.requestsToRetry), id);
  }

  lemma FailureHoldsOn(s: Shared, error: Failure, id: Id)
    ensures AdaptsHeld(AfterFailure(s, error), id) == AdaptsHeld(s, id)
    ensures RetriesHeld(AfterFailure(s, error), id) == RetriesHeld(s, id)
    ensures Starts(AfterFailure(s, error).queue) == Starts(s.queue)
  {
    QueueAppends(s.queue, NotRefreshed(error, s.adaptOperations, s.requestsToRetry), id);
  }

  /** refresh leaves the waiting where they are, except that it fails them all when it
      refuses; and when it does not refuse it starts one refresh. */
  lemma RefreshHoldsOn(s: Shared, c: Credential, checked: real, stamped: real, id: Id)
    ensures var t := AfterRefresh(s, c, checked, stamped);
            AdaptsHeld(t, id) == AdaptsHeld(s, id) && RetriesHeld(t, id) == RetriesHeld(s, id)
            && Starts(t.queue) == Starts(s.queue) + if Excessive(s, checked) then 0 else 1
  {
    if Excessive(s, checked) { FailureHoldsOn(s, ExcessiveRefresh, id); } else { QueueAppends(s.queue, StartRefresh(c), id); }
  }

  /** The section of adapt takes in the completion it defers, and no other. */
  lemma AdaptTakesIn(s: Shared, call: Id, expiring: bool, checked: real, stamped: real, id: Id)
    ensures var (t, result) := AfterAdapt(s, call, expiring, checked, stamped);
            RetriesHeld(t, id) == RetriesHeld(s, id)
            && AdaptsHeld(t, id) == AdaptsHeld(s, id) + if result.AdaptDeferred? && call == id then 1 else 0
  {
    TimesAppends(s.adaptOperations, call, id);
    if !s.isRefreshing && s.credential.Some? && expiring {
      RefreshHoldsOn(s.(adaptOperations := s.adaptOperations + [call]), s.credential.value, checked, stamped, id);
    }
  }

  lemma RetryTakesIn(s: Shared, call: Id, c: Credential, checked: real, stamped: real, id: Id)
    ensures var t := AfterRetry(s, call, c, checked, stamped);
            AdaptsHeld(t, id) == AdaptsHeld(s, id)
            && RetriesHeld(t, id) == RetriesHeld(s, id) + if call == id then 1 else 0
  {
    TimesAppends(s.requestsToRetry, call, id);
    if !s.isRefreshing { RefreshHoldsOn(s.(requestsToRetry := s.requestsToRetry + [call]), c, checked, stamped, id); }
  }

  // ------------------------------------------------ conservation

  lemma RequeueHolds(s: Shared, left: Block, id: Id)
    requires s.queue != []
    ensures AdaptsHeld(Requeue(s, left), id) == AdaptsHeld(Pop(s), id) + Times(Adapts(left), id)
    ensures RetriesHeld(Requeue(s, left), id) == RetriesHeld(Pop(s), id) + Times(Retries(left), id)
    ensures Starts(Requeue(s, left).queue) == Starts(Pop(s).queue) + if left.StartRefresh? then 1 else 0
  {
    assert ([left] + s.queue[1..])[1..] == s.queue[1..];
  }

  lemma PopHolds(s: Shared, id: Id)
    requires s.queue != []
    ensures AdaptsHeld(s, id) == AdaptsHeld(Pop(s), id) + Times(Adapts(s.queue[0]), id)
    ensures RetriesHeld(s, id) == RetriesHeld(Pop(s), id) + Times(Retries(s.queue[0]), id)
    ensures Starts(s.queue) == Starts(Pop(s).queue) + if s.queue[0].StartRefresh? then 1 else 0
  {
  }

  /** z accounts for one completion as y does. */
  predicate SamePlaces(y: System, z: System, id: Id) {
    AdaptPlaces(z, id) == AdaptPlaces(y, id) && RetryPlaces(z, id) == RetryPlaces(y, id)
  }

  lemma AdaptReenters(y: System, adapts: seq<Id>, retries: seq<Id>, id: Id)
    requires Conserved(y, id) && y.shared.queue != [] && y.shared.queue[0] == Refreshed(adapts, retries) && adapts != []
    ensures SamePlaces(y, AfterRefreshed(y, adapts, retries), id)
  {
    PopHolds(y.shared, id);
    RequeueHolds(y.shared, Refreshed(adapts[1..], retries), id);
    assert adapts[0] == id ==> id !in y.adapting;
  }

  lemma AdaptIsFailed(y: System, error: Failure, adapts: seq<Id>, retries: seq<Id>, id: Id)
    requires y.shared.queue != [] && y.shared.queue[0] == NotRefreshed(error, adapts, retries) && adapts != []
    ensures SamePlaces(y, AfterNotRefreshed(y, error, adapts, retries), id)
  {
    PopHolds(y.shared, id);
    RequeueHolds(y.shared, NotRefreshed(error, adapts[1..], retries), id);
    CalledAppends(y.adapted, (adapts[0], AdaptFailed(error)), id);
  }

  lemma RetryIsCalled(y: System, left: Block, outcome: RetryOutcome, id: Id)
    requires y.shared.queue != [] && Adapts(y.shared.queue[0]) == Adapts(left) == []
    requires Retries(y.shared.queue[0]) != [] && Retries(left) == Retries(y.shared.queue[0])[1..]
    ensures var call := Retries(y.shared.queue[0])[0];
            SamePlaces(y, y.(retried := y.retried + [(call, outcome)], shared := Requeue(y.shared, left)), id)
  {
    PopHolds(y.shared, id);
    RequeueHolds(y.shared, left, id);
    CalledAppends(y.retried, (Retries(y.shared.queue[0])[0], outcome), id);
  }

  /** What the head of the queue does moves completions, each to one place. */
  lemma BlockConserves(y: System, id: Id)
    requires Conserved(y, id) && y.shared.queue != []
    ensures SamePlaces(y, AfterBlock(y), id)
  {
    PopHolds(y.shared, id);
    match y.shared.queue[0]
    case StartRefresh(_) =>
    case Refreshed(adapts, retries) =>
      if adapts != [] {
        AdaptReenters(y, adapts, retries, id);
      } else if retries != [] {
        RetryIsCalled(y, Refreshed([], retries[1..]), Retry, id);
      }
    case NotRefreshed(error, adapts, retries) =>
      if adapts != [] {
        AdaptIsFailed(y, error, adapts, retries, id);
      } else if retries != [] {
        RetryIsCalled(y, NotRefreshed(error, [], retries[1..]), DoNotRetryWithError(error), id);
      }
  }

  lemma RetryEnds(y: System, call: Id, outcome: RetryOutcome, id: Id)
    requires call in y.retrying
    ensures SamePlaces(y, y.(retrying := y.retrying - {call}, retried := y.retried + [(call, outcome)]), id)
  {
    CalledAppends(y.retried, (call, outcome), id);
    var z := y.(retrying := y.retrying - {call}, retried := y.retried + [(call, outcome)]);
    assert AdaptPlaces(z, id) == AdaptPlaces(y, id);
    assert id in z.retrying <==> id in y.retrying && id != call;
  }

  lemma AdaptEnds(y: System, call: Id, outcome: AdaptOutcome, id: Id)
    requires call in y.adapting
    ensures SamePlaces(y, y.(adapting := y.adapting - {call}, adapted := y.adapted + [(call, outcome)]), id)
  {
    CalledAppends(y.adapted, (call, outcome), id);
    var z := y.(adapting := y.adapting - {call}, adapted := y.adapted + [(call, outcome)]);
    assert RetryPlaces(z, id) == RetryPlaces(y, id);
    assert id in z.adapting <==> id in y.adapting && id != call;
  }

  lemma AdaptDeliversConserves(y: System, call: Id, id: Id)
    requires DecisionsStand(y) && Enabled(y, AdaptDelivers(call))
    ensures SamePlaces(y, Next(y, AdaptDelivers(call)), id)
  {
    var outcome := Outcome(y.adapting[call].result)[0];
    assert Next(y, AdaptDelivers(call)).adapted == y.adapted + [(call, outcome)];
    AdaptEnds(y, call, outcome, id);
  }

  lemma RetryEndsConserves(y: System, step: Step, id: Id)
    requires (step.RetryDeclines? || step.RetryReads? || step.RetryIsStale?) && Enabled(y, step)
    ensures SamePlaces(y, Next(y, step), id)
  {
    match step
    case RetryDeclines(call) => RetryEnds(y, call, DoNotRetry, id);
    case RetryReads(call) => RetryEnds(y, call, DoNotRetryWithError(MissingCredential), id);
    case RetryIsStale(call) => RetryEnds(y, call, Retry, id);
  }

  lemma AdaptSectionConserves(y: System, step: Step, id: Id)
    requires step.AdaptSection? && Enabled(y, step)
    ensures SamePlaces(y, Next(y, step), id)
  {
    AdaptTakesIn(y.shared, step.id, step.expiring, step.checked, step.stamped, id);
  }

  lemma RetrySectionConserves(y: System, step: Step, id: Id)
    requires step.RetrySection? && Enabled(y, step)
    ensures SamePlaces(y, Next(y, step), id)
  {
    RetryTakesIn(y.shared, step.id, y.retrying[step.id].credential, step.checked, step.stamped, id);
  }

  lemma CredentialConserves(y: System, step: Step, id: Id)
    requires (step.SetCredential? || step.RefreshSucceeds? || step.RefreshFails?) && Enabled(y, step)
    ensures SamePlaces(y, Next(y, step), id)
  {
    match step
    case SetCredential(_) =>
    case RefreshSucceeds(c) => SuccessHoldsOn(y.shared, c, id);
    case RefreshFails(error) => FailureHoldsOn(y.shared, error, id);
  }

  lemma CallConserves(y: System, step: Step, id: Id)
    requires Conserved(y, id) && Enabled(y, step) && (step.CallAdapt? || step.CallRetry?)
    ensures Conserved(Next(y, step), id)
  {
  }

  lemma StepConserves(y: System, step: Step, id: Id)
    requires Conserved(y, id) && DecisionsStand(y) && Enabled(y, step)
    ensures Conserved(Next(y, step), id)
  {
    if step.CallAdapt? || step.CallRetry? {
      CallConserves(y, step, id);
    } else {
      assert Next(y, step).adaptCalls == y.adaptCalls && Next(y, step).retryCalls == y.retryCalls;
      StepMoves(y, step, id);
    }
  }

  /** Every other step moves completions, each to one place. */
  lemma StepMoves(y: System, step: Step, id: Id)
    requires Conserved(y, id) && DecisionsStand(y) && Enabled(y, step) && !step.CallAdapt? && !step.CallRetry?
    ensures SamePlaces(y, Next(y, step), id)
  {
    match step
    case AdaptSection(_, _, _, _) => AdaptSectionConserves(y, step, id);
    case AdaptDelivers(call) => AdaptDeliversConserves(y, call, id);
    case RetrySection(_, _, _) => RetrySectionConserves(y, step, id);
    case RunQueue => BlockConserves(y, id);
    case SetCredential(_) => CredentialConserves(y, step, id);
    case RefreshSucceeds(_) => CredentialConserves(y, step, id);
    case RefreshFails(_) => CredentialConserves(y, step, id);
    case _ => RetryEndsConserves(y, step, id);
  }

  lemma StepDecides(y: System, step: Step)
    requires DecisionsStand(y) && Enabled(y, step)
    ensures DecisionsStand(Next(y, step))
  {
  }

  lemma {:induction false} RunConserves(y: System, steps: seq<Step>, id: Id)
    requires Conserved(y, id) && DecisionsStand(y)
    ensures Conserved(Run(y, steps), id)
    decreases |steps|
  {
    if steps != [] {
      if Enabled(y, steps[0]) {
        StepConserves(y, steps[0], id);
        StepDecides(y, steps[0]);
      }
      RunConserves(if Enabled(y, steps[0]) then Next(y, steps[0]) else y, steps[1..], id);
    }
  }

  /** In every run a completion handed to adapt or retry is, at any time, in exactly one
      place: with its call, with the interceptor, or already called. */
  lemma ExactlyOnePlace(credential: Option<Credential>, window: Option<RefreshWindow>, steps: seq<Step>, id: Id)
    ensures var y := Run(Initial(credential, window), steps);
            AdaptPlaces(y, id) == (if id in y.adaptCalls then 1 else 0)
            && RetryPlaces(y, id) == (if id in y.retryCalls then 1 else 0)
  {
    RunConserves(Initial(credential, window), steps, id);
  }

  // ------------------------------------------------ one refresh at a time

  /** Completions wait only for a refresh, and isRefreshing says that exactly one has been
      dispatched and has not answered. */
  predicate OneRefresh(y: System) {
    var s := y.shared;
    (!s.isRefreshing ==> s.adaptOperations == [] && s.requestsToRetry == [])
    && y.completed <= y.started
    && Starts(s.queue) + y.started - y.completed == (if s.isRefreshing then 1 else 0)
    && |s.refreshTimestamps| == y.started + Starts(s.queue)
  }

  lemma StepIsOrderly(y: System, step: Step)
    requires OneRefresh(y) && Enabled(y, step)
    ensures OneRefresh(Next(y, step))
  {
    var s := y.shared;
    match step
    case AdaptSection(id, expiring, checked, stamped) =>
      if !s.isRefreshing && s.credential.Some? && expiring {
        RefreshHoldsOn(s.(adaptOperations := s.adaptOperations + [id]), s.credential.value, checked, stamped, id);
      }
    case RetrySection(id, checked, stamped) =>
      if !s.isRefreshing {
        RefreshHoldsOn(s.(requestsToRetry := s.requestsToRetry + [id]), y.retrying[id].credential, checked, stamped, id);
      }
    case RunQueue => BlockIsOrderly(y);
    case RefreshSucceeds(c) => SuccessHoldsOn(s, c, 0);
    case RefreshFails(error) => FailureHoldsOn(s, error, 0);
    case _ =>
  }

  lemma BlockStarts(y: System)
    requires y.shared.queue != []
    ensures var z := AfterBlock(y);
            Starts(z.shared.queue) + z.started == Starts(y.shared.queue) + y.started && z.completed == y.completed
            && z.shared == y.shared.(queue := z.shared.queue) && z.started >= y.started
  {
    PopHolds(y.shared, 0);
    match y.shared.queue[0]
    case StartRefresh(_) =>
    case Refreshed(adapts, retries) =>
      if adapts != [] {
        RequeueHolds(y.shared, Refreshed(adapts[1..], retries), 0);
      } else if retries != [] {
        RequeueHolds(y.shared, Refreshed([], retries[1..]), 0);
      }
    case NotRefreshed(error, adapts, retries) =>
      if adapts != [] {
        RequeueHolds(y.shared, NotRefreshed(error, adapts[1..], retries), 0);
      } else if retries != [] {
        RequeueHolds(y.shared, NotRefreshed(error, [], retries[1..]), 0);
      }
  }

  lemma BlockIsOrderly(y: System)
    requires OneRefresh(y) && y.shared.queue != []
    ensures OneRefresh(AfterBlock(y))
  {
    BlockStarts(y);
  }

  lemma {:induction false} RunIsOrderly(y: System, steps: seq<Step>)
    requires OneRefresh(y)
    ensures OneRefresh(Run(y, steps))
    decreases |steps|
  {
    if steps != [] {
      if Enabled(y, steps[0]) { StepIsOrderly(y, steps[0]); }
      RunIsOrderly(if Enabled(y, steps[0]) then Next(y, steps[0]) else y, steps[1..]);
    }
  }

  /** In every run completions wait in the interceptor only while isRefreshing, which holds
      exactly while one refresh is dispatched and unanswered; there is never a second. */
  lemma {:induction false} OneRefreshAtATime(credential: Option<Credential>, window: Option<RefreshWindow>,
      steps: seq<Step>)
    ensures OneRefresh(Run(Initial(credential, window), steps))
  {
    RunIsOrderly(Initial(credential, window), steps);
  }

  // ------------------------------------------------ nothing is stranded

  /** A step of the interceptor or the authenticator, as opposed to one of its users. */
  predicate Internal(step: Step) {
    !step.CallAdapt? && !step.CallRetry? && !step.SetCredential?
  }

  ghost predicate AllCalledOnce(y: System) {
    forall id :: Called(y.adapted, id) == (if id in y.adaptCalls then 1 else 0)
                 && Called(y.retried, id) == (if id in y.retryCalls then 1 else 0)
  }

  lemma AtRest(y: System)
    requires OneRefresh(y) && y.shared.queue == [] && y.started == y.completed
    requires y.adapting == map[] && y.retrying == map[] && forall id :: Conserved(y, id)
    ensures AllCalledOnce(y)
  {
    forall id
      ensures Called(y.adapted, id) == if id in y.adaptCalls then 1 else 0
      ensures Called(y.retried, id) == if id in y.retryCalls then 1 else 0
    {
      assert Conserved(y, id);
    }
  }

  /** In every run, as long as some completion has not been called the interceptor has
      something to do, or the authenticator has an answer to give: when neither is the case,
      each completion handed over has been called exactly once. */
  lemma NothingIsStranded(credential: Option<Credential>, window: Option<RefreshWindow>, steps: seq<Step>)
    returns (step: Step)
    ensures var y := Run(Initial(credential, window), steps);
            AllCalledOnce(y) || (Internal(step) && Enabled(y, step) && (step.AdaptSection? ==> !step.expiring))
  {
    var y := Run(Initial(credential, window), steps);
    if id :| id in y.adapting {
      step := if y.adapting[id].AdaptCalled? then AdaptSection(id, false, 0.0, 0.0) else AdaptDelivers(id);
    } else if id :| id in y.retrying {
      step := if y.retrying[id].RetryCalled? then RetryReads(id) else RetryIsStale(id);
    } else if y.shared.queue != [] {
      step := RunQueue;
    } else {
      step := RefreshFails(MissingCredential);
      OneRefreshAtATime(credential, window, steps);
      forall id ensures Conserved(y, id) { ExactlyOnePlace(credential, window, steps, id); }
      if y.started == y.completed { AtRest(y); }
    }
  }

  // ------------------------------------------------ how often a refresh starts

  /** Each refresh found fewer than the allowed attempts in the interval before it. */
  predicate Spaced(timestamps: seq<real>, w: RefreshWindow) {
    if timestamps == [] then true
    else
      var before, last := timestamps[..|timestamps| - 1], timestamps[|timestamps| - 1];
      Spaced(before, w) && CountFrom(before, last - w.interval) < w.maximumAttempts
  }

  predicate WellSpaced(s: Shared) {
    s.refreshWindow.Some? ==> Spaced(s.refreshTimestamps, s.refreshWindow.value)
  }

  lemma {:induction false} CountFromFalls(timestamps: seq<real>, low: real, high: real)
    requires low <= high
    ensures CountFrom(timestamps, high) <= CountFrom(timestamps, low)
  {
    if timestamps != [] { CountFromFalls(timestamps[..|timestamps| - 1], low, high); }
  }

  lemma RefreshSpaces(s: Shared, c: Credential, checked: real, stamped: real)
    requires checked <= stamped && WellSpaced(s)
    ensures WellSpaced(AfterRefresh(s, c, checked, stamped))
  {
    if s.refreshWindow.Some? && !Excessive(s, checked) {
      var interval := s.refreshWindow.value.interval;
      CountFromFalls(s.refreshTimestamps, checked - interval, stamped - interval);
      assert (s.refreshTimestamps + [stamped])[..|s.refreshTimestamps|] == s.refreshTimestamps;
    }
  }

  lemma StepSpaces(y: System, step: Step)
    requires WellSpaced(y.shared) && Enabled(y, step)
    ensures WellSpaced(Next(y, step).shared) && Next(y, step).shared.refreshWindow == y.shared.refreshWindow
  {
    var s := y.shared;
    if step.AdaptSection? && s.credential.Some? {
      RefreshSpaces(s.(adaptOperations := s.adaptOperations + [step.id]), s.credential.value, step.checked, step.stamped);
    } else if step.RetrySection? {
      RefreshSpaces(s.(requestsToRetry := s.requestsToRetry + [step.id]), y.retrying[step.id].credential, step.checked, step.stamped);
    }
  }

  lemma {:induction false} RunSpaces(y: System, steps: seq<Step>)
    requires WellSpaced(y.shared)
    ensures WellSpaced(Run(y, steps).shared) && Run(y, steps).shared.refreshWindow == y.shared.refreshWindow
    decreases |steps|
  {
    if steps != [] {
      if Enabled(y, steps[0]) { StepSpaces(y, steps[0]); }
      RunSpaces(if Enabled(y, steps[0]) then Next(y, steps[0]) else y, steps[1..]);
    }
  }

  /** How many time stamps are between `from` and `to`, both included. */
  function CountWithin(timestamps: seq<real>, from: real, to: real): nat {
    if timestamps == [] then 0
    else
      var last := timestamps[|timestamps| - 1];
      CountWithin(timestamps[..|timestamps| - 1], from, to) + if from <= last <= to then 1 else 0
  }

  lemma {:induction false} WithinIsFrom(timestamps: seq<real>, low: real, from: real, to: real)
    requires low <= from
    ensures CountWithin(timestamps, from, to) <= CountFrom(timestamps, low)
  {
    if timestamps != [] { WithinIsFrom(timestamps[..|timestamps| - 1], low, from, to); }
  }

  lemma {:induction false} SpacedInEveryWindow(timestamps: seq<real>, w: RefreshWindow, from: real)
    requires Spaced(timestamps, w)
    ensures CountWithin(timestamps, from, from + w.interval) <= if w.maximumAttempts < 0 then 0 else w.maximumAttempts
  {
    if timestamps != [] {
      var before, last := timestamps[..|timestamps| - 1], timestamps[|timestamps| - 1];
      SpacedInEveryWindow(before, w, from);
      if from <= last <= from + w.interval { WithinIsFrom(before, last - w.interval, from, from + w.interval); }
    }
  }

  /** In every run at most max(0, maximumAttempts) refreshes are stamped in any stretch of
      time as long as the window's interval, and every refresh has its own stamp. */
  lemma RefreshRate(credential: Option<Credential>, w: RefreshWindow, steps: seq<Step>, from: real)
    ensures var y := Run(Initial(credential, Some(w)), steps);
            |y.shared.refreshTimestamps| == y.started + Starts(y.shared.queue)
            && CountWithin(y.shared.refreshTimestamps, from, from + w.interval)
               <= if w.maximumAttempts < 0 then 0 else w.maximumAttempts
  {
    OneRefreshAtATime(credential, Some(w), steps);
    RunSpaces(Initial(credential, Some(w)), steps);
    SpacedInEveryWindow(Run(Initial(credential, Some(w)), steps).shared.refreshTimestamps, w, from);
  }
}
