/** When an AuthenticationInterceptor begins a refresh, and when it refuses to. */
module InterceptorWindow {
  import opened Wrappers
  import opened AuthenticationInterception
  import opened InterceptorRuns

  /** The section of a call that needs a refresh, made while none is under way. */
  predicate NeedsRefresh(y: System, step: Step) {
    Enabled(y, step) && !y.shared.isRefreshing
    && ((step.AdaptSection? && step.expiring && y.shared.credential.Some?) || step.RetrySection?)
  }

  /** The credential that it is about. */
  function Needed(y: System, step: Step): Credential
    requires NeedsRefresh(y, step)
  {
    if step.AdaptSection? then y.shared.credential.value else y.retrying[step.id].credential
  }

  /** In every run, such a section begins a refresh exactly if there is no window or fewer
      refreshes than it allows have been begun in it; otherwise it fails its own completion and
      no other, and begins none. */
  lemma RefreshBeginsIff(credential: Option<Credential>, window: Option<RefreshWindow>, steps: seq<Step>, step: Step)
    requires NeedsRefresh(Run(Initial(credential, window), steps), step)
    ensures var y := Run(Initial(credential, window), steps);
            var s, z := y.shared, Next(y, step).shared;
            if window.None? || |AttemptsFrom(s.refreshTimestamps, step.checked - window.value.interval)| < window.value.maximumAttempts then
              z.isRefreshing && z.queue == s.queue + [StartRefresh(Needed(y, step))]
              && z.refreshTimestamps == s.refreshTimestamps + [step.stamped]
              && z.adaptOperations == (if step.AdaptSection? then [step.id] else [])
              && z.requestsToRetry == (if step.RetrySection? then [step.id] else [])
            else
              !z.isRefreshing && z.refreshTimestamps == s.refreshTimestamps && z.adaptOperations == z.requestsToRetry == []
              && z.queue == s.queue + [if step.AdaptSection? then NotRefreshed(ExcessiveRefresh, [step.id], [])
                                       else NotRefreshed(ExcessiveRefresh, [], [step.id])]
  {
    OneRefreshAtATime(credential, window, steps);
    WindowStays(Initial(credential, window), steps);
    var y := Run(Initial(credential, window), steps);
    assert [] + [step.id] == [step.id];
  }

  /** The other sections: a call joins those that wait for the refresh under way, and a call of
      adapt is otherwise decided by the credential that is there, and nothing else changes. */
  lemma OtherSections(y: System, step: Step)
    requires Enabled(y, step) && (step.AdaptSection? || step.RetrySection?) && !NeedsRefresh(y, step)
    ensures var s, z := y.shared, Next(y, step);
            if step.RetrySection? then
              z.shared == s.(requestsToRetry := s.requestsToRetry + [step.id])
            else if s.isRefreshing then
              z.shared == s.(adaptOperations := s.adaptOperations + [step.id]) && step.id !in z.adapting
            else
              z.shared == s && step.id in z.adapting
              && z.adapting[step.id]
                 == AdaptDecided(if s.credential.Some? then Adapt(s.credential.value) else DoNotAdapt(MissingCredential))
  {
  }

  /** What a call that ends without waiting tells its completion, the only one that is told
      anything: the decision of adapt, or, of retry, that the failure is not one to retry, that
      there is no credential, or that a newer one than the request was sent with is there. */
  lemma CallIsAnswered(y: System, step: Step)
    requires Enabled(y, step) && DecisionsStand(y)
    requires step.AdaptDelivers? || step.RetryDeclines? || step.RetryIsStale?
             || (step.RetryReads? && y.shared.credential.None?)
    ensures var z := Next(y, step);
            z.shared == y.shared
            && if step.AdaptDelivers? then
                 var result := y.adapting[step.id].result;
                 z.retried == y.retried && step.id !in z.adapting
                 && z.adapted == y.adapted + [(step.id, if result.Adapt? then Authenticated(result.credential)
                                                        else AdaptFailed(result.error))]
               else
                 z.adapted == y.adapted && step.id !in z.retrying
                 && z.retried == y.retried + [(step.id, if step.RetryDeclines? then DoNotRetry
                                                        else if step.RetryIsStale? then Retry
                                                        else DoNotRetryWithError(MissingCredential))]
  {
  }

  /** The credential is the one set last, by the app or by a refresh that succeeded. */
  lemma CredentialIsLatest(y: System, step: Step)
    requires Enabled(y, step)
    ensures Next(y, step).shared.credential
         == if step.SetCredential? then step.replacement
            else if step.RefreshSucceeds? then Some(step.credential) else y.shared.credential
  {
  }

  // ------------------------------------------------ when it has ended

  function Blocks(n: nat): seq<Step> {
    seq(n, _ => RunQueue)
  }

  lemma {:induction false} RunsBlock(y: System, n: nat)
    requires n > 0 && y.shared.queue != []
    ensures Run(y, Blocks(n)) == Run(AfterBlock(y), Blocks(n - 1))
  {
    assert Blocks(n)[1..] == Blocks(n - 1);
  }

  /** Completions with what they are told. */
  function Told<T>(ids: seq<Id>, outcome: T): seq<(Id, T)> {
    seq(|ids|, k requires 0 <= k < |ids| => (ids[k], outcome))
  }

  lemma ToldOneMore<T>(called: seq<(Id, T)>, ids: seq<Id>, outcome: T)
    requires ids != []
    ensures (called + [(ids[0], outcome)]) + Told(ids[1..], outcome) == called + Told(ids, outcome)
  {
  }

  /** After a refresh that failed or was refused, every completion that waited for it is told
      the error, in order. */
  lemma {:induction false} AllToldError(y: System, error: Failure, adapts: seq<Id>, retries: seq<Id>)
    requires y.shared.queue != [] && y.shared.queue[0] == NotRefreshed(error, adapts, retries)
    ensures Run(y, Blocks(|adapts| + |retries| + 1))
         == y.(adapted := y.adapted + Told(adapts, AdaptFailed(error)),
               retried := y.retried + Told(retries, DoNotRetryWithError(error)), shared := Pop(y.shared))
    decreases |adapts| + |retries|
  {
    var z := AfterBlock(y);
    RunsBlock(y, |adapts| + |retries| + 1);
    if adapts != [] {
      AllToldError(z, error, adapts[1..], retries);
      ToldOneMore(y.adapted, adapts, AdaptFailed(error));
      assert Pop(z.shared) == Pop(y.shared);
    } else if retries != [] {
      AllToldError(z, error, [], retries[1..]);
      ToldOneMore(y.retried, retries, DoNotRetryWithError(error));
      assert Pop(z.shared) == Pop(y.shared);
    } else {
      assert y.adapted + [] == y.adapted && y.retried + [] == y.retried;
    }
  }

  /** The calls of adapt that are made again. */
  function Reentered(adapting: map<Id, AdaptPhase>, ids: seq<Id>): map<Id, AdaptPhase>
    decreases |ids|
  {
    if ids == [] then adapting else Reentered(adapting[ids[0] := AdaptCalled], ids[1..])
  }

  lemma {:induction false} ReenteredAll(adapting: map<Id, AdaptPhase>, ids: seq<Id>, id: Id)
    ensures var z := Reentered(adapting, ids);
            (id in z <==> id in adapting || id in ids)
            && (id in z ==> z[id] == if id in ids then AdaptCalled else adapting[id])
    decreases |ids|
  {
    if ids != [] { ReenteredAll(adapting[ids[0] := AdaptCalled], ids[1..], id); }
  }

  /** After one that succeeded, every retry that waited for it is granted, in order, and every
      adapt is made again. */
  lemma {:induction false} AllGoOn(y: System, adapts: seq<Id>, retries: seq<Id>)
    requires y.shared.queue != [] && y.shared.queue[0] == Refreshed(adapts, retries)
    ensures Run(y, Blocks(|adapts| + |retries| + 1))
         == y.(adapting := Reentered(y.adapting, adapts), retried := y.retried + Told(retries, Retry),
               shared := Pop(y.shared))
    decreases |adapts| + |retries|
  {
    var z := AfterBlock(y);
    RunsBlock(y, |adapts| + |retries| + 1);
    if adapts != [] {
      AllGoOn(z, adapts[1..], retries);
      assert Pop(z.shared) == Pop(y.shared);
    } else if retries != [] {
      AllGoOn(z, [], retries[1..]);
      ToldOneMore(y.retried, retries, Retry);
      assert Pop(z.shared) == Pop(y.shared);
    } else {
      assert y.retried + [] == y.retried;
    }
  }

  /** So an answer of the authenticator, with nothing dispatched before it, is passed on to all
      that waited, in the order in which they came. */
  lemma AnswerIsPassedOn(y: System, answer: Step)
    requires Enabled(y, answer) && y.shared.queue == [] && (answer.RefreshSucceeds? || answer.RefreshFails?)
    ensures var s := y.shared;
            var z := Run(y, [answer] + Blocks(|s.adaptOperations| + |s.requestsToRetry| + 1));
            !z.shared.isRefreshing && z.shared.adaptOperations == z.shared.requestsToRetry == [] && z.shared.queue == []
            && if answer.RefreshSucceeds? then
                 z.shared.credential == Some(answer.credential) && z.adapted == y.adapted
                 && z.retried == y.retried + Told(s.requestsToRetry, Retry)
                 && z.adapting == Reentered(y.adapting, s.adaptOperations)
               else
                 z.shared.credential == s.credential && z.adapting == y.adapting
                 && z.adapted == y.adapted + Told(s.adaptOperations, AdaptFailed(answer.error))
                 && z.retried == y.retried + Told(s.requestsToRetry, DoNotRetryWithError(answer.error))
  {
    var s, z := y.shared, Next(y, answer);
    var blocks := Blocks(|s.adaptOperations| + |s.requestsToRetry| + 1);
    assert ([answer] + blocks)[1..] == blocks;
    assert Run(y, [answer] + blocks) == Run(z, blocks);
    if answer.RefreshSucceeds? {
      AllGoOn(z, s.adaptOperations, s.requestsToRetry);
    } else {
      AllToldError(z, answer.error, s.adaptOperations, s.requestsToRetry);
    }
  }

  lemma {:induction false} WindowStays(y: System, steps: seq<Step>)
    ensures Run(y, steps).shared.refreshWindow == y.shared.refreshWindow
    decreases |steps|
  {
    if steps != [] { WindowStays(if Enabled(y, steps[0]) then Next(y, steps[0]) else y, steps[1..]); }
  }
}
