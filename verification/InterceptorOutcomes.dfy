/** What completions are told in a run of an AuthenticationInterceptor, and why. */
module InterceptorOutcomes {
  import opened Wrappers
  import opened AuthenticationInterception
  import opened InterceptorRuns

  // ------------------------------------------------ authenticated requests

  /** Completion `id` of adapt has been given `c`, or is about to be. */
  predicate Granted(y: System, id: Id, c: Credential) {
    (id in y.adapting && y.adapting[id] == AdaptDecided(Adapt(c))) || (id, Authenticated(c)) in y.adapted
  }

  /** The step is the section of call `id` of adapt, made while no refresh was under way and
      `c` was the credential and did not require one. */
  predicate Grants(y: System, step: Step, id: Id, c: Credential) {
    Enabled(y, step) && step.AdaptSection? && step.id == id && !step.expiring
    && !y.shared.isRefreshing && y.shared.credential == Some(c)
  }

  lemma BlockGrantsNothing(y: System, id: Id, c: Credential)
    requires y.shared.queue != [] && Granted(AfterBlock(y), id, c)
    ensures Granted(y, id, c)
  {
  }

  lemma GrantedByStep(y: System, step: Step, id: Id, c: Credential)
    requires Enabled(y, step) && Granted(Next(y, step), id, c)
    ensures Granted(y, id, c) || Grants(y, step, id, c)
  {
    if step.RunQueue? { BlockGrantsNothing(y, id, c); }
  }

  /** In every run a request is authenticated only with a credential that the section of its
      own call found current, not about to expire, and not being refreshed. */
  lemma {:induction false} AuthenticatedWithCurrent(
      credential: Option<Credential>, window: Option<RefreshWindow>, steps: seq<Step>, id: Id, c: Credential)
    returns (k: nat)
    requires Granted(Run(Initial(credential, window), steps), id, c)
    ensures k < |steps| && Grants(Run(Initial(credential, window), steps[..k]), steps[k], id, c)
    decreases |steps|
  {
    k := |steps| - 1;
    var before := steps[..k];
    assert before + [steps[k]] == steps;
    RunMore(Initial(credential, window), before, steps[k]);
    var y := Run(Initial(credential, window), before);
    if Granted(y, id, c) {
      k := AuthenticatedWithCurrent(credential, window, before, id, c);
      assert before[..k] == steps[..k];
    } else {
      GrantedByStep(y, steps[k], id, c);
    }
  }

  // ------------------------------------------------ retried requests

  /** A block that is going to tell completion `id` to retry. */
  predicate RetryDispatched(queue: seq<Block>, id: Id) {
    queue != [] && ((queue[0].Refreshed? && id in queue[0].retries) || RetryDispatched(queue[1..], id))
  }

  predicate ToldToRetry(y: System, id: Id) {
    (id, Retry) in y.retried || RetryDispatched(y.shared.queue, id)
  }

  /** The step finds that the request was sent with another credential, or ends a refresh
      that the completion has waited for, with success. */
  predicate LetsRetry(y: System, step: Step, id: Id) {
    Enabled(y, step)
    && (step == RetryIsStale(id) || (step.RefreshSucceeds? && id in y.shared.requestsToRetry))
  }

  lemma {:induction false} DispatchedMore(queue: seq<Block>, b: Block, id: Id)
    ensures RetryDispatched(queue + [b], id) == (RetryDispatched(queue, id) || (b.Refreshed? && id in b.retries))
  {
    if queue == [] {
      assert queue + [b] == [b];
    } else {
      assert (queue + [b])[1..] == queue[1..] + [b];
      DispatchedMore(queue[1..], b, id);
    }
  }

  lemma RefreshLetsNoneRetry(s: Shared, c: Credential, checked: real, stamped: real, id: Id)
    ensures RetryDispatched(AfterRefresh(s, c, checked, stamped).queue, id) == RetryDispatched(s.queue, id)
  {
    DispatchedMore(s.queue, StartRefresh(c), id);
    DispatchedMore(s.queue, NotRefreshed(ExcessiveRefresh, s.adaptOperations, s.requestsToRetry), id);
  }

  /** What is left of a block: of its kind, with no more completions to call. */
  predicate PartOf(left: Block, b: Block) {
    match left
    case StartRefresh(_) => false
    case Refreshed(adapts, retries) =>
      b.Refreshed? && (forall id :: id in adapts ==> id in b.adapts) && (forall id :: id in retries ==> id in b.retries)
    case NotRefreshed(error, adapts, retries) =>
      b.NotRefreshed? && b.error == error
      && (forall id :: id in adapts ==> id in b.adapts) && (forall id :: id in retries ==> id in b.retries)
  }

  lemma BlockLeaves(y: System)
    requires y.shared.queue != []
    ensures var q, r := y.shared.queue, AfterBlock(y).shared.queue;
            r == q[1..] || (r != [] && r[1..] == q[1..] && PartOf(r[0], q[0]))
  {
    var b, r := y.shared.queue[0], AfterBlock(y).shared.queue;
    if b.StartRefresh? || (b.adapts == [] && b.retries == []) {
      assert r == y.shared.queue[1..];
    } else {
      var adapts := if b.adapts != [] then b.adapts[1..] else [];
      var retries := if b.adapts != [] then b.retries else b.retries[1..];
      var left := if b.Refreshed? then Refreshed(adapts, retries) else NotRefreshed(b.error, adapts, retries);
      assert r == [left] + y.shared.queue[1..];
      assert PartOf(left, b);
    }
  }

  /** The completion that it calls, and how. */
  lemma BlockCalls(y: System)
    requires y.shared.queue != []
    ensures var b, z := y.shared.queue[0], AfterBlock(y);
            (z.retried == y.retried
             || (b.Refreshed? && b.retries != [] && z.retried == y.retried + [(b.retries[0], Retry)])
             || (b.NotRefreshed? && b.retries != []
                 && z.retried == y.retried + [(b.retries[0], DoNotRetryWithError(b.error))]))
            && (z.adapted == y.adapted
                || (b.NotRefreshed? && b.adapts != [] && z.adapted == y.adapted + [(b.adapts[0], AdaptFailed(b.error))]))
  {
  }

  lemma BlockLetsNoneRetry(y: System, id: Id)
    requires y.shared.queue != [] && ToldToRetry(AfterBlock(y), id)
    ensures ToldToRetry(y, id)
  {
    BlockLeaves(y);
    BlockCalls(y);
  }

  lemma ToldByStep(y: System, step: Step, id: Id)
    requires Enabled(y, step) && ToldToRetry(Next(y, step), id)
    ensures ToldToRetry(y, id) || LetsRetry(y, step, id)
  {
    var s := y.shared;
    match step
    case AdaptSection(call, expiring, checked, stamped) =>
      if s.credential.Some? {
        RefreshLetsNoneRetry(s.(adaptOperations := s.adaptOperations + [call]), s.credential.value, checked, stamped, id);
      }
    case RetrySection(call, checked, stamped) =>
      RefreshLetsNoneRetry(s.(requestsToRetry := s.requestsToRetry + [call]), y.retrying[call].credential, checked, stamped, id);
    case RunQueue => BlockLetsNoneRetry(y, id);
    case RefreshSucceeds(c) => DispatchedMore(s.queue, Refreshed(s.adaptOperations, s.requestsToRetry), id);
    case RefreshFails(error) => DispatchedMore(s.queue, NotRefreshed(error, s.adaptOperations, s.requestsToRetry), id);
    case _ =>
  }

  /** In every run a completion of retry is told to retry only because its request was not
      sent with the credential that retry read, or because a refresh succeeded while the
      completion was waiting for it. */
  lemma {:induction false} RetriedForAReason(
      credential: Option<Credential>, window: Option<RefreshWindow>, steps: seq<Step>, id: Id)
    returns (k: nat)
    requires ToldToRetry(Run(Initial(credential, window), steps), id)
    ensures k < |steps| && LetsRetry(Run(Initial(credential, window), steps[..k]), steps[k], id)
    decreases |steps|
  {
    k := |steps| - 1;
    var before := steps[..k];
    assert before + [steps[k]] == steps;
    RunMore(Initial(credential, window), before, steps[k]);
    var y := Run(Initial(credential, window), before);
    if ToldToRetry(y, id) {
      k := RetriedForAReason(credential, window, before, id);
      assert before[..k] == steps[..k];
    } else {
      ToldByStep(y, steps[k], id);
    }
  }

  // ------------------------------------------------ failed adaptations

  /** A block that is going to fail completion `id` of adapt with `e`. */
  predicate FailureDispatched(queue: seq<Block>, id: Id, e: Failure) {
    queue != []
    && ((queue[0].NotRefreshed? && queue[0].error == e && id in queue[0].adapts) || FailureDispatched(queue[1..], id, e))
  }

  predicate Fails(y: System, id: Id, e: Failure) {
    (id, AdaptFailed(e)) in y.adapted || (id in y.adapting && y.adapting[id] == AdaptDecided(DoNotAdapt(e)))
    || FailureDispatched(y.shared.queue, id, e)
  }

  /** The step is the completion's own section, which finds no credential or too many
      refreshes in the window; or it ends with `e` the refresh the completion waited for. */
  predicate LetsFail(y: System, step: Step, id: Id, e: Failure) {
    Enabled(y, step)
    && ((step.RefreshFails? && step.error == e && id in y.shared.adaptOperations)
        || (step.AdaptSection? && step.id == id && !y.shared.isRefreshing
            && if y.shared.credential.None? then e == MissingCredential
               else step.expiring && WindowFull(y.shared, step.checked) && e == ExcessiveRefresh))
  }

  lemma {:induction false} FailureMore(queue: seq<Block>, b: Block, id: Id, e: Failure)
    ensures FailureDispatched(queue + [b], id, e)
         == (FailureDispatched(queue, id, e) || (b.NotRefreshed? && b.error == e && id in b.adapts))
  {
    if queue == [] {
      assert queue + [b] == [b];
    } else {
      assert (queue + [b])[1..] == queue[1..] + [b];
      FailureMore(queue[1..], b, id, e);
    }
  }

  lemma RefreshFailsOnly(s: Shared, c: Credential, checked: real, stamped: real, id: Id, e: Failure)
    requires FailureDispatched(AfterRefresh(s, c, checked, stamped).queue, id, e)
    ensures FailureDispatched(s.queue, id, e)
            || (Excessive(s, checked) && e == ExcessiveRefresh && id in s.adaptOperations)
  {
    FailureMore(s.queue, StartRefresh(c), id, e);
    FailureMore(s.queue, NotRefreshed(ExcessiveRefresh, s.adaptOperations, s.requestsToRetry), id, e);
  }

  lemma BlockFailsNoOther(y: System, id: Id, e: Failure)
    requires y.shared.queue != [] && Fails(AfterBlock(y), id, e)
    ensures Fails(y, id, e)
  {
    BlockLeaves(y);
    BlockCalls(y);
  }

  lemma SectionFailsOnly(y: System, step: Step, id: Id, e: Failure)
    requires OneRefresh(y) && Enabled(y, step) && (step.AdaptSection? || step.RetrySection?)
    requires Fails(Next(y, step), id, e)
    ensures Fails(y, id, e) || LetsFail(y, step, id, e)
  {
    var s := y.shared;
    if !s.isRefreshing && FailureDispatched(Next(y, step).shared.queue, id, e) {
      if step.RetrySection? {
        RefreshFailsOnly(s.(requestsToRetry := s.requestsToRetry + [step.id]), y.retrying[step.id].credential,
                         step.checked, step.stamped, id, e);
      } else if s.credential.Some? && step.expiring {
        RefreshFailsOnly(s.(adaptOperations := s.adaptOperations + [step.id]), s.credential.value,
                         step.checked, step.stamped, id, e);
      }
    }
  }

  lemma FailsByStep(y: System, step: Step, id: Id, e: Failure)
    requires OneRefresh(y) && Enabled(y, step) && Fails(Next(y, step), id, e)
    ensures Fails(y, id, e) || LetsFail(y, step, id, e)
  {
    var s := y.shared;
    match step
    case AdaptSection(_, _, _, _) => SectionFailsOnly(y, step, id, e);
    case RetrySection(_, _, _) => SectionFailsOnly(y, step, id, e);
    case RunQueue => BlockFailsNoOther(y, id, e);
    case RefreshSucceeds(c) => FailureMore(s.queue, Refreshed(s.adaptOperations, s.requestsToRetry), id, e);
    case RefreshFails(error) => FailureMore(s.queue, NotRefreshed(error, s.adaptOperations, s.requestsToRetry), id, e);
    case _ =>
  }

  /** In every run a completion of adapt fails only because there was no credential, or its
      own section found too many refreshes in the window, or the refresh it waited for failed
      with that error. */
  lemma {:induction false} FailedForAReason(
      credential: Option<Credential>, window: Option<RefreshWindow>, steps: seq<Step>, id: Id, e: Failure)
    returns (k: nat)
    requires Fails(Run(Initial(credential, window), steps), id, e)
    ensures k < |steps| && LetsFail(Run(Initial(credential, window), steps[..k]), steps[k], id, e)
    decreases |steps|
  {
    k := |steps| - 1;
    var before := steps[..k];
    assert before + [steps[k]] == steps;
    RunMore(Initial(credential, window), before, steps[k]);
    var y := Run(Initial(credential, window), before);
    if Fails(y, id, e) {
      k := FailedForAReason(credential, window, before, id, e);
      assert before[..k] == steps[..k];
    } else {
      OneRefreshAtATime(credential, window, before);
      FailsByStep(y, steps[k], id, e);
    }
  }

  // ------------------------------------------------ failed retries

  /** A block that is going to fail completion `id` of retry with `e`. */
  predicate RefusalDispatched(queue: seq<Block>, id: Id, e: Failure) {
    queue != []
    && ((queue[0].NotRefreshed? && queue[0].error == e && id in queue[0].retries)
        || RefusalDispatched(queue[1..], id, e))
  }

  predicate Refused(y: System, id: Id, e: Failure) {
    (id, DoNotRetryWithError(e)) in y.retried || RefusalDispatched(y.shared.queue, id, e)
  }

  /** The step finds no credential for the call, or is the call's own section, which finds
      too many refreshes in the window; or it ends with `e` the refresh the completion waited
      for. */
  predicate LetsRefuse(y: System, step: Step, id: Id, e: Failure) {
    Enabled(y, step)
    && ((step == RetryReads(id) && y.shared.credential.None? && e == MissingCredential)
        || (step.RetrySection? && step.id == id && !y.shared.isRefreshing && WindowFull(y.shared, step.checked)
            && e == ExcessiveRefresh)
        || (step.RefreshFails? && step.error == e && id in y.shared.requestsToRetry))
  }

  lemma {:induction false} RefusalMore(queue: seq<Block>, b: Block, id: Id, e: Failure)
    ensures RefusalDispatched(queue + [b], id, e)
         == (RefusalDispatched(queue, id, e) || (b.NotRefreshed? && b.error == e && id in b.retries))
  {
    if queue == [] {
      assert queue + [b] == [b];
    } else {
      assert (queue + [b])[1..] == queue[1..] + [b];
      RefusalMore(queue[1..], b, id, e);
    }
  }

  lemma RefreshRefusesOnly(s: Shared, c: Credential, checked: real, stamped: real, id: Id, e: Failure)
    requires RefusalDispatched(AfterRefresh(s, c, checked, stamped).queue, id, e)
    ensures RefusalDispatched(s.queue, id, e)
            || (Excessive(s, checked) && e == ExcessiveRefresh && id in s.requestsToRetry)
  {
    RefusalMore(s.queue, StartRefresh(c), id, e);
    RefusalMore(s.queue, NotRefreshed(ExcessiveRefresh, s.adaptOperations, s.requestsToRetry), id, e);
  }

  lemma BlockRefusesNoOther(y: System, id: Id, e: Failure)
    requires y.shared.queue != [] && Refused(AfterBlock(y), id, e)
    ensures Refused(y, id, e)
  {
    BlockLeaves(y);
    BlockCalls(y);
  }

  lemma SectionRefusesOnly(y: System, step: Step, id: Id, e: Failure)
    requires OneRefresh(y) && Enabled(y, step) && (step.AdaptSection? || step.RetrySection?)
    requires Refused(Next(y, step), id, e)
    ensures Refused(y, id, e) || LetsRefuse(y, step, id, e)
  {
    var s := y.shared;
    if !s.isRefreshing && RefusalDispatched(Next(y, step).shared.queue, id, e) {
      if step.RetrySection? {
        RefreshRefusesOnly(s.(requestsToRetry := s.requestsToRetry + [step.id]), y.retrying[step.id].credential,
                           step.checked, step.stamped, id, e);
      } else if s.credential.Some? && step.expiring {
        RefreshRefusesOnly(s.(adaptOperations := s.adaptOperations + [step.id]), s.credential.value,
                           step.checked, step.stamped, id, e);
      }
    }
  }

  lemma RefusedByStep(y: System, step: Step, id: Id, e: Failure)
    requires OneRefresh(y) && Enabled(y, step) && Refused(Next(y, step), id, e)
    ensures Refused(y, id, e) || LetsRefuse(y, step, id, e)
  {
    var s := y.shared;
    match step
    case AdaptSection(_, _, _, _) => SectionRefusesOnly(y, step, id, e);
    case RetrySection(_, _, _) => SectionRefusesOnly(y, step, id, e);
    case RunQueue => BlockRefusesNoOther(y, id, e);
    case RefreshSucceeds(c) => RefusalMore(s.queue, Refreshed(s.adaptOperations, s.requestsToRetry), id, e);
    case RefreshFails(error) => RefusalMore(s.queue, NotRefreshed(error, s.adaptOperations, s.requestsToRetry), id, e);
    case _ =>
  }

  /** In every run a completion of retry is told an error only because there was no credential
      to read, or its own section found too many refreshes in the window, or the refresh it
      waited for failed with that error. */
  lemma {:induction false} RefusedForAReason(
      credential: Option<Credential>, window: Option<RefreshWindow>, steps: seq<Step>, id: Id, e: Failure)
    returns (k: nat)
    requires Refused(Run(Initial(credential, window), steps), id, e)
    ensures k < |steps| && LetsRefuse(Run(Initial(credential, window), steps[..k]), steps[k], id, e)
    decreases |steps|
  {
    k := |steps| - 1;
    var before := steps[..k];
    assert before + [steps[k]] == steps;
    RunMore(Initial(credential, window), before, steps[k]);
    var y := Run(Initial(credential, window), before);
    if Refused(y, id, e) {
      k := RefusedForAReason(credential, window, before, id, e);
      assert before[..k] == steps[..k];
    } else {
      OneRefreshAtATime(credential, window, before);
      RefusedByStep(y, steps[k], id, e);
    }
  }
}
