/** Alamofire's AuthenticationInterceptor: completions queued behind one credential
    refresh at a time, and the limit on how often a refresh is started. */
module AuthenticationInterception {
  import opened Wrappers

  /** A completion closure, with the request it belongs to. */
  type Id = nat

  datatype Credential = Credential(token: nat)

  datatype Failure = MissingCredential | ExcessiveRefresh | RefreshError(code: int)

  datatype RefreshWindow = RefreshWindow(interval: real, maximumAttempts: int)

  /** A block dispatched to the interceptor's queue. */
  datatype Block =
    | StartRefresh(credential: Credential)
    | Refreshed(adapts: seq<Id>, retries: seq<Id>)
    | NotRefreshed(error: Failure, adapts: seq<Id>, retries: seq<Id>)

  datatype AdaptResult = Adapt(credential: Credential) | DoNotAdapt(error: Failure) | AdaptDeferred

  /** MutableState, and the queue that the sections holding its lock dispatch to. */
  datatype Shared = Shared(
    credential: Option<Credential>,
    isRefreshing: bool,
    refreshTimestamps: seq<real>,
    refreshWindow: Option<RefreshWindow>,
    adaptOperations: seq<Id>,
    requestsToRetry: seq<Id>,
    queue: seq<Block>)

  // ------------------------------------------------ sections under the lock

  /** How many time stamps are at or after `min`. */
  function CountFrom(timestamps: seq<real>, min: real): nat {
    if timestamps == [] then 0
    else CountFrom(timestamps[..|timestamps| - 1], min) + if min <= timestamps[|timestamps| - 1] then 1 else 0
  }

  /** The attempts at or after `min`, by their numbers. */
  function AttemptsFrom(timestamps: seq<real>, min: real): set<nat> {
    set i: nat | i < |timestamps| && timestamps[i] >= min
  }

  /** As many attempts were made in the window that ends at `now` as it allows. */
  predicate WindowFull(s: Shared, now: real) {
    s.refreshWindow.Some?
    && |AttemptsFrom(s.refreshTimestamps, now - s.refreshWindow.value.interval)| >= s.refreshWindow.value.maximumAttempts
  }

  lemma {:induction false} CountIsSize(timestamps: seq<real>, min: real)
    ensures CountFrom(timestamps, min) == |AttemptsFrom(timestamps, min)|
  {
    if timestamps != [] {
      var last := |timestamps| - 1;
      CountIsSize(timestamps[..last], min);
      assert AttemptsFrom(timestamps, min)
          == AttemptsFrom(timestamps[..last], min) + if min <= timestamps[last] then {last} else {};
    }
  }

  /** isRefreshExcessive, reading the clock as `now`. */
  function Excessive(s: Shared, now: real): (excessive: bool)
    ensures excessive == WindowFull(s, now)
  {
    match s.refreshWindow
    case None => false
    case Some(w) =>
      CountIsSize(s.refreshTimestamps, now - w.interval);
      CountFrom(s.refreshTimestamps, now - w.interval) >= w.maximumAttempts
  }

  function AfterSuccess(s: Shared, c: Credential): Shared {
    s.(credential := Some(c), adaptOperations := [], requestsToRetry := [], isRefreshing := false,
       queue := s.queue + [Refreshed(s.adaptOperations, s.requestsToRetry)])
  }

  function AfterFailure(s: Shared, error: Failure): Shared {
    s.(adaptOperations := [], requestsToRetry := [], isRefreshing := false,
       queue := s.queue + [NotRefreshed(error, s.adaptOperations, s.requestsToRetry)])
  }

  /** refresh: the clock reads `checked` when the attempts are counted and `stamped` when
      the attempt is recorded. */
  function AfterRefresh(s: Shared, c: Credential, checked: real, stamped: real): Shared {
    if Excessive(s, checked) then AfterFailure(s, ExcessiveRefresh)
    else s.(refreshTimestamps := s.refreshTimestamps + [stamped], isRefreshing := true,
            queue := s.queue + [StartRefresh(c)])
  }

  /** The section of adapt; `expiring` is the credential's requiresRefresh. */
  function AfterAdapt(s: Shared, id: Id, expiring: bool, checked: real, stamped: real): (Shared, AdaptResult) {
    var queued := s.(adaptOperations := s.adaptOperations + [id]);
    if s.isRefreshing then (queued, AdaptDeferred)
    else if s.credential.None? then (s, DoNotAdapt(MissingCredential))
    else if expiring then (AfterRefresh(queued, s.credential.value, checked, stamped), AdaptDeferred)
    else (s, Adapt(s.credential.value))
  }

  /** The section of retry; `c` was read before the lock was taken. */
  function AfterRetry(s: Shared, id: Id, c: Credential, checked: real, stamped: real): Shared {
    var queued := s.(requestsToRetry := s.requestsToRetry + [id]);
    if s.isRefreshing then queued else AfterRefresh(queued, c, checked, stamped)
  }

  /** The interceptor's state, updated in place by the sections. */
  class AuthenticationInterceptor {
    var credential: Option<Credential>
    var isRefreshing: bool
    var refreshTimestamps: seq<real>
    const refreshWindow: Option<RefreshWindow>
    var adaptOperations: seq<Id>
    var requestsToRetry: seq<Id>
    var queue: seq<Block>

    ghost function State(): Shared
      reads this
    {
      Shared(credential, isRefreshing, refreshTimestamps, refreshWindow, adaptOperations, requestsToRetry, queue)
    }

    constructor (credential: Option<Credential>, refreshWindow: Option<RefreshWindow>)
      ensures State() == Shared(credential, false, [], refreshWindow, [], [], [])
    {
      this.credential, this.refreshWindow := credential, refreshWindow;
      isRefreshing, refreshTimestamps, adaptOperations, requestsToRetry, queue := false, [], [], [], [];
    }

    method IsRefreshExcessive(now: real) returns (excessive: bool)
      ensures excessive == WindowFull(State(), now)
    {
      if refreshWindow.Some? { CountIsSize(refreshTimestamps, now - refreshWindow.value.interval); }
      if refreshWindow.None? { return false; }
      var refreshWindowMin := now - refreshWindow.value.interval;
      var attempts := 0;
      for i := 0 to |refreshTimestamps|
        invariant attempts == CountFrom(refreshTimestamps[..i], refreshWindowMin)
      {
        assert refreshTimestamps[..i + 1][..i] == refreshTimestamps[..i];
        if refreshWindowMin <= refreshTimestamps[i] { attempts := attempts + 1; }
      }
      assert refreshTimestamps[..|refreshTimestamps|] == refreshTimestamps;
      return attempts >= refreshWindow.value.maximumAttempts;
    }

    method HandleRefreshSuccess(c: Credential)
      modifies this
      ensures State() == AfterSuccess(old(State()), c)
    {
      credential := Some(c);
      var adapts, retries := adaptOperations, requestsToRetry;
      adaptOperations := [];
      requestsToRetry := [];
      isRefreshing := false;
      queue := queue + [Refreshed(adapts, retries)];
    }

    method HandleRefreshFailure(error: Failure)
      modifies this
      ensures State() == AfterFailure(old(State()), error)
    {
      var adapts, retries := adaptOperations, requestsToRetry;
      adaptOperations := [];
      requestsToRetry := [];
      isRefreshing := false;
      queue := queue + [NotRefreshed(error, adapts, retries)];
    }

    method Refresh(c: Credential, checked: real, stamped: real)
      modifies this
      ensures State() == AfterRefresh(old(State()), c, checked, stamped)
    {
      var excessive := IsRefreshExcessive(checked);
      if excessive {
        HandleRefreshFailure(ExcessiveRefresh);
        return;
      }
      refreshTimestamps := refreshTimestamps + [stamped];
      isRefreshing := true;
      queue := queue + [StartRefresh(c)];
    }

    method AdaptSection(id: Id, expiring: bool, checked: real, stamped: real) returns (result: AdaptResult)
      modifies this
      ensures (State(), result) == AfterAdapt(old(State()), id, expiring, checked, stamped)
    {
      if isRefreshing {
        adaptOperations := adaptOperations + [id];
        return AdaptDeferred;
      }
      if credential.None? { return DoNotAdapt(MissingCredential); }
      if expiring {
        adaptOperations := adaptOperations + [id];
        Refresh(credential.value, checked, stamped);
        return AdaptDeferred;
      }
      return Adapt(credential.value);
    }

    method RetrySection(id: Id, c: Credential, checked: real, stamped: real)
      modifies this
      ensures State() == AfterRetry(old(State()), id, c, checked, stamped)
    {
      requestsToRetry := requestsToRetry + [id];
      if isRefreshing { return; }
      Refresh(c, checked, stamped);
    }
  }
}
