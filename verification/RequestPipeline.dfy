/** Alamofire's Request: its state, and the response serializers that run one after another
    before any of their completions is called. */
module RequestPipeline {
  import opened Wrappers

  /** A serializer closure, or its completion. */
  type Id = nat

  datatype State = Initialized | Resumed | Suspended | Cancelled | Finished {
    predicate CanTransitionTo(to: State) {
      match (this, to)
      case (Initialized, _) => true
      case (_, Initialized) => false
      case (Cancelled, _) => false
      case (Finished, _) => false
      case (Resumed, Resumed) => false
      case (Suspended, Suspended) => false
      case (_, _) => true
    }
  }

  /** The part of MutableState that the pipeline uses. */
  datatype Shared = Shared(
    state: State,
    serializers: seq<Id>,
    completions: seq<Id>,
    processingFinished: bool,
    isFinishing: bool)

  // ------------------------------------------------ sections under the lock

  /** cancel, suspend and resume, as far as the state goes. */
  function AfterTransition(s: Shared, to: State): Shared {
    if s.state.CanTransitionTo(to) then s.(state := to) else s
  }

  function AfterAppend(s: Shared, id: Id): Shared {
    s.(serializers := s.serializers + [id], state := if s.state == Finished then Resumed else s.state)
  }

  /** nextResponseSerializer: the first serializer whose completion is not there yet. */
  function NextSerializer(s: Shared): Option<Id> {
    if |s.completions| < |s.serializers| then Some(s.serializers[|s.completions|]) else None
  }

  /** The section of processNextResponseSerializer when no serializer is left. */
  function AfterClear(s: Shared): Shared {
    AfterTransition(s, Finished).(serializers := [], completions := [], processingFinished := true, isFinishing := false)
  }

  /** A request, updated in place by the sections; what they dispatch is returned. */
  class Request {
    var state: State
    var responseSerializers: seq<Id>
    var responseSerializerCompletions: seq<Id>
    var responseSerializerProcessingFinished: bool
    var isFinishing: bool

    ghost function Now(): Shared
      reads this
    {
      Shared(state, responseSerializers, responseSerializerCompletions, responseSerializerProcessingFinished, isFinishing)
    }

    constructor ()
      ensures Now() == Shared(Initialized, [], [], false, false)
    {
      state, responseSerializers, responseSerializerCompletions := Initialized, [], [];
      responseSerializerProcessingFinished, isFinishing := false, false;
    }

    /** cancel: `task` says whether there is a last task that has not completed. It is
        cancelled, or finish is dispatched in its place. */
    method Cancel(task: bool) returns (didCancel: bool, finish: bool, cancelTask: bool)
      modifies this
      ensures Now() == AfterTransition(old(Now()), Cancelled) == old(Now()).(state := state)
      ensures state == if old(state) == Finished then Finished else Cancelled
      ensures didCancel == (state != old(state))
      ensures finish == (didCancel && !task) && cancelTask == (didCancel && task)
    {
      if !state.CanTransitionTo(Cancelled) { return false, false, false; }
      state := Cancelled;
      if !task { return true, true, false; }
      return true, false, true;
    }

    /** suspend */
    method Suspend(task: bool) returns (didSuspend: bool, suspendTask: bool)
      modifies this
      ensures Now() == AfterTransition(old(Now()), Suspended) == old(Now()).(state := state)
      ensures state == if old(state) == Cancelled || old(state) == Finished then old(state) else Suspended
      ensures didSuspend == (state != old(state)) && suspendTask == (didSuspend && task)
    {
      if !state.CanTransitionTo(Suspended) { return false, false; }
      state := Suspended;
      return true, task;
    }

    /** resume */
    method Resume(task: bool) returns (didResume: bool, resumeTask: bool)
      modifies this
      ensures Now() == AfterTransition(old(Now()), Resumed) == old(Now()).(state := state)
      ensures state == if old(state) == Cancelled || old(state) == Finished then old(state) else Resumed
      ensures didResume == (state != old(state)) && resumeTask == (didResume && task)
    {
      if !state.CanTransitionTo(Resumed) { return false, false; }
      state := Resumed;
      return true, task;
    }

    /** Whether the serializers are to be processed. */
    method Finish() returns (process: bool)
      modifies this
      ensures Now() == old(Now()).(isFinishing := true) && process == !old(isFinishing)
    {
      if isFinishing { return false; }
      isFinishing := true;
      return true;
    }

    /** Whether to dispatch processNextResponseSerializer, and whether resume. */
    method AppendResponseSerializer(closure: Id) returns (process: bool, resume: bool)
      modifies this
      ensures Now() == AfterAppend(old(Now()), closure)
      ensures state == if old(state) == Finished then Resumed else old(state)
      ensures responseSerializers == old(responseSerializers) + [closure]
      ensures process == responseSerializerProcessingFinished && resume == (state == Initialized || state == Suspended)
    {
      responseSerializers := responseSerializers + [closure];
      if state == Finished { state := Resumed; }
      return responseSerializerProcessingFinished, state.CanTransitionTo(Resumed);
    }

    method NextResponseSerializer() returns (next: Option<Id>)
      ensures next == NextSerializer(Now())
    {
      var index := |responseSerializerCompletions|;
      if index < |responseSerializers| { return Some(responseSerializers[index]); }
      return None;
    }

    method ClearResponseSerializers() returns (completions: seq<Id>)
      modifies this
      ensures Now() == AfterClear(old(Now())) && completions == old(responseSerializerCompletions)
      ensures state == if old(state) == Cancelled then Cancelled else Finished
      ensures responseSerializers == responseSerializerCompletions == []
      ensures responseSerializerProcessingFinished && !isFinishing
    {
      completions := responseSerializerCompletions;
      responseSerializers := [];
      responseSerializerCompletions := [];
      if state.CanTransitionTo(Finished) { state := Finished; }
      responseSerializerProcessingFinished := true;
      isFinishing := false;
    }

    method AppendCompletion(completion: Id)
      modifies this
      ensures Now() == old(Now()).(completions := old(responseSerializerCompletions) + [completion])
    {
      responseSerializerCompletions := responseSerializerCompletions + [completion];
    }
  }
}
