/** The runner hook: materialises a run into the playback store, starts, pauses and stops
    playback, and what one timer tick does. The timer itself is left out: a tick is a call. */
module Runner {
  import opened Common
  import opened GraphTypes
  import opened AlgorithmTypes
  import opened Registry
  import opened Playback

  /** Drains the runner's generator into a list, in emission order, and installs it: an empty
      run leaves the store reset and idle; otherwise the cursor is on the first step and
      playback is paused. */
  method RunAlgorithm(store: AlgorithmStore, alg: AlgorithmRunner, g: Graph, params: AlgorithmParams,
                      sqrt: real -> real)
    modifies store
    ensures Produced(alg, g, params, sqrt, store.steps)
    ensures store.steps == [] <==> NoSteps(alg, g, params)
    ensures store.steps == [] ==> store.currentStepIndex == -1 && store.status == Idle
    ensures store.steps != [] ==> store.currentStepIndex == 0 && store.status == Paused
    ensures store.algorithm == old(store.algorithm) && store.params == old(store.params)
    ensures store.speed == old(store.speed)
    ensures old(store.Valid()) ==> store.Valid()
  {
    store.Reset();
    var allSteps := Drain(alg, g, params, sqrt);
    if |allSteps| == 0 {
      return;
    }
    store.SetSteps(allSteps);
    store.SetStatus(Paused);
  }

  /** Starts playback; from the last step it first rewinds to the first one. Without steps
      nothing happens. */
  method Play(store: AlgorithmStore)
    modifies store
    ensures store.steps == old(store.steps) && store.algorithm == old(store.algorithm)
    ensures store.params == old(store.params) && store.speed == old(store.speed)
    ensures old(store.steps) == [] ==>
              store.currentStepIndex == old(store.currentStepIndex) && store.status == old(store.status)
    ensures old(store.steps) != [] ==> store.status == Running
    ensures old(store.steps) != [] ==>
              store.currentStepIndex
                == (if old(store.currentStepIndex) >= |store.steps| - 1 then 0 else old(store.currentStepIndex))
    ensures old(store.Valid()) ==> store.Valid()
  {
    if |store.steps| == 0 {
      return;
    }
    if store.currentStepIndex >= |store.steps| - 1 {
      store.SetCurrentStep(0);
    }
    store.SetStatus(Running);
  }

  method Pause(store: AlgorithmStore)
    modifies store
    ensures store.status == Paused
    ensures store.steps == old(store.steps) && store.currentStepIndex == old(store.currentStepIndex)
    ensures store.algorithm == old(store.algorithm) && store.params == old(store.params)
    ensures store.speed == old(store.speed)
    ensures old(store.Valid()) ==> store.Valid()
  {
    store.SetStatus(Paused);
  }

  /** `stop` is the store's `reset`. */
  method Stop(store: AlgorithmStore)
    modifies store
    ensures store.steps == [] && store.currentStepIndex == -1 && store.status == Idle
    ensures store.algorithm == old(store.algorithm) && store.params == old(store.params)
    ensures store.speed == old(store.speed)
    ensures old(store.Valid()) ==> store.Valid()
  {
    store.Reset();
  }

  /** One timer tick while running: a step forward; when none is left the status becomes
      `complete` and ticking stops. Returns whether the timer keeps ticking. */
  method Tick(store: AlgorithmStore) returns (ticking: bool)
    modifies store
    ensures (store.currentStepIndex, ticking) == Forward(old(store.currentStepIndex), |store.steps|)
    ensures store.status == (if ticking then old(store.status) else Status.Complete)
    ensures store.steps == old(store.steps) && store.algorithm == old(store.algorithm)
    ensures store.params == old(store.params) && store.speed == old(store.speed)
    ensures old(store.Valid()) ==> store.Valid()
  {
    ticking := store.StepForward();
    if !ticking {
      store.SetStatus(Status.Complete);
    }
  }

  /** The hook's derived flags. */
  datatype Flags = Flags(isRunning: bool, isPaused: bool, isComplete: bool, isIdle: bool, hasSteps: bool)

  function FlagsOf(status: Status, steps: seq<Step>): (f: Flags)
    ensures f.hasSteps <==> |steps| > 0
    ensures f.isRunning <==> status == Running
    ensures f.isPaused <==> status == Paused
    ensures f.isComplete <==> status == Status.Complete
    ensures f.isIdle <==> status == Idle
  {
    Flags(status == Running, status == Paused, status == Status.Complete, status == Idle, |steps| > 0)
  }

  /** Exactly one of the four status flags is set. */
  lemma OneStatusFlag(status: Status, steps: seq<Step>)
    ensures var f := FlagsOf(status, steps);
            (if f.isRunning then 1 else 0) + (if f.isPaused then 1 else 0)
              + (if f.isComplete then 1 else 0) + (if f.isIdle then 1 else 0) == 1
  {
  }
}
