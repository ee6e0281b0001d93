/**
 The frame upload protocol: a KMS commit thread, the upload worker, the DMA
 completion worker, the upload timeout and the engine's callback, all acting on
 the flags under `dma_state_lock` and serialised by `dma_lock` only in part.

 One step of the model is one critical section, one blocking wait that is over,
 or one call into the engine; any actor whose next step is possible may take it.
 KMS callbacks are serialised, and setting the completion flags together with
 scheduling the completion worker is one step.
 */
module FrameUpload {

  // ------------------------------------------------------------------ state

  datatype StopPc =
    | Cancel                 // about to cancel the upload work
    | AwaitWorker            // its running instance must end
    | AwaitIdle              // waiting for the DMA to go idle, or for the timeout
    | FlushLate(target: nat) // timed out: flushing the completion worker
    | DropTimer
    | AwaitTimer
    | FlushLast(target: nat)
    | Clear                  // about to drop the snapshots

  datatype Kms = Ready | Flushed | Stopping(forEnable: bool, pc: StopPc) | Programming

  datatype Up =
    | UpIdle
    | UpStart                // running, snapshots not read yet
    | UpHave(v: nat)         // holds snapshot v
    | UpLocked(v: nat)       // and dma_lock; not yet decided whether the DMA is busy
    | UpCompose(v: nat)
    | UpArm
    | UpCalling(len: nat)    // flags set, inside the engine's submit
    | UpAccepted
    | UpRejected

  datatype XferState = Submitted | Completed | Failed

  datatype Xfer = NoXfer | Xfer(state: XferState, len: nat)

  datatype Cw =
    | CwIdle
    | CwStart
    | CwLocked
    | CwPending(late: bool)                                // saw a completion to settle
    | CwSettled(late: bool, state: XferState, done: nat)   // request settled and released
    | CwTail(again: bool)                                  // flags cleared, about to reschedule and unlock

  datatype State = State(
    uploads: bool,           // the upload_enabled parameter
    frameBytes: nat,         // frame size of the active mode
    pipe: bool,
    primaryOn: bool,         // an enabled primary snapshot is held
    version: nat,            // number of the newest flushed snapshot
    kms: Kms,
    upQueued: bool,
    up: Up,
    taken: nat,              // newest snapshot that reached a composition attempt
    cwGen: nat,              // instances of the completion worker ever queued
    cwDone: nat,             // and finished
    cwQueued: bool,
    cw: Cw,
    armed: bool,             // timeout pending
    timerRunning: bool,      // timeout expired, handler not run yet
    inflight: bool,
    pending: bool,           // dma_completion_pending
    late: bool,              // dma_completion_err is -ETIMEDOUT
    again: bool,             // upload_pending
    xfer: Xfer,              // the request the engine holds for us
    callbacks: nat,          // engine callbacks still to be made
    accepted: nat,           // submissions the engine accepted
    uploaded: nat,
    failed: nat)

  function Initial(uploads: bool, frameBytes: nat): State {
    State(uploads, frameBytes, false, false, 0, Ready, false, UpIdle, 0, 0, 0, false, CwIdle,
          false, false, false, false, false, false, NoXfer, 0, 0, 0, 0)
  }

  // ------------------------------------------------------------------ steps

  datatype Primary = Keep | Off | On

  datatype Step =
    | Flush(primary: Primary)
    | FlushSchedule
    | Disable
    | Enable
    | StopNext
    | StopTimeout
    | Program(ok: bool, frameBytes: nat)
    | UpBegin | UpSnapshot | UpLock | UpCheckBusy | UpComposed(ok: bool) | UpSetFlags | UpEngine(ok: bool)
    | UpArmTimer | UpUndo
    | CwBegin | CwLock | CwRead | CwSettle | CwFinish | CwEnd
    | TimerExpire | TimerRun
    | EngineDone(ok: bool) | EngineCallback

  predicate UpHoldsLock(up: Up) {
    up.UpLocked? || up.UpCompose? || up.UpArm? || up.UpCalling? || up.UpAccepted? || up.UpRejected?
  }

  predicate CwHoldsLock(cw: Cw) {
    cw.CwLocked? || cw.CwPending? || cw.CwSettled? || cw.CwTail?
  }

  predicate LockFree(s: State) { !UpHoldsLock(s.up) && !CwHoldsLock(s.cw) }

  predicate Enabled(s: State, step: Step) {
    match step
    case Flush(_) => s.kms.Ready?
    case FlushSchedule => s.kms.Flushed?
    case Disable => s.kms.Ready?
    case Enable => s.kms.Ready?
    case StopNext =>
      s.kms.Stopping? && (
        match s.kms.pc
        case AwaitWorker => s.up.UpIdle?
        case AwaitIdle => !s.inflight && !s.pending
        case FlushLate(target) => s.cwDone >= target
        case AwaitTimer => !s.timerRunning
        case FlushLast(target) => s.cwDone >= target
        case _ => true)
    case StopTimeout => s.kms.Stopping? && s.kms.pc.AwaitIdle?
    case Program(_, bytes) => s.kms.Programming? && bytes > 0
    case UpBegin => s.upQueued && s.up.UpIdle?
    case UpSnapshot => s.up.UpStart?
    case UpLock => s.up.UpHave? && LockFree(s)
    case UpCheckBusy => s.up.UpLocked?
    case UpComposed(_) => s.up.UpCompose?
    case UpSetFlags => s.up.UpArm?
    case UpEngine(ok) => s.up.UpCalling? && (ok ==> s.xfer.NoXfer?)
    case UpArmTimer => s.up.UpAccepted?
    case UpUndo => s.up.UpRejected?
    case CwBegin => s.cwQueued && s.cw.CwIdle?
    case CwLock => s.cw.CwStart? && LockFree(s)
    case CwRead => s.cw.CwLocked?
    case CwSettle => s.cw.CwPending?
    case CwFinish => s.cw.CwSettled?
    case CwEnd => s.cw.CwTail?
    case TimerExpire => s.armed
    case TimerRun => s.timerRunning
    case EngineDone(_) => s.xfer.Xfer? && s.xfer.state.Submitted?
    case EngineCallback => s.callbacks > 0
  }

  /** `fpga_drm_queue_dma_completion`. */
  function QueueCompletion(s: State, late: bool): State {
    if s.inflight && !s.pending then ScheduleCompletion(s.(pending := true, late := late)) else s
  }

  /** `schedule_work` on the completion worker: one queued instance at most. */
  function ScheduleCompletion(s: State): State {
    if s.cwQueued then s else s.(cwQueued := true, cwGen := s.cwGen + 1)
  }

  /** `fpga_drm_stop_uploads`, one wait or action at a time. It never touches the DMA flags itself. */
  function StopStep(s: State, forEnable: bool, pc: StopPc): (t: State)
    ensures t == s.(upQueued := t.upQueued, armed := t.armed, primaryOn := t.primaryOn, kms := t.kms)
    ensures t.primaryOn ==> s.primaryOn
  {
    match pc
    case Cancel => s.(upQueued := false, kms := Stopping(forEnable, AwaitWorker))
    case AwaitWorker => s.(kms := Stopping(forEnable, AwaitIdle))
    case AwaitIdle => s.(kms := Stopping(forEnable, DropTimer))
    case FlushLate(_) => s.(kms := Stopping(forEnable, DropTimer))
    case DropTimer => s.(armed := false, kms := Stopping(forEnable, AwaitTimer))
    case AwaitTimer => s.(kms := Stopping(forEnable, FlushLast(s.cwGen)))
    case FlushLast(_) => s.(kms := Stopping(forEnable, Clear))
    case Clear => s.(primaryOn := false, kms := if forEnable then Programming else Ready)
  }

  /** `fpga_drm_dma_finish`: the frame is counted, its flags cleared, a deferred upload remembered. */
  function FinishFrame(s: State, late: bool, done: nat): State {
    var ok := !late && done == s.frameBytes;
    s.(inflight := false, pending := false, late := false, again := false,
       cw := CwTail(s.again),
       uploaded := if ok then s.uploaded + 1 else s.uploaded,
       failed := if ok then s.failed else s.failed + 1)
  }

  function Apply(s: State, step: Step): State
    requires Enabled(s, step)
  {
    match step
    case Flush(p) =>
      s.(version := s.version + 1, primaryOn := p.On? || (p.Keep? && s.primaryOn), kms := Flushed)
    case FlushSchedule => s.(upQueued := true, kms := Ready)
    case Disable => s.(pipe := false, kms := Stopping(false, Cancel))
    case Enable => s.(kms := Stopping(true, Cancel))
    case StopNext => StopStep(s, s.kms.forEnable, s.kms.pc)
    case StopTimeout =>
      var t := QueueCompletion(s, true);
      t.(kms := Stopping(s.kms.forEnable, FlushLate(t.cwGen)))
    case Program(ok, bytes) =>
      s.(frameBytes := if ok then bytes else s.frameBytes, pipe := s.pipe || ok, kms := Ready)
    case UpBegin => s.(upQueued := false, up := UpStart)
    case UpSnapshot => s.(up := if s.pipe && s.primaryOn && s.uploads then UpHave(s.version) else UpIdle)
    case UpLock => s.(up := UpLocked(s.up.v))
    case UpCheckBusy =>
      if s.inflight || s.pending then s.(again := true, up := UpIdle)
      else s.(up := UpCompose(s.up.v), taken := s.up.v)
    case UpComposed(ok) => s.(up := if ok then UpArm else UpIdle)
    case UpSetFlags =>
      s.(inflight := true, pending := false, late := false, again := false, up := UpCalling(s.frameBytes))
    case UpEngine(ok) =>
      s.(up := if ok then UpAccepted else UpRejected,
         xfer := if ok then Xfer(Submitted, s.up.len) else s.xfer,
         accepted := s.accepted + (if ok then 1 else 0))
    case UpArmTimer => s.(armed := true, up := UpIdle)
    case UpUndo => s.(inflight := false, pending := false, late := false, up := UpIdle)
    case CwBegin => s.(cwQueued := false, cw := CwStart)
    case CwLock => s.(cw := CwLocked)
    case CwRead =>
      if s.pending then s.(cw := CwPending(s.late)) else s.(cw := CwIdle, cwDone := s.cwDone + 1)
    case CwSettle =>
      // cancel the timeout without waiting for its handler, then settle the engine's request, if any
      match s.xfer {
        case NoXfer => s.(armed := false, cw := CwSettled(s.cw.late, Failed, 0))
        case Xfer(state, len) =>
          s.(armed := false, xfer := NoXfer, cw := CwSettled(s.cw.late, state, if state.Completed? then len else 0))
      }
    case CwFinish => FinishFrame(s, s.cw.late, s.cw.done)
    case CwEnd => s.(upQueued := s.upQueued || s.cw.again, cw := CwIdle, cwDone := s.cwDone + 1)
    case TimerExpire => s.(armed := false, timerRunning := true)
    case TimerRun => QueueCompletion(s, true).(timerRunning := false)
    case EngineDone(ok) =>
      s.(xfer := Xfer(if ok then Completed else Failed, s.xfer.len), callbacks := s.callbacks + 1)
    case EngineCallback => QueueCompletion(s, false).(callbacks := s.callbacks - 1)
  }

  /** Every step of the run is possible when it is taken. */
  predicate Runs(s: State, steps: seq<Step>)
    decreases |steps|
  {
    steps == [] || (Enabled(s, steps[0]) && Runs(Apply(s, steps[0]), steps[1..]))
  }

  function Final(s: State, steps: seq<Step>): State
    requires Runs(s, steps)
    decreases |steps|
  {
    if steps == [] then s else Final(Apply(s, steps[0]), steps[1..])
  }

  // ------------------------------------------------------------- invariants

  predicate Carrying(up: Up) { !up.UpIdle? && !up.UpStart? }

  /** Which actor answers for the flags, and how they go together. */
  ghost predicate FlagsAgree(s: State) {
    && s.frameBytes > 0
    && !(UpHoldsLock(s.up) && CwHoldsLock(s.cw))
    && (s.pending ==> s.inflight)
    && (s.again ==> s.inflight)
    && (s.inflight <==> s.up.UpCalling? || s.up.UpRejected? || s.xfer.Xfer? || s.cw.CwSettled?)
    && (s.up.UpCompose? || s.up.UpArm? || s.cw.CwTail? ==> !s.inflight)
    && (s.up.UpCalling? || s.up.UpRejected? ==> s.xfer.NoXfer? && !s.again)
    && (s.up.UpAccepted? ==> s.xfer.Xfer?)
    && (s.cw.CwPending? ==> s.pending && s.xfer.Xfer?)
    && (s.cw.CwSettled? ==> s.pending && s.xfer.NoXfer?)
  }

  /** The completion worker's queue, and its duty towards a pending completion. */
  ghost predicate WorkerCounts(s: State) {
    && s.cwGen == s.cwDone + (if s.cwQueued then 1 else 0) + (if s.cw.CwIdle? then 0 else 1)
    && (s.pending ==> s.cwQueued || s.cw.CwStart? || s.cw.CwLocked? || s.cw.CwPending? || s.cw.CwSettled?)
  }

  /** Accepted frames are the finished ones and the one in flight, if any. */
  ghost predicate Accounted(s: State) {
    s.accepted == s.uploaded + s.failed + (if s.xfer.Xfer? || s.cw.CwSettled? then 1 else 0)
  }

  /** A settled request reports a length only if the engine completed it. */
  ghost predicate HonestCount(s: State) {
    s.cw.CwSettled? && !s.cw.state.Completed? ==> s.cw.done == 0
  }

  /**
   The worker judges by the flag as it stands, the timeout is set only for a
   frame the engine holds, and a frame the engine is done with is pending or has
   its callback still to come.
   */
  ghost predicate Watched(s: State) {
    && (s.cw.CwPending? || s.cw.CwSettled? ==> s.cw.late == s.late)
    && (s.armed ==> s.xfer.Xfer?)
    && (s.xfer.Xfer? && !s.xfer.state.Submitted? ==> s.pending || s.callbacks > 0)
  }

  /** Snapshots are taken in the order they were flushed. */
  ghost predicate InOrder(s: State) {
    && s.taken <= s.version
    && (s.up.UpHave? || s.up.UpLocked? || s.up.UpCompose? ==> s.taken <= s.up.v <= s.version)
  }

  /** The commit thread is enabling the pipe anew and has cancelled whatever upload was queued. */
  predicate Cancelled(s: State) { s.kms.Stopping? && s.kms.forEnable && !s.kms.pc.Cancel? }

  /** The newest snapshot is taken, or somebody is still going to look at it, or it has been cancelled. */
  ghost predicate NothingLost(s: State) {
    s.pipe && s.primaryOn && s.uploads ==>
      || s.taken == s.version
      || s.kms.Flushed?
      || Cancelled(s)
      || s.upQueued
      || s.up.UpStart?
      || ((s.up.UpHave? || s.up.UpLocked?) && s.up.v == s.version)
      || (s.again && s.inflight)
      || (s.cw.CwTail? && s.cw.again)
  }

  /** How far stopping the uploads with the pipe off has got. */
  ghost predicate StopProgress(s: State) {
    && (s.kms.Programming? ==> !s.primaryOn)
    && (s.kms.Stopping? && !s.kms.forEnable ==>
         && !s.pipe
         && (s.kms.pc.AwaitIdle? ==> !Carrying(s.up))
         && (s.kms.pc.FlushLate? ==> !Carrying(s.up) && (s.inflight ==> s.pending && s.cwDone < s.kms.pc.target))
         && (s.kms.pc.DropTimer? || s.kms.pc.AwaitTimer? || s.kms.pc.FlushLast? || s.kms.pc.Clear? ==>
              !Carrying(s.up) && !s.inflight))
  }

  ghost predicate Inv(s: State) {
    && FlagsAgree(s) && WorkerCounts(s) && Accounted(s) && HonestCount(s) && Watched(s)
    && InOrder(s) && NothingLost(s) && StopProgress(s)
  }

  lemma InitialInv(uploads: bool, frameBytes: nat)
    requires frameBytes > 0
    ensures Inv(Initial(uploads, frameBytes))
  {
  }

  lemma CommitKeeps(s: State, step: Step)
    requires step.Flush? || step.FlushSchedule? || step.Disable? || step.Enable?
    requires Inv(s) && Enabled(s, step)
    ensures Inv(Apply(s, step))
  {
  }

  lemma ProgramKeeps(s: State, step: Step)
    requires step.Program?
    requires Inv(s) && Enabled(s, step)
    ensures Inv(Apply(s, step))
  {
  }

  lemma StopBeginKeeps(s: State, step: Step)
    requires s.kms.Stopping? && step.StopNext?
    requires s.kms.pc.Cancel? || s.kms.pc.AwaitWorker? || s.kms.pc.AwaitIdle? || s.kms.pc.FlushLate?
    requires Inv(s) && Enabled(s, step)
    ensures Inv(Apply(s, step))
  {
  }

  lemma StopEndKeeps(s: State, step: Step)
    requires s.kms.Stopping? && step.StopNext?
    requires s.kms.pc.DropTimer? || s.kms.pc.AwaitTimer? || s.kms.pc.FlushLast? || s.kms.pc.Clear?
    requires Inv(s) && Enabled(s, step)
    ensures Inv(Apply(s, step))
  {
  }

  lemma StopTimeoutKeeps(s: State, step: Step)
    requires step.StopTimeout?
    requires Inv(s) && Enabled(s, step)
    ensures Inv(Apply(s, step))
  {
  }

  lemma UploadStartsKeeps(s: State, step: Step)
    requires step.UpBegin? || step.UpSnapshot?
    requires Inv(s) && Enabled(s, step)
    ensures Inv(Apply(s, step))
  {
  }

  lemma UploadTakesKeeps(s: State, step: Step)
    requires step.UpLock? || step.UpCheckBusy?
    requires Inv(s) && Enabled(s, step)
    ensures Inv(Apply(s, step))
  {
  }

  lemma UploadComposesKeeps(s: State, step: Step)
    requires step.UpComposed? || step.UpSetFlags?
    requires Inv(s) && Enabled(s, step)
    ensures Inv(Apply(s, step))
  {
  }

  lemma UploadSubmitsKeeps(s: State, step: Step)
    requires step.UpEngine?
    requires Inv(s) && Enabled(s, step)
    ensures Inv(Apply(s, step))
  {
  }

  lemma UploadReturnsKeeps(s: State, step: Step)
    requires step.UpArmTimer? || step.UpUndo?
    requires Inv(s) && Enabled(s, step)
    ensures Inv(Apply(s, step))
  {
  }

  lemma CompletionStartsKeeps(s: State, step: Step)
    requires step.CwBegin? || step.CwLock?
    requires Inv(s) && Enabled(s, step)
    ensures Inv(Apply(s, step))
  {
  }

  lemma CompletionReadsKeeps(s: State, step: Step)
    requires step.CwRead?
    requires Inv(s) && Enabled(s, step)
    ensures Inv(Apply(s, step))
  {
  }

  lemma CompletionSettlesKeeps(s: State, step: Step)
    requires step.CwSettle?
    requires Inv(s) && Enabled(s, step)
    ensures Inv(Apply(s, step))
  {
  }

  lemma CompletionFinishesKeeps(s: State, step: Step)
    requires step.CwFinish? || step.CwEnd?
    requires Inv(s) && Enabled(s, step)
    ensures Inv(Apply(s, step))
  {
  }

  lemma TimeoutKeeps(s: State, step: Step)
    requires step.TimerRun?
    requires Inv(s) && Enabled(s, step)
    ensures Inv(Apply(s, step))
  {
  }

  lemma CallbackKeeps(s: State, step: Step)
    requires step.EngineCallback?
    requires Inv(s) && Enabled(s, step)
    ensures Inv(Apply(s, step))
  {
  }

  lemma OutsideKeeps(s: State, step: Step)
    requires step.TimerExpire? || step.EngineDone?
    requires Inv(s) && Enabled(s, step)
    ensures Inv(Apply(s, step))
  {
  }

  lemma StepKeepsInv(s: State, step: Step)
    requires Inv(s) && Enabled(s, step)
    ensures Inv(Apply(s, step))
  {
    match step
    case Flush(_) => CommitKeeps(s, step);
    case FlushSchedule => CommitKeeps(s, step);
    case Disable => CommitKeeps(s, step);
    case Enable => CommitKeeps(s, step);
    case StopNext =>
      if s.kms.pc.Cancel? || s.kms.pc.AwaitWorker? || s.kms.pc.AwaitIdle? || s.kms.pc.FlushLate? {
        StopBeginKeeps(s, step);
      } else {
        StopEndKeeps(s, step);
      }
    case StopTimeout => StopTimeoutKeeps(s, step);
    case Program(_, _) => ProgramKeeps(s, step);
    case UpBegin => UploadStartsKeeps(s, step);
    case UpSnapshot => UploadStartsKeeps(s, step);
    case UpLock => UploadTakesKeeps(s, step);
    case UpCheckBusy => UploadTakesKeeps(s, step);
    case UpComposed(_) => UploadComposesKeeps(s, step);
    case UpSetFlags => UploadComposesKeeps(s, step);
    case UpEngine(_) => UploadSubmitsKeeps(s, step);
    case UpArmTimer => UploadReturnsKeeps(s, step);
    case UpUndo => UploadReturnsKeeps(s, step);
    case CwBegin => CompletionStartsKeeps(s, step);
    case CwLock => CompletionStartsKeeps(s, step);
    case CwRead => CompletionReadsKeeps(s, step);
    case CwSettle => CompletionSettlesKeeps(s, step);
    case CwFinish => CompletionFinishesKeeps(s, step);
    case CwEnd => CompletionFinishesKeeps(s, step);
    case TimerExpire => OutsideKeeps(s, step);
    case TimerRun => TimeoutKeeps(s, step);
    case EngineDone(_) => OutsideKeeps(s, step);
    case EngineCallback => CallbackKeeps(s, step);
  }

  lemma {:induction false} RunKeepsInv(s: State, steps: seq<Step>)
    requires Inv(s) && Runs(s, steps)
    ensures Inv(Final(s, steps))
    decreases |steps|
  {
    if steps != [] {
      StepKeepsInv(s, steps[0]);
      RunKeepsInv(Apply(s, steps[0]), steps[1..]);
    }
  }

  ghost predicate Reachable(s: State) {
    exists uploads, bytes, steps ::
      bytes > 0 && Runs(Initial(uploads, bytes), steps) && s == Final(Initial(uploads, bytes), steps)
  }

  lemma ReachableInv(s: State)
    requires Reachable(s)
    ensures Inv(s)
  {
    var uploads, bytes, steps :|
      bytes > 0 && Runs(Initial(uploads, bytes), steps) && s == Final(Initial(uploads, bytes), steps);
    InitialInv(uploads, bytes);
    RunKeepsInv(Initial(uploads, bytes), steps);
  }

  // --------------------------------------------------------------- theorems

  /** A frame somewhere between the engine's acceptance and its accounting. */
  function InFlight(s: State): nat { if s.xfer.Xfer? || s.cw.CwSettled? then 1 else 0 }

  /**
   Single flight, in every reachable state: a pending completion or a deferred
   upload only ever accompany a frame in flight, the engine accepts a request
   only when it holds none, and every accepted frame is finished exactly once.
   */
  lemma SingleFlight(s: State)
    requires Reachable(s)
    ensures s.pending ==> s.inflight
    ensures s.again ==> s.inflight
    ensures InFlight(s) == 1 ==> s.inflight
    ensures s.accepted == s.uploaded + s.failed + InFlight(s)
    ensures s.up.UpCalling? ==> s.xfer.NoXfer? && Enabled(s, UpEngine(true))
  {
    ReachableInv(s);
  }

  /**
   No lost update: with the pipe on, uploads enabled and a primary plane held,
   either the newest flushed snapshot has been taken for a composition, or a
   definite actor is still due to look at it. The one exception is a pipe that
   is being enabled anew while it is on, once its queued upload is cancelled.
   */
  lemma NoLostUpdate(s: State)
    requires Reachable(s) && s.pipe && s.primaryOn && s.uploads
    ensures || s.taken == s.version
            || s.kms.Flushed?
            || Cancelled(s)
            || s.upQueued
            || s.up.UpStart?
            || ((s.up.UpHave? || s.up.UpLocked?) && s.up.v == s.version)
            || (s.again && s.inflight)
            || (s.cw.CwTail? && s.cw.again)
  {
    ReachableInv(s);
  }

  lemma {:induction false} FinalMore(s: State, steps: seq<Step>, step: Step)
    requires Runs(s, steps) && Enabled(Final(s, steps), step)
    ensures Runs(s, steps + [step]) && Final(s, steps + [step]) == Apply(Final(s, steps), step)
    decreases |steps|
  {
    if steps == [] {
      assert [] + [step] == [step] && [step][1..] == [];
      assert Runs(Apply(s, step), []) && Final(Apply(s, step), []) == Apply(s, step);
    } else {
      FinalMore(Apply(s, steps[0]), steps[1..], step);
      assert (steps + [step])[0] == steps[0] && (steps + [step])[1..] == steps[1..] + [step];
    }
  }

  lemma ReachableStep(s: State, step: Step) returns (t: State)
    requires Reachable(s) && Enabled(s, step)
    ensures t == Apply(s, step) && Reachable(t)
  {
    var uploads, bytes, steps :|
      bytes > 0 && Runs(Initial(uploads, bytes), steps) && s == Final(Initial(uploads, bytes), steps);
    FinalMore(Initial(uploads, bytes), steps, step);
    t := Apply(s, step);
    assert t == Final(Initial(uploads, bytes), steps + [step]);
  }

  /** Nothing but the commit thread is about, and it is stopping the uploads. */
  predicate Alone(s: State, pc: StopPc) {
    s.kms == Stopping(true, pc) && s.up.UpIdle? && !s.inflight && !s.pending && !s.timerRunning && s.cwDone == s.cwGen
  }

  lemma QuietStopBegins(s: State) returns (t: State)
    requires Reachable(s) && Alone(s, Cancel)
    ensures Reachable(t) && t == s.(upQueued := false, kms := Stopping(true, DropTimer))
  {
    t := ReachableStep(s, StopNext);
    t := ReachableStep(t, StopNext);
    t := ReachableStep(t, StopNext);
  }

  lemma QuietStopDrops(s: State) returns (t: State)
    requires Reachable(s) && Alone(s, DropTimer)
    ensures Reachable(t) && t == s.(armed := false, kms := Stopping(true, FlushLast(s.cwGen)))
  {
    t := ReachableStep(s, StopNext);
    t := ReachableStep(t, StopNext);
  }

  lemma QuietStopEnds(s: State) returns (t: State)
    requires Reachable(s) && Alone(s, FlushLast(s.cwGen))
    ensures Reachable(t) && t == s.(primaryOn := false, kms := Programming)
  {
    t := ReachableStep(s, StopNext);
    t := ReachableStep(t, StopNext);
  }

  /**
   The exception is real: enable, program, flush, and enable again before the
   upload worker has run. The queued upload is cancelled, every other actor has
   nothing to do, and the newest snapshot has not been taken.
   */
  lemma SnapshotCancelled() returns (s: State)
    ensures Reachable(s) && s.pipe && s.primaryOn && s.uploads && s.taken < s.version && Cancelled(s)
    ensures AtRest(s.(kms := Ready)) && !s.again && !s.inflight
  {
    s := Initial(true, 1);
    assert Runs(s, []) && Final(s, []) == s;
    s := ReachableStep(s, Enable);
    s := QuietStopBegins(s);
    s := QuietStopDrops(s);
    s := QuietStopEnds(s);
    s := ReachableStep(s, Program(true, 1));
    s := ReachableStep(s, Flush(On));
    s := ReachableStep(s, FlushSchedule);
    s := ReachableStep(s, Enable);
    s := ReachableStep(s, StopNext);
  }

  /** No actor has anything left to do, other than the commit thread's next callback. */
  ghost predicate AtRest(s: State) {
    s.kms.Ready? && !s.upQueued && s.up.UpIdle? && !s.cwQueued && s.cw.CwIdle?
    && !s.armed && !s.timerRunning && s.xfer.NoXfer? && s.callbacks == 0
  }

  /** So when everything has come to rest, the newest snapshot has been composed. */
  lemma RestMeansUpToDate(s: State)
    requires Reachable(s) && AtRest(s) && s.pipe && s.primaryOn && s.uploads
    ensures s.taken == s.version && !s.inflight
  {
    ReachableInv(s);
  }

  /** The worker is about to account for a frame that deserves to count as uploaded. */
  predicate Deserves(s: State) {
    s.cw.CwSettled? && s.cw.state.Completed? && !s.cw.late && s.cw.done == s.frameBytes
  }

  /** What one step may do to the counters, to a decision already taken and to the engine's word. */
  predicate Booked(s: State, step: Step, t: State) {
    && t.uploaded == s.uploaded + (if step.CwFinish? && Deserves(s) then 1 else 0)
    && t.failed == s.failed + (if step.CwFinish? && !Deserves(s) then 1 else 0)
    && (s.pending && !step.CwFinish? && !step.UpUndo? ==> t.pending && t.inflight && t.late == s.late)
    && (s.cw.CwSettled? && !step.CwFinish? ==> t.cw == s.cw)
    && (s.xfer.Xfer? && !step.CwSettle? ==>
          var state := if step.EngineDone? then (if step.ok then Completed else Failed) else s.xfer.state;
          t.xfer == Xfer(state, s.xfer.len))
  }

  lemma CommitBooks(s: State, step: Step)
    requires step.Flush? || step.FlushSchedule? || step.Disable? || step.Enable? || step.Program?
    requires FlagsAgree(s) && Enabled(s, step)
    ensures Booked(s, step, Apply(s, step))
  {
  }

  lemma StopBooks(s: State, step: Step)
    requires step.StopNext?
    requires FlagsAgree(s) && Enabled(s, step)
    ensures Booked(s, step, Apply(s, step))
  {
  }

  lemma TimeoutBooks(s: State, step: Step)
    requires step.StopTimeout? || step.TimerExpire? || step.TimerRun?
    requires FlagsAgree(s) && Enabled(s, step)
    ensures Booked(s, step, Apply(s, step))
  {
  }

  lemma UploadBooks(s: State, step: Step)
    requires step.UpBegin? || step.UpSnapshot? || step.UpLock? || step.UpCheckBusy? || step.UpComposed?
    requires FlagsAgree(s) && Enabled(s, step)
    ensures Booked(s, step, Apply(s, step))
  {
  }

  lemma SubmitBooks(s: State, step: Step)
    requires step.UpSetFlags? || step.UpEngine? || step.UpArmTimer? || step.UpUndo?
    requires FlagsAgree(s) && Enabled(s, step)
    ensures Booked(s, step, Apply(s, step))
  {
  }

  lemma CompletionBooks(s: State, step: Step)
    requires step.CwBegin? || step.CwLock? || step.CwRead? || step.CwEnd?
    requires FlagsAgree(s) && Enabled(s, step)
    ensures Booked(s, step, Apply(s, step))
  {
  }

  lemma SettleBooks(s: State, step: Step)
    requires step.CwSettle?
    requires FlagsAgree(s) && Enabled(s, step)
    ensures Booked(s, step, Apply(s, step))
  {
  }

  lemma EngineBooks(s: State, step: Step)
    requires step.EngineDone? || step.EngineCallback?
    requires FlagsAgree(s) && Enabled(s, step)
    ensures Booked(s, step, Apply(s, step))
  {
  }

  lemma FinishBooks(s: State)
    requires FlagsAgree(s) && HonestCount(s) && Enabled(s, CwFinish)
    ensures Booked(s, CwFinish, Apply(s, CwFinish))
  {
  }

  lemma StepBooks(s: State, step: Step)
    requires Inv(s) && Enabled(s, step)
    ensures Booked(s, step, Apply(s, step))
  {
    if step.CwFinish? {
      FinishBooks(s);
    } else if step.CwSettle? {
      SettleBooks(s, step);
    } else if step.StopNext? {
      StopBooks(s, step);
    } else if step.StopTimeout? || step.TimerExpire? || step.TimerRun? {
      TimeoutBooks(s, step);
    } else if step.EngineDone? || step.EngineCallback? {
      EngineBooks(s, step);
    } else if step.CwBegin? || step.CwLock? || step.CwRead? || step.CwEnd? {
      CompletionBooks(s, step);
    } else if step.UpSetFlags? || step.UpEngine? || step.UpArmTimer? || step.UpUndo? {
      SubmitBooks(s, step);
    } else if step.UpBegin? || step.UpSnapshot? || step.UpLock? || step.UpCheckBusy? || step.UpComposed? {
      UploadBooks(s, step);
    } else {
      CommitBooks(s, step);
    }
  }

  /**
   Truthful success. The counters move only when a frame's accounting ends, and
   then a success is counted exactly if the engine completed the request, no
   timeout reported it first, and it carried the active mode's frame size.
   */
  lemma TruthfulSuccess(s: State, step: Step)
    requires Reachable(s) && Enabled(s, step)
    ensures var good := s.cw.CwSettled? && s.cw.state.Completed? && !s.cw.late && s.cw.done == s.frameBytes;
            && Apply(s, step).uploaded == s.uploaded + (if step.CwFinish? && good then 1 else 0)
            && Apply(s, step).failed == s.failed + (if step.CwFinish? && !good then 1 else 0)
  {
    ReachableInv(s);
    StepBooks(s, step);
  }

  /** A timeout of either kind, or the engine's callback. */
  predicate Reports(step: Step) { step.TimerRun? || step.StopTimeout? || step.EngineCallback? }

  /** The first report of a frame decides whether it was late. */
  lemma FirstReport(s: State, step: Step)
    requires step.TimerRun? || step.StopTimeout? || step.EngineCallback?
    requires Enabled(s, step) && s.inflight && !s.pending
    ensures Apply(s, step).pending && (Apply(s, step).late <==> !step.EngineCallback?)
    ensures Apply(s, step).uploaded == s.uploaded && Apply(s, step).failed == s.failed
  {
    match step
    case TimerRun =>
    case StopTimeout =>
    case EngineCallback =>
  }

  /** Steps that neither end a frame's accounting nor take back its submission. */
  predicate NoFinish(steps: seq<Step>) {
    forall i :: 0 <= i < |steps| ==> !steps[i].CwFinish? && !steps[i].UpUndo?
  }

  /** Until the frame has been accounted for, no step takes that decision back. */
  lemma {:induction false} DecisionStands(s: State, steps: seq<Step>)
    requires Inv(s) && s.pending && Runs(s, steps) && NoFinish(steps)
    ensures var t := Final(s, steps);
            Inv(t) && t.pending && t.late == s.late && t.uploaded == s.uploaded && t.failed == s.failed
    decreases |steps|
  {
    if steps != [] {
      assert !steps[0].CwFinish? && !steps[0].UpUndo?;
      StepBooks(s, steps[0]);
      StepKeepsInv(s, steps[0]);
      DecisionStands(Apply(s, steps[0]), steps[1..]);
    }
  }

  /**
   From a frame's first report to the end of its accounting, whatever happens
   in between: a frame that timed out counts as a failure, and one the engine
   reported counts as uploaded exactly if the request was settled as completed
   with the frame size.
   */
  lemma {:induction false} ReportDecides(s: State, report: Step, between: seq<Step>)
    requires Reachable(s) && s.inflight && !s.pending && Enabled(s, report)
    requires report.TimerRun? || report.StopTimeout? || report.EngineCallback?
    requires Runs(Apply(s, report), between) && NoFinish(between)
    requires Final(Apply(s, report), between).cw.CwSettled?
    ensures var t := Final(Apply(s, report), between);
            var good := report.EngineCallback? && t.cw.state.Completed? && t.cw.done == t.frameBytes;
            && Apply(t, CwFinish).uploaded == s.uploaded + (if good then 1 else 0)
            && Apply(t, CwFinish).failed == s.failed + (if good then 0 else 1)
  {
    ReachableInv(s);
    FirstReport(s, report);
    StepKeepsInv(s, report);
    DecisionStands(Apply(s, report), between);
    FinishBooks(Final(Apply(s, report), between));
  }

  /** Settling takes over what the engine says of the request. */
  lemma SettleTakes(s: State)
    requires Reachable(s) && Enabled(s, CwSettle)
    ensures s.xfer.Xfer?
    ensures var t := Apply(s, CwSettle);
            && t.xfer.NoXfer? && t.cw.CwSettled? && t.cw.state == s.xfer.state
            && t.cw.done == (if s.xfer.state.Completed? then s.xfer.len else 0)
  {
    ReachableInv(s);
  }

  /** The verdict of the settled request stands until the frame is accounted for. */
  lemma {:induction false} VerdictStands(s: State, steps: seq<Step>)
    requires Inv(s) && s.cw.CwSettled? && Runs(s, steps) && NoFinish(steps)
    ensures Final(s, steps).cw == s.cw
    decreases |steps|
  {
    if steps != [] {
      assert !steps[0].CwFinish? && !steps[0].UpUndo?;
      StepBooks(s, steps[0]);
      StepKeepsInv(s, steps[0]);
      VerdictStands(Apply(s, steps[0]), steps[1..]);
    }
  }

  predicate NoSettle(steps: seq<Step>) { forall i :: 0 <= i < |steps| ==> !steps[i].CwSettle? }

  /** The engine's word on a request it holds, after the steps: that of its `EngineDone`, if there is one. */
  function EngineSays(state: XferState, steps: seq<Step>): XferState
    decreases |steps|
  {
    if steps == [] then state
    else if steps[0].EngineDone? then EngineSays(if steps[0].ok then Completed else Failed, steps[1..])
    else EngineSays(state, steps[1..])
  }

  /** A request keeps the length it was submitted with and what the engine says of it until it is settled. */
  lemma {:induction false} EngineDecides(s: State, steps: seq<Step>)
    requires Inv(s) && s.xfer.Xfer? && Runs(s, steps) && NoSettle(steps)
    ensures Inv(Final(s, steps)) && Final(s, steps).xfer == Xfer(EngineSays(s.xfer.state, steps), s.xfer.len)
    decreases |steps|
  {
    if steps != [] {
      assert !steps[0].CwSettle?;
      StepBooks(s, steps[0]);
      StepKeepsInv(s, steps[0]);
      EngineDecides(Apply(s, steps[0]), steps[1..]);
    }
  }

  /** A mode that is programmed turns the pipe on and sets the size frames are measured by; a failure sets neither. */
  lemma ModeProgrammed(s: State, ok: bool, bytes: nat)
    requires Enabled(s, Program(ok, bytes))
    ensures ok ==> Apply(s, Program(ok, bytes)).pipe && Apply(s, Program(ok, bytes)).frameBytes == bytes
    ensures !ok ==> Apply(s, Program(ok, bytes)) == s.(kms := Ready)
  {
  }

  /** A frame goes to the engine with the size the active mode had when its flags were set. */
  lemma SubmittedSize(s: State)
    requires Enabled(s, UpSetFlags)
    ensures var t := Apply(s, UpSetFlags);
            && t.inflight && !t.pending && t.up == UpCalling(s.frameBytes)
            && (Enabled(t, UpEngine(true)) ==> Apply(t, UpEngine(true)).xfer == Xfer(Submitted, s.frameBytes))
  {
  }

  /** A frame the engine is done with is never forgotten: it is pending, or its callback is still to come. */
  lemma NoLostCompletion(s: State)
    requires Reachable(s) && s.xfer.Xfer? && !s.xfer.state.Submitted?
    ensures s.pending || s.callbacks > 0
    ensures s.pending ==> s.cwQueued || s.cw.CwStart? || s.cw.CwLocked? || s.cw.CwPending?
    ensures !s.pending ==> Apply(s, EngineCallback).pending
  {
    ReachableInv(s);
  }

  /** The timeout is set only while the engine holds a frame, so it never outlives one. */
  lemma TimerForFrame(s: State)
    requires Reachable(s) && s.armed
    ensures s.xfer.Xfer? && s.inflight
  {
    ReachableInv(s);
  }

  // ------------------------------------------------------------- quiescence

  /** Uploads are shut off: the pipe is off, or on again but without a primary snapshot since. */
  ghost predicate Quiet(s: State, programmed: bool) {
    && !s.inflight && !Carrying(s.up)
    && (!s.pipe || (programmed && !s.primaryOn))
  }

  /** Does the run program a mode and later flush a snapshot? `programmed`: the first has happened. */
  predicate Reawakened(steps: seq<Step>, programmed: bool) {
    if steps == [] then false
    else if steps[0].Program? && steps[0].ok then Reawakened(steps[1..], true)
    else (programmed && steps[0].Flush?) || Reawakened(steps[1..], programmed)
  }

  lemma {:induction false} ReawakenedMeans(steps: seq<Step>, programmed: bool)
    ensures Reawakened(steps, programmed) <==>
            exists j :: 0 <= j < |steps| && steps[j].Flush? &&
              (programmed || exists i :: 0 <= i < j && steps[i].Program? && steps[i].ok)
  {
    if steps != [] {
      var enables := steps[0].Program? && steps[0].ok;
      var rest := steps[1..];
      ReawakenedMeans(rest, programmed || enables);
      if Reawakened(steps, programmed) && !(programmed && steps[0].Flush?) {
        var j :| 0 <= j < |rest| && rest[j].Flush? &&
          (programmed || enables || exists i :: 0 <= i < j && rest[i].Program? && rest[i].ok);
        assert steps[j + 1] == rest[j];
        if !programmed && !enables {
          var i :| 0 <= i < j && rest[i].Program? && rest[i].ok;
          assert steps[i + 1] == rest[i];
        }
      }
      if j :| 0 <= j < |steps| && steps[j].Flush? &&
              (programmed || exists i :: 0 <= i < j && steps[i].Program? && steps[i].ok) {
        if j > 0 {
          assert rest[j - 1] == steps[j];
          if !programmed && !enables {
            var i :| 0 <= i < j && steps[i].Program? && steps[i].ok;
            assert rest[i - 1] == steps[i];
          }
        }
      }
    }
  }

  lemma ProgramStaysQuiet(s: State, step: Step, programmed: bool)
    requires step.Program? && Enabled(s, step)
    requires StopProgress(s) && Quiet(s, programmed)
    ensures Quiet(Apply(s, step), programmed || step.ok)
    ensures Apply(s, step).accepted == s.accepted
  {
  }

  lemma StopStaysQuiet(s: State, step: Step, programmed: bool)
    requires step.StopNext? && Enabled(s, step)
    requires Quiet(s, programmed)
    ensures Quiet(Apply(s, step), programmed)
    ensures Apply(s, step).accepted == s.accepted
  {
  }

  lemma CommitStaysQuiet(s: State, step: Step, programmed: bool)
    requires step.Flush? || step.FlushSchedule? || step.Disable? || step.Enable?
    requires !(programmed && step.Flush?) && Enabled(s, step) && FlagsAgree(s) && Quiet(s, programmed)
    ensures Quiet(Apply(s, step), programmed)
    ensures Apply(s, step).accepted == s.accepted
  {
  }

  lemma TimeoutStaysQuiet(s: State, step: Step, programmed: bool)
    requires step.StopTimeout? || step.TimerRun? || step.TimerExpire?
    requires !(programmed && step.Flush?) && Enabled(s, step) && FlagsAgree(s) && Quiet(s, programmed)
    ensures Quiet(Apply(s, step), programmed)
    ensures Apply(s, step).accepted == s.accepted
  {
  }

  lemma UploadStaysQuiet(s: State, step: Step, programmed: bool)
    requires step.UpBegin? || step.UpSnapshot?
    requires !(programmed && step.Flush?) && Enabled(s, step) && FlagsAgree(s) && Quiet(s, programmed)
    ensures Quiet(Apply(s, step), programmed)
    ensures Apply(s, step).accepted == s.accepted
  {
  }

  lemma CompletionStaysQuiet(s: State, step: Step, programmed: bool)
    requires step.CwBegin? || step.CwLock? || step.CwRead? || step.CwEnd?
    requires !(programmed && step.Flush?) && Enabled(s, step) && FlagsAgree(s) && Quiet(s, programmed)
    ensures Quiet(Apply(s, step), programmed)
    ensures Apply(s, step).accepted == s.accepted
  {
  }

  lemma EngineStaysQuiet(s: State, step: Step, programmed: bool)
    requires step.EngineDone? || step.EngineCallback?
    requires !(programmed && step.Flush?) && Enabled(s, step) && FlagsAgree(s) && Quiet(s, programmed)
    ensures Quiet(Apply(s, step), programmed)
    ensures Apply(s, step).accepted == s.accepted
  {
  }

  /** Steps that belong to a frame in hand do not occur while uploads are shut off. */
  lemma NoFrameInHand(s: State, step: Step, programmed: bool)
    requires Enabled(s, step) && FlagsAgree(s) && Quiet(s, programmed)
    ensures !step.UpLock? && !step.UpCheckBusy? && !step.UpComposed? && !step.UpSetFlags? && !step.UpEngine?
    ensures !step.UpArmTimer? && !step.UpUndo? && !step.CwSettle? && !step.CwFinish?
  {
  }

  lemma StepStaysQuiet(s: State, step: Step, programmed: bool)
    requires Inv(s) && Quiet(s, programmed) && Enabled(s, step)
    requires !(programmed && step.Flush?)
    ensures Quiet(Apply(s, step), programmed || (step.Program? && step.ok))
    ensures Apply(s, step).accepted == s.accepted
  {
    NoFrameInHand(s, step, programmed);
    if step.Program? {
      ProgramStaysQuiet(s, step, programmed);
    } else if step.StopNext? {
      StopStaysQuiet(s, step, programmed);
    } else if step.Flush? || step.FlushSchedule? || step.Disable? || step.Enable? {
      CommitStaysQuiet(s, step, programmed);
    } else if step.StopTimeout? || step.TimerRun? || step.TimerExpire? {
      TimeoutStaysQuiet(s, step, programmed);
    } else if step.UpBegin? || step.UpSnapshot? {
      UploadStaysQuiet(s, step, programmed);
    } else if step.EngineDone? || step.EngineCallback? {
      EngineStaysQuiet(s, step, programmed);
    } else {
      CompletionStaysQuiet(s, step, programmed);
    }
  }

  lemma {:induction false} QuietRun(s: State, steps: seq<Step>, programmed: bool)
    requires Inv(s) && Quiet(s, programmed) && Runs(s, steps)
    requires !Reawakened(steps, programmed)
    ensures Final(s, steps).accepted == s.accepted && !Final(s, steps).inflight
    decreases |steps|
  {
    if steps != [] {
      StepStaysQuiet(s, steps[0], programmed);
      StepKeepsInv(s, steps[0]);
      QuietRun(Apply(s, steps[0]), steps[1..], programmed || (steps[0].Program? && steps[0].ok));
    }
  }

  /** The step with which `crtc_atomic_disable` returns. */
  predicate DisableReturns(s: State, step: Step) {
    step.StopNext? && s.kms.Stopping? && !s.kms.forEnable && s.kms.pc.Clear?
  }

  lemma DisableLeavesQuiet(s: State, step: Step)
    requires Inv(s) && Enabled(s, step) && DisableReturns(s, step)
    ensures Quiet(Apply(s, step), false) && Apply(s, step).xfer.NoXfer? && Apply(s, step).accepted == s.accepted
  {
  }

  /**
   Quiescence: when disable returns nothing is in flight, and whatever runs
   afterwards, no frame reaches the engine unless a mode has been programmed
   and a flush has followed it.
   */
  lemma {:induction false} Quiescence(s: State, step: Step, later: seq<Step>)
    requires Reachable(s) && Enabled(s, step) && DisableReturns(s, step)
    requires Runs(Apply(s, step), later)
    ensures !Apply(s, step).inflight && Apply(s, step).xfer.NoXfer?
    ensures Final(Apply(s, step), later).accepted > s.accepted || Final(Apply(s, step), later).inflight ==>
            exists j :: 0 <= j < |later| && later[j].Flush? &&
              exists i :: 0 <= i < j && later[i].Program? && later[i].ok
  {
    ReachableInv(s);
    StepKeepsInv(s, step);
    DisableLeavesQuiet(s, step);
    if Reawakened(later, false) {
      ReawakenedMeans(later, false);
    } else {
      QuietRun(Apply(s, step), later, false);
    }
  }
}
