/** The recorder object, and the hand-over of frames that arrived before the recorder existed. */
module Recording {
  import opened Bytes
  import opened Arrays
  import opened Recorder

  const DEFERRED_CAPACITY := 4 * 1024 * 1024

  /** Sections of the writer thread between two sections of the caller. */
  predicate WriterOnly(actions: seq<Action>) {
    forall i :: 0 <= i < |actions| ==> WriterAction(actions[i])
  }

  datatype Submission = NotActive | Taken(ok: bool)

  datatype StopResult = NotRunning | StillRunning | Stopped(bytesWritten: nat, failure: Option<Fault>)

  lemma {:induction false} WriterRunLocal(s: State, actions: seq<Action>)
    requires WriterOnly(actions)
    ensures var t := Run(s, actions);
            && t.submitted == s.submitted && t.accepted == s.accepted && t.producer == s.producer
            && t.active == s.active && t.capacity == s.capacity && (s.failure.Some? ==> t.failure == s.failure)
    decreases |actions|
  {
    if actions != [] { WriterRunLocal(Step(s, actions[0]), actions[1..]); }
  }

  /**
   * The recorder.  `schedule` says which sections of the writer thread run at each point where the
   * caller lets go of the lock, so a fact about every recorder is a fact about every interleaving.
   */
  class RawSessionRecorder {
    const capacity: nat
    const schedule: nat -> seq<Action>
    var clock: nat
    var isActive: bool
    var queuedBytes: int
    var bytesWritten: nat
    var failure: Option<Fault>
    var queue: seq<Option<seq<byte>>>
    var file: seq<byte>
    var writer: Writer
    var producer: Producer
    ghost var accepted: seq<seq<byte>>
    ghost var submitted: seq<seq<byte>>

    ghost function State(): State
      reads this
    {
      Recorder.State(capacity, isActive, queuedBytes, bytesWritten, failure, queue, file, writer, producer,
                     accepted, submitted)
    }

    constructor (capacity: nat, schedule: nat -> seq<Action>)
      requires capacity > 0
      ensures !isActive && queue == [] && producer == Quiet && this.capacity == capacity
    {
      this.capacity, this.schedule := capacity, schedule;
      clock, isActive, queuedBytes, bytesWritten, failure, queue, file, writer, producer, accepted, submitted :=
        0, false, 0, 0, None, [], [], Closed, Quiet, [], [];
    }

    method Start() returns (started: bool)
      modifies this
      ensures started == !old(isActive) && State() == Step(old(State()), Action.Start)
      ensures started && old(queue) == [] && old(producer).Quiet? ==> State() == Started(capacity)
    {
      if isActive {
        return false;
      }
      queuedBytes, bytesWritten, failure, file, isActive, writer := 0, 0, None, [], true, Waiting;
      accepted, submitted := [], [];
      return true;
    }

    /** One section of the writer thread. */
    method WriterSection(a: Action)
      requires WriterAction(a)
      modifies this
      ensures State() == Step(old(State()), a)
    {
      match a {
        case Take =>
          if writer.Waiting? && queue != [] && isActive {
            var chunk := queue[0];
            queue := queue[1..];
            writer := if chunk.None? then Closing else Holding(chunk.value);
          }
        case Write(ok) =>
          if writer.Holding? {
            if ok {
              file := file + writer.chunk;
              writer := Accounting(writer.chunk);
            } else {
              if failure.None? { failure := Some(WriteFailed); }
              writer := Dead(writer.chunk);
            }
          }
        case Account =>
          if writer.Accounting? {
            queuedBytes := queuedBytes - |writer.chunk|;
            bytesWritten := bytesWritten + |writer.chunk|;
            writer := Waiting;
          }
        case Flush(ok) =>
          if writer.Closing? {
            if !ok && failure.None? { failure := Some(WriteFailed); }
            writer := if ok then Closed else Dead([]);
          }
      }
    }

    /** Let the writer run. */
    method Interleave() returns (ghost actions: seq<Action>)
      modifies this
      ensures WriterOnly(actions) && State() == Run(old(State()), actions)
    {
      hide Step, Run;
      var plan := schedule(clock);
      clock := clock + 1;
      actions := [];
      RunOne(State(), Take, []);
      var i := 0;
      while i < |plan|
        invariant WriterOnly(actions) && State() == Run(old(State()), actions)
      {
        if WriterAction(plan[i]) {
          ghost var s := State();
          WriterSection(plan[i]);
          RunConcat(old(State()), actions, [plan[i]]);
          RunOne(s, plan[i], []);
          RunOne(State(), plan[i], []);
          assert [plan[i]] + [] == [plan[i]];
          actions := actions + [plan[i]];
        }
        i := i + 1;
      }
    }

    /** Put the reserved chunk; the writer may run before and after. */
    method Put() returns (ghost actions: seq<Action>)
      requires producer.Reserved?
      modifies this
      ensures producer.Quiet? && NoStart(actions) && State() == Run(old(State()), actions)
      ensures submitted == old(submitted) && accepted == old(accepted) && isActive == old(isActive)
    {
      hide Step, Run;
      ghost var s1 := State();
      ghost var between := Interleave();
      WriterRunLocal(s1, between);
      ghost var s2 := State();
      EnqueueEffect(s2);
      queue := queue + [Some(producer.chunk)];
      producer := Quiet;
      ghost var s3 := State();
      ghost var after := Interleave();
      WriterRunLocal(s3, after);
      actions := between + ([Enqueue] + after);
      RunConcat(s1, between, [Enqueue] + after);
      RunOne(s2, Enqueue, after);
    }

    /** Queue one chunk without blocking or exceeding the capacity. */
    method Submit(chunk: seq<byte>) returns (r: Submission, ghost actions: seq<Action>)
      requires producer.Quiet?
      modifies this
      ensures producer.Quiet? && isActive == old(isActive) && NoStart(actions) && State() == Run(old(State()), actions)
      ensures r.NotActive? <==> chunk != [] && !isActive
      ensures chunk == [] || r.NotActive? ==> State() == old(State())
      ensures submitted == (if chunk == [] || r.NotActive? then old(submitted) else old(submitted) + [chunk])
      ensures accepted == (if r == Taken(true) && chunk != [] then old(accepted) + [chunk] else old(accepted))
      ensures r == Taken(false) ==> failure.Some?
      ensures chunk != [] && old(failure).Some? ==> r != Taken(true)
    {
      hide Step, Run;
      ghost var s0 := State();
      RunOne(s0, Reserve(chunk), []);
      if chunk == [] {
        return Taken(true), [];
      }
      if !isActive {
        return NotActive, [];
      }
      ReserveEffect(s0, chunk);
      actions := [Reserve(chunk)];
      assert actions == [Reserve(chunk)] + [];
      submitted := submitted + [chunk];
      if failure.Some? {
        RunOne(State(), Enqueue, []);
        return Taken(false), actions;
      }
      if queuedBytes + |chunk| > capacity {
        failure := Some(CapacityExceeded);
        RunOne(State(), Enqueue, []);
        return Taken(false), actions;
      }
      queuedBytes := queuedBytes + |chunk|;
      producer := Reserved(chunk);
      accepted := accepted + [chunk];
      ghost var more := Put();
      RunOne(s0, Reserve(chunk), more);
      return Taken(true), [Reserve(chunk)] + more;
    }

    /** Queue the sentinel, wait for the writer for a bounded time, and finalize. */
    method Stop() returns (r: StopResult, ghost actions: seq<Action>)
      modifies this
      ensures r.NotRunning? <==> !old(isActive)
      ensures r.NotRunning? ==> State() == old(State())
      ensures !r.NotRunning? ==>
                && WriterOnly(actions)
                && var t := Run(Step(old(State()), PutSentinel), actions);
                   State() == if r.Stopped? then Step(t, FinishStop) else t
      ensures r.Stopped? ==>
                !isActive && (writer.Closed? || writer.Dead?) && r.failure == failure && r.bytesWritten == bytesWritten
      ensures r.StillRunning? ==> isActive
      ensures r.Stopped? && writer.Closed? && old(Running(State())) && old(producer).Quiet? ==>
                file == Flatten(accepted) && accepted == old(accepted) && queue == []
    {
      hide Run, Flatten, Inv, Solid;
      actions := [];
      if !isActive {
        return NotRunning, actions;
      }
      queue := queue + [None];
      ghost var s := State();
      actions := Interleave();
      WriterRunLocal(s, actions);
      if old(Running(State())) { StopWritesEverything(old(State()), actions); }
      if writer.Closed? || writer.Dead? {
        isActive := false;
        return Stopped(bytesWritten, failure), actions;
      }
      return StillRunning, actions;
    }
  }

  lemma ReserveEffect(s: State, chunk: seq<byte>)
    requires chunk != [] && s.active && s.producer.Quiet?
    ensures var s1 := s.(submitted := s.submitted + [chunk]);
            Step(s, Reserve(chunk)) ==
              if s.failure.Some? then s1
              else if s.queuedBytes + |chunk| > s.capacity then s1.(failure := Some(CapacityExceeded))
              else s1.(queuedBytes := s.queuedBytes + |chunk|, producer := Reserved(chunk), accepted := s.accepted + [chunk])
  {}

  lemma EnqueueEffect(s: State)
    requires s.producer.Reserved?
    ensures Step(s, Enqueue) == s.(queue := s.queue + [Some(s.producer.chunk)], producer := Quiet)
  {}

  // ---- Deferred hand-over ----

  /** A recorder fresh from its start, with no chunk of an earlier recording left behind. */
  ghost predicate FreshlyStarted(r: RawSessionRecorder)
    reads r
  {
    && r.isActive && r.producer.Quiet? && Inv(r.State()) && r.submitted == [] && r.failure.None?
    && r.capacity == DEFERRED_CAPACITY
  }

  datatype Trouble = RecorderFailed(fault: Fault) | DeferredFull

  /** The recording part of the controller. */
  class RecordingController {
    var recorder: RawSessionRecorder?
    var deferRecording: bool
    var deferred: seq<seq<byte>>
    var deferredBytes: nat
    var lastError: Option<Trouble>
    /** Live frames since deferral began, and whether one of them did not fit. */
    ghost var live: seq<seq<byte>>
    ghost var overflowed: bool
    /** What the attached recorder had accepted before. */
    ghost var prior: seq<seq<byte>>

    ghost predicate Valid()
      reads this, recorder
    {
      && deferredBytes == |Flatten(deferred)| <= DEFERRED_CAPACITY
      && (forall i :: 0 <= i < |deferred| ==> deferred[i] != [])
      && (deferRecording && !overflowed ==> deferred == live) && (!deferRecording ==> deferred == [])
      && (recorder != null ==>
            && !deferRecording
            && recorder.producer.Quiet? && Inv(recorder.State())
            && (!overflowed && recorder.failure.None? ==> recorder.accepted == prior + live))
    }

    constructor ()
      ensures Valid() && recorder == null && !deferRecording
    {
      recorder, deferRecording, deferred, deferredBytes, lastError := null, false, [], 0, None;
      live, overflowed, prior := [], false, [];
    }

    method DeferUntilIdentity()
      requires Valid()
      modifies this
      ensures Valid() && recorder == old(recorder)
      ensures recorder == null ==> deferRecording
      ensures recorder == null && !old(deferRecording) ==> live == [] && !overflowed
    {
      if recorder == null {
        if !deferRecording {
          live, overflowed := [], false;
        }
        deferRecording := true;
      }
    }

    method CancelDeferred()
      requires Valid()
      modifies this
      ensures Valid() && !deferRecording && deferred == [] && recorder == old(recorder)
    {
      deferRecording := false;
      deferred := [];
      deferredBytes := 0;
    }

    /**
     * One live frame: submit it, or keep it for the recorder to come.  A refused submission and a full
     * deferral are reported; a recorder that is not active raises, and nothing changes.
     */
    method HandleLiveFrame(raw: seq<byte>) returns (raised: bool)
      requires Valid() && raw != []
      modifies this, recorder
      ensures Valid() && recorder == old(recorder) && deferRecording == old(deferRecording)
      ensures raised <==> recorder != null && !old(recorder.isActive)
      ensures live == if !raised && (recorder != null || deferRecording) then old(live) + [raw] else old(live)
      ensures recorder != null ==> deferred == old(deferred) && overflowed == old(overflowed)
      ensures raised ==> recorder.State() == old(recorder.State()) && lastError == old(lastError)
      ensures recorder != null && !raised ==>
                if recorder.accepted == old(recorder.accepted) + [raw] then lastError == old(lastError)
                else recorder.accepted == old(recorder.accepted) && recorder.failure.Some?
                     && lastError == Some(RecorderFailed(recorder.failure.value))
      ensures recorder == null && deferRecording ==>
                if old(deferredBytes) + |raw| <= 4_194_304 then
                  deferred == old(deferred) + [raw] && lastError == old(lastError) && overflowed == old(overflowed)
                else deferred == old(deferred) && lastError == Some(DeferredFull) && overflowed
      ensures recorder == null && !deferRecording ==> deferred == old(deferred) && lastError == old(lastError)
    {
      hide Run, Step, Flatten;
      raised := false;
      if recorder != null {
        ghost var s := recorder.State();
        ghost var actions;
        var r;
        r, actions := recorder.Submit(raw);
        RunKeeps(s, actions);
        if r.NotActive? {
          return true;
        }
        if r == Taken(false) {
          lastError := Some(RecorderFailed(recorder.failure.value));
        }
        assert prior + (live + [raw]) == (prior + live) + [raw];
        live := live + [raw];
      } else if deferRecording {
        live := live + [raw];
        var nextSize := deferredBytes + |raw|;
        if nextSize <= DEFERRED_CAPACITY {
          FlattenAppend(deferred, raw);
          deferred := deferred + [raw];
          deferredBytes := nextSize;
        } else {
          lastError, overflowed := Some(DeferredFull), true;
        }
      }
    }

    /** Detach the recorder; a pending deferral ends with it. */
    method DetachRecorder()
      requires Valid()
      modifies this
      ensures Valid() && recorder == null && !deferRecording && deferred == []
    {
      recorder := null;
      deferRecording := false;
      deferred := [];
      deferredBytes := 0;
    }

    /**
     * Attach an already started recorder.  It receives everything deferred, in order, behind what it
     * had; if it is freshly started, the flush cannot trip its capacity latch, whatever its writer
     * does meanwhile.
     */
    method SetRecorder(r: RawSessionRecorder)
      requires Valid() && r.isActive && r.producer.Quiet? && Inv(r.State())
      modifies this, r
      ensures Valid() && recorder == r && prior == old(r.accepted)
      ensures overflowed == (old(deferRecording) && old(overflowed))
      ensures old(FreshlyStarted(r)) ==> r.failure != Some(CapacityExceeded)
      ensures old(FreshlyStarted(r)) && old(deferRecording) && !overflowed && r.failure.None? ==>
                r.accepted == live == old(live)
      ensures r.failure.None? ==> r.accepted == old(r.accepted) + old(deferred)
      ensures lastError == old(lastError) || (r.failure.Some? && lastError == Some(RecorderFailed(r.failure.value)))
    {
      hide Run, Step, Flatten, Inv;
      var frames := deferred;
      prior := r.accepted;
      recorder := r;
      if !deferRecording { live, overflowed := [], false; }
      FreshAccepted(r.State());
      var refused := Flushing(r, frames);
      if refused {
        lastError := Some(RecorderFailed(r.failure.value));
      }
      deferRecording := false;
      deferred := [];
      deferredBytes := 0;
      FlattenNothing();
    }
  }

  lemma FreshAccepted(s: State)
    requires Inv(s)
    ensures s.submitted == [] ==> s.accepted == []
  {}

  /** Submit frames in order until one is refused. */
  method Flushing(r: RawSessionRecorder, frames: seq<seq<byte>>) returns (refused: bool)
    requires r.isActive && r.producer.Quiet? && Inv(r.State())
    requires |Flatten(frames)| <= DEFERRED_CAPACITY && forall i :: 0 <= i < |frames| ==> frames[i] != []
    modifies r
    ensures r.producer.Quiet? && r.isActive && Inv(r.State())
    ensures old(FreshlyStarted(r)) ==> r.failure != Some(CapacityExceeded)
    ensures r.failure.None? ==> r.accepted == old(r.accepted) + frames
    ensures refused ==> r.failure.Some?
    ensures !refused ==> r.accepted == old(r.accepted) + frames
  {
    hide Run, Step, Flatten, Inv, Roomy;
    var i := 0;
    if FreshlyStarted(r) { StartsRoomy(r.State()); }
    while i < |frames|
      invariant i <= |frames| && r.producer.Quiet? && r.isActive && Inv(r.State())
      invariant r.accepted == old(r.accepted) + frames[..i]
      invariant old(FreshlyStarted(r)) ==> r.submitted == frames[..i] && Roomy(r.State())
    {
      ghost var s := r.State();
      ghost var actions;
      var outcome;
      outcome, actions := r.Submit(frames[i]);
      assert frames[..i + 1] == frames[..i] + [frames[i]];
      assert old(r.accepted) + (frames[..i] + [frames[i]]) == (old(r.accepted) + frames[..i]) + [frames[i]];
      PrefixShorter(frames[..i + 1], frames);
      RunKeeps(s, actions);
      if old(FreshlyStarted(r)) {
        RoomyRun(s, actions);
        RoomySound(r.State());
      }
      if outcome != Taken(true) {
        return true;
      }
      i := i + 1;
    }
    assert frames[..i] == frames;
    if old(FreshlyStarted(r)) { RoomySound(r.State()); }
    return false;
  }

  lemma FlattenNothing()
    ensures Flatten<byte>([]) == []
  {}

  lemma StartsRoomy(s: State)
    requires Inv(s) && s.submitted == [] && s.failure.None?
    ensures Roomy(s) && s.accepted == []
  {
    assert Flatten<byte>([]) == [];
  }

  lemma RoomySound(s: State)
    requires Roomy(s)
    ensures Inv(s) && s.failure != Some(CapacityExceeded)
    ensures s.accepted <= s.submitted && (s.failure.None? ==> s.accepted == s.submitted)
  {}
}
