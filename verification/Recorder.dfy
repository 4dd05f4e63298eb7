/** Bounded asynchronous recording: one producer, one writer thread and the thread that stops. */
module Recorder {
  import opened Bytes
  import opened Arrays

  datatype Fault = CapacityExceeded | WriteFailed

  /**
   * The writer thread: waiting, holding a chunk, about to account for it, past the sentinel and about
   * to flush, closed without error, or dead after a disk error with the chunk it lost.
   */
  datatype Writer =
    | Waiting | Holding(chunk: seq<byte>) | Accounting(chunk: seq<byte>) | Closing | Closed | Dead(lost: seq<byte>)

  /** The producer is between calls, or has reserved room for a chunk that it has not queued yet. */
  datatype Producer = Quiet | Reserved(chunk: seq<byte>)

  /** `accepted` and `submitted` record the non-empty chunks of the current recording. */
  datatype State = State(capacity: nat, active: bool, queuedBytes: int, bytesWritten: nat, failure: Option<Fault>,
                         queue: seq<Option<seq<byte>>>, file: seq<byte>, writer: Writer, producer: Producer,
                         accepted: seq<seq<byte>>, submitted: seq<seq<byte>>)

  datatype Action =
    | Start
    | Reserve(chunk: seq<byte>) | Enqueue
    | PutSentinel | FinishStop
    | Take | Write(ok: bool) | Account | Flush(ok: bool)

  predicate WriterAction(a: Action) {
    a.Take? || a.Write? || a.Account? || a.Flush?
  }

  function Latch(s: State, f: Fault): State {
    if s.failure.None? then s.(failure := Some(f)) else s
  }

  /** One atomic section; an action that is not enabled changes nothing. */
  function Step(s: State, a: Action): State {
    match a
    case Start =>
      if s.active then s
      else s.(active := true, queuedBytes := 0, bytesWritten := 0, failure := None, file := [], writer := Waiting,
              accepted := [], submitted := [])
    case Reserve(chunk) =>
      if chunk == [] || !s.active || s.producer.Reserved? then s else
        var s1 := s.(submitted := s.submitted + [chunk]);
        if s.failure.Some? then s1
        else if s.queuedBytes + |chunk| > s.capacity then Latch(s1, CapacityExceeded)
        else s1.(queuedBytes := s.queuedBytes + |chunk|, producer := Reserved(chunk), accepted := s.accepted + [chunk])
    case Enqueue =>
      if s.producer.Quiet? then s
      else s.(queue := s.queue + [Some(s.producer.chunk)], producer := Quiet)
    case PutSentinel => if s.active then s.(queue := s.queue + [None]) else s
    case FinishStop => if s.active && (s.writer.Closed? || s.writer.Dead?) then s.(active := false) else s
    case Take =>
      if !s.writer.Waiting? || s.queue == [] || !s.active then s
      else if s.queue[0].None? then s.(queue := s.queue[1..], writer := Closing)
      else s.(queue := s.queue[1..], writer := Holding(s.queue[0].value))
    case Write(ok) =>
      if !s.writer.Holding? then s
      else if ok then s.(file := s.file + s.writer.chunk, writer := Accounting(s.writer.chunk))
      else Latch(s, WriteFailed).(writer := Dead(s.writer.chunk))
    case Account =>
      if !s.writer.Accounting? then s
      else s.(queuedBytes := s.queuedBytes - |s.writer.chunk|, bytesWritten := s.bytesWritten + |s.writer.chunk|,
              writer := Waiting)
    case Flush(ok) =>
      if !s.writer.Closing? then s
      else if ok then s.(writer := Closed)
      else Latch(s, WriteFailed).(writer := Dead([]))
  }

  function Run(s: State, actions: seq<Action>): State
    decreases |actions|
  {
    if actions == [] then s else Run(Step(s, actions[0]), actions[1..])
  }

  // ---- The invariant ----

  function Chunks(queue: seq<Option<seq<byte>>>): seq<byte> {
    if queue == [] then [] else (if queue[0].Some? then queue[0].value else []) + Chunks(queue[1..])
  }

  function InHand(w: Writer): seq<byte> {
    match w case Holding(c) => c case Dead(c) => c case _ => []
  }

  function Room(p: Producer): seq<byte> {
    if p.Reserved? then p.chunk else []
  }

  function Unaccounted(w: Writer): nat {
    if w.Accounting? then |w.chunk| else 0
  }

  /** Accepted bytes that are not in the file yet. */
  function Pending(s: State): seq<byte> {
    InHand(s.writer) + Chunks(s.queue) + Room(s.producer)
  }

  predicate Inv(s: State) {
    && s.queuedBytes == |Pending(s)| + Unaccounted(s.writer)
    && s.queuedBytes <= s.capacity
    && s.bytesWritten + Unaccounted(s.writer) == |s.file|
    && Flatten(s.accepted) == s.file + Pending(s)
    && s.accepted <= s.submitted
    && (s.failure.None? ==> s.accepted == s.submitted)
  }

  lemma {:induction false} ChunksAppend(q: seq<Option<seq<byte>>>, e: Option<seq<byte>>)
    ensures Chunks(q + [e]) == Chunks(q) + if e.Some? then e.value else []
  {
    if q == [] {
      assert q + [e] == [e] && [e][1..] == [];
    } else {
      assert (q + [e])[1..] == q[1..] + [e] && (q + [e])[0] == q[0];
      ChunksAppend(q[1..], e);
    }
  }

  lemma FlattenAppend(a: seq<seq<byte>>, c: seq<byte>)
    ensures Flatten(a + [c]) == Flatten(a) + c
  {
    FlattenConcat(a, [c]);
    FlattenPair(c, c);
  }

  lemma ReserveKeeps(s: State, chunk: seq<byte>)
    requires Inv(s)
    ensures Inv(Step(s, Reserve(chunk)))
  {
    hide Chunks, Flatten;
    FlattenAppend(s.accepted, chunk);
    assert s.submitted <= s.submitted + [chunk];
    var p := InHand(s.writer) + Chunks(s.queue);
    assert p + [] == p && s.file + (p + chunk) == (s.file + p) + chunk;
  }

  lemma EnqueueKeeps(s: State)
    requires Inv(s)
    ensures Inv(Step(s, Enqueue))
  {
    hide Chunks, Flatten;
    if s.producer.Reserved? {
      var c := s.producer.chunk;
      ChunksAppend(s.queue, Some(c));
      var h := InHand(s.writer);
      assert h + (Chunks(s.queue) + c) + [] == h + Chunks(s.queue) + c;
    }
  }

  lemma SentinelKeeps(s: State)
    requires Inv(s)
    ensures Inv(Step(s, PutSentinel))
  {
    hide Chunks, Flatten;
    ChunksAppend(s.queue, None);
    assert Chunks(s.queue) + [] == Chunks(s.queue);
  }

  lemma TakeKeeps(s: State)
    requires Inv(s)
    ensures Inv(Step(s, Take))
  {
    hide Flatten;
    if s.queue != [] {
      var head := if s.queue[0].Some? then s.queue[0].value else [];
      assert Chunks(s.queue) == head + Chunks(s.queue[1..]);
      hide Chunks;
      var rest := Chunks(s.queue[1..]);
      assert [] + (head + rest) + Room(s.producer) == head + rest + Room(s.producer);
    }
  }

  lemma WriteKeeps(s: State, ok: bool)
    requires Inv(s)
    ensures Inv(Step(s, Write(ok)))
  {
    hide Chunks, Flatten;
    if s.writer.Holding? {
      var c, rest := s.writer.chunk, Chunks(s.queue) + Room(s.producer);
      assert Pending(s) == c + rest;
      assert [] + Chunks(s.queue) + Room(s.producer) == rest;
      assert s.file + (c + rest) == (s.file + c) + rest;
    }
  }

  /** Every atomic section keeps the invariant, except a start over a queue that is not empty. */
  lemma StepKeeps(s: State, a: Action)
    requires Inv(s) && !a.Start?
    ensures Inv(Step(s, a))
  {
    hide Chunks, Flatten;
    match a
    case Reserve(chunk) => ReserveKeeps(s, chunk);
    case Enqueue => EnqueueKeeps(s);
    case PutSentinel => SentinelKeeps(s);
    case Take => TakeKeeps(s);
    case Write(ok) => WriteKeeps(s, ok);
    case _ =>
  }

  predicate NoStart(actions: seq<Action>) {
    forall i :: 0 <= i < |actions| ==> !actions[i].Start?
  }

  /** Over every interleaving of producer, writer and stopping thread. */
  lemma {:induction false} RunKeeps(s: State, actions: seq<Action>)
    requires Inv(s) && NoStart(actions)
    ensures Inv(Run(s, actions)) && Run(s, actions).capacity == s.capacity
    decreases |actions|
  {
    hide Inv;
    if actions != [] {
      StepKeeps(s, actions[0]);
      hide Step;
      CapacityFixed(s, actions[0]);
      RunKeeps(Step(s, actions[0]), actions[1..]);
    }
  }

  lemma CapacityFixed(s: State, a: Action)
    ensures Step(s, a).capacity == s.capacity
  {}

  // ---- Failures ----

  /** A dead writer and a refused chunk are never silent, and a recording ends only with its writer. */
  predicate Reported(s: State) {
    && (s.writer.Dead? ==> s.failure.Some?) && (s.accepted != s.submitted ==> s.failure.Some?)
    && (!s.active ==> s.writer.Closed? || s.writer.Dead?)
  }

  lemma ReportedStep(s: State, a: Action)
    requires Reported(s) && !a.Start?
    ensures Reported(Step(s, a))
    ensures s.failure.Some? ==> Step(s, a).failure == s.failure && Step(s, a).accepted == s.accepted
    ensures s.failure.None? && Step(s, a).failure.Some? ==>
              || (Step(s, a).failure == Some(WriteFailed) && (a == Write(false) || a == Flush(false)))
              || (Step(s, a).failure == Some(CapacityExceeded) && a.Reserve? && s.queuedBytes + |a.chunk| > s.capacity)
  {}

  /**
   * Over every interleaving the first failure stays, nothing is accepted behind it, a recording
   * without a reported failure has neither lost its writer nor refused a chunk, and it is not over
   * before its writer is.
   */
  lemma {:induction false} FailureStays(s: State, actions: seq<Action>)
    requires Reported(s) && NoStart(actions)
    ensures Reported(Run(s, actions))
    ensures s.failure.Some? ==> Run(s, actions).failure == s.failure && Run(s, actions).accepted == s.accepted
    decreases |actions|
  {
    if actions != [] {
      ReportedStep(s, actions[0]);
      hide Step, Reported;
      FailureStays(Step(s, actions[0]), actions[1..]);
    }
  }

  // ---- Capacity ----

  /** While everything submitted fits the capacity, the capacity latch is never set. */
  predicate Roomy(s: State) {
    Inv(s) && |Flatten(s.submitted)| <= s.capacity && s.failure != Some(CapacityExceeded)
  }

  lemma PrefixShorter(a: seq<seq<byte>>, b: seq<seq<byte>>)
    requires a <= b
    ensures |Flatten(a)| <= |Flatten(b)|
  {
    assert b == a + b[|a|..];
    FlattenConcat(a, b[|a|..]);
  }

  lemma RoomyStep(s: State, a: Action)
    requires Roomy(s) && !a.Start? && |Flatten(Step(s, a).submitted)| <= s.capacity
    ensures Roomy(Step(s, a))
  {
    hide Step, Inv, Flatten;
    StepKeeps(s, a);
    CapacityFixed(s, a);
    if a.Reserve? {
      RoomForMore(s, a.chunk);
    } else {
      NoNewLatch(s, a);
    }
  }

  lemma NoNewLatch(s: State, a: Action)
    requires !a.Start? && !a.Reserve?
    ensures Step(s, a).failure != s.failure ==> Step(s, a).failure == Some(WriteFailed)
  {}

  lemma RoomForMore(s: State, chunk: seq<byte>)
    requires Roomy(s) && |Flatten(Step(s, Reserve(chunk)).submitted)| <= s.capacity
    ensures Step(s, Reserve(chunk)).failure == s.failure
  {
    hide Chunks, Flatten;
    PrefixShorter(s.accepted, s.submitted);
    FlattenAppend(s.submitted, chunk);
  }

  lemma SubmittedGrows(s: State, a: Action)
    requires !a.Start?
    ensures s.submitted <= Step(s, a).submitted
  {}

  lemma {:induction false} SubmittedGrowsRun(s: State, actions: seq<Action>)
    requires NoStart(actions)
    ensures s.submitted <= Run(s, actions).submitted
    decreases |actions|
  {
    if actions != [] {
      SubmittedGrows(s, actions[0]);
      hide Step;
      SubmittedGrowsRun(Step(s, actions[0]), actions[1..]);
    }
  }

  lemma {:induction false} RoomyRun(s: State, actions: seq<Action>)
    requires Roomy(s) && NoStart(actions) && |Flatten(Run(s, actions).submitted)| <= s.capacity
    ensures Roomy(Run(s, actions))
    decreases |actions|
  {
    hide Step, Roomy, Flatten;
    if actions != [] {
      var s1 := Step(s, actions[0]);
      SubmittedGrowsRun(s1, actions[1..]);
      PrefixShorter(s1.submitted, Run(s, actions).submitted);
      CapacityFixed(s, actions[0]);
      RoomyStep(s, actions[0]);
      RoomyRun(s1, actions[1..]);
    }
  }

  // ---- What is on its way ----

  /** No chunk on its way is empty. */
  predicate Solid(s: State) {
    && (forall i :: 0 <= i < |s.queue| ==> s.queue[i] != Some([]))
    && (s.producer.Reserved? ==> s.producer.chunk != [])
    && (s.writer.Holding? ==> s.writer.chunk != [])
  }

  lemma SolidStep(s: State, a: Action)
    requires Solid(s)
    ensures Solid(Step(s, a))
  {}

  /** Over every history, restarts included. */
  lemma {:induction false} SolidRun(s: State, actions: seq<Action>)
    requires Solid(s)
    ensures Solid(Run(s, actions))
    decreases |actions|
  {
    if actions != [] {
      SolidStep(s, actions[0]);
      hide Step, Solid;
      SolidRun(Step(s, actions[0]), actions[1..]);
    }
  }

  lemma SolidNothing(s: State)
    requires Solid(s) && Chunks(s.queue) == [] && Room(s.producer) == [] && Sentinels(s.queue) == 0
    ensures s.queue == [] && s.producer.Quiet?
  {
  }

  function Sentinels(queue: seq<Option<seq<byte>>>): nat {
    if queue == [] then 0 else (if queue[0].None? then 1 else 0) + Sentinels(queue[1..])
  }

  lemma {:induction false} SentinelsAppend(q: seq<Option<seq<byte>>>, e: Option<seq<byte>>)
    ensures Sentinels(q + [e]) == Sentinels(q) + if e.None? then 1 else 0
  {
    if q == [] {
      assert q + [e] == [e] && [e][1..] == [];
    } else {
      assert (q + [e])[1..] == q[1..] + [e] && (q + [e])[0] == q[0];
      SentinelsAppend(q[1..], e);
    }
  }

  /** The writer has taken a sentinel. */
  predicate PastSentinel(w: Writer) {
    w.Closing? || w.Closed? || w == Dead([])
  }

  /** The stops that have queued a sentinel. */
  function Stops(s: State, actions: seq<Action>): nat
    decreases |actions|
  {
    if actions == [] then 0
    else (if actions[0].PutSentinel? && s.active then 1 else 0) + Stops(Step(s, actions[0]), actions[1..])
  }

  function SentinelBalance(s: State): nat {
    Sentinels(s.queue) + if PastSentinel(s.writer) then 1 else 0
  }

  lemma BalanceStep(s: State, a: Action)
    requires Solid(s) && !a.Start?
    ensures SentinelBalance(Step(s, a)) == SentinelBalance(s) + if a.PutSentinel? && s.active then 1 else 0
  {
    SentinelsAppend(s.queue, None);
    if s.producer.Reserved? { SentinelsAppend(s.queue, Some(s.producer.chunk)); }
    if a.Enqueue? || a.PutSentinel? { hide Sentinels; }
  }

  /** The writer takes one sentinel of a recording and leaves all others in the queue. */
  lemma {:induction false} SentinelsKept(s: State, actions: seq<Action>)
    requires Solid(s) && NoStart(actions)
    ensures SentinelBalance(Run(s, actions)) == SentinelBalance(s) + Stops(s, actions)
    decreases |actions|
  {
    if actions != [] {
      BalanceStep(s, actions[0]);
      SolidStep(s, actions[0]);
      hide Step, Solid, SentinelBalance;
      SentinelsKept(Step(s, actions[0]), actions[1..]);
    }
  }

  // ---- Stopping ----

  /** One recording between its start and its stop: nothing starts or stops. */
  predicate Ongoing(actions: seq<Action>) {
    forall i :: 0 <= i < |actions| ==> !actions[i].Start? && !actions[i].PutSentinel?
  }

  /** The chunks in front of the first sentinel. */
  function Ahead(queue: seq<Option<seq<byte>>>): seq<byte> {
    if queue == [] || queue[0].None? then [] else queue[0].value + Ahead(queue[1..])
  }

  lemma {:induction false} AheadAppend(q: seq<Option<seq<byte>>>, e: Option<seq<byte>>)
    ensures Sentinels(q) > 0 ==> Ahead(q + [e]) == Ahead(q)
    ensures Sentinels(q) == 0 ==> Ahead(q + [None]) == Chunks(q)
    decreases |q|
  {
    if q == [] {
      assert q + [None] == [None];
    } else {
      forall x: Option<seq<byte>> ensures (q + [x])[1..] == q[1..] + [x] && (q + [x])[0] == q[0] {}
      AheadAppend(q[1..], e);
    }
  }

  /** What the file of a stopping recording will hold when the writer is done. */
  function Destined(s: State): seq<byte> {
    s.file + InHand(s.writer) + if PastSentinel(s.writer) then [] else Ahead(s.queue)
  }

  lemma DestinedStep(s: State, a: Action)
    requires Solid(s) && SentinelBalance(s) == 1 && !a.Start? && !a.PutSentinel?
    ensures Destined(Step(s, a)) == Destined(s)
  {
    match a
    case Enqueue =>
      if s.producer.Reserved? { AheadAppend(s.queue, Some(s.producer.chunk)); }
      hide Ahead, Sentinels;
    case Take =>
      if s.writer.Waiting? && s.queue != [] && s.active {
        var head := if s.queue[0].None? then [] else s.queue[0].value;
        var rest := if s.queue[0].None? then [] else Ahead(s.queue[1..]);
        assert Ahead(s.queue) == head + rest;
        hide Ahead, Sentinels;
        assert s.file + [] + (head + rest) == s.file + head + rest;
      }
    case Write(_) =>
      hide Ahead, Sentinels;
      assert forall c :: s.file + c + [] == s.file + c;
    case _ =>
      hide Ahead, Sentinels;
  }

  lemma {:induction false} DestinedRun(s: State, actions: seq<Action>)
    requires Solid(s) && SentinelBalance(s) == 1 && Ongoing(actions)
    ensures Destined(Run(s, actions)) == Destined(s) && SentinelBalance(Run(s, actions)) == 1
    decreases |actions|
  {
    if actions != [] {
      DestinedStep(s, actions[0]);
      BalanceStep(s, actions[0]);
      SolidStep(s, actions[0]);
      hide Step, Solid, SentinelBalance, Destined;
      DestinedRun(Step(s, actions[0]), actions[1..]);
    }
  }

  /** Accepted chunks only grow, by chunks that are not empty. */
  predicate Grows(a: seq<seq<byte>>, b: seq<seq<byte>>) {
    a <= b && forall i :: |a| <= i < |b| ==> b[i] != []
  }

  lemma AcceptedStep(s: State, a: Action)
    requires !a.Start?
    ensures Grows(s.accepted, Step(s, a).accepted)
  {}

  lemma {:induction false} AcceptedRun(s: State, actions: seq<Action>)
    requires NoStart(actions)
    ensures Grows(s.accepted, Run(s, actions).accepted)
    decreases |actions|
  {
    if actions != [] {
      AcceptedStep(s, actions[0]);
      hide Step;
      AcceptedRun(Step(s, actions[0]), actions[1..]);
    }
  }

  lemma GrowsFlat(a: seq<seq<byte>>, b: seq<seq<byte>>)
    requires Grows(a, b)
    ensures |Flatten(a)| <= |Flatten(b)| && (|Flatten(a)| == |Flatten(b)| ==> a == b)
  {
    var more := b[|a|..];
    assert b == a + more;
    FlattenConcat(a, more);
    if more != [] { assert more[0] != [] && |Flatten(more)| >= |more[0]|; }
  }

  /** A recording that is running and has not been asked to stop. */
  predicate Running(s: State) {
    Inv(s) && Solid(s) && s.active && SentinelBalance(s) == 0
  }

  /**
   * Stopping, over every interleaving of writer and producer behind the sentinel.  If the writer
   * closes without a disk error, the file is exactly what was written, in hand or queued when the
   * sentinel was queued.  It is all that was accepted if and only if no submission was under way then
   * and none has been accepted since, and exactly then nothing is left behind in the queue.
   */
  lemma StopWritesEverything(s: State, actions: seq<Action>)
    requires Running(s) && Ongoing(actions)
    ensures var t := Run(Step(s, PutSentinel), actions);
            t.writer.Closed? ==>
              && t.file + Room(s.producer) == Flatten(s.accepted)
              && (t.file == Flatten(t.accepted) <==> s.producer.Quiet? && t.accepted == s.accepted)
              && (t.file == Flatten(t.accepted) <==> t.queue == [] && t.producer.Quiet?)
              && (t.file == Flatten(t.accepted) <==> t.queuedBytes == 0) && t.bytesWritten == |t.file|
  {
    hide Run, Chunks, Sentinels, Ahead, Flatten;
    var s1 := Step(s, PutSentinel);
    var t := Run(s1, actions);
    AheadAppend(s.queue, None);
    SentinelsAppend(s.queue, None);
    SolidStep(s, PutSentinel);
    DestinedRun(s1, actions);
    StepKeeps(s, PutSentinel);
    RunKeeps(s1, actions);
    SolidRun(s1, actions);
    AcceptedRun(s1, actions);
    GrowsFlat(s.accepted, t.accepted);
    if t.writer.Closed? { StoppedFile(s, t); }
  }

  /** The arithmetic of a closed file. */
  lemma StoppedFile(s: State, t: State)
    requires Running(s) && Inv(t) && Solid(t) && t.writer.Closed? && SentinelBalance(t) == 1
    requires Destined(t) == s.file + InHand(s.writer) + Chunks(s.queue)
    requires |Flatten(s.accepted)| <= |Flatten(t.accepted)|
    requires |Flatten(s.accepted)| == |Flatten(t.accepted)| ==> s.accepted == t.accepted
    ensures t.file + Room(s.producer) == Flatten(s.accepted)
    ensures t.file == Flatten(t.accepted) <==> s.producer.Quiet? && t.accepted == s.accepted
    ensures t.file == Flatten(t.accepted) <==> t.queue == [] && t.producer.Quiet?
    ensures (t.file == Flatten(t.accepted) <==> t.queuedBytes == 0) && t.bytesWritten == |t.file|
  {
    hide Sentinels, Flatten, Ahead;
    assert t.file == Destined(t);
    var h := InHand(s.writer);
    assert s.file + (h + Chunks(s.queue) + Room(s.producer)) == s.file + h + Chunks(s.queue) + Room(s.producer);
    assert s.producer.Quiet? <==> |Room(s.producer)| == 0;
    var behind := Chunks(t.queue) + Room(t.producer);
    assert Pending(t) == behind;
    assert t.file == Flatten(t.accepted) <==> |behind| == 0;
    if |behind| == 0 { SolidNothing(t); }
  }

  // ---- Starting again ----

  /** A recorder that has just started, with nothing of an earlier recording left behind. */
  function Started(capacity: nat): State {
    State(capacity, true, 0, 0, None, [], [], Waiting, Quiet, [], [])
  }

  lemma StartedRunning(capacity: nat)
    ensures Running(Started(capacity))
  {
    assert Flatten<byte>([]) == [];
  }

  /**
   * What a recording promises when it is stopped while no submission is under way and none follows:
   * its file holds its own chunks in order, and all of them once the writer has closed.
   */
  predicate OwnFile(s: State, before: seq<Action>, after: seq<Action>) {
    var u := Run(Step(s, Start), before);
    var t := Run(Step(u, PutSentinel), after);
    && u.file <= Flatten(u.accepted)
    && (u.active && u.producer.Quiet? && t.accepted == u.accepted && t.writer.Closed? ==> t.file == Flatten(t.accepted))
  }

  /** Every recording that a start from `s` can begin keeps the promise. */
  ghost predicate Startable(s: State) {
    forall before, after :: Ongoing(before) && Ongoing(after) ==> OwnFile(s, before, after)
  }

  lemma {:induction false} OngoingStops(s: State, actions: seq<Action>)
    requires Ongoing(actions)
    ensures Stops(s, actions) == 0
    decreases |actions|
  {
    if actions != [] {
      hide Step;
      OngoingStops(Step(s, actions[0]), actions[1..]);
    }
  }

  lemma CleanStartOwns(capacity: nat, before: seq<Action>, after: seq<Action>)
    requires Ongoing(before) && Ongoing(after)
    ensures var u := Run(Started(capacity), before);
            var t := Run(Step(u, PutSentinel), after);
            && u.file <= Flatten(u.accepted)
            && (u.active && u.producer.Quiet? && t.accepted == u.accepted && t.writer.Closed? ==>
                  t.file == Flatten(t.accepted))
  {
    hide Run, Step, Solid, Flatten, SentinelBalance;
    var s := Started(capacity);
    StartedRunning(capacity);
    RunKeeps(s, before);
    SolidRun(s, before);
    SentinelsKept(s, before);
    OngoingStops(s, before);
    var u := Run(s, before);
    if u.active { StopWritesEverything(u, after); }
  }

  /** A chunk left behind becomes the front of the next file. */
  lemma LeftoverChunk(s: State)
    requires !s.active && Solid(s) && (if s.queue == [] then s.producer.Reserved? else s.queue[0].Some?)
    ensures !Startable(s)
  {
    var s1 := Step(s, Start);
    RunFour(s1, if s.queue == [] then Enqueue else Account, Take, Write(true), Account);
    var before := [if s.queue == [] then Enqueue else Account, Take, Write(true), Account];
    var u := Run(s1, before);
    hide Run;
    assert Flatten<byte>([]) == [];
    assert u.accepted == [] && u.file != [];
    assert Ongoing(before) && Ongoing([]);
    assert !OwnFile(s, before, []);
  }

  /** A sentinel left behind closes the next writer at once, and what follows is silently lost. */
  lemma NextRecordingLost(s: State, chunk: seq<byte>)
    requires !s.active && s.queue != [] && s.queue[0].None? && 0 < |chunk| <= s.capacity
    ensures var t := Run(s, [Start, Take, Flush(true), Enqueue] + [Reserve(chunk), Enqueue, PutSentinel, FinishStop]);
            !t.active && t.failure.None? && t.accepted == [chunk] && t.file == []
  {
    RunConcat(s, [Start, Take, Flush(true), Enqueue], [Reserve(chunk), Enqueue, PutSentinel, FinishStop]);
    RunFour(s, Start, Take, Flush(true), Enqueue);
    var s1 := Step(Step(Step(Step(s, Start), Take), Flush(true)), Enqueue);
    RunFour(s1, Reserve(chunk), Enqueue, PutSentinel, FinishStop);
    hide Run;
    assert s1.active && s1.failure.None? && s1.producer.Quiet? && s1.writer.Closed? && s1.queuedBytes == 0;
    assert [] + [chunk] == [chunk];
  }

  lemma ClosedEarly(s: State) returns (before: seq<Action>)
    requires !s.active && s.queue != [] && s.queue[0].None? && s.capacity > 0
    ensures Ongoing(before)
    ensures var u := Run(Step(s, Start), before);
            u.active && u.producer.Quiet? && u.writer.Closed? && u.accepted == [[0]] && u.file == []
  {
    before := [Take, Flush(true), Enqueue, Reserve([0]), Enqueue];
    var s1 := Step(s, Start);
    RunFive(s1, Take, Flush(true), Enqueue, Reserve([0]), Enqueue);
    hide Run;
    var s2 := Step(Step(Step(s1, Take), Flush(true)), Enqueue);
    assert s2.active && s2.failure.None? && s2.producer.Quiet? && s2.writer.Closed? && s2.queuedBytes == 0;
    assert s2.accepted == [] && s2.file == [] && s2.capacity == s.capacity && [] + [[0]] == [[0]];
  }

  lemma LeftoverSentinel(s: State)
    requires !s.active && s.queue != [] && s.queue[0].None? && s.capacity > 0
    ensures !Startable(s)
  {
    var before := ClosedEarly(s);
    var u := Run(Step(s, Start), before);
    RunOne(Step(u, PutSentinel), PutSentinel, []);
    hide Run, Solid;
    FlattenAppend([], [0]);
    assert [] + [[0]] == [[0]] && Flatten<byte>([]) == [];
    hide Flatten;
    assert Ongoing([]);
    assert !OwnFile(s, before, []);
  }

  /**
   * Every recording that begins here keeps its promise if and only if the queue is empty, of chunks
   * and of sentinels, and no submission is under way.
   */
  lemma StartSound(s: State)
    requires !s.active && Solid(s) && s.capacity > 0
    ensures Startable(s) <==> s.queue == [] && s.producer.Quiet?
  {
    if s.queue == [] && s.producer.Quiet? {
      assert Step(s, Start) == Started(s.capacity);
      hide Run, Step;
      forall before, after | Ongoing(before) && Ongoing(after) ensures OwnFile(s, before, after) {
        CleanStartOwns(s.capacity, before, after);
      }
    } else if s.queue != [] && s.queue[0].None? {
      LeftoverSentinel(s);
    } else {
      LeftoverChunk(s);
    }
  }

  /**
   * When a recording has been stopped, the same recorder can be started again if and only if it was
   * stopped once, its writer got to the sentinel and the file is complete.  So never after a disk
   * error in a write, and never after a second call of `stop`.
   */
  lemma RestartAfterStop(capacity: nat, actions: seq<Action>)
    requires NoStart(actions) && capacity > 0
    requires !Run(Started(capacity), actions).active && Stops(Started(capacity), actions) > 0
    ensures var t := Run(Started(capacity), actions);
            Startable(t) <==>
              Stops(Started(capacity), actions) == 1 && PastSentinel(t.writer) && t.file == Flatten(t.accepted)
  {
    hide Run, Step, Startable, Flatten, Stops;
    var s := Started(capacity);
    var t := Run(s, actions);
    StartedRunning(capacity);
    RunKeeps(s, actions);
    SolidRun(s, actions);
    SentinelsKept(s, actions);
    StartSound(t);
    var behind := Chunks(t.queue) + Room(t.producer);
    if PastSentinel(t.writer) {
      assert Pending(t) == behind;
      assert t.file == Flatten(t.accepted) <==> |behind| == 0;
      if Stops(s, actions) == 1 && |behind| == 0 { SolidNothing(t); }
    }
  }

  // ---- Runs that lose or mix chunks ----

  /** A stopped recorder with one accepted chunk left behind the sentinel. */
  function Stranded(capacity: nat, chunk: seq<byte>): State {
    State(capacity, false, |chunk|, 0, None, [Some(chunk)], [], Closed, Quiet, [chunk], [chunk])
  }

  /** A submission between the sentinel and the end of the stop is accepted and never written. */
  lemma LateSubmissionLost(capacity: nat, chunk: seq<byte>)
    requires 0 < |chunk| <= capacity
    ensures Run(Started(capacity), [PutSentinel, Reserve(chunk), Enqueue, Take] + [Flush(true), FinishStop])
            == Stranded(capacity, chunk)
  {
    var s := Started(capacity);
    RunSix(s, PutSentinel, Reserve(chunk), Enqueue, Take, Flush(true), FinishStop);
    hide Run;
    var s3 := Step(Step(Step(s, PutSentinel), Reserve(chunk)), Enqueue);
    assert s3.queue == [None, Some(chunk)] && s3.queue[1..] == [Some(chunk)];
  }

  /** Starting the same recorder again writes that chunk into the next recording. */
  lemma StrandedChunkLeaks(capacity: nat, chunk: seq<byte>)
    ensures var u := Run(Stranded(capacity, chunk), [Start, Take, Write(true), Account]);
            u.accepted == [] && u.file == chunk && u.queuedBytes == -|chunk|
  {
    RunFour(Stranded(capacity, chunk), Start, Take, Write(true), Account);
    hide Run;
    assert [] + chunk == chunk;
  }

  /** After a disk error nobody takes the sentinel: the whole next recording is silently lost. */
  lemma DiskErrorStrandsSentinel(capacity: nat, first: seq<byte>, next: seq<byte>)
    requires 0 < |first| <= capacity && 0 < |next| <= capacity
    ensures var t := Run(Started(capacity), [Reserve(first), Enqueue, Take, Write(false)] + [PutSentinel, FinishStop]);
            && !t.active && t.queue == [None] && t.producer.Quiet? && t.failure == Some(WriteFailed)
            && var v := Run(t, [Start, Take, Flush(true), Enqueue] + [Reserve(next), Enqueue, PutSentinel, FinishStop]);
               !v.active && v.failure.None? && v.accepted == [next] && v.file == []
  {
    var s := Started(capacity);
    RunSix(s, Reserve(first), Enqueue, Take, Write(false), PutSentinel, FinishStop);
    var t := Run(s, [Reserve(first), Enqueue, Take, Write(false)] + [PutSentinel, FinishStop]);
    hide Run;
    assert Step(Step(s, Reserve(first)), Enqueue).queue == [Some(first)];
    assert [Some(first)][1..] == [] && t.queue == [None];
    NextRecordingLost(t, next);
  }

  /** A stop that timed out and is called again leaves its second sentinel behind, with the same loss. */
  lemma SecondStopStrandsSentinel(capacity: nat, next: seq<byte>)
    requires 0 < |next| <= capacity
    ensures var t := Run(Started(capacity), [PutSentinel, PutSentinel, Take, Flush(true)] + [FinishStop, Account]);
            && !t.active && t.queue == [None] && t.producer.Quiet? && t.failure.None?
            && var v := Run(t, [Start, Take, Flush(true), Enqueue] + [Reserve(next), Enqueue, PutSentinel, FinishStop]);
               !v.active && v.failure.None? && v.accepted == [next] && v.file == []
  {
    var s := Started(capacity);
    RunSix(s, PutSentinel, PutSentinel, Take, Flush(true), FinishStop, Account);
    var t := Run(s, [PutSentinel, PutSentinel, Take, Flush(true)] + [FinishStop, Account]);
    hide Run;
    assert Step(Step(s, PutSentinel), PutSentinel).queue == [None, None];
    assert Step(Step(s, PutSentinel), PutSentinel).queue[1..] == [None] && t.queue == [None];
    NextRecordingLost(t, next);
  }

  lemma {:induction false} RunConcat(s: State, a: seq<Action>, b: seq<Action>)
    ensures Run(s, a + b) == Run(Run(s, a), b)
    decreases |a|
  {
    hide Step;
    if a == [] { assert a + b == b; } else {
      assert (a + b)[1..] == a[1..] + b;
      RunConcat(Step(s, a[0]), a[1..], b);
    }
  }

  lemma RunOne(s: State, a: Action, more: seq<Action>)
    ensures Run(s, [a] + more) == Run(Step(s, a), more)
    ensures Run(s, []) == s
  {
    hide Step;
    assert ([a] + more)[1..] == more;
  }

  lemma RunFour(s: State, a: Action, b: Action, c: Action, d: Action)
    ensures Run(s, [a, b, c, d]) == Step(Step(Step(Step(s, a), b), c), d)
  {
    hide *;
    assert [a, b, c, d] == [a] + [b, c, d] && [b, c, d] == [b] + [c, d] && [c, d] == [c] + [d] && [d] == [d] + [];
    RunOne(s, a, [b, c, d]);
    RunOne(Step(s, a), b, [c, d]);
    RunOne(Step(Step(s, a), b), c, [d]);
    RunOne(Step(Step(Step(s, a), b), c), d, []);
    RunOne(Step(Step(Step(Step(s, a), b), c), d), d, []);
  }

  lemma RunFive(s: State, a: Action, b: Action, c: Action, d: Action, e: Action)
    ensures Run(s, [a, b, c, d, e]) == Step(Step(Step(Step(Step(s, a), b), c), d), e)
  {
    hide *;
    assert [a, b, c, d, e] == [a] + [b, c, d, e];
    RunOne(s, a, [b, c, d, e]);
    RunFour(Step(s, a), b, c, d, e);
  }

  lemma RunSix(s: State, a: Action, b: Action, c: Action, d: Action, e: Action, f: Action)
    ensures Run(s, [a, b, c, d] + [e, f]) == Step(Step(Step(Step(Step(Step(s, a), b), c), d), e), f)
  {
    hide *;
    RunConcat(s, [a, b, c, d], [e, f]);
    RunFour(s, a, b, c, d);
    var u := Step(Step(Step(Step(s, a), b), c), d);
    assert [e, f] == [e] + [f] && [f] == [f] + [];
    RunOne(u, e, [f]);
    RunOne(Step(u, e), f, []);
    RunOne(Step(Step(u, e), f), f, []);
  }
}
