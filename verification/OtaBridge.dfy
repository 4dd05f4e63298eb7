/** Arming and disarming the demultiplexer in front of the receiver of one connection. */
module OtaBridge {
  import opened Bytes
  import opened Arrays
  import opened Sdf1
  import opened StreamParsing
  import Demux

  const MAX_LINE := 128

  /** The worker's view of one connection. */
  datatype Bridge = Bridge(active: bool, resetPending: bool, pending: seq<byte>, replies: seq<seq<byte>>,
                           session: Session, held: seq<byte>)

  datatype Event = StartOta | EndOta | Chunk(bytes: seq<byte>) | TakeReply

  /** Where the bytes of the raw stream go. */
  datatype Fate = Parsed(bytes: seq<byte>) | Replied(bytes: seq<byte>) | Dropped(bytes: seq<byte>)

  /** How a line leaves the reply queue: to the uploader, or emptied out when a session arms. */
  datatype Departure = Handed(line: seq<byte>) | Discarded(line: seq<byte>)

  function Receive(b: Bridge, bytes: seq<byte>): (Bridge, seq<Frame>) {
    var o := Parse(b.session, b.held + bytes, true);
    (b.(session := o.session, held := o.rest), o.frames)
  }

  function HandleChunk(b: Bridge, chunk: seq<byte>): (Bridge, seq<Frame>) {
    if b.active then
      var (pending, replies) := if b.resetPending then ([], []) else (b.pending, b.replies);
      var f := Demux.FeedOnce(pending, chunk, MAX_LINE);
      var b1 := b.(resetPending := false, pending := f.pending, replies := replies + f.lines);
      if f.passed == [] then (b1, []) else Receive(b1, f.passed)
    else if b.pending != [] then Receive(b.(pending := []), b.pending + chunk)
    else Receive(b, chunk)
  }

  function Handle(b: Bridge, e: Event): (Bridge, seq<Frame>) {
    match e
    case StartOta => (b.(active := true, resetPending := true), [])
    case EndOta => (b.(active := false, resetPending := false), [])
    case Chunk(bytes) => HandleChunk(b, bytes)
    case TakeReply => (if b.replies == [] then b else b.(replies := b.replies[1..]), [])
  }

  function HandleAll(b: Bridge, events: seq<Event>): (Bridge, seq<Frame>)
    decreases |events|
  {
    if events == [] then (b, []) else
      var (b1, frames) := Handle(b, events[0]);
      var (b2, more) := HandleAll(b1, events[1..]);
      (b2, frames + more)
  }

  function RawOf(events: seq<Event>): seq<byte> {
    if events == [] then [] else (if events[0].Chunk? then events[0].bytes else []) + RawOf(events[1..])
  }

  // ---- The ledger ----

  function AllBytes(ledger: seq<Fate>): seq<byte> {
    if ledger == [] then [] else ledger[0].bytes + AllBytes(ledger[1..])
  }

  function ParsedBytes(ledger: seq<Fate>): seq<byte> {
    if ledger == [] then [] else (if ledger[0].Parsed? then ledger[0].bytes else []) + ParsedBytes(ledger[1..])
  }

  /** The lines that the replied entries put on the reply queue. */
  function LinesOf(ledger: seq<Fate>): seq<seq<byte>> {
    if ledger == [] then []
    else (if ledger[0].Replied? then [Demux.LineOf(ledger[0].bytes)] else []) + LinesOf(ledger[1..])
  }

  function DroppedOf(ledger: seq<Fate>): seq<seq<byte>> {
    if ledger == [] then [] else (if ledger[0].Dropped? then [ledger[0].bytes] else []) + DroppedOf(ledger[1..])
  }

  predicate Lossless(ledger: seq<Fate>) {
    forall i :: 0 <= i < |ledger| ==> !ledger[i].Dropped?
  }

  /** Whether a byte in the residue is lost: only when a chunk finds the session freshly armed. */
  predicate Loses(b: Bridge, e: Event) {
    e.Chunk? && b.active && b.resetPending && b.pending != []
  }

  predicate CleanArming(b: Bridge, events: seq<Event>)
    decreases |events|
  {
    events == [] || (!Loses(b, events[0]) && CleanArming(Handle(b, events[0]).0, events[1..]))
  }

  /** The residues that a run loses. */
  function Losses(b: Bridge, events: seq<Event>): seq<seq<byte>>
    decreases |events|
  {
    if events == [] then []
    else (if Loses(b, events[0]) then [b.pending] else []) + Losses(Handle(b, events[0]).0, events[1..])
  }

  /** The lines that one event removes from the reply queue. */
  function Leaving(b: Bridge, e: Event): seq<Departure> {
    if e.TakeReply? && b.replies != [] then [Handed(b.replies[0])]
    else if e.Chunk? && b.active && b.resetPending then
      seq(|b.replies|, i requires 0 <= i < |b.replies| => Discarded(b.replies[i]))
    else []
  }

  function Departures(b: Bridge, events: seq<Event>): seq<Departure>
    decreases |events|
  {
    if events == [] then [] else Leaving(b, events[0]) + Departures(Handle(b, events[0]).0, events[1..])
  }

  function Departed(gone: seq<Departure>): (lines: seq<seq<byte>>)
    ensures |lines| == |gone| && forall i :: 0 <= i < |gone| ==> lines[i] == gone[i].line
  {
    seq(|gone|, i requires 0 <= i < |gone| => gone[i].line)
  }

  /** Each fate is what it says: a replied entry is one reply line with its newline, a drop loses something. */
  predicate Honest(f: Fate) {
    && (f.Replied? ==> Demux.Sound(Demux.Claim(f.bytes)))
    && (f.Dropped? ==> f.bytes != [])
  }

  function FateOf(s: Demux.Segment): Fate {
    if s.Claim? then Replied(s.bytes) else Parsed(s.bytes)
  }

  function FatesOf(segments: seq<Demux.Segment>): (l: seq<Fate>)
    ensures |l| == |segments|
  {
    seq(|segments|, i requires 0 <= i < |segments| => FateOf(segments[i]))
  }

  lemma {:induction false} FatesBytes(segments: seq<Demux.Segment>)
    ensures AllBytes(FatesOf(segments)) == Demux.Joined(segments)
    ensures ParsedBytes(FatesOf(segments)) == Demux.Passed(segments)
    ensures LinesOf(FatesOf(segments)) == Demux.Lines(segments)
    ensures DroppedOf(FatesOf(segments)) == []
  {
    hide Demux.LineOf;
    if segments != [] {
      assert FatesOf(segments)[1..] == FatesOf(segments[1..]);
      FatesBytes(segments[1..]);
    }
  }

  lemma LedgerCons(f: Fate, more: seq<Fate>)
    ensures AllBytes([f] + more) == f.bytes + AllBytes(more)
    ensures ParsedBytes([f] + more) == (if f.Parsed? then f.bytes else []) + ParsedBytes(more)
    ensures LinesOf([f] + more) == (if f.Replied? then [Demux.LineOf(f.bytes)] else []) + LinesOf(more)
    ensures DroppedOf([f] + more) == (if f.Dropped? then [f.bytes] else []) + DroppedOf(more)
  {
    hide Demux.LineOf;
    assert ([f] + more)[1..] == more;
  }

  lemma EmptyLedger()
    ensures AllBytes([]) == [] && ParsedBytes([]) == [] && LinesOf([]) == [] && DroppedOf([]) == []
  {}

  lemma {:induction false} LedgerConcat(a: seq<Fate>, b: seq<Fate>)
    ensures AllBytes(a + b) == AllBytes(a) + AllBytes(b)
    ensures ParsedBytes(a + b) == ParsedBytes(a) + ParsedBytes(b)
    ensures LinesOf(a + b) == LinesOf(a) + LinesOf(b)
    ensures DroppedOf(a + b) == DroppedOf(a) + DroppedOf(b)
  {
    hide *;
    if a == [] {
      assert a + b == b;
      EmptyLedger();
    } else {
      var f, more := a[0], a[1..];
      assert a + b == [f] + (more + b) && a == [f] + more;
      LedgerConcat(more, b);
      LedgerCons(f, more);
      LedgerCons(f, more + b);
      Assoc(f.bytes, AllBytes(more), AllBytes(b));
      Assoc(if f.Parsed? then f.bytes else [], ParsedBytes(more), ParsedBytes(b));
      Assoc(if f.Replied? then [Demux.LineOf(f.bytes)] else [], LinesOf(more), LinesOf(b));
      Assoc(if f.Dropped? then [f.bytes] else [], DroppedOf(more), DroppedOf(b));
    }
  }

  lemma {:induction false} LosslessIff(ledger: seq<Fate>)
    ensures Lossless(ledger) <==> DroppedOf(ledger) == []
  {
    if ledger != [] {
      LosslessIff(ledger[1..]);
      assert ledger == [ledger[0]] + ledger[1..];
      LosslessConcat([ledger[0]], ledger[1..]);
    }
  }

  lemma LosslessConcat(l: seq<Fate>, l': seq<Fate>)
    ensures Lossless(l + l') <==> Lossless(l) && Lossless(l')
  {
    var all := l + l';
    if Lossless(all) {
      assert forall i :: 0 <= i < |l| ==> l[i] == all[i];
      assert forall i :: 0 <= i < |l'| ==> l'[i] == all[|l| + i];
    }
  }

  lemma {:induction false} CleanIffNoLosses(b: Bridge, events: seq<Event>)
    ensures CleanArming(b, events) <==> Losses(b, events) == []
    decreases |events|
  {
    hide Handle, Loses;
    if events != [] { CleanIffNoLosses(Handle(b, events[0]).0, events[1..]); }
  }

  /**
   * `ledger` and `gone` explain the step from `b` to `b'` on new raw bytes: the bytes are accounted
   * for, each in its place; the receiver has parsed the parsed ones; and the lines of the replied
   * ones went through the reply queue in order.
   */
  predicate Explains(b: Bridge, raw: seq<byte>, ledger: seq<Fate>, gone: seq<Departure>, b': Bridge, frames: seq<Frame>) {
    && b.pending + raw == AllBytes(ledger) + b'.pending
    && (forall i :: 0 <= i < |ledger| ==> Honest(ledger[i]))
    && Outcome(b'.session, frames, b'.held) == Parse(b.session, b.held + ParsedBytes(ledger), true)
    && Held(b'.held)
    && b.replies + LinesOf(ledger) == Departed(gone) + b'.replies
  }

  lemma NothingParsed(s: Session, held: seq<byte>)
    requires Held(held)
    ensures Parse(s, held + [], true) == Outcome(s, [], held)
  {
    hide Cut;
    assert held + [] == held;
    DigestNothing(s, true);
  }

  /** A chunk through the armed demultiplexer, from the residue that the reset left. */
  lemma ExplainArmed(b: Bridge, chunk: seq<byte>) returns (ledger: seq<Fate>)
    requires Held(b.held) && b.active && (b.resetPending ==> b.pending == [])
    ensures var (b', frames) := HandleChunk(b, chunk);
            Explains(b, chunk, ledger, Leaving(b, Chunk(chunk)), b', frames)
    ensures DroppedOf(ledger) == []
  {
    hide Parse, Held, Demux.FeedOnce, AllBytes, ParsedBytes, LinesOf, DroppedOf, Honest;
    var segments := Demux.FeedConserves(b.pending, chunk, MAX_LINE);
    var f := Demux.FeedOnce(b.pending, chunk, MAX_LINE);
    FatesBytes(segments);
    ledger := FatesOf(segments);
    FatesHonest(segments);
    var gone := Departed(Leaving(b, Chunk(chunk)));
    assert b.resetPending ==> gone == b.replies;
    assert gone + ((if b.resetPending then [] else b.replies) + f.lines) == b.replies + f.lines;
    if f.passed == [] { NothingParsed(b.session, b.held); } else { RestHeld(b.session, b.held + f.passed, true); }
  }

  lemma ExplainIdle(b: Bridge, chunk: seq<byte>) returns (ledger: seq<Fate>)
    requires Held(b.held) && !b.active
    ensures var (b', frames) := HandleChunk(b, chunk);
            Explains(b, chunk, ledger, [], b', frames)
    ensures DroppedOf(ledger) == []
  {
    hide Parse, Held, AllBytes, ParsedBytes, LinesOf, DroppedOf, Honest;
    var bytes := b.pending + chunk;
    ledger := [Parsed(bytes)];
    LedgerCons(Parsed(bytes), []);
    EmptyLedger();
    assert ledger == [Parsed(bytes)] + [] && bytes + [] == bytes;
    ParsedHonest(bytes);
    RestHeld(b.session, b.held + bytes, true);
    if b.pending == [] { assert bytes == chunk; }
    assert b.replies + [] == [] + b.replies;
  }

  /** Dropping the residue first puts one more entry in front of the ledger. */
  lemma ExplainDrop(b: Bridge, chunk: seq<byte>, ledger: seq<Fate>, gone: seq<Departure>, b': Bridge, frames: seq<Frame>)
    requires b.pending != [] && Explains(b.(pending := []), chunk, ledger, gone, b', frames)
    ensures Explains(b, chunk, [Dropped(b.pending)] + ledger, gone, b', frames)
  {
    hide Parse, Held, AllBytes, ParsedBytes, LinesOf, Departed;
    LedgerCons(Dropped(b.pending), ledger);
    assert [] + ParsedBytes(ledger) == ParsedBytes(ledger) && [] + LinesOf(ledger) == LinesOf(ledger);
    assert b.pending + (AllBytes(ledger) + b'.pending) == (b.pending + AllBytes(ledger)) + b'.pending;
    assert [] + chunk == chunk;
  }

  lemma ExplainChunk(b: Bridge, chunk: seq<byte>) returns (ledger: seq<Fate>)
    requires Held(b.held)
    ensures var (b', frames) := HandleChunk(b, chunk);
            Explains(b, chunk, ledger, Leaving(b, Chunk(chunk)), b', frames)
    ensures DroppedOf(ledger) == if Loses(b, Chunk(chunk)) then [b.pending] else []
  {
    hide Held, Explains, Demux.FeedOnce, Receive, DroppedOf;
    if Loses(b, Chunk(chunk)) {
      var cleared := b.(pending := []);
      ledger := ExplainArmed(cleared, chunk);
      assert HandleChunk(b, chunk) == HandleChunk(cleared, chunk);
      var (b', frames) := HandleChunk(b, chunk);
      ExplainDrop(b, chunk, ledger, Leaving(b, Chunk(chunk)), b', frames);
      LedgerCons(Dropped(b.pending), ledger);
      ledger := [Dropped(b.pending)] + ledger;
      assert [b.pending] + [] == [b.pending];
    } else if b.active {
      ledger := ExplainArmed(b, chunk);
    } else {
      ledger := ExplainIdle(b, chunk);
    }
  }

  lemma FatesHonest(segments: seq<Demux.Segment>)
    requires forall i :: 0 <= i < |segments| ==> Demux.Sound(segments[i])
    ensures forall i :: 0 <= i < |segments| ==> Honest(FatesOf(segments)[i])
  {
    hide Demux.IsReply;
    forall i | 0 <= i < |segments| ensures Honest(FatesOf(segments)[i]) {
      assert Demux.Sound(segments[i]);
    }
  }

  lemma ParsedHonest(bytes: seq<byte>)
    ensures Honest(Parsed(bytes))
  {}

  lemma ExplainEvent(b: Bridge, e: Event) returns (ledger: seq<Fate>)
    requires Held(b.held)
    ensures Explains(b, if e.Chunk? then e.bytes else [], ledger, Leaving(b, e), Handle(b, e).0, Handle(b, e).1)
    ensures DroppedOf(ledger) == if Loses(b, e) then [b.pending] else []
  {
    hide Parse, Held, AllBytes, ParsedBytes, LinesOf, DroppedOf, Honest, HandleChunk;
    if e.Chunk? {
      ledger := ExplainChunk(b, e.bytes);
    } else {
      ledger := [];
      EmptyLedger();
      NothingParsed(b.session, b.held);
      assert b.pending + [] == b.pending == [] + b.pending;
      assert b.replies + [] == b.replies == Departed(Leaving(b, e)) + Handle(b, e).0.replies;
    }
  }

  lemma DepartedConcat(a: seq<Departure>, b: seq<Departure>)
    ensures Departed(a + b) == Departed(a) + Departed(b)
  {}

  lemma ExplainsThen(b: Bridge, raw: seq<byte>, l: seq<Fate>, g: seq<Departure>, b1: Bridge, frames: seq<Frame>,
                     more: seq<byte>, l': seq<Fate>, g': seq<Departure>, b2: Bridge, frames': seq<Frame>)
    requires Explains(b, raw, l, g, b1, frames) && Explains(b1, more, l', g', b2, frames')
    ensures Explains(b, raw + more, l + l', g + g', b2, frames + frames')
  {
    hide Parse, Held, AllBytes, ParsedBytes, LinesOf, Departed, Honest;
    LedgerConcat(l, l');
    DepartedConcat(g, g');
    Chained(b.pending, raw, more, AllBytes(l), AllBytes(l'), b1.pending, b2.pending);
    Assoc(b.replies, LinesOf(l), LinesOf(l'));
    Assoc(Departed(g), b1.replies, LinesOf(l'));
    Assoc(Departed(g), Departed(g'), b2.replies);
    ParseConcat(b.session, b.held + ParsedBytes(l), ParsedBytes(l'), true);
    Assoc(b.held, ParsedBytes(l), ParsedBytes(l'));
  }

  lemma Chained(p: seq<byte>, raw: seq<byte>, more: seq<byte>, a: seq<byte>, a': seq<byte>, p1: seq<byte>, p2: seq<byte>)
    requires p + raw == a + p1 && p1 + more == a' + p2
    ensures p + (raw + more) == (a + a') + p2
  {
    Assoc(p, raw, more);
    Assoc(a, p1, more);
    Assoc(a, a', p2);
  }

  /**
   * Over every run of arming, disarming, replies and chunks: each raw byte is parsed, claimed as
   * part of a reply line, dropped, or still held; the receiver is in the state of parsing exactly
   * the parsed bytes; the lines of the claimed ones went on the reply queue in order and left it
   * handed out or emptied out by an arming; and the bytes dropped are exactly the residues over
   * which a session armed.
   */
  lemma {:induction false} RunConserves(b: Bridge, events: seq<Event>) returns (ledger: seq<Fate>)
    requires Held(b.held)
    ensures Explains(b, RawOf(events), ledger, Departures(b, events), HandleAll(b, events).0, HandleAll(b, events).1)
    ensures DroppedOf(ledger) == Losses(b, events)
    ensures Lossless(ledger) <==> CleanArming(b, events)
    decreases |events|
  {
    hide Parse, Held, AllBytes, ParsedBytes, LinesOf, DroppedOf, Honest, Handle, Loses, Explains, Leaving, Lossless,
      CleanArming;
    if events == [] {
      ledger := [];
      EmptyLedger();
      ExplainNothing(b);
    } else {
      var e := events[0];
      var l := ExplainEvent(b, e);
      var (b1, frames) := Handle(b, e);
      HeldAfter(b, if e.Chunk? then e.bytes else [], l, Leaving(b, e), b1, frames);
      var l' := RunConserves(b1, events[1..]);
      var (b2, more) := HandleAll(b1, events[1..]);
      ExplainsThen(b, if e.Chunk? then e.bytes else [], l, Leaving(b, e), b1, frames,
                   RawOf(events[1..]), l', Departures(b1, events[1..]), b2, more);
      LedgerConcat(l, l');
      ledger := l + l';
    }
    LosslessIff(ledger);
    CleanIffNoLosses(b, events);
  }

  lemma HeldAfter(b: Bridge, raw: seq<byte>, l: seq<Fate>, g: seq<Departure>, b1: Bridge, frames: seq<Frame>)
    requires Explains(b, raw, l, g, b1, frames)
    ensures Held(b1.held)
  {}

  lemma ExplainNothing(b: Bridge)
    requires Held(b.held)
    ensures Explains(b, [], [], [], b, [])
  {
    hide Parse, Held;
    NothingParsed(b.session, b.held);
    assert b.replies + [] == [] + b.replies;
    assert b.pending + [] == [] + b.pending;
  }

  // ---- An armed session ----

  function ChunkEvents(chunks: seq<seq<byte>>): (e: seq<Event>)
    ensures |e| == |chunks|
  {
    seq(|chunks|, i requires 0 <= i < |chunks| => Chunk(chunks[i]))
  }

  /** While armed, the bridge is the demultiplexer feeding the receiver. */
  lemma {:induction false} ArmedIsPipeline(b: Bridge, chunks: seq<seq<byte>>)
    requires b.active && !b.resetPending && Held(b.held)
    ensures var t := Demux.FeedAll(b.pending, chunks, MAX_LINE);
            var o := ParseAll(b.session, b.held, t.passed, true);
            HandleAll(b, ChunkEvents(chunks)) ==
              (b.(pending := t.pending, replies := b.replies + t.lines, session := o.session, held := o.rest), o.frames)
    decreases |chunks|
  {
    hide Parse, Held, Demux.FeedOnce, Demux.FeedAll, ParseAll;
    Demux.FeedAllStep(b.pending, chunks, MAX_LINE);
    ParseAllStep(b.session, b.held, Demux.FeedAll(b.pending, chunks, MAX_LINE).passed);
    if chunks == [] {
      assert b.replies + [] == b.replies;
    } else {
      var f := Demux.FeedOnce(b.pending, chunks[0], MAX_LINE);
      var (b1, frames) := HandleChunk(b, chunks[0]);
      assert ChunkEvents(chunks)[1..] == ChunkEvents(chunks[1..]);
      RestHeld(b.session, b.held + f.passed, true);
      NothingParsed(b.session, b.held);
      ArmedIsPipeline(b1, chunks[1..]);
      var t := Demux.FeedAll(f.pending, chunks[1..], MAX_LINE);
      assert ([f.passed] + t.passed)[1..] == t.passed;
      Assoc(b.replies, f.lines, t.lines);
    }
  }

  lemma ParseAllStep(s: Session, held: seq<byte>, chunks: seq<seq<byte>>)
    ensures ParseAll(s, held, chunks, true) ==
            if chunks == [] then Outcome(s, [], held) else
              var o := Parse(s, held + chunks[0], true);
              var o' := ParseAll(o.session, o.rest, chunks[1..], true);
              Outcome(o'.session, o.frames + o'.frames, o'.rest)
  {}

  const NEW := Bridge(false, false, [], [], FRESH, [])

  /**
   * An OTA session on a new connection, for every interleaving of well-formed frames with reply
   * lines of at most 128 bytes and every cutting into chunks: the reply queue holds exactly the
   * lines in order, and exactly the frames were decoded, with nothing discarded.
   */
  lemma SessionSeparates(items: seq<Demux.Item>, chunks: seq<seq<byte>>)
    requires forall i :: 0 <= i < |items| ==> Demux.Proper(items[i], 128)
    requires Flatten(chunks) == Demux.StreamOf(items)
    ensures var (b, frames) := HandleAll(NEW, [StartOta] + ChunkEvents(chunks));
            && b.replies == Demux.RepliesOf(items) && b.pending == []
            && Raws(frames) == Demux.FramesOf(items) && b.held == []
            && b.session.stats == NO_STATS.(frames := |frames|, sequenceGaps := b.session.stats.sequenceGaps)
  {
    hide HandleAll, Held, Demux.FeedAll, ParseAll, Demux.Proper;
    CutNothingHeld();
    ArmedFromNew(chunks);
    ArmedIsPipeline(Handle(NEW, StartOta).0.(resetPending := false), chunks);
    Demux.MixedStreamSeparates(items, chunks, MAX_LINE, true);
    assert [] + Demux.RepliesOf(items) == Demux.RepliesOf(items);
  }

  /** The reset of a freshly armed connection changes nothing but the flag. */
  lemma ArmedFromNew(chunks: seq<seq<byte>>)
    ensures var armed := Handle(NEW, StartOta).0;
            var (b, frames) := HandleAll(NEW, [StartOta] + ChunkEvents(chunks));
            var (c, frames') := HandleAll(armed.(resetPending := false), ChunkEvents(chunks));
            frames == frames' && b.(resetPending := false) == c.(resetPending := false)
  {
    hide Parse, Demux.FeedOnce;
    var events := [StartOta] + ChunkEvents(chunks);
    var armed := Handle(NEW, StartOta).0;
    assert events[1..] == ChunkEvents(chunks);
    assert HandleAll(NEW, events) == var (b, more) := HandleAll(armed, ChunkEvents(chunks)); (b, [] + more);
    if chunks != [] {
      assert HandleChunk(armed, chunks[0]) == HandleChunk(armed.(resetPending := false), chunks[0]);
      var (b1, f1) := HandleChunk(armed, chunks[0]);
      var more := HandleAll(b1, ChunkEvents(chunks)[1..]);
      assert HandleAll(armed, ChunkEvents(chunks)) == (more.0, f1 + more.1);
      assert HandleAll(armed.(resetPending := false), ChunkEvents(chunks)) == (more.0, f1 + more.1);
    }
  }

  lemma CutNothingHeld()
    ensures Held([])
  {
    CutNothing();
  }

  // ---- A run that loses bytes ----

  /** The front and the back of the reply line `+OTA:OK` with its newline. */
  const FRONT: seq<byte> := [0x2B, 0x4F, 0x54]
  const BACK: seq<byte> := [0x41, 0x3A, 0x4F, 0x4B, 0x0A]

  lemma FrontHeld()
    ensures Demux.FeedOnce([], FRONT, MAX_LINE) == Demux.Fed([], [], FRONT)
  {
    assert [] + FRONT == FRONT;
    assert Demux.LineEnd(FRONT, 0) == 3 by {
      assert Demux.LineEnd(FRONT, 3) == 3 && Demux.LineEnd(FRONT, 2) == 3 && Demux.LineEnd(FRONT, 1) == 3;
    }
    Demux.SplitHold(FRONT);
    Demux.NoSegments();
    assert !(FRONT <= MAGIC) by { assert FRONT[0] != MAGIC[0]; }
  }

  lemma BackPassed()
    ensures Demux.FeedOnce([], BACK, MAX_LINE) == Demux.Fed([], BACK, [])
  {
    hide Demux.Split;
    assert [] + BACK == BACK && BACK[..4][0] == BACK[0];
    Demux.LineEndIs(BACK, 0, 4);
    assert Demux.Scan(BACK) == Demux.Take(5, true);
    var line := BACK[..4];
    assert BACK[..5] == BACK && BACK[5..] == [];
    assert !Demux.IsReply(line) by {
      assert Demux.Strip(line) == line;
      assert line[0] != Demux.OTA_PREFIX[0];
    }
    Demux.SplitStep(BACK);
    Demux.SplitHold([]);
    Demux.PassedCons(Demux.Text(BACK), []);
    Demux.NoSegments();
    assert BACK + [] == BACK;
  }

  /**
   * A session that arms while half of a reply line is held loses that half, and with it the reply;
   * had it stayed armed, the reply would have been queued.
   */
  lemma ArmingLosesReply()
    ensures var b := HandleAll(NEW, [StartOta, Chunk(FRONT), EndOta, StartOta]).0;
            && Losses(b, [Chunk(BACK)]) == [FRONT] && HandleChunk(b, BACK).0.replies == []
    ensures HandleAll(NEW, [StartOta] + ChunkEvents([FRONT, BACK])).0.replies == [FRONT + BACK[..4]]
  {
    hide Parse, Demux.FeedOnce, HandleAll;
    Rearmed();
    BackPassed();
    KeptArmed();
    assert [Chunk(BACK)][1..] == [];
  }

  lemma Rearmed()
    ensures var b := HandleAll(NEW, [StartOta, Chunk(FRONT), EndOta, StartOta]).0;
            b.active && b.resetPending && b.pending == FRONT
  {
    hide Parse, Demux.FeedOnce, HandleAll;
    FrontHeld();
    HandleAllStep(NEW, [StartOta, Chunk(FRONT), EndOta, StartOta]);
    var armed := Handle(NEW, StartOta).0;
    HandleAllStep(armed, [Chunk(FRONT), EndOta, StartOta]);
    var held := Handle(armed, Chunk(FRONT)).0;
    assert held.pending == FRONT;
    HandleAllStep(held, [EndOta, StartOta]);
    HandleAllStep(Handle(held, EndOta).0, [StartOta]);
    HandleAllStep(Handle(Handle(held, EndOta).0, StartOta).0, []);
  }

  lemma KeptArmed()
    ensures HandleAll(NEW, [StartOta] + ChunkEvents([FRONT, BACK])).0.replies == [FRONT + BACK[..4]]
  {
    hide HandleAll;
    var r := FRONT + BACK;
    assert r[..7] == FRONT + BACK[..4] && r[..7][..5] == Demux.OTA_PREFIX;
    assert Demux.Strip(r[..7]) == r[..7];
    Demux.OneReply(r);
    FlattenPair(FRONT, BACK);
    SessionSeparates([Demux.Reply(r)], [FRONT, BACK]);
  }

  lemma HandleAllStep(b: Bridge, events: seq<Event>)
    ensures HandleAll(b, events).0 == if events == [] then b else HandleAll(Handle(b, events[0]).0, events[1..]).0
  {
    hide Handle;
  }

  // ---- The controller object ----

  class AcquisitionBridge {
    var otaActive: bool
    var otaResetPending: bool
    var otaReplies: seq<seq<byte>>
    const demux: Demux.StreamDemultiplexer
    const parser: StreamParser

    ghost predicate Valid()
      reads this, demux, parser, parser.iisTime
    {
      demux.maxLine == MAX_LINE && parser.decodeSensorPayload && Held(parser.buffer)
    }

    function State(): Bridge
      reads this, demux, parser, parser.iisTime
    {
      Bridge(otaActive, otaResetPending, demux.pending, otaReplies, parser.State(), parser.buffer)
    }

    constructor ()
      ensures Valid() && fresh(demux) && fresh(parser) && fresh(parser.iisTime)
      ensures State() == Bridge(false, false, [], [], FRESH, [])
    {
      otaActive, otaResetPending, otaReplies := false, false, [];
      demux := new Demux.StreamDemultiplexer(MAX_LINE);
      parser := new StreamParser(true);
      new;
      CutNothing();
    }

    method StartOta()
      requires Valid()
      modifies this
      ensures Valid() && State() == Handle(old(State()), Event.StartOta).0
    {
      otaResetPending := true;
      otaActive := true;
    }

    method EndOta()
      requires Valid()
      modifies this
      ensures Valid() && State() == Handle(old(State()), Event.EndOta).0
    {
      otaActive := false;
      otaResetPending := false;
    }

    method NextOtaReply() returns (reply: Option<seq<byte>>)
      requires Valid()
      modifies this
      ensures Valid() && State() == Handle(old(State()), TakeReply).0
      ensures reply == if old(otaReplies) == [] then None else Some(old(otaReplies)[0])
    {
      if otaReplies == [] {
        return None;
      }
      reply := Some(otaReplies[0]);
      otaReplies := otaReplies[1..];
    }

    method ParseChunk(chunk: seq<byte>) returns (frames: seq<Frame>)
      requires Valid()
      modifies this, demux, parser, parser.iisTime
      ensures Valid() && parser.iisTime == old(parser.iisTime)
      ensures (State(), frames) == Handle(old(State()), Chunk(chunk))
    {
      hide Parse, Held, Demux.FeedOnce;
      if otaActive {
        if otaResetPending {
          demux.Reset();
          otaReplies := [];
          otaResetPending := false;
        }
        var lines, parserBytes := demux.Feed(chunk);
        otaReplies := otaReplies + lines;
        if parserBytes == [] {
          return [];
        }
        frames := parser.Feed(parserBytes);
        return;
      }
      if |demux.pending| > 0 {
        var residue := demux.Flush();
        frames := parser.Feed(residue + chunk);
        return;
      }
      frames := parser.Feed(chunk);
    }
  }
}
