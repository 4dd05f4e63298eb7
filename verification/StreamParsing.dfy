/** The stateful receiver: a cursor over a growing buffer, and the sample clock it owns. */
module StreamParsing {
  import opened Bytes
  import opened Arrays
  import opened Sdf1
  import Crc32
  import IisClock

  class IisTimestampReconstructor {
    var lastTicks: Option<nat>
    var tickEpoch: nat
    var carry: Option<int>

    function State(): IisClock.Clock
      reads this
    {
      IisClock.Clock(lastTicks, tickEpoch, carry)
    }

    constructor ()
      ensures State() == IisClock.FRESH
    {
      lastTicks, tickEpoch, carry := None, 0, None;
    }

    /** Notice a wrap of the 32-bit counter. */
    method ExtendTick(value: nat)
      modifies this
      ensures State() == IisClock.ExtendOne(old(State()), value)
    {
      if lastTicks.Some? && value < lastTicks.value && lastTicks.value - value > 0x8000_0000 {
        tickEpoch := tickEpoch + IisClock.U32;
      }
      lastTicks := Some(value);
    }

    method ExtendTicks(ticks: seq<nat>) returns (extended: seq<int>)
      modifies this
      ensures extended == IisClock.Extended(old(State()), ticks)
      ensures State() == IisClock.ExtendAll(old(State()), ticks)
    {
      hide IisClock.ExtendAll, IisClock.Extended, IisClock.ExtendOne;
      extended := [];
      var index := 0;
      assert ticks[0..] == ticks;
      while index < |ticks|
        invariant index <= |ticks|
        invariant IisClock.Extended(old(State()), ticks) == extended + IisClock.Extended(State(), ticks[index..])
        invariant IisClock.ExtendAll(old(State()), ticks) == IisClock.ExtendAll(State(), ticks[index..])
      {
        var value := ticks[index];
        assert ticks[index..][1..] == ticks[index + 1..];
        IisClock.ExtendStep(State(), ticks[index..]);
        ExtendTick(value);
        Assoc(extended, [tickEpoch + value], IisClock.Extended(State(), ticks[index + 1..]));
        extended := extended + [tickEpoch + value];
        index := index + 1;
      }
      IisClock.ExtendNothing(State());
    }

    method ProcessPayload(payload: seq<byte>, timestampUs: nat) returns (samples: seq<IisClock.Sample>)
      requires |payload| % IisClock.WORD_SIZE == 0
      modifies this
      ensures (State(), samples) == IisClock.Process(old(State()), payload, timestampUs)
    {
      hide IisClock.Where, IisClock.Tags, IisClock.ArrayTimes, IisClock.TicksOf, IisClock.RawOf,
           IisClock.Extended, IisClock.ExtendAll;
      var tags := IisClock.Tags(payload);
      var accel, ts := IisClock.Where(tags, IisClock.ACCEL), IisClock.Where(tags, IisClock.TIMESTAMP);
      if accel == [] {
        return [];
      }
      var ticks := IisClock.TicksOf(payload, ts);
      var extended := ExtendTicks(ticks);
      var times := IisClock.ArrayTimes(carry, tags, extended, 2 * timestampUs);
      samples := seq(|accel|, i requires 0 <= i < |accel| => IisClock.Sample(times[i], IisClock.RawOf(payload, accel[i])));
      IisClock.ExtendKeepsCarry(old(State()), ticks);
      carry := Some(times[|times| - 1] + IisClock.PERIOD);
    }
  }

  /** The first position of the magic at or after `pos`. */
  function Find(b: seq<byte>, pos: nat): (r: Option<nat>)
    requires pos <= |b|
    ensures r.Some? ==> pos <= r.value && r.value + 4 <= |b|
    decreases |b| - pos
  {
    if pos + 4 > |b| then None
    else if b[pos..pos + 4] == MAGIC then Some(pos)
    else Find(b, pos + 1)
  }

  // ---- One step of the receiver ----

  lemma ParseHeld(s: Session, b: seq<byte>, decode: bool)
    requires Judge(b).NeedMore?
    ensures Parse(s, b, decode) == Outcome(s, [], b)
  {
    hide Judge;
  }

  lemma ParseReject(s: Session, b: seq<byte>, decode: bool)
    requires Judge(b).Reject?
    ensures Parse(s, b, decode) == Parse(s.(stats := Discard(s.stats, Judge(b).cause)), b[1..], decode)
  {
    hide Judge, Discard, Deliver, SoundPieces;
    CutSound(b);
    CutSound(b[1..]);
    assert Cut(b).pieces[1..] == Cut(b[1..]).pieces;
  }

  lemma ParseAccept(s: Session, b: seq<byte>, decode: bool)
    requires Judge(b).Accept?
    ensures var n := Judge(b).size;
            && Sized(b[..n])
            && var d := Deliver(s, b[..n], decode);
               var o := Parse(d.0, b[n..], decode);
               Parse(s, b, decode) == Outcome(o.session, d.1 + o.frames, o.rest)
  {
    hide Judge, Deliver, SoundPieces, Sized;
    var n := Judge(b).size;
    JudgeSized(b);
    CutSound(b);
    CutSound(b[n..]);
    assert Cut(b).pieces[1..] == Cut(b[n..]).pieces;
  }

  function Skipped(s: Session, n: nat): Session {
    s.(stats := s.stats.(bytesDiscarded := s.stats.bytesDiscarded + n))
  }

  /** What the search for the magic leaves of a buffer without one. */
  function Kept(total: nat, pos: nat): (keep: nat)
    requires pos <= total
    ensures pos <= keep <= total
  {
    if total - 3 > pos then total - 3 else pos
  }

  /** Searching for the magic discards in one stride what the receiver discards byte by byte. */
  lemma {:induction false} FindParses(s: Session, view: seq<byte>, pos: nat, decode: bool)
    requires pos <= |view|
    ensures var at := Find(view, pos);
            var o := Parse(s, view[pos..], decode);
            if at.Some? then
              && view[at.value..][..4] == MAGIC
              && o == Parse(Skipped(s, at.value - pos), view[at.value..], decode)
            else
              var keep := Kept(|view|, pos);
              o == Outcome(Skipped(s, keep - pos), [], view[keep..])
    decreases |view| - pos
  {
    hide Parse;
    var b := view[pos..];
    if pos + 4 > |view| {
      ParseHeld(s, b, decode);
    } else {
      assert b[..4] == view[pos..pos + 4];
      if b[..4] != MAGIC {
        assert Judge(b) == Reject(NoMagic);
        ParseReject(s, b, decode);
        assert b[1..] == view[pos + 1..];
        FindParses(Skipped(s, 1), view, pos + 1, decode);
      }
    }
  }

  class StreamParser {
    var stats: Stats
    var buffer: seq<byte>
    var lastSequence: Option<nat>
    var iisTime: IisTimestampReconstructor
    const decodeSensorPayload: bool

    function State(): Session
      reads this, iisTime
    {
      Session(stats, lastSequence, iisTime.State())
    }

    constructor (decodeSensorPayload: bool)
      ensures State() == FRESH && buffer == [] && fresh(iisTime)
      ensures stats == Stats(0, 0, 0, 0, 0, 0, 0, 0, 0) && lastSequence.None?
      ensures iisTime.lastTicks.None? && iisTime.tickEpoch == 0 && iisTime.carry.None?
      ensures this.decodeSensorPayload == decodeSensorPayload
    {
      stats, buffer, lastSequence := NO_STATS, [], None;
      this.decodeSensorPayload := decodeSensorPayload;
      iisTime := new IisTimestampReconstructor();
    }

    method ResetSession()
      modifies this
      ensures State() == FRESH && buffer == [] && fresh(iisTime)
      ensures stats == Stats(0, 0, 0, 0, 0, 0, 0, 0, 0) && lastSequence.None?
      ensures iisTime.lastTicks.None? && iisTime.tickEpoch == 0 && iisTime.carry.None?
    {
      stats, buffer, lastSequence := NO_STATS, [], None;
      iisTime := new IisTimestampReconstructor();
    }

    method NoteSequence(sequence: nat)
      modifies `stats, `lastSequence
      ensures State() == RecordSequence(old(State()), sequence)
    {
      if lastSequence.Some? {
        var expected := (lastSequence.value + 1) % 0x1_0000_0000;
        var gap := (sequence - expected) % 0x1_0000_0000;
        if gap < 0x8000_0000 {
          stats := stats.(sequenceGaps := stats.sequenceGaps + gap);
        }
      }
      lastSequence := Some(sequence);
    }

    /** Interpret one CRC-valid candidate. */
    method Accept(candidate: seq<byte>) returns (frames: seq<Frame>)
      requires Sized(candidate)
      modifies `stats, `lastSequence, iisTime
      ensures (State(), frames) == Deliver(old(State()), candidate, decodeSensorPayload)
    {
      hide IisClock.Process, ReadHeader, RecordSequence;
      var h := ReadHeader(candidate);
      if h.version != 1 && h.version != 2 {
        stats := stats.(unknownVersions := stats.unknownVersions + 1);
        return [];
      }
      var t := TypeOf(h.messageType);
      if t.None? {
        stats := stats.(unknownTypes := stats.unknownTypes + 1);
        return [];
      }
      if h.version == 2 && !IsSensor(t.value) {
        stats := stats.(headerErrors := stats.headerErrors + 1);
        return [];
      }
      if !PayloadFits(t.value, h.payloadSize, h.itemCount) {
        stats := stats.(payloadErrors := stats.payloadErrors + 1);
        return [];
      }
      var iis: Option<seq<IisClock.Sample>> := None;
      if t.value.Iis3dwbFifo? && decodeSensorPayload {
        var samples := iisTime.ProcessPayload(candidate[h.headerSize..|candidate| - CRC_SIZE], h.timestampUs);
        iis := Some(samples);
      }
      if IsSensor(t.value) {
        NoteSequence(h.sequence);
      }
      frames := [DecodeWhole(candidate, t.value, iis)];
      stats := stats.(frames := stats.frames + 1);
    }

    /** The header rules; a violation is counted and named. */
    method CheckHeader(h: Header) returns (cause: Option<Cause>)
      modifies `stats
      ensures var v := HeaderVerdict(h);
              if v.Reject? then cause == Some(v.cause) else v.Accept? && cause.None?
      ensures State() == if cause.None? then old(State()) else
                old(State()).(stats := Discard(old(stats), cause.value).(bytesDiscarded := old(stats.bytesDiscarded)))
    {
      cause := None;
      if h.headerSize < HEADER_SIZE || h.headerSize > MAX_HEADER_SIZE {
        cause := Some(BadHeader);
        stats := stats.(headerErrors := stats.headerErrors + 1);
      } else if h.version == 1 && h.headerSize != HEADER_SIZE {
        cause := Some(BadHeader);
        stats := stats.(headerErrors := stats.headerErrors + 1);
      } else if h.version == 2 && h.headerSize != DATA_HEADER_SIZE {
        cause := Some(BadHeader);
        stats := stats.(headerErrors := stats.headerErrors + 1);
      } else if h.payloadSize > MAX_PAYLOAD_SIZE {
        cause := Some(BadLength);
        stats := stats.(lengthErrors := stats.lengthErrors + 1);
      }
    }

    /** One candidate at the magic: wait, drop its first byte, or take it whole. */
    method Candidate(view: seq<byte>, pos: nat) returns (next: nat, frames: seq<Frame>)
      requires pos + 4 <= |view| && view[pos..][..4] == MAGIC
      modifies `stats, `lastSequence, iisTime
      ensures pos <= next <= |view|
      ensures var b, s := view[pos..], old(State());
              if next == pos then
                Judge(b).NeedMore? && State() == s && frames == []
              else
                Parse(s, b, decodeSensorPayload) ==
                  var o := Parse(State(), view[next..], decodeSensorPayload);
                  Outcome(o.session, frames + o.frames, o.rest)
    {
      hide Parse, Judge, Deliver, Crc32.Sealed, ReadHeader, Discard, HeaderVerdict;
      ghost var b, s := view[pos..], State();
      next, frames := pos, [];
      if |view| - pos < HEADER_SIZE {
        JudgeShort(b);
        return;
      }
      JudgeHeader(b);
      var h := ReadHeader(view[pos..]);
      var cause := CheckHeader(h);
      if cause.Some? {
        next := pos + 1;
        stats := stats.(bytesDiscarded := stats.bytesDiscarded + 1);
        DiscardOnce(s, cause.value);
        ParseReject(s, b, decodeSensorPayload);
        assert b[1..] == view[next..];
        return;
      }
      var frameSize := h.headerSize + h.payloadSize + CRC_SIZE;
      if |view| - pos < frameSize {
        return;
      }
      var candidate := view[pos..pos + frameSize];
      assert candidate == b[..frameSize];
      if !Crc32.Sealed(candidate) {
        next := pos + 1;
        stats := stats.(crcErrors := stats.crcErrors + 1, bytesDiscarded := stats.bytesDiscarded + 1);
        DiscardOnce(s, BadCrc);
        ParseReject(s, b, decodeSensorPayload);
        assert b[1..] == view[next..];
        return;
      }
      ParseAccept(s, b, decodeSensorPayload);
      next := pos + frameSize;
      assert b[frameSize..] == view[next..];
      frames := Accept(candidate);
    }

    /** Parse complete frames, advancing a cursor and compacting once. */
    method Feed(data: seq<byte>) returns (frames: seq<Frame>)
      modifies this, iisTime
      ensures iisTime == old(iisTime)
      ensures Outcome(State(), frames, buffer) == Parse(old(State()), old(buffer) + data, decodeSensorPayload)
      ensures Held(buffer)
    {
      hide Parse, Judge, Held, Find;
      RestHeld(old(State()), buffer + data, decodeSensorPayload);
      buffer := buffer + data;
      frames := [];
      var view, pos := buffer, 0;
      assert view[0..] == view;
      while true
        invariant pos <= |view| && buffer == view && iisTime == old(iisTime)
        invariant Parse(old(State()), view, decodeSensorPayload) ==
                  var o := Parse(State(), view[pos..], decodeSensorPayload);
                  Outcome(o.session, frames + o.frames, o.rest)
        decreases |view| - pos
      {
        var at := Find(view, pos);
        FindParses(State(), view, pos, decodeSensorPayload);
        if at.None? {
          var keep := Kept(|view|, pos);
          stats := stats.(bytesDiscarded := stats.bytesDiscarded + (keep - pos));
          pos := keep;
          assert frames + [] == frames;
          break;
        }
        stats := stats.(bytesDiscarded := stats.bytesDiscarded + (at.value - pos));
        pos := at.value;
        ghost var s := State();
        var next, delivered := Candidate(view, pos);
        if next == pos {
          ParseHeld(s, view[pos..], decodeSensorPayload);
          assert frames + [] == frames;
          break;
        }
        ghost var o := Parse(State(), view[next..], decodeSensorPayload);
        Assoc(frames, delivered, o.frames);
        pos, frames := next, frames + delivered;
      }
      buffer := buffer[pos..];
    }
  }

  lemma DiscardOnce(s: Session, cause: Cause)
    ensures Discard(s.stats, cause).bytesDiscarded == s.stats.bytesDiscarded + 1
    ensures Discard(s.stats, BadCrc)
            == s.stats.(crcErrors := s.stats.crcErrors + 1, bytesDiscarded := s.stats.bytesDiscarded + 1)
  {}

  lemma JudgeShort(b: seq<byte>)
    requires 4 <= |b| < HEADER_SIZE && b[..4] == MAGIC
    ensures Judge(b).NeedMore?
  {}

  lemma JudgeHeader(b: seq<byte>)
    requires |b| >= HEADER_SIZE && b[..4] == MAGIC
    ensures var v := HeaderVerdict(ReadHeader(b));
            Judge(b) == if v.Reject? then v
                        else if |b| < v.size then NeedMore
                        else if !Crc32.Sealed(b[..v.size]) then Reject(BadCrc)
                        else v
  {}
}
