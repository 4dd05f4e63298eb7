/** The receiver's rules in the terms of the wire format alone: positions, sizes and codes. */
module Sdf1Wire {
  import opened Bytes
  import opened Arrays
  import opened Sdf1
  import Crc32
  import IisClock

  predicate SoundHeader(version: nat, headerSize: nat) {
    28 <= headerSize <= 256 && (version == 1 ==> headerSize == 28) && (version == 2 ==> headerSize == 44)
  }

  /** What the front of a buffer is, from its bytes. */
  lemma FrontJudged(b: seq<byte>)
    ensures |b| < 4 ==> Judge(b).NeedMore?
    ensures |b| >= 4 && b[..4] != [0x53, 0x44, 0x46, 0x31] ==> Judge(b) == Reject(NoMagic)
    ensures 4 <= |b| < 28 && b[..4] == [0x53, 0x44, 0x46, 0x31] ==> Judge(b).NeedMore?
    ensures |b| >= 28 && b[..4] == [0x53, 0x44, 0x46, 0x31] ==>
              var size := Le(b[8..10]) + Le(b[10..12]) + 4;
              Judge(b) ==
                if !SoundHeader(b[4], Le(b[8..10])) then Reject(BadHeader)
                else if Le(b[10..12]) > 3577 then Reject(BadLength)
                else if |b| < size then NeedMore
                else if Le(b[size - 4..size]) != Crc32.Crc(b[..size - 4]) then Reject(BadCrc)
                else Sdf1.Accept(size)
  {
    hide Le, Crc32.Crc;
    if |b| >= 28 {
      var size := Le(b[8..10]) + Le(b[10..12]) + 4;
      if size <= |b| {
        assert b[..size][size - 4..] == b[size - 4..size] && b[..size][..size - 4] == b[..size - 4];
      }
    }
  }

  /** A sealed candidate of sound size. */
  predicate Candidate(f: seq<byte>) {
    && |f| >= 32 && f[..4] == [0x53, 0x44, 0x46, 0x31]
    && SoundHeader(f[4], Le(f[8..10])) && Le(f[10..12]) <= 3577
    && |f| == Le(f[8..10]) + Le(f[10..12]) + 4
    && Le(f[|f| - 4..]) == Crc32.Crc(f[..|f| - 4])
  }

  /** Payload size and item count of a message type. */
  predicate ExactSize(messageType: nat, size: nat, items: nat) {
    && (messageType == 1 ==> size == 7 * items)
    && (messageType == 2 ==> size == 14 && items == 1)
    && (messageType == 3 ==> size == 64 && items == 1)
  }

  /** One of the four types in a permitted version with its exact size. */
  predicate Deliverable(f: seq<byte>)
    requires |f| >= 32
  {
    && ((f[4] == 1 && 1 <= f[5] <= 4) || (f[4] == 2 && 1 <= f[5] <= 2))
    && ExactSize(f[5], Le(f[10..12]), Le(f[24..26]))
  }

  predicate Named(t: MessageType, code: nat) {
    && (code == 1 <==> t.Iis3dwbFifo?) && (code == 2 <==> t.Jy61plSample?)
    && (code == 3 <==> t.Status?) && (code == 4 <==> t.CliResponse?)
  }

  /** The counters after a candidate that is not delivered: exactly the one of the failing rule rises. */
  function Refused(st: Stats, f: seq<byte>): Stats
    requires |f| >= 32
  {
    if f[4] != 1 && f[4] != 2 then st.(unknownVersions := st.unknownVersions + 1)
    else if f[5] < 1 || f[5] > 4 then st.(unknownTypes := st.unknownTypes + 1)
    else if f[4] == 2 && f[5] > 2 then st.(headerErrors := st.headerErrors + 1)
    else st.(payloadErrors := st.payloadErrors + 1)
  }

  /** The frame of a delivered candidate, field by field from its bytes. */
  predicate Carries(fr: Frame, f: seq<byte>)
    requires Candidate(f)
  {
    && Named(fr.messageType, f[5])
    && fr.flags == Le(f[6..8]) && fr.sequence == Le(f[12..16]) && fr.timestampUs == Le(f[16..24])
    && fr.itemCount == Le(f[24..26]) && fr.payload == f[Le(f[8..10])..|f| - 4] && fr.raw == f
    && fr.uuid == if f[4] == 2 then Some(f[28..44]) else None
  }

  lemma CandidateTaken(f: seq<byte>)
    requires Candidate(f)
    ensures Sized(f) && Cut(f) == Cutting([Whole(f)], [])
  {
    hide Le, Crc32.Crc;
    FrontJudged(f);
    assert f[..|f|] == f && f[|f| - 4..|f|] == f[|f| - 4..];
    assert Judge(f) == Sdf1.Accept(|f|);
    JudgeSized(f);
    hide Judge, Sized;
    CutStart(f);
  }

  lemma CutStart(f: seq<byte>)
    requires Judge(f) == Sdf1.Accept(|f|)
    ensures Cut(f) == Cutting([Whole(f)], [])
  {
    hide Judge;
    CutNothing();
    assert f[|f|..] == [] && f[..|f|] == f && [Whole(f)] + [] == [Whole(f)];
  }

  /** Feeding a lone candidate is delivering it. */
  lemma CandidateParsed(s: Session, f: seq<byte>, decode: bool)
    requires Candidate(f)
    ensures Sized(f)
    ensures Parse(s, f, decode) == var (s', frames) := Deliver(s, f, decode); Outcome(s', frames, [])
  {
    hide Cut, Deliver, Sized;
    CandidateTaken(f);
    var d := Deliver(s, f, decode);
    assert [Whole(f)][1..] == [];
    assert Digest(d.0, [], decode) == Result(d.0, []);
    assert d.1 + [] == d.1;
  }

  /** What the content rules make of a candidate. */
  lemma ContentFromBytes(f: seq<byte>)
    requires Candidate(f)
    ensures var c := ContentOf(ReadHeader(f));
            && (c.Good? <==> Deliverable(f)) && (c.Good? ==> Named(c.t, f[5]))
            && (c.UnknownVersion? <==> f[4] != 1 && f[4] != 2)
            && (c.UnknownType? <==> !c.UnknownVersion? && (f[5] < 1 || f[5] > 4))
            && (c.WrongHeader? <==> f[4] == 2 && 3 <= f[5] <= 4)
  {
    hide Le, Crc32.Crc;
  }

  /** A frame is well formed if and only if it is a sealed candidate of sound size that is delivered. */
  lemma WellFormedIff(f: seq<byte>)
    ensures WellFormed(f) <==> Candidate(f) && Deliverable(f)
  {
    hide Le, Crc32.Crc, ContentOf, Deliverable;
    if Candidate(f) { ContentFromBytes(f); }
    if WellFormed(f) {
      assert Candidate(f);
    }
  }

  /**
   * For every sealed candidate of sound size: it is delivered if and only if it is one of the four
   * types in a permitted version with its exact size, and then carries its bytes field by field;
   * otherwise exactly the counter of the failing rule rises and nothing else changes.
   */
  lemma DeliveredIff(s: Session, f: seq<byte>, decode: bool)
    requires Candidate(f)
    ensures var o := Parse(s, f, decode);
            && o.rest == []
            && (Deliverable(f) ==> |o.frames| == 1 && Carries(o.frames[0], f))
            && (!Deliverable(f) ==> o.frames == [] && o.session == s.(stats := Refused(s.stats, f)))
  {
    CandidateParsed(s, f, decode);
    ContentFromBytes(f);
    hide Le, Crc32.Crc, Parse, IisClock.Process, RecordSequence, ContentOf, Deliverable;
    assert ReadHeader(f).headerSize == Le(f[8..10]);
  }

  /** Missing numbers ahead of `sequence`, modulo 2^32; half the circle or more is no gap. */
  function Missing(last: Option<nat>, sequence: nat): nat {
    if last.None? then 0 else
      var gap := (sequence - last.value - 1) % 0x1_0000_0000;
      if gap < 0x8000_0000 then gap else 0
  }

  lemma SequenceNoted(s: Session, sequence: nat)
    ensures RecordSequence(s, sequence) ==
            s.(lastSequence := Some(sequence),
               stats := s.stats.(sequenceGaps := s.stats.sequenceGaps + Missing(s.lastSequence, sequence)))
  {
    if s.lastSequence.Some? { Modular(sequence, s.lastSequence.value); }
  }

  /**
   * What a delivered candidate does to the session: one more frame; the sequence number is noted and
   * its gap counted, modulo 2^32, for the two sensor types only; the clock moves only for decoded
   * FIFO payloads.
   */
  lemma DeliveredSession(s: Session, f: seq<byte>, decode: bool)
    requires Candidate(f) && Deliverable(f)
    ensures var o := Parse(s, f, decode);
            var sequence, payload := Le(f[12..16]), f[Le(f[8..10])..|f| - 4];
            && o.session.lastSequence == (if f[5] <= 2 then Some(sequence) else s.lastSequence)
            && o.session.stats ==
                 s.stats.(frames := s.stats.frames + 1,
                          sequenceGaps := s.stats.sequenceGaps + if f[5] <= 2 then Missing(s.lastSequence, sequence) else 0)
            && |o.frames| == 1
            && (if f[5] == 1 && decode then
                  (o.session.clock, o.frames[0].iis) ==
                    var r := IisClock.Process(s.clock, payload, Le(f[16..24])); (r.0, Some(r.1))
                else o.session.clock == s.clock && o.frames[0].iis == None)
  {
    hide *;
    CandidateParsed(s, f, decode);
    ContentFromBytes(f);
    HeaderFromBytes(f);
    GoodDelivered(s, f, ContentOf(ReadHeader(f)).t, decode);
    TypeNamed(ContentOf(ReadHeader(f)).t, f[5]);
  }

  lemma TypeNamed(t: MessageType, code: nat)
    requires Named(t, code) && 1 <= code <= 4
    ensures (t.Iis3dwbFifo? <==> code == 1) && (IsSensor(t) <==> code <= 2)
  {}

  lemma HeaderFromBytes(f: seq<byte>)
    requires Candidate(f)
    ensures |f| >= 32 && |f| >= HEADER_SIZE && Le(f[8..10]) <= |f| - 4
    ensures var h := ReadHeader(f);
            h.headerSize == Le(f[8..10]) && h.sequence == Le(f[12..16]) && h.timestampUs == Le(f[16..24])
    ensures Deliverable(f) ==> 1 <= f[5] <= 4
  {
    hide Le, Crc32.Crc;
  }

  lemma GoodDelivered(s: Session, f: seq<byte>, t: MessageType, decode: bool)
    requires Sized(f) && ContentOf(ReadHeader(f)) == Good(t)
    ensures var h := ReadHeader(f);
            && h.headerSize <= |f| - 4
            && var r := IisClock.Process(s.clock, f[h.headerSize..|f| - 4], h.timestampUs);
               var (s', frames) := Deliver(s, f, decode);
               && s'.lastSequence == (if IsSensor(t) then Some(h.sequence) else s.lastSequence)
               && s'.stats ==
                    s.stats.(frames := s.stats.frames + 1,
                             sequenceGaps := s.stats.sequenceGaps + if IsSensor(t) then Missing(s.lastSequence, h.sequence) else 0)
               && |frames| == 1
               && s'.clock == (if t.Iis3dwbFifo? && decode then r.0 else s.clock)
               && frames[0].iis == (if t.Iis3dwbFifo? && decode then Some(r.1) else None)
  {
    hide ReadHeader, IisClock.Process, ContentOf, RecordSequence, Missing;
    var h := ReadHeader(f);
    var r := IisClock.Process(s.clock, f[h.headerSize..|f| - 4], h.timestampUs);
    SequenceNoted(s.(clock := r.0), h.sequence);
    SequenceNoted(s, h.sequence);
  }

  lemma Modular(a: nat, b: nat)
    ensures (a - (b + 1) % 0x1_0000_0000) % 0x1_0000_0000 == (a - b - 1) % 0x1_0000_0000
  {
    var q := (b + 1) / 0x1_0000_0000;
    assert a - (b + 1) % 0x1_0000_0000 == (a - b - 1) + q * 0x1_0000_0000;
  }
}
