/** The SDF1 wire format and what a receiver makes of a byte stream. */
module Sdf1 {
  import opened Bytes
  import opened Arrays
  import Crc32
  import IisClock

  const MAGIC: seq<byte> := [0x53, 0x44, 0x46, 0x31]
  const HEADER_SIZE := 28
  const DATA_HEADER_SIZE := 44
  const MAX_HEADER_SIZE := 256
  const CRC_SIZE := 4
  const MAX_PAYLOAD_SIZE := 3577
  const MAX_FRAME_SIZE := 3837

  datatype MessageType = Iis3dwbFifo | Jy61plSample | Status | CliResponse

  datatype Header = Header(version: nat, messageType: nat, flags: nat, headerSize: nat, payloadSize: nat,
                           sequence: nat, timestampUs: nat, itemCount: nat, reserved: nat)

  /** The little-endian field of `n` bytes at `off`. */
  function Field(b: seq<byte>, off: nat, n: nat): nat
    requires off + n <= |b|
  {
    Le(b[off..off + n])
  }

  function ReadHeader(b: seq<byte>): Header
    requires |b| >= HEADER_SIZE
  {
    Header(b[4], b[5], Field(b, 6, 2), Field(b, 8, 2), Field(b, 10, 2),
           Field(b, 12, 4), Field(b, 16, 8), Field(b, 24, 2), Field(b, 26, 2))
  }

  function TypeOf(v: nat): Option<MessageType> {
    match v
    case 1 => Some(Iis3dwbFifo)
    case 2 => Some(Jy61plSample)
    case 3 => Some(Status)
    case 4 => Some(CliResponse)
    case _ => None
  }

  // ---- Cutting a stream into pieces ----

  datatype Cause = NoMagic | BadHeader | BadLength | BadCrc

  /** What the front of a buffer is. */
  datatype Verdict = NeedMore | Reject(cause: Cause) | Accept(size: nat)

  /** The size rules, from the fixed part of the header. */
  function HeaderVerdict(h: Header): (v: Verdict)
    ensures v.Accept? ==> 32 <= v.size <= MAX_FRAME_SIZE && v.size == h.headerSize + h.payloadSize + CRC_SIZE
  {
    if h.headerSize < HEADER_SIZE || h.headerSize > MAX_HEADER_SIZE then Reject(BadHeader)
    else if h.version == 1 && h.headerSize != HEADER_SIZE then Reject(BadHeader)
    else if h.version == 2 && h.headerSize != DATA_HEADER_SIZE then Reject(BadHeader)
    else if h.payloadSize > MAX_PAYLOAD_SIZE then Reject(BadLength)
    else Accept(h.headerSize + h.payloadSize + CRC_SIZE)
  }

  function Judge(b: seq<byte>): (v: Verdict)
    ensures v.Accept? ==> 32 <= v.size <= |b|
    ensures v.Reject? ==> b != []
    ensures v.NeedMore? ==> |b| < MAX_FRAME_SIZE
  {
    if |b| < 4 then NeedMore
    else if b[..4] != MAGIC then Reject(NoMagic)
    else if |b| < HEADER_SIZE then NeedMore
    else
      var v := HeaderVerdict(ReadHeader(b));
      if v.Reject? then v
      else if |b| < v.size then NeedMore
      else if !Crc32.Sealed(b[..v.size]) then Reject(BadCrc)
      else v
  }

  datatype Piece = Junk(b: byte, cause: Cause) | Whole(bytes: seq<byte>)

  function PieceBytes(p: Piece): seq<byte> {
    if p.Junk? then [p.b] else p.bytes
  }

  datatype Cutting = Cutting(pieces: seq<Piece>, rest: seq<byte>)

  /** Byte-at-a-time resynchronisation: drop one byte, take one whole candidate, or stop. */
  function Cut(b: seq<byte>): (c: Cutting)
    decreases |b|
  {
    match Judge(b)
    case NeedMore => Cutting([], b)
    case Reject(cause) =>
      var c := Cut(b[1..]);
      Cutting([Junk(b[0], cause)] + c.pieces, c.rest)
    case Accept(n) =>
      var c := Cut(b[n..]);
      Cutting([Whole(b[..n])] + c.pieces, c.rest)
  }

  function Joined(ps: seq<Piece>): seq<byte> {
    if ps == [] then [] else PieceBytes(ps[0]) + Joined(ps[1..])
  }

  lemma JoinedCons(p: Piece, ps: seq<Piece>)
    ensures Joined([p] + ps) == PieceBytes(p) + Joined(ps)
  {
    assert ([p] + ps)[1..] == ps;
  }

  /** Nothing is lost: the pieces and the rest are the input. */
  lemma {:induction false} CutConserves(b: seq<byte>)
    ensures Joined(Cut(b).pieces) + Cut(b).rest == b
    ensures |Cut(b).rest| < 3837
    decreases |b|
  {
    hide *;
    if Judge(b).NeedMore? {
      CutHeld(b);
      JoinedNothing();
    } else {
      var p, n := CutStep(b);
      var c := Cut(b[n..]);
      CutConserves(b[n..]);
      JoinedCons(p, c.pieces);
      assert Joined([p] + c.pieces) + c.rest == b[..n] + (Joined(c.pieces) + c.rest);
      assert b == b[..n] + b[n..];
    }
  }

  lemma JoinedNothing()
    ensures Joined([]) == []
  {}

  lemma CutHeld(b: seq<byte>)
    requires Judge(b).NeedMore?
    ensures Cut(b) == Cutting([], b) && |b| < 3837
  {}

  lemma CutStep(b: seq<byte>) returns (p: Piece, n: nat)
    requires !Judge(b).NeedMore?
    ensures 1 <= n <= |b| && PieceBytes(p) == b[..n]
    ensures Cut(b) == Cutting([p] + Cut(b[n..]).pieces, Cut(b[n..]).rest)
  {
    hide Judge;
    var v := Judge(b);
    n := if v.Accept? then v.size else 1;
    p := if v.Accept? then Whole(b[..n]) else Junk(b[0], v.cause);
  }

  /** A decided front stays decided when more bytes arrive. */
  lemma JudgeStable(a: seq<byte>, b: seq<byte>)
    requires !Judge(a).NeedMore?
    ensures Judge(a + b) == Judge(a)
  {
    var s := a + b;
    assert s[..4] == a[..4];
    if |a| >= HEADER_SIZE {
      HeaderOfPrefix(a, b);
      var v := HeaderVerdict(ReadHeader(a));
      if v.Accept? && v.size <= |a| { assert s[..v.size] == a[..v.size]; }
    }
  }

  lemma HeaderOfPrefix(a: seq<byte>, b: seq<byte>)
    requires |a| >= HEADER_SIZE
    ensures ReadHeader(a + b) == ReadHeader(a)
  {
    var s := a + b;
    assert s[6..8] == a[6..8] && s[8..10] == a[8..10] && s[10..12] == a[10..12] && s[12..16] == a[12..16];
    assert s[16..24] == a[16..24] && s[24..26] == a[24..26] && s[26..28] == a[26..28];
  }

  /** Cutting a stream is cutting its front, then its rest with what was held. */
  lemma {:induction false} CutConcat(a: seq<byte>, b: seq<byte>)
    ensures Cut(a + b).pieces == Cut(a).pieces + Cut(Cut(a).rest + b).pieces
    ensures Cut(a + b).rest == Cut(Cut(a).rest + b).rest
    decreases |a|
  {
    hide Judge, MAX_FRAME_SIZE;
    var v := Judge(a);
    if !v.NeedMore? {
      var n := if v.Accept? then v.size else 1;
      JudgeStable(a, b);
      assert (a + b)[n..] == a[n..] + b && (a + b)[..n] == a[..n];
      CutConcat(a[n..], b);
    }
  }

  lemma {:induction false} CutRest(b: seq<byte>)
    ensures Cut(Cut(b).rest) == Cutting([], Cut(b).rest)
    decreases |b|
  {
    hide Judge;
    var v := Judge(b);
    if v.Reject? { CutRest(b[1..]); } else if v.Accept? { CutRest(b[v.size..]); }
  }

  // ---- Turning pieces into frames ----

  datatype Stats = Stats(frames: nat, bytesDiscarded: nat, crcErrors: nat, headerErrors: nat, unknownVersions: nat,
                         lengthErrors: nat, unknownTypes: nat, payloadErrors: nat, sequenceGaps: nat)

  const NO_STATS := Stats(0, 0, 0, 0, 0, 0, 0, 0, 0)

  datatype Frame = Frame(messageType: MessageType, flags: nat, sequence: nat, timestampUs: nat, itemCount: nat,
                         payload: seq<byte>, raw: seq<byte>, uuid: Option<seq<byte>>, iis: Option<seq<IisClock.Sample>>)

  datatype Session = Session(stats: Stats, lastSequence: Option<nat>, clock: IisClock.Clock)

  const FRESH := Session(NO_STATS, None, IisClock.FRESH)

  predicate IsSensor(t: MessageType) {
    t.Iis3dwbFifo? || t.Jy61plSample?
  }

  /** Sequence accounting modulo 2^32: a forward distance below 2^31 is a gap, anything else is not. */
  function RecordSequence(s: Session, sequence: nat): Session {
    if s.lastSequence.None? then s.(lastSequence := Some(sequence)) else
      var expected := (s.lastSequence.value + 1) % 0x1_0000_0000;
      var gap := (sequence - expected) % 0x1_0000_0000;
      s.(lastSequence := Some(sequence),
         stats := if gap < 0x8000_0000 then s.stats.(sequenceGaps := s.stats.sequenceGaps + gap) else s.stats)
  }

  function Discard(st: Stats, cause: Cause): Stats {
    var st1 := st.(bytesDiscarded := st.bytesDiscarded + 1);
    match cause
    case NoMagic => st1
    case BadHeader => st1.(headerErrors := st.headerErrors + 1)
    case BadLength => st1.(lengthErrors := st.lengthErrors + 1)
    case BadCrc => st1.(crcErrors := st.crcErrors + 1)
  }

  predicate PayloadFits(t: MessageType, size: nat, items: nat) {
    match t
    case Iis3dwbFifo => size == items * IisClock.WORD_SIZE
    case Jy61plSample => size == 14 && items == 1
    case Status => size == 64 && items == 1
    case CliResponse => true
  }

  /** A candidate with a sound size. */
  predicate Sized(c: seq<byte>) {
    |c| >= HEADER_SIZE && HeaderVerdict(ReadHeader(c)) == Accept(|c|)
  }

  /** What a whole candidate is, after its CRC has been checked. */
  datatype Content = UnknownVersion | UnknownType | WrongHeader | WrongPayload | Good(t: MessageType)

  function ContentOf(h: Header): Content {
    if h.version != 1 && h.version != 2 then UnknownVersion else
      var t := TypeOf(h.messageType);
      if t.None? then UnknownType
      else if h.version == 2 && !IsSensor(t.value) then WrongHeader
      else if !PayloadFits(t.value, h.payloadSize, h.itemCount) then WrongPayload
      else Good(t.value)
  }

  function DecodeWhole(c: seq<byte>, t: MessageType, iis: Option<seq<IisClock.Sample>>): Frame
    requires Sized(c)
  {
    var h := ReadHeader(c);
    Frame(t, h.flags, h.sequence, h.timestampUs, h.itemCount, c[h.headerSize..|c| - CRC_SIZE], c,
          if h.version == 2 then Some(c[HEADER_SIZE..DATA_HEADER_SIZE]) else None, iis)
  }

  /** One whole candidate: the session after it and the frame it yields, if any. */
  function Deliver(s: Session, c: seq<byte>, decode: bool): (Session, seq<Frame>)
    requires Sized(c)
  {
    var h := ReadHeader(c);
    match ContentOf(h)
    case UnknownVersion => (s.(stats := s.stats.(unknownVersions := s.stats.unknownVersions + 1)), [])
    case UnknownType => (s.(stats := s.stats.(unknownTypes := s.stats.unknownTypes + 1)), [])
    case WrongHeader => (s.(stats := s.stats.(headerErrors := s.stats.headerErrors + 1)), [])
    case WrongPayload => (s.(stats := s.stats.(payloadErrors := s.stats.payloadErrors + 1)), [])
    case Good(t) =>
      var (clock, iis) :=
        if t.Iis3dwbFifo? && decode then
          var r := IisClock.Process(s.clock, c[h.headerSize..|c| - CRC_SIZE], h.timestampUs);
          (r.0, Some(r.1))
        else (s.clock, None);
      var s1 := s.(clock := clock);
      var s2 := if IsSensor(t) then RecordSequence(s1, h.sequence) else s1;
      (s2.(stats := s2.stats.(frames := s2.stats.frames + 1)), [DecodeWhole(c, t, iis)])
  }

  datatype Result = Result(session: Session, frames: seq<Frame>)

  predicate SoundPieces(ps: seq<Piece>) {
    forall i :: 0 <= i < |ps| && ps[i].Whole? ==> Sized(ps[i].bytes)
  }

  function Digest(s: Session, ps: seq<Piece>, decode: bool): Result
    requires SoundPieces(ps)
    decreases |ps|
  {
    if ps == [] then Result(s, []) else
      match ps[0]
      case Junk(_, cause) => Digest(s.(stats := Discard(s.stats, cause)), ps[1..], decode)
      case Whole(c) =>
        var d := Deliver(s, c, decode);
        var r := Digest(d.0, ps[1..], decode);
        Result(r.session, d.1 + r.frames)
  }

  lemma JudgeSized(b: seq<byte>)
    requires Judge(b).Accept?
    ensures Sized(b[..Judge(b).size])
  {
    hide ReadHeader, Crc32.Sealed;
    var c := b[..Judge(b).size];
    HeaderOfPrefix(c, b[|c|..]);
    assert c + b[|c|..] == b;
  }

  lemma {:induction false} CutSound(b: seq<byte>)
    ensures SoundPieces(Cut(b).pieces)
    decreases |b|
  {
    hide Judge, Sized;
    var v := Judge(b);
    if v.Reject? { CutSound(b[1..]); } else if v.Accept? {
      JudgeSized(b);
      CutSound(b[v.size..]);
    }
  }

  lemma {:induction false} DigestConcat(s: Session, a: seq<Piece>, b: seq<Piece>, decode: bool)
    requires SoundPieces(a) && SoundPieces(b)
    ensures SoundPieces(a + b)
    ensures Digest(s, a + b, decode) ==
            var r := Digest(s, a, decode);
            var r' := Digest(r.session, b, decode);
            Result(r'.session, r.frames + r'.frames)
    decreases |a|
  {
    hide Deliver, Sized, Discard;
    if a == [] { assert a + b == b; } else {
      assert (a + b)[1..] == a[1..] + b && (a + b)[0] == a[0];
      if a[0].Junk? {
        DigestConcat(s.(stats := Discard(s.stats, a[0].cause)), a[1..], b, decode);
      } else {
        DigestConcat(Deliver(s, a[0].bytes, decode).0, a[1..], b, decode);
      }
    }
  }

  // ---- The receiver as one function of session, held bytes and new bytes ----

  datatype Outcome = Outcome(session: Session, frames: seq<Frame>, rest: seq<byte>)

  function Parse(s: Session, b: seq<byte>, decode: bool): Outcome {
    CutSound(b);
    var r := Digest(s, Cut(b).pieces, decode);
    Outcome(r.session, r.frames, Cut(b).rest)
  }

  /** Feeding chunk after chunk. */
  function ParseAll(s: Session, held: seq<byte>, chunks: seq<seq<byte>>, decode: bool): Outcome
    decreases |chunks|
  {
    if chunks == [] then Outcome(s, [], held) else
      var o := Parse(s, held + chunks[0], decode);
      var o' := ParseAll(o.session, o.rest, chunks[1..], decode);
      Outcome(o'.session, o.frames + o'.frames, o'.rest)
  }

  lemma ParseConcat(s: Session, a: seq<byte>, b: seq<byte>, decode: bool)
    ensures Parse(s, a + b, decode) ==
            var o := Parse(s, a, decode);
            var o' := Parse(o.session, o.rest + b, decode);
            Outcome(o'.session, o.frames + o'.frames, o'.rest)
  {
    hide Cut, Digest, SoundPieces;
    CutConcat(a, b);
    CutSound(a);
    CutSound(Cut(a).rest + b);
    CutSound(a + b);
    DigestConcat(s, Cut(a).pieces, Cut(Cut(a).rest + b).pieces, decode);
  }

  /** Bytes that a receiver keeps for its next feed. */
  predicate Held(b: seq<byte>) {
    Cut(b) == Cutting([], b)
  }

  lemma RestHeld(s: Session, b: seq<byte>, decode: bool)
    ensures Held(Parse(s, b, decode).rest)
  {
    hide Cut, Digest;
    CutRest(b);
  }

  /** Chunk independence: any cutting of any stream ends in the state and frames of one feed. */
  lemma {:induction false} ChunkIndependence(s: Session, held: seq<byte>, chunks: seq<seq<byte>>, decode: bool)
    requires Held(held)
    ensures ParseAll(s, held, chunks, decode) == Parse(s, held + Flatten(chunks), decode)
    decreases |chunks|
  {
    hide Cut, Digest;
    if chunks == [] {
      assert held + Flatten(chunks) == held;
      assert Digest(s, [], decode) == Result(s, []) by { DigestNothing(s, decode); }
    } else {
      var front := held + chunks[0];
      var o := Parse(s, front, decode);
      CutRest(front);
      ChunkIndependence(o.session, o.rest, chunks[1..], decode);
      ParseConcat(s, front, Flatten(chunks[1..]), decode);
      assert held + Flatten(chunks) == front + Flatten(chunks[1..]);
    }
  }

  lemma DigestNothing(s: Session, decode: bool)
    ensures Digest(s, [], decode) == Result(s, [])
  {}

  // ---- Accounting ----

  function Junks(ps: seq<Piece>): nat {
    if ps == [] then 0 else (if ps[0].Junk? then 1 else 0) + Junks(ps[1..])
  }

  function Wholes(ps: seq<Piece>): seq<seq<byte>> {
    if ps == [] then [] else (if ps[0].Whole? then [ps[0].bytes] else []) + Wholes(ps[1..])
  }

  lemma {:induction false} JoinedLength(ps: seq<Piece>)
    ensures |Joined(ps)| == Junks(ps) + |Flatten(Wholes(ps))|
  {
    if ps != [] {
      JoinedLength(ps[1..]);
      if ps[0].Whole? {
        assert Wholes(ps) == [ps[0].bytes] + Wholes(ps[1..]);
        assert Wholes(ps)[1..] == Wholes(ps[1..]);
      } else {
        assert Wholes(ps) == Wholes(ps[1..]);
      }
    }
  }

  lemma {:induction false} DigestCounts(s: Session, ps: seq<Piece>, decode: bool)
    requires SoundPieces(ps)
    ensures var r := Digest(s, ps, decode);
            && r.session.stats.bytesDiscarded == s.stats.bytesDiscarded + Junks(ps)
            && r.session.stats.frames == s.stats.frames + |r.frames|
    decreases |ps|
  {
    hide IisClock.Process, DecodeWhole, ReadHeader, Sized;
    if ps != [] {
      if ps[0].Junk? {
        DigestCounts(s.(stats := Discard(s.stats, ps[0].cause)), ps[1..], decode);
      } else {
        DigestCounts(Deliver(s, ps[0].bytes, decode).0, ps[1..], decode);
      }
    }
  }

  /** What becomes of a piece. */
  datatype Kind = Bad(cause: Cause) | OtherVersion | OtherType | MisplacedType | BadPayload | Delivered

  function KindOf(p: Piece): Kind
    requires p.Whole? ==> Sized(p.bytes)
  {
    match p
    case Junk(_, cause) => Bad(cause)
    case Whole(c) =>
      match ContentOf(ReadHeader(c))
      case UnknownVersion => OtherVersion
      case UnknownType => OtherType
      case WrongHeader => MisplacedType
      case WrongPayload => BadPayload
      case Good(_) => Delivered
  }

  function Tally(ps: seq<Piece>, k: Kind): nat
    requires SoundPieces(ps)
  {
    if ps == [] then 0 else (if KindOf(ps[0]) == k then 1 else 0) + Tally(ps[1..], k)
  }

  /** Every counter counts the pieces of its kind, over any run of pieces. */
  lemma {:induction false} Census(s: Session, ps: seq<Piece>, decode: bool)
    requires SoundPieces(ps)
    ensures var st, st' := s.stats, Digest(s, ps, decode).session.stats;
            && st'.frames == st.frames + Tally(ps, Delivered)
            && st'.crcErrors == st.crcErrors + Tally(ps, Bad(BadCrc))
            && st'.lengthErrors == st.lengthErrors + Tally(ps, Bad(BadLength))
            && st'.headerErrors == st.headerErrors + Tally(ps, Bad(BadHeader)) + Tally(ps, MisplacedType)
            && st'.unknownVersions == st.unknownVersions + Tally(ps, OtherVersion)
            && st'.unknownTypes == st.unknownTypes + Tally(ps, OtherType)
            && st'.payloadErrors == st.payloadErrors + Tally(ps, BadPayload)
    decreases |ps|
  {
    hide KindOf, Deliver, Sized, Discard;
    if ps != [] {
      if ps[0].Junk? {
        CensusJunk(s.stats, ps[0]);
        Census(s.(stats := Discard(s.stats, ps[0].cause)), ps[1..], decode);
      } else {
        CensusWhole(s, ps[0], decode);
        Census(Deliver(s, ps[0].bytes, decode).0, ps[1..], decode);
      }
    }
  }

  function One(p: Piece, k: Kind): nat
    requires p.Whole? ==> Sized(p.bytes)
  {
    if KindOf(p) == k then 1 else 0
  }

  /** `st'` counts one piece more than `st`. */
  predicate CountsOne(st: Stats, st': Stats, p: Piece)
    requires p.Whole? ==> Sized(p.bytes)
  {
    && st'.frames == st.frames + One(p, Delivered)
    && st'.crcErrors == st.crcErrors + One(p, Bad(BadCrc))
    && st'.lengthErrors == st.lengthErrors + One(p, Bad(BadLength))
    && st'.headerErrors == st.headerErrors + One(p, Bad(BadHeader)) + One(p, MisplacedType)
    && st'.unknownVersions == st.unknownVersions + One(p, OtherVersion)
    && st'.unknownTypes == st.unknownTypes + One(p, OtherType)
    && st'.payloadErrors == st.payloadErrors + One(p, BadPayload)
  }

  lemma CensusJunk(st: Stats, p: Piece)
    requires p.Junk?
    ensures CountsOne(st, Discard(st, p.cause), p)
  {}

  lemma CensusWhole(s: Session, p: Piece, decode: bool)
    requires p.Whole? && Sized(p.bytes)
    ensures CountsOne(s.stats, Deliver(s, p.bytes, decode).0.stats, p)
  {
    hide IisClock.Process, ReadHeader, DecodeWhole, Sized;
  }

  /**
   * Byte accounting over any run of feeds: every byte fed is discarded, part of a CRC-valid
   * candidate, or still held, and less than one maximal frame is held.
   */
  lemma Accounting(chunks: seq<seq<byte>>, decode: bool)
    ensures var o := ParseAll(FRESH, [], chunks, decode);
            var whole := Wholes(Cut(Flatten(chunks)).pieces);
            && |Flatten(chunks)| == o.session.stats.bytesDiscarded + |Flatten(whole)| + |o.rest|
            && o.session.stats.frames == |o.frames|
            && |o.rest| < 3837
  {
    hide Cut, Digest, Joined, Wholes, Junks, ParseAll;
    var b := Flatten(chunks);
    assert Cut([]) == Cutting([], []) by { CutNothing(); }
    assert [] + b == b;
    ChunkIndependence(FRESH, [], chunks, decode);
    CutConserves(b);
    CutSound(b);
    JoinedLength(Cut(b).pieces);
    DigestCounts(FRESH, Cut(b).pieces, decode);
  }

  lemma CutNothing()
    ensures Cut([]) == Cutting([], [])
  {}

  // ---- Well-formed frames ----

  /** A frame that every receiver accepts. */
  predicate WellFormed(f: seq<byte>) {
    && |f| >= HEADER_SIZE && f[..4] == MAGIC
    && Sized(f)
    && Crc32.Sealed(f)
    && ContentOf(ReadHeader(f)).Good?
  }

  lemma JudgeWellFormed(f: seq<byte>, b: seq<byte>)
    requires WellFormed(f)
    ensures Judge(f + b) == Accept(|f|)
  {
    hide ReadHeader, Crc32.Sealed, ContentOf;
    assert f[..|f|] == f;
    assert Judge(f) == Accept(|f|);
    JudgeStable(f, b);
  }

  function AsWholes(fs: seq<seq<byte>>): (ps: seq<Piece>)
    ensures |ps| == |fs|
  {
    seq(|fs|, i requires 0 <= i < |fs| => Whole(fs[i]))
  }

  lemma CutAccepted(f: seq<byte>, b: seq<byte>)
    requires WellFormed(f)
    ensures Cut(f + b) == Cutting([Whole(f)] + Cut(b).pieces, Cut(b).rest)
  {
    hide Judge, WellFormed;
    JudgeWellFormed(f, b);
    assert (f + b)[..|f|] == f && (f + b)[|f|..] == b;
  }

  /** A concatenation of well-formed frames is cut exactly at the frame boundaries. */
  lemma {:induction false} CutFrames(fs: seq<seq<byte>>, tail: seq<byte>)
    requires forall i :: 0 <= i < |fs| ==> WellFormed(fs[i])
    ensures Cut(Flatten(fs) + tail).pieces == AsWholes(fs) + Cut(tail).pieces
    ensures Cut(Flatten(fs) + tail).rest == Cut(tail).rest
    decreases |fs|
  {
    hide WellFormed, Cut;
    if fs == [] {
      assert Flatten(fs) + tail == tail;
    } else {
      var more := Flatten(fs[1..]) + tail;
      assert Flatten(fs) + tail == fs[0] + more;
      CutAccepted(fs[0], more);
      CutFrames(fs[1..], tail);
      assert AsWholes(fs) == [Whole(fs[0])] + AsWholes(fs[1..]);
    }
  }

  function Raws(frames: seq<Frame>): (r: seq<seq<byte>>)
    ensures |r| == |frames|
  {
    seq(|frames|, i requires 0 <= i < |frames| => frames[i].raw)
  }

  lemma DeliverWellFormed(s: Session, f: seq<byte>, decode: bool)
    requires WellFormed(f)
    ensures var d := Deliver(s, f, decode);
            var h := ReadHeader(f);
            && |d.1| == 1 && d.1[0].raw == f
            && d.1[0].messageType == ContentOf(h).t && d.1[0].timestampUs == h.timestampUs
            && d.1[0].payload == f[h.headerSize..|f| - CRC_SIZE]
            && d.0.stats == s.stats.(frames := s.stats.frames + 1, sequenceGaps := d.0.stats.sequenceGaps)
  {
    hide IisClock.Process, ReadHeader, Crc32.Sealed, HeaderVerdict;
  }

  lemma {:induction false} DigestFrames(s: Session, fs: seq<seq<byte>>, decode: bool)
    requires forall i :: 0 <= i < |fs| ==> WellFormed(fs[i])
    ensures SoundPieces(AsWholes(fs))
    ensures var r := Digest(s, AsWholes(fs), decode);
            && Raws(r.frames) == fs
            && r.session.stats == s.stats.(frames := s.stats.frames + |fs|,
                                           sequenceGaps := r.session.stats.sequenceGaps)
    decreases |fs|
  {
    hide Deliver, Sized, Crc32.Sealed, ReadHeader, ContentOf;
    if fs != [] {
      assert AsWholes(fs)[1..] == AsWholes(fs[1..]);
      assert WellFormed(fs[0]);
      var d := Deliver(s, fs[0], decode);
      DeliverWellFormed(s, fs[0], decode);
      DigestFrames(d.0, fs[1..], decode);
      var more := Digest(d.0, AsWholes(fs[1..]), decode).frames;
      assert Raws(d.1 + more) == [fs[0]] + Raws(more);
    }
  }

  /**
   * However a concatenation of well-formed frames is cut into chunks, the receiver returns exactly
   * those frames, byte for byte and in order, and counts no error.
   */
  lemma FramesSurviveChunking(fs: seq<seq<byte>>, chunks: seq<seq<byte>>, decode: bool)
    requires forall i :: 0 <= i < |fs| ==> WellFormed(fs[i])
    requires Flatten(chunks) == Flatten(fs)
    ensures var o := ParseAll(FRESH, [], chunks, decode);
            && Raws(o.frames) == fs
            && o.session.stats == NO_STATS.(frames := |fs|, sequenceGaps := o.session.stats.sequenceGaps)
            && o.rest == []
  {
    hide Cut, Digest, WellFormed, ParseAll;
    var b := Flatten(chunks);
    assert Cut([]) == Cutting([], []) by { CutNothing(); }
    assert [] + b == b && Flatten(fs) + [] == b;
    ChunkIndependence(FRESH, [], chunks, decode);
    CutFrames(fs, []);
    assert AsWholes(fs) + [] == AsWholes(fs);
    DigestFrames(FRESH, fs, decode);
  }

  // ---- Sequence numbers ----

  function RecordAll(s: Session, sequences: seq<nat>): Session
    decreases |sequences|
  {
    if sequences == [] then s else RecordAll(RecordSequence(s, sequences[0]), sequences[1..])
  }

  /** Sequence numbers of the sensor frames, in order. */
  function SensorSequences(frames: seq<Frame>): seq<nat> {
    if frames == [] then [] else
      (if IsSensor(frames[0].messageType) then [frames[0].sequence] else []) + SensorSequences(frames[1..])
  }

  /** Strictly increasing true counts with steps up to 2^31. */
  predicate Climbs(now: nat, counts: seq<nat>)
    decreases |counts|
  {
    counts == [] || (now < counts[0] <= now + 0x8000_0000 && Climbs(counts[0], counts[1..]))
  }

  /** One step counts its gap exactly when it is at most 2^31 long, modulo 2^32. */
  lemma GapExact(s: Session, now: nat, next: nat)
    requires s.lastSequence == Some(now % 0x1_0000_0000) && now < next <= now + 0x1_0000_0000
    ensures var s' := RecordSequence(s, next % 0x1_0000_0000);
            && s'.lastSequence == Some(next % 0x1_0000_0000)
            && s'.stats.sequenceGaps == s.stats.sequenceGaps + if next - now <= 0x8000_0000 then next - now - 1 else 0
  {
    var m := 0x1_0000_0000;
    var q, r, q', r' := now / m, now % m, next / m, next % m;
    assert now == m * q + r && next == m * q' + r';
    var e := (r + 1) % m;
    var d := next - now - 1;
    assert 0 <= d < m;
    assert r' - e == d + m * (q - q') + (r + 1 - e);
    assert r + 1 - e == 0 || r + 1 - e == m;
    ModShift(d, (r' - e - d) / m, r' - e);
  }

  lemma ModShift(d: nat, k: int, x: int)
    requires d < 0x1_0000_0000 && x == d + 0x1_0000_0000 * k
    ensures x % 0x1_0000_0000 == d
  {}

  function Low32(counts: seq<nat>): (s: seq<nat>)
    ensures |s| == |counts|
  {
    IisClock.Low32(counts)
  }

  /** Over a climbing run the recorded gaps are exactly the missing numbers, across any number of wraps. */
  lemma {:induction false} GapsOverRun(s: Session, now: nat, counts: seq<nat>)
    requires s.lastSequence == Some(now % 0x1_0000_0000) && Climbs(now, counts)
    ensures var s' := RecordAll(s, Low32(counts));
            counts != [] ==>
              && s'.stats.sequenceGaps == s.stats.sequenceGaps + (counts[|counts| - 1] - now - |counts|)
              && s'.lastSequence == Some(counts[|counts| - 1] % 0x1_0000_0000)
    decreases |counts|
  {
    if counts != [] {
      GapExact(s, now, counts[0]);
      assert Low32(counts)[1..] == Low32(counts[1..]);
      GapsOverRun(RecordSequence(s, counts[0] % 0x1_0000_0000), counts[0], counts[1..]);
      if |counts| == 1 { assert counts[1..] == []; }
    }
  }

  lemma {:induction false} RecordAllLocal(s: Session, t: Session, sequences: seq<nat>)
    requires s.lastSequence == t.lastSequence && s.stats.sequenceGaps == t.stats.sequenceGaps
    ensures RecordAll(s, sequences).lastSequence == RecordAll(t, sequences).lastSequence
    ensures RecordAll(s, sequences).stats.sequenceGaps == RecordAll(t, sequences).stats.sequenceGaps
    decreases |sequences|
  {
    if sequences != [] {
      RecordAllLocal(RecordSequence(s, sequences[0]), RecordSequence(t, sequences[0]), sequences[1..]);
    }
  }

  lemma DeliverRecords(s: Session, c: seq<byte>, decode: bool)
    requires Sized(c)
    ensures var d := Deliver(s, c, decode);
            var a := RecordAll(s, SensorSequences(d.1));
            && |d.1| <= 1
            && d.0.lastSequence == a.lastSequence && d.0.stats.sequenceGaps == a.stats.sequenceGaps
  {
    hide IisClock.Process, ReadHeader, HeaderVerdict;
    var d := Deliver(s, c, decode);
    if d.1 != [] { assert d.1[1..] == []; }
  }

  lemma {:induction false} RecordAllConcat(s: Session, a: seq<nat>, b: seq<nat>)
    ensures RecordAll(s, a + b) == RecordAll(RecordAll(s, a), b)
    decreases |a|
  {
    if a == [] { assert a + b == b; } else {
      assert (a + b)[1..] == a[1..] + b;
      RecordAllConcat(RecordSequence(s, a[0]), a[1..], b);
    }
  }

  lemma SensorSequencesStep(f: Frame, more: seq<Frame>)
    ensures SensorSequences([f] + more) == (if IsSensor(f.messageType) then [f.sequence] else []) + SensorSequences(more)
  {
    assert ([f] + more)[1..] == more;
  }

  lemma {:induction false} SensorSequencesConcat(a: seq<Frame>, b: seq<Frame>)
    ensures SensorSequences(a + b) == SensorSequences(a) + SensorSequences(b)
  {
    hide *;
    if a == [] {
      assert a + b == b;
      NoSequences();
      assert [] + SensorSequences(b) == SensorSequences(b);
    } else {
      var f, more := a[0], a[1..];
      assert a + b == [f] + (more + b) && a == [f] + more;
      SensorSequencesConcat(more, b);
      SensorSequencesStep(f, more + b);
      SensorSequencesStep(f, more);
      Assoc(if IsSensor(f.messageType) then [f.sequence] else [], SensorSequences(more), SensorSequences(b));
    }
  }

  lemma NoSequences()
    ensures SensorSequences([]) == []
  {}

  /** The sequence state after any stream is the accounting of the sensor frames it delivered. */
  lemma {:induction false} DigestRecords(s: Session, ps: seq<Piece>, decode: bool)
    requires SoundPieces(ps)
    ensures var r := Digest(s, ps, decode);
            var a := RecordAll(s, SensorSequences(r.frames));
            r.session.lastSequence == a.lastSequence && r.session.stats.sequenceGaps == a.stats.sequenceGaps
    decreases |ps|
  {
    hide Deliver, Sized, RecordSequence;
    if ps != [] {
      if ps[0].Junk? {
        var t := s.(stats := Discard(s.stats, ps[0].cause));
        DigestRecords(t, ps[1..], decode);
        RecordAllLocal(s, t, SensorSequences(Digest(t, ps[1..], decode).frames));
      } else {
        var d := Deliver(s, ps[0].bytes, decode);
        var more := Digest(d.0, ps[1..], decode).frames;
        DeliverRecords(s, ps[0].bytes, decode);
        DigestRecords(d.0, ps[1..], decode);
        SensorSequencesConcat(d.1, more);
        RecordAllConcat(s, SensorSequences(d.1), SensorSequences(more));
        RecordAllLocal(d.0, RecordAll(s, SensorSequences(d.1)), SensorSequences(more));
      }
    }
  }

  /**
   * 32-bit wrap correctness for a whole session: when the delivered sensor frames carry the low
   * words of a climbing count, the gap counter is the number of counts that never arrived.
   */
  lemma SessionGaps(chunks: seq<seq<byte>>, counts: seq<nat>, decode: bool)
    requires counts != [] && Climbs(counts[0], counts[1..])
    requires SensorSequences(ParseAll(FRESH, [], chunks, decode).frames) == Low32(counts)
    ensures ParseAll(FRESH, [], chunks, decode).session.stats.sequenceGaps
            == counts[|counts| - 1] - counts[0] - (|counts| - 1)
  {
    hide Cut, Digest, ParseAll, RecordSequence;
    var b := Flatten(chunks);
    assert Cut([]) == Cutting([], []) by { CutNothing(); }
    assert [] + b == b;
    ChunkIndependence(FRESH, [], chunks, decode);
    CutSound(b);
    DigestRecords(FRESH, Cut(b).pieces, decode);
    GapsFromFresh(counts);
  }

  lemma GapsFromFresh(counts: seq<nat>)
    requires counts != [] && Climbs(counts[0], counts[1..])
    ensures RecordAll(FRESH, Low32(counts)).stats.sequenceGaps == counts[|counts| - 1] - counts[0] - (|counts| - 1)
  {
    assert Low32(counts)[1..] == Low32(counts[1..]);
    if |counts| == 1 { assert counts[1..] == []; }
    GapsOverRun(RecordSequence(FRESH, counts[0] % 0x1_0000_0000), counts[0], counts[1..]);
  }
}
