/** Splitting one mixed stream into OTA reply lines and the bytes of the SDF1 receiver. */
module Demux {
  import opened Bytes
  import opened Arrays
  import opened Sdf1
  import Crc32

  const NEWLINE: byte := 10
  const OTA_PREFIX: seq<byte> := [0x2B, 0x4F, 0x54, 0x41, 0x3A]
  const OK_LINE: seq<byte> := [0x4F, 0x4B]
  const MAX_FRAME_HOLD := 3901

  predicate IsSpace(b: byte) {
    9 <= b <= 13 || b == 32
  }

  function StripLeft(s: seq<byte>): seq<byte> {
    if s != [] && IsSpace(s[0]) then StripLeft(s[1..]) else s
  }

  function StripRight(s: seq<byte>): seq<byte> {
    if s != [] && IsSpace(s[|s| - 1]) then StripRight(s[..|s| - 1]) else s
  }

  function Strip(s: seq<byte>): seq<byte> {
    StripRight(StripLeft(s))
  }

  predicate AllSpace(s: seq<byte>) {
    forall i :: 0 <= i < |s| ==> IsSpace(s[i])
  }

  lemma {:induction false} StripLeftSplits(s: seq<byte>) returns (front: seq<byte>)
    ensures s == front + StripLeft(s) && AllSpace(front)
    ensures StripLeft(s) != [] ==> !IsSpace(StripLeft(s)[0])
  {
    front := [];
    if s != [] && IsSpace(s[0]) {
      var more := StripLeftSplits(s[1..]);
      front := [s[0]] + more;
      assert s == [s[0]] + s[1..];
    }
  }

  lemma {:induction false} StripRightSplits(s: seq<byte>) returns (back: seq<byte>)
    ensures s == StripRight(s) + back && AllSpace(back)
    ensures StripRight(s) != [] ==> !IsSpace(StripRight(s)[|StripRight(s)| - 1])
  {
    back := [];
    if s != [] && IsSpace(s[|s| - 1]) {
      var more := StripRightSplits(s[..|s| - 1]);
      back := more + [s[|s| - 1]];
      assert s == s[..|s| - 1] + [s[|s| - 1]];
    }
  }

  /** Stripping removes exactly the blanks at both ends. */
  lemma StripSplits(s: seq<byte>) returns (front: seq<byte>, back: seq<byte>)
    ensures s == front + Strip(s) + back && AllSpace(front) && AllSpace(back)
    ensures Strip(s) != [] ==> !IsSpace(Strip(s)[0]) && !IsSpace(Strip(s)[|Strip(s)| - 1])
  {
    front := StripLeftSplits(s);
    back := StripRightSplits(StripLeft(s));
    var t := Strip(s);
    assert front + (t + back) == front + t + back;
    if t != [] { assert StripLeft(s)[0] == t[0]; }
  }

  /** A line that belongs to the uploader. */
  predicate IsReply(line: seq<byte>) {
    OTA_PREFIX <= Strip(line) || Strip(line) == OK_LINE
  }

  /** The first newline at or after `i`, or the length. */
  function LineEnd(s: seq<byte>, i: nat): (n: nat)
    requires i <= |s|
    ensures i <= n <= |s| && (n < |s| ==> s[n] == NEWLINE)
    ensures NEWLINE !in s[i..n]
    decreases |s| - i
  {
    if i == |s| || s[i] == NEWLINE then i else
      var n := LineEnd(s, i + 1);
      assert s[i..n] == [s[i]] + s[i + 1..n];
      n
  }

  predicate StartsFrame(b: seq<byte>) {
    |b| >= 4 && b[..4] == MAGIC
  }

  // ---- Cutting the stream into segments ----

  /** Bytes passed as SDF1, a line passed as text, or a claimed line; lines keep their newline. */
  datatype Segment = Pass(bytes: seq<byte>) | Text(bytes: seq<byte>) | Claim(bytes: seq<byte>)

  datatype Front = Hold | Take(n: nat, text: bool)

  /** Length of the SDF1 frame at the front: none yet, 0 if its sizes are invalid. */
  function FrameLength(b: seq<byte>): (n: Option<nat>)
    ensures n.Some? && n.value > 0 ==> 32 <= n.value <= |b|
    ensures n.None? ==> |b| < MAX_FRAME_SIZE
  {
    if |b| < 12 then None else
      var headerSize, payloadSize := Field(b, 8, 2), Field(b, 10, 2);
      if !(HEADER_SIZE <= headerSize <= MAX_HEADER_SIZE) then Some(0)
      else if payloadSize > MAX_PAYLOAD_SIZE then Some(0)
      else if |b| < headerSize + payloadSize + CRC_SIZE then None
      else Some(headerSize + payloadSize + CRC_SIZE)
  }

  function Scan(b: seq<byte>): (f: Front)
    ensures f.Take? ==> 1 <= f.n <= |b|
    ensures f.Hold? && StartsFrame(b) ==> |b| < MAX_FRAME_SIZE
    ensures f.Hold? && !StartsFrame(b) ==> NEWLINE !in b
    ensures f.Take? ==> (f.text <==> !StartsFrame(b))
    ensures f.Take? && f.text ==> b[f.n - 1] == NEWLINE && NEWLINE !in b[..f.n - 1]
  {
    if b == [] then Hold
    else if StartsFrame(b) then
      var n := FrameLength(b);
      if n.None? then Hold else if n.value == 0 then Take(1, false) else Take(n.value, false)
    else
      var e := LineEnd(b, 0);
      assert b[0..e] == b[..e];
      if e == |b| then
        assert b[..e] == b;
        Hold
      else Take(e + 1, true)
  }

  function SegmentOf(b: seq<byte>, text: bool): Segment
    requires b != []
  {
    if !text then Pass(b) else if IsReply(b[..|b| - 1]) then Claim(b) else Text(b)
  }

  datatype Splitting = Splitting(segments: seq<Segment>, rest: seq<byte>)

  function Split(b: seq<byte>): Splitting
    decreases |b|
  {
    match Scan(b)
    case Hold => Splitting([], b)
    case Take(n, text) =>
      var s := Split(b[n..]);
      Splitting([SegmentOf(b[..n], text)] + s.segments, s.rest)
  }

  /** A front that can be taken is taken the same way when more bytes follow. */
  lemma ScanStable(a: seq<byte>, b: seq<byte>)
    requires Scan(a).Take?
    ensures Scan(a + b) == Scan(a)
  {
    var s := a + b;
    if StartsFrame(a) {
      assert s[..4] == a[..4];
      if |a| >= 12 { assert s[8..10] == a[8..10] && s[10..12] == a[10..12]; }
    } else {
      var e := Scan(a).n - 1;
      assert s[..e + 1] == a[..e + 1];
      if |a| < 4 && StartsFrame(s) { assert s[..4][e] == NEWLINE; }
      LineEndIs(s, 0, e);
    }
  }

  lemma {:induction false} LineEndIs(s: seq<byte>, i: nat, e: nat)
    requires i <= e < |s| && s[e] == NEWLINE && forall j :: i <= j < e ==> s[j] != NEWLINE
    ensures LineEnd(s, i) == e
    decreases e - i
  {
    if i < e { LineEndIs(s, i + 1, e); }
  }

  lemma {:induction false} SplitConcat(a: seq<byte>, b: seq<byte>)
    ensures Split(a + b).segments == Split(a).segments + Split(Split(a).rest + b).segments
    ensures Split(a + b).rest == Split(Split(a).rest + b).rest
    decreases |a|
  {
    hide Scan, SegmentOf;
    var f := Scan(a);
    if f.Take? {
      ScanStable(a, b);
      assert (a + b)[f.n..] == a[f.n..] + b && (a + b)[..f.n] == a[..f.n];
      SplitConcat(a[f.n..], b);
    }
  }

  // ---- Conservation ----

  function Joined(segments: seq<Segment>): seq<byte> {
    if segments == [] then [] else segments[0].bytes + Joined(segments[1..])
  }

  /** What the receiver gets. */
  function Passed(segments: seq<Segment>): seq<byte> {
    if segments == [] then [] else (if segments[0].Claim? then [] else segments[0].bytes) + Passed(segments[1..])
  }

  function LineOf(bytes: seq<byte>): seq<byte> {
    if bytes == [] then [] else Strip(bytes[..|bytes| - 1])
  }

  /** What the uploader gets. */
  function Lines(segments: seq<Segment>): seq<seq<byte>> {
    if segments == [] then [] else (if segments[0].Claim? then [LineOf(segments[0].bytes)] else []) + Lines(segments[1..])
  }

  /** A claimed segment is one reply line with its newline, and only such lines are claimed. */
  predicate Sound(s: Segment) {
    && s.bytes != []
    && (s.Claim? || s.Text? ==>
          && s.bytes[|s.bytes| - 1] == NEWLINE
          && NEWLINE !in s.bytes[..|s.bytes| - 1]
          && (s.Claim? <==> IsReply(s.bytes[..|s.bytes| - 1])))
  }

  lemma SplitHold(b: seq<byte>)
    requires Scan(b).Hold?
    ensures Split(b) == Splitting([], b)
  {}

  lemma SplitStep(b: seq<byte>)
    requires Scan(b).Take?
    ensures var f := Scan(b);
            && Split(b) == Splitting([SegmentOf(b[..f.n], f.text)] + Split(b[f.n..]).segments, Split(b[f.n..]).rest)
            && SegmentOf(b[..f.n], f.text).bytes == b[..f.n]
            && Sound(SegmentOf(b[..f.n], f.text))
  {
    hide IsReply, StartsFrame, FrameLength, LineEnd, Scan;
    var f := Scan(b);
    if f.text { assert b[..f.n][..f.n - 1] == b[..f.n - 1]; }
  }

  lemma JoinedCons(s: Segment, more: seq<Segment>)
    ensures Joined([s] + more) == s.bytes + Joined(more)
    ensures Joined([]) == []
  {
    assert ([s] + more)[1..] == more;
  }

  lemma {:induction false} SplitConserves(b: seq<byte>)
    ensures Joined(Split(b).segments) + Split(b).rest == b
    ensures forall i :: 0 <= i < |Split(b).segments| ==> Sound(Split(b).segments[i])
    ensures Scan(Split(b).rest).Hold?
    decreases |b|
  {
    hide *;
    if Scan(b).Hold? {
      SplitHold(b);
      JoinedCons(Pass([]), []);
    } else {
      var n := Scan(b).n;
      SplitStep(b);
      SplitConserves(b[n..]);
      var s, c := SegmentOf(b[..n], Scan(b).text), Split(b[n..]);
      JoinedCons(s, c.segments);
      assert Joined([s] + c.segments) + c.rest == b[..n] + (Joined(c.segments) + c.rest);
      assert b == b[..n] + b[n..];
    }
  }

  // ---- One feed: split, then release a residue that cannot complete ----

  predicate FramePrefix(b: seq<byte>) {
    StartsFrame(b) || (|b| < 4 && b <= MAGIC)
  }

  predicate Releases(rest: seq<byte>, maxLine: nat) {
    rest != [] && if FramePrefix(rest) then |rest| > MAX_FRAME_HOLD else |rest| > maxLine
  }

  datatype Fed = Fed(lines: seq<seq<byte>>, passed: seq<byte>, pending: seq<byte>)

  function FeedOnce(pending: seq<byte>, chunk: seq<byte>, maxLine: nat): Fed {
    var s := Split(pending + chunk);
    if Releases(s.rest, maxLine) then Fed(Lines(s.segments), Passed(s.segments) + s.rest, [])
    else Fed(Lines(s.segments), Passed(s.segments), s.rest)
  }

  /** The hold is bounded, and the release of an oversized partial frame is unreachable. */
  lemma BoundedHold(pending: seq<byte>, chunk: seq<byte>, maxLine: nat)
    ensures var held := FeedOnce(pending, chunk, maxLine).pending;
            |held| <= maxLine || |held| < 3837
    ensures var rest := Split(pending + chunk).rest;
            FramePrefix(rest) ==> !Releases(rest, maxLine)
  {
    hide Split, Passed, Lines, Scan;
    SplitConserves(pending + chunk);
  }

  /**
   * Conservation on every input: the old residue and the chunk are segments followed by the new
   * residue; the receiver gets the unclaimed ones in order, and each claimed one is a reply line.
   */
  lemma FeedConserves(pending: seq<byte>, chunk: seq<byte>, maxLine: nat) returns (segments: seq<Segment>)
    ensures var f := FeedOnce(pending, chunk, maxLine);
            && pending + chunk == Joined(segments) + f.pending
            && f.passed == Passed(segments) && f.lines == Lines(segments)
    ensures forall i :: 0 <= i < |segments| ==> Sound(segments[i])
  {
    hide Split, Joined, Passed, Lines, Scan, IsReply, FramePrefix;
    var s := Split(pending + chunk);
    SplitConserves(pending + chunk);
    segments := s.segments;
    if Releases(s.rest, maxLine) {
      var last := [Pass(s.rest)];
      JoinedConcat(s.segments, last);
      PassedConcat(s.segments, last);
      PassedCons(last[0], []);
      JoinedCons(last[0], []);
      NoSegments();
      segments := s.segments + last;
      assert last == last + [];
    }
  }

  lemma {:induction false} JoinedConcat(a: seq<Segment>, b: seq<Segment>)
    ensures Joined(a + b) == Joined(a) + Joined(b)
  {
    hide *;
    if a == [] {
      assert a + b == b;
      JoinedCons(Pass([]), []);
      assert [] + Joined(b) == Joined(b);
    } else {
      var more := a[1..] + b;
      assert a + b == [a[0]] + more && a == [a[0]] + a[1..];
      JoinedConcat(a[1..], b);
      JoinedCons(a[0], more);
      JoinedCons(a[0], a[1..]);
      assert a[0].bytes + (Joined(a[1..]) + Joined(b)) == (a[0].bytes + Joined(a[1..])) + Joined(b);
    }
  }

  datatype Total = Total(lines: seq<seq<byte>>, passed: seq<seq<byte>>, pending: seq<byte>)

  /** Feeding chunk after chunk; `passed` keeps what each feed handed to the receiver. */
  function FeedAll(pending: seq<byte>, chunks: seq<seq<byte>>, maxLine: nat): (t: Total)
    ensures |t.passed| == |chunks|
    decreases |chunks|
  {
    if chunks == [] then Total([], [], pending) else
      var f := FeedOnce(pending, chunks[0], maxLine);
      var t := FeedAll(f.pending, chunks[1..], maxLine);
      Total(f.lines + t.lines, [f.passed] + t.passed, t.pending)
  }

  // ---- Chunk independence ----

  /** Every text line of the stream, the unfinished one included, has at most `maxLine` bytes. */
  predicate LinesFit(b: seq<byte>, maxLine: nat)
    decreases |b|
  {
    match Scan(b)
    case Hold => FramePrefix(b) || |b| <= maxLine
    case Take(n, text) => (text ==> n - 1 <= maxLine) && LinesFit(b[n..], maxLine)
  }

  lemma FramePrefixShrinks(a: seq<byte>, b: seq<byte>)
    requires FramePrefix(a + b)
    ensures FramePrefix(a)
  {
    var s := a + b;
    assert a == s[..|a|];
    if |a| >= 4 { assert a[..4] == s[..4]; } else if |s| >= 4 { assert a == s[..4][..|a|]; }
  }

  lemma HeldTextFits(a: seq<byte>, b: seq<byte>, maxLine: nat)
    requires Scan(a).Hold? && LinesFit(a + b, maxLine)
    ensures LinesFit(a, maxLine)
  {
    var s := a + b;
    assert forall e :: 0 <= e < |a| ==> s[e] == a[e] && a[e] in a;
    if FramePrefix(s) { FramePrefixShrinks(a, b); }
  }

  lemma {:induction false} LinesFitSplit(a: seq<byte>, b: seq<byte>, maxLine: nat)
    requires LinesFit(a + b, maxLine)
    ensures LinesFit(Split(a).rest, maxLine)
    ensures LinesFit(Split(a).rest + b, maxLine)
    decreases |a|
  {
    hide Scan;
    var f := Scan(a);
    if f.Take? {
      ScanStable(a, b);
      assert (a + b)[f.n..] == a[f.n..] + b;
      LinesFitSplit(a[f.n..], b, maxLine);
    } else {
      HeldTextFits(a, b, maxLine);
    }
  }

  lemma {:induction false} PassedConcat(a: seq<Segment>, b: seq<Segment>)
    ensures Passed(a + b) == Passed(a) + Passed(b)
    ensures Lines(a + b) == Lines(a) + Lines(b)
    decreases |a|
  {
    hide *;
    NoSegments();
    if a == [] {
      assert a + b == b;
      assert [] + Passed(b) == Passed(b) && [] + Lines(b) == Lines(b);
    } else {
      var s, more := a[0], a[1..];
      assert a + b == [s] + (more + b) && a == [s] + more;
      PassedConcat(more, b);
      PassedCons(s, more + b);
      PassedCons(s, more);
      Assoc(if s.Claim? then [] else s.bytes, Passed(more), Passed(b));
      Assoc(if s.Claim? then [LineOf(s.bytes)] else [], Lines(more), Lines(b));
    }
  }

  lemma FitsNoRelease(pending: seq<byte>, chunk: seq<byte>, maxLine: nat)
    requires LinesFit(Split(pending + chunk).rest, maxLine)
    ensures var s := Split(pending + chunk);
            FeedOnce(pending, chunk, maxLine) == Fed(Lines(s.segments), Passed(s.segments), s.rest)
  {
    hide Split, Passed, Lines, Scan;
    SplitConserves(pending + chunk);
  }

  /** On a stream whose lines fit, every way of cutting it gives the lines and bytes of one feed. */
  lemma {:induction false} ChunkIndependence(pending: seq<byte>, chunks: seq<seq<byte>>, maxLine: nat)
    requires Scan(pending).Hold? && LinesFit(pending + Flatten(chunks), maxLine)
    ensures var t := FeedAll(pending, chunks, maxLine);
            var s := Split(pending + Flatten(chunks));
            t.lines == Lines(s.segments) && Flatten(t.passed) == Passed(s.segments) && t.pending == s.rest
    decreases |chunks|
  {
    hide Split, Scan, Passed, Lines, LinesFit, FeedOnce, FeedAll;
    FeedAllStep(pending, chunks, maxLine);
    if chunks == [] {
      assert pending + Flatten(chunks) == pending;
      SplitHold(pending);
      NoSegments();
    } else {
      var front, more := pending + chunks[0], Flatten(chunks[1..]);
      assert pending + Flatten(chunks) == front + more;
      LinesFitSplit(front, more, maxLine);
      FitsNoRelease(pending, chunks[0], maxLine);
      SplitConserves(front);
      var s := Split(front);
      ChunkIndependence(s.rest, chunks[1..], maxLine);
      SplitConcat(front, more);
      PassedConcat(s.segments, Split(s.rest + more).segments);
      var t := FeedAll(s.rest, chunks[1..], maxLine);
      assert ([Passed(s.segments)] + t.passed)[1..] == t.passed;
    }
  }

  lemma NoSegments()
    ensures Lines([]) == [] && Passed([]) == []
  {}

  lemma FeedAllStep(pending: seq<byte>, chunks: seq<seq<byte>>, maxLine: nat)
    ensures FeedAll(pending, chunks, maxLine) ==
            if chunks == [] then Total([], [], pending) else
              var f := FeedOnce(pending, chunks[0], maxLine);
              var t := FeedAll(f.pending, chunks[1..], maxLine);
              Total(f.lines + t.lines, [f.passed] + t.passed, t.pending)
  {}

  // ---- A mixed stream of frames and reply lines ----

  datatype Item = Binary(bytes: seq<byte>) | Reply(bytes: seq<byte>)

  /** A well-formed SDF1 frame, or a reply line of at most `maxLine` bytes with its newline. */
  predicate Proper(item: Item, maxLine: nat) {
    match item
    case Binary(f) => WellFormed(f)
    case Reply(r) =>
      && r != [] && r[|r| - 1] == NEWLINE && NEWLINE !in r[..|r| - 1]
      && IsReply(r[..|r| - 1])
      && |r| - 1 <= maxLine
  }

  function StreamOf(items: seq<Item>): seq<byte> {
    if items == [] then [] else items[0].bytes + StreamOf(items[1..])
  }

  function FramesOf(items: seq<Item>): seq<seq<byte>> {
    if items == [] then [] else (if items[0].Binary? then [items[0].bytes] else []) + FramesOf(items[1..])
  }

  function RepliesOf(items: seq<Item>): seq<seq<byte>> {
    if items == [] then [] else (if items[0].Reply? then [LineOf(items[0].bytes)] else []) + RepliesOf(items[1..])
  }

  lemma ScanFrame(f: seq<byte>, b: seq<byte>)
    requires WellFormed(f)
    ensures Scan(f + b) == Take(|f|, false)
  {
    hide Judge, Crc32.Sealed, ContentOf;
    ScanStable(f, b);
  }

  /** A reply line does not start like a frame. */
  lemma ReplyStart(line: seq<byte>)
    requires IsReply(line)
    ensures line != [] && line[0] != MAGIC[0]
  {
    if line == [] || line[0] == MAGIC[0] {
      assert StripLeft(line) == line;
      StripKeepsFront(line);
    }
  }

  lemma {:induction false} StripKeepsFront(s: seq<byte>)
    ensures StripRight(s) <= s
    ensures s != [] && !IsSpace(s[0]) ==> StripRight(s) != []
  {
    if s != [] { StripKeepsFront(s[..|s| - 1]); }
  }

  lemma ScanReply(r: seq<byte>, b: seq<byte>)
    requires r != [] && r[|r| - 1] == NEWLINE && NEWLINE !in r[..|r| - 1] && IsReply(r[..|r| - 1])
    ensures Scan(r + b) == Take(|r|, true)
  {
    hide IsReply;
    var s := r + b;
    ReplyStart(r[..|r| - 1]);
    assert s[0] == r[0] == r[..|r| - 1][0];
    assert |s| >= 4 ==> s[..4][0] == s[0];
    forall j | 0 <= j < |r| - 1 ensures s[j] != NEWLINE { assert s[j] == r[..|r| - 1][j]; }
    LineEndIs(s, 0, |r| - 1);
  }

  function SegmentFor(item: Item): Segment {
    if item.Binary? then Pass(item.bytes) else Claim(item.bytes)
  }

  lemma SplitItem(item: Item, b: seq<byte>, maxLine: nat)
    requires Proper(item, maxLine)
    ensures Split(item.bytes + b) == Splitting([SegmentFor(item)] + Split(b).segments, Split(b).rest)
    ensures LinesFit(item.bytes + b, maxLine) == LinesFit(b, maxLine)
  {
    hide Scan, IsReply, WellFormed;
    var s := item.bytes + b;
    if item.Binary? { ScanFrame(item.bytes, b); } else { ScanReply(item.bytes, b); }
    assert s[..|item.bytes|] == item.bytes && s[|item.bytes|..] == b;
  }

  lemma PassedCons(s: Segment, more: seq<Segment>)
    ensures Passed([s] + more) == (if s.Claim? then [] else s.bytes) + Passed(more)
    ensures Lines([s] + more) == (if s.Claim? then [LineOf(s.bytes)] else []) + Lines(more)
  {
    assert ([s] + more)[1..] == more;
  }

  /** One feed of the mixed stream separates it exactly. */
  lemma {:induction false} SplitItems(items: seq<Item>, maxLine: nat)
    requires forall i :: 0 <= i < |items| ==> Proper(items[i], maxLine)
    ensures var s := Split(StreamOf(items));
            Lines(s.segments) == RepliesOf(items) && Passed(s.segments) == Flatten(FramesOf(items)) && s.rest == []
    ensures LinesFit(StreamOf(items), maxLine)
    decreases |items|
  {
    hide Split, Passed, Lines, LinesFit, Proper, LineOf;
    if items == [] {
      SplitHold([]);
      NoSegments();
      FitsNothing(maxLine);
    } else {
      var more := items[1..];
      SplitItem(items[0], StreamOf(more), maxLine);
      SplitItems(more, maxLine);
      PassedCons(SegmentFor(items[0]), Split(StreamOf(more)).segments);
      if items[0].Binary? {
        assert FramesOf(items)[1..] == FramesOf(more);
        assert RepliesOf(items) == RepliesOf(more);
      } else {
        assert FramesOf(items) == FramesOf(more);
      }
    }
  }

  lemma FitsNothing(maxLine: nat)
    ensures LinesFit([], maxLine) && Scan([]).Hold?
  {}

  lemma {:induction false} FramesOfWellFormed(items: seq<Item>, maxLine: nat)
    requires forall i :: 0 <= i < |items| ==> Proper(items[i], maxLine)
    ensures forall i :: 0 <= i < |FramesOf(items)| ==> WellFormed(FramesOf(items)[i])
    decreases |items|
  {
    hide WellFormed, IsReply;
    if items != [] {
      assert Proper(items[0], maxLine);
      FramesOfWellFormed(items[1..], maxLine);
    }
  }

  /**
   * End to end: for every interleaving of well-formed frames with reply lines of at most `maxLine`
   * bytes, cut into chunks in any way, the uploader gets exactly the lines in order, and the
   * receiver behind the demultiplexer decodes exactly the frames and discards nothing.
   */
  lemma MixedStreamSeparates(items: seq<Item>, chunks: seq<seq<byte>>, maxLine: nat, decode: bool)
    requires forall i :: 0 <= i < |items| ==> Proper(items[i], maxLine)
    requires Flatten(chunks) == StreamOf(items)
    ensures var t := FeedAll([], chunks, maxLine);
            var o := ParseAll(FRESH, [], t.passed, decode);
            && t.lines == RepliesOf(items) && t.pending == []
            && Raws(o.frames) == FramesOf(items) && o.rest == []
            && o.session.stats == NO_STATS.(frames := |FramesOf(items)|, sequenceGaps := o.session.stats.sequenceGaps)
  {
    hide *;
    assert [] + Flatten(chunks) == Flatten(chunks);
    SplitItems(items, maxLine);
    FitsNothing(maxLine);
    ChunkIndependence([], chunks, maxLine);
    FramesOfWellFormed(items, maxLine);
    FramesSurviveChunking(FramesOf(items), FeedAll([], chunks, maxLine).passed, decode);
  }

  // ---- The line bound is needed ----

  lemma LongReplyLost(r: seq<byte>, maxLine: nat)
    requires r != [] && r[|r| - 1] == NEWLINE && NEWLINE !in r[..|r| - 1] && IsReply(r[..|r| - 1])
    requires |r| - 1 > maxLine
    ensures FeedAll([], [r[..|r| - 1], [NEWLINE]], maxLine).lines == []
  {
    hide IsReply, Split, FeedOnce, FeedAll, Scan;
    var line := r[..|r| - 1];
    var chunks := [line, [NEWLINE]];
    LongLineReleased(line, maxLine);
    NewlinePassed(maxLine);
    FeedAllStep([], chunks, maxLine);
    FeedAllStep([], [[NEWLINE]], maxLine);
    FeedAllStep([], [], maxLine);
    assert chunks[1..] == [[NEWLINE]];
  }

  lemma LongLineReleased(line: seq<byte>, maxLine: nat)
    requires IsReply(line) && NEWLINE !in line && |line| > maxLine
    ensures FeedOnce([], line, maxLine) == Fed([], line, [])
  {
    hide IsReply, Split;
    ReplyStart(line);
    assert [] + line == line;
    assert |line| >= 4 ==> line[..4][0] == line[0];
    assert Scan(line).Hold?;
    SplitHold(line);
  }

  lemma NewlinePassed(maxLine: nat)
    ensures FeedOnce([], [NEWLINE], maxLine) == Fed([], [NEWLINE], [])
  {
    hide Split;
    BareNewline();
    assert [] + [NEWLINE] == [NEWLINE];
    PassedCons(Text([NEWLINE]), []);
    NoSegments();
    assert [Text([NEWLINE])] + [] == [Text([NEWLINE])];
  }

  lemma BareNewline()
    ensures Split([NEWLINE]) == Splitting([Text([NEWLINE])], [])
  {
    var b: seq<byte> := [NEWLINE];
    assert b[..1] == b && b[1..] == [] && b[..0] == [];
    assert Strip([]) == [] && !IsReply([]);
    LineEndIs(b, 0, 0);
    assert Scan(b) == Take(1, true);
    SplitStep(b);
    SplitNothing();
    SplitHold([]);
  }

  /** A reply line gets through under every cutting exactly when it has at most `maxLine` bytes. */
  lemma ReplyDeliveredIffShort(r: seq<byte>, maxLine: nat)
    requires r != [] && r[|r| - 1] == NEWLINE && NEWLINE !in r[..|r| - 1] && IsReply(r[..|r| - 1])
    ensures (forall chunks: seq<seq<byte>> :: Flatten(chunks) == r ==> FeedAll([], chunks, maxLine).lines == [LineOf(r)])
            <==> |r| - 1 <= maxLine
  {
    hide FeedAll, IsReply, LineOf;
    if |r| - 1 <= maxLine {
      var items := [Reply(r)];
      OneReply(r);
      forall chunks: seq<seq<byte>> | Flatten(chunks) == r
        ensures FeedAll([], chunks, maxLine).lines == [LineOf(r)]
      {
        MixedStreamSeparates(items, chunks, maxLine, false);
      }
    } else {
      LongReplyLost(r, maxLine);
      var chunks := [r[..|r| - 1], [NEWLINE]];
      FlattenPair(r[..|r| - 1], [NEWLINE]);
      assert r == r[..|r| - 1] + [NEWLINE];
    }
  }

  lemma OneReply(r: seq<byte>)
    ensures StreamOf([Reply(r)]) == r && RepliesOf([Reply(r)]) == [LineOf(r)]
  {
    hide LineOf;
    assert [Reply(r)][1..] == [];
    assert StreamOf([]) == [] && RepliesOf([]) == [];
  }

  // ---- The demultiplexer object ----

  class StreamDemultiplexer {
    var pending: seq<byte>
    const maxLine: nat

    constructor (maxLine: nat)
      requires maxLine > 0
      ensures pending == [] && this.maxLine == maxLine
    {
      pending := [];
      this.maxLine := maxLine;
    }

    method Reset()
      modifies this
      ensures pending == []
    {
      pending := [];
    }

    method Flush() returns (residue: seq<byte>)
      modifies this
      ensures residue == old(pending) && pending == []
    {
      residue := pending;
      pending := [];
    }

    method Feed(chunk: seq<byte>) returns (otaLines: seq<seq<byte>>, parserBytes: seq<byte>)
      modifies this
      ensures Fed(otaLines, parserBytes, pending) == FeedOnce(old(pending), chunk, maxLine)
    {
      hide Split, Scan, Passed, Lines, IsReply, LineOf, FrameLength, Strip, LineEnd, StartsFrame, FramePrefix;
      pending := pending + chunk;
      ghost var all := pending;
      otaLines, parserBytes := [], [];
      NoSegments();
      while pending != []
        invariant var s, t := Split(all), Split(pending);
                  && s.rest == t.rest
                  && Lines(s.segments) == otaLines + Lines(t.segments)
                  && Passed(s.segments) == parserBytes + Passed(t.segments)
        decreases |pending|
      {
        ghost var b := pending;
        ScanCases(b);
        if StartsFrame(pending) {
          var frameLength := FrameLength(pending);
          if frameLength.None? {
            break;
          }
          var n := if frameLength.value == 0 then 1 else frameLength.value;
          TakeSegment(b);
          Assoc(parserBytes, b[..n], Passed(Split(b[n..]).segments));
          parserBytes := parserBytes + pending[..n];
          pending := pending[n..];
        } else {
          var newline := LineEnd(pending, 0);
          if newline == |pending| {
            break;
          }
          var line := pending[..newline];
          TakeSegment(b);
          pending := pending[newline + 1..];
          var stripped := Strip(line);
          if OTA_PREFIX <= stripped || stripped == OK_LINE {
            Assoc(otaLines, [stripped], Lines(Split(pending).segments));
            otaLines := otaLines + [stripped];
          } else {
            Assoc(parserBytes, line + [NEWLINE], Passed(Split(pending).segments));
            parserBytes := parserBytes + (line + [NEWLINE]);
          }
        }
      }
      SplitNothing();
      if Scan(pending).Hold? { SplitHold(pending); }
      if Releases(pending, maxLine) {
        parserBytes := parserBytes + pending;
        pending := [];
      }
    }
  }

  lemma SplitNothing()
    ensures Scan([]).Hold?
  {}

  lemma ScanCases(b: seq<byte>)
    requires b != []
    ensures Scan(b) ==
            if StartsFrame(b) then
              var n := FrameLength(b);
              if n.None? then Hold else Take(if n.value == 0 then 1 else n.value, false)
            else
              var e := LineEnd(b, 0);
              if e == |b| then Hold else Take(e + 1, true)
  {}

  /** Taking the front segment off the splitting. */
  lemma TakeSegment(b: seq<byte>)
    requires Scan(b).Take?
    ensures var f := Scan(b);
            var s, t := Split(b), Split(b[f.n..]);
            && s.rest == t.rest
            && var line := b[..f.n - 1];
               if f.text && (OTA_PREFIX <= Strip(line) || Strip(line) == OK_LINE) then
                 Lines(s.segments) == [Strip(line)] + Lines(t.segments) && Passed(s.segments) == Passed(t.segments)
               else
                 && Lines(s.segments) == Lines(t.segments) && Passed(s.segments) == b[..f.n] + Passed(t.segments)
                 && (f.text ==> b[..f.n] == line + [NEWLINE])
  {
    hide Split, Scan, Strip;
    var f := Scan(b);
    SplitStep(b);
    PassedCons(SegmentOf(b[..f.n], f.text), Split(b[f.n..]).segments);
    assert b[..f.n][..f.n - 1] == b[..f.n - 1];
    if f.text { assert b[..f.n] == b[..f.n - 1] + [b[f.n - 1]]; }
  }
}
