/** Playback of archived files: the header-only index and the incremental decoder behind it. */
module Playback {
  import opened Bytes
  import opened Arrays
  import opened Sdf1
  import opened StreamParsing
  import Crc32
  import IisClock

  // ---- The index ----

  datatype Entry = Entry(offset: nat, timestampUs: nat, cumSamples: nat, kind: nat)

  /** Acceleration words among the seven-byte words of a payload. */
  function CountAccelWords(payload: seq<byte>): nat
    decreases |payload|
  {
    if payload == [] then 0 else
      (if payload[0] / 8 == 2 then 1 else 0)
      + CountAccelWords(if |payload| > IisClock.WORD_SIZE then payload[IisClock.WORD_SIZE..] else [])
  }

  /** What one header says, if the scan trusts it: entry kind, samples and frame size. */
  datatype Line = Stop | Line(timestampUs: nat, samples: nat, kind: nat, size: nat)

  /** The scan trusts magic, version and sizes, and skips the CRC. */
  function ReadLine(b: seq<byte>): (l: Line)
    ensures l.Line? ==> l.size >= 32
  {
    if |b| < HEADER_SIZE || b[..4] != MAGIC then Stop
    else if b[4] != 1 && b[4] != 2 then Stop
    else
      var h := ReadHeader(b);
      var expected := if h.version == 2 then DATA_HEADER_SIZE else HEADER_SIZE;
      if h.headerSize != expected || h.payloadSize > MAX_PAYLOAD_SIZE then Stop
      else
        var size := h.headerSize + h.payloadSize + CRC_SIZE;
        if h.messageType == 1 then
          if |b| < h.headerSize + h.payloadSize then Stop
          else Line(h.timestampUs, CountAccelWords(b[h.headerSize..h.headerSize + h.payloadSize]), 1, size)
        else Line(h.timestampUs, 0, if h.messageType == 2 then 2 else 0, size)
  }

  function Scan(file: seq<byte>, offset: nat, total: nat): seq<Entry>
    decreases |file| - offset
  {
    if offset >= |file| then [] else
      var l := ReadLine(file[offset..]);
      if l.Stop? then [] else
        [Entry(offset, l.timestampUs, total + l.samples, l.kind)] + Scan(file, offset + l.size, total + l.samples)
  }

  /** Time of the first FIFO frame. */
  function FirstIis(es: seq<Entry>): Option<nat> {
    if es == [] then None else if es[0].kind == 1 then Some(es[0].timestampUs) else FirstIis(es[1..])
  }

  /** Time of the last FIFO frame. */
  function LastIis(es: seq<Entry>): Option<nat> {
    if es == [] then None else
      var n := |es| - 1;
      if es[n].kind == 1 then Some(es[n].timestampUs) else LastIis(es[..n])
  }

  lemma {:induction false} FirstIisAppend(es: seq<Entry>, e: Entry)
    ensures FirstIis(es + [e]) ==
            if FirstIis(es).Some? then FirstIis(es) else if e.kind == 1 then Some(e.timestampUs) else None
  {
    if es == [] {
      assert es + [e] == [e] && [e][1..] == [];
      assert FirstIis([]) == None;
    } else {
      assert (es + [e])[1..] == es[1..] + [e] && (es + [e])[0] == es[0];
      FirstIisAppend(es[1..], e);
    }
  }

  /** The entry at `i` is the first, or the last, of a FIFO frame. */
  predicate Foremost(es: seq<Entry>, i: nat) {
    i < |es| && es[i].kind == 1 && forall j :: 0 <= j < i ==> es[j].kind != 1
  }

  predicate Rearmost(es: seq<Entry>, i: nat) {
    i < |es| && es[i].kind == 1 && forall j :: i < j < |es| ==> es[j].kind != 1
  }

  /** The first time is that of the first FIFO frame, and missing without any. */
  lemma {:induction false} FirstIisIs(es: seq<Entry>, i: nat)
    ensures FirstIis(es).None? <==> forall j :: 0 <= j < |es| ==> es[j].kind != 1
    ensures Foremost(es, i) ==> FirstIis(es) == Some(es[i].timestampUs)
  {
    if es != [] {
      FirstIisIs(es[1..], if i > 0 then i - 1 else 0);
      assert forall j :: 0 < j < |es| ==> es[j] == es[1..][j - 1];
      assert i > 0 && Foremost(es, i) ==> Foremost(es[1..], i - 1);
    }
  }

  /** The last time is that of the last FIFO frame, and missing without any. */
  lemma {:induction false} LastIisIs(es: seq<Entry>, i: nat)
    ensures LastIis(es).None? <==> forall j :: 0 <= j < |es| ==> es[j].kind != 1
    ensures Rearmost(es, i) ==> LastIis(es) == Some(es[i].timestampUs)
  {
    if es != [] {
      var n := |es| - 1;
      LastIisIs(es[..n], i);
      assert forall j :: 0 <= j < n ==> es[j] == es[..n][j];
      assert i < n && Rearmost(es, i) ==> Rearmost(es[..n], i);
    }
  }

  /** What the scan makes of the header at a position, from its bytes: where it stops, and what it lists. */
  lemma HeaderScanned(b: seq<byte>)
    ensures |b| < 28 || b[..4] != [0x53, 0x44, 0x46, 0x31] || (b[4] != 1 && b[4] != 2) ==> ReadLine(b) == Stop
    ensures |b| >= 28 && b[..4] == [0x53, 0x44, 0x46, 0x31] && 1 <= b[4] <= 2 ==>
              var h, n := Le(b[8..10]), Le(b[10..12]);
              if h != (if b[4] == 2 then 44 else 28) || n > 3577 || (b[5] == 1 && |b| < h + n) then ReadLine(b) == Stop
              else && ReadLine(b).Line? && ReadLine(b).timestampUs == Le(b[16..24]) && ReadLine(b).size == h + n + 4
                   && ReadLine(b).kind == (if b[5] == 1 || b[5] == 2 then b[5] else 0)
                   && ReadLine(b).samples == (if b[5] == 1 then CountAccelWords(b[h..h + n]) else 0)
  {
    hide Le, CountAccelWords;
  }

  method BuildPlaybackIndex(file: seq<byte>)
    returns (entries: seq<Entry>, total: nat, first: Option<nat>, last: Option<nat>)
    ensures entries == Scan(file, 0, 0)
    ensures total == if entries == [] then 0 else entries[|entries| - 1].cumSamples
    ensures first == FirstIis(entries) && last == LastIis(entries)
  {
    hide ReadLine, FirstIis, Scan;
    entries, total, first, last := [], 0, None, None;
    NoIis();
    var offset := 0;
    while offset < |file|
      invariant entries + Scan(file, offset, total) == Scan(file, 0, 0)
      invariant total == if entries == [] then 0 else entries[|entries| - 1].cumSamples
      invariant first == FirstIis(entries) && last == LastIis(entries)
      decreases |file| - offset
    {
      var l := ReadLine(file[offset..]);
      ScanStep(file, offset, total);
      if l.Stop? {
        return;
      }
      total := total + l.samples;
      if l.kind == 1 {
        if first.None? { first := Some(l.timestampUs); }
        last := Some(l.timestampUs);
      }
      var entry := Entry(offset, l.timestampUs, total, l.kind);
      FirstIisAppend(entries, entry);
      assert (entries + [entry])[..|entries|] == entries;
      offset := offset + l.size;
      Assoc(entries, [entry], Scan(file, offset, total));
      entries := entries + [entry];
    }
    ScanStep(file, offset, total);
  }

  lemma ScanStep(file: seq<byte>, offset: nat, total: nat)
    ensures Scan(file, offset, total) ==
            if offset >= |file| then [] else
              var l := ReadLine(file[offset..]);
              if l.Stop? then [] else
                [Entry(offset, l.timestampUs, total + l.samples, l.kind)] + Scan(file, offset + l.size, total + l.samples)
  {}

  lemma NoIis()
    ensures FirstIis([]) == None
  {}

  // ---- What the receiver makes of well-formed files ----

  /** The samples that the receiver reconstructs from a frame. */
  function SampleCount(f: seq<byte>): nat
    requires WellFormed(f)
  {
    var h := ReadHeader(f);
    if ContentOf(h).t.Iis3dwbFifo? then
      |IisClock.Where(IisClock.Tags(f[h.headerSize..|f| - CRC_SIZE]), IisClock.ACCEL)|
    else 0
  }

  /** A decoded frame agrees with its bytes. */
  predicate DecodedFrom(frame: Frame, f: seq<byte>)
    requires WellFormed(f)
  {
    && frame.raw == f && frame.timestampUs == ReadHeader(f).timestampUs
    && frame.messageType == ContentOf(ReadHeader(f)).t
    && (if frame.iis.Some? then |frame.iis.value| else 0) == SampleCount(f)
  }

  lemma DeliverDecodes(s: Session, f: seq<byte>)
    requires WellFormed(f)
    ensures var d := Deliver(s, f, true);
            |d.1| == 1 && DecodedFrom(d.1[0], f)
  {
    hide ReadHeader, Crc32.Sealed, HeaderVerdict, IisClock.Where, IisClock.Tags, IisClock.ArrayTimes, RecordSequence,
         IisClock.RawOf, IisClock.TicksOf;
  }

  lemma {:induction false} DigestDecodes(s: Session, fs: seq<seq<byte>>)
    requires forall i :: 0 <= i < |fs| ==> WellFormed(fs[i])
    ensures SoundPieces(AsWholes(fs))
    ensures var r := Digest(s, AsWholes(fs), true);
            |r.frames| == |fs| && forall i :: 0 <= i < |fs| ==> DecodedFrom(r.frames[i], fs[i])
    decreases |fs|
  {
    hide Deliver, DecodedFrom, ReadHeader, HeaderVerdict, Crc32.Sealed, ContentOf;
    DigestFrames(s, fs, true);
    if fs != [] {
      assert WellFormed(fs[0]);
      var d := Deliver(s, fs[0], true);
      DeliverDecodes(s, fs[0]);
      DigestDecodes(d.0, fs[1..]);
      assert AsWholes(fs)[1..] == AsWholes(fs[1..]);
      var more := Digest(d.0, AsWholes(fs[1..]), true).frames;
      forall i | 0 <= i < |fs| ensures DecodedFrom((d.1 + more)[i], fs[i]) {
        if i > 0 { assert fs[i] == fs[1..][i - 1] && (d.1 + more)[i] == more[i - 1]; }
      }
    }
  }

  /** Parsing a well-formed file from scratch. */
  lemma ParseDecodes(s: Session, fs: seq<seq<byte>>)
    requires forall i :: 0 <= i < |fs| ==> WellFormed(fs[i])
    ensures var o := Parse(s, Flatten(fs), true);
            |o.frames| == |fs| && forall i :: 0 <= i < |fs| ==> DecodedFrom(o.frames[i], fs[i])
  {
    hide Cut, Digest, WellFormed, DecodedFrom;
    CutNothing();
    assert Flatten(fs) + [] == Flatten(fs);
    CutFrames(fs, []);
    assert AsWholes(fs) + [] == AsWholes(fs);
    DigestDecodes(s, fs);
  }

  // ---- The index agrees with the receiver ----

  lemma {:induction false} WhereCounts(tags: seq<nat>, tag: nat)
    ensures |IisClock.Where(tags, tag)| == IisClock.CountEq(tags, tag)
    decreases |tags|
  {
    if tags != [] {
      var n := |tags| - 1;
      WhereCounts(tags[..n], tag);
      CountEqAppend(tags[..n], tags[n], tag);
      assert tags[..n] + [tags[n]] == tags;
    }
  }

  lemma {:induction false} CountEqAppend(s: seq<nat>, x: nat, tag: nat)
    ensures IisClock.CountEq(s + [x], tag) == IisClock.CountEq(s, tag) + if x == tag then 1 else 0
  {
    if s == [] {
      assert s + [x] == [x];
    } else {
      assert (s + [x])[1..] == s[1..] + [x];
      CountEqAppend(s[1..], x, tag);
    }
  }

  lemma {:induction false} AccelWordsAreTags(payload: seq<byte>)
    requires |payload| % IisClock.WORD_SIZE == 0
    ensures CountAccelWords(payload) == IisClock.CountEq(IisClock.Tags(payload), IisClock.ACCEL)
    decreases |payload|
  {
    if payload != [] {
      var more := payload[IisClock.WORD_SIZE..];
      AccelWordsAreTags(more);
      TagsStep(payload);
      if |payload| == IisClock.WORD_SIZE { assert more == []; }
    }
  }

  lemma TagsStep(payload: seq<byte>)
    requires |payload| % IisClock.WORD_SIZE == 0 && payload != []
    ensures IisClock.Tags(payload) != [] && IisClock.Tags(payload)[0] == payload[0] / 8
    ensures IisClock.Tags(payload)[1..] == IisClock.Tags(payload[IisClock.WORD_SIZE..])
  {
    var t, u := IisClock.Tags(payload), IisClock.Tags(payload[IisClock.WORD_SIZE..]);
    assert |payload| / IisClock.WORD_SIZE == 1 + |payload[IisClock.WORD_SIZE..]| / IisClock.WORD_SIZE;
    forall i | 0 <= i < |u| ensures t[1..][i] == u[i] {
      assert payload[IisClock.WORD_SIZE..][IisClock.WORD_SIZE * i] == payload[IisClock.WORD_SIZE * (i + 1)];
    }
  }

  function KindOf(t: MessageType): nat {
    match t case Iis3dwbFifo => 1 case Jy61plSample => 2 case _ => 0
  }

  /** The scan reads one well-formed frame as the receiver does. */
  lemma LineOfFrame(f: seq<byte>, more: seq<byte>)
    requires WellFormed(f)
    ensures var h := ReadHeader(f);
            ReadLine(f + more) == Line(h.timestampUs, SampleCount(f), KindOf(ContentOf(h).t), |f|)
  {
    hide ReadHeader, Crc32.Sealed, SampleCount, CountAccelWords;
    var b := f + more;
    var h := ReadHeader(f);
    assert b[..4] == f[..4] && b[4] == f[4];
    HeaderOfPrefix(f, more);
    HeaderVersion(f);
    PayloadCount(f);
    if h.messageType == 1 {
      assert b[h.headerSize..h.headerSize + h.payloadSize] == f[h.headerSize..|f| - CRC_SIZE];
    }
  }

  lemma PayloadCount(f: seq<byte>)
    requires WellFormed(f)
    ensures var h := ReadHeader(f);
            SampleCount(f) == if h.messageType == 1 then CountAccelWords(f[h.headerSize..|f| - CRC_SIZE]) else 0
  {
    hide ReadHeader, Crc32.Sealed, IisClock.Tags, IisClock.Where, CountAccelWords;
    var h := ReadHeader(f);
    if h.messageType == 1 {
      var payload := f[h.headerSize..|f| - CRC_SIZE];
      AccelWordsAreTags(payload);
      WhereCounts(IisClock.Tags(payload), IisClock.ACCEL);
    }
  }

  lemma HeaderVersion(f: seq<byte>)
    requires |f| >= HEADER_SIZE
    ensures ReadHeader(f).version == f[4] && ReadHeader(f).messageType == f[5]
  {}

  /** Samples of a run of frames. */
  function TotalSamples(fs: seq<seq<byte>>): nat
    requires forall i :: 0 <= i < |fs| ==> WellFormed(fs[i])
  {
    if fs == [] then 0 else SampleCount(fs[0]) + TotalSamples(fs[1..])
  }

  predicate EntryFor(e: Entry, f: seq<byte>)
    requires WellFormed(f)
  {
    e.timestampUs == ReadHeader(f).timestampUs && e.kind == KindOf(ContentOf(ReadHeader(f)).t)
  }

  lemma {:induction false} ScanFrames(before: seq<byte>, fs: seq<seq<byte>>, total: nat)
    requires forall i :: 0 <= i < |fs| ==> WellFormed(fs[i])
    ensures var es := Scan(before + Flatten(fs), |before|, total);
            && |es| == |fs|
            && forall i :: 0 <= i < |fs| ==>
                 && EntryFor(es[i], fs[i])
                 && es[i].offset == |before| + |Flatten(fs[..i])|
                 && es[i].cumSamples == total + TotalSamples(fs[..i + 1])
    decreases |fs|
  {
    hide WellFormed, ReadLine, ReadHeader, ContentOf, EntryFor;
    var file := before + Flatten(fs);
    if fs != [] {
      var f, more := fs[0], fs[1..];
      NonEmptyFrame(f);
      assert file[|before|..] == f + Flatten(more);
      LineOfFrame(f, Flatten(more));
      EntryForLine(f, |before|, total + SampleCount(f));
      assert file == (before + f) + Flatten(more);
      ScanFrames(before + f, more, total + SampleCount(f));
      var es := Scan(file, |before|, total);
      forall i | 0 <= i < |fs|
        ensures es[i].offset == |before| + |Flatten(fs[..i])| && es[i].cumSamples == total + TotalSamples(fs[..i + 1])
        ensures EntryFor(es[i], fs[i])
      {
        if i == 0 {
          assert fs[..0] == [] && fs[..1] == [f] && fs[..1][1..] == [];
        } else {
          assert fs[..i][0] == f && fs[..i][1..] == more[..i - 1];
          assert fs[..i + 1][0] == f && fs[..i + 1][1..] == more[..i];
          assert fs[i] == more[i - 1];
        }
      }
    }
  }

  lemma NonEmptyFrame(f: seq<byte>)
    requires WellFormed(f)
    ensures |f| >= 32
  {}

  lemma EntryForLine(f: seq<byte>, offset: nat, cum: nat)
    requires WellFormed(f)
    ensures EntryFor(Entry(offset, ReadHeader(f).timestampUs, cum, KindOf(ContentOf(ReadHeader(f)).t)), f)
  {}

  lemma {:induction false} FlattenCut(fs: seq<seq<byte>>, k: nat)
    requires k <= |fs|
    ensures Flatten(fs) == Flatten(fs[..k]) + Flatten(fs[k..])
  {
    assert fs == fs[..k] + fs[k..];
    FlattenConcat(fs[..k], fs[k..]);
  }

  /** Samples reconstructed in a run of decoded frames. */
  function DecodedSamples(frames: seq<Frame>): nat {
    if frames == [] then 0 else
      (if frames[0].iis.Some? then |frames[0].iis.value| else 0) + DecodedSamples(frames[1..])
  }

  lemma {:induction false} TotalIsDecoded(frames: seq<Frame>, fs: seq<seq<byte>>)
    requires |frames| == |fs| && (forall i :: 0 <= i < |fs| ==> WellFormed(fs[i]))
    requires forall i :: 0 <= i < |fs| ==> DecodedFrom(frames[i], fs[i])
    ensures DecodedSamples(frames) == TotalSamples(fs)
    decreases |fs|
  {
    hide WellFormed, SampleCount;
    if fs != [] {
      assert DecodedFrom(frames[0], fs[0]);
      TotalIsDecoded(frames[1..], fs[1..]);
    }
  }

  /**
   * Playback agreement on every concatenation of well-formed frames: the header-only index lists
   * exactly the frames that the receiver decodes, with their times, kinds and running sample
   * counts, and decoding from any indexed offset yields exactly the remaining frames.
   */
  lemma IndexAgrees(fs: seq<seq<byte>>, k: nat)
    requires forall i :: 0 <= i < |fs| ==> WellFormed(fs[i])
    requires k < |fs|
    ensures var es := Scan(Flatten(fs), 0, 0);
            var o := Parse(FRESH, Flatten(fs), true);
            && |es| == |o.frames| == |fs|
            && es[k].timestampUs == o.frames[k].timestampUs
            && es[k].kind == KindOf(o.frames[k].messageType)
            && es[k].cumSamples == DecodedSamples(o.frames[..k + 1])
            && es[k].offset <= |Flatten(fs)|
            && Raws(Parse(FRESH, Flatten(fs)[es[k].offset..], true).frames) == fs[k..]
  {
    hide Scan, Parse, WellFormed, ReadHeader, ContentOf, TotalSamples, DecodedSamples;
    ScanFrames([], fs, 0);
    assert [] + Flatten(fs) == Flatten(fs);
    ParseDecodes(FRESH, fs);
    TotalIsDecoded(Parse(FRESH, Flatten(fs), true).frames[..k + 1], fs[..k + 1]);
    FlattenCut(fs, k);
    assert Flatten(fs)[|Flatten(fs[..k])|..] == Flatten(fs[k..]);
    ParseDecodes(FRESH, fs[k..]);
    var o := Parse(FRESH, Flatten(fs[k..]), true);
    assert forall i :: 0 <= i < |fs[k..]| ==> DecodedFrom(o.frames[i], fs[k..][i]);
    assert Raws(o.frames) == fs[k..];
    assert EntryFor(Scan(Flatten(fs), 0, 0)[k], fs[k]);
    assert DecodedFrom(Parse(FRESH, Flatten(fs), true).frames[k], fs[k]);
  }

  function Timestamps(es: seq<Entry>): (t: seq<int>)
    ensures |t| == |es|
  {
    seq(|es|, i requires 0 <= i < |es| => es[i].timestampUs)
  }

  /** Offset of the last indexed frame at or before a time past `first`. */
  function OffsetForTime(es: seq<Entry>, first: int, time: int): nat {
    if es == [] then 0 else
      var target := first + if time > 0 then time else 0;
      var k := SearchRight(Timestamps(es), target);
      es[if k > 0 then k - 1 else 0].offset
  }

  /** Seeking lands on an indexed frame; with ordered times, on the last one not after the target. */
  lemma SeekLands(es: seq<Entry>, first: int, time: int) returns (k: nat)
    ensures es == [] ==> OffsetForTime(es, first, time) == 0
    ensures es != [] ==> k < |es| && OffsetForTime(es, first, time) == es[k].offset
    ensures es != [] && Sorted(Timestamps(es)) ==>
              var target := first + (if time > 0 then time else 0);
              && (k > 0 ==> es[k].timestampUs <= target)
              && forall i :: k < i < |es| ==> es[i].timestampUs > target
  {
    var target := first + if time > 0 then time else 0;
    var n := SearchRight(Timestamps(es), target);
    k := if n > 0 then n - 1 else 0;
    if Sorted(Timestamps(es)) {
      SearchSplits(Timestamps(es), target);
      assert forall i :: 0 <= i < |es| ==> Timestamps(es)[i] == es[i].timestampUs;
    }
  }

  lemma {:induction false} ScanInFile(file: seq<byte>, offset: nat, total: nat)
    ensures forall i :: 0 <= i < |Scan(file, offset, total)| ==> Scan(file, offset, total)[i].offset < |file|
    decreases |file| - offset
  {
    hide ReadLine;
    if offset < |file| {
      var l := ReadLine(file[offset..]);
      if l.Line? { ScanInFile(file, offset + l.size, total + l.samples); }
    }
  }

  // ---- The pump ----

  const READ_CHUNK := 262_144

  function Sensors(frames: seq<Frame>): seq<Frame> {
    if frames == [] then [] else (if IsSensor(frames[0].messageType) then [frames[0]] else []) + Sensors(frames[1..])
  }

  lemma SensorsStep(f: Frame, more: seq<Frame>)
    ensures Sensors([f] + more) == (if IsSensor(f.messageType) then [f] else []) + Sensors(more)
  {
    assert ([f] + more)[1..] == more;
  }

  lemma NoSensors()
    ensures Sensors([]) == []
  {}

  lemma {:induction false} SensorsConcat(a: seq<Frame>, b: seq<Frame>)
    ensures Sensors(a + b) == Sensors(a) + Sensors(b)
  {
    hide *;
    if a == [] {
      NoSensors();
      assert a + b == b;
      assert [] + Sensors(b) == Sensors(b);
    } else {
      var f, more := a[0], a[1..];
      assert a + b == [f] + (more + b) && a == [f] + more;
      SensorsConcat(more, b);
      SensorsStep(f, more + b);
      SensorsStep(f, more);
      Assoc(if IsSensor(f.messageType) then [f] else [], Sensors(more), Sensors(b));
    }
  }

  /** The longest run of frames from the front with timestamps within the cutoff. */
  function TakeUntil(frames: seq<Frame>, cutoff: int): (r: seq<Frame>)
    ensures r <= frames
  {
    if frames == [] || frames[0].timestampUs > cutoff then [] else [frames[0]] + TakeUntil(frames[1..], cutoff)
  }

  lemma TakeUntilStep(frames: seq<Frame>, cutoff: int)
    ensures TakeUntil(frames, cutoff) ==
            if frames == [] || frames[0].timestampUs > cutoff then [] else [frames[0]] + TakeUntil(frames[1..], cutoff)
  {}

  function Max(a: int, b: int): int {
    if a < b then b else a
  }

  /** Filling to one cutoff and then to another is filling once to the larger. */
  lemma {:induction false} TakeUntilTwice(frames: seq<Frame>, c: int, d: int)
    ensures var n := |TakeUntil(frames, c)|;
            TakeUntil(frames, c) + TakeUntil(frames[n..], d) == TakeUntil(frames, Max(c, d))
  {
    hide TakeUntil;
    TakeUntilStep(frames, c);
    if frames == [] || frames[0].timestampUs > c {
      assert frames[0..] == frames;
      TakeUntilStep(frames, d);
      TakeUntilStep(frames, Max(c, d));
      if d <= c { assert Max(c, d) == c; }
      assert [] + TakeUntil(frames, d) == TakeUntil(frames, d);
    } else {
      var rest := frames[1..];
      TakeUntilTwice(rest, c, d);
      TakeUntilStep(frames, Max(c, d));
      var n := |TakeUntil(rest, c)|;
      assert frames[n + 1..] == rest[n..];
      Assoc([frames[0]], TakeUntil(rest, c), TakeUntil(rest[n..], d));
    }
  }

  /** Frames that the receiver has still to produce from the rest of the file. */
  function Remaining(s: Session, held: seq<byte>, rest: seq<byte>): seq<Frame> {
    Sensors(Parse(s, held + rest, true).frames)
  }

  lemma ReadSome(s: Session, held: seq<byte>, chunk: seq<byte>, rest: seq<byte>)
    ensures var o := Parse(s, held + chunk, true);
            Remaining(s, held, chunk + rest) == Sensors(o.frames) + Remaining(o.session, o.rest, rest)
  {
    hide Parse, Sensors;
    var o := Parse(s, held + chunk, true);
    ParseConcat(s, held + chunk, rest, true);
    assert held + (chunk + rest) == (held + chunk) + rest;
    SensorsConcat(o.frames, Parse(o.session, o.rest + rest, true).frames);
  }

  lemma NothingLeft(s: Session, held: seq<byte>)
    requires Held(held)
    ensures Remaining(s, held, []) == []
  {
    hide Cut;
    assert held + [] == held;
    DigestNothing(s, true);
  }

  // ---- The playhead ----

  function Sum(s: seq<nat>): nat {
    if s == [] then 0 else Sum(s[..|s| - 1]) + s[|s| - 1]
  }

  lemma SumStep(s: seq<nat>, n: nat)
    requires n < |s|
    ensures Sum(s[..n + 1]) == Sum(s[..n]) + s[n]
  {
    assert s[..n + 1][..n] == s[..n];
  }

  function Clamp(time: int, duration: nat): int {
    if time < duration then time else duration
  }

  /** Playing for `time` ends: close enough to the end, and no frame is left. */
  predicate Due(frames: seq<Frame>, first: int, duration: nat, time: int, epsilon: nat) {
    time >= duration - epsilon && TakeUntil(frames, first + Clamp(time, duration)) == frames
  }

  /** Once the clamped sum is known, adding to the clamped playhead is adding to the sum. */
  lemma PlayheadAdds(frames: seq<Frame>, first: int, duration: nat, before: int, more: nat, epsilon: nat)
    ensures Clamp(Clamp(before, duration) + more, duration) == Clamp(before + more, duration)
    ensures Clamp(before, duration) + more >= duration - epsilon <==> before + more >= duration - epsilon
    ensures Due(frames, first, duration, before + more, epsilon) <==>
              before + more >= duration - epsilon && TakeUntil(frames, first + Clamp(before + more, duration)) == frames
  {}

  /** Decode a file piece by piece, applying each sensor frame when its time has come. */
  class PlaybackPump {
    const file: seq<byte>
    const parser: StreamParser
    var position: nat
    var pending: seq<Frame>
    var eof: bool
    var applied: seq<Frame>
    /** The sensor frames from the last restart on, and the largest cutoff since then. */
    ghost var origin: seq<Frame>
    ghost var reached: Option<int>

    ghost function Upcoming(): seq<Frame>
      requires position <= |file|
      reads this, parser, parser.iisTime
    {
      pending + Remaining(parser.State(), parser.buffer, file[position..])
    }

    ghost predicate Valid()
      reads this, parser, parser.iisTime
    {
      && position <= |file| && Held(parser.buffer) && parser.decodeSensorPayload
      && (eof ==> position == |file|)
      && applied + Upcoming() == origin
      && (if reached.Some? then applied == TakeUntil(origin, reached.value) else applied == [])
    }

    /** The next frame is not due yet, or there is none. */
    predicate Stalled(cutoff: int)
      reads this
    {
      if pending == [] then eof else pending[0].timestampUs > cutoff
    }

    constructor (file: seq<byte>)
      ensures Valid() && this.file == file && origin == Sensors(Parse(FRESH, file, true).frames) && reached.None?
      ensures fresh(parser) && fresh(parser.iisTime)
    {
      this.file := file;
      parser := new StreamParser(true);
      position, pending, eof, applied, reached := 0, [], false, [], None;
      origin := Sensors(Parse(FRESH, file, true).frames);
      new;
      hide Parse, Sensors, Cut, Held, Remaining, TakeUntil;
      FromTheStart(file);
    }

    /** Restart at an offset: a new session, nothing pending, the applied frames forgotten. */
    method RestartDecoder(offset: nat)
      requires Valid() && offset <= |file|
      modifies this, parser
      ensures Valid() && applied == [] && reached.None? && fresh(parser.iisTime)
      ensures origin == Sensors(Parse(FRESH, file[offset..], true).frames)
    {
      hide Parse, Sensors;
      position := offset;
      parser.ResetSession();
      pending, eof, applied, reached := [], false, [], None;
      origin := Sensors(Parse(FRESH, file[offset..], true).frames);
      assert [] + file[offset..] == file[offset..];
      assert [] + ([] + origin) == origin;
      CutNothing();
    }

    /** Apply pending frames whose time has come. */
    method ApplyDue(cutoff: int)
      requires position <= |file|
      modifies `pending, `applied
      ensures applied == old(applied) + TakeUntil(old(pending), cutoff)
      ensures pending == old(pending)[|TakeUntil(old(pending), cutoff)|..]
      ensures pending != [] ==> pending[0].timestampUs > cutoff
    {
      ghost var n := 0;
      while pending != [] && pending[0].timestampUs <= cutoff
        invariant n <= |old(pending)| && pending == old(pending)[n..]
        invariant applied + TakeUntil(pending, cutoff) == old(applied) + TakeUntil(old(pending), cutoff)
        invariant n + |TakeUntil(pending, cutoff)| == |TakeUntil(old(pending), cutoff)|
        decreases |pending|
      {
        Assoc(applied, [pending[0]], TakeUntil(pending[1..], cutoff));
        applied := applied + [pending[0]];
        pending := pending[1..];
        n := n + 1;
      }
    }

    /** Read and decode the next piece of the file. */
    method ReadMore()
      requires position <= |file| && Held(parser.buffer) && parser.decodeSensorPayload && !eof && pending == []
      modifies `position, `pending, `eof, parser, parser.iisTime
      ensures position <= |file| && Held(parser.buffer) && parser.iisTime == old(parser.iisTime)
      ensures if old(position) == |file| then eof && position == |file| else !eof && old(position) < position
      ensures pending + Remaining(parser.State(), parser.buffer, file[position..])
              == old(Remaining(parser.State(), parser.buffer, file[position..]))
      ensures eof ==> pending == []
    {
      hide Parse, Sensors, Held, Remaining;
      var end := if position + READ_CHUNK < |file| then position + READ_CHUNK else |file|;
      var chunk := file[position..end];
      if chunk == [] {
        eof := true;
        return;
      }
      ReadSome(parser.State(), parser.buffer, chunk, file[end..]);
      assert file[position..] == chunk + file[end..];
      position := end;
      var frames := parser.Feed(chunk);
      pending := Sensors(frames);
    }

    /** Apply what is due, then stop or read on. */
    method Round(cutoff: int) returns (stop: bool, ghost due: seq<Frame>)
      requires position <= |file| && Held(parser.buffer) && parser.decodeSensorPayload && (eof ==> position == |file|)
      modifies `position, `pending, `eof, `applied, parser, parser.iisTime
      ensures position <= |file| && Held(parser.buffer) && (eof ==> position == |file|)
      ensures parser.iisTime == old(parser.iisTime)
      ensures applied == old(applied) + due && due + Upcoming() == old(Upcoming())
      ensures TakeUntil(old(Upcoming()), cutoff) == due + TakeUntil(Upcoming(), cutoff)
      ensures stop ==> TakeUntil(Upcoming(), cutoff) == [] && Stalled(cutoff)
      ensures !stop ==> old(position) < position || (position == old(position) && eof && !old(eof))
    {
      hide Parse, Sensors, Held, Remaining, TakeUntil;
      ghost var more := Remaining(parser.State(), parser.buffer, file[position..]);
      DueFirst(pending, more, cutoff);
      due := TakeUntil(pending, cutoff);
      ghost var queued := pending;
      ApplyDue(cutoff);
      assert queued == due + pending;
      assert due + (pending + more) == (due + pending) + more;
      if pending != [] || eof {
        if pending == [] {
          assert file[position..] == [];
          NothingLeft(parser.State(), parser.buffer);
        }
        NoneDue(Upcoming(), cutoff);
        return true, due;
      }
      assert pending + more == more;
      ReadMore();
      return false, due;
    }

    /**
     * Advance to a cutoff.  Whatever the cutoffs were, the frames applied since the restart are the
     * longest run within the largest of them: each once, in file order.
     */
    method FillUntil(cutoff: int)
      requires Valid()
      modifies this, parser, parser.iisTime
      ensures Valid() && origin == old(origin) && parser.iisTime == old(parser.iisTime)
      ensures reached == Some(if old(reached).Some? then Max(old(reached).value, cutoff) else cutoff)
      ensures Stalled(cutoff)
    {
      hide Parse, Sensors, Held, Remaining, TakeUntil, PlaybackPump.Upcoming;
      ghost var was, up := applied, Upcoming();
      ghost var done: seq<Frame> := [];
      var stop := false;
      while !stop
        invariant position <= |file| && Held(parser.buffer) && parser.decodeSensorPayload && (eof ==> position == |file|)
        invariant parser.iisTime == old(parser.iisTime) && origin == old(origin) && reached == old(reached)
        invariant applied == was + done && done + Upcoming() == up
        invariant TakeUntil(up, cutoff) == done + TakeUntil(Upcoming(), cutoff)
        invariant stop ==> TakeUntil(Upcoming(), cutoff) == [] && Stalled(cutoff)
        decreases !stop, |file| - position, !eof
      {
        ghost var due;
        ghost var so := done;
        stop, due := Round(cutoff);
        done := so + due;
        Assoc(so, due, Upcoming());
        Assoc(so, due, TakeUntil(Upcoming(), cutoff));
        Assoc(was, so, due);
      }
      FillsOnce(origin, was, up, done, cutoff, reached);
      Assoc(was, done, Upcoming());
      Note(if reached.Some? then Max(reached.value, cutoff) else cutoff);
    }

    /** Jump to a time, restarting one window earlier and refilling up to it. */
    method Seek(es: seq<Entry>, first: int, duration: int, time: int, window: int) returns (playhead: int)
      requires Valid() && es == Scan(file, 0, 0) && duration >= 0
      modifies this, parser
      ensures Valid() && playhead == (if time < 0 then 0 else if time < duration then time else duration)
      ensures reached == Some(first + playhead)
      ensures var offset := OffsetForTime(es, first, if playhead > window then playhead - window else 0);
              offset <= |file| && origin == Sensors(Parse(FRESH, file[offset..], true).frames)
    {
      hide Parse, Sensors, Scan;
      playhead := if time < 0 then 0 else if time < duration then time else duration;
      ScanInFile(file, 0, 0);
      RestartDecoder(OffsetForTime(es, first, if playhead > window then playhead - window else 0));
      FillUntil(first + playhead);
    }

    /**
     * One timer tick: the playhead moves on by the elapsed time, up to the end, and the display follows
     * it.  Nothing has been filled yet at the first tick after a restart without a seek.  Playback stops
     * exactly when the playhead is within `epsilon` of the end and every frame has been applied, which at
     * the end is so if no frame lies behind it.
     */
    method Tick(first: int, duration: int, playhead: int, elapsed: nat, epsilon: nat) returns (next: int, finished: bool)
      requires Valid() && playhead <= duration && (reached.None? || reached == Some(first + playhead))
      modifies this, parser, parser.iisTime
      ensures Valid() && origin == old(origin) && parser.iisTime == old(parser.iisTime)
      ensures playhead + elapsed <= duration ==> next == playhead + elapsed
      ensures playhead + elapsed > duration ==> next == duration
      ensures reached == Some(first + next) && applied == TakeUntil(origin, first + next)
      ensures finished <==> playhead + elapsed >= duration - epsilon && applied == origin
      ensures next == duration && (forall i :: 0 <= i < |origin| ==> origin[i].timestampUs <= first + duration) ==> finished
    {
      hide Parse, Sensors, Cut, Held, Remaining, TakeUntil;
      next := if playhead + elapsed < duration then playhead + elapsed else duration;
      FillUntil(first + next);
      finished := playhead + elapsed >= duration - epsilon && eof && pending == [];
      if pending == [] {
        assert file[position..] == [];
        NothingLeft(parser.State(), parser.buffer);
        assert applied + ([] + []) == applied;
      } else {
        assert origin[|applied|] == pending[0];
        assert |applied| < |origin|;
      }
    }

    /**
     * A run of ticks from a restart: after every tick the playhead is the sum of the elapsed times, up
     * to the end, and the applied frames are those due by it.  Playback stops at the first tick where
     * that sum is within `epsilon` of the end and every frame is due.
     */
    method Play(first: int, duration: nat, elapsed: seq<nat>, epsilon: nat) returns (playhead: int, ticks: nat, finished: bool)
      requires Valid() && reached.None?
      modifies this, parser, parser.iisTime
      ensures Valid() && origin == old(origin) && ticks <= |elapsed|
      ensures playhead == Clamp(Sum(elapsed[..ticks]), duration)
      ensures ticks > 0 ==> applied == TakeUntil(origin, first + playhead)
      ensures finished ==> ticks > 0 && Due(origin, first, duration, Sum(elapsed[..ticks]), epsilon)
      ensures !finished ==> ticks == |elapsed|
      ensures forall k :: 0 < k < ticks || (k == ticks > 0 && !finished) ==>
                !Due(origin, first, duration, Sum(elapsed[..k]), epsilon)
    {
      hide Parse, Sensors, Cut, Held, Remaining, TakeUntil, PlaybackPump.Upcoming;
      playhead, ticks, finished := 0, 0, false;
      while ticks < |elapsed| && !finished
        invariant Valid() && origin == old(origin) && parser.iisTime == old(parser.iisTime) && ticks <= |elapsed|
        invariant playhead == Clamp(Sum(elapsed[..ticks]), duration)
        invariant if ticks == 0 then reached.None? else reached == Some(first + playhead)
        invariant ticks > 0 ==> applied == TakeUntil(origin, first + playhead)
        invariant finished ==> ticks > 0 && Due(origin, first, duration, Sum(elapsed[..ticks]), epsilon)
        invariant forall k :: 0 < k < ticks || (k == ticks > 0 && !finished) ==>
                    !Due(origin, first, duration, Sum(elapsed[..k]), epsilon)
        decreases |elapsed| - ticks
      {
        SumStep(elapsed, ticks);
        ghost var before := Sum(elapsed[..ticks]);
        PlayheadAdds(origin, first, duration, before, elapsed[ticks], epsilon);
        playhead, finished := Tick(first, duration, playhead, elapsed[ticks], epsilon);
        ticks := ticks + 1;
      }
    }

    /** Remember the largest cutoff. */
    ghost method Note(cutoff: int)
      requires position <= |file|
      modifies `reached
      ensures reached == Some(cutoff) && Upcoming() == old(Upcoming())
    {
      reached := Some(cutoff);
    }
  }

  lemma FromTheStart(file: seq<byte>)
    ensures Held([]) && [] + ([] + Remaining(FRESH, [], file[0..])) == Sensors(Parse(FRESH, file, true).frames)
  {
    hide Parse, Sensors;
    CutNothing();
    assert file[0..] == file && [] + file == file;
  }

  lemma {:induction false} DueFirst(pending: seq<Frame>, more: seq<Frame>, cutoff: int)
    ensures var n := |TakeUntil(pending, cutoff)|;
            TakeUntil(pending + more, cutoff) == TakeUntil(pending, cutoff) + TakeUntil(pending[n..] + more, cutoff)
    decreases |pending|
  {
    hide *;
    if pending == [] || pending[0].timestampUs > cutoff {
      TakeUntilStep(pending, cutoff);
      assert pending[0..] == pending;
      assert [] + TakeUntil(pending + more, cutoff) == TakeUntil(pending + more, cutoff);
    } else {
      var f, rest := pending[0], pending[1..];
      TakeUntilCons(f, rest, cutoff);
      TakeUntilCons(f, rest + more, cutoff);
      DueFirst(rest, more, cutoff);
      var n := |TakeUntil(rest, cutoff)|;
      assert pending == [f] + rest && pending + more == [f] + (rest + more);
      assert pending[n + 1..] == rest[n..];
      Assoc([f], TakeUntil(rest, cutoff), TakeUntil(rest[n..] + more, cutoff));
    }
  }

  lemma TakeUntilCons(f: Frame, more: seq<Frame>, cutoff: int)
    requires f.timestampUs <= cutoff
    ensures TakeUntil([f] + more, cutoff) == [f] + TakeUntil(more, cutoff)
  {
    hide TakeUntil;
    TakeUntilStep([f] + more, cutoff);
    assert ([f] + more)[1..] == more;
  }

  lemma NoneDue(frames: seq<Frame>, cutoff: int)
    requires frames != [] ==> frames[0].timestampUs > cutoff
    ensures TakeUntil(frames, cutoff) == []
  {}

  lemma FillsOnce(origin: seq<Frame>, was: seq<Frame>, up: seq<Frame>, done: seq<Frame>, cutoff: int,
                  reached: Option<int>)
    requires was + up == origin && done == TakeUntil(up, cutoff)
    requires if reached.Some? then was == TakeUntil(origin, reached.value) else was == []
    ensures was + done == TakeUntil(origin, if reached.Some? then Max(reached.value, cutoff) else cutoff)
  {
    if reached.Some? {
      assert origin[|was|..] == up;
      TakeUntilTwice(origin, reached.value, cutoff);
    } else {
      assert up == origin;
    }
  }
}
