/**
 * FIFO payloads built word by word.  Each word has seven bytes: a tag in the upper five bits of the
 * first, then three signed 16-bit accelerations (tag 2), a 32-bit tick count (tag 4), or other data.
 * Times are in half microseconds: a sample period is 75 and a tick is 50.
 */
module IisWords {
  import opened Bytes
  import opened Arrays
  import opened IisClock

  datatype Word =
    | Accel(low: nat, x: int, y: int, z: int)
    | Tick(low: nat, ticks: nat, pad: seq<byte>)
    | Other(tag: nat, low: nat, data: seq<byte>)

  predicate Signed16(v: int) {
    -32768 <= v <= 32767
  }

  predicate Legal(w: Word) {
    w.low < 8 &&
    match w
    case Accel(_, x, y, z) => Signed16(x) && Signed16(y) && Signed16(z)
    case Tick(_, ticks, pad) => ticks < 0x1_0000_0000 && |pad| == 2
    case Other(tag, _, data) => tag < 32 && tag != 2 && tag != 4 && |data| == 6
  }

  /** Two's complement, least significant byte first. */
  function Pair(v: int): (b: seq<byte>)
    requires Signed16(v)
    ensures |b| == 2
  {
    var u := if v < 0 then v + 65536 else v;
    [u % 256, u / 256]
  }

  function WordBytes(w: Word): (b: seq<byte>)
    requires Legal(w)
    ensures |b| == 7
  {
    match w
    case Accel(low, x, y, z) => [16 + low] + Pair(x) + Pair(y) + Pair(z)
    case Tick(low, t, pad) => [32 + low] + [t % 256, t / 256 % 256, t / 65536 % 256, t / 16777216] + pad
    case Other(tag, low, data) => [8 * tag + low] + data
  }

  predicate AllLegal(words: seq<Word>) {
    forall i :: 0 <= i < |words| ==> Legal(words[i])
  }

  function Payload(words: seq<Word>): (b: seq<byte>)
    requires AllLegal(words)
    ensures |b| == 7 * |words|
  {
    if words == [] then [] else WordBytes(words[0]) + Payload(words[1..])
  }

  lemma {:induction false} PayloadAt(words: seq<Word>, p: nat)
    requires AllLegal(words) && p < |words|
    ensures Payload(words)[7 * p..7 * p + 7] == WordBytes(words[p])
  {
    hide WordBytes, Legal;
    var b, rest := WordBytes(words[0]), Payload(words[1..]);
    if p == 0 {
      assert (b + rest)[0..7] == b;
    } else {
      PayloadAt(words[1..], p - 1);
      assert (b + rest)[7 * p..7 * p + 7] == rest[7 * (p - 1)..7 * (p - 1) + 7];
    }
  }

  // ---- Reading one word ----

  lemma LeOne(a: nat, rest: seq<byte>)
    requires a < 256
    ensures Le([a] + rest) == a + 256 * Le(rest) && Le([]) == 0
  {
    assert ([a] + rest)[1..] == rest;
  }

  lemma LePair(v: int)
    requires Signed16(v)
    ensures I16(Le(Pair(v))) == v
  {
    var u := if v < 0 then v + 65536 else v;
    assert Pair(v) == [u % 256] + ([u / 256] + []);
    hide Le;
    LeOne(u % 256, [u / 256] + []);
    LeOne(u / 256, []);
  }

  lemma LeTicks(t: nat)
    requires t < 0x1_0000_0000
    ensures Le([t % 256, t / 256 % 256, t / 65536 % 256, t / 16777216]) == t
  {
    var b0, b1, b2, b3 := t % 256, t / 256 % 256, t / 65536 % 256, t / 16777216;
    hide Le;
    assert [t % 256, t / 256 % 256, t / 65536 % 256, t / 16777216] == [b0] + ([b1] + ([b2] + ([b3] + [])));
    LeOne(b0, [b1] + ([b2] + ([b3] + [])));
    LeOne(b1, [b2] + ([b3] + []));
    LeOne(b2, [b3] + []);
    LeOne(b3, []);
    assert t == b0 + 256 * (t / 256) && t / 256 == b1 + 256 * (t / 65536) && t / 65536 == b2 + 256 * b3;
  }

  function TagOf(w: Word): nat {
    match w case Accel(_, _, _, _) => 2 case Tick(_, _, _) => 4 case Other(tag, _, _) => tag
  }

  lemma WordSlices(b: seq<byte>, p: nat, w: Word)
    requires Legal(w) && 7 * p + 7 <= |b| && b[7 * p..7 * p + 7] == WordBytes(w)
    ensures b[7 * p] == WordBytes(w)[0]
    ensures b[7 * p + 1..7 * p + 7] == WordBytes(w)[1..] && b[7 * p + 1..7 * p + 5] == WordBytes(w)[1..5]
  {
    hide WordBytes;
    var d := WordBytes(w);
    assert b[7 * p] == b[7 * p..7 * p + 7][0];
    forall i | 1 <= i < 7 ensures b[7 * p + i] == d[i] { assert b[7 * p..7 * p + 7][i] == b[7 * p + i]; }
  }

  lemma AccelParts(w: Word)
    requires Legal(w) && w.Accel?
    ensures var e := WordBytes(w)[1..];
            e[0..2] == Pair(w.x) && e[2..4] == Pair(w.y) && e[4..6] == Pair(w.z)
  {
    hide Pair;
    var x, y, z := Pair(w.x), Pair(w.y), Pair(w.z);
    assert WordBytes(w)[1..] == x + y + z;
    assert (x + y + z)[2..4] == y;
  }

  /** The words of a payload read back as they were built. */
  lemma WordReads(words: seq<Word>, p: nat)
    requires AllLegal(words) && p < |words|
    ensures var b, w := Payload(words), words[p];
            && Tags(b)[p] == TagOf(w)
            && (w.Accel? ==> RawOf(b, p) == [w.x, w.y, w.z])
            && (w.Tick? ==> Le(b[7 * p + 1..7 * p + 5]) == w.ticks)
  {
    hide Le, Payload, I16, Pair;
    var b, w := Payload(words), words[p];
    PayloadAt(words, p);
    WordSlices(b, p, w);
    if w.Accel? {
      AccelParts(w);
      hide WordBytes;
      LePair(w.x);
      LePair(w.y);
      LePair(w.z);
    } else if w.Tick? {
      LeTicks(w.ticks);
    }
  }

  // ---- Reading all words ----

  function Tagged(words: seq<Word>): (t: seq<nat>)
    ensures |t| == |words|
  {
    seq(|words|, i requires 0 <= i < |words| => TagOf(words[i]))
  }

  /** The accelerations in order. */
  function Triples(words: seq<Word>): seq<seq<int>> {
    if words == [] then [] else
      (if words[0].Accel? then [[words[0].x, words[0].y, words[0].z]] else []) + Triples(words[1..])
  }

  /** The tick counts in order. */
  function TickCounts(words: seq<Word>): seq<nat> {
    if words == [] then [] else (if words[0].Tick? then [words[0].ticks] else []) + TickCounts(words[1..])
  }

  lemma {:induction false} TriplesLast(words: seq<Word>, w: Word)
    ensures Triples(words + [w]) == Triples(words) + if w.Accel? then [[w.x, w.y, w.z]] else []
    ensures TickCounts(words + [w]) == TickCounts(words) + if w.Tick? then [w.ticks] else []
  {
    if words == [] {
      assert words + [w] == [w] && [w][1..] == [];
    } else {
      var all := words + [w];
      assert all[1..] == words[1..] + [w] && all[0] == words[0];
      TriplesLast(words[1..], w);
      FirstWord(all);
      FirstWord(words);
      hide Triples, TickCounts;
    }
  }

  lemma FirstWord(words: seq<Word>)
    requires words != []
    ensures Triples(words) == (if words[0].Accel? then [[words[0].x, words[0].y, words[0].z]] else []) + Triples(words[1..])
    ensures TickCounts(words) == (if words[0].Tick? then [words[0].ticks] else []) + TickCounts(words[1..])
  {}

  predicate TagsRight(words: seq<Word>) {
    forall i :: 0 <= i < |words| && words[i].Other? ==> words[i].tag != 2 && words[i].tag != 4
  }

  /** The words at the positions of a tag are the words of that kind in order. */
  lemma {:induction false} Picked(words: seq<Word>)
    requires TagsRight(words)
    ensures var a, t := Where(Tagged(words), ACCEL), Where(Tagged(words), TIMESTAMP);
            && |a| == |Triples(words)| && |t| == |TickCounts(words)|
            && (forall i :: 0 <= i < |a| ==>
                  var w := words[a[i]]; w.Accel? && Triples(words)[i] == [w.x, w.y, w.z])
            && (forall i :: 0 <= i < |t| ==> var w := words[t[i]]; w.Tick? && TickCounts(words)[i] == w.ticks)
    decreases |words|
  {
    if words != [] {
      var n := |words| - 1;
      var front, w := words[..n], words[n];
      assert words == front + [w];
      assert Tagged(words)[..n] == Tagged(front) && Tagged(words)[n] == TagOf(w);
      Picked(front);
      TriplesLast(front, w);
      hide Triples, TickCounts;
      var a, t := Where(Tagged(front), ACCEL), Where(Tagged(front), TIMESTAMP);
      assert Where(Tagged(words), ACCEL) == a + if w.Accel? then [n] else [];
      assert Where(Tagged(words), TIMESTAMP) == t + if w.Tick? then [n] else [];
    }
  }

  /** Tags, tick counts and accelerations of a built payload. */
  lemma PayloadReads(words: seq<Word>)
    requires AllLegal(words)
    ensures var b := Payload(words);
            var a, t := Where(Tags(b), ACCEL), Where(Tags(b), TIMESTAMP);
            && Tags(b) == Tagged(words)
            && TicksOf(b, t) == TickCounts(words)
            && |a| == |Triples(words)|
            && forall i :: 0 <= i < |a| ==> RawOf(b, a[i]) == Triples(words)[i]
  {
    hide Le, Payload, RawOf, Where, Triples, TickCounts;
    var b := Payload(words);
    forall p | 0 <= p < |words|
      ensures Tags(b)[p] == TagOf(words[p])
      ensures words[p].Accel? ==> RawOf(b, p) == [words[p].x, words[p].y, words[p].z]
      ensures words[p].Tick? ==> Le(b[7 * p + 1..7 * p + 5]) == words[p].ticks
    {
      WordReads(words, p);
    }
    assert Tags(b) == Tagged(words);
    LegalTags(words);
    Picked(words);
  }

  lemma LegalTags(words: seq<Word>)
    requires AllLegal(words)
    ensures TagsRight(words)
  {
    forall i | 0 <= i < |words| && words[i].Other? ensures words[i].tag != 2 && words[i].tag != 4 {
      assert Legal(words[i]);
    }
  }

  // ---- Times ----

  /** Acceleration words ahead of the first tick word, and behind the last. */
  function AheadOfTicks(words: seq<Word>): nat {
    if words == [] || words[0].Tick? then 0 else (if words[0].Accel? then 1 else 0) + AheadOfTicks(words[1..])
  }

  function BehindTicks(words: seq<Word>): nat {
    if words == [] || words[|words| - 1].Tick? then 0 else
      (if words[|words| - 1].Accel? then 1 else 0) + BehindTicks(words[..|words| - 1])
  }

  /**
   * The samples word by word: an acceleration word takes the clock, and the next one in its segment is
   * 75 later; a tick word sets the clock to 50 per tick of its count.
   */
  function Samples(words: seq<Word>, clock: int, shift: int, counts: seq<int>): seq<Sample> {
    if words == [] then [] else
      match words[0]
      case Accel(_, x, y, z) => [Sample(clock, [x, y, z])] + Samples(words[1..], clock + 75, shift, counts)
      case Tick(_, _, _) =>
        if counts == [] then Samples(words[1..], clock, shift, counts)
        else Samples(words[1..], 50 * counts[0] + shift, shift, counts[1..])
      case Other(_, _, _) => Samples(words[1..], clock, shift, counts)
  }

  lemma {:induction false} AheadIsLeading(words: seq<Word>)
    requires TagsRight(words)
    ensures Leading(Tagged(words)) == AheadOfTicks(words)
  {
    if words != [] {
      assert Tagged(words)[1..] == Tagged(words[1..]);
      AheadIsLeading(words[1..]);
    }
  }

  lemma {:induction false} BehindIsTrailing(words: seq<Word>)
    requires TagsRight(words)
    ensures Trailing(Tagged(words)) == BehindTicks(words)
  {
    if words != [] {
      var n := |words| - 1;
      assert Tagged(words)[..n] == Tagged(words[..n]);
      BehindIsTrailing(words[..n]);
    }
  }

  predicate Scaled(tagTimes: seq<int>, counts: seq<int>, shift: int) {
    |tagTimes| == |counts| && forall i :: 0 <= i < |counts| ==> tagTimes[i] == 50 * counts[i] + shift
  }

  lemma {:induction false} SamplesWalk(words: seq<Word>, clock: int, shift: int, counts: seq<int>, tagTimes: seq<int>)
    requires TagsRight(words) && Scaled(tagTimes, counts, shift)
    ensures var s := Samples(words, clock, shift, counts);
            && SampleTimes(s) == Walk(Tagged(words), clock, tagTimes)
            && |s| == |Triples(words)| && forall i :: 0 <= i < |s| ==> s[i].raw == Triples(words)[i]
    decreases |words|
  {
    if words != [] {
      var w, rest := words[0], words[1..];
      assert Tagged(words)[1..] == Tagged(rest) && Tagged(words)[0] == TagOf(w);
      if w.Accel? {
        SamplesWalk(rest, clock + 75, shift, counts, tagTimes);
      } else if w.Tick? && counts != [] {
        SamplesWalk(rest, 50 * counts[0] + shift, shift, counts[1..], tagTimes[1..]);
      } else {
        SamplesWalk(rest, clock, shift, counts, tagTimes);
      }
    }
  }

  /**
   * Every payload built word by word, on every carried clock, yields exactly its accelerations in
   * order.  Without tick words they follow the carried clock, or end at the frame timestamp; otherwise
   * tick words are 50 apart per tick, shifted so that the last sample behind the last of them falls on
   * the frame timestamp, and the first samples follow the carried clock or lead up to the first tick.
   */
  lemma WordsReconstructed(c: Clock, words: seq<Word>, timestampUs: nat)
    requires AllLegal(words) && Triples(words) != []
    ensures var (c', samples) := Process(c, Payload(words), timestampUs);
            var counts := Extended(c, TickCounts(words));
            var behind := BehindTicks(words);
            var shift := if counts == [] then 0
                         else 2 * timestampUs - 75 * (if behind > 0 then behind - 1 else 0) - 50 * counts[|counts| - 1];
            var start := if c.carry.Some? then c.carry.value
                         else if counts == [] then 2 * timestampUs - 75 * (|Triples(words)| - 1)
                         else 50 * counts[0] + shift - 75 * AheadOfTicks(words);
            && samples == Samples(words, start, shift, counts) && samples != []
            && c' == ExtendAll(c, TickCounts(words)).(carry := Some(samples[|samples| - 1].time + 75))
  {
    hide Le, Payload, RawOf, TicksOf, Tags, Where, Triples, TickCounts, Extended, ExtendAll, Process, WalkerTimes,
      Samples, AheadOfTicks, BehindTicks;
    var b, tags := Payload(words), Tagged(words);
    PayloadReads(words);
    ProcessWalks(c, b, timestampUs);
    var samples := Process(c, b, timestampUs).1;
    var counts := Extended(c, TickCounts(words));
    var start, shift := WalkerOnWords(c.carry, words, counts, 2 * timestampUs);
    SameSamples(samples, Samples(words, start, shift, counts));
  }

  lemma SameSamples(a: seq<Sample>, b: seq<Sample>)
    requires |a| == |b| && SampleTimes(a) == SampleTimes(b) && forall i :: 0 <= i < |a| ==> a[i].raw == b[i].raw
    ensures a == b
  {
    forall i | 0 <= i < |a| ensures a[i] == b[i] {
      assert SampleTimes(a)[i] == SampleTimes(b)[i];
    }
  }

  /** The walker's times on a built payload. */
  lemma WalkerOnWords(carry: Option<int>, words: seq<Word>, counts: seq<int>, frameTime: int) returns (start: int, shift: int)
    requires AllLegal(words) && |counts| == |TickCounts(words)|
    ensures shift == if counts == [] then 0
                     else frameTime - 75 * (if BehindTicks(words) > 0 then BehindTicks(words) - 1 else 0)
                          - 50 * counts[|counts| - 1]
    ensures start == if carry.Some? then carry.value
                     else if counts == [] then frameTime - 75 * (|Triples(words)| - 1)
                     else 50 * counts[0] + shift - 75 * AheadOfTicks(words)
    ensures var s := Samples(words, start, shift, counts);
            && SampleTimes(s) == WalkerTimes(carry, Tagged(words), counts, frameTime)
            && |s| == |Triples(words)| && forall i :: 0 <= i < |s| ==> s[i].raw == Triples(words)[i]
  {
    hide Walk, Triples, TickCounts, Leading, Trailing, Samples, AheadOfTicks, BehindTicks;
    LegalTags(words);
    AheadIsLeading(words);
    BehindIsTrailing(words);
    if counts == [] {
      AllAhead(words);
      shift := 0;
      start := if carry.Some? then carry.value else frameTime - 75 * (|Triples(words)| - 1);
      SamplesWalk(words, start, 0, [], []);
    } else {
      var behind := BehindTicks(words);
      shift := frameTime - 75 * (if behind > 0 then behind - 1 else 0) - 50 * counts[|counts| - 1];
      start := if carry.Some? then carry.value else 50 * counts[0] + shift - 75 * AheadOfTicks(words);
      var tagTimes := TagTimes(counts, behind, frameTime);
      SamplesWalk(words, start, shift, counts, tagTimes);
    }
  }

  lemma {:induction false} AllAhead(words: seq<Word>)
    requires TickCounts(words) == []
    ensures AheadOfTicks(words) == |Triples(words)|
  {
    if words != [] { AllAhead(words[1..]); }
  }
}
