/**
 * Reconstruction of IIS3DWB sample times.  Times are exact integers in half microseconds: a sensor
 * tick (25 us) is 50 and a sample period (37.5 us) is 75.
 */
module IisClock {
  import opened Bytes
  import opened Arrays

  const WORD_SIZE := 7
  const TICK := 50
  const PERIOD := 75
  const ACCEL := 2
  const TIMESTAMP := 4
  const U32 := 0x1_0000_0000

  datatype Clock = Clock(lastTicks: Option<nat>, epoch: nat, carry: Option<int>)

  const FRESH := Clock(None, 0, None)

  datatype Sample = Sample(time: int, raw: seq<int>)

  // ---- Extension of 32-bit tick counts ----

  function ExtendOne(c: Clock, value: nat): (c': Clock)
  {
    var wrapped := c.lastTicks.Some? && value < c.lastTicks.value && c.lastTicks.value - value > 0x8000_0000;
    c.(epoch := if wrapped then c.epoch + U32 else c.epoch, lastTicks := Some(value))
  }

  function ExtendAll(c: Clock, ticks: seq<nat>): (c': Clock)
    decreases |ticks|
  {
    if ticks == [] then c else ExtendAll(ExtendOne(c, ticks[0]), ticks[1..])
  }

  lemma {:induction false} ExtendKeepsCarry(c: Clock, ticks: seq<nat>)
    ensures ExtendAll(c, ticks).carry == c.carry
    decreases |ticks|
  {
    if ticks != [] { ExtendKeepsCarry(ExtendOne(c, ticks[0]), ticks[1..]); }
  }

  /** The extended value of each tick, in order. */
  function Extended(c: Clock, ticks: seq<nat>): (e: seq<int>)
    ensures |e| == |ticks|
    decreases |ticks|
  {
    if ticks == [] then [] else
      var c1 := ExtendOne(c, ticks[0]);
      [c1.epoch + ticks[0]] + Extended(c1, ticks[1..])
  }

  lemma ExtendStep(c: Clock, ticks: seq<nat>)
    requires ticks != []
    ensures var c1 := ExtendOne(c, ticks[0]);
            && ExtendAll(c, ticks) == ExtendAll(c1, ticks[1..])
            && Extended(c, ticks) == [c1.epoch + ticks[0]] + Extended(c1, ticks[1..])
  {
    hide ExtendOne;
  }

  lemma ExtendNothing(c: Clock)
    ensures ExtendAll(c, []) == c && Extended(c, []) == []
  {}

  /** The clock stands at the true tick count `now`. */
  predicate At(c: Clock, now: nat) {
    c.lastTicks == Some(now % U32) && c.epoch == now - now % U32
  }

  /**
   * One extension recovers the true count exactly when the counter moved less than half its range
   * or moved without wrapping.
   */
  lemma ExtendOneExact(c: Clock, now: nat, next: nat)
    requires At(c, now) && now <= next
    ensures At(ExtendOne(c, next % U32), next) <==>
              next - now < 0x8000_0000 || next - next % U32 == now - now % U32
  {
    var q, r, q', r' := now / U32, now % U32, next / U32, next % U32;
    assert now == U32 * q + r && next == U32 * q' + r';
    if q' == q {
    } else if q' == q + 1 {
    } else {
      assert U32 * q' >= U32 * (q + 2);
    }
  }

  predicate Steady(now: nat, counts: seq<nat>)
    decreases |counts|
  {
    counts == [] || (now <= counts[0] < now + 0x8000_0000 && Steady(counts[0], counts[1..]))
  }

  function Low32(counts: seq<nat>): (s: seq<nat>)
    ensures |s| == |counts|
  {
    seq(|counts|, i requires 0 <= i < |counts| => counts[i] % U32)
  }

  /** Every run of counts with steps below 2^31 is recovered from its low 32 bits. */
  lemma {:induction false} ExtendRecovers(c: Clock, now: nat, counts: seq<nat>)
    requires At(c, now) && Steady(now, counts)
    ensures Extended(c, Low32(counts)) == counts
    ensures counts != [] ==> At(ExtendAll(c, Low32(counts)), counts[|counts| - 1])
    decreases |counts|
  {
    if counts != [] {
      var c1 := ExtendOne(c, counts[0] % U32);
      ExtendOneExact(c, now, counts[0]);
      assert Low32(counts)[1..] == Low32(counts[1..]);
      ExtendRecovers(c1, counts[0], counts[1..]);
      assert counts == [counts[0]] + counts[1..];
      if |counts| == 1 { assert counts[1..] == []; }
    }
  }

  /** From a fresh clock the first count must fit in 32 bits. */
  lemma ExtendRecoversFresh(c: Clock, counts: seq<nat>)
    requires c.lastTicks.None? && c.epoch == 0
    requires counts != [] && counts[0] < U32 && Steady(counts[0], counts[1..])
    ensures Extended(c, Low32(counts)) == counts
  {
    var c1 := ExtendOne(c, counts[0] % U32);
    assert Low32(counts)[1..] == Low32(counts[1..]);
    ExtendRecovers(c1, counts[0], counts[1..]);
    assert counts == [counts[0]] + counts[1..];
  }

  // ---- FIFO words ----

  function Tags(payload: seq<byte>): (tags: seq<nat>)
    ensures |tags| == |payload| / WORD_SIZE
  {
    seq(|payload| / WORD_SIZE, i requires 0 <= i < |payload| / WORD_SIZE => payload[WORD_SIZE * i] / 8)
  }

  function I16(v: nat): int {
    if v < 0x8000 then v else v - 0x1_0000
  }

  function TicksOf(payload: seq<byte>, words: seq<nat>): (ticks: seq<nat>)
    requires forall i :: 0 <= i < |words| ==> words[i] < |payload| / WORD_SIZE
    ensures |ticks| == |words|
  {
    seq(|words|, i requires 0 <= i < |words| =>
      assert words[i] < |payload| / WORD_SIZE;
      Le(payload[WORD_SIZE * words[i] + 1..WORD_SIZE * words[i] + 5]))
  }

  function RawOf(payload: seq<byte>, w: nat): seq<int>
    requires w < |payload| / WORD_SIZE
  {
    var d := payload[WORD_SIZE * w + 1..WORD_SIZE * w + 7];
    [I16(Le(d[0..2])), I16(Le(d[2..4])), I16(Le(d[4..6]))]
  }

  // ---- The array form ----

  /** Positions of the words with one tag, in increasing order. */
  function Where(tags: seq<nat>, tag: nat): (w: seq<nat>)
    ensures forall i :: 0 <= i < |w| ==> w[i] < |tags| && tags[w[i]] == tag
  {
    if tags == [] then [] else
      var n := |tags| - 1;
      Where(tags[..n], tag) + if tags[n] == tag then [n] else []
  }

  function CountEq(s: seq<nat>, k: nat): nat {
    if s == [] then 0 else (if s[0] == k then 1 else 0) + CountEq(s[1..], k)
  }

  function CountBelow(s: seq<nat>, k: nat): (n: nat)
    ensures n <= |s|
  {
    if s == [] then 0 else (if s[0] < k then 1 else 0) + CountBelow(s[1..], k)
  }

  function Bincount(s: seq<nat>, size: nat): (c: seq<nat>)
    ensures |c| == size
  {
    seq(size, k requires 0 <= k < size => CountEq(s, k))
  }

  function Cumsum(s: seq<int>): (c: seq<int>)
    ensures |c| == |s|
  {
    if s == [] then [] else
      var c := Cumsum(s[..|s| - 1]);
      c + [s[|s| - 1] + if c == [] then 0 else c[|c| - 1]]
  }

  /** The segment of each acceleration word: how many timestamp words precede it. */
  function Segments(accel: seq<nat>, ts: seq<nat>): (seg: seq<nat>)
    ensures |seg| == |accel|
    ensures forall i :: 0 <= i < |seg| ==> seg[i] <= |ts|
  {
    seq(|accel|, i requires 0 <= i < |accel| => SearchLeft(ts, accel[i]))
  }

  /** Times from segment starts: exclusive prefix sums give each sample its step in its segment. */
  function SegmentTimes(seg: seq<nat>, starts: seq<int>): (times: seq<int>)
    requires forall i :: 0 <= i < |seg| ==> seg[i] < |starts|
    ensures |times| == |seg|
  {
    var counts := Bincount(seg, |starts|);
    var ends := Cumsum(counts);
    seq(|seg|, i requires 0 <= i < |seg| => starts[seg[i]] + (i - (ends[seg[i]] - counts[seg[i]])) * PERIOD)
  }

  /** Sensor times moved so that the last tag is the anchor of the frame timestamp. */
  function TagTimes(extended: seq<int>, after: nat, frameTime: int): (t: seq<int>)
    requires extended != []
    ensures |t| == |extended|
  {
    var anchor := frameTime - (if after > 0 then after - 1 else 0) * PERIOD;
    seq(|extended|, k requires 0 <= k < |extended| =>
      extended[k] * TICK + (anchor - extended[|extended| - 1] * TICK))
  }

  /** Sample times of one payload; `frameTime` is the frame timestamp in half microseconds. */
  function ArrayTimes(carry: Option<int>, tags: seq<nat>, extended: seq<int>, frameTime: int): (times: seq<int>)
    requires |extended| == |Where(tags, TIMESTAMP)|
    ensures |times| == |Where(tags, ACCEL)|
  {
    var accel, ts := Where(tags, ACCEL), Where(tags, TIMESTAMP);
    if ts != [] then
      var after := |accel| - CountBelow(accel, ts[|ts| - 1] + 1);
      var before := CountBelow(accel, ts[0]);
      var tagTimes := TagTimes(extended, after, frameTime);
      var start := if carry.Some? then carry.value else tagTimes[0] - before * PERIOD;
      SegmentTimes(Segments(accel, ts), [start] + tagTimes)
    else
      var start := if carry.Some? then carry.value else frameTime - (|accel| - 1) * PERIOD;
      SegmentTimes(seq(|accel|, i => 0), [start])
  }

  /** One payload: the clock after it and its samples.  Without acceleration words nothing moves. */
  function Process(c: Clock, payload: seq<byte>, timestampUs: nat): (r: (Clock, seq<Sample>))
    ensures |r.1| == |Where(Tags(payload), ACCEL)|
  {
    var tags := Tags(payload);
    var accel, ts := Where(tags, ACCEL), Where(tags, TIMESTAMP);
    if accel == [] then (c, []) else
      var ticks := TicksOf(payload, ts);
      var times := ArrayTimes(c.carry, tags, Extended(c, ticks), 2 * timestampUs);
      (ExtendAll(c, ticks).(carry := Some(times[|times| - 1] + PERIOD)),
       seq(|accel|, i requires 0 <= i < |accel| => Sample(times[i], RawOf(payload, accel[i]))))
  }

  // ---- The sequential walker ----

  /** Acceleration words ahead of the first timestamp word. */
  function Leading(tags: seq<nat>): nat {
    if tags == [] || tags[0] == TIMESTAMP then 0 else (if tags[0] == ACCEL then 1 else 0) + Leading(tags[1..])
  }

  /** Acceleration words behind the last timestamp word. */
  function Trailing(tags: seq<nat>): nat {
    if tags == [] || tags[|tags| - 1] == TIMESTAMP then 0 else
      (if tags[|tags| - 1] == ACCEL then 1 else 0) + Trailing(tags[..|tags| - 1])
  }

  /** Step through the words: an acceleration word takes the clock and advances it by one period, a
      timestamp word sets the clock to its own time. */
  function Walk(tags: seq<nat>, clock: int, tagTimes: seq<int>): (times: seq<int>) {
    if tags == [] then []
    else if tags[0] == ACCEL then [clock] + Walk(tags[1..], clock + PERIOD, tagTimes)
    else if tags[0] == TIMESTAMP && tagTimes != [] then Walk(tags[1..], tagTimes[0], tagTimes[1..])
    else Walk(tags[1..], clock, tagTimes)
  }

  function WalkerTimes(carry: Option<int>, tags: seq<nat>, extended: seq<int>, frameTime: int): (times: seq<int>) {
    if extended == [] then
      Walk(tags, if carry.Some? then carry.value else frameTime - (Leading(tags) - 1) * PERIOD, [])
    else
      var tagTimes := TagTimes(extended, Trailing(tags), frameTime);
      Walk(tags, if carry.Some? then carry.value else tagTimes[0] - Leading(tags) * PERIOD, tagTimes)
  }

  // ---- The two agree ----

  lemma {:induction false} WhereIncreasing(tags: seq<nat>, tag: nat)
    ensures forall i, j :: 0 <= i < j < |Where(tags, tag)| ==> Where(tags, tag)[i] < Where(tags, tag)[j]
  {
    if tags != [] {
      var w := Where(tags[..|tags| - 1], tag);
      WhereIncreasing(tags[..|tags| - 1], tag);
      assert forall i :: 0 <= i < |w| ==> w[i] < |tags| - 1;
    }
  }

  lemma {:induction false} WherePrefix(tags: seq<nat>, tag: nat, p: nat)
    requires p <= |tags|
    ensures Where(tags[..p], tag) <= Where(tags, tag)
    ensures forall i :: |Where(tags[..p], tag)| <= i < |Where(tags, tag)| ==> Where(tags, tag)[i] >= p
    decreases |tags|
  {
    if p == |tags| { assert tags[..p] == tags; } else {
      var n := |tags| - 1;
      assert tags[..n][..p] == tags[..p];
      WherePrefix(tags[..n], tag, p);
    }
  }

  /** The words of one tag before position `p`. */
  function Before(tags: seq<nat>, tag: nat, p: nat): nat
    requires p <= |tags|
  {
    |Where(tags[..p], tag)|
  }

  lemma BeforeStep(tags: seq<nat>, tag: nat, p: nat)
    requires p < |tags|
    ensures Before(tags, tag, p + 1) == Before(tags, tag, p) + if tags[p] == tag then 1 else 0
    ensures Before(tags, tag, p + 1) <= |Where(tags, tag)|
    ensures tags[p] == tag ==> Where(tags, tag)[Before(tags, tag, p)] == p
  {
    assert tags[..p + 1][..p] == tags[..p];
    WherePrefix(tags, tag, p + 1);
  }

  /** Searching the timestamp positions counts the ones before a word. */
  lemma SegmentAt(tags: seq<nat>, p: nat)
    requires p <= |tags|
    ensures SearchLeft(Where(tags, TIMESTAMP), p) == Before(tags, TIMESTAMP, p)
    ensures SearchLeft(Where(tags, ACCEL), p) == Before(tags, ACCEL, p)
  {
    SearchCounts(tags, TIMESTAMP, p);
    SearchCounts(tags, ACCEL, p);
  }

  lemma SearchCounts(tags: seq<nat>, tag: nat, p: nat)
    requires p <= |tags|
    ensures SearchLeft(Where(tags, tag), p) == Before(tags, tag, p)
  {
    var w := Where(tags, tag);
    var k, b := SearchLeft(w, p), Before(tags, tag, p);
    WherePrefix(tags, tag, p);
    WhereIncreasing(tags, tag);
    SearchSplits(w, p);
    assert b < |w| ==> w[b] >= p;
    assert b > 0 ==> w[b - 1] == Where(tags[..p], tag)[b - 1] < p;
    assert (k < |w| ==> w[k] >= p) && (k > 0 ==> w[k - 1] < p);
  }

  /** Exclusive prefix sums of the bin counts count the entries of the lower bins. */
  lemma {:induction false} PrefixSums(s: seq<nat>, size: nat, k: nat)
    requires k < size
    ensures Cumsum(Bincount(s, size))[k] - Bincount(s, size)[k] == CountBelow(s, k)
    ensures Cumsum(Bincount(s, size))[k] == CountBelow(s, k + 1)
    decreases size
  {
    var c := Bincount(s, size);
    assert c[..size - 1] == Bincount(s, size - 1);
    CountBelowStep(s, k);
    if k < size - 1 {
      PrefixSums(s, size - 1, k);
    } else if k > 0 {
      PrefixSums(s, size - 1, k - 1);
    } else {
      CountBelowZero(s);
    }
  }

  lemma {:induction false} CountBelowStep(s: seq<nat>, k: nat)
    ensures CountBelow(s, k + 1) == CountBelow(s, k) + CountEq(s, k)
  {
    if s != [] { CountBelowStep(s[1..], k); }
  }

  lemma {:induction false} CountBelowZero(s: seq<nat>)
    ensures CountBelow(s, 0) == 0
  {
    if s != [] { CountBelowZero(s[1..]); }
  }

  lemma {:induction false} CountBelowSplit(s: seq<nat>, k: nat, n: nat)
    requires n <= |s|
    requires forall i :: 0 <= i < |s| ==> (s[i] < k <==> i < n)
    ensures CountBelow(s, k) == n
    decreases |s|
  {
    if s != [] { CountBelowSplit(s[1..], k, if n > 0 then n - 1 else 0); }
  }

  lemma SegmentOf(tags: seq<nat>, p: nat, i: nat)
    requires p <= |tags| && i < |Where(tags, ACCEL)|
    ensures var seg := Segments(Where(tags, ACCEL), Where(tags, TIMESTAMP))[i];
            if i < Before(tags, ACCEL, p) then seg <= Before(tags, TIMESTAMP, p)
            else seg >= Before(tags, TIMESTAMP, p)
  {
    var a := Where(tags, ACCEL)[i];
    SegmentAt(tags, a);
    WherePrefix(tags, ACCEL, p);
    BeforeMonotone(tags, a, p);
    BeforeMonotone(tags, p, a);
  }

  lemma BeforeMonotone(tags: seq<nat>, p: nat, q: nat)
    requires p <= |tags| && q <= |tags|
    ensures p <= q ==> Before(tags, TIMESTAMP, p) <= Before(tags, TIMESTAMP, q)
  {
    if p <= q {
      assert tags[..q][..p] == tags[..p];
      WherePrefix(tags[..q], TIMESTAMP, p);
    }
  }

  /** At a timestamp word the next segment begins with the next acceleration word. */
  lemma SegmentBegins(tags: seq<nat>, p: nat)
    requires p < |tags| && tags[p] == TIMESTAMP
    ensures CountBelow(Segments(Where(tags, ACCEL), Where(tags, TIMESTAMP)), Before(tags, TIMESTAMP, p) + 1)
            == Before(tags, ACCEL, p)
  {
    hide Where, Segments, CountBelow;
    var seg := Segments(Where(tags, ACCEL), Where(tags, TIMESTAMP));
    var n, k := Before(tags, ACCEL, p), Before(tags, TIMESTAMP, p) + 1;
    BeforeStep(tags, TIMESTAMP, p);
    BeforeStep(tags, ACCEL, p);
    forall i | 0 <= i < |seg| ensures seg[i] < k <==> i < n {
      SegmentOf(tags, p, i);
      SegmentOf(tags, p + 1, i);
    }
    CountBelowSplit(seg, k, n);
  }

  lemma SegmentTimeAt(seg: seq<nat>, starts: seq<int>, i: nat)
    requires i < |seg| && forall i :: 0 <= i < |seg| ==> seg[i] < |starts|
    ensures SegmentTimes(seg, starts)[i] == starts[seg[i]] + (i - CountBelow(seg, seg[i])) * PERIOD
  {
    PrefixSums(seg, |starts|, seg[i]);
  }

  /** What the walker's clock shows at position `p`. */
  function ClockAt(tags: seq<nat>, starts: seq<int>, p: nat): int
    requires p <= |tags| && Before(tags, TIMESTAMP, p) < |starts|
  {
    var t := Before(tags, TIMESTAMP, p);
    starts[t] + (Before(tags, ACCEL, p) - CountBelow(Segments(Where(tags, ACCEL), Where(tags, TIMESTAMP)), t)) * PERIOD
  }

  lemma ClockStep(tags: seq<nat>, starts: seq<int>, p: nat)
    requires p < |tags| && |starts| == |Where(tags, TIMESTAMP)| + 1
    ensures Before(tags, TIMESTAMP, p + 1) < |starts| && Before(tags, TIMESTAMP, p) < |starts|
    ensures Before(tags, ACCEL, p + 1) <= |Where(tags, ACCEL)|
    ensures tags[p] == ACCEL ==>
              && Before(tags, ACCEL, p) < |Where(tags, ACCEL)|
              && ClockAt(tags, starts, p + 1) == ClockAt(tags, starts, p) + PERIOD
              && SegmentTimes(Segments(Where(tags, ACCEL), Where(tags, TIMESTAMP)), starts)[Before(tags, ACCEL, p)]
                 == ClockAt(tags, starts, p)
    ensures tags[p] == TIMESTAMP ==> ClockAt(tags, starts, p + 1) == starts[Before(tags, TIMESTAMP, p + 1)]
    ensures tags[p] != ACCEL && tags[p] != TIMESTAMP ==> ClockAt(tags, starts, p + 1) == ClockAt(tags, starts, p)
  {
    BeforeStep(tags, TIMESTAMP, p);
    BeforeStep(tags, ACCEL, p);
    if tags[p] == ACCEL {
      SegmentAt(tags, p);
      SegmentTimeAt(Segments(Where(tags, ACCEL), Where(tags, TIMESTAMP)), starts, Before(tags, ACCEL, p));
    } else if tags[p] == TIMESTAMP {
      SegmentBegins(tags, p);
    }
  }

  /** At every position: the clock, the samples taken and the tags passed so far. */
  datatype Mark = Mark(clock: int, taken: nat, passed: nat)

  predicate Marks(m: Mark, m': Mark, tag: nat, tagTimes: seq<int>, times: seq<int>) {
    && m.taken <= m'.taken <= |times| && m.passed <= m'.passed <= |tagTimes|
    && (if tag == ACCEL then
          m'.taken == m.taken + 1 && m'.passed == m.passed && times[m.taken] == m.clock && m'.clock == m.clock + PERIOD
        else if tag == TIMESTAMP then
          m'.taken == m.taken && m'.passed == m.passed + 1 && m'.clock == tagTimes[m.passed]
        else m' == m)
  }

  lemma {:induction false} WalkFollowsMarks(tags: seq<nat>, tagTimes: seq<int>, times: seq<int>, marks: seq<Mark>, p: nat)
    requires p <= |tags| && |marks| == |tags| + 1
    requires forall i :: 0 <= i < |tags| ==> Marks(marks[i], marks[i + 1], tags[i], tagTimes, times)
    requires marks[|tags|].taken == |times| && marks[|tags|].passed <= |tagTimes|
    requires marks[p].taken <= |times| && marks[p].passed <= |tagTimes|
    ensures Walk(tags[p..], marks[p].clock, tagTimes[marks[p].passed..]) == times[marks[p].taken..]
    decreases |tags| - p
  {
    if p < |tags| {
      var m := marks[p];
      assert Marks(m, marks[p + 1], tags[p], tagTimes, times);
      WalkFollowsMarks(tags, tagTimes, times, marks, p + 1);
      assert tags[p..][1..] == tags[p + 1..];
      if tags[p] == ACCEL {
        assert times[m.taken..] == [m.clock] + times[m.taken + 1..];
      } else if tags[p] == TIMESTAMP {
        assert tagTimes[m.passed..][1..] == tagTimes[m.passed + 1..];
      }
    }
  }

  lemma {:induction false} LeadingBefore(tags: seq<nat>, p: nat, q: nat)
    requires p <= q <= |tags|
    requires forall i :: p <= i < q ==> tags[i] != TIMESTAMP
    requires q < |tags| ==> tags[q] == TIMESTAMP
    ensures Leading(tags[p..]) == Before(tags, ACCEL, q) - Before(tags, ACCEL, p)
    decreases q - p
  {
    if p < q {
      BeforeStep(tags, ACCEL, p);
      assert tags[p..][1..] == tags[p + 1..];
      LeadingBefore(tags, p + 1, q);
    }
  }

  lemma {:induction false} TrailingAfter(tags: seq<nat>, p: nat, q: nat)
    requires p <= q <= |tags|
    requires forall i :: p <= i < q ==> tags[i] != TIMESTAMP
    requires p > 0 ==> tags[p - 1] == TIMESTAMP
    ensures Trailing(tags[..q]) == Before(tags, ACCEL, q) - Before(tags, ACCEL, p)
    decreases q - p
  {
    if p < q {
      BeforeStep(tags, ACCEL, q - 1);
      assert tags[..q][..q - 1] == tags[..q - 1];
      TrailingAfter(tags, p, q - 1);
    }
  }

  lemma WalkFromStart(tags: seq<nat>, start: int, tagTimes: seq<int>)
    requires |tagTimes| == |Where(tags, TIMESTAMP)|
    ensures Walk(tags, start, tagTimes)
            == SegmentTimes(Segments(Where(tags, ACCEL), Where(tags, TIMESTAMP)), [start] + tagTimes)
  {
    hide Segments, SegmentTimes, CountBelow, Walk;
    var seg := Segments(Where(tags, ACCEL), Where(tags, TIMESTAMP));
    var starts := [start] + tagTimes;
    var times := SegmentTimes(seg, starts);
    var n := |tags|;
    assert tags[..0] == [] && tags[0..] == tags && tags[..n] == tags;
    CountBelowZero(seg);
    forall p | 0 <= p <= n ensures Before(tags, TIMESTAMP, p) < |starts| {
      WherePrefix(tags, TIMESTAMP, p);
    }
    var marks := seq(n + 1, p requires 0 <= p <= n =>
      Mark(ClockAt(tags, starts, p), Before(tags, ACCEL, p), Before(tags, TIMESTAMP, p)));
    forall p | 0 <= p < n ensures Marks(marks[p], marks[p + 1], tags[p], tagTimes, times) {
      BeforeStep(tags, TIMESTAMP, p);
      BeforeStep(tags, ACCEL, p);
      ClockStep(tags, starts, p);
    }
    WalkFollowsMarks(tags, tagTimes, times, marks, 0);
    assert tagTimes[0..] == tagTimes && times[0..] == times;
  }

  lemma AccelBefore(tags: seq<nat>, p: nat)
    requires p <= |tags|
    ensures CountBelow(Where(tags, ACCEL), p) == Before(tags, ACCEL, p)
  {
    WherePrefix(tags, ACCEL, p);
    var w, v := Where(tags, ACCEL), Where(tags[..p], ACCEL);
    assert forall i :: 0 <= i < |v| ==> w[i] == v[i];
    CountBelowSplit(w, p, |v|);
  }

  lemma OnlyThere(tags: seq<nat>, tag: nat, p: nat)
    requires p < |tags| && tags[p] == tag
    ensures Where(tags, tag) != []
    ensures Where(tags, tag)[0] <= p <= Where(tags, tag)[|Where(tags, tag)| - 1]
  {
    BeforeStep(tags, tag, p);
    WhereIncreasing(tags, tag);
  }

  lemma Leads(tags: seq<nat>, first: nat)
    requires var ts := Where(tags, TIMESTAMP); first == if ts == [] then |tags| else ts[0]
    ensures Leading(tags) == CountBelow(Where(tags, ACCEL), first)
  {
    hide Leading, CountBelow;
    forall p | 0 <= p < first ensures tags[p] != TIMESTAMP {
      if tags[p] == TIMESTAMP { OnlyThere(tags, TIMESTAMP, p); }
    }
    assert tags[..0] == [] && tags[0..] == tags;
    LeadingBefore(tags, 0, first);
    AccelBefore(tags, first);
  }

  lemma Trails(tags: seq<nat>)
    requires Where(tags, TIMESTAMP) != []
    ensures var accel, ts := Where(tags, ACCEL), Where(tags, TIMESTAMP);
            Trailing(tags) == |accel| - CountBelow(accel, ts[|ts| - 1] + 1)
  {
    hide Where, Trailing, CountBelow;
    var ts := Where(tags, TIMESTAMP);
    var last := ts[|ts| - 1];
    forall p | last < p < |tags| ensures tags[p] != TIMESTAMP {
      if tags[p] == TIMESTAMP { OnlyThere(tags, TIMESTAMP, p); }
    }
    TrailingAfter(tags, last + 1, |tags|);
    AccelBefore(tags, last + 1);
    assert tags[..|tags|] == tags;
  }

  lemma UntaggedEqualsWalker(carry: Option<int>, tags: seq<nat>, frameTime: int)
    requires Where(tags, TIMESTAMP) == []
    ensures ArrayTimes(carry, tags, [], frameTime) == WalkerTimes(carry, tags, [], frameTime)
  {
    hide Where, Leading, SegmentTimes, CountBelow, Walk;
    var accel := Where(tags, ACCEL);
    Leads(tags, |tags|);
    AccelBefore(tags, |tags|);
    assert tags[..|tags|] == tags;
    var start := if carry.Some? then carry.value else frameTime - (|accel| - 1) * PERIOD;
    WalkFromStart(tags, start, []);
    assert Segments(accel, []) == seq(|accel|, i => 0);
    assert [start] + [] == [start];
  }

  lemma TaggedEqualsWalker(carry: Option<int>, tags: seq<nat>, extended: seq<int>, frameTime: int)
    requires |extended| == |Where(tags, TIMESTAMP)| > 0
    ensures ArrayTimes(carry, tags, extended, frameTime) == WalkerTimes(carry, tags, extended, frameTime)
  {
    hide Where, Segments, Trailing, Leading, SegmentTimes, TagTimes, CountBelow, Walk;
    Leads(tags, Where(tags, TIMESTAMP)[0]);
    Trails(tags);
    var tagTimes := TagTimes(extended, Trailing(tags), frameTime);
    WalkFromStart(tags, if carry.Some? then carry.value else tagTimes[0] - Leading(tags) * PERIOD, tagTimes);
  }

  /** The array reconstruction equals the word-by-word walker, for every carried clock and payload. */
  lemma ArrayEqualsWalker(carry: Option<int>, tags: seq<nat>, extended: seq<int>, frameTime: int)
    requires |extended| == |Where(tags, TIMESTAMP)|
    ensures ArrayTimes(carry, tags, extended, frameTime) == WalkerTimes(carry, tags, extended, frameTime)
  {
    if extended == [] {
      UntaggedEqualsWalker(carry, tags, frameTime);
    } else {
      TaggedEqualsWalker(carry, tags, extended, frameTime);
    }
  }

  lemma TagsBeforeLast(tags: seq<nat>)
    requires Where(tags, TIMESTAMP) != []
    ensures var ts := Where(tags, TIMESTAMP); Before(tags, TIMESTAMP, ts[|ts| - 1]) + 1 == |ts|
  {
    hide Where, Before;
    var ts := Where(tags, TIMESTAMP);
    var p := ts[|ts| - 1];
    BeforeStep(tags, TIMESTAMP, p);
    WhereIncreasing(tags, TIMESTAMP);
  }

  /** Acceleration words behind the last tag form the last segment. */
  lemma LastSegment(tags: seq<nat>)
    requires Where(tags, TIMESTAMP) != []
    ensures var accel, ts := Where(tags, ACCEL), Where(tags, TIMESTAMP);
            && Trailing(tags) <= |accel|
            && CountBelow(Segments(accel, ts), |ts|) == |accel| - Trailing(tags)
  {
    hide Where, Segments, Trailing, CountBelow, Before;
    var ts := Where(tags, TIMESTAMP);
    var p := ts[|ts| - 1];
    Trails(tags);
    AccelBefore(tags, p + 1);
    BeforeStep(tags, ACCEL, p);
    TagsBeforeLast(tags);
    SegmentBegins(tags, p);
  }

  lemma LastInLastSegment(tags: seq<nat>)
    requires Where(tags, TIMESTAMP) != [] && Trailing(tags) > 0
    ensures var accel, ts := Where(tags, ACCEL), Where(tags, TIMESTAMP);
            accel != [] && Segments(accel, ts)[|accel| - 1] == |ts|
  {
    hide Where, Segments, Trailing, CountBelow, Before;
    var accel, ts := Where(tags, ACCEL), Where(tags, TIMESTAMP);
    var p := ts[|ts| - 1];
    Trails(tags);
    AccelBefore(tags, p + 1);
    TagsBeforeLast(tags);
    BeforeStep(tags, TIMESTAMP, p);
    SegmentOf(tags, p + 1, |accel| - 1);
  }

  lemma ArrayTagged(carry: Option<int>, tags: seq<nat>, extended: seq<int>, frameTime: int) returns (start: int)
    requires |extended| == |Where(tags, TIMESTAMP)| > 0
    ensures ArrayTimes(carry, tags, extended, frameTime) ==
            SegmentTimes(Segments(Where(tags, ACCEL), Where(tags, TIMESTAMP)),
                         [start] + TagTimes(extended, Trailing(tags), frameTime))
  {
    hide Where, Segments, Trailing, SegmentTimes, TagTimes, CountBelow;
    Trails(tags);
    var tagTimes := TagTimes(extended, Trailing(tags), frameTime);
    start := if carry.Some? then carry.value
             else tagTimes[0] - CountBelow(Where(tags, ACCEL), Where(tags, TIMESTAMP)[0]) * PERIOD;
  }

  /** With acceleration words behind the last tag, the last sample falls on the frame timestamp. */
  lemma LastSampleOnTimestamp(carry: Option<int>, tags: seq<nat>, extended: seq<int>, frameTime: int)
    requires |extended| == |Where(tags, TIMESTAMP)| > 0 && Trailing(tags) > 0
    ensures var times := ArrayTimes(carry, tags, extended, frameTime);
            times != [] && times[|times| - 1] == frameTime
  {
    hide Where, Segments, Trailing, ArrayTimes, SegmentTimes;
    var seg := Segments(Where(tags, ACCEL), Where(tags, TIMESTAMP));
    LastSegment(tags);
    LastInLastSegment(tags);
    var start := ArrayTagged(carry, tags, extended, frameTime);
    var starts := [start] + TagTimes(extended, Trailing(tags), frameTime);
    SegmentTimeAt(seg, starts, |seg| - 1);
    assert starts[|starts| - 1] == frameTime - (Trailing(tags) - 1) * PERIOD;
  }

  function SampleTimes(samples: seq<Sample>): (t: seq<int>)
    ensures |t| == |samples|
  {
    seq(|samples|, i requires 0 <= i < |samples| => samples[i].time)
  }

  /**
   * On every payload with an acceleration word and every carried state, the samples carry the
   * walker's times and their own words, and the clock carries on one period past the last of them.
   */
  lemma ProcessWalks(c: Clock, payload: seq<byte>, timestampUs: nat)
    requires Where(Tags(payload), ACCEL) != []
    ensures var tags := Tags(payload);
            var accel := Where(tags, ACCEL);
            var ticks := TicksOf(payload, Where(tags, TIMESTAMP));
            var (c', samples) := Process(c, payload, timestampUs);
            var times := WalkerTimes(c.carry, tags, Extended(c, ticks), 2 * timestampUs);
            && |samples| == |accel| == |times| && SampleTimes(samples) == times
            && (forall i :: 0 <= i < |samples| ==> samples[i].raw == RawOf(payload, accel[i]))
            && c' == ExtendAll(c, ticks).(carry := Some(times[|times| - 1] + PERIOD))
  {
    hide Where, Tags, ArrayTimes, WalkerTimes, Extended, ExtendAll, TicksOf, RawOf;
    var tags := Tags(payload);
    var ticks := TicksOf(payload, Where(tags, TIMESTAMP));
    ArrayEqualsWalker(c.carry, tags, Extended(c, ticks), 2 * timestampUs);
  }
}
