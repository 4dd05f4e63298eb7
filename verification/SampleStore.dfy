/** Bounded storage of recent samples, and the windows cut from it.  Times are in half microseconds. */
module SampleStore {
  import opened Arrays

  datatype Sample = Sample(time: int, x: int, y: int, z: int)

  function Times(c: seq<Sample>): (t: seq<int>)
    ensures |t| == |c| && forall i :: 0 <= i < |c| ==> t[i] == c[i].time
  {
    seq(|c|, i requires 0 <= i < |c| => c[i].time)
  }

  predicate InOrder(h: seq<Sample>) {
    forall i, j :: 0 <= i < j < |h| ==> h[i].time <= h[j].time
  }

  predicate Solid(chunks: seq<seq<Sample>>) {
    forall i :: 0 <= i < |chunks| ==> chunks[i] != []
  }

  function LastTime(c: seq<Sample>): int
    requires c != []
  {
    c[|c| - 1].time
  }

  // ---- The operations on the deque of chunks ----

  function DropOld(chunks: seq<seq<Sample>>, cutoff: int): (r: seq<seq<Sample>>)
    requires Solid(chunks)
    ensures Solid(r) && (r != [] ==> LastTime(r[0]) >= cutoff)
  {
    if chunks != [] && LastTime(chunks[0]) < cutoff then DropOld(chunks[1..], cutoff) else chunks
  }

  function TrimFirst(chunks: seq<seq<Sample>>, cutoff: int): seq<seq<Sample>> {
    if chunks == [] then chunks
    else [chunks[0][SearchLeft(Times(chunks[0]), cutoff)..]] + chunks[1..]
  }

  function Prune(chunks: seq<seq<Sample>>, cutoff: int): (r: seq<seq<Sample>>)
    requires Solid(chunks)
    ensures Solid(r)
  {
    TrimFirst(DropOld(chunks, cutoff), cutoff)
  }

  function WindowParts(chunks: seq<seq<Sample>>, cutoff: int): seq<Sample>
    requires Solid(chunks)
  {
    if chunks == [] then []
    else if LastTime(chunks[0]) < cutoff then WindowParts(chunks[1..], cutoff)
    else chunks[0][SearchLeft(Times(chunks[0]), cutoff)..] + WindowParts(chunks[1..], cutoff)
  }

  function Window(chunks: seq<seq<Sample>>, window: int): seq<Sample>
    requires Solid(chunks)
  {
    if chunks == [] then [] else WindowParts(chunks, LastTime(chunks[|chunks| - 1]) - window)
  }

  // ---- The full history ----

  /** The samples at or after a time. */
  function Since(h: seq<Sample>, cutoff: int): seq<Sample> {
    if h == [] then [] else (if h[0].time >= cutoff then [h[0]] else []) + Since(h[1..], cutoff)
  }

  lemma {:induction false} SinceConcat(a: seq<Sample>, b: seq<Sample>, cutoff: int)
    ensures Since(a + b, cutoff) == Since(a, cutoff) + Since(b, cutoff)
  {
    if a == [] { assert a + b == b; } else {
      assert (a + b)[1..] == a[1..] + b && (a + b)[0] == a[0];
      SinceConcat(a[1..], b, cutoff);
      var p := if a[0].time >= cutoff then [a[0]] else [];
      assert p + (Since(a[1..], cutoff) + Since(b, cutoff)) == (p + Since(a[1..], cutoff)) + Since(b, cutoff);
    }
  }

  lemma {:induction false} SinceTwice(h: seq<Sample>, c: int, d: int)
    ensures Since(Since(h, c), d) == Since(h, if c < d then d else c)
  {
    if h != [] {
      SinceTwice(h[1..], c, d);
      if h[0].time >= c {
        assert Since(h, c) == [h[0]] + Since(h[1..], c);
        assert Since(h, c)[1..] == Since(h[1..], c);
      } else {
        assert Since(h, c) == Since(h[1..], c);
      }
    }
  }

  lemma {:induction false} SinceAll(h: seq<Sample>, c: int)
    requires forall i :: 0 <= i < |h| ==> h[i].time >= c
    ensures Since(h, c) == h
  {
    if h != [] { SinceAll(h[1..], c); }
  }

  lemma {:induction false} SinceNone(h: seq<Sample>, c: int)
    requires forall i :: 0 <= i < |h| ==> h[i].time < c
    ensures Since(h, c) == []
  {
    if h != [] { SinceNone(h[1..], c); }
  }

  /** On an ordered chunk the search finds where the kept samples begin. */
  lemma SearchIsSince(c: seq<Sample>, cutoff: int)
    requires InOrder(c)
    ensures c[SearchLeft(Times(c), cutoff)..] == Since(c, cutoff)
  {
    hide *;
    var k := SearchLeft(Times(c), cutoff);
    TimesSplit(c, cutoff);
    SinceSplit(c, cutoff, k);
  }

  lemma TimesSplit(c: seq<Sample>, cutoff: int)
    requires InOrder(c)
    ensures forall i :: 0 <= i < |c| ==> (c[i].time < cutoff <==> i < SearchLeft(Times(c), cutoff))
  {
    hide SearchLeft;
    var t := Times(c);
    SearchSplits(t, cutoff);
    assert forall i :: 0 <= i < |c| ==> t[i] == c[i].time;
  }

  lemma SinceSplit(c: seq<Sample>, cutoff: int, k: nat)
    requires k <= |c| && forall i :: 0 <= i < |c| ==> (c[i].time < cutoff <==> i < k)
    ensures c[k..] == Since(c, cutoff)
  {
    hide *;
    var lo, hi := c[..k], c[k..];
    assert c == lo + hi;
    SinceConcat(lo, hi, cutoff);
    SinceNone(lo, cutoff);
    SinceAll(hi, cutoff);
    assert [] + hi == hi;
  }

  lemma FlattenFirst(chunks: seq<seq<Sample>>)
    requires chunks != []
    ensures Flatten(chunks) == chunks[0] + Flatten(chunks[1..])
  {}

  lemma OrderedParts(a: seq<Sample>, b: seq<Sample>)
    requires InOrder(a + b)
    ensures InOrder(a) && InOrder(b)
    ensures a != [] ==> forall i :: 0 <= i < |b| ==> LastTime(a) <= b[i].time
  {
    var s := a + b;
    assert forall i :: 0 <= i < |a| ==> s[i] == a[i];
    assert forall i :: 0 <= i < |b| ==> s[|a| + i] == b[i];
  }

  lemma OldChunk(c: seq<Sample>, cutoff: int)
    requires InOrder(c) && c != [] && LastTime(c) < cutoff
    ensures Since(c, cutoff) == []
  {
    assert forall i :: 0 <= i < |c| ==> c[i].time <= c[|c| - 1].time;
    SinceNone(c, cutoff);
  }

  /** Pruning keeps exactly the samples since the cutoff. */
  lemma {:induction false} PruneIsSince(chunks: seq<seq<Sample>>, cutoff: int)
    requires Solid(chunks) && InOrder(Flatten(chunks))
    ensures Flatten(Prune(chunks, cutoff)) == Since(Flatten(chunks), cutoff)
    decreases |chunks|
  {
    hide Flatten, Since, InOrder, SearchLeft, Times;
    if chunks == [] {
      NothingSince(cutoff);
    } else {
      var c, more := chunks[0], chunks[1..];
      FlattenFirst(chunks);
      OrderedParts(c, Flatten(more));
      SinceConcat(c, Flatten(more), cutoff);
      if LastTime(c) < cutoff {
        OldChunk(c, cutoff);
        PruneIsSince(more, cutoff);
        assert [] + Since(Flatten(more), cutoff) == Since(Flatten(more), cutoff);
      } else {
        SearchIsSince(c, cutoff);
        SinceAll(Flatten(more), cutoff);
        var p := Prune(chunks, cutoff);
        FlattenFirst(p);
        assert p[1..] == more;
      }
    }
  }

  lemma NothingSince(cutoff: int)
    ensures Flatten<Sample>([]) == [] && Since([], cutoff) == []
  {}

  lemma {:induction false} WindowIsSince(chunks: seq<seq<Sample>>, cutoff: int)
    requires Solid(chunks) && InOrder(Flatten(chunks))
    ensures WindowParts(chunks, cutoff) == Since(Flatten(chunks), cutoff)
    decreases |chunks|
  {
    hide Flatten, Since, InOrder, SearchLeft, Times;
    if chunks == [] {
      NothingSince(cutoff);
    } else {
      var c, more := chunks[0], chunks[1..];
      FlattenFirst(chunks);
      OrderedParts(c, Flatten(more));
      SinceConcat(c, Flatten(more), cutoff);
      WindowIsSince(more, cutoff);
      if LastTime(c) < cutoff {
        OldChunk(c, cutoff);
        assert [] + Since(Flatten(more), cutoff) == Since(Flatten(more), cutoff);
      } else {
        SearchIsSince(c, cutoff);
      }
    }
  }

  // ---- Runs of the store ----

  datatype Event = Append(batch: seq<Sample>) | Clear

  function Apply(chunks: seq<seq<Sample>>, e: Event, retention: nat): (r: seq<seq<Sample>>)
    requires Solid(chunks)
    ensures Solid(r)
  {
    if e.Clear? then [] else if e.batch == [] then chunks
    else Prune(chunks + [e.batch], LastTime(e.batch) - retention)
  }

  /** Samples since the last clear. */
  function Remember(h: seq<Sample>, e: Event): seq<Sample> {
    if e.Clear? then [] else h + e.batch
  }

  /** The store holds what retention allows of the history. */
  predicate Refines(chunks: seq<seq<Sample>>, h: seq<Sample>, retention: nat) {
    && Solid(chunks) && InOrder(h)
    && (h == [] ==> chunks == [])
    && (h != [] ==>
          && chunks != [] && LastTime(chunks[|chunks| - 1]) == LastTime(h)
          && Flatten(chunks) == Since(h, LastTime(h) - retention))
  }

  lemma SinceOrdered(h: seq<Sample>, cutoff: int)
    requires InOrder(h)
    ensures InOrder(Since(h, cutoff))
  {
    SearchIsSince(h, cutoff);
    var k := SearchLeft(Times(h), cutoff);
    hide Since, SearchLeft;
    assert forall i :: 0 <= i < |h[k..]| ==> h[k..][i] == h[k + i];
  }

  /** Pruning never drops the newest chunk and leaves no empty one. */
  lemma {:induction false} PruneShape(chunks: seq<seq<Sample>>, cutoff: int)
    requires Solid(chunks) && chunks != [] && LastTime(chunks[|chunks| - 1]) >= cutoff
    requires InOrder(Flatten(chunks))
    ensures var p := Prune(chunks, cutoff);
            Solid(p) && p != [] && LastTime(p[|p| - 1]) == LastTime(chunks[|chunks| - 1])
    decreases |chunks|
  {
    hide Flatten, InOrder;
    var c, more := chunks[0], chunks[1..];
    FlattenFirst(chunks);
    OrderedParts(c, Flatten(more));
    if LastTime(c) < cutoff {
      PruneShape(more, cutoff);
    } else {
      TrimKeepsLast(c, cutoff);
      assert Prune(chunks, cutoff)[1..] == more;
    }
  }

  lemma TrimKeepsLast(c: seq<Sample>, cutoff: int)
    requires InOrder(c) && c != [] && LastTime(c) >= cutoff
    ensures SearchLeft(Times(c), cutoff) < |c|
    ensures LastTime(c[SearchLeft(Times(c), cutoff)..]) == LastTime(c)
  {
    SearchSplits(Times(c), cutoff);
    assert Times(c)[|c| - 1] == LastTime(c);
  }

  lemma AppendRefines(chunks: seq<seq<Sample>>, h: seq<Sample>, batch: seq<Sample>, retention: nat)
    requires Refines(chunks, h, retention) && batch != [] && InOrder(h + batch)
    ensures Refines(Apply(chunks, Append(batch), retention), h + batch, retention)
  {
    hide Flatten, Since, InOrder, Prune;
    var all := chunks + [batch];
    var cutoff := LastTime(batch) - retention;
    OrderedParts(h, batch);
    FlattenConcat(chunks, [batch]);
    FlattenPair(batch, batch);
    if h == [] {
      NothingSince(cutoff);
      assert h + batch == batch;
      assert [] + batch == batch;
    } else {
      var was := LastTime(h) - retention;
      StaleTail(h, batch, was);
      SinceOrdered(h + batch, was);
      SinceTwice(h + batch, was, cutoff);
    }
    PruneIsSince(all, cutoff);
    PruneShape(all, cutoff);
  }

  /** Nothing of a later batch falls before an earlier cutoff. */
  lemma StaleTail(h: seq<Sample>, batch: seq<Sample>, was: int)
    requires InOrder(h + batch) && h != [] && was <= LastTime(h)
    ensures Since(h, was) + batch == Since(h + batch, was)
    ensures batch != [] ==> LastTime(h) <= LastTime(batch)
  {
    hide Since, InOrder;
    OrderedParts(h, batch);
    SinceConcat(h, batch, was);
    SinceAll(batch, was);
  }

  predicate Orderly(h: seq<Sample>, events: seq<Event>)
    decreases |events|
  {
    events == [] || (InOrder(Remember(h, events[0])) && Orderly(Remember(h, events[0]), events[1..]))
  }

  function ApplyAll(chunks: seq<seq<Sample>>, events: seq<Event>, retention: nat): (r: seq<seq<Sample>>)
    requires Solid(chunks)
    ensures Solid(r)
    decreases |events|
  {
    if events == [] then chunks else ApplyAll(Apply(chunks, events[0], retention), events[1..], retention)
  }

  function RememberAll(h: seq<Sample>, events: seq<Event>): seq<Sample>
    decreases |events|
  {
    if events == [] then h else RememberAll(Remember(h, events[0]), events[1..])
  }

  lemma ApplyRefines(chunks: seq<seq<Sample>>, h: seq<Sample>, e: Event, retention: nat)
    requires Refines(chunks, h, retention) && InOrder(Remember(h, e))
    ensures Refines(Apply(chunks, e, retention), Remember(h, e), retention)
  {
    if e.Append? {
      if e.batch == [] { assert h + e.batch == h; } else { AppendRefines(chunks, h, e.batch, retention); }
    }
  }

  lemma {:induction false} RunRefines(chunks: seq<seq<Sample>>, h: seq<Sample>, events: seq<Event>, retention: nat)
    requires Refines(chunks, h, retention) && Orderly(h, events)
    ensures Refines(ApplyAll(chunks, events, retention), RememberAll(h, events), retention)
    decreases |events|
  {
    hide InOrder, Apply, Remember, Since, Flatten;
    if events != [] {
      ApplyRefines(chunks, h, events[0], retention);
      RunRefines(Apply(chunks, events[0], retention), Remember(h, events[0]), events[1..], retention);
    }
  }

  function Min(a: int, b: int): int {
    if a < b then a else b
  }

  /** Any window of the store is the window of the full history, as far as retention reaches. */
  lemma WindowRefines(chunks: seq<seq<Sample>>, h: seq<Sample>, retention: nat, window: int)
    requires Refines(chunks, h, retention)
    ensures Window(chunks, window) == if h == [] then [] else Since(h, LastTime(h) - Min(window, retention))
  {
    hide *;
    if h == [] {
      EmptyStore(chunks, retention, window);
    } else {
      var c, d := LastTime(h) - retention, LastTime(h) - window;
      StoreFacts(chunks, h, retention, window);
      SinceOrdered(h, c);
      WindowIsSince(chunks, d);
      SinceTwice(h, c, d);
    }
  }

  lemma EmptyStore(chunks: seq<seq<Sample>>, retention: nat, window: int)
    requires Refines(chunks, [], retention)
    ensures Window(chunks, window) == []
  {}

  lemma StoreFacts(chunks: seq<seq<Sample>>, h: seq<Sample>, retention: nat, window: int)
    requires Refines(chunks, h, retention) && h != []
    ensures Solid(chunks) && InOrder(h) && Flatten(chunks) == Since(h, LastTime(h) - retention)
    ensures Window(chunks, window) == WindowParts(chunks, LastTime(h) - window)
    ensures Min(window, retention) == if LastTime(h) - retention < LastTime(h) - window then window else retention
  {
    hide Since, Flatten, InOrder, WindowParts;
  }

  /**
   * Store refinement: after any run of appends with non-decreasing timestamps and clears, the
   * window equals the samples since the last clear that are at most min(window, retention) old.
   */
  lemma StoreRefinement(events: seq<Event>, retention: nat, window: int)
    requires Orderly([], events)
    ensures Refines([], [], retention)
    ensures var h := RememberAll([], events);
            Window(ApplyAll([], events, retention), window)
            == if h == [] then [] else Since(h, LastTime(h) - Min(window, retention))
  {
    hide Window, Orderly, RememberAll, ApplyAll;
    RunRefines([], [], events, retention);
    WindowRefines(ApplyAll([], events, retention), RememberAll([], events), retention, window);
  }

  // ---- The store object ----

  class RealtimeSampleStore {
    const retention: nat
    var chunks: seq<seq<Sample>>

    ghost predicate Valid()
      reads this
    {
      Solid(chunks)
    }

    constructor (retention: nat)
      requires retention > 0
      ensures Valid() && chunks == [] && this.retention == retention
    {
      this.retention := retention;
      chunks := [];
    }

    method ClearSamples()
      modifies this
      ensures Valid() && chunks == []
    {
      chunks := [];
    }

    method AppendIisArrays(batch: seq<Sample>)
      requires Valid()
      modifies this
      ensures Valid() && chunks == Apply(old(chunks), Append(batch), retention)
    {
      if batch == [] {
        return;
      }
      chunks := chunks + [batch];
      PruneLocked(LastTime(batch));
    }

    method PruneLocked(latest: int)
      requires Valid()
      modifies this
      ensures Valid() && chunks == Prune(old(chunks), latest - retention)
    {
      var cutoff := latest - retention;
      while chunks != [] && LastTime(chunks[0]) < cutoff
        invariant Solid(chunks) && DropOld(chunks, cutoff) == DropOld(old(chunks), cutoff)
        decreases |chunks|
      {
        chunks := chunks[1..];
      }
      if chunks == [] {
        return;
      }
      var first := SearchLeft(Times(chunks[0]), cutoff);
      if first == 0 {
        assert chunks[0][0..] == chunks[0] && chunks == [chunks[0]] + chunks[1..];
        return;
      }
      chunks := chunks[0 := chunks[0][first..]];
    }

    method WindowArrays(window: int) returns (samples: seq<Sample>)
      requires Valid()
      ensures samples == Window(chunks, window)
    {
      samples := [];
      if chunks == [] {
        return;
      }
      var cutoff := LastTime(chunks[|chunks| - 1]) - window;
      var i := 0;
      while i < |chunks|
        invariant i <= |chunks|
        invariant WindowParts(chunks, cutoff) == samples + WindowParts(chunks[i..], cutoff)
      {
        var chunk := chunks[i];
        assert chunks[i..][1..] == chunks[i + 1..];
        if LastTime(chunk) >= cutoff {
          samples := samples + chunk[SearchLeft(Times(chunk), cutoff)..];
        }
        i := i + 1;
      }
    }
  }
}
