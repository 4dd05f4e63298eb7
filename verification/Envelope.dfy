/** Peak-preserving selection of display points. */
module Envelope {
  /** First position of the extreme of `m[lo..hi]` under one of the two orders. */
  function ArgExtreme(m: seq<int>, lo: int, hi: int, largest: bool): (k: int)
    requires 0 <= lo < hi <= |m|
    ensures lo <= k < hi
    ensures forall i :: lo <= i < hi ==> if largest then m[i] <= m[k] else m[k] <= m[i]
    ensures forall i :: lo <= i < k ==> m[i] != m[k]
    decreases hi - lo
  {
    if lo + 1 == hi then lo else
      var k := ArgExtreme(m, lo, hi - 1, largest);
      if (if largest then m[hi - 1] > m[k] else m[hi - 1] < m[k]) then hi - 1 else k
  }

  /** Non-decreasing bucket edges from 1 to `n - 1`. */
  predicate Edges(edges: seq<int>, n: int) {
    && |edges| >= 2 && edges[0] == 1 && edges[|edges| - 1] == n - 1
    && forall i, j :: 0 <= i <= j < |edges| ==> edges[i] <= edges[j]
  }

  predicate Inside(s: set<int>, lo: int, hi: int) {
    forall q :: q in s ==> lo <= q < hi
  }

  /** Some position of `picks` is at least as strong as `p`. */
  predicate Matched(m: seq<int>, picks: set<int>, p: int)
    requires Inside(picks, 0, |m|) && 0 <= p < |m|
  {
    exists q :: q in picks && m[p] <= m[q]
  }

  /** Every position from 1 up to an edge is matched by a chosen one. */
  predicate Covers(chosen: set<int>, m: seq<int>, edge: int)
    requires Inside(chosen, 0, |m|) && edge <= |m|
  {
    forall p :: 1 <= p < edge ==> Matched(m, chosen, p)
  }

  lemma MatchedBy(m: seq<int>, picks: set<int>, p: int, q: int)
    requires Inside(picks, 0, |m|) && 0 <= p < |m| && q in picks && m[p] <= m[q]
    ensures Matched(m, picks, p)
  {}

  lemma MatchedMore(m: seq<int>, was: set<int>, picks: set<int>, p: int)
    requires was <= picks && Inside(picks, 0, |m|) && 0 <= p < |m| && Inside(was, 0, |m|) && Matched(m, was, p)
    ensures Matched(m, picks, p)
  {
    var q :| q in was && m[p] <= m[q];
    assert q in picks;
  }

  /** `q` is the first weakest or the first strongest position of `m[lo..hi]`. */
  predicate Extreme(m: seq<int>, lo: int, hi: int, q: int)
    requires 0 <= lo <= hi <= |m|
  {
    lo <= q < hi &&
    (((forall i :: lo <= i < hi ==> m[q] <= m[i]) && (forall i :: lo <= i < q ==> m[q] < m[i]))
     || ((forall i :: lo <= i < hi ==> m[i] <= m[q]) && (forall i :: lo <= i < q ==> m[i] < m[q])))
  }

  predicate InBucket(m: seq<int>, edges: seq<int>, b: int, q: int)
    requires Edges(edges, |m|) && 0 <= b < |edges| - 1
  {
    EdgeOrder(edges, |m|, b);
    Extreme(m, edges[b], edges[b + 1], q)
  }

  lemma EdgeOrder(edges: seq<int>, n: int, b: int)
    requires Edges(edges, n) && 0 <= b < |edges| - 1
    ensures 1 <= edges[b] <= edges[b + 1] <= n - 1
  {
    assert edges[0] <= edges[b] && edges[b + 1] <= edges[|edges| - 1];
  }

  /** The positions chosen from the first `k` buckets: the two extremes of each. */
  ghost predicate Candidates(m: seq<int>, edges: seq<int>, k: int, chosen: set<int>)
    requires Edges(edges, |m|) && 0 <= k <= |edges| - 1
  {
    forall q :: q in chosen <==> exists b :: 0 <= b < k && InBucket(m, edges, b, q)
  }

  lemma TwoExtremes(m: seq<int>, lo: int, hi: int, q: int)
    requires 0 <= lo < hi <= |m|
    ensures Extreme(m, lo, hi, q) <==> q == ArgExtreme(m, lo, hi, false) || q == ArgExtreme(m, lo, hi, true)
  {
    var weak, strong := ArgExtreme(m, lo, hi, false), ArgExtreme(m, lo, hi, true);
    assert Extreme(m, lo, hi, q) ==> m[q] == m[weak] || m[q] == m[strong];
  }

  lemma CandidatesMore(m: seq<int>, edges: seq<int>, b: int, was: set<int>, chosen: set<int>)
    requires Edges(edges, |m|) && 0 <= b < |edges| - 1 && Candidates(m, edges, b, was)
    requires forall q :: q in chosen <==> q in was || InBucket(m, edges, b, q)
    ensures Candidates(m, edges, b + 1, chosen)
  {
    hide InBucket, Edges;
    forall q ensures q in chosen <==> exists c :: 0 <= c < b + 1 && InBucket(m, edges, c, q) {
      if q in was {
        var c :| 0 <= c < b && InBucket(m, edges, c, q);
      }
    }
  }

  /** The weakest and the strongest position of every bucket. */
  method BucketExtremes(m: seq<int>, edges: seq<int>) returns (chosen: set<int>)
    requires |m| >= 2 && Edges(edges, |m|)
    ensures Inside(chosen, 1, |m| - 1) && Covers(chosen, m, |m| - 1)
    ensures Candidates(m, edges, |edges| - 1, chosen)
  {
    hide Matched, Covers, Candidates, InBucket;
    chosen := {};
    var b := 0;
    NothingCovered(m);
    NoCandidates(m, edges);
    while b < |edges| - 1
      invariant 0 <= b <= |edges| - 1 && 1 <= edges[b] <= |m| - 1
      invariant Candidates(m, edges, b, chosen)
      invariant Inside(chosen, 1, edges[b]) && Covers(chosen, m, edges[b])
    {
      var start, stop := edges[b], edges[b + 1];
      assert edges[b] <= edges[b + 1] <= edges[|edges| - 1];
      if start < stop {
        var weak, strong := ArgExtreme(m, start, stop, false), ArgExtreme(m, start, stop, true);
        ghost var was := chosen;
        chosen := chosen + {weak} + {strong};
        CoversMore(was, chosen, m, start, stop, strong);
        BucketTaken(m, edges, b, was, chosen, weak, strong);
      } else {
        BucketEmpty(m, edges, b, chosen);
      }
      b := b + 1;
    }
  }

  lemma NoCandidates(m: seq<int>, edges: seq<int>)
    requires Edges(edges, |m|)
    ensures Candidates(m, edges, 0, {})
  {}

  lemma BucketTaken(m: seq<int>, edges: seq<int>, b: int, was: set<int>, chosen: set<int>, weak: int, strong: int)
    requires Edges(edges, |m|) && 0 <= b < |edges| - 1 && Candidates(m, edges, b, was)
    requires 0 <= edges[b] < edges[b + 1] <= |m|
    requires weak == ArgExtreme(m, edges[b], edges[b + 1], false) && strong == ArgExtreme(m, edges[b], edges[b + 1], true)
    requires chosen == was + {weak} + {strong}
    ensures Candidates(m, edges, b + 1, chosen)
  {
    hide Candidates, Edges;
    forall q ensures q in chosen <==> q in was || InBucket(m, edges, b, q) {
      TwoExtremes(m, edges[b], edges[b + 1], q);
    }
    CandidatesMore(m, edges, b, was, chosen);
  }

  lemma BucketEmpty(m: seq<int>, edges: seq<int>, b: int, chosen: set<int>)
    requires Edges(edges, |m|) && 0 <= b < |edges| - 1 && Candidates(m, edges, b, chosen) && edges[b + 1] <= edges[b]
    ensures Candidates(m, edges, b + 1, chosen)
  {
    hide Candidates, Edges;
    CandidatesMore(m, edges, b, chosen, chosen);
  }

  lemma NothingCovered(m: seq<int>)
    requires |m| >= 1
    ensures Covers({}, m, 1)
  {}

  lemma CoversMore(was: set<int>, chosen: set<int>, m: seq<int>, start: int, stop: int, strong: int)
    requires 1 <= start <= strong < stop <= |m| && was <= chosen && strong in chosen
    requires Inside(was, 0, |m|) && Inside(chosen, 0, |m|) && Covers(was, m, start)
    requires forall i :: start <= i < stop ==> m[i] <= m[strong]
    ensures Covers(chosen, m, stop)
  {
    hide Matched;
    forall p | 1 <= p < stop ensures Matched(m, chosen, p) {
      if p < start { MatchedMore(m, was, chosen, p); } else { MatchedBy(m, chosen, p, strong); }
    }
  }

  lemma HasMember(s: set<int>)
    requires s != {}
    ensures exists x :: x in s
  {
    assert (forall x :: x !in s) ==> s == {};
  }

  /** The best element of a set by magnitude, any one of several equals. */
  method PickStrongest(s: set<int>, m: seq<int>) returns (b: int)
    requires s != {} && Inside(s, 0, |m|)
    ensures b in s && forall q :: q in s ==> m[q] <= m[b]
  {
    HasMember(s);
    b :| b in s;
    var rest := s - {b};
    while rest != {}
      invariant rest <= s && b in s
      invariant forall q :: q in s && q !in rest ==> m[q] <= m[b]
      decreases rest
    {
      HasMember(rest);
      var x :| x in rest;
      if m[b] < m[x] { b := x; }
      rest := rest - {x};
    }
  }

  /** The `k` strongest of a set; equally strong ones in any order. */
  method Strongest(s: set<int>, m: seq<int>, k: nat) returns (top: set<int>)
    requires Inside(s, 0, |m|)
    ensures top <= s && |top| == if k < |s| then k else |s|
    ensures forall q, t :: q in s && q !in top && t in top ==> m[q] <= m[t]
    decreases k
  {
    if s == {} || k == 0 {
      return {};
    }
    var b := PickStrongest(s, m);
    var rest := Strongest(s - {b}, m, k - 1);
    top := {b} + rest;
  }

  method PickLeast(s: set<int>) returns (b: int)
    requires s != {}
    ensures b in s && forall q :: q in s ==> b <= q
  {
    HasMember(s);
    b :| b in s;
    var rest := s - {b};
    while rest != {}
      invariant rest <= s && b in s
      invariant forall q :: q in s && q !in rest ==> b <= q
      decreases rest
    {
      HasMember(rest);
      var x :| x in rest;
      if x < b { b := x; }
      rest := rest - {x};
    }
  }

  predicate Increasing(r: seq<int>) {
    forall i, j :: 0 <= i < j < |r| ==> r[i] < r[j]
  }

  method SortedSet(s: set<int>) returns (r: seq<int>)
    ensures Increasing(r) && |r| == |s| && forall q :: q in r <==> q in s
    decreases |s|
  {
    if s == {} {
      return [];
    }
    var b := PickLeast(s);
    var rest := SortedSet(s - {b});
    r := [b] + rest;
    forall i | 0 <= i < |rest| ensures rest[i] in s - {b} { assert rest[i] in rest; }
  }

  /** The peak of all samples is among the chosen ones. */
  predicate KeepsPeak(m: seq<int>, r: seq<int>) {
    forall p :: 0 <= p < |m| ==> AtLeastAsStrong(m, r, p)
  }

  predicate AtLeastAsStrong(m: seq<int>, r: seq<int>, p: int)
    requires 0 <= p < |m|
  {
    exists q :: q in r && 0 <= q < |m| && m[p] <= m[q]
  }

  /** Both ends and the strongest of the candidates, as many as the budget allows. */
  predicate Selection(m: seq<int>, r: seq<int>, candidates: set<int>, budget: nat)
    requires Inside(candidates, 1, |m| - 1)
  {
    && |r| == 2 + (if budget < |candidates| then budget else |candidates|)
    && (forall q :: q in r ==> q == 0 || q == |m| - 1 || q in candidates)
    && (forall q, t :: q in candidates && q !in r && t in candidates && t in r ==> m[q] <= m[t])
  }

  /**
   * Ordered positions within the budget, with both ends, and from a budget of three on with the
   * strongest magnitude, for any non-decreasing bucket edges.  Between the ends they are the strongest
   * of the two extremes of every bucket, as many as the budget allows.
   */
  method EnvelopeIndices(m: seq<int>, maxPoints: nat, edges: seq<int>)
    returns (r: seq<int>, ghost candidates: set<int>)
    requires maxPoints >= 2
    requires |m| > maxPoints > 2 ==> Edges(edges, |m|)
    ensures Increasing(r) && |r| <= maxPoints && forall q :: q in r ==> 0 <= q < |m|
    ensures |m| > 0 ==> 0 in r && |m| - 1 in r
    ensures |m| <= maxPoints ==> |r| == |m|
    ensures maxPoints >= 3 ==> KeepsPeak(m, r)
    ensures |m| > maxPoints == 2 ==> r == [0, |m| - 1]
    ensures |m| > maxPoints > 2 ==>
              && Candidates(m, edges, |edges| - 1, candidates) && Inside(candidates, 1, |m| - 1)
              && Selection(m, r, candidates, maxPoints - 2)
  {
    hide Covers, Edges, KeepsPeak, Candidates, Selection;
    var n := |m|;
    candidates := {};
    if n <= maxPoints {
      r := seq(n, i => i);
      assert n > 0 ==> r[0] == 0 && r[n - 1] == n - 1;
      AllKept(m, r);
      return;
    }
    var budget := maxPoints - 2;
    if budget == 0 {
      return [0, n - 1], {};
    }
    var chosen := BucketExtremes(m, edges);
    var top := Strongest(chosen, m, budget);
    r := SortedSet({0, n - 1} + top);
    candidates := chosen;
    assert 0 !in top && n - 1 !in top;
    BothEnds(0, n - 1, top);
    Selects(m, r, chosen, top, budget);
    Peak(m, chosen, top, r);
  }

  lemma AllKept(m: seq<int>, r: seq<int>)
    requires |r| == |m| && forall i :: 0 <= i < |r| ==> r[i] == i
    ensures KeepsPeak(m, r)
  {
    forall p | 0 <= p < |m| ensures AtLeastAsStrong(m, r, p) { assert r[p] in r; }
  }

  lemma Selects(m: seq<int>, r: seq<int>, candidates: set<int>, top: set<int>, budget: nat)
    requires Inside(candidates, 1, |m| - 1) && top <= candidates
    requires |top| == if budget < |candidates| then budget else |candidates|
    requires forall q, t :: q in candidates && q !in top && t in top ==> m[q] <= m[t]
    requires |r| == 2 + |top| && forall q :: q in r <==> q in {0, |m| - 1} + top
    ensures Selection(m, r, candidates, budget)
  {}

  lemma BothEnds(a: int, b: int, top: set<int>)
    requires a != b && a !in top && b !in top
    ensures |{a, b} + top| == 2 + |top|
  {
    assert |{a, b}| == 2;
  }

  lemma Peak(m: seq<int>, chosen: set<int>, top: set<int>, r: seq<int>)
    requires |m| >= 2 && Inside(chosen, 1, |m| - 1) && Covers(chosen, m, |m| - 1) && top <= chosen
    requires chosen != {} ==> top != {}
    requires forall q, t :: q in chosen && q !in top && t in top ==> m[q] <= m[t]
    requires forall q :: q in r <==> q in {0, |m| - 1} + top
    ensures KeepsPeak(m, r)
  {
    hide AtLeastAsStrong;
    forall p | 0 <= p < |m| ensures AtLeastAsStrong(m, r, p) {
      if p == 0 || p == |m| - 1 {
        Strong(m, r, p, p);
      } else {
        assert Matched(m, chosen, p);
        var q :| q in chosen && m[p] <= m[q];
        assert chosen != {};
        HasMember(top);
        var t :| t in top;
        Strong(m, r, p, if q in top then q else t);
      }
    }
  }

  lemma Strong(m: seq<int>, r: seq<int>, p: int, q: int)
    requires 0 <= p < |m| && 0 <= q < |m| && q in r && m[p] <= m[q]
    ensures AtLeastAsStrong(m, r, p)
  {}
}
