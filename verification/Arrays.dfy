/** Option, and the array searches that the host takes from its numeric library. */
module Arrays {
  datatype Option<+T> = None | Some(value: T)

  predicate Sorted(s: seq<int>) {
    forall i, j :: 0 <= i < j < |s| ==> s[i] <= s[j]
  }

  /** Binary search for the first entry of `s[lo..hi]` that is not below `key`. */
  function LowerBound(s: seq<int>, key: int, lo: nat, hi: nat): (k: nat)
    requires lo <= hi <= |s|
    ensures lo <= k <= hi
    ensures lo < k == hi ==> s[hi - 1] < key
    decreases hi - lo
  {
    if lo == hi then lo else
      var mid := (lo + hi) / 2;
      if s[mid] < key then LowerBound(s, key, mid + 1, hi) else LowerBound(s, key, lo, mid)
  }

  function SearchLeft(s: seq<int>, key: int): (k: nat)
    ensures k <= |s|
  {
    LowerBound(s, key, 0, |s|)
  }

  /** On integers, the entries up to `key` are those below `key + 1`. */
  function SearchRight(s: seq<int>, key: int): (k: nat)
    ensures k <= |s|
  {
    LowerBound(s, key + 1, 0, |s|)
  }

  lemma {:induction false} LowerBoundSplits(s: seq<int>, key: int, lo: nat, hi: nat)
    requires Sorted(s) && lo <= hi <= |s|
    ensures forall i :: lo <= i < hi ==> (s[i] < key <==> i < LowerBound(s, key, lo, hi))
    decreases hi - lo
  {
    if lo < hi {
      var mid := (lo + hi) / 2;
      if s[mid] < key { LowerBoundSplits(s, key, mid + 1, hi); } else { LowerBoundSplits(s, key, lo, mid); }
    }
  }

  /** On sorted input the search splits the entries below the key from the rest. */
  lemma SearchSplits(s: seq<int>, key: int)
    requires Sorted(s)
    ensures forall i :: 0 <= i < |s| ==> (s[i] < key <==> i < SearchLeft(s, key))
    ensures forall i :: 0 <= i < |s| ==> (s[i] <= key <==> i < SearchRight(s, key))
  {
    LowerBoundSplits(s, key, 0, |s|);
    LowerBoundSplits(s, key + 1, 0, |s|);
  }

  lemma Assoc<T>(a: seq<T>, b: seq<T>, c: seq<T>)
    ensures a + (b + c) == (a + b) + c
  {}

  function Flatten<T>(parts: seq<seq<T>>): seq<T> {
    if parts == [] then [] else parts[0] + Flatten(parts[1..])
  }

  lemma {:induction false} FlattenConcat<T>(a: seq<seq<T>>, b: seq<seq<T>>)
    ensures Flatten(a + b) == Flatten(a) + Flatten(b)
  {
    if a == [] { assert a + b == b; } else {
      assert (a + b)[1..] == a[1..] + b;
      FlattenConcat(a[1..], b);
      assert a[0] + (Flatten(a[1..]) + Flatten(b)) == (a[0] + Flatten(a[1..])) + Flatten(b);
    }
  }

  lemma FlattenPair<T>(x: seq<T>, y: seq<T>)
    ensures Flatten([x, y]) == x + y
    ensures Flatten([x]) == x
  {
    assert [x, y][1..] == [y] && [y][1..] == [] && [x][1..] == [];
    assert Flatten([y]) == y + Flatten<T>([]) == y;
    assert Flatten([x]) == x + Flatten<T>([]) == x;
  }
}
