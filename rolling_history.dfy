/**
 * The newest-first, fixed-capacity history that both event feeds keep:
 * each accepted entry is put in front of the previous history, which is
 * cut to `capacity - 1` entries first (`[entry, ...prev.slice(0, capacity - 1)]`).
 */
module RollingHistory {

  function Min(a: int, b: int): (m: int)
    ensures m <= a && m <= b
    ensures m == a || m == b
  {
    if a <= b then a else b
  }

  /** `s.slice(0, n)`: the first `n` entries, or all of them when there are fewer. */
  function Take<T>(s: seq<T>, n: nat): (r: seq<T>)
    ensures |r| == Min(|s|, n)
    ensures forall i :: 0 <= i < |r| ==> r[i] == s[i]
  {
    if |s| <= n then s else s[..n]
  }

  /** The entries of `s`, last first. */
  function Reverse<T>(s: seq<T>): (r: seq<T>)
    ensures |r| == |s|
  {
    if s == [] then [] else [s[|s| - 1]] + Reverse(s[..|s| - 1])
  }

  /** Position `i` of the reversed sequence holds the entry `i` places from the end. */
  lemma {:induction false} ReverseAt<T>(s: seq<T>, i: nat)
    requires i < |s|
    ensures Reverse(s)[i] == s[|s| - 1 - i]
  {
    if i > 0 {
      ReverseAt(s[..|s| - 1], i - 1);
    }
  }

  /**
   * One accepted entry: it becomes the head, and the previous history,
   * cut to `capacity - 1` entries, follows it.
   */
  function PushNewest<T>(prev: seq<T>, entry: T, capacity: nat): (r: seq<T>)
    requires capacity >= 1
    ensures |r| == Min(|prev| + 1, capacity)
    ensures r[0] == entry
    ensures forall i :: 1 <= i < |r| ==> r[i] == prev[i - 1]
  {
    [entry] + Take(prev, capacity - 1)
  }

  /** The history after the entries of one batch were pushed, first entry first. */
  function PushAll<T>(prev: seq<T>, entries: seq<T>, capacity: nat): (r: seq<T>)
    requires capacity >= 1
    ensures |prev| <= capacity ==> |r| <= capacity
    ensures entries != [] ==> |r| >= 1 && r[0] == entries[|entries| - 1]
  {
    if entries == [] then prev
    else PushNewest(PushAll(prev, entries[..|entries| - 1], capacity), entries[|entries| - 1], capacity)
  }

  /** Pushing a batch that ends in `entry` is pushing the rest, then `entry`. */
  lemma PushAllSnoc<T>(prev: seq<T>, entries: seq<T>, entry: T, capacity: nat)
    requires capacity >= 1
    ensures PushAll(prev, entries + [entry], capacity) == PushNewest(PushAll(prev, entries, capacity), entry, capacity)
  {
    assert (entries + [entry])[..|entries|] == entries;
  }

  lemma TakeTake<T>(s: seq<T>, a: nat, b: nat)
    requires b <= a
    ensures Take(Take(s, a), b) == Take(s, b)
  {
  }

  lemma TakeCons<T>(x: T, s: seq<T>, n: nat)
    ensures Take([x] + s, n + 1) == [x] + Take(s, n)
  {
    if |s| > n {
      assert ([x] + s)[..n + 1] == [x] + s[..n];
    }
  }

  /**
   * The history is a window: after a batch it holds the newest `capacity`
   * entries of the batch, newest first, followed by the previous history.
   */
  lemma {:induction false} PushAllWindow<T>(prev: seq<T>, entries: seq<T>, capacity: nat)
    requires capacity >= 1 && |prev| <= capacity
    ensures PushAll(prev, entries, capacity) == Take(Reverse(entries) + prev, capacity)
  {
    if entries == [] {
      assert Reverse(entries) + prev == prev;
    } else {
      var init, last := entries[..|entries| - 1], entries[|entries| - 1];
      assert init + [last] == entries;
      PushAllWindow(prev, init, capacity);
      PushAllSnoc(prev, init, last, capacity);
      WindowStep(Reverse(init) + prev, last, capacity);
      ReverseSnoc(init, last);
    }
  }

  /** Pushing onto a window of `older` gives the window of `older` behind the new entry. */
  lemma WindowStep<T>(older: seq<T>, last: T, capacity: nat)
    requires capacity >= 1
    ensures PushNewest(Take(older, capacity), last, capacity) == Take([last] + older, capacity)
  {
    TakeTake(older, capacity, capacity - 1);
    TakeCons(last, older, capacity - 1);
  }

  lemma ReverseSnoc<T>(s: seq<T>, x: T)
    ensures Reverse(s + [x]) == [x] + Reverse(s)
  {
    assert (s + [x])[..|s|] == s;
  }

  /**
   * Eviction: once a batch has at least `capacity` entries, nothing older
   * survives, and the history is the last `capacity` entries, newest first.
   */
  lemma PushAllEvicts<T>(prev: seq<T>, entries: seq<T>, capacity: nat)
    requires capacity >= 1 && |prev| <= capacity && |entries| >= capacity
    ensures PushAll(prev, entries, capacity) == Reverse(entries[|entries| - capacity..])
  {
    PushAllWindow(prev, entries, capacity);
    var r := PushAll(prev, entries, capacity);
    var tail := entries[|entries| - capacity..];
    forall i | 0 <= i < capacity
      ensures r[i] == Reverse(tail)[i]
    {
      ReverseAt(entries, i);
      ReverseAt(tail, i);
      assert r[i] == (Reverse(entries) + prev)[i];
    }
  }

  /** After a batch of at least `capacity` entries, position `j` holds the entry `j` places from the batch's end. */
  lemma PushAllNewest<T>(prev: seq<T>, entries: seq<T>, capacity: nat)
    requires capacity >= 1 && |prev| <= capacity && |entries| >= capacity
    ensures |PushAll(prev, entries, capacity)| == capacity
    ensures forall j :: 0 <= j < capacity ==> PushAll(prev, entries, capacity)[j] == entries[|entries| - 1 - j]
  {
    PushAllEvicts(prev, entries, capacity);
    var tail := entries[|entries| - capacity..];
    forall j | 0 <= j < capacity
      ensures PushAll(prev, entries, capacity)[j] == entries[|entries| - 1 - j]
    {
      ReverseAt(tail, j);
    }
  }

  /**
   * `PushAllNewest` for a batch whose entry `k` is built from source `k`:
   * position `j` holds the entry built from the source `j` places from the end.
   */
  lemma PushAllNewestBuilt<S, T>(prev: seq<T>, entries: seq<T>, sources: seq<S>, build: S --> T, capacity: nat)
    requires capacity >= 1 && |prev| <= capacity && |entries| >= capacity && |sources| == |entries|
    requires forall k :: 0 <= k < |sources| ==> build.requires(sources[k]) && entries[k] == build(sources[k])
    ensures |PushAll(prev, entries, capacity)| == capacity
    ensures forall j :: 0 <= j < capacity ==> PushAll(prev, entries, capacity)[j] == build(sources[|sources| - 1 - j])
  {
    PushAllNewest(prev, entries, capacity);
  }

  /** `PushAllNewestBuilt` for entries built from two sources side by side. */
  lemma PushAllNewestBuiltFrom2<S, U, T>(prev: seq<T>, entries: seq<T>, xs: seq<S>, ys: seq<U>, build: (S, U) --> T, capacity: nat)
    requires capacity >= 1 && |prev| <= capacity && |entries| >= capacity && |xs| == |entries| && |ys| == |entries|
    requires forall k :: 0 <= k < |xs| ==> build.requires(xs[k], ys[k]) && entries[k] == build(xs[k], ys[k])
    ensures |PushAll(prev, entries, capacity)| == capacity
    ensures forall j :: 0 <= j < capacity ==>
      PushAll(prev, entries, capacity)[j] == build(xs[|xs| - 1 - j], ys[|ys| - 1 - j])
  {
    PushAllNewest(prev, entries, capacity);
  }

  /** Pushing `capacity + 1` entries into an empty history evicts the first of them. */
  lemma OneMoreThanCapacityEvictsFirst<T>(entries: seq<T>, capacity: nat)
    requires capacity >= 1 && |entries| == capacity + 1
    ensures PushAll([], entries, capacity) == Reverse(entries[1..])
    ensures entries[0] !in entries[1..] ==> entries[0] !in PushAll([], entries, capacity)
  {
    PushAllEvicts([], entries, capacity);
    var r := PushAll([], entries, capacity);
    if entries[0] in r {
      var i :| 0 <= i < |r| && r[i] == entries[0];
      ReverseAt(entries[1..], i);
    }
  }
}
