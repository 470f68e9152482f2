/**
  The median of the last 11 timestamps. A hint sorts them and picks the sixth; the program then counts how
  many are smaller and larger. The count accepts the sixth smallest and nothing else, and as the window of
  timestamps slides along a chain, its median never decreases.
*/
module MedianTime {
  const TIMESTAMP_COUNT: nat := 11
  const TIMESTAMP_MEDIAN_INDEX: nat := 5

  /** How many elements have the property. */
  function Tally(s: seq<int>, p: int -> bool): (k: nat)
    ensures k <= |s|
  {
    if s == [] then 0 else Tally(s[..|s| - 1], p) + if p(s[|s| - 1]) then 1 else 0
  }

  function Below(m: int): int -> bool { x => x < m }
  function Above(m: int): int -> bool { x => x > m }

  function Insert(s: seq<int>, x: int): (r: seq<int>)
    ensures |r| == |s| + 1
  {
    if s == [] || s[|s| - 1] <= x then s + [x] else Insert(s[..|s| - 1], x) + [s[|s| - 1]]
  }

  function Sorted(s: seq<int>): (r: seq<int>)
    ensures |r| == |s|
  {
    if s == [] then [] else Insert(Sorted(s[..|s| - 1]), s[|s| - 1])
  }

  predicate Ascending(s: seq<int>) {
    forall i, j :: 0 <= i <= j < |s| ==> s[i] <= s[j]
  }

  lemma TallyLast(s: seq<int>, x: int, p: int -> bool)
    ensures Tally(s + [x], p) == Tally(s, p) + if p(x) then 1 else 0
  {
    assert (s + [x])[..|s|] == s;
  }

  lemma AscendingLast(s: seq<int>, x: int)
    requires Ascending(s) && (s != [] ==> s[|s| - 1] <= x)
    ensures Ascending(s + [x])
  {
    forall i, j | 0 <= i <= j < |s + [x]| ensures (s + [x])[i] <= (s + [x])[j] {
      if i < |s| { assert s[i] <= s[|s| - 1]; }
    }
  }

  lemma AscendingFront(s: seq<int>)
    requires Ascending(s) && s != []
    ensures Ascending(s[..|s| - 1]) && forall i :: 0 <= i < |s| ==> s[i] <= s[|s| - 1]
  {
  }

  lemma {:induction false} InsertKeeps(s: seq<int>, x: int, p: int -> bool)
    requires Ascending(s)
    ensures Ascending(Insert(s, x)) && Tally(Insert(s, x), p) == Tally(s, p) + if p(x) then 1 else 0
    ensures s != [] ==> Insert(s, x)[|s|] == if x < s[|s| - 1] then s[|s| - 1] else x
  {
    hide Ascending, Tally;
    if s == [] || s[|s| - 1] <= x {
      AscendingLast(s, x);
      TallyLast(s, x, p);
    } else {
      var front, last := s[..|s| - 1], s[|s| - 1];
      AscendingFront(s);
      InsertKeeps(front, x, p);
      AscendingLast(Insert(front, x), last);
      TallyLast(Insert(front, x), last, p);
      TallyLast(front, last, p);
      assert s == front + [last];
    }
  }

  /** Sorting yields an ascending sequence with the same elements, each as often. */
  lemma {:induction false} SortedIs(s: seq<int>, p: int -> bool)
    ensures Ascending(Sorted(s)) && Tally(Sorted(s), p) == Tally(s, p)
  {
    if s != [] {
      SortedIs(s[..|s| - 1], p);
      InsertKeeps(Sorted(s[..|s| - 1]), s[|s| - 1], p);
    }
  }

  lemma {:induction false} TallyAppend(s: seq<int>, t: seq<int>, p: int -> bool)
    ensures Tally(s + t, p) == Tally(s, p) + Tally(t, p)
  {
    if t == [] {
      assert s + t == s;
    } else {
      assert (s + t)[..|s + t| - 1] == s + t[..|t| - 1];
      TallyAppend(s, t[..|t| - 1], p);
    }
  }

  lemma {:induction false} TallyUniform(s: seq<int>, p: int -> bool, b: bool)
    requires forall i :: 0 <= i < |s| ==> p(s[i]) == b
    ensures Tally(s, p) == if b then |s| else 0
  {
    if s != [] { TallyUniform(s[..|s| - 1], p, b); }
  }

  lemma TallyParts(s: seq<int>, k: nat, p: int -> bool)
    requires k < |s|
    ensures Tally(s, p) == Tally(s[..k], p) + (if p(s[k]) then 1 else 0) + Tally(s[k + 1..], p)
  {
    hide Tally;
    var high := s[k + 1..];
    assert s == (s[..k] + [s[k]]) + high;
    TallyAppend(s[..k] + [s[k]], high, p);
    TallyLast(s[..k], s[k], p);
  }

  /** The element at index `k` of an ascending sequence has at most `k` elements below it, and the rest bound above. */
  lemma AtIndex(s: seq<int>, k: nat, m: int)
    requires Ascending(s) && k < |s|
    ensures m == s[k] <==> Tally(s, Below(m)) <= k && Tally(s, Above(m)) <= |s| - 1 - k
  {
    hide Tally;
    TallyParts(s, k, Below(m));
    TallyParts(s, k, Above(m));
    if m == s[k] {
      TallyUniform(s[..k], Above(m), false);
      TallyUniform(s[k + 1..], Below(m), false);
    } else if s[k] < m {
      TallyUniform(s[..k], Below(m), true);
    } else {
      TallyUniform(s[k + 1..], Above(m), true);
    }
  }

  lemma TallyOne(x: int, p: int -> bool)
    ensures Tally([x], p) == if p(x) then 1 else 0
  {
    assert [x][..0] == [];
  }

  function Median(timestamps: seq<int>): int
    requires |timestamps| == TIMESTAMP_COUNT
  {
    Sorted(timestamps)[TIMESTAMP_MEDIAN_INDEX]
  }

  /** The median is the one value with at most five timestamps below and at most five above it. */
  lemma MedianCounts(timestamps: seq<int>, m: int)
    requires |timestamps| == TIMESTAMP_COUNT
    ensures m == Median(timestamps) <==> Tally(timestamps, Below(m)) <= 5 && Tally(timestamps, Above(m)) <= 5
  {
    SortedIs(timestamps, Below(m));
    SortedIs(timestamps, Above(m));
    AtIndex(Sorted(timestamps), TIMESTAMP_MEDIAN_INDEX, m);
  }

  /** `verify_timestamps_median`: accepts the sixth smallest timestamp only. */
  method VerifyTimestampsMedian(timestamps: seq<int>, median: int) returns (ok: bool)
    requires |timestamps| == TIMESTAMP_COUNT
    ensures ok <==> median == Median(timestamps)
  {
    var signsDiff, occurrences, next, n := 0, 0, 0, 11;
    while n != 0
      invariant 0 <= n && next == 11 - n && next <= 11
      invariant signsDiff == Tally(timestamps[..next], Above(median)) - Tally(timestamps[..next], Below(median))
      invariant occurrences
        == next - Tally(timestamps[..next], Above(median)) - Tally(timestamps[..next], Below(median))
    {
      assert timestamps[..next + 1][..next] == timestamps[..next];
      var delta := timestamps[next] - median;
      if delta == 0 {
        occurrences := occurrences + 1;
      } else {
        signsDiff := signsDiff + if delta > 0 then 1 else -1;
      }
      next := next + 1;
      n := n - 1;
    }
    assert timestamps[..11] == timestamps;
    MedianCounts(timestamps, median);
    var absoluteSigns := if signsDiff < 0 then -signsDiff else signsDiff;
    ok := absoluteSigns + 1 <= occurrences;
  }

  method ComputeTimestampsMedian(timestamps: seq<int>) returns (median: int)
    requires |timestamps| == TIMESTAMP_COUNT
    ensures median == Median(timestamps)
  {
    median := Sorted(timestamps)[TIMESTAMP_MEDIAN_INDEX];
    var ok := VerifyTimestampsMedian(timestamps, median);
    assert ok;
  }

  // ------------------------------------------------------------------------
  // The sliding window
  // ------------------------------------------------------------------------

  function NextTimestamps(timestamps: seq<int>, time: int): (r: seq<int>)
    requires |timestamps| == TIMESTAMP_COUNT
    ensures |r| == TIMESTAMP_COUNT
  {
    [time] + timestamps[..10]
  }

  /** A timestamp that is not before the median of its window does not bring the next median down. */
  lemma MedianNeverDecreases(timestamps: seq<int>, time: int)
    requires |timestamps| == TIMESTAMP_COUNT && Median(timestamps) <= time
    ensures Median(timestamps) <= Median(NextTimestamps(timestamps, time))
  {
    var m, next := Median(timestamps), NextTimestamps(timestamps, time);
    var n := Median(next);
    MedianCounts(timestamps, m);
    MedianCounts(next, n);
    if n < m {
      TallyAppend([time], timestamps[..10], Above(n));
      TallyAppend(timestamps[..10], [timestamps[10]], Below(m));
      TallyAppend([time], timestamps[..10], Below(n));
      assert timestamps[..10] + [timestamps[10]] == timestamps;
      TallyOne(time, Above(n));
      TallyOne(timestamps[10], Below(m));
      Complementary(timestamps[..10], n, m);
    }
  }

  /** What is not above `n` is below any larger `m`. */
  lemma {:induction false} Complementary(s: seq<int>, n: int, m: int)
    requires n < m
    ensures Tally(s, Above(n)) + Tally(s, Below(m)) >= |s|
  {
    if s != [] { Complementary(s[..|s| - 1], n, m); }
  }
}
