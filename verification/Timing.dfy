/** The benchmark's sort-once percentile collector. */
module Timing {
  import opened Text
  import opened RealArithmetic

  ghost predicate Ascending(s: seq<nat>) {
    forall i, j :: 0 <= i < j < |s| ==> s[i] <= s[j]
  }

  function Insert(s: seq<nat>, x: nat): seq<nat> {
    if s == [] || x <= s[0] then [x] + s else [s[0]] + Insert(s[1..], x)
  }

  /** The ascending arrangement of a sequence; any sort yields it (see SortedIsUnique). */
  function Sorted(s: seq<nat>): seq<nat> {
    if s == [] then [] else Insert(Sorted(s[1..]), s[0])
  }

  lemma PrependAscending(x: nat, s: seq<nat>)
    requires Ascending(s) && forall i :: 0 <= i < |s| ==> x <= s[i]
    ensures Ascending([x] + s)
  {
  }

  lemma InsertLowerBound(s: seq<nat>, x: nat, low: nat)
    requires low <= x && forall i :: 0 <= i < |s| ==> low <= s[i]
    ensures forall i :: 0 <= i < |Insert(s, x)| ==> low <= Insert(s, x)[i]
  {
    if s != [] && s[0] < x {
      InsertLowerBound(s[1..], x, low);
    }
  }

  lemma {:induction false} InsertAdds(s: seq<nat>, x: nat)
    ensures multiset(Insert(s, x)) == multiset(s) + multiset{x}
    ensures |Insert(s, x)| == |s| + 1
  {
    if s != [] && s[0] < x {
      InsertAdds(s[1..], x);
      assert s == [s[0]] + s[1..];
    }
  }

  lemma {:induction false} InsertKeeps(s: seq<nat>, x: nat)
    requires Ascending(s)
    ensures Ascending(Insert(s, x))
  {
    if s == [] || x <= s[0] {
      PrependAscending(x, s);
    } else {
      InsertKeeps(s[1..], x);
      InsertLowerBound(s[1..], x, s[0]);
      PrependAscending(s[0], Insert(s[1..], x));
    }
  }

  lemma {:induction false} SortedKeeps(s: seq<nat>)
    ensures Ascending(Sorted(s)) && multiset(Sorted(s)) == multiset(s) && |Sorted(s)| == |s|
  {
    if s != [] {
      SortedKeeps(s[1..]);
      InsertKeeps(Sorted(s[1..]), s[0]);
      InsertAdds(Sorted(s[1..]), s[0]);
      assert s == [s[0]] + s[1..];
    }
  }

  /** Ascending sequences of the same samples are equal. */
  lemma {:induction false} SortedIsUnique(a: seq<nat>, b: seq<nat>)
    requires Ascending(a) && Ascending(b) && multiset(a) == multiset(b)
    ensures a == b
  {
    assert |multiset(a)| == |a| && |multiset(b)| == |b|;
    if a != [] {
      HeadIsLeast(a, b);
      HeadIsLeast(b, a);
      assert a == [a[0]] + a[1..] && b == [b[0]] + b[1..];
      assert multiset(a[1..]) == multiset(a) - multiset{a[0]};
      assert multiset(b[1..]) == multiset(b) - multiset{b[0]};
      SortedIsUnique(a[1..], b[1..]);
    }
  }

  lemma HeadIsLeast(a: seq<nat>, b: seq<nat>)
    requires a != [] && b != [] && Ascending(a) && multiset(a) == multiset(b)
    ensures a[0] <= b[0]
  {
    assert b[0] in multiset(b);
    var i :| 0 <= i < |a| && a[i] == b[0];
  }

  // ---- percentiles --------------------------------------------------------

  /** `x.round() as usize`: halves round away from zero, a negative value casts to 0. */
  function RoundToIndex(x: real): nat {
    if x < 0.0 then 0 else (x + 0.5).Floor
  }

  function PercentileIndex(p: real, n: nat): (idx: nat)
    requires 0 < n
    ensures idx < n
  {
    var raw := RoundToIndex((p / 100.0) * ((n - 1) as real));
    if raw < n - 1 then raw else n - 1
  }

  /** The percentile of any collection of samples, 0 for none. */
  function Percentile(samples: seq<nat>, p: real): nat {
    if samples == [] then 0
    else
      SortedKeeps(samples);
      Sorted(samples)[PercentileIndex(p, |samples|)]
  }

  function CountAtMost(s: seq<nat>, x: nat): nat {
    if s == [] then 0 else (if s[0] <= x then 1 else 0) + CountAtMost(s[1..], x)
  }

  function CountAtLeast(s: seq<nat>, x: nat): nat {
    if s == [] then 0 else (if x <= s[0] then 1 else 0) + CountAtLeast(s[1..], x)
  }

  lemma {:induction false} CountsInsert(s: seq<nat>, y: nat, x: nat)
    ensures CountAtMost(Insert(s, y), x) == CountAtMost([y] + s, x)
    ensures CountAtLeast(Insert(s, y), x) == CountAtLeast([y] + s, x)
  {
    assert ([y] + s)[1..] == s;
    if s != [] && s[0] < y {
      CountsInsert(s[1..], y, x);
      assert ([s[0]] + Insert(s[1..], y))[1..] == Insert(s[1..], y);
      assert ([y] + s[1..])[1..] == s[1..];
    }
  }

  /** Sorting does not change how many samples lie on either side of a value. */
  lemma {:induction false} CountsSorted(s: seq<nat>, x: nat)
    ensures CountAtMost(Sorted(s), x) == CountAtMost(s, x)
    ensures CountAtLeast(Sorted(s), x) == CountAtLeast(s, x)
  {
    if s != [] {
      CountsSorted(s[1..], x);
      CountsInsert(Sorted(s[1..]), s[0], x);
      assert ([s[0]] + Sorted(s[1..]))[1..] == Sorted(s[1..]);
    }
  }

  lemma {:induction false} RankInSorted(s: seq<nat>, i: nat)
    requires Ascending(s) && i < |s|
    ensures CountAtMost(s, s[i]) >= i + 1 && CountAtLeast(s, s[i]) >= |s| - i
  {
    if 0 < i {
      RankInSorted(s[1..], i - 1);
    } else {
      AllAtLeast(s, s[0]);
    }
  }

  lemma {:induction false} AllAtLeast(s: seq<nat>, x: nat)
    requires forall i :: 0 <= i < |s| ==> x <= s[i]
    ensures CountAtLeast(s, x) == |s|
  {
    if s != [] {
      AllAtLeast(s[1..], x);
    }
  }

  /** A percentile is a sample, with its share of the samples on either side. */
  lemma PercentileRank(samples: seq<nat>, p: real)
    requires samples != []
    ensures var idx, v := PercentileIndex(p, |samples|), Percentile(samples, p);
      v in samples && CountAtMost(samples, v) >= idx + 1 && CountAtLeast(samples, v) >= |samples| - idx
  {
    SortedKeeps(samples);
    var idx, v := PercentileIndex(p, |samples|), Percentile(samples, p);
    RankInSorted(Sorted(samples), idx);
    CountsSorted(samples, v);
    assert v in multiset(Sorted(samples));
  }

  lemma IndexMonotone(p: real, q: real, n: nat)
    requires 0 < n && p <= q
    ensures PercentileIndex(p, n) <= PercentileIndex(q, n)
  {
    var m := (n - 1) as real;
    ProductNonNegative(q / 100.0 - p / 100.0, m);
    assert (q / 100.0) * m - (p / 100.0) * m == (q / 100.0 - p / 100.0) * m;
  }

  /** On the scale the index is the nearest rank, halves rounding up. */
  lemma IndexIsNearest(p: real, n: nat)
    requires 0 < n && 0.0 <= p <= 100.0
    ensures var x, idx := (p / 100.0) * ((n - 1) as real), PercentileIndex(p, n) as real;
      idx - 0.5 <= x < idx + 0.5
  {
    var m := (n - 1) as real;
    ProductNonNegative(p / 100.0, m);
    ProductNonNegative(1.0 - p / 100.0, m);
    assert (1.0 - p / 100.0) * m == m - (p / 100.0) * m;
  }

  lemma PercentileMonotone(samples: seq<nat>, p: real, q: real)
    requires p <= q
    ensures Percentile(samples, p) <= Percentile(samples, q)
  {
    if samples != [] {
      SortedKeeps(samples);
      IndexMonotone(p, q, |samples|);
    }
  }

  /** The order in which samples arrived does not matter. */
  lemma PercentileIgnoresOrder(a: seq<nat>, b: seq<nat>, p: real)
    requires multiset(a) == multiset(b)
    ensures Percentile(a, p) == Percentile(b, p)
  {
    SortedKeeps(a);
    SortedKeeps(b);
    SortedIsUnique(Sorted(a), Sorted(b));
  }

  /** The ends of the scale, and everything beyond them, are the extreme samples. */
  lemma PercentileExtremes(samples: seq<nat>, p: real)
    requires samples != []
    ensures p <= 0.0 ==> forall x :: x in samples ==> Percentile(samples, p) <= x
    ensures p >= 100.0 ==> forall x :: x in samples ==> x <= Percentile(samples, p)
  {
    SortedKeeps(samples);
    var n, s := |samples|, Sorted(samples);
    var m := (n - 1) as real;
    forall x | x in samples
      ensures s[0] <= x <= s[n - 1]
    {
      assert x in multiset(s);
      var i :| 0 <= i < n && s[i] == x;
    }
    if p <= 0.0 {
      IndexMonotone(p, 0.0, n);
    }
    if p >= 100.0 {
      IndexMonotone(100.0, p, n);
      assert RoundToIndex((100.0 / 100.0) * m) == n - 1;
    }
  }

  class TimingCollector {
    var samples: seq<nat>
    var sorted: bool
    ghost var added: seq<nat>

    /** The samples are those added, rearranged; the flag is only up when they are in order. */
    ghost predicate Valid()
      reads this
    {
      multiset(samples) == multiset(added) && (sorted ==> samples == Sorted(added))
    }

    constructor ()
      ensures Valid() && added == [] && !sorted
    {
      samples, sorted, added := [], false, [];
    }

    method AddSample(sample: nat)
      requires Valid()
      modifies this
      ensures Valid() && added == old(added) + [sample] && !sorted
    {
      samples := samples + [sample];
      sorted := false;
      added := added + [sample];
    }

    method Finalize()
      requires Valid()
      modifies this`samples, this`sorted
      ensures Valid() && sorted
    {
      if !sorted {
        SortedKeeps(samples);
        SortedKeeps(added);
        SortedIsUnique(Sorted(samples), Sorted(added));
        samples := Sorted(samples);
        sorted := true;
      }
    }

    /** None is the panic for a collector that was not finalized after its last sample. */
    method PercentileOf(p: real) returns (r: Option<nat>)
      requires Valid()
      ensures r == if sorted then Some(Percentile(added, p)) else None
    {
      if !sorted {
        return None;
      }
      SortedKeeps(added);
      if samples == [] {
        return Some(0);
      }
      return Some(samples[PercentileIndex(p, |samples|)]);
    }
  }
}
