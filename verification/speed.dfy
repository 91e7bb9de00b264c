/**
 * The per-second histogram of correct keystrokes built at the end of a
 * test, and the running totals that become the speed chart's points.
 * Times are whole milliseconds.
 */
module Speed {
  import opened Log

  /** `ceil(ms / 1000)`: the whole second a millisecond offset falls in. */
  function CeilSecs(ms: nat): nat {
    (ms + 999) / 1000
  }

  /**
   * The chart marker of a correct keystroke `offsetMs` after the start of
   * the test, when the results are computed `elapsedMs` after the start.
   * The limit the rounded-up second is compared with is the elapsed time
   * in milliseconds, and so is the value used past that limit.
   */
  function SecondMarker(offsetMs: nat, elapsedMs: nat): (b: nat)
    ensures offsetMs == 0 ==> b == 1
    ensures 0 < offsetMs && CeilSecs(offsetMs) <= elapsedMs ==>
      0 < b && (b - 1) * 1000 < offsetMs <= b * 1000
    ensures 0 < offsetMs && CeilSecs(offsetMs) > elapsedMs ==> b == elapsedMs
  {
    if offsetMs == 0 then 1
    else if CeilSecs(offsetMs) <= elapsedMs then
      if 0 < offsetMs < 1000 then 1 else CeilSecs(offsetMs)
    else elapsedMs
  }

  /**
   * For a keystroke that happened before the results were computed, the
   * clamp to the elapsed time never applies: every keystroke is marked
   * with the second it falls in (the first second for an offset of 0).
   */
  lemma NoClampBeforeNow(offsetMs: nat, elapsedMs: nat)
    requires offsetMs <= elapsedMs
    ensures SecondMarker(offsetMs, elapsedMs) == if offsetMs == 0 then 1 else CeilSecs(offsetMs)
  {
  }

  /** The markers of the given keystrokes, in order. */
  function Markers(cs: seq<Input>, start: nat, elapsedMs: nat): (m: seq<nat>)
    requires forall i :: 0 <= i < |cs| ==> start <= cs[i].timestamp
    ensures |m| == |cs|
    ensures forall i {:trigger m[i]} :: 0 <= i < |cs| ==> m[i] == SecondMarker(cs[i].timestamp - start, elapsedMs)
  {
    seq(|cs|, i requires 0 <= i < |cs| => SecondMarker(cs[i].timestamp - start, elapsedMs))
  }

  // ---------------------------------------------------------------------
  // The histogram: (marker, count) pairs in ascending marker order

  type Histogram = seq<(nat, nat)>

  /** Markers strictly increase along the histogram, so each appears once. */
  predicate Sorted(h: Histogram) {
    forall i, j :: 0 <= i < j < |h| ==> h[i].0 < h[j].0
  }

  /** Every entry of the histogram counts at least one keystroke. */
  predicate Positive(h: Histogram) {
    forall i :: 0 <= i < |h| ==> h[i].1 > 0
  }

  /** Every marker of the histogram is above `b`. */
  predicate Above(h: Histogram, b: nat) {
    forall i :: 0 <= i < |h| ==> b < h[i].0
  }

  /** The number of keystrokes the histogram records under marker `x`. */
  function CountOf(h: Histogram, x: nat): nat {
    if h == [] then 0
    else (if h[0].0 == x then h[0].1 else 0) + CountOf(h[1..], x)
  }

  /** The number of keystrokes the histogram records in all. */
  function Total(h: Histogram): nat {
    if h == [] then 0 else Total(h[..|h| - 1]) + h[|h| - 1].1
  }

  /** One more keystroke under marker `k`: its count goes up, or a new entry goes in its place. */
  function AddMarker(h: Histogram, k: nat): (r: Histogram)
    ensures |h| <= |r| <= |h| + 1
  {
    if h == [] then [(k, 1)]
    else if h[0].0 == k then [(k, h[0].1 + 1)] + h[1..]
    else if k < h[0].0 then [(k, 1)] + h
    else [h[0]] + AddMarker(h[1..], k)
  }

  /** The histogram of a list of markers, as the fold into a map and the sort by marker build it. */
  function Tally(m: seq<nat>): (r: Histogram)
    ensures |r| <= |m|
    ensures r == [] <==> m == []
  {
    if m == [] then [] else AddMarker(Tally(m[1..]), m[0])
  }

  lemma {:induction false} AddMarkerAbove(h: Histogram, k: nat, b: nat)
    requires Above(h, b) && b < k
    ensures Above(AddMarker(h, k), b)
  {
    if h != [] && h[0].0 != k && k > h[0].0 {
      AddMarkerAbove(h[1..], k, b);
    }
  }

  lemma {:induction false} AddMarkerSorted(h: Histogram, k: nat)
    requires Sorted(h) && Positive(h)
    ensures Sorted(AddMarker(h, k)) && Positive(AddMarker(h, k))
  {
    if h != [] && h[0].0 != k && k > h[0].0 {
      AddMarkerSorted(h[1..], k);
      AddMarkerAbove(h[1..], k, h[0].0);
    }
  }

  lemma {:induction false} AddMarkerCount(h: Histogram, k: nat, x: nat)
    ensures CountOf(AddMarker(h, k), x) == CountOf(h, x) + if x == k then 1 else 0
  {
    if h == [] {
    } else if h[0].0 == k {
      assert AddMarker(h, k)[1..] == h[1..];
    } else if k < h[0].0 {
      assert AddMarker(h, k)[1..] == h;
    } else {
      assert AddMarker(h, k)[1..] == AddMarker(h[1..], k);
      AddMarkerCount(h[1..], k, x);
    }
  }

  lemma {:induction false} TotalCons(p: (nat, nat), h: Histogram)
    ensures Total([p] + h) == p.1 + Total(h)
    decreases |h|
  {
    if h != [] {
      assert ([p] + h)[..|h|] == [p] + h[..|h| - 1];
      TotalCons(p, h[..|h| - 1]);
    } else {
      assert ([p] + h)[..0] == [];
    }
  }

  lemma {:induction false} AddMarkerTotal(h: Histogram, k: nat)
    ensures Total(AddMarker(h, k)) == Total(h) + 1
  {
    if h == [] {
      assert [(k, 1)][..0] == [];
    } else {
      assert h == [h[0]] + h[1..];
      TotalCons(h[0], h[1..]);
      if h[0].0 == k {
        TotalCons((k, h[0].1 + 1), h[1..]);
      } else if k < h[0].0 {
        TotalCons((k, 1), h);
      } else {
        AddMarkerTotal(h[1..], k);
        TotalCons(h[0], AddMarker(h[1..], k));
      }
    }
  }

  /**
   * The histogram has one entry per distinct marker, in ascending order,
   * each counting exactly the occurrences of its marker, and it records
   * every keystroke once.
   */
  lemma {:induction false} TallyCorrect(m: seq<nat>)
    ensures Sorted(Tally(m)) && Positive(Tally(m))
    ensures forall x :: CountOf(Tally(m), x) == multiset(m)[x]
    ensures Total(Tally(m)) == |m|
  {
    if m != [] {
      TallyCorrect(m[1..]);
      AddMarkerSorted(Tally(m[1..]), m[0]);
      AddMarkerTotal(Tally(m[1..]), m[0]);
      assert m == [m[0]] + m[1..];
      forall x ensures CountOf(Tally(m), x) == multiset(m)[x] {
        AddMarkerCount(Tally(m[1..]), m[0], x);
      }
    }
  }

  // ---------------------------------------------------------------------
  // The speed chart's points

  /**
   * For each histogram entry, its marker and the number of correct
   * keystrokes up to and including it.
   */
  function CumulativeCoords(h: Histogram): (r: seq<(nat, nat)>)
    ensures |r| == |h|
  {
    if h == [] then [] else CumulativeCoords(h[..|h| - 1]) + [(h[|h| - 1].0, Total(h))]
  }

  /**
   * The chart has one point per histogram entry, at that entry's marker,
   * whose count is the running total up to it; the totals never decrease.
   */
  lemma {:induction false} CumulativeCoordsAt(h: Histogram)
    ensures forall i :: 0 <= i < |h| ==>
      CumulativeCoords(h)[i] == (h[i].0, Total(h[..i + 1]))
    ensures forall i, j :: 0 <= i <= j < |h| ==>
      CumulativeCoords(h)[i].1 <= CumulativeCoords(h)[j].1
  {
    if h != [] {
      var init := h[..|h| - 1];
      CumulativeCoordsAt(init);
      forall i | 0 <= i < |h| ensures CumulativeCoords(h)[i] == (h[i].0, Total(h[..i + 1])) {
        if i < |h| - 1 {
          assert init[..i + 1] == h[..i + 1];
        } else {
          assert h[..i + 1] == h;
        }
      }
      forall i | 0 <= i < |h| ensures CumulativeCoords(h)[i].1 <= Total(h) {
        TotalPrefix(h, i + 1);
      }
    }
  }

  /** Extending a prefix of the histogram by one entry adds one chart point, carrying the new running total. */
  lemma CumulativeCoordsStep(h: Histogram, i: nat)
    requires i < |h|
    ensures Total(h[..i + 1]) == Total(h[..i]) + h[i].1
    ensures CumulativeCoords(h[..i + 1]) == CumulativeCoords(h[..i]) + [(h[i].0, Total(h[..i + 1]))]
  {
    assert h[..i + 1][..i] == h[..i];
  }

  /** A prefix of a histogram never records more than the whole. */
  lemma {:induction false} TotalPrefix(h: Histogram, n: nat)
    requires n <= |h|
    ensures Total(h[..n]) <= Total(h)
    decreases |h|
  {
    if n < |h| {
      assert h[..|h| - 1][..n] == h[..n];
      TotalPrefix(h[..|h| - 1], n);
    } else {
      assert h[..n] == h;
    }
  }

  /**
   * The chart of an ascending histogram: its markers strictly ascend and
   * its last running total is the histogram's total.
   */
  lemma ChartOfHistogram(h: Histogram)
    requires Sorted(h)
    ensures var c := CumulativeCoords(h);
      && (forall i, j :: 0 <= i < j < |c| ==> c[i].0 < c[j].0)
      && (c != [] ==> c[|c| - 1].1 == Total(h))
  {
    CumulativeCoordsAt(h);
    if h != [] {
      assert h[..|h|] == h;
    }
  }

  /**
   * The chart built from a list of markers: one point per distinct
   * marker, ascending, and the last point's running total is the number of
   * correct keystrokes.
   */
  lemma ChartOfMarkers(m: seq<nat>)
    ensures var c := CumulativeCoords(Tally(m));
      && (c == [] <==> m == [])
      && (forall i, j :: 0 <= i < j < |c| ==> c[i].0 < c[j].0)
      && (c != [] ==> c[|c| - 1].1 == |m|)
  {
    TallyCorrect(m);
    ChartOfHistogram(Tally(m));
  }

  /**
   * The counts the consistency figure is computed over: every histogram
   * entry but the last, which covers an incomplete second.
   */
  function ConsistencySamples(h: Histogram): (r: seq<nat>)
    ensures |r| == if h == [] then 0 else |h| - 1
    ensures forall i :: 0 <= i < |r| ==> r[i] == h[i].1
  {
    if |h| <= 1 then [] else seq(|h| - 1, i requires 0 <= i < |h| - 1 => h[i].1)
  }
}
