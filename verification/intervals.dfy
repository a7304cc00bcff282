/** Sums over the finite maps the program keeps (interval counts, barcode counts). */
module Sums {
  /** The sum of the values of a map. */
  ghost function MapSum(m: map<string, nat>): nat {
    SumOver(m, m.Keys)
  }

  /** The sum of the values of the given keys of a map. */
  ghost function SumOver(m: map<string, nat>, keys: set<string>): nat
    requires keys <= m.Keys
  {
    if keys == {} then 0 else var k :| k in keys; m[k] + SumOver(m, keys - {k})
  }

  /** Any key can be taken out first. */
  lemma {:induction false} SumOverRemove(m: map<string, nat>, keys: set<string>, k: string)
    requires keys <= m.Keys && k in keys
    ensures SumOver(m, keys) == m[k] + SumOver(m, keys - {k})
    decreases keys
  {
    var j :| j in keys && SumOver(m, keys) == m[j] + SumOver(m, keys - {j});
    if j != k {
      SumOverRemove(m, keys - {j}, k);
      SumOverRemove(m, keys - {k}, j);
      assert keys - {j} - {k} == keys - {k} - {j};
    }
  }

  /** Only the values of the summed keys matter. */
  lemma {:induction false} SumOverFrame(m: map<string, nat>, m': map<string, nat>, keys: set<string>)
    requires keys <= m.Keys && keys <= m'.Keys
    requires forall k :: k in keys ==> m[k] == m'[k]
    ensures SumOver(m, keys) == SumOver(m', keys)
    decreases keys
  {
    if keys != {} {
      var k :| k in keys;
      SumOverRemove(m, keys, k);
      SumOverRemove(m', keys, k);
      SumOverFrame(m, m', keys - {k});
    }
  }

  /** Setting one key changes the sum by the difference of its values. */
  lemma MapSumUpdate(m: map<string, nat>, k: string, v: nat)
    ensures MapSum(m[k := v]) == MapSum(m) - (if k in m then m[k] else 0) + v
  {
    var m' := m[k := v];
    SumOverRemove(m', m'.Keys, k);
    SumOverFrame(m, m', m.Keys - {k});
    if k in m {
      SumOverRemove(m, m.Keys, k);
      assert m'.Keys - {k} == m.Keys - {k};
    } else {
      assert m'.Keys - {k} == m.Keys;
      assert m.Keys - {k} == m.Keys;
    }
  }

  lemma MapSumEmpty()
    ensures MapSum(map[]) == 0
  {
  }
}

/**
 * The per-chromosome interval index. `rust_lapper::Lapper` is a foreign
 * library: an index is modelled as the sequence of its intervals, a query as
 * the filter "every interval that overlaps the query", and the cursor-based
 * `seek` by the steps it takes: a restart at the lower bound of
 * `q - max_len`, a forward move of the cursor, and a scan from the cursor.
 */
module Intervals {
  import opened Wrappers

  /** `rust_lapper::Interval<u32, usize>`: the half-open range [start, stop) tagged with `val`. */
  datatype Interval = Interval(start: nat, stop: nat, val: nat)

  /** `Interval::overlap(s, e)`: the interval and [s, e) share a position. */
  predicate Overlaps(iv: Interval, s: nat, e: nat) {
    iv.start < e && iv.stop > s
  }

  /** Position q lies in the interval. */
  predicate Contains(iv: Interval, q: nat) {
    iv.start <= q < iv.stop
  }

  /** A point query [q, q + 1) overlaps exactly the intervals containing q. */
  lemma PointOverlap(iv: Interval, q: nat)
    ensures Overlaps(iv, q, q + 1) <==> Contains(iv, q)
  {
  }

  predicate StrictlyIncreasing(r: seq<nat>) {
    forall i, j :: 0 <= i < j < |r| ==> r[i] < r[j]
  }

  /**
   * The positions k in [lo, |ivs|) whose interval overlaps [s, e), ascending:
   * what `Lapper::find(s, e)` yields, identified by position.
   */
  function OverlapsFrom(ivs: seq<Interval>, s: nat, e: nat, lo: nat): (r: seq<nat>)
    requires lo <= |ivs|
    ensures forall i :: 0 <= i < |r| ==> lo <= r[i] < |ivs| && Overlaps(ivs[r[i]], s, e)
    ensures forall k :: lo <= k < |ivs| && Overlaps(ivs[k], s, e) ==> k in r
    ensures StrictlyIncreasing(r)
    decreases |ivs| - lo
  {
    if lo == |ivs| then []
    else (if Overlaps(ivs[lo], s, e) then [lo] else []) + OverlapsFrom(ivs, s, e, lo + 1)
  }

  /** Every interval containing q, as positions: the point query at q. */
  function PointHits(ivs: seq<Interval>, q: nat): seq<nat> {
    OverlapsFrom(ivs, q, q + 1, 0)
  }

  /** The point query finds exactly the intervals containing q, each once. */
  lemma PointHitsExact(ivs: seq<Interval>, q: nat)
    ensures forall k :: k in PointHits(ivs, q) <==> 0 <= k < |ivs| && Contains(ivs[k], q)
    ensures StrictlyIncreasing(PointHits(ivs, q))
  {
  }

  /** Skipping positions whose intervals miss [s, e) changes no query result. */
  lemma {:induction false} OverlapsSkip(ivs: seq<Interval>, s: nat, e: nat, lo: nat, hi: nat)
    requires lo <= hi <= |ivs|
    requires forall k :: lo <= k < hi ==> !Overlaps(ivs[k], s, e)
    ensures OverlapsFrom(ivs, s, e, lo) == OverlapsFrom(ivs, s, e, hi)
    decreases hi - lo
  {
    if lo < hi {
      assert !Overlaps(ivs[lo], s, e);
      assert OverlapsFrom(ivs, s, e, lo) == [] + OverlapsFrom(ivs, s, e, lo + 1);
      OverlapsSkip(ivs, s, e, lo + 1, hi);
    }
  }

  // ---------------------------------------------------------------------------
  // The cursor

  /** An interval's length, `stop.checked_sub(start).unwrap_or(0)`. */
  function Length(iv: Interval): nat {
    if iv.start <= iv.stop then iv.stop - iv.start else 0
  }

  /** `Lapper::new`'s `max_len`: the greatest length of an interval in the list, zero for an empty list. */
  function MaxLen(ivs: seq<Interval>): (m: nat)
    ensures forall k :: 0 <= k < |ivs| ==> Length(ivs[k]) <= m
    ensures |ivs| > 0 ==> exists k :: 0 <= k < |ivs| && Length(ivs[k]) == m
    ensures |ivs| == 0 ==> m == 0
  {
    if |ivs| == 0 then 0
    else
      var m := MaxLen(ivs[1..]);
      assert forall k :: 1 <= k < |ivs| ==> ivs[k] == ivs[1..][k - 1];
      if Length(ivs[0]) > m then Length(ivs[0]) else m
  }

  /**
   * `q.checked_sub(max_len).unwrap_or(0)`: the bound below which `seek`
   * treats an interval as finished before q.
   */
  function Reach(ivs: seq<Interval>, q: nat): nat {
    if q >= MaxLen(ivs) then q - MaxLen(ivs) else 0
  }

  /** An interval that starts below the reach of q ends at or before q. */
  lemma BelowReach(ivs: seq<Interval>, q: nat, k: nat)
    requires k < |ivs| && ivs[k].start < Reach(ivs, q)
    ensures ivs[k].stop <= q
  {
    assert Length(ivs[k]) <= MaxLen(ivs);
  }

  /**
   * `Lapper::lower_bound(x)`, a binary search over a list sorted by start:
   * the first position from lo whose interval starts at or after x, or the
   * length of the list when every interval starts before x.
   */
  function LowerBound(ivs: seq<Interval>, x: nat, lo: nat): (r: nat)
    requires lo <= |ivs|
    ensures lo <= r <= |ivs|
    ensures forall k :: lo <= k < r ==> ivs[k].start < x
    ensures r < |ivs| ==> ivs[r].start >= x
    decreases |ivs| - lo
  {
    if lo == |ivs| || ivs[lo].start >= x then lo else LowerBound(ivs, x, lo + 1)
  }

  /**
   * The loop of `seek` that moves the cursor forward while the next interval
   * starts before x. It never moves a cursor onto the end of the list.
   */
  function Advance(ivs: seq<Interval>, x: nat, c: nat): (c': nat)
    requires c <= |ivs|
    ensures c <= c' <= |ivs|
    ensures c' == c || c' < |ivs|
    ensures forall k :: c < k <= c' ==> ivs[k].start < x
    ensures c' + 1 < |ivs| ==> ivs[c' + 1].start >= x
    decreases |ivs| - c
  {
    if c + 1 < |ivs| && ivs[c + 1].start < x then Advance(ivs, x, c + 1) else c
  }

  /**
   * `IterFind` from position off: the intervals overlapping [s, e), scanning
   * forward and stopping at the first interval that starts at or after e.
   */
  function FindFrom(ivs: seq<Interval>, s: nat, e: nat, off: nat): (r: seq<nat>)
    requires off <= |ivs|
    ensures forall i :: 0 <= i < |r| ==> off <= r[i] < |ivs| && Overlaps(ivs[r[i]], s, e)
    ensures StrictlyIncreasing(r)
    decreases |ivs| - off
  {
    if off == |ivs| then []
    else if Overlaps(ivs[off], s, e) then [off] + FindFrom(ivs, s, e, off + 1)
    else if ivs[off].start >= e then []
    else FindFrom(ivs, s, e, off + 1)
  }

  /** On a list sorted by start, stopping at the first interval past e loses nothing: the scan is the filter. */
  lemma {:induction false} FindFromSorted(ivs: seq<Interval>, s: nat, e: nat, off: nat)
    requires SortedIntervals(ivs) && off <= |ivs|
    ensures FindFrom(ivs, s, e, off) == OverlapsFrom(ivs, s, e, off)
    decreases |ivs| - off
  {
    if off < |ivs| {
      if Overlaps(ivs[off], s, e) {
        FindFromSorted(ivs, s, e, off + 1);
      } else if ivs[off].start >= e {
        assert forall k :: off <= k < |ivs| ==> !Overlaps(ivs[k], s, e) by {
          forall k | off <= k < |ivs| ensures !Overlaps(ivs[k], s, e) {
            if k > off { assert NotAfter(ivs[off], ivs[k]); }
          }
        }
        OverlapsSkip(ivs, s, e, off, |ivs|);
      } else {
        FindFromSorted(ivs, s, e, off + 1);
      }
    }
  }

  /** Every interval before the cursor ends at or before q, so none of them reaches q or beyond. */
  ghost predicate Behind(ivs: seq<Interval>, cursor: nat, q: nat) {
    cursor <= |ivs| && forall k :: 0 <= k < cursor ==> ivs[k].stop <= q
  }

  /** A cursor past the last interval: `seek` neither restarts nor moves it. */
  predicate PastEnd(ivs: seq<Interval>, cursor: nat) {
    cursor != 0 && cursor == |ivs|
  }

  datatype Seeked = Seeked(hits: seq<nat>, cursor: nat)

  /**
   * `Lapper::seek(q, q + 1, &mut cursor)`. With the cursor at zero, or on an
   * interval that starts after q, the cursor restarts at the lower bound of
   * q - max_len; a cursor past the last interval is kept. The cursor then
   * moves forward while the next interval starts before q - max_len, and the
   * scan from the cursor returns the intervals containing q.
   */
  function Seek(ivs: seq<Interval>, q: nat, cursor: nat): (r: Seeked)
    requires cursor <= |ivs|
    ensures r.cursor <= |ivs|
    ensures forall i :: 0 <= i < |r.hits| ==> r.hits[i] < |ivs| && Contains(ivs[r.hits[i]], q)
    ensures StrictlyIncreasing(r.hits)
    ensures PastEnd(ivs, cursor) ==> r == Seeked([], cursor)
  {
    var x := Reach(ivs, q);
    var from := if cursor == 0 || (cursor < |ivs| && ivs[cursor].start > q) then LowerBound(ivs, x, 0) else cursor;
    var c := Advance(ivs, x, from);
    Seeked(FindFrom(ivs, q, q + 1, c), c)
  }

  /**
   * A seek leaves the cursor past the last interval only when it already was
   * there, or when every interval ends at or before the query.
   */
  lemma SeekReachesEnd(ivs: seq<Interval>, q: nat, cursor: nat)
    requires cursor <= |ivs| && !PastEnd(ivs, cursor) && PastEnd(ivs, Seek(ivs, q, cursor).cursor)
    ensures forall k :: 0 <= k < |ivs| ==> ivs[k].stop <= q
  {
    forall k | 0 <= k < |ivs| ensures ivs[k].stop <= q {
      BelowReach(ivs, q, k);
    }
  }

  /**
   * On a sorted list the cursor only ever stands behind the largest point
   * queried since it was reset: if every interval before it ended by m, after
   * a query at q every interval before the new cursor ends by max(m, q).
   */
  lemma SeekKeepsBehind(ivs: seq<Interval>, q: nat, cursor: nat, m: nat)
    requires SortedIntervals(ivs) && Behind(ivs, cursor, m)
    ensures Behind(ivs, Seek(ivs, q, cursor).cursor, if m < q then q else m)
  {
    var x := Reach(ivs, q);
    var reset := cursor == 0 || (cursor < |ivs| && ivs[cursor].start > q);
    var from := if reset then LowerBound(ivs, x, 0) else cursor;
    var c := Advance(ivs, x, from);
    forall k | 0 <= k < c ensures ivs[k].stop <= if m < q then q else m {
      if k < from {
        if reset { BelowReach(ivs, q, k); }
      } else {
        assert NotAfter(ivs[k], ivs[k + 1]);
        BelowReach(ivs, q, k);
      }
    }
  }

  /**
   * When queries arrive in ascending order the seek equals the plain filter:
   * on a sorted list, if every interval before the cursor ends at or before
   * q, the seek returns exactly the intervals containing q, and the cursor it
   * leaves behind stays behind q.
   */
  lemma SeekIsPointQuery(ivs: seq<Interval>, q: nat, cursor: nat)
    requires SortedIntervals(ivs) && Behind(ivs, cursor, q)
    ensures Seek(ivs, q, cursor).hits == PointHits(ivs, q)
    ensures Behind(ivs, Seek(ivs, q, cursor).cursor, q)
  {
    SeekKeepsBehind(ivs, q, cursor, q);
    var c := Seek(ivs, q, cursor).cursor;
    FindFromSorted(ivs, q, q + 1, c);
    OverlapsSkip(ivs, q, q + 1, 0, c);
  }

  /** A query at a point behind which the cursor already stands leaves it behind any later point. */
  lemma BehindLater(ivs: seq<Interval>, cursor: nat, q: nat, q': nat)
    requires Behind(ivs, cursor, q) && q <= q'
    ensures Behind(ivs, cursor, q')
  {
  }

  // ---------------------------------------------------------------------------
  // Which intervals a fragment adds to

  /**
   * The counting rule applied to the hits of the query at the fragment's
   * start: each hit is added once, and once more when the fragment ends
   * inside it.
   */
  function StartAdditions(ivs: seq<Interval>, hits: seq<nat>, end: nat): (r: seq<nat>)
    requires forall i :: 0 <= i < |hits| ==> hits[i] < |ivs|
    ensures forall i :: 0 <= i < |r| ==> r[i] in hits && r[i] < |ivs|
  {
    if |hits| == 0 then []
    else
      var k := hits[0];
      (if end < ivs[k].stop then [k, k] else [k]) + StartAdditions(ivs, hits[1..], end)
  }

  /** Some hit of the start query extends past the fragment end, so the end query is not made. */
  predicate EndCovered(ivs: seq<Interval>, hits: seq<nat>, end: nat)
    requires forall i :: 0 <= i < |hits| ==> hits[i] < |ivs|
  {
    exists i :: 0 <= i < |hits| && end < ivs[hits[i]].stop
  }

  /**
   * The counting rule with plain point queries (the cursor-free version the
   * earlier `find_overlaps` engine uses): the additions for the start hits,
   * then, unless one of them covered the fragment end, one addition for each
   * interval containing the end.
   */
  function FragmentAdditions(ivs: seq<Interval>, start: nat, end: nat): (r: seq<nat>)
    ensures forall i :: 0 <= i < |r| ==> r[i] < |ivs|
  {
    var hits := PointHits(ivs, start);
    StartAdditions(ivs, hits, end)
      + (if EndCovered(ivs, hits, end) then [] else PointHits(ivs, end))
  }

  /** The additions the cursor-based engine makes, and where it leaves the cursor. */
  function SeekAdditions(ivs: seq<Interval>, start: nat, end: nat, cursor: nat): (r: Seeked)
    requires cursor <= |ivs|
    ensures r.cursor <= |ivs|
    ensures forall i :: 0 <= i < |r.hits| ==> r.hits[i] < |ivs|
    ensures PastEnd(ivs, cursor) ==> r == Seeked([], cursor)
  {
    var first := Seek(ivs, start, cursor);
    var adds := StartAdditions(ivs, first.hits, end);
    if EndCovered(ivs, first.hits, end) then Seeked(adds, first.cursor)
    else
      var second := Seek(ivs, end, first.cursor);
      Seeked(adds + second.hits, second.cursor)
  }

  /**
   * On a sorted list, for a fragment with start <= end whose start is not
   * behind the cursor, the cursor-based engine adds exactly what the plain
   * point queries add, and leaves the cursor behind the fragment end.
   */
  lemma SeekAdditionsArePointQueries(ivs: seq<Interval>, start: nat, end: nat, cursor: nat)
    requires SortedIntervals(ivs) && Behind(ivs, cursor, start) && start <= end
    ensures SeekAdditions(ivs, start, end, cursor).hits == FragmentAdditions(ivs, start, end)
    ensures Behind(ivs, SeekAdditions(ivs, start, end, cursor).cursor, end)
  {
    SeekIsPointQuery(ivs, start, cursor);
    var first := Seek(ivs, start, cursor);
    BehindLater(ivs, first.cursor, start, end);
    SeekIsPointQuery(ivs, end, first.cursor);
  }

  /** Adding one more start hit to the list adds its one or two additions at the end. */
  lemma {:induction false} StartAdditionsSnoc(ivs: seq<Interval>, hits: seq<nat>, k: nat, end: nat)
    requires forall i :: 0 <= i < |hits| ==> hits[i] < |ivs|
    requires k < |ivs|
    ensures StartAdditions(ivs, hits + [k], end)
            == StartAdditions(ivs, hits, end) + (if end < ivs[k].stop then [k, k] else [k])
    decreases |hits|
  {
    if |hits| == 0 {
      assert hits + [k] == [k];
      assert [k][1..] == [];
    } else {
      assert (hits + [k])[1..] == hits[1..] + [k];
      StartAdditionsSnoc(ivs, hits[1..], k, end);
    }
  }

  /** The additions for two lists of start hits, one after the other. */
  lemma {:induction false} StartAdditionsAppend(ivs: seq<Interval>, a: seq<nat>, b: seq<nat>, end: nat)
    requires forall i :: 0 <= i < |a| ==> a[i] < |ivs|
    requires forall i :: 0 <= i < |b| ==> b[i] < |ivs|
    ensures forall i :: 0 <= i < |a + b| ==> (a + b)[i] < |ivs|
    ensures StartAdditions(ivs, a + b, end) == StartAdditions(ivs, a, end) + StartAdditions(ivs, b, end)
    decreases |a|
  {
    assert forall i :: 0 <= i < |a + b| ==> (a + b)[i] < |ivs| by {
      forall i | 0 <= i < |a + b| ensures (a + b)[i] < |ivs| {
        if i >= |a| { assert (a + b)[i] == b[i - |a|]; }
      }
    }
    if |a| == 0 {
      assert a + b == b;
    } else {
      assert (a + b)[1..] == a[1..] + b;
      StartAdditionsAppend(ivs, a[1..], b, end);
    }
  }

  /** A start hit covers the fragment end exactly when some hit so far, or the new one, does. */
  lemma EndCoveredSnoc(ivs: seq<Interval>, hits: seq<nat>, k: nat, end: nat)
    requires forall i :: 0 <= i < |hits| ==> hits[i] < |ivs|
    requires k < |ivs|
    ensures EndCovered(ivs, hits + [k], end) <==> EndCovered(ivs, hits, end) || end < ivs[k].stop
  {
    var h := hits + [k];
    if EndCovered(ivs, hits, end) {
      var i :| 0 <= i < |hits| && end < ivs[hits[i]].stop;
      assert h[i] == hits[i];
    }
    if end < ivs[k].stop {
      assert h[|hits|] == k;
    }
    if EndCovered(ivs, h, end) {
      var i :| 0 <= i < |h| && end < ivs[h[i]].stop;
      if i < |hits| {
        assert h[i] == hits[i];
      }
    }
  }

  // ---------------------------------------------------------------------------
  // `Lapper::new`: the intervals sorted by start, then by stop

  /** `Interval`'s order: by start, and by stop between equal starts. */
  predicate NotAfter(a: Interval, b: Interval) {
    a.start < b.start || (a.start == b.start && a.stop <= b.stop)
  }

  predicate SortedIntervals(ivs: seq<Interval>) {
    forall i, j :: 0 <= i < j < |ivs| ==> NotAfter(ivs[i], ivs[j])
  }

  /** Inserts iv into a sorted list after every interval not after it, so equal intervals keep their order. */
  function Insert(ivs: seq<Interval>, iv: Interval): (r: seq<Interval>)
    requires SortedIntervals(ivs)
    ensures SortedIntervals(r)
    ensures multiset(r) == multiset(ivs) + multiset{iv}
  {
    if |ivs| == 0 || NotAfter(ivs[|ivs| - 1], iv) then ivs + [iv]
    else
      var init, last := ivs[..|ivs| - 1], ivs[|ivs| - 1];
      assert ivs == init + [last];
      var r := Insert(init, iv);
      InsertBeforeLast(ivs, iv, r);
      assert multiset(r + [last]) == multiset(r) + multiset{last};
      r + [last]
  }

  /** Every interval of an insertion into all but the last is not after the last. */
  lemma InsertBeforeLast(ivs: seq<Interval>, iv: Interval, r: seq<Interval>)
    requires SortedIntervals(ivs) && |ivs| > 0 && !NotAfter(ivs[|ivs| - 1], iv)
    requires SortedIntervals(r) && multiset(r) == multiset(ivs[..|ivs| - 1]) + multiset{iv}
    ensures SortedIntervals(r + [ivs[|ivs| - 1]])
  {
    var init, last := ivs[..|ivs| - 1], ivs[|ivs| - 1];
    forall x | x in r ensures NotAfter(x, last) {
      assert x in multiset(r);
      if x != iv {
        assert x in multiset(init);
        var k :| 0 <= k < |init| && init[k] == x;
        assert ivs[k] == x;
      }
    }
  }

  /**
   * The interval list `Lapper::new` keeps: the same intervals, each as often,
   * sorted by start and then by stop; a stable sort, as `slice::sort` is.
   */
  function LapperSort(ivs: seq<Interval>): (r: seq<Interval>)
    ensures SortedIntervals(r)
    ensures multiset(r) == multiset(ivs)
    ensures |r| == |ivs|
  {
    if |ivs| == 0 then []
    else
      assert ivs == ivs[..|ivs| - 1] + [ivs[|ivs| - 1]];
      var r := Insert(LapperSort(ivs[..|ivs| - 1]), ivs[|ivs| - 1]);
      assert |multiset(r)| == |multiset(ivs)|;
      r
  }

  /** `Lapper::new` on the list of every chromosome. */
  function Lappers(trees: map<string, seq<Interval>>): (r: map<string, seq<Interval>>)
    ensures r.Keys == trees.Keys
    ensures forall c :: c in trees ==> r[c] == LapperSort(trees[c])
  {
    map c | c in trees :: LapperSort(trees[c])
  }

  /** A single interval is already sorted. */
  lemma LapperSortSingle(iv: Interval)
    ensures LapperSort([iv]) == [iv]
  {
    assert [iv][..0] == [];
  }

  /** An interval is in the sorted list exactly when it is in the original one. */
  lemma LapperSortMembers(ivs: seq<Interval>, iv: Interval)
    ensures iv in LapperSort(ivs) <==> iv in ivs
  {
    assert iv in multiset(LapperSort(ivs)) <==> iv in multiset(ivs);
  }

  /** Every interval holds at least one position. */
  predicate NonEmpty(ivs: seq<Interval>) {
    forall k :: 0 <= k < |ivs| ==> ivs[k].start < ivs[k].stop
  }

  /** Sorted, non-empty intervals that share no position follow one another. */
  lemma SortedOrdered(ivs: seq<Interval>)
    requires SortedIntervals(ivs) && NonOverlapping(ivs) && NonEmpty(ivs)
    ensures Ordered(ivs)
  {
    forall i, j | 0 <= i < j < |ivs| ensures ivs[i].stop <= ivs[j].start {
      assert NotAfter(ivs[i], ivs[j]) && Disjoint(ivs[i], ivs[j]);
    }
  }

  /**
   * An empty interval sorted inside a longer one can hold the cursor while
   * the longer one still contains the next query: the seek then misses it.
   */
  lemma EmptyIntervalHidesHit()
    ensures var ivs := [Interval(0, 10, 0), Interval(5, 5, 1)];
      && SortedIntervals(ivs) && NonOverlapping(ivs) && !PastEnd(ivs, 1)
      && PointHits(ivs, 7) == [0]
      && Seek(ivs, 7, 1).hits == []
  {
    var ivs := [Interval(0, 10, 0), Interval(5, 5, 1)];
    assert Seek(ivs, 7, 1).cursor == 1;
    assert FindFrom(ivs, 7, 8, 2) == [];
    assert OverlapsFrom(ivs, 7, 8, 2) == [];
    assert OverlapsFrom(ivs, 7, 8, 1) == [];
  }

  /**
   * The cursor can pass the last interval and stay there. Over the sorted,
   * disjoint intervals [10, 20) and [30, 40), the fragment (15, 100) ends
   * past both, so its end query restarts the search at the lower bound of
   * 100 - 10 and leaves the cursor past the end; the next fragment (35, 36)
   * then adds nothing, though both its ends lie in [30, 40).
   */
  lemma StuckCursor(ivs: seq<Interval>)
    requires ivs == [Interval(10, 20, 0), Interval(30, 40, 1)]
    ensures SortedIntervals(ivs) && Ordered(ivs) && NonEmpty(ivs)
    ensures SeekAdditions(ivs, 15, 100, 0) == Seeked([0], 2)
    ensures SeekAdditions(ivs, 35, 36, 2) == Seeked([], 2)
    ensures FragmentAdditions(ivs, 35, 36) == [1, 1]
  {
    TwoIntervalSeeks(ivs);
    var first := Seek(ivs, 15, 0);
    assert StartAdditions(ivs, first.hits, 100) == [0];
    assert !EndCovered(ivs, first.hits, 100);
    assert SeekAdditions(ivs, 15, 100, 0) == Seeked([0], 2);
    TwoIntervalQueries(ivs);
    var hits := PointHits(ivs, 35);
    assert StartAdditions(ivs, hits, 36) == [1, 1];
    assert EndCovered(ivs, hits, 36);
  }

  /** The two seeks of the fragment (15, 100) over [10, 20) and [30, 40). */
  lemma TwoIntervalSeeks(ivs: seq<Interval>)
    requires ivs == [Interval(10, 20, 0), Interval(30, 40, 1)]
    ensures Seek(ivs, 15, 0) == Seeked([0], 0)
    ensures Seek(ivs, 100, 0) == Seeked([], 2)
  {
    assert MaxLen(ivs[1..]) == 10;
    assert MaxLen(ivs) == 10;
    assert LowerBound(ivs, 5, 0) == 0;
    assert Advance(ivs, 5, 0) == 0;
    assert FindFrom(ivs, 15, 16, 1) == [];
    assert LowerBound(ivs, 90, 1) == 2;
    assert LowerBound(ivs, 90, 0) == 2;
  }

  /** The point query at 35 over [10, 20) and [30, 40). */
  lemma TwoIntervalQueries(ivs: seq<Interval>)
    requires ivs == [Interval(10, 20, 0), Interval(30, 40, 1)]
    ensures PointHits(ivs, 35) == [1]
  {
    assert OverlapsFrom(ivs, 35, 36, 2) == [];
    assert OverlapsFrom(ivs, 35, 36, 1) == [1];
  }

  /**
   * Why src/f2m.rs resets the cursor of a one-interval chromosome: a query
   * past [10, 20) moves the cursor past it, and from there a later query
   * inside it finds nothing, while a reset cursor finds it.
   */
  lemma OneIntervalStuck()
    ensures var ivs := [Interval(10, 20, 0)];
      && Seek(ivs, 100, 0).cursor == 1
      && Seek(ivs, 15, 1).hits == []
      && Seek(ivs, 15, 0).hits == [0]
  {
    var ivs := [Interval(10, 20, 0)];
    assert MaxLen(ivs) == 10;
    assert LowerBound(ivs, 90, 0) == 1;
    assert LowerBound(ivs, 5, 0) == 0;
  }

  // ---------------------------------------------------------------------------
  // Sorted, disjoint features

  /** Every interval ends at or before the next one starts: a sorted file of disjoint regions. */
  ghost predicate Ordered(ivs: seq<Interval>) {
    forall i, j :: 0 <= i < j < |ivs| ==> ivs[i].stop <= ivs[j].start
  }

  /**
   * Over sorted, disjoint intervals a seek from any cursor short of the end
   * is the plain point query, in whatever order the queries come: an
   * interval before the cursor ends at or before the cursor's interval
   * starts, and the search restarts when that start lies after the query.
   * From a cursor past the end it finds nothing.
   */
  lemma SeekOrdered(ivs: seq<Interval>, q: nat, cursor: nat)
    requires SortedIntervals(ivs) && Ordered(ivs) && cursor <= |ivs|
    ensures !PastEnd(ivs, cursor) ==> Seek(ivs, q, cursor).hits == PointHits(ivs, q)
    ensures PastEnd(ivs, cursor) ==> Seek(ivs, q, cursor).hits == []
  {
    if cursor == 0 || (cursor < |ivs| && ivs[cursor].start > q) {
      SeekIsPointQuery(ivs, q, 0);
      assert Seek(ivs, q, cursor) == Seek(ivs, q, 0);
    } else if cursor < |ivs| {
      assert Behind(ivs, cursor, q);
      SeekIsPointQuery(ivs, q, cursor);
    }
  }

  /**
   * Over sorted, disjoint intervals, from a cursor short of the end, the
   * cursor-based engine adds exactly what the plain point queries add for a
   * fragment with start <= end, whatever fragments came before. It leaves
   * the cursor past the end only when every interval ends by the fragment's
   * end; from a cursor past the end it adds nothing.
   */
  lemma SeekAdditionsOrdered(ivs: seq<Interval>, start: nat, end: nat, cursor: nat)
    requires SortedIntervals(ivs) && Ordered(ivs) && cursor <= |ivs|
    ensures !PastEnd(ivs, cursor) && start <= end ==>
              SeekAdditions(ivs, start, end, cursor).hits == FragmentAdditions(ivs, start, end)
    ensures !PastEnd(ivs, cursor) && start <= end && PastEnd(ivs, SeekAdditions(ivs, start, end, cursor).cursor) ==>
              forall k :: 0 <= k < |ivs| ==> ivs[k].stop <= end
    ensures PastEnd(ivs, cursor) ==> SeekAdditions(ivs, start, end, cursor).hits == []
  {
    if !PastEnd(ivs, cursor) && start <= end {
      if PastEnd(ivs, SeekAdditions(ivs, start, end, cursor).cursor) {
        SeekAdditionsReachesEnd(ivs, start, end, cursor);
      }
      SeekOrdered(ivs, start, cursor);
      var first := Seek(ivs, start, cursor);
      if PastEnd(ivs, first.cursor) {
        SeekReachesEnd(ivs, start, cursor);
        assert Behind(ivs, first.cursor, end);
        SeekIsPointQuery(ivs, end, first.cursor);
      } else {
        SeekOrdered(ivs, end, first.cursor);
      }
    }
  }

  /**
   * A fragment with start <= end leaves a cursor that was short of the end
   * past it only when every interval ends by the fragment's end.
   */
  lemma SeekAdditionsReachesEnd(ivs: seq<Interval>, start: nat, end: nat, cursor: nat)
    requires cursor <= |ivs| && !PastEnd(ivs, cursor) && start <= end
    requires PastEnd(ivs, SeekAdditions(ivs, start, end, cursor).cursor)
    ensures forall k :: 0 <= k < |ivs| ==> ivs[k].stop <= end
  {
    var first := Seek(ivs, start, cursor);
    if PastEnd(ivs, first.cursor) {
      SeekReachesEnd(ivs, start, cursor);
    } else {
      SeekReachesEnd(ivs, end, first.cursor);
    }
  }

  /**
   * The cursor engine with a cursor past the end reset to zero, as the
   * one-interval case of src/f2m.rs:205-207 does for that case only.
   */
  function ResetAdditions(ivs: seq<Interval>, start: nat, end: nat, cursor: nat): (r: Seeked)
    requires cursor <= |ivs|
    ensures r.cursor <= |ivs|
  {
    SeekAdditions(ivs, start, end, if PastEnd(ivs, cursor) then 0 else cursor)
  }

  /**
   * With that reset, over sorted, disjoint intervals, the cursor engine adds
   * what the plain point queries add for every fragment with start <= end,
   * from every cursor.
   */
  lemma ResetAdditionsExact(ivs: seq<Interval>, start: nat, end: nat, cursor: nat)
    requires SortedIntervals(ivs) && Ordered(ivs) && cursor <= |ivs| && start <= end
    ensures ResetAdditions(ivs, start, end, cursor).hits == FragmentAdditions(ivs, start, end)
  {
    SeekAdditionsOrdered(ivs, start, end, if PastEnd(ivs, cursor) then 0 else cursor);
  }

  /** Sorted, disjoint intervals are non-overlapping. */
  lemma OrderedNonOverlapping(ivs: seq<Interval>)
    requires Ordered(ivs)
    ensures NonOverlapping(ivs)
  {
  }

  // ---------------------------------------------------------------------------
  // Non-overlapping features

  /** No position lies in two intervals: the documented assumption on the region file. */
  ghost predicate NonOverlapping(ivs: seq<Interval>) {
    forall i, j :: 0 <= i < j < |ivs| ==> Disjoint(ivs[i], ivs[j])
  }

  /** Two intervals share no position (an empty interval shares none with anything). */
  predicate Disjoint(a: Interval, b: Interval) {
    a.stop <= b.start || b.stop <= a.start || a.start >= a.stop || b.start >= b.stop
  }

  lemma NoPointInTwo(ivs: seq<Interval>, i: nat, j: nat, q: nat)
    requires NonOverlapping(ivs) && i < j < |ivs|
    ensures !(Contains(ivs[i], q) && Contains(ivs[j], q))
  {
    assert Disjoint(ivs[i], ivs[j]);
  }

  /** Among non-overlapping intervals at most one contains a given point. */
  lemma AtMostOneHit(ivs: seq<Interval>, q: nat)
    requires NonOverlapping(ivs)
    ensures |PointHits(ivs, q)| <= 1
  {
    var h := PointHits(ivs, q);
    if |h| > 1 {
      NoPointInTwo(ivs, h[0], h[1], q);
      assert false;
    }
  }

  /**
   * The counting rule's purpose: for non-overlapping features and a fragment
   * with start <= end, the additions are exactly one per fragment endpoint
   * per feature containing it; a fragment inside one feature adds it twice.
   */
  lemma AdditionsAreEndpointHits(ivs: seq<Interval>, start: nat, end: nat)
    requires NonOverlapping(ivs) && start <= end
    ensures FragmentAdditions(ivs, start, end) == PointHits(ivs, start) + PointHits(ivs, end)
  {
    var hs := PointHits(ivs, start);
    AtMostOneHit(ivs, start);
    if |hs| == 1 {
      OneStartHit(ivs, start, end);
    } else {
      assert hs == [];
      assert !EndCovered(ivs, hs, end);
    }
  }

  /** A fragment whose start lies in one feature: added twice if its end lies there too, else once and once for the end. */
  lemma OneStartHit(ivs: seq<Interval>, start: nat, end: nat)
    requires NonOverlapping(ivs) && start <= end && |PointHits(ivs, start)| == 1
    ensures FragmentAdditions(ivs, start, end) == PointHits(ivs, start) + PointHits(ivs, end)
  {
    var hs := PointHits(ivs, start);
    var he := PointHits(ivs, end);
    var k := hs[0];
    assert StartAdditions(ivs, hs[1..], end) == [];
    if end < ivs[k].stop {
      assert EndCovered(ivs, hs, end);
      assert Contains(ivs[k], end);
      AtMostOneHit(ivs, end);
      assert k in he;
      assert he == [k];
    } else {
      assert !EndCovered(ivs, hs, end);
    }
  }

  /** How often position k occurs in a list of additions. */
  function Occurrences(k: nat, adds: seq<nat>): nat {
    if |adds| == 0 then 0 else (if adds[0] == k then 1 else 0) + Occurrences(k, adds[1..])
  }

  lemma {:induction false} OccurrencesAppend(k: nat, a: seq<nat>, b: seq<nat>)
    ensures Occurrences(k, a + b) == Occurrences(k, a) + Occurrences(k, b)
    decreases |a|
  {
    if |a| > 0 {
      assert (a + b)[1..] == a[1..] + b;
      assert (a + b)[0] == a[0];
      OccurrencesAppend(k, a[1..], b);
    } else {
      assert a + b == b;
    }
  }

  /** In a strictly increasing list every position occurs at most once. */
  lemma {:induction false} OccurrencesIncreasing(k: nat, r: seq<nat>)
    requires StrictlyIncreasing(r)
    ensures Occurrences(k, r) == if k in r then 1 else 0
  {
    if |r| > 0 {
      assert StrictlyIncreasing(r[1..]) by {
        forall i, j | 0 <= i < j < |r[1..]| ensures r[1..][i] < r[1..][j] {
          assert r[1..][i] == r[i + 1] && r[1..][j] == r[j + 1];
        }
      }
      OccurrencesIncreasing(k, r[1..]);
      if r[0] == k {
        assert k !in r[1..] by {
          forall i | 0 <= i < |r[1..]| ensures r[1..][i] != k {
            assert r[1..][i] == r[i + 1];
          }
        }
      } else {
        assert k in r <==> k in r[1..] by {
          assert r == [r[0]] + r[1..];
        }
      }
    }
  }

  /** Each position occurs in a point query at most once, and exactly when its interval contains the point. */
  lemma OccurrencesOfHits(ivs: seq<Interval>, q: nat, k: nat)
    ensures Occurrences(k, PointHits(ivs, q)) == if k < |ivs| && Contains(ivs[k], q) then 1 else 0
  {
    PointHitsExact(ivs, q);
    OccurrencesIncreasing(k, PointHits(ivs, q));
  }

  /** Number of the fragment's two endpoints that lie in the interval. */
  function Endpoints(iv: Interval, start: nat, end: nat): (n: nat)
    ensures n <= 2
  {
    (if Contains(iv, start) then 1 else 0) + (if Contains(iv, end) then 1 else 0)
  }

  /**
   * The exact-count rule: under non-overlapping features and start <= end,
   * every feature receives one addition per fragment endpoint it contains,
   * 0, 1 or 2, and nothing else is added.
   */
  lemma AdditionsCountEndpoints(ivs: seq<Interval>, start: nat, end: nat, k: nat)
    requires NonOverlapping(ivs) && start <= end && k < |ivs|
    ensures Occurrences(k, FragmentAdditions(ivs, start, end)) == Endpoints(ivs[k], start, end)
  {
    AdditionsAreEndpointHits(ivs, start, end);
    OccurrencesAppend(k, PointHits(ivs, start), PointHits(ivs, end));
    OccurrencesOfHits(ivs, start, k);
    OccurrencesOfHits(ivs, end, k);
  }

  /** The `(val, stop)` pair of each listed interval: what `find_overlaps` maps the query results to. */
  function ValStops(ivs: seq<Interval>, ks: seq<nat>): (r: seq<(nat, nat)>)
    requires forall i :: 0 <= i < |ks| ==> ks[i] < |ivs|
    ensures |r| == |ks|
    ensures forall i :: 0 <= i < |ks| ==> r[i] == (ivs[ks[i]].val, ivs[ks[i]].stop)
  {
    if |ks| == 0 then [] else [(ivs[ks[0]].val, ivs[ks[0]].stop)] + ValStops(ivs, ks[1..])
  }

  /**
   * `find_overlaps` of the earlier engine: `None` for a chromosome without an
   * index, otherwise the `(val, stop)` pairs of the intervals overlapping
   * [s, e), in index order.
   */
  function FindOverlaps(index: map<string, seq<Interval>>, chrom: string, s: nat, e: nat): (r: Option<seq<(nat, nat)>>)
    ensures r.None? <==> chrom !in index
  {
    if chrom !in index then None
    else Some(ValStops(index[chrom], OverlapsFrom(index[chrom], s, e, 0)))
  }

  /** A pair is reported exactly when some interval of the chromosome overlaps [s, e) and carries it. */
  lemma FindOverlapsExact(index: map<string, seq<Interval>>, chrom: string, s: nat, e: nat, p: (nat, nat))
    requires chrom in index
    ensures p in FindOverlaps(index, chrom, s, e).value <==>
              exists k :: 0 <= k < |index[chrom]| && Overlaps(index[chrom][k], s, e)
                          && p == (index[chrom][k].val, index[chrom][k].stop)
  {
    var ivs := index[chrom];
    var ks := OverlapsFrom(ivs, s, e, 0);
    var r := FindOverlaps(index, chrom, s, e).value;
    assert r == ValStops(ivs, ks);
    if p in r {
      var i :| 0 <= i < |r| && r[i] == p;
      var k := ks[i];
      assert 0 <= k < |ivs| && Overlaps(ivs[k], s, e) && p == (ivs[k].val, ivs[k].stop);
    }
    if exists k :: 0 <= k < |ivs| && Overlaps(ivs[k], s, e) && p == (ivs[k].val, ivs[k].stop) {
      var k :| 0 <= k < |ivs| && Overlaps(ivs[k], s, e) && p == (ivs[k].val, ivs[k].stop);
      ReportedPair(ivs, s, e, k);
    }
  }

  /** An interval overlapping the query has its pair among the results. */
  lemma ReportedPair(ivs: seq<Interval>, s: nat, e: nat, k: nat)
    requires k < |ivs| && Overlaps(ivs[k], s, e)
    ensures (ivs[k].val, ivs[k].stop) in ValStops(ivs, OverlapsFrom(ivs, s, e, 0))
  {
    var ks := OverlapsFrom(ivs, s, e, 0);
    assert k in ks;
    var i :| 0 <= i < |ks| && ks[i] == k;
    assert ValStops(ivs, ks)[i] == (ivs[k].val, ivs[k].stop);
  }
}
