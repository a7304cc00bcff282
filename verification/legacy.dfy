/**
 * The earlier matrix engine (src/bin/f2m.rs): grouping is a switch on the
 * fourth column, an interval's value is directly its row (the group number,
 * or else the 0-based line number of the region), counts are integers, and
 * the overlaps at the fragment's ends are found with plain queries
 * (`find_overlaps`) rather than the cursor.
 */
module Legacy {
  import opened Wrappers
  import opened Text
  import opened Intervals
  import FeatureIndex

  // ---------------------------------------------------------------------------
  // `peak_intervals`

  /** How one line of the region file is read. */
  datatype LegacyRegion =
    | Skipped                                               // a comment, fewer than 3 fields, or a bad coordinate
    | Peak(chrom: string, start: nat, end: nat, key: Option<string>)

  /** Coordinates are parsed without trimming; the key is the fourth column when grouping and present. */
  function ReadLegacyRegion(group: bool, line: string): LegacyRegion {
    if StartsWith(line, '#') then Skipped
    else
      var fields := Split(line, '\t');
      if |fields| < 3 then Skipped
      else
        var start := ParseU32(fields[1]);
        var end := ParseU32(fields[2]);
        if start.None? || end.None? then Skipped
        else Peak(fields[0], start.value, end.value, if group && |fields| >= 4 then Some(fields[3]) else None)
  }

  /** The tables the loop fills: intervals per chromosome, group numbers, feature labels and the two counters. */
  datatype Tables = Tables(trees: map<string, seq<Interval>>, groups: map<string, nat>, labels: seq<string>,
                           total: nat, current: nat)

  const NoTables := Tables(map[], map[], [], 0, 0)

  function Push(trees: map<string, seq<Interval>>, chrom: string, iv: Interval): map<string, seq<Interval>> {
    trees[chrom := FeatureIndex.IntervalsOf(trees, chrom) + [iv]]
  }

  /**
   * One pass of the loop for the 0-based line number `index`: a new group
   * key takes the next group number; a region without a key takes its line
   * number as its value.
   */
  function AddRegion(t: Tables, index: nat, line: LegacyRegion): Tables {
    match line
    case Skipped => t
    case Peak(chrom, start, end, key) =>
      match key
      case Some(k) =>
        if k in t.groups then
          t.(trees := Push(t.trees, chrom, Interval(start, end, t.groups[k])), total := t.total + 1)
        else
          t.(trees := Push(t.trees, chrom, Interval(start, end, t.current)), groups := t.groups[k := t.current],
             labels := t.labels + [k], current := t.current + 1, total := t.total + 1)
      case None =>
        t.(trees := Push(t.trees, chrom, Interval(start, end, index)),
           labels := t.labels + [FeatureIndex.Label(chrom, start, end)], total := t.total + 1)
  }

  function ReadAllRegions(group: bool, lines: seq<string>): (regions: seq<LegacyRegion>)
    ensures |regions| == |lines|
    ensures forall i :: 0 <= i < |lines| ==> regions[i] == ReadLegacyRegion(group, lines[i])
  {
    seq(|lines|, i requires 0 <= i < |lines| => ReadLegacyRegion(group, lines[i]))
  }

  /** The tables after the first n lines. */
  function Tabulate(regions: seq<LegacyRegion>, n: nat): Tables
    requires n <= |regions|
  {
    if n == 0 then NoTables else AddRegion(Tabulate(regions, n - 1), n - 1, regions[n - 1])
  }

  /** The row count handed to the counter: the number of groups when grouping, else the number of regions. */
  function RowCount(group: bool, t: Tables): nat {
    if group then t.current else t.total
  }

  /**
   * `peak_intervals`: the row count and the intervals of each chromosome,
   * each list sorted by `Lapper::new`.
   */
  method LegacyPeakIntervals(group: bool, lines: seq<string>) returns (nrows: nat, trees: map<string, seq<Interval>>)
    ensures var t := Tabulate(ReadAllRegions(group, lines), |lines|);
      nrows == RowCount(group, t) && trees == Lappers(t.trees)
  {
    ghost var regions := ReadAllRegions(group, lines);
    var t := NoTables;
    var index := 0;
    while index < |lines|
      invariant index <= |lines|
      invariant t == Tabulate(regions, index)
    {
      t := AddRegion(t, index, ReadLegacyRegion(group, lines[index]));
      index := index + 1;
    }
    return RowCount(group, t), Lappers(t.trees);
  }

  function CountPeaks(regions: seq<LegacyRegion>, n: nat): nat
    requires n <= |regions|
  {
    if n == 0 then 0 else CountPeaks(regions, n - 1) + (if regions[n - 1].Peak? then 1 else 0)
  }

  /** Every region is counted, whatever its key. */
  lemma {:induction false} TotalIsPeakCount(regions: seq<LegacyRegion>, n: nat)
    requires n <= |regions|
    ensures Tabulate(regions, n).total == CountPeaks(regions, n)
  {
    if n > 0 {
      TotalIsPeakCount(regions, n - 1);
    }
  }

  /** Group numbers are 0, 1, ... in order of first appearance, one per distinct key. */
  ghost predicate GroupsNumbered(t: Tables) {
    && |t.labels| == t.current
    && t.groups.Keys == (set r | 0 <= r < |t.labels| :: t.labels[r])
    && (forall r :: 0 <= r < |t.labels| ==> t.labels[r] in t.groups && t.groups[t.labels[r]] == r)
  }

  /**
   * With grouping and a fourth column on every region line, group numbers
   * are dense and first-seen, and every interval's value is a row below the
   * row count.
   */
  lemma {:induction false} GroupedRowsInRange(regions: seq<LegacyRegion>, n: nat)
    requires n <= |regions|
    requires forall i :: 0 <= i < n && regions[i].Peak? ==> regions[i].key.Some?
    ensures GroupsNumbered(Tabulate(regions, n))
    ensures FeatureIndex.ValsBelow(Tabulate(regions, n).trees, RowCount(true, Tabulate(regions, n)))
  {
    if n > 0 {
      GroupedRowsInRange(regions, n - 1);
      GroupedStep(Tabulate(regions, n - 1), n - 1, regions[n - 1]);
    }
  }

  /** One keyed region keeps the group numbering dense and every value below the group count. */
  lemma GroupedStep(t: Tables, index: nat, line: LegacyRegion)
    requires GroupsNumbered(t) && FeatureIndex.ValsBelow(t.trees, t.current)
    requires line.Peak? ==> line.key.Some?
    ensures GroupsNumbered(AddRegion(t, index, line))
    ensures FeatureIndex.ValsBelow(AddRegion(t, index, line).trees, AddRegion(t, index, line).current)
  {
    match line
    case Skipped =>
    case Peak(chrom, start, end, key) =>
      var k := key.value;
      if k in t.groups {
        FeatureIndex.ValsAfterPush(t.trees, chrom, Interval(start, end, t.groups[k]), t.current);
        assert t.groups[k] < t.current by {
          var r :| 0 <= r < |t.labels| && t.labels[r] == k;
        }
      } else {
        var u := AddRegion(t, index, line);
        FeatureIndex.ValsAfterPush(t.trees, chrom, Interval(start, end, t.current), t.current + 1);
        assert u.labels == t.labels + [k];
        assert forall r :: 0 <= r < |t.labels| ==> t.labels[r] != k;
        assert u.groups.Keys == (set r | 0 <= r < |u.labels| :: u.labels[r]) by {
          forall x ensures x in u.groups.Keys <==> x in (set r | 0 <= r < |u.labels| :: u.labels[r]) {
            if x in t.groups.Keys {
              var r :| 0 <= r < |t.labels| && t.labels[r] == x;
              assert u.labels[r] == x;
            }
            if x == k {
              assert u.labels[|t.labels|] == k;
            }
          }
        }
      }
  }

  /**
   * Without grouping and with every line a region, the value of the region
   * on line i is i, below the row count n.
   */
  lemma {:induction false} UngroupedRowsInRange(regions: seq<LegacyRegion>, n: nat)
    requires n <= |regions|
    requires forall i :: 0 <= i < n ==> regions[i].Peak? && regions[i].key.None?
    ensures Tabulate(regions, n).total == n
    ensures FeatureIndex.ValsBelow(Tabulate(regions, n).trees, RowCount(false, Tabulate(regions, n)))
  {
    if n > 0 {
      var line := regions[n - 1];
      assert line.Peak? && line.key.None?;
      UngroupedRowsInRange(regions, n - 1);
      UngroupedRowStep(Tabulate(regions, n - 1), n - 1, line);
    }
  }

  /** An ungrouped region on line i, after i regions, takes the value i. */
  lemma UngroupedRowStep(t: Tables, i: nat, line: LegacyRegion)
    requires line.Peak? && line.key.None?
    requires t.total == i && FeatureIndex.ValsBelow(t.trees, i)
    ensures AddRegion(t, i, line).total == i + 1
    ensures FeatureIndex.ValsBelow(AddRegion(t, i, line).trees, i + 1)
  {
    assert FeatureIndex.ValsBelow(t.trees, i + 1);
    FeatureIndex.ValsAfterPush(t.trees, line.chrom, Interval(line.start, line.end, i), i + 1);
  }

  /** A comment line before the only region gives it the value 1 while there is one row. */
  lemma CommentShiftsRows()
    ensures var t := Tabulate([Skipped, Peak("chr1", 0, 10, None)], 2);
      && RowCount(false, t) == 1
      && t.trees == map["chr1" := [Interval(0, 10, 1)]]
  {
    var none: map<string, seq<Interval>> := map[];
    assert Tabulate([Skipped, Peak("chr1", 0, 10, None)], 1) == NoTables;
    assert FeatureIndex.IntervalsOf(none, "chr1") == [];
    assert [] + [Interval(0, 10, 1)] == [Interval(0, 10, 1)];
  }

  // ---------------------------------------------------------------------------
  // The counting loop

  /** How one fragment line is read against the region and barcode tables. */
  datatype LegacyFragment =
    | HeaderLine                                    // starts with '#'
    | ShortLine                                     // fewer than 4 fields: `fields[3]` panics
    | Ignored                                       // unknown barcode, or a chromosome without regions
    | BadNumber                                     // unparsable coordinate: the run fails with an error
    | Fragment(chrom: string, start: nat, end: nat, col: nat)

  function ReadLegacyFragment(peaks: map<string, seq<Interval>>, cells: map<string, nat>, chunk: string): LegacyFragment
    requires |chunk| > 0
  {
    var line := chunk[..|chunk| - 1];
    if StartsWith(line, '#') then HeaderLine
    else
      var fields := Split(line, '\t');
      if |fields| < 4 then ShortLine
      else if fields[3] !in cells || fields[0] !in peaks then Ignored
      else
        var start := ParseU32(fields[1]);
        var end := ParseU32(fields[2]);
        if start.None? || end.None? then BadNumber
        else Fragment(fields[0], start.value, end.value, cells[fields[3]])
  }

  /** The state of the counting loop, or how it ended early. */
  datatype Outcome = Next(counts: seq<map<nat, nat>>) | Panic | Failed

  function GetCount(m: map<nat, nat>, col: nat): nat {
    if col in m then m[col] else 0
  }

  /** `*peak_cell_counts[row].entry(col).or_insert(0) += 1`. */
  function Incr(counts: seq<map<nat, nat>>, row: nat, col: nat): (r: seq<map<nat, nat>>)
    requires row < |counts|
    ensures |r| == |counts|
  {
    var m: map<nat, nat> := counts[row][col := GetCount(counts[row], col) + 1];
    counts[row := m]
  }

  /**
   * `*peak_cell_counts[row].entry(col).or_insert(0) += 1` for each listed
   * row in turn; a row past the end of the counts panics.
   */
  function Bump(counts: seq<map<nat, nat>>, col: nat, rows: seq<nat>): (r: Outcome)
    ensures r.Next? ==> |r.counts| == |counts|
    ensures !r.Failed?
  {
    if |rows| == 0 then Next(counts)
    else
      var prev := Bump(counts, col, rows[..|rows| - 1]);
      var row := rows[|rows| - 1];
      if prev.Panic? || row >= |prev.counts| then Panic else Next(Incr(prev.counts, row, col))
  }

  /** The row (interval value) of each listed interval position. */
  function Rows(ivs: seq<Interval>, ks: seq<nat>): (rows: seq<nat>)
    requires Positions(ivs, ks)
    ensures |rows| == |ks| && forall i :: 0 <= i < |ks| ==> rows[i] == ivs[ks[i]].val
  {
    seq(|ks|, i requires 0 <= i < |ks| => ivs[ks[i]].val)
  }

  predicate Positions(ivs: seq<Interval>, ks: seq<nat>) {
    forall i :: 0 <= i < |ks| ==> ks[i] < |ivs|
  }

  /** One pass of the loop body. */
  function Tick(peaks: map<string, seq<Interval>>, counts: seq<map<nat, nat>>, line: LegacyFragment): Outcome {
    match line
    case HeaderLine => Next(counts)
    case ShortLine => Panic
    case Ignored => Next(counts)
    case BadNumber => Failed
    case Fragment(chrom, start, end, col) =>
      if chrom !in peaks then Next(counts)
      else
        var ivs := peaks[chrom];
        Bump(counts, col, Rows(ivs, FragmentAdditions(ivs, start, end)))
  }

  lemma RowsAppend(ivs: seq<Interval>, a: seq<nat>, b: seq<nat>)
    requires Positions(ivs, a) && Positions(ivs, b)
    ensures Positions(ivs, a + b) && Rows(ivs, a + b) == Rows(ivs, a) + Rows(ivs, b)
  {
    assert Positions(ivs, a + b) by {
      forall i | 0 <= i < |a + b| ensures (a + b)[i] < |ivs| {
        if i >= |a| { assert (a + b)[i] == b[i - |a|]; }
      }
    }
  }

  /** A panic stays a panic whatever is added after it; otherwise the additions go on from where they stopped. */
  lemma {:induction false} BumpAppend(counts: seq<map<nat, nat>>, col: nat, a: seq<nat>, b: seq<nat>)
    ensures Bump(counts, col, a + b) == match Bump(counts, col, a) case Next(c) => Bump(c, col, b) case other => other
  {
    if |b| == 0 {
      assert a + b == a;
    } else {
      BumpAppend(counts, col, a, b[..|b| - 1]);
      assert (a + b)[..|a + b| - 1] == a + b[..|b| - 1];
    }
  }

  /** `find_overlaps` on a chromosome the table holds: the (value, stop) pair of each point hit. */
  lemma FindOverlapsPoint(peaks: map<string, seq<Interval>>, chrom: string, q: nat)
    requires chrom in peaks
    ensures FindOverlaps(peaks, chrom, q, q + 1) == Some(ValStops(peaks[chrom], PointHits(peaks[chrom], q)))
  {
  }

  /**
   * The loop over the start hits: each adds one to its row, and one more
   * when the fragment ends inside it, which also rules out the end query.
   */
  method BumpStartHits(ivs: seq<Interval>, counts: seq<map<nat, nat>>, col: nat, hits: seq<nat>, end: nat)
    returns (r: Outcome, checkEnd: bool)
    requires Positions(ivs, hits)
    ensures Positions(ivs, StartAdditions(ivs, hits, end))
    ensures r == Bump(counts, col, Rows(ivs, StartAdditions(ivs, hits, end)))
    ensures r.Next? ==> checkEnd == !EndCovered(ivs, hits, end)
  {
    var pairs := ValStops(ivs, hits);
    var c := counts;
    checkEnd := true;
    var i := 0;
    while i < |pairs|
      invariant i <= |pairs| == |hits|
      invariant StartState(ivs, counts, col, hits, end, i, c, checkEnd)
    {
      var (row, stop) := pairs[i];
      var panics;
      panics, c, checkEnd := BumpStartHit(ivs, counts, col, hits, end, i, c, checkEnd, row, stop);
      if panics {
        StartPanic(ivs, counts, col, hits, i, end);
        return Panic, checkEnd;
      }
      i := i + 1;
    }
    StartDone(ivs, counts, col, hits, end, c, checkEnd);
    return Next(c), checkEnd;
  }

  /** After every start hit, the state is that of all of them. */
  lemma StartDone(ivs: seq<Interval>, counts: seq<map<nat, nat>>, col: nat, hits: seq<nat>, end: nat,
                  c: seq<map<nat, nat>>, checkEnd: bool)
    requires Positions(ivs, hits) && StartState(ivs, counts, col, hits, end, |hits|, c, checkEnd)
    ensures Bump(counts, col, Rows(ivs, StartAdditions(ivs, hits, end))) == Next(c)
    ensures checkEnd == !EndCovered(ivs, hits, end)
  {
    assert hits[..|hits|] == hits;
  }

  /** The counts and the end-query flag after the first i start hits. */
  predicate StartState(ivs: seq<Interval>, counts: seq<map<nat, nat>>, col: nat, hits: seq<nat>, end: nat, i: nat,
                       c: seq<map<nat, nat>>, checkEnd: bool)
    requires Positions(ivs, hits) && i <= |hits|
  {
    && Bump(counts, col, Rows(ivs, StartAdditions(ivs, hits[..i], end))) == Next(c)
    && checkEnd == !EndCovered(ivs, hits[..i], end)
  }

  /** One pass of the loop over the start hits. */
  method BumpStartHit(ivs: seq<Interval>, counts: seq<map<nat, nat>>, col: nat, hits: seq<nat>, end: nat, i: nat,
                      c: seq<map<nat, nat>>, checkEnd: bool, row: nat, stop: nat)
    returns (panics: bool, c': seq<map<nat, nat>>, checkEnd': bool)
    requires Positions(ivs, hits) && i < |hits| && (row, stop) == (ivs[hits[i]].val, ivs[hits[i]].stop)
    requires StartState(ivs, counts, col, hits, end, i, c, checkEnd)
    ensures panics ==> Bump(counts, col, Rows(ivs, StartAdditions(ivs, hits[..i + 1], end))).Panic?
    ensures !panics ==> StartState(ivs, counts, col, hits, end, i + 1, c', checkEnd')
  {
    var k := hits[i];
    assert hits[..i + 1] == hits[..i] + [k];
    StartAdditionsSnoc(ivs, hits[..i], k, end);
    EndCoveredSnoc(ivs, hits[..i], k, end);
    var twice := end < stop;
    BumpHit(ivs, counts, col, StartAdditions(ivs, hits[..i], end), k, twice, c);
    if row >= |c| {
      return true, c, checkEnd;
    }
    c' := Incr(c, row, col);
    checkEnd' := checkEnd;
    if twice {
      checkEnd' := false;
      c' := Incr(c', row, col);
    }
    panics := false;
  }

  /** One start hit: its row once, or twice, after the additions so far. */
  lemma BumpHit(ivs: seq<Interval>, counts: seq<map<nat, nat>>, col: nat, adds: seq<nat>, k: nat, twice: bool,
                c: seq<map<nat, nat>>)
    requires Positions(ivs, adds) && k < |ivs|
    requires Bump(counts, col, Rows(ivs, adds)) == Next(c)
    ensures var extra := if twice then [k, k] else [k]; var row := ivs[k].val;
      && Positions(ivs, adds + extra)
      && Bump(counts, col, Rows(ivs, adds + extra))
         == if row >= |c| then Panic
            else if twice then Next(Incr(Incr(c, row, col), row, col))
            else Next(Incr(c, row, col))
  {
    var extra := if twice then [k, k] else [k];
    var row := ivs[k].val;
    RowsAppend(ivs, adds, extra);
    BumpAppend(counts, col, Rows(ivs, adds), Rows(ivs, extra));
    assert [row][..0] == [];
    assert Bump(c, col, [row]) == if row >= |c| then Panic else Next(Incr(c, row, col));
    if twice {
      assert Rows(ivs, extra) == [row, row];
      assert [row, row][..1] == [row];
      assert Bump(c, col, [row, row]) == if row >= |c| then Panic else Next(Incr(Incr(c, row, col), row, col));
    } else {
      assert Rows(ivs, extra) == [row];
    }
  }

  /** A start hit whose row is past the end makes the whole fragment panic. */
  lemma StartPanic(ivs: seq<Interval>, counts: seq<map<nat, nat>>, col: nat, hits: seq<nat>, i: nat, end: nat)
    requires Positions(ivs, hits) && i < |hits|
    requires Positions(ivs, StartAdditions(ivs, hits[..i + 1], end))
    requires Bump(counts, col, Rows(ivs, StartAdditions(ivs, hits[..i + 1], end))).Panic?
    ensures Positions(ivs, StartAdditions(ivs, hits, end))
    ensures Bump(counts, col, Rows(ivs, StartAdditions(ivs, hits, end))).Panic?
  {
    StartAdditionsAppend(ivs, hits[..i + 1], hits[i + 1..], end);
    assert hits[..i + 1] + hits[i + 1..] == hits;
    var rest := StartAdditions(ivs, hits[i + 1..], end);
    RowsAppend(ivs, StartAdditions(ivs, hits[..i + 1], end), rest);
    PanicSticky(counts, col, Rows(ivs, StartAdditions(ivs, hits[..i + 1], end)), Rows(ivs, rest));
  }

  /** A panic on some additions is a panic on them and any that follow. */
  lemma PanicSticky(counts: seq<map<nat, nat>>, col: nat, prefix: seq<nat>, rest: seq<nat>)
    requires Bump(counts, col, prefix).Panic?
    ensures Bump(counts, col, prefix + rest).Panic?
  {
    BumpAppend(counts, col, prefix, rest);
  }

  /** The loop over the hits at the fragment's end: each adds one to its row. */
  method BumpHits(ivs: seq<Interval>, counts: seq<map<nat, nat>>, col: nat, hits: seq<nat>) returns (r: Outcome)
    requires Positions(ivs, hits)
    ensures r == Bump(counts, col, Rows(ivs, hits))
  {
    var pairs := ValStops(ivs, hits);
    var c := counts;
    var j := 0;
    while j < |pairs|
      invariant j <= |pairs|
      invariant Bump(counts, col, Rows(ivs, hits[..j])) == Next(c)
    {
      var row := pairs[j].0;
      EndHit(ivs, counts, col, hits, j, c);
      if row >= |c| {
        PrefixPanic(ivs, counts, col, hits, j + 1);
        return Panic;
      }
      c := Incr(c, row, col);
      j := j + 1;
    }
    assert hits[..j] == hits;
    return Next(c);
  }

  /** A panic on the first j hits is a panic on all of them. */
  lemma PrefixPanic(ivs: seq<Interval>, counts: seq<map<nat, nat>>, col: nat, hits: seq<nat>, j: nat)
    requires Positions(ivs, hits) && j <= |hits|
    requires Bump(counts, col, Rows(ivs, hits[..j])).Panic?
    ensures Bump(counts, col, Rows(ivs, hits)) == Panic
  {
    assert hits == hits[..j] + hits[j..];
    PositionsSplit(ivs, hits, j);
    RowsAppend(ivs, hits[..j], hits[j..]);
    PanicSticky(counts, col, Rows(ivs, hits[..j]), Rows(ivs, hits[j..]));
  }

  lemma PositionsSplit(ivs: seq<Interval>, ks: seq<nat>, j: nat)
    requires Positions(ivs, ks) && j <= |ks|
    ensures Positions(ivs, ks[..j]) && Positions(ivs, ks[j..])
  {
    assert forall i :: 0 <= i < |ks| - j ==> ks[j..][i] == ks[j + i];
  }

  /** One end hit after the ones before it. */
  lemma EndHit(ivs: seq<Interval>, counts: seq<map<nat, nat>>, col: nat, hits: seq<nat>, j: nat, c: seq<map<nat, nat>>)
    requires Positions(ivs, hits) && j < |hits|
    requires Bump(counts, col, Rows(ivs, hits[..j])) == Next(c)
    ensures var row := ivs[hits[j]].val;
      Bump(counts, col, Rows(ivs, hits[..j + 1])) == if row >= |c| then Panic else Next(Incr(c, row, col))
  {
    var row := ivs[hits[j]].val;
    assert hits[..j + 1] == hits[..j] + [hits[j]];
    RowsAppend(ivs, hits[..j], [hits[j]]);
    assert Rows(ivs, [hits[j]]) == [row];
    BumpAppend(counts, col, Rows(ivs, hits[..j]), [row]);
    assert [row][..0] == [];
  }

  /** The two queries of one fragment on a chromosome the table holds. */
  method CountLegacyHits(peaks: map<string, seq<Interval>>, counts: seq<map<nat, nat>>, chrom: string,
                         start: nat, end: nat, col: nat) returns (r: Outcome)
    requires chrom in peaks
    ensures r == Bump(counts, col, Rows(peaks[chrom], FragmentAdditions(peaks[chrom], start, end)))
  {
    ghost var ivs := peaks[chrom];
    ghost var hs := PointHits(ivs, start);
    FindOverlapsPoint(peaks, chrom, start);
    var first, checkEnd := BumpStartHits(peaks[chrom], counts, col, PointHits(peaks[chrom], start), end);
    ghost var adds := StartAdditions(ivs, hs, end);
    if first.Panic? {
      ghost var more: seq<nat> := if EndCovered(ivs, hs, end) then [] else PointHits(ivs, end);
      RowsAppend(ivs, adds, more);
      PanicSticky(counts, col, Rows(ivs, adds), Rows(ivs, more));
      return Panic;
    }
    if checkEnd {
      FindOverlapsPoint(peaks, chrom, end);
      r := BumpHits(peaks[chrom], first.counts, col, PointHits(peaks[chrom], end));
      RowsAppend(ivs, adds, PointHits(ivs, end));
      BumpAppend(counts, col, Rows(ivs, adds), Rows(ivs, PointHits(ivs, end)));
    } else {
      assert adds + [] == adds;
      r := first;
    }
  }

  /** The loop body: the outcome of one chunk of the fragment file. */
  method CountLegacyFragment(peaks: map<string, seq<Interval>>, cells: map<string, nat>, counts: seq<map<nat, nat>>,
                             chunk: string) returns (r: Outcome)
    requires |chunk| > 0
    ensures r == Tick(peaks, counts, ReadLegacyFragment(peaks, cells, chunk))
  {
    ghost var read := ReadLegacyFragment(peaks, cells, chunk);
    var line := chunk[..|chunk| - 1];
    if StartsWith(line, '#') {
      assert read == HeaderLine;
      return Next(counts);
    }
    var fields := Split(line, '\t');
    if |fields| < 4 {
      assert read == ShortLine;
      return Panic;
    }
    if fields[3] !in cells || fields[0] !in peaks {
      assert read == Ignored;
      return Next(counts);
    }
    var start := ParseU32(fields[1]);
    var end := ParseU32(fields[2]);
    if start.None? || end.None? {
      assert read == BadNumber;
      return Failed;
    }
    assert read == Fragment(fields[0], start.value, end.value, cells[fields[3]]);
    r := CountLegacyHits(peaks, counts, fields[0], start.value, end.value, cells[fields[3]]);
  }

  predicate NonEmptyChunks(chunks: seq<string>) {
    forall i :: 0 <= i < |chunks| ==> |chunks[i]| > 0
  }

  /** The outcome after the first n chunks. */
  function LegacyRun(peaks: map<string, seq<Interval>>, cells: map<string, nat>, counts: seq<map<nat, nat>>,
                     chunks: seq<string>, n: nat): Outcome
    requires NonEmptyChunks(chunks) && n <= |chunks|
  {
    if n == 0 then Next(counts)
    else
      var prev := LegacyRun(peaks, cells, counts, chunks, n - 1);
      if prev.Next? then Tick(peaks, prev.counts, ReadLegacyFragment(peaks, cells, chunks[n - 1])) else prev
  }

  /**
   * The counting loop of the earlier engine over the fragment file, from
   * `nrows` empty rows: the final counts, a panic, or the error of an
   * unparsable coordinate.
   */
  method LegacyCount(peaks: map<string, seq<Interval>>, cells: map<string, nat>, nrows: nat, text: string)
    returns (r: Outcome)
    ensures r == LegacyRun(peaks, cells, seq(nrows, _ => map[]), ReadLines(text), |ReadLines(text)|)
  {
    var chunks := ReadLines(text);
    ghost var counts0: seq<map<nat, nat>> := seq(nrows, _ => map[]);
    r := Next(seq(nrows, _ => map[]));
    var i := 0;
    while i < |chunks|
      invariant i <= |chunks|
      invariant r == LegacyRun(peaks, cells, counts0, chunks, i)
    {
      if !r.Next? {
        LegacyStopSticky(peaks, cells, counts0, chunks, i, |chunks|);
        return;
      }
      r := CountLegacyFragment(peaks, cells, r.counts, chunks[i]);
      i := i + 1;
    }
  }

  /** A panic or an error ends the run. */
  lemma {:induction false} LegacyStopSticky(peaks: map<string, seq<Interval>>, cells: map<string, nat>,
                                            counts: seq<map<nat, nat>>, chunks: seq<string>, n: nat, m: nat)
    requires NonEmptyChunks(chunks) && n <= m <= |chunks|
    requires !LegacyRun(peaks, cells, counts, chunks, n).Next?
    ensures LegacyRun(peaks, cells, counts, chunks, m) == LegacyRun(peaks, cells, counts, chunks, n)
    decreases m - n
  {
    if n < m {
      LegacyStopSticky(peaks, cells, counts, chunks, n + 1, m);
    }
  }

  // ---------------------------------------------------------------------------
  // What the counts mean

  /** The number of intervals at positions lo.. that contain q and carry the given row. */
  function HitsInRow(ivs: seq<Interval>, q: nat, row: nat, lo: nat): nat
    requires lo <= |ivs|
    decreases |ivs| - lo
  {
    if lo == |ivs| then 0
    else (if Contains(ivs[lo], q) && ivs[lo].val == row then 1 else 0) + HitsInRow(ivs, q, row, lo + 1)
  }

  /** A point query lists each interval of a row that contains the point once. */
  lemma {:induction false} PointHitsInRow(ivs: seq<Interval>, q: nat, row: nat, lo: nat)
    requires lo <= |ivs|
    ensures multiset(Rows(ivs, OverlapsFrom(ivs, q, q + 1, lo)))[row] == HitsInRow(ivs, q, row, lo)
    decreases |ivs| - lo, 1
  {
    if lo < |ivs| {
      PointHitsStep(ivs, q, row, lo);
    } else {
      NoPointRows(ivs, q, row, lo);
    }
  }

  /** The count from lo follows from the count from lo + 1. */
  lemma {:induction false} PointHitsStep(ivs: seq<Interval>, q: nat, row: nat, lo: nat)
    requires lo < |ivs|
    ensures multiset(Rows(ivs, OverlapsFrom(ivs, q, q + 1, lo)))[row] == HitsInRow(ivs, q, row, lo)
    decreases |ivs| - lo, 0
  {
    PointHitsInRow(ivs, q, row, lo + 1);
    PointRowStep(ivs, q, row, lo);
    HitsInRowStep(ivs, q, row, lo);
  }

  lemma HitsInRowStep(ivs: seq<Interval>, q: nat, row: nat, lo: nat)
    requires lo < |ivs|
    ensures HitsInRow(ivs, q, row, lo)
      == (if Contains(ivs[lo], q) && ivs[lo].val == row then 1 else 0) + HitsInRow(ivs, q, row, lo + 1)
  {
  }

  lemma NoPointRows(ivs: seq<Interval>, q: nat, row: nat, lo: nat)
    requires lo == |ivs|
    ensures multiset(Rows(ivs, OverlapsFrom(ivs, q, q + 1, lo)))[row] == 0
  {
    assert OverlapsFrom(ivs, q, q + 1, lo) == [];
    assert |Rows(ivs, [])| == 0;
  }

  /** The point query from lo is the one from lo + 1, with lo in front when its interval contains q. */
  lemma PointRowStep(ivs: seq<Interval>, q: nat, row: nat, lo: nat)
    requires lo < |ivs|
    ensures multiset(Rows(ivs, OverlapsFrom(ivs, q, q + 1, lo)))[row]
      == (if Contains(ivs[lo], q) && ivs[lo].val == row then 1 else 0)
         + multiset(Rows(ivs, OverlapsFrom(ivs, q, q + 1, lo + 1)))[row]
  {
    var tail := OverlapsFrom(ivs, q, q + 1, lo + 1);
    var head: seq<nat> := if Contains(ivs[lo], q) then [lo] else [];
    HeadInRow(ivs, q, row, lo, head);
    assert OverlapsFrom(ivs, q, q + 1, lo) == head + tail;
    RowsMultiplicity(ivs, head, tail, row);
  }

  lemma RowsMultiplicity(ivs: seq<Interval>, a: seq<nat>, b: seq<nat>, row: nat)
    requires Positions(ivs, a) && Positions(ivs, b)
    ensures Positions(ivs, a + b)
    ensures multiset(Rows(ivs, a + b))[row] == multiset(Rows(ivs, a))[row] + multiset(Rows(ivs, b))[row]
  {
    RowsAppend(ivs, a, b);
  }

  /** The first position of a point query, as a row count. */
  lemma HeadInRow(ivs: seq<Interval>, q: nat, row: nat, lo: nat, head: seq<nat>)
    requires lo < |ivs| && head == if Contains(ivs[lo], q) then [lo] else []
    ensures (if Overlaps(ivs[lo], q, q + 1) then [lo] else []) == head
    ensures Positions(ivs, head)
    ensures multiset(Rows(ivs, head))[row] == if Contains(ivs[lo], q) && ivs[lo].val == row then 1 else 0
  {
    PointOverlap(ivs[lo], q);
    if Contains(ivs[lo], q) {
      assert Rows(ivs, head) == [ivs[lo].val];
      assert [ivs[lo].val][..0] == [];
    } else {
      assert Rows(ivs, head) == [];
    }
  }

  /**
   * What the additions do when no row is past the end: the count of (row,
   * col) grows by how often the row is listed and every other column stays.
   */
  lemma {:induction false} BumpEntry(counts: seq<map<nat, nat>>, col: nat, rows: seq<nat>, row: nat)
    requires forall i :: 0 <= i < |rows| ==> rows[i] < |counts|
    requires row < |counts|
    ensures Bump(counts, col, rows).Next?
    ensures GetCount(Bump(counts, col, rows).counts[row], col) == GetCount(counts[row], col) + multiset(rows)[row]
    ensures Bump(counts, col, rows).counts[row] - {col} == counts[row] - {col}
  {
    if |rows| > 0 {
      var prefix := rows[..|rows| - 1];
      BumpEntry(counts, col, prefix, row);
      BumpEntryStep(counts, col, prefix, rows[|rows| - 1], row, Bump(counts, col, prefix).counts);
      assert rows == prefix + [rows[|rows| - 1]];
    }
  }

  /** One more addition, to row `last`, after the additions of `prefix` left `c`. */
  lemma BumpEntryStep(counts: seq<map<nat, nat>>, col: nat, prefix: seq<nat>, last: nat, row: nat, c: seq<map<nat, nat>>)
    requires Bump(counts, col, prefix) == Next(c) && last < |c| && row < |c|
    ensures Bump(counts, col, prefix + [last]) == Next(Incr(c, last, col))
    ensures GetCount(Incr(c, last, col)[row], col) == GetCount(c[row], col) + (if last == row then 1 else 0)
    ensures Incr(c, last, col)[row] - {col} == c[row] - {col}
  {
    assert (prefix + [last])[..|prefix|] == prefix;
  }

  /** Rows read from intervals whose values are all below a bound are below it. */
  lemma RowsBelow(ivs: seq<Interval>, ks: seq<nat>, bound: nat)
    requires Positions(ivs, ks)
    requires forall k :: 0 <= k < |ivs| ==> ivs[k].val < bound
    ensures forall i :: 0 <= i < |Rows(ivs, ks)| ==> Rows(ivs, ks)[i] < bound
  {
    var rows := Rows(ivs, ks);
    forall i | 0 <= i < |rows| ensures rows[i] < bound {
      assert rows[i] == ivs[ks[i]].val;
    }
  }

  /**
   * The exact counting rule of the earlier engine: on a chromosome whose
   * intervals do not overlap, with start <= end and every interval's row
   * below the row count, a fragment adds to (row, col) one for every
   * interval of that row containing its start and one for every one
   * containing its end; no other column changes.
   */
  lemma TickCountsEndpoints(peaks: map<string, seq<Interval>>, counts: seq<map<nat, nat>>, chrom: string,
                            start: nat, end: nat, col: nat, row: nat)
    requires chrom in peaks && NonOverlapping(peaks[chrom])
    requires forall k :: 0 <= k < |peaks[chrom]| ==> peaks[chrom][k].val < |counts|
    requires start <= end && row < |counts|
    ensures Tick(peaks, counts, Fragment(chrom, start, end, col)).Next?
    ensures var c := Tick(peaks, counts, Fragment(chrom, start, end, col)).counts;
      && GetCount(c[row], col) == GetCount(counts[row], col) + HitsInRow(peaks[chrom], start, row, 0) + HitsInRow(peaks[chrom], end, row, 0)
      && c[row] - {col} == counts[row] - {col}
  {
    TickFragment(peaks, counts, chrom, start, end, col);
    BumpEndpoints(peaks[chrom], counts, start, end, col, row);
  }

  /** A fragment on a chromosome with regions adds one to the row of each addition in turn. */
  lemma TickFragment(peaks: map<string, seq<Interval>>, counts: seq<map<nat, nat>>, chrom: string,
                     start: nat, end: nat, col: nat)
    requires chrom in peaks
    ensures Tick(peaks, counts, Fragment(chrom, start, end, col))
      == Bump(counts, col, Rows(peaks[chrom], FragmentAdditions(peaks[chrom], start, end)))
  {
    TickOn(peaks, counts, Fragment(chrom, start, end, col), peaks[chrom]);
  }

  lemma TickOn(peaks: map<string, seq<Interval>>, counts: seq<map<nat, nat>>, line: LegacyFragment, ivs: seq<Interval>)
    requires line.Fragment? && line.chrom in peaks && peaks[line.chrom] == ivs
    ensures Tick(peaks, counts, line) == Bump(counts, line.col, Rows(ivs, FragmentAdditions(ivs, line.start, line.end)))
  {
  }

  lemma BumpEndpoints(ivs: seq<Interval>, counts: seq<map<nat, nat>>, start: nat, end: nat, col: nat, row: nat)
    requires NonOverlapping(ivs) && start <= end && row < |counts|
    requires forall k :: 0 <= k < |ivs| ==> ivs[k].val < |counts|
    ensures var b := Bump(counts, col, Rows(ivs, FragmentAdditions(ivs, start, end)));
      && b.Next?
      && GetCount(b.counts[row], col) == GetCount(counts[row], col) + HitsInRow(ivs, start, row, 0) + HitsInRow(ivs, end, row, 0)
      && b.counts[row] - {col} == counts[row] - {col}
  {
    var hs := PointHits(ivs, start);
    var he := PointHits(ivs, end);
    AdditionsAreEndpointHits(ivs, start, end);
    RowsMultiplicity(ivs, hs, he, row);
    PointHitsInRow(ivs, start, row, 0);
    PointHitsInRow(ivs, end, row, 0);
    RowsBelow(ivs, hs + he, |counts|);
    BumpEntry(counts, col, Rows(ivs, hs + he), row);
  }

  /**
   * The comment-line shift makes the earlier engine panic: with the tables
   * of a comment line followed by one region, a fragment starting inside
   * that region addresses row 1 of a one-row matrix.
   */
  lemma CommentLinePanics()
    ensures Tick(map["chr1" := [Interval(0, 10, 1)]], [map[]], Fragment("chr1", 5, 20, 0)).Panic?
  {
    var ivs := [Interval(0, 10, 1)];
    var peaks := map["chr1" := ivs];
    assert "chr1" in peaks && peaks["chr1"] == ivs;
    TickFragment(peaks, [map[]], "chr1", 5, 20, 0);
    OneRegionRows();
    RowPastEnd();
  }

  /** The fragment from 5 to 20 adds to row 1 alone. */
  lemma OneRegionRows()
    ensures var ivs := [Interval(0, 10, 1)]; Rows(ivs, FragmentAdditions(ivs, 5, 20)) == [1]
  {
    var ivs := [Interval(0, 10, 1)];
    OneRegionAdditions();
    RowsOfFirst(ivs, FragmentAdditions(ivs, 5, 20));
  }

  lemma RowsOfFirst(ivs: seq<Interval>, ks: seq<nat>)
    requires |ivs| > 0 && ks == [0]
    ensures Rows(ivs, ks) == [ivs[0].val]
  {
  }

  lemma RowPastEnd()
    ensures Bump([map[]], 0, [1]) == Panic
  {
    assert [1][..0] == [];
  }

  /** The region [0, 10) alone: a fragment from 5 to 20 is counted once, at its start. */
  lemma OneRegionAdditions()
    ensures FragmentAdditions([Interval(0, 10, 1)], 5, 20) == [0]
  {
    var ivs := [Interval(0, 10, 1)];
    assert OverlapsFrom(ivs, 5, 6, 1) == [];
    assert PointHits(ivs, 5) == [0];
    assert StartAdditions(ivs, [0], 20) == [0] by {
      assert StartAdditions(ivs, [0][1..], 20) == [];
    }
    assert !EndCovered(ivs, [0], 20);
    assert OverlapsFrom(ivs, 20, 21, 1) == [];
    assert PointHits(ivs, 20) == [];
  }
}
