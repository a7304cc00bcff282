/**
 * The feature index builder of the matrix engine (`peak_intervals` in
 * src/f2m.rs): regions the region file line by line into per-chromosome
 * interval lists, a lookup table of (output row, weight) pairs addressed by
 * each interval's `val`, and the row labels written to features.tsv.gz.
 */
module FeatureIndex {
  import opened Wrappers
  import opened Text
  import opened Sums
  import opened Intervals

  /** The optional `--group` and `--weight` columns (0-based field numbers). */
  datatype Config = Config(group: Option<nat>, weight: Option<nat>)

  /** One entry of the lookup table `ind_peak`: the output row and weight of an interval. */
  datatype Feature = Feature(row: nat, weight: real)

  /** The variables of `peak_intervals` while it regions the region file. */
  datatype Builder = Builder(
    trees: map<string, seq<Interval>>,  // chromosome_trees
    groups: map<string, nat>,           // peak_group_index
    lookup: seq<Feature>,               // ind_peak
    totalPeaks: nat,                    // total_peaks
    currentIndex: nat,                  // current_index
    skippedLines: nat,                  // skipped_lines
    labels: seq<string>)                // lines written to the feature file

  const Empty := Builder(map[], map[], [], 0, 0, 0, [])

  /** The two ways the builder panics. */
  datatype BuildError =
    | GroupIndexUnderflow(line: nat)          // `current_index - skipped_lines` below zero
    | CountMismatch(lookupLength: nat, totalPeaks: nat)  // the checks after the loop

  /** The finished index: row count, interval lists, lookup table and row labels. */
  datatype Index = Index(nrows: nat, trees: map<string, seq<Interval>>, lookup: seq<Feature>, labels: seq<string>)

  /** How one region line is read, before the builder's state is consulted. */
  datatype RegionLine =
    | Comment                                 // starts with '#'
    | Malformed                               // fewer than 3 fields, or start or end unparsable
    | BadWeight(chrom: string)                // the weight column is present but unparsable
    | NoGroupColumn(chrom: string)            // grouping on, but the line has no group column
    | Region(chrom: string, start: nat, end: nat, weight: real, key: Option<string>)

  /** The weight of a region: 1.0, or the weight column when the line has it. */
  function WeightOf(cfg: Config, fields: seq<string>): Option<real> {
    match cfg.weight
    case None => Some(1.0)
    case Some(c) => if |fields| > c then ParseDecimal(fields[c]) else Some(1.0)
  }

  function ReadRegion(cfg: Config, line: string): RegionLine {
    if StartsWith(line, '#') then Comment
    else
      var fields := Split(line, '\t');
      if |fields| < 3 then Malformed
      else
        var start := ParseU32(fields[1]);
        var end := ParseU32(fields[2]);
        if start.None? || end.None? then Malformed
        else
          var w := WeightOf(cfg, fields);
          if w.None? then BadWeight(fields[0])
          else Located(cfg, fields, start.value, end.value, w.value)
  }

  /** A line with its coordinates and weight read: a region, unless its group column is missing. */
  function Located(cfg: Config, fields: seq<string>, start: nat, end: nat, w: real): RegionLine
    requires |fields| >= 3
  {
    match cfg.group
    case None => Region(fields[0], start, end, w, None)
    case Some(g) =>
      if |fields| > g then Region(fields[0], start, end, w, Some(fields[g]))
      else NoGroupColumn(fields[0])
  }

  /** The label `chrom-start-end` of an ungrouped row. */
  function Label(chrom: string, start: nat, end: nat): string {
    chrom + "-" + NatToString(start) + "-" + NatToString(end)
  }

  /** The intervals recorded so far for a chromosome. */
  function IntervalsOf(trees: map<string, seq<Interval>>, chrom: string): seq<Interval> {
    if chrom in trees then trees[chrom] else []
  }

  /**
   * How rows are numbered: as the program does it, or with the first-seen,
   * dense numbering its checks and row count expect (first-seen order for
   * groups, order among retained regions otherwise, and a line without the
   * group column skipped).
   */
  datatype Numbering = AsWritten | Sequential

  /** One pass of the loop body for the 0-based line number `index`, once the line is read. */
  function Apply(num: Numbering, b: Builder, index: nat, line: RegionLine): Result<Builder, BuildError>
    requires b.skippedLines <= index
  {
    match line
    case Comment => Ok(b.(skippedLines := b.skippedLines + 1))
    case Malformed => Ok(b)
    case BadWeight(chrom) => Ok(b.(trees := b.trees[chrom := IntervalsOf(b.trees, chrom)]))
    case NoGroupColumn(chrom) =>
      if num.Sequential? then Ok(b.(trees := b.trees[chrom := IntervalsOf(b.trees, chrom)]))
      else Ok(b.(trees := b.trees[chrom := IntervalsOf(b.trees, chrom)], totalPeaks := b.totalPeaks + 1))
    case Region(chrom, start, end, w, key) =>
      var trees := b.trees[chrom := IntervalsOf(b.trees, chrom) + [Interval(start, end, b.totalPeaks)]];
      match key
      case None =>
        var row := if num.Sequential? then |b.lookup| else index - b.skippedLines;
        Ok(b.(trees := trees, lookup := b.lookup + [Feature(row, w)],
              labels := b.labels + [Label(chrom, start, end)], totalPeaks := b.totalPeaks + 1))
      case Some(k) =>
        if k in b.groups then
          Ok(b.(trees := trees, lookup := b.lookup + [Feature(b.groups[k], w)], totalPeaks := b.totalPeaks + 1))
        else if num.AsWritten? && b.currentIndex < b.skippedLines then Err(GroupIndexUnderflow(index))
        else
          var row := if num.Sequential? then b.currentIndex else b.currentIndex - b.skippedLines;
          Ok(b.(trees := trees, groups := b.groups[k := row], lookup := b.lookup + [Feature(row, w)],
                labels := b.labels + [k], currentIndex := b.currentIndex + 1, totalPeaks := b.totalPeaks + 1))
  }

  lemma UpdateTwice(m: map<string, seq<Interval>>, k: string, u: seq<Interval>, v: seq<Interval>)
    ensures m[k := u][k := v] == m[k := v]
  {
  }

  /** Without grouping, a region's row is its line number less the comment lines before it. */
  lemma ApplyUngrouped(b: Builder, index: nat, chrom: string, start: nat, end: nat, w: real)
    requires b.skippedLines <= index
    ensures Apply(AsWritten, b, index, Region(chrom, start, end, w, None))
         == Ok(b.(trees := b.trees[chrom := IntervalsOf(b.trees, chrom) + [Interval(start, end, b.totalPeaks)]],
                  lookup := b.lookup + [Feature(index - b.skippedLines, w)],
                  labels := b.labels + [Label(chrom, start, end)], totalPeaks := b.totalPeaks + 1))
  {
  }

  /** A region whose group key was seen before reuses that key's row. */
  lemma ApplyKnownGroup(b: Builder, index: nat, chrom: string, start: nat, end: nat, w: real, k: string)
    requires b.skippedLines <= index && k in b.groups
    ensures Apply(AsWritten, b, index, Region(chrom, start, end, w, Some(k)))
         == Ok(b.(trees := b.trees[chrom := IntervalsOf(b.trees, chrom) + [Interval(start, end, b.totalPeaks)]],
                  lookup := b.lookup + [Feature(b.groups[k], w)], totalPeaks := b.totalPeaks + 1))
  {
  }

  /** A region with a new group key takes `current_index - skipped_lines` as its row and writes the key as a label. */
  lemma ApplyNewGroup(b: Builder, index: nat, chrom: string, start: nat, end: nat, w: real, k: string)
    requires b.skippedLines <= index && k !in b.groups && b.skippedLines <= b.currentIndex
    ensures Apply(AsWritten, b, index, Region(chrom, start, end, w, Some(k)))
         == Ok(Builder(b.trees[chrom := IntervalsOf(b.trees, chrom) + [Interval(start, end, b.totalPeaks)]],
                       b.groups[k := b.currentIndex - b.skippedLines],
                       b.lookup + [Feature(b.currentIndex - b.skippedLines, w)], b.totalPeaks + 1,
                       b.currentIndex + 1, b.skippedLines, b.labels + [k]))
  {
  }

  /** A region carries a group key exactly when grouping is on. */
  lemma ReadRegionKey(cfg: Config, line: string)
    ensures ReadRegion(cfg, line).Region? ==> (ReadRegion(cfg, line).key.Some? <==> cfg.group.Some?)
  {
  }

  /** The lines of a region file as `ReadRegion` classifies them. */
  function ReadAll(cfg: Config, lines: seq<string>): (regions: seq<RegionLine>)
    ensures |regions| == |lines|
  {
    seq(|lines|, i requires 0 <= i < |lines| => ReadRegion(cfg, lines[i]))
  }

  /** The builder after the first n lines; a panic ends the run. */
  function Scan(num: Numbering, regions: seq<RegionLine>, n: nat): (r: Result<Builder, BuildError>)
    requires n <= |regions|
    ensures r.Ok? ==> r.value.skippedLines <= n
  {
    if n == 0 then Ok(Empty)
    else match Scan(num, regions, n - 1)
      case Err(e) => Err(e)
      case Ok(b) => Apply(num, b, n - 1, regions[n - 1])
  }

  /** Number of intervals over all chromosomes. */
  ghost function TotalIntervals(trees: map<string, seq<Interval>>): nat {
    MapSum(Lengths(trees))
  }

  /** The length of each chromosome's interval list. */
  function Lengths(trees: map<string, seq<Interval>>): (m: map<string, nat>)
    ensures m.Keys == trees.Keys
    ensures forall c :: c in trees ==> m[c] == |trees[c]|
  {
    map c | c in trees :: |trees[c]|
  }

  /**
   * After the loop: `Lapper::new` sorts each chromosome's list, the two
   * checks, and the row count (the number of groups, or of regions).
   */
  ghost function Finish(cfg: Config, b: Builder): Result<Index, BuildError> {
    var lappers := Lappers(b.trees);
    if |b.lookup| != b.totalPeaks then Err(CountMismatch(|b.lookup|, b.totalPeaks))
    else if TotalIntervals(lappers) != b.totalPeaks then Err(CountMismatch(|b.lookup|, b.totalPeaks))
    else Ok(Index(if cfg.group.Some? then b.currentIndex else b.totalPeaks, lappers, b.lookup, b.labels))
  }

  /** Sorting keeps every chromosome's number of intervals. */
  lemma LappersTotal(trees: map<string, seq<Interval>>)
    ensures TotalIntervals(Lappers(trees)) == TotalIntervals(trees)
  {
    assert Lengths(Lappers(trees)) == Lengths(trees);
  }

  /** Sorting keeps every interval's value. */
  lemma LappersVals(trees: map<string, seq<Interval>>, bound: nat)
    requires ValsBelow(trees, bound)
    ensures ValsBelow(Lappers(trees), bound)
  {
    forall c, k | c in trees && 0 <= k < |Lappers(trees)[c]| ensures Lappers(trees)[c][k].val < bound {
      var iv := Lappers(trees)[c][k];
      LapperSortMembers(trees[c], iv);
      var j :| 0 <= j < |trees[c]| && trees[c][j] == iv;
    }
  }

  /** `peak_intervals` on the lines of a region file. */
  ghost function Build(num: Numbering, cfg: Config, lines: seq<string>): Result<Index, BuildError> {
    match Scan(num, ReadAll(cfg, lines), |lines|)
    case Err(e) => Err(e)
    case Ok(b) => Finish(cfg, b)
  }

  // ---------------------------------------------------------------------------
  // Counting lines

  function CountComments(regions: seq<RegionLine>, n: nat): nat
    requires n <= |regions|
  {
    if n == 0 then 0 else CountComments(regions, n - 1) + (if regions[n - 1].Comment? then 1 else 0)
  }

  function CountNoGroup(regions: seq<RegionLine>, n: nat): nat
    requires n <= |regions|
  {
    if n == 0 then 0 else CountNoGroup(regions, n - 1) + (if regions[n - 1].NoGroupColumn? then 1 else 0)
  }

  /** The group keys of the regions among the first n lines. */
  function KeysSeen(regions: seq<RegionLine>, n: nat): set<string>
    requires n <= |regions|
  {
    if n == 0 then {}
    else KeysSeen(regions, n - 1) + (if regions[n - 1].Region? && regions[n - 1].key.Some? then {regions[n - 1].key.value} else {})
  }

  /** Regions carry a group key exactly when grouping is on. */
  ghost predicate Consistent(cfg: Config, regions: seq<RegionLine>) {
    forall i :: 0 <= i < |regions| && regions[i].Region? ==> (regions[i].key.Some? <==> cfg.group.Some?)
  }

  lemma ReadAllConsistent(cfg: Config, lines: seq<string>)
    ensures Consistent(cfg, ReadAll(cfg, lines))
  {
    forall i | 0 <= i < |lines| {
      ReadRegionKey(cfg, lines[i]);
    }
  }

  // ---------------------------------------------------------------------------
  // The builder's invariant

  predicate Distinct(s: seq<string>) {
    forall i, j :: 0 <= i < j < |s| ==> s[i] != s[j]
  }

  /** Every interval's `val` is below the given bound. */
  ghost predicate ValsBelow(trees: map<string, seq<Interval>>, bound: nat) {
    forall c, k :: c in trees && 0 <= k < |trees[c]| ==> trees[c][k].val < bound
  }

  /** What holds of the builder after every line. */
  ghost predicate Wf(cfg: Config, b: Builder) {
    && |b.lookup| == TotalIntervals(b.trees)
    && |b.lookup| <= b.totalPeaks
    && ValsBelow(b.trees, b.totalPeaks)
    && (cfg.group.Some? ==>
          && |b.labels| == |b.groups| == b.currentIndex
          && Distinct(b.labels)
          && (forall i :: 0 <= i < |b.labels| ==> b.labels[i] in b.groups)
          && (forall k :: k in b.groups ==> b.groups[k] < b.currentIndex)
          && (forall j :: 0 <= j < |b.lookup| ==> b.lookup[j].row < b.currentIndex))
    && (cfg.group.None? ==> b.groups == map[] && b.currentIndex == 0 && |b.labels| == |b.lookup|)
  }

  /** Adding an interval to one chromosome adds one to the total. */
  lemma TotalAfterPush(trees: map<string, seq<Interval>>, chrom: string, iv: Interval)
    ensures TotalIntervals(trees[chrom := IntervalsOf(trees, chrom) + [iv]]) == TotalIntervals(trees) + 1
  {
    var m := Lengths(trees);
    var t := trees[chrom := IntervalsOf(trees, chrom) + [iv]];
    assert Lengths(t) == m[chrom := |IntervalsOf(trees, chrom)| + 1];
    MapSumUpdate(m, chrom, |IntervalsOf(trees, chrom)| + 1);
  }

  /** Creating an empty list for a chromosome leaves the total unchanged. */
  lemma TotalAfterTouch(trees: map<string, seq<Interval>>, chrom: string)
    ensures TotalIntervals(trees[chrom := IntervalsOf(trees, chrom)]) == TotalIntervals(trees)
  {
    var m := Lengths(trees);
    var t := trees[chrom := IntervalsOf(trees, chrom)];
    assert Lengths(t) == m[chrom := |IntervalsOf(trees, chrom)|];
    MapSumUpdate(m, chrom, |IntervalsOf(trees, chrom)|);
  }

  lemma ValsAfterPush(trees: map<string, seq<Interval>>, chrom: string, iv: Interval, bound: nat)
    requires ValsBelow(trees, bound) && iv.val < bound
    ensures ValsBelow(trees[chrom := IntervalsOf(trees, chrom) + [iv]], bound)
  {
  }

  /** Every line keeps the invariant. */
  lemma ApplyWf(num: Numbering, cfg: Config, b: Builder, index: nat, line: RegionLine)
    requires b.skippedLines <= index && Wf(cfg, b)
    requires line.Region? ==> (line.key.Some? <==> cfg.group.Some?)
    ensures Apply(num, b, index, line).Ok? ==> Wf(cfg, Apply(num, b, index, line).value)
  {
    match line
    case Comment =>
    case Malformed =>
    case BadWeight(chrom) =>
      TotalAfterTouch(b.trees, chrom);
    case NoGroupColumn(chrom) =>
      TotalAfterTouch(b.trees, chrom);
    case Region(chrom, start, end, w, key) =>
      ApplyWfRegion(num, cfg, b, index, line);
  }

  /** The invariant after a region line. */
  lemma ApplyWfRegion(num: Numbering, cfg: Config, b: Builder, index: nat, line: RegionLine)
    requires b.skippedLines <= index && Wf(cfg, b)
    requires line.Region? && (line.key.Some? <==> cfg.group.Some?)
    ensures Apply(num, b, index, line).Ok? ==> Wf(cfg, Apply(num, b, index, line).value)
  {
    var iv := Interval(line.start, line.end, b.totalPeaks);
    TotalAfterPush(b.trees, line.chrom, iv);
    ValsAfterPush(b.trees, line.chrom, iv, b.totalPeaks + 1) by {
      assert ValsBelow(b.trees, b.totalPeaks + 1);
    }
    if line.key.Some? && Apply(num, b, index, line).Ok? {
      ApplyWfGrouped(num, cfg, b, index, line);
    }
  }

  /** The group table, labels and rows of the invariant after a grouped region. */
  lemma ApplyWfGrouped(num: Numbering, cfg: Config, b: Builder, index: nat, line: RegionLine)
    requires b.skippedLines <= index && Wf(cfg, b)
    requires line.Region? && line.key.Some? && cfg.group.Some?
    requires Apply(num, b, index, line).Ok?
    ensures var r := Apply(num, b, index, line).value;
      && |r.labels| == |r.groups| == r.currentIndex
      && Distinct(r.labels)
      && (forall i :: 0 <= i < |r.labels| ==> r.labels[i] in r.groups)
      && (forall k :: k in r.groups ==> r.groups[k] < r.currentIndex)
      && (forall j :: 0 <= j < |r.lookup| ==> r.lookup[j].row < r.currentIndex)
  {
    var k := line.key.value;
    var r := Apply(num, b, index, line).value;
    if k !in b.groups {
      assert r.labels == b.labels + [k];
      assert forall i :: 0 <= i < |b.labels| ==> b.labels[i] != k;
      assert |r.groups| == |b.groups| + 1;
    }
  }

  /** The number of comment lines, of lines lacking the group column, and the keys seen. */
  ghost predicate Counted(num: Numbering, regions: seq<RegionLine>, n: nat, b: Builder)
    requires n <= |regions|
  {
    && b.skippedLines == CountComments(regions, n)
    && b.totalPeaks == |b.lookup| + (if num.AsWritten? then CountNoGroup(regions, n) else 0)
    && b.groups.Keys == KeysSeen(regions, n)
  }

  /** The comment count, the peaks without an interval and the keys seen, after one more line. */
  lemma ApplyCounts(num: Numbering, b: Builder, index: nat, line: RegionLine)
    requires b.skippedLines <= index && |b.lookup| <= b.totalPeaks
    requires Apply(num, b, index, line).Ok?
    ensures var r := Apply(num, b, index, line).value;
      && r.skippedLines == b.skippedLines + (if line.Comment? then 1 else 0)
      && |r.lookup| <= r.totalPeaks
      && r.totalPeaks - |r.lookup| == b.totalPeaks - |b.lookup| + (if num.AsWritten? && line.NoGroupColumn? then 1 else 0)
      && r.groups.Keys == b.groups.Keys + (if line.Region? && line.key.Some? then {line.key.value} else {})
  {
  }

  /** A line is read as a comment exactly when it starts with '#'. */
  lemma ReadRegionComment(cfg: Config, line: string)
    ensures ReadRegion(cfg, line).Comment? <==> StartsWith(line, '#')
  {
  }

  /** After every prefix of the file the builder satisfies the invariant. */
  lemma {:induction false} ScanWf(num: Numbering, cfg: Config, regions: seq<RegionLine>, n: nat)
    requires n <= |regions| && Consistent(cfg, regions)
    ensures Scan(num, regions, n).Ok? ==> Wf(cfg, Scan(num, regions, n).value)
  {
    if n == 0 {
      EmptyWf(cfg);
    } else {
      ScanWf(num, cfg, regions, n - 1);
      var line := regions[n - 1];
      assert line.Region? ==> (line.key.Some? <==> cfg.group.Some?);
      ScanWfStep(num, cfg, Scan(num, regions, n - 1), n - 1, line, Scan(num, regions, n));
    }
  }

  /** The empty builder keeps the invariant. */
  lemma EmptyWf(cfg: Config)
    ensures Wf(cfg, Empty)
  {
    var none: map<string, seq<Interval>> := map[];
    assert Lengths(none) == map[];
    MapSumEmpty();
  }

  /** One more line of the fold keeps the invariant. */
  lemma ScanWfStep(num: Numbering, cfg: Config, prev: Result<Builder, BuildError>, index: nat, line: RegionLine,
                   next: Result<Builder, BuildError>)
    requires prev.Ok? ==> prev.value.skippedLines <= index && Wf(cfg, prev.value)
    requires line.Region? ==> (line.key.Some? <==> cfg.group.Some?)
    requires next == if prev.Err? then Err(prev.error) else Apply(num, prev.value, index, line)
    ensures next.Ok? ==> Wf(cfg, next.value)
  {
    if prev.Ok? {
      ApplyWf(num, cfg, prev.value, index, line);
    }
  }

  /** After every prefix of the file the builder has counted comments, missing group columns and keys. */
  lemma {:induction false} ScanCounted(num: Numbering, regions: seq<RegionLine>, n: nat)
    requires n <= |regions|
    ensures Scan(num, regions, n).Ok? ==> Counted(num, regions, n, Scan(num, regions, n).value)
  {
    if n > 0 {
      ScanCounted(num, regions, n - 1);
      var prev := Scan(num, regions, n - 1);
      if prev.Ok? && Apply(num, prev.value, n - 1, regions[n - 1]).Ok? {
        ApplyCounts(num, prev.value, n - 1, regions[n - 1]);
      }
    }
  }

  /** One more line is applied to the builder of the lines before it. */
  lemma ScanNext(num: Numbering, regions: seq<RegionLine>, n: nat)
    requires n < |regions| && Scan(num, regions, n).Ok?
    ensures Scan(num, regions, n + 1) == Apply(num, Scan(num, regions, n).value, n, regions[n])
  {
  }

  /** The next line of a file is read and applied to the builder of the lines before it. */
  lemma ScanLine(cfg: Config, lines: seq<string>, n: nat)
    requires n < |lines| && Scan(AsWritten, ReadAll(cfg, lines), n).Ok?
    ensures var regions := ReadAll(cfg, lines);
      Scan(AsWritten, regions, n + 1) == Apply(AsWritten, Scan(AsWritten, regions, n).value, n, ReadRegion(cfg, lines[n]))
  {
    ScanNext(AsWritten, ReadAll(cfg, lines), n);
  }

  /** Once the builder panics, the rest of the file is not read. */
  lemma {:induction false} ScanErrSticky(num: Numbering, regions: seq<RegionLine>, n: nat, m: nat)
    requires n <= m <= |regions| && Scan(num, regions, n).Err?
    ensures Scan(num, regions, m) == Scan(num, regions, n)
    decreases m - n
  {
    if n < m {
      ScanErrSticky(num, regions, n, m - 1);
    }
  }

  // ---------------------------------------------------------------------------
  // What the finished index satisfies

  /**
   * The checked invariant: every interval's `val` indexes the lookup table,
   * whose length is the number of intervals, and every chromosome's list is
   * sorted; with grouping, the row count is
   * the number of labels written, every row is below it, and no label is
   * written twice.
   */
  ghost predicate IndexWf(cfg: Config, idx: Index) {
    && ValsBelow(idx.trees, |idx.lookup|)
    && (forall c :: c in idx.trees ==> SortedIntervals(idx.trees[c]))
    && |idx.lookup| == TotalIntervals(idx.trees)
    && (cfg.group.Some? ==>
          && idx.nrows == |idx.labels|
          && Distinct(idx.labels)
          && (forall j :: 0 <= j < |idx.lookup| ==> idx.lookup[j].row < idx.nrows))
    && (cfg.group.None? ==> idx.nrows == |idx.lookup| == |idx.labels|)
  }

  /**
   * A finished index satisfies the checked invariant, and with grouping its
   * row count is the number of distinct group keys in the file.
   */
  lemma BuildWf(num: Numbering, cfg: Config, lines: seq<string>)
    ensures Build(num, cfg, lines).Ok? ==> IndexWf(cfg, Build(num, cfg, lines).value)
    ensures Build(num, cfg, lines).Ok? && cfg.group.Some? ==>
              Build(num, cfg, lines).value.nrows == |KeysSeen(ReadAll(cfg, lines), |lines|)|
  {
    var regions := ReadAll(cfg, lines);
    ReadAllConsistent(cfg, lines);
    ScanWf(num, cfg, regions, |lines|);
    ScanCounted(num, regions, |lines|);
    var s := Scan(num, regions, |lines|);
    if s.Ok? {
      LappersTotal(s.value.trees);
      LappersVals(s.value.trees, s.value.totalPeaks);
    }
    if s.Ok? && Build(num, cfg, lines).Ok? && cfg.group.Some? {
      assert |s.value.groups.Keys| == |s.value.groups|;
    }
  }

  /**
   * The checks after the loop fail exactly when some line lacked the group
   * column: such a line counts a peak without pushing an interval.
   */
  lemma FinishFailsIffGroupColumnMissing(cfg: Config, regions: seq<RegionLine>)
    requires Consistent(cfg, regions) && Scan(AsWritten, regions, |regions|).Ok?
    ensures Finish(cfg, Scan(AsWritten, regions, |regions|).value).Err?
            <==> exists i :: 0 <= i < |regions| && regions[i].NoGroupColumn?
  {
    ScanWf(AsWritten, cfg, regions, |regions|);
    ScanCounted(AsWritten, regions, |regions|);
    CountNoGroupPositive(regions, |regions|);
    LappersTotal(Scan(AsWritten, regions, |regions|).value.trees);
  }

  /** A lacking group column is counted exactly when such a line exists. */
  lemma {:induction false} CountNoGroupPositive(regions: seq<RegionLine>, n: nat)
    requires n <= |regions|
    ensures CountNoGroup(regions, n) > 0 <==> exists i :: 0 <= i < n && regions[i].NoGroupColumn?
  {
    if n > 0 {
      CountNoGroupPositive(regions, n - 1);
    }
  }

  // ---------------------------------------------------------------------------
  // Rows of individual lines

  /** The builder only ever appends: the lookup table grows and group rows never change. */
  lemma {:induction false} ScanGrows(num: Numbering, regions: seq<RegionLine>, n: nat, m: nat)
    requires n <= m <= |regions| && Scan(num, regions, m).Ok?
    ensures Scan(num, regions, n).Ok?
    ensures Scan(num, regions, n).value.lookup <= Scan(num, regions, m).value.lookup
    ensures forall k :: k in Scan(num, regions, n).value.groups ==>
              k in Scan(num, regions, m).value.groups
              && Scan(num, regions, m).value.groups[k] == Scan(num, regions, n).value.groups[k]
    decreases m - n
  {
    if n < m {
      ScanGrows(num, regions, n, m - 1);
    }
  }

  /**
   * Without grouping, the program gives the region on 0-based line i the row
   * i minus the number of comment lines before it: malformed lines before it
   * still advance the row.
   */
  lemma UngroupedRow(regions: seq<RegionLine>, i: nat)
    requires i < |regions| && regions[i].Region? && regions[i].key.None?
    requires Scan(AsWritten, regions, |regions|).Ok?
    ensures Scan(AsWritten, regions, i).Ok?
    ensures |Scan(AsWritten, regions, i).value.lookup| < |Scan(AsWritten, regions, |regions|).value.lookup|
    ensures Scan(AsWritten, regions, |regions|).value.lookup[|Scan(AsWritten, regions, i).value.lookup|].row
            == i - CountComments(regions, i)
  {
    ScanGrows(AsWritten, regions, i + 1, |regions|);
    ScanGrows(AsWritten, regions, i, i + 1);
    ScanCounted(AsWritten, regions, i);
  }

  /**
   * With grouping, every region whose key is k is given the row that k has
   * in the finished group table: regions sharing a key share a row.
   */
  lemma GroupedRow(num: Numbering, regions: seq<RegionLine>, i: nat)
    requires i < |regions| && regions[i].Region? && regions[i].key.Some?
    requires Scan(num, regions, |regions|).Ok?
    ensures Scan(num, regions, i).Ok?
    ensures |Scan(num, regions, i).value.lookup| < |Scan(num, regions, |regions|).value.lookup|
    ensures regions[i].key.value in Scan(num, regions, |regions|).value.groups
    ensures Scan(num, regions, |regions|).value.lookup[|Scan(num, regions, i).value.lookup|].row
            == Scan(num, regions, |regions|).value.groups[regions[i].key.value]
  {
    ScanGrows(num, regions, i + 1, |regions|);
    ScanGrows(num, regions, i, i + 1);
    GroupedStep(num, regions, i);
  }

  /** The region on line i is appended with the row its key has right after it. */
  lemma GroupedStep(num: Numbering, regions: seq<RegionLine>, i: nat)
    requires i < |regions| && regions[i].Region? && regions[i].key.Some?
    requires Scan(num, regions, i + 1).Ok?
    ensures Scan(num, regions, i).Ok?
    ensures var b := Scan(num, regions, i).value; var r := Scan(num, regions, i + 1).value;
      && regions[i].key.value in r.groups
      && |b.lookup| < |r.lookup|
      && r.lookup[|b.lookup|].row == r.groups[regions[i].key.value]
  {
  }

  /**
   * When every non-comment line is a retained ungrouped region (no malformed
   * line, no bad weight), the program's rows are 0, 1, 2, ... in file order.
   */
  lemma {:induction false} UngroupedRowsDense(regions: seq<RegionLine>, n: nat)
    requires n <= |regions|
    requires forall i :: 0 <= i < n ==> regions[i].Comment? || (regions[i].Region? && regions[i].key.None?)
    ensures Scan(AsWritten, regions, n).Ok?
    ensures |Scan(AsWritten, regions, n).value.lookup| == n - CountComments(regions, n)
    ensures forall j :: 0 <= j < |Scan(AsWritten, regions, n).value.lookup| ==>
              Scan(AsWritten, regions, n).value.lookup[j].row == j
  {
    if n > 0 {
      UngroupedRowsDense(regions, n - 1);
      ScanCounted(AsWritten, regions, n - 1);
      ScanNext(AsWritten, regions, n - 1);
      DenseStep(Scan(AsWritten, regions, n - 1).value, n - 1, regions[n - 1]);
      ScanCounted(AsWritten, regions, n);
    }
  }

  /** A comment or an ungrouped region keeps the rows 0, 1, 2, ... of the lines before it. */
  lemma DenseStep(b: Builder, index: nat, line: RegionLine)
    requires b.skippedLines <= index && |b.lookup| == index - b.skippedLines
    requires forall j :: 0 <= j < |b.lookup| ==> b.lookup[j].row == j
    requires line.Comment? || (line.Region? && line.key.None?)
    ensures Apply(AsWritten, b, index, line).Ok?
    ensures var next := Apply(AsWritten, b, index, line).value;
      && next.skippedLines <= index + 1 && |next.lookup| == index + 1 - next.skippedLines
      && forall j :: 0 <= j < |next.lookup| ==> next.lookup[j].row == j
  {
  }

  // ---------------------------------------------------------------------------
  // Sequential numbering: first-seen, dense rows

  /** Row r is labelled by the r-th label: the r-th new group key, or the r-th retained region. */
  ghost predicate Numbered(cfg: Config, b: Builder) {
    && (cfg.group.Some? ==> forall r :: 0 <= r < |b.labels| ==> b.labels[r] in b.groups && b.groups[b.labels[r]] == r)
    && (cfg.group.None? ==> forall j :: 0 <= j < |b.lookup| ==> b.lookup[j].row == j)
  }

  /**
   * With sequential numbering the builder never panics and rows are numbered
   * in first-seen order: with
   * grouping, the key on label line r owns row r; without, the j-th retained
   * region owns row j.
   */
  lemma {:induction false} SequentialRows(cfg: Config, regions: seq<RegionLine>, n: nat)
    requires n <= |regions| && Consistent(cfg, regions)
    ensures Scan(Sequential, regions, n).Ok?
    ensures Numbered(cfg, Scan(Sequential, regions, n).value)
  {
    if n > 0 {
      SequentialRows(cfg, regions, n - 1);
      ScanWf(Sequential, cfg, regions, n - 1);
      ApplyNumbered(cfg, Scan(Sequential, regions, n - 1).value, n - 1, regions[n - 1]);
    }
  }

  /** With sequential numbering the checks after the loop always pass. */
  lemma SequentialFinishes(cfg: Config, regions: seq<RegionLine>)
    requires Consistent(cfg, regions)
    ensures Scan(Sequential, regions, |regions|).Ok?
    ensures Finish(cfg, Scan(Sequential, regions, |regions|).value).Ok?
  {
    SequentialRows(cfg, regions, |regions|);
    ScanWf(Sequential, cfg, regions, |regions|);
    ScanCounted(Sequential, regions, |regions|);
    LappersTotal(Scan(Sequential, regions, |regions|).value.trees);
  }

  /** Sequential numbering never panics and keeps rows in first-seen order. */
  lemma ApplyNumbered(cfg: Config, b: Builder, index: nat, line: RegionLine)
    requires b.skippedLines <= index && Wf(cfg, b) && Numbered(cfg, b)
    requires line.Region? ==> (line.key.Some? <==> cfg.group.Some?)
    ensures Apply(Sequential, b, index, line).Ok?
    ensures Numbered(cfg, Apply(Sequential, b, index, line).value)
  {
    var r := Apply(Sequential, b, index, line).value;
    if cfg.group.Some? && line.Region? && line.key.value !in b.groups {
      assert r.labels == b.labels + [line.key.value];
      assert forall i :: 0 <= i < |b.labels| ==> b.labels[i] != line.key.value;
    }
  }

  /** A comment line between the first lines of two groups gives both groups the same row. */
  lemma GroupRowsCollide()
    ensures var regions := [Region("chr1", 0, 10, 1.0, Some("A")), Comment, Region("chr1", 20, 30, 1.0, Some("B"))];
      && Scan(AsWritten, regions, 3).Ok?
      && Scan(AsWritten, regions, 3).value.labels == ["A", "B"]
      && Scan(AsWritten, regions, 3).value.groups == map["A" := 0, "B" := 0]
      && Scan(Sequential, regions, 3).value.groups == map["A" := 0, "B" := 1]
  {
  }

  /** A comment line before the first group makes `current_index - skipped_lines` negative. */
  lemma FirstGroupUnderflows()
    ensures Scan(AsWritten, [Comment, Region("chr1", 0, 10, 1.0, Some("A"))], 2) == Err(GroupIndexUnderflow(1))
  {
  }

  /**
   * A malformed line before an ungrouped region pushes its row past the row
   * count: the index has one row, and its only feature lies in row 1.
   */
  lemma UngroupedRowPastEnd()
    ensures var regions := [Malformed, Region("chr1", 0, 10, 1.0, None)];
      Finish(Config(None, None), Scan(AsWritten, regions, 2).value)
      == Ok(Index(1, map["chr1" := [Interval(0, 10, 0)]], [Feature(1, 1.0)], [Label("chr1", 0, 10)]))
  {
    var one := map["chr1" := [Interval(0, 10, 0)]];
    var b := Builder(one, map[], [Feature(1, 1.0)], 1, 0, 0, [Label("chr1", 0, 10)]);
    RowPastEndScan(b);
    OneIntervalFinish(b);
  }

  lemma RowPastEndScan(b: Builder)
    requires b == Builder(map["chr1" := [Interval(0, 10, 0)]], map[], [Feature(1, 1.0)], 1, 0, 0, [Label("chr1", 0, 10)])
    ensures Scan(AsWritten, [Malformed, Region("chr1", 0, 10, 1.0, None)], 2) == Ok(b)
  {
    var regions := [Malformed, Region("chr1", 0, 10, 1.0, None)];
    assert Scan(AsWritten, regions, 1) == Ok(Empty);
    var none: map<string, seq<Interval>> := map[];
    assert IntervalsOf(none, "chr1") + [Interval(0, 10, 0)] == [Interval(0, 10, 0)];
    assert none["chr1" := [Interval(0, 10, 0)]] == b.trees;
    assert [] + [Feature(1, 1.0)] == [Feature(1, 1.0)];
    assert [] + [Label("chr1", 0, 10)] == [Label("chr1", 0, 10)];
    ApplyUngrouped(Empty, 1, "chr1", 0, 10, 1.0);
  }

  lemma OneIntervalFinish(b: Builder)
    requires b == Builder(map["chr1" := [Interval(0, 10, 0)]], map[], [Feature(1, 1.0)], 1, 0, 0, [Label("chr1", 0, 10)])
    ensures Finish(Config(None, None), b) == Ok(Index(1, b.trees, b.lookup, b.labels))
  {
    OneChromosomeSorted(b.trees);
    OneChromosomeTotal(b.trees);
  }

  lemma OneChromosomeSorted(one: map<string, seq<Interval>>)
    requires one == map["chr1" := [Interval(0, 10, 0)]]
    ensures Lappers(one) == one
  {
    LapperSortSingle(Interval(0, 10, 0));
    assert Lappers(one).Keys == one.Keys;
  }

  lemma OneChromosomeTotal(one: map<string, seq<Interval>>)
    requires one == map["chr1" := [Interval(0, 10, 0)]]
    ensures TotalIntervals(one) == 1
  {
    assert Lengths(one) == map["chr1" := 1];
    MapSumEmpty();
    MapSumUpdate(map[], "chr1", 1);
    assert map[]["chr1" := 1] == map["chr1" := 1];
  }

  /** A line without the group column makes the checks after the loop fail. */
  lemma MissingGroupColumnFails()
    ensures var regions := [Region("chr1", 0, 10, 1.0, Some("A")), NoGroupColumn("chr1")];
      Finish(Config(Some(3), None), Scan(AsWritten, regions, 2).value) == Err(CountMismatch(1, 2))
  {
    var regions := [Region("chr1", 0, 10, 1.0, Some("A")), NoGroupColumn("chr1")];
    var b := Scan(AsWritten, regions, 2).value;
    assert |b.lookup| == 1 && b.totalPeaks == 2;
  }

  // ---------------------------------------------------------------------------
  // The builder as the program runs it

  /** `lapper_map.values().map(|lapper| lapper.len()).sum()`. */
  method SumIntervals(trees: map<string, seq<Interval>>) returns (total: nat)
    ensures total == TotalIntervals(trees)
  {
    var lengths := Lengths(trees);
    total := 0;
    var rest := lengths.Keys;
    while rest != {}
      invariant rest <= lengths.Keys
      invariant total + SumOver(lengths, rest) == TotalIntervals(trees)
      decreases rest
    {
      var c :| c in rest;
      SumOverRemove(lengths, rest, c);
      total := total + |trees[c]|;
      rest := rest - {c};
    }
  }

  /** The body of the loop of `peak_intervals` for the 0-based line `index`. */
  method ProcessLine(cfg: Config, b: Builder, index: nat, line: string) returns (r: Result<Builder, BuildError>)
    requires b.skippedLines <= index
    ensures r == Apply(AsWritten, b, index, ReadRegion(cfg, line))
  {
    ghost var read := ReadRegion(cfg, line);
    if StartsWith(line, '#') {
      assert read == Comment;
      return Ok(b.(skippedLines := b.skippedLines + 1));
    }
    var fields := Split(line, '\t');
    if |fields| < 3 {
      assert read == Malformed;
      return Ok(b);
    }
    var start := ParseU32(fields[1]);
    var end := ParseU32(fields[2]);
    if start.None? || end.None? {
      assert read == Malformed;
      return Ok(b);
    }
    var chromosome := fields[0];
    var intervals := IntervalsOf(b.trees, chromosome);
    var trees := b.trees[chromosome := intervals];
    var peakWeight: real := 1.0;
    if cfg.weight.Some? && |fields| > cfg.weight.value {
      var w := ParseDecimal(fields[cfg.weight.value]);
      if w.None? {
        assert read == BadWeight(chromosome);
        return Ok(b.(trees := trees));
      }
      peakWeight := w.value;
    }
    assert WeightOf(cfg, fields) == Some(peakWeight);
    assert read == Located(cfg, fields, start.value, end.value, peakWeight);
    r := AddRegion(cfg, b, index, fields, start.value, end.value, peakWeight);
  }

  /** The rest of the loop body for a line whose coordinates and weight were read. */
  method AddRegion(cfg: Config, b: Builder, index: nat, fields: seq<string>, start: nat, end: nat, peakWeight: real)
    returns (r: Result<Builder, BuildError>)
    requires b.skippedLines <= index && |fields| >= 3
    ensures r == Apply(AsWritten, b, index, Located(cfg, fields, start, end, peakWeight))
  {
    ghost var read := Located(cfg, fields, start, end, peakWeight);
    var chromosome := fields[0];
    var intervals := IntervalsOf(b.trees, chromosome);
    var trees := b.trees[chromosome := intervals];
    var iv := Interval(start, end, b.totalPeaks);
    UpdateTwice(b.trees, chromosome, intervals, intervals + [iv]);
    if cfg.group.Some? {
      if |fields| > cfg.group.value {
        var key := fields[cfg.group.value];
        assert read == Region(chromosome, start, end, peakWeight, Some(key));
        if key in b.groups {
          ApplyKnownGroup(b, index, chromosome, start, end, peakWeight, key);
          r := Ok(b.(trees := trees[chromosome := intervals + [iv]], lookup := b.lookup + [Feature(b.groups[key], peakWeight)],
                     totalPeaks := b.totalPeaks + 1));
        } else if b.currentIndex < b.skippedLines {
          r := Err(GroupIndexUnderflow(index));
        } else {
          var row := b.currentIndex - b.skippedLines;
          ApplyNewGroup(b, index, chromosome, start, end, peakWeight, key);
          r := Ok(Builder(trees[chromosome := intervals + [iv]], b.groups[key := row], b.lookup + [Feature(row, peakWeight)],
                          b.totalPeaks + 1, b.currentIndex + 1, b.skippedLines, b.labels + [key]));
        }
      } else {
        assert read == NoGroupColumn(chromosome);
        r := Ok(b.(trees := trees, totalPeaks := b.totalPeaks + 1));
      }
    } else {
      assert read == Region(chromosome, start, end, peakWeight, None);
      ApplyUngrouped(b, index, chromosome, start, end, peakWeight);
      r := Ok(b.(trees := trees[chromosome := intervals + [iv]], lookup := b.lookup + [Feature(index - b.skippedLines, peakWeight)],
                 labels := b.labels + [Label(chromosome, start, end)], totalPeaks := b.totalPeaks + 1));
    }
  }

  /**
   * `peak_intervals` over the lines of the region file: the loop, the two
   * checks after it, and the row count (the number of groups when grouping).
   */
  method PeakIntervals(cfg: Config, lines: seq<string>) returns (r: Result<Index, BuildError>)
    ensures r == Build(AsWritten, cfg, lines)
    ensures r.Ok? ==> IndexWf(cfg, r.value)
  {
    BuildWf(AsWritten, cfg, lines);
    var scanned := ScanLines(cfg, lines);
    if scanned.Err? {
      return Err(scanned.error);
    }
    var b := scanned.value;
    var lappers := Lappers(b.trees);
    var total := SumIntervals(lappers);
    if |b.lookup| != b.totalPeaks || total != b.totalPeaks {
      r := Err(CountMismatch(|b.lookup|, b.totalPeaks));
    } else {
      r := Ok(Index(if cfg.group.Some? then b.currentIndex else b.totalPeaks, lappers, b.lookup, b.labels));
    }
  }

  /** The loop of `peak_intervals`: every line in turn, stopping at the first error. */
  method ScanLines(cfg: Config, lines: seq<string>) returns (r: Result<Builder, BuildError>)
    ensures r == Scan(AsWritten, ReadAll(cfg, lines), |lines|)
  {
    r := Ok(Empty);
    var index := 0;
    while index < |lines| && r.Ok?
      invariant index <= |lines|
      invariant r == Scan(AsWritten, ReadAll(cfg, lines), index)
    {
      r := ScanStep(cfg, lines, index, r.value);
      index := index + 1;
    }
    if index < |lines| {
      assert Scan(AsWritten, ReadAll(cfg, lines), index).Err?;
      ScanErrSticky(AsWritten, ReadAll(cfg, lines), index, |lines|);
    } else {
      assert index == |lines|;
    }
  }

  /** One turn of the loop: the line at `index` applied to the builder of the lines before it. */
  method ScanStep(cfg: Config, lines: seq<string>, index: nat, b: Builder) returns (next: Result<Builder, BuildError>)
    requires index < |lines| && Scan(AsWritten, ReadAll(cfg, lines), index) == Ok(b)
    ensures next == Scan(AsWritten, ReadAll(cfg, lines), index + 1)
  {
    ScanLine(cfg, lines, index);
    next := ProcessLine(cfg, b, index, lines[index]);
  }
}
