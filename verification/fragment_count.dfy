/**
 * The counting loop of the matrix engine (`fcount` in src/f2m.rs): reads the
 * fragment file line by line, keeps fragments whose barcode is registered,
 * looks up the features at the fragment's two ends with the cursor-based
 * seek, and adds each feature's weight to the sparse (row, column) counts.
 */
module FragmentCount {
  import opened Wrappers
  import opened Text
  import opened Intervals
  import FeatureIndex

  type Feature = FeatureIndex.Feature
  type Index = FeatureIndex.Index

  /** The variables of the counting loop: counts, current chromosome, its intervals, and the seek cursor. */
  datatype Tally = Tally(counts: seq<map<nat, real>>, chrom: string, lapper: Option<seq<Interval>>, cursor: nat)

  /** How one fragment line is read, before the loop's state is consulted. */
  datatype FragmentLine =
    | HeaderLine                                        // starts with '#'
    | ShortLine                                         // fewer than 4 fields: `fields[3]` panics
    | UnknownBarcode                                    // barcode not in the registry
    | BadCoordinate(chrom: string)                      // start or end unparsable after trimming
    | Fragment(chrom: string, start: nat, end: nat, col: nat)

  /**
   * A chunk returned by `read_line`, less its last character (the newline, or
   * the file's last character when the file does not end with one).
   */
  function ReadFragment(cells: map<string, nat>, chunk: string): FragmentLine
    requires |chunk| > 0
  {
    var line := chunk[..|chunk| - 1];
    if StartsWith(line, '#') then HeaderLine
    else
      var fields := Split(line, '\t');
      if |fields| < 4 then ShortLine
      else if fields[3] !in cells then UnknownBarcode
      else
        var start := ParseU32(Trim(fields[1]));
        var end := ParseU32(Trim(fields[2]));
        if start.None? || end.None? then BadCoordinate(fields[0])
        else Fragment(fields[0], start.value, end.value, cells[fields[3]])
  }

  // ---------------------------------------------------------------------------
  // Sparse counts

  /** The count of one column in a row; an absent entry reads as zero. */
  function Get(m: map<nat, real>, col: nat): real {
    if col in m then m[col] else 0.0
  }

  predicate RowsBelow(fs: seq<Feature>, n: nat) {
    forall i :: 0 <= i < |fs| ==> fs[i].row < n
  }

  /** `*counts[row].entry(col).or_insert(0.0) += weight`. */
  function AddTo(counts: seq<map<nat, real>>, col: nat, f: Feature): seq<map<nat, real>>
    requires f.row < |counts|
  {
    var row: map<nat, real> := counts[f.row][col := Get(counts[f.row], col) + f.weight];
    counts[f.row := row]
  }

  /**
   * The additions of a list of features, in order; `None` when one of them
   * addresses a row past the end of the counts, where indexing panics.
   */
  function AddAll(counts: seq<map<nat, real>>, col: nat, fs: seq<Feature>): (r: Option<seq<map<nat, real>>>)
    ensures r.Some? <==> RowsBelow(fs, |counts|)
    ensures r.Some? ==> |r.value| == |counts|
  {
    if |fs| == 0 then Some(counts)
    else
      var prev := AddAll(counts, col, fs[..|fs| - 1]);
      var f := fs[|fs| - 1];
      assert RowsBelow(fs, |counts|) <==> RowsBelow(fs[..|fs| - 1], |counts|) && f.row < |counts|;
      if prev.None? || f.row >= |prev.value| then None else Some(AddTo(prev.value, col, f))
  }

  /** The total weight a list of features carries to one row. */
  function RowWeight(fs: seq<Feature>, row: nat): real {
    if |fs| == 0 then 0.0
    else RowWeight(fs[..|fs| - 1], row) + (if fs[|fs| - 1].row == row then fs[|fs| - 1].weight else 0.0)
  }

  /** Some feature of the list belongs to the row. */
  predicate Touches(fs: seq<Feature>, row: nat) {
    exists i :: 0 <= i < |fs| && fs[i].row == row
  }

  /**
   * What the additions do to the sparse counts: the entry (row, col) grows by
   * the weight the features carry to that row and exists afterwards exactly
   * when it existed before or a feature touched the row; every other column
   * is untouched.
   */
  lemma {:induction false} AddAllEntry(counts: seq<map<nat, real>>, col: nat, fs: seq<Feature>, row: nat)
    requires RowsBelow(fs, |counts|) && row < |counts|
    ensures Get(AddAll(counts, col, fs).value[row], col) == Get(counts[row], col) + RowWeight(fs, row)
    ensures col in AddAll(counts, col, fs).value[row] <==> col in counts[row] || Touches(fs, row)
    ensures AddAll(counts, col, fs).value[row] - {col} == counts[row] - {col}
  {
    if |fs| > 0 {
      var init := fs[..|fs| - 1];
      AddAllEntry(counts, col, init, row);
      assert Touches(fs, row) <==> Touches(init, row) || fs[|fs| - 1].row == row by {
        if Touches(fs, row) {
          var i :| 0 <= i < |fs| && fs[i].row == row;
          if i < |fs| - 1 {
            assert init[i] == fs[i];
          }
        }
        if Touches(init, row) {
          var i :| 0 <= i < |init| && init[i].row == row;
          assert fs[i] == init[i];
        }
      }
    }
  }

  /**
   * Adding two lists of features one after the other is adding their
   * concatenation; a panic in the first list is a panic of the whole.
   */
  lemma {:induction false} AddAllAppend(counts: seq<map<nat, real>>, col: nat, fs: seq<Feature>, gs: seq<Feature>)
    ensures AddAll(counts, col, fs + gs)
         == match AddAll(counts, col, fs) case None => None case Some(c) => AddAll(c, col, gs)
  {
    if |gs| > 0 {
      var init := gs[..|gs| - 1];
      AddAllAppend(counts, col, fs, init);
      assert (fs + gs)[..|fs + gs| - 1] == fs + init;
      assert (fs + gs)[|fs + gs| - 1] == gs[|gs| - 1];
    } else {
      assert fs + gs == fs;
    }
  }

  // ---------------------------------------------------------------------------
  // Features of the intervals a fragment hits

  /** Every interval's value indexes a lookup table of the given length. */
  predicate ValsIn(ivs: seq<Interval>, n: nat) {
    forall k :: 0 <= k < |ivs| ==> ivs[k].val < n
  }

  /**
   * What every index `peak_intervals` returns satisfies: interval values
   * index the lookup table, and `Lapper::new` has sorted every list. Rows
   * may lie past the row count: the counting then panics.
   */
  ghost predicate IndexOk(index: Index) {
    && FeatureIndex.ValsBelow(index.trees, |index.lookup|)
    && (forall c :: c in index.trees ==> SortedIntervals(index.trees[c]))
  }

  predicate Positions(ivs: seq<Interval>, adds: seq<nat>) {
    forall i :: 0 <= i < |adds| ==> adds[i] < |ivs|
  }

  /** `peak_vec[interval.val]` for each listed interval position. */
  function FeaturesOf(ivs: seq<Interval>, lookup: seq<Feature>, adds: seq<nat>): (fs: seq<Feature>)
    requires ValsIn(ivs, |lookup|) && Positions(ivs, adds)
    ensures |fs| == |adds|
    ensures forall i :: 0 <= i < |adds| ==> fs[i] == lookup[ivs[adds[i]].val]
    ensures forall n: nat :: RowsBelow(lookup, n) ==> RowsBelow(fs, n)
  {
    seq(|adds|, i requires 0 <= i < |adds| => lookup[ivs[adds[i]].val])
  }

  lemma FeaturesOfAppend(ivs: seq<Interval>, lookup: seq<Feature>, a: seq<nat>, b: seq<nat>)
    requires ValsIn(ivs, |lookup|) && Positions(ivs, a) && Positions(ivs, b)
    ensures Positions(ivs, a + b)
    ensures FeaturesOf(ivs, lookup, a + b) == FeaturesOf(ivs, lookup, a) + FeaturesOf(ivs, lookup, b)
  {
    assert Positions(ivs, a + b) by {
      forall i | 0 <= i < |a + b| ensures (a + b)[i] < |ivs| {
        if i >= |a| { assert (a + b)[i] == b[i - |a|]; }
      }
    }
  }

  /**
   * The inner loop over the hits at the fragment's start: each hit adds its
   * feature once, and once more when the fragment ends inside the same
   * interval, which also rules out the query at the end. A feature whose row
   * is past the end panics.
   */
  method AddStartHits(lookup: seq<Feature>, ivs: seq<Interval>, counts: seq<map<nat, real>>, col: nat, hits: seq<nat>, end: nat)
    returns (out: Option<seq<map<nat, real>>>, checkEnd: bool)
    requires ValsIn(ivs, |lookup|) && Positions(ivs, hits)
    ensures Positions(ivs, StartAdditions(ivs, hits, end))
    ensures out == AddAll(counts, col, FeaturesOf(ivs, lookup, StartAdditions(ivs, hits, end)))
    ensures out.Some? ==> checkEnd == !EndCovered(ivs, hits, end)
  {
    var c := counts;
    checkEnd := true;
    var i := 0;
    while i < |hits|
      invariant i <= |hits|
      invariant StartTally(lookup, ivs, counts, col, hits, end, i, c, checkEnd)
    {
      var panics;
      panics, c, checkEnd := AddStartHit(lookup, ivs, counts, col, hits, end, i, c, checkEnd);
      if panics {
        StartPanic(lookup, ivs, counts, col, hits, i, end);
        return None, checkEnd;
      }
      i := i + 1;
    }
    assert hits[..i] == hits;
    return Some(c), checkEnd;
  }

  /** The counts and the end-query flag after the first i start hits. */
  predicate StartTally(lookup: seq<Feature>, ivs: seq<Interval>, counts: seq<map<nat, real>>, col: nat, hits: seq<nat>,
                       end: nat, i: nat, out: seq<map<nat, real>>, checkEnd: bool)
    requires ValsIn(ivs, |lookup|) && Positions(ivs, hits) && i <= |hits|
  {
    && AddAll(counts, col, FeaturesOf(ivs, lookup, StartAdditions(ivs, hits[..i], end))) == Some(out)
    && checkEnd == !EndCovered(ivs, hits[..i], end)
  }

  /** One pass of the loop over the start hits; `panics` when the hit's row is past the end. */
  method AddStartHit(lookup: seq<Feature>, ivs: seq<Interval>, counts: seq<map<nat, real>>, col: nat, hits: seq<nat>,
                     end: nat, i: nat, out: seq<map<nat, real>>, checkEnd: bool)
    returns (panics: bool, out': seq<map<nat, real>>, checkEnd': bool)
    requires ValsIn(ivs, |lookup|) && Positions(ivs, hits) && i < |hits|
    requires StartTally(lookup, ivs, counts, col, hits, end, i, out, checkEnd)
    ensures panics ==> AddAll(counts, col, FeaturesOf(ivs, lookup, StartAdditions(ivs, hits[..i + 1], end))).None?
    ensures !panics ==> StartTally(lookup, ivs, counts, col, hits, end, i + 1, out', checkEnd')
  {
    var k := hits[i];
    var f := lookup[ivs[k].val];
    ghost var adds := StartAdditions(ivs, hits[..i], end);
    assert hits[..i + 1] == hits[..i] + [k];
    StartAdditionsSnoc(ivs, hits[..i], k, end);
    EndCoveredSnoc(ivs, hits[..i], k, end);
    AddOne(lookup, ivs, counts, col, adds, k);
    if f.row >= |out| {
      if end < ivs[k].stop {
        AddOne(lookup, ivs, counts, col, adds + [k], k);
        assert adds + [k] + [k] == adds + [k, k];
      }
      return true, out, checkEnd;
    }
    out' := AddTo(out, col, f);
    checkEnd' := checkEnd;
    if end < ivs[k].stop {
      checkEnd' := false;
      AddOne(lookup, ivs, counts, col, adds + [k], k);
      assert adds + [k] + [k] == adds + [k, k];
      out' := AddTo(out', col, f);
    }
    panics := false;
  }

  /** One more position adds its feature to the counts, or panics when its row is past the end. */
  lemma AddOne(lookup: seq<Feature>, ivs: seq<Interval>, counts: seq<map<nat, real>>, col: nat, adds: seq<nat>, k: nat)
    requires ValsIn(ivs, |lookup|) && Positions(ivs, adds) && k < |ivs|
    ensures Positions(ivs, adds + [k])
    ensures var f := lookup[ivs[k].val];
      AddAll(counts, col, FeaturesOf(ivs, lookup, adds + [k]))
      == match AddAll(counts, col, FeaturesOf(ivs, lookup, adds))
         case None => None
         case Some(c) => if f.row >= |c| then None else Some(AddTo(c, col, f))
  {
    FeaturesOfAppend(ivs, lookup, adds, [k]);
    var fs := FeaturesOf(ivs, lookup, adds + [k]);
    assert fs[..|fs| - 1] == FeaturesOf(ivs, lookup, adds);
  }

  /** A start hit whose row is past the end makes the whole fragment panic. */
  lemma StartPanic(lookup: seq<Feature>, ivs: seq<Interval>, counts: seq<map<nat, real>>, col: nat, hits: seq<nat>,
                   i: nat, end: nat)
    requires ValsIn(ivs, |lookup|) && Positions(ivs, hits) && i < |hits|
    requires AddAll(counts, col, FeaturesOf(ivs, lookup, StartAdditions(ivs, hits[..i + 1], end))).None?
    ensures AddAll(counts, col, FeaturesOf(ivs, lookup, StartAdditions(ivs, hits, end))).None?
  {
    var a := StartAdditions(ivs, hits[..i + 1], end);
    var b := StartAdditions(ivs, hits[i + 1..], end);
    StartAdditionsAppend(ivs, hits[..i + 1], hits[i + 1..], end);
    assert hits[..i + 1] + hits[i + 1..] == hits;
    FeaturesOfAppend(ivs, lookup, a, b);
    AddAllAppend(counts, col, FeaturesOf(ivs, lookup, a), FeaturesOf(ivs, lookup, b));
  }

  /** The inner loop over the hits at the fragment's end: each adds its feature once, or panics. */
  method AddHits(lookup: seq<Feature>, ivs: seq<Interval>, counts: seq<map<nat, real>>, col: nat, hits: seq<nat>)
    returns (out: Option<seq<map<nat, real>>>)
    requires ValsIn(ivs, |lookup|) && Positions(ivs, hits)
    ensures out == AddAll(counts, col, FeaturesOf(ivs, lookup, hits))
  {
    var c := counts;
    var j := 0;
    while j < |hits|
      invariant j <= |hits|
      invariant AddAll(counts, col, FeaturesOf(ivs, lookup, hits[..j])) == Some(c)
    {
      var k := hits[j];
      var f := lookup[ivs[k].val];
      assert hits[..j + 1] == hits[..j] + [k];
      AddOne(lookup, ivs, counts, col, hits[..j], k);
      if f.row >= |c| {
        EndPanic(lookup, ivs, counts, col, hits, j);
        return None;
      }
      c := AddTo(c, col, f);
      j := j + 1;
    }
    assert hits[..j] == hits;
    return Some(c);
  }

  /** An end hit whose row is past the end makes the whole list panic. */
  lemma EndPanic(lookup: seq<Feature>, ivs: seq<Interval>, counts: seq<map<nat, real>>, col: nat, hits: seq<nat>, j: nat)
    requires ValsIn(ivs, |lookup|) && Positions(ivs, hits) && j < |hits|
    requires Positions(ivs, hits[..j + 1]) && AddAll(counts, col, FeaturesOf(ivs, lookup, hits[..j + 1])).None?
    ensures AddAll(counts, col, FeaturesOf(ivs, lookup, hits)).None?
  {
    assert hits[..j + 1] + hits[j + 1..] == hits;
    var rest := hits[j + 1..];
    assert Positions(ivs, rest) by {
      forall i | 0 <= i < |rest| ensures rest[i] < |ivs| {
        assert rest[i] == hits[j + 1 + i];
      }
    }
    FeaturesOfAppend(ivs, lookup, hits[..j + 1], hits[j + 1..]);
    AddAllAppend(counts, col, FeaturesOf(ivs, lookup, hits[..j + 1]), FeaturesOf(ivs, lookup, hits[j + 1..]));
  }

  // ---------------------------------------------------------------------------
  // The loop body

  /** The loop's state is consistent with the index. */
  ghost predicate TallyOk(index: Index, t: Tally) {
    && |t.counts| == index.nrows
    && (t.lapper.Some? ==>
          t.chrom in index.trees && t.lapper.value == index.trees[t.chrom] && t.cursor <= |t.lapper.value|)
  }

  /** A new chromosome name takes its intervals, if any, and resets the cursor. */
  function SwitchTo(index: Index, t: Tally, chrom: string): Tally {
    if chrom == t.chrom then t
    else t.(chrom := chrom, lapper := if chrom in index.trees then Some(index.trees[chrom]) else None, cursor := 0)
  }

  /**
   * The counting of one fragment against the current chromosome's intervals;
   * `None` when a feature it adds to lies in a row past the end. With every
   * row below the row count it never panics.
   */
  function Hit(index: Index, t: Tally, start: nat, end: nat, col: nat): (r: Option<Tally>)
    requires IndexOk(index) && TallyOk(index, t) && t.lapper.Some?
    ensures r.Some? ==> TallyOk(index, r.value)
    ensures RowsBelow(index.lookup, index.nrows) ==> r.Some?
  {
    var ivs := t.lapper.value;
    var cursor := if |ivs| == 1 then 0 else t.cursor;
    var sk := SeekAdditions(ivs, start, end, cursor);
    match AddAll(t.counts, col, FeaturesOf(ivs, index.lookup, sk.hits))
    case None => None
    case Some(counts) => Some(t.(counts := counts, cursor := sk.cursor))
  }

  /**
   * One pass of the loop body; `None` when the program panics: on a line
   * too short to hold a barcode, or on an addition to a row past the end.
   */
  function Consume(index: Index, t: Tally, line: FragmentLine): (r: Option<Tally>)
    requires IndexOk(index) && TallyOk(index, t)
    ensures r.Some? ==> TallyOk(index, r.value)
    ensures RowsBelow(index.lookup, index.nrows) ==> (r.None? <==> line.ShortLine?)
  {
    match line
    case HeaderLine => Some(t)
    case ShortLine => None
    case UnknownBarcode => Some(t)
    case BadCoordinate(chrom) => Some(SwitchTo(index, t, chrom))
    case Fragment(chrom, start, end, col) =>
      var s := SwitchTo(index, t, chrom);
      if s.lapper.None? then Some(s) else Hit(index, s, start, end, col)
  }

  /** The seek at both ends of one fragment and the additions it makes. */
  method CountHits(index: Index, t: Tally, start: nat, end: nat, col: nat) returns (r: Option<Tally>)
    requires IndexOk(index) && TallyOk(index, t) && t.lapper.Some?
    ensures r == Hit(index, t, start, end, col)
  {
    var ivs := t.lapper.value;
    var cursor := t.cursor;
    if |ivs| == 1 {
      cursor := 0;
    }
    ghost var sk := SeekAdditions(ivs, start, end, cursor);
    var first := Seek(ivs, start, cursor);
    var counts, checkEnd := AddStartHits(index.lookup, ivs, t.counts, col, first.hits, end);
    ghost var adds := StartAdditions(ivs, first.hits, end);
    if counts.None? {
      if !EndCovered(ivs, first.hits, end) {
        var second := Seek(ivs, end, first.cursor);
        assert sk.hits == adds + second.hits;
        PanicBeforeEnd(index.lookup, ivs, t.counts, col, adds, second.hits);
      }
      return None;
    }
    cursor := first.cursor;
    if checkEnd {
      var second := Seek(ivs, end, cursor);
      assert sk.hits == adds + second.hits;
      FeaturesOfAppend(ivs, index.lookup, adds, second.hits);
      AddAllAppend(t.counts, col, FeaturesOf(ivs, index.lookup, adds), FeaturesOf(ivs, index.lookup, second.hits));
      counts := AddHits(index.lookup, ivs, counts.value, col, second.hits);
      if counts.None? {
        return None;
      }
      cursor := second.cursor;
    } else {
      assert sk.hits == adds;
    }
    assert sk.cursor == cursor;
    return Some(t.(counts := counts.value, cursor := cursor));
  }

  /** Once the additions at the start panic, those at the end change nothing. */
  lemma PanicBeforeEnd(lookup: seq<Feature>, ivs: seq<Interval>, counts: seq<map<nat, real>>, col: nat, adds: seq<nat>, more: seq<nat>)
    requires ValsIn(ivs, |lookup|) && Positions(ivs, adds) && Positions(ivs, more)
    requires AddAll(counts, col, FeaturesOf(ivs, lookup, adds)).None?
    ensures Positions(ivs, adds + more) && AddAll(counts, col, FeaturesOf(ivs, lookup, adds + more)).None?
  {
    FeaturesOfAppend(ivs, lookup, adds, more);
    AddAllAppend(counts, col, FeaturesOf(ivs, lookup, adds), FeaturesOf(ivs, lookup, more));
  }

  /**
   * The loop body: returns the state after one chunk of the fragment file,
   * or `None` when the program panics on it.
   */
  method CountFragment(index: Index, cells: map<string, nat>, t: Tally, chunk: string) returns (r: Option<Tally>)
    requires IndexOk(index) && TallyOk(index, t) && |chunk| > 0
    ensures r == Consume(index, t, ReadFragment(cells, chunk))
  {
    ghost var read := ReadFragment(cells, chunk);
    var line := chunk[..|chunk| - 1];
    if StartsWith(line, '#') {
      assert read == HeaderLine;
      return Some(t);
    }
    var fields := Split(line, '\t');
    if |fields| < 4 {
      assert read == ShortLine;
      return None;
    }
    var barcode := fields[3];
    if barcode !in cells {
      assert read == UnknownBarcode;
      return Some(t);
    }
    var s := SwitchTo(index, t, fields[0]);
    var start := ParseU32(Trim(fields[1]));
    var end := ParseU32(Trim(fields[2]));
    if start.None? || end.None? {
      assert read == BadCoordinate(fields[0]);
      return Some(s);
    }
    assert read == Fragment(fields[0], start.value, end.value, cells[barcode]);
    r := CountParsed(index, t, s, fields[0], start.value, end.value, cells[barcode]);
  }

  /** The loop body once the fragment is parsed and the chromosome switched to. */
  method CountParsed(index: Index, t: Tally, s: Tally, chrom: string, start: nat, end: nat, col: nat) returns (r: Option<Tally>)
    requires IndexOk(index) && TallyOk(index, t) && s == SwitchTo(index, t, chrom)
    ensures r == Consume(index, t, Fragment(chrom, start, end, col))
  {
    if s.lapper.None? {
      return Some(s);
    }
    r := CountHits(index, s, start, end, col);
  }

  // ---------------------------------------------------------------------------
  // The whole fragment file

  predicate NonEmptyChunks(chunks: seq<string>) {
    forall i :: 0 <= i < |chunks| ==> |chunks[i]| > 0
  }

  /** Before the first line: one empty sparse row per feature row, no chromosome, cursor at zero. */
  function Initial(index: Index): (t: Tally)
    ensures |t.counts| == index.nrows && forall r :: 0 <= r < |t.counts| ==> t.counts[r] == map[]
    ensures t.lapper.None?
  {
    Tally(seq(index.nrows, _ => map[]), "", None, 0)
  }

  /** The loop's state after the first n chunks; `None` once it has panicked. */
  function Run(index: Index, cells: map<string, nat>, chunks: seq<string>, n: nat): (r: Option<Tally>)
    requires IndexOk(index) && NonEmptyChunks(chunks) && n <= |chunks|
    ensures r.Some? ==> TallyOk(index, r.value)
  {
    if n == 0 then Some(Initial(index))
    else
      match Run(index, cells, chunks, n - 1)
      case None => None
      case Some(t) => Consume(index, t, ReadFragment(cells, chunks[n - 1]))
  }

  /**
   * `fcount`'s loop over the fragment file: the counts it leaves behind, or
   * `None` when it panicked: on a line that is neither a comment nor long
   * enough to hold a barcode, or on a feature whose row is past the counts.
   */
  method CountFragments(index: Index, cells: map<string, nat>, text: string) returns (r: Option<seq<map<nat, real>>>)
    requires IndexOk(index)
    ensures var chunks := ReadLines(text);
      && (r.None? <==> Run(index, cells, chunks, |chunks|).None?)
      && (r.Some? ==> r.value == Run(index, cells, chunks, |chunks|).value.counts)
  {
    var chunks := ReadLines(text);
    var state := Some(Initial(index));
    var i := 0;
    while i < |chunks| && state.Some?
      invariant i <= |chunks|
      invariant state == Run(index, cells, chunks, i)
    {
      state := CountStep(index, cells, chunks, i, state.value);
      i := i + 1;
    }
    if state.None? {
      RunPanicSticky(index, cells, chunks, i, |chunks|);
      return None;
    }
    assert i == |chunks|;
    return Some(state.value.counts);
  }

  /** One turn of the loop: the chunk at i consumed by the tally of the chunks before it. */
  method CountStep(index: Index, cells: map<string, nat>, chunks: seq<string>, i: nat, t: Tally) returns (next: Option<Tally>)
    requires IndexOk(index) && NonEmptyChunks(chunks) && i < |chunks|
    requires Run(index, cells, chunks, i) == Some(t)
    ensures next == Run(index, cells, chunks, i + 1)
  {
    next := CountFragment(index, cells, t, chunks[i]);
  }

  /** A panic ends the run: every later state is a panic too. */
  lemma {:induction false} RunPanicSticky(index: Index, cells: map<string, nat>, chunks: seq<string>, n: nat, m: nat)
    requires IndexOk(index) && NonEmptyChunks(chunks) && n <= m <= |chunks|
    requires Run(index, cells, chunks, n).None?
    ensures Run(index, cells, chunks, m).None?
    decreases m - n
  {
    if n < m {
      RunPanicSticky(index, cells, chunks, n + 1, m);
    }
  }

  /**
   * A line too short to hold a barcode always makes the run panic; when
   * every feature's row is below the row count, nothing else does.
   */
  lemma {:induction false} RunPanicsIffShortLine(index: Index, cells: map<string, nat>, chunks: seq<string>, n: nat)
    requires IndexOk(index) && NonEmptyChunks(chunks) && n <= |chunks|
    ensures (exists i :: 0 <= i < n && ReadFragment(cells, chunks[i]).ShortLine?) ==> Run(index, cells, chunks, n).None?
    ensures RowsBelow(index.lookup, index.nrows) ==>
              (Run(index, cells, chunks, n).None? <==> exists i :: 0 <= i < n && ReadFragment(cells, chunks[i]).ShortLine?)
  {
    if n > 0 {
      RunPanicsIffShortLine(index, cells, chunks, n - 1);
      if ReadFragment(cells, chunks[n - 1]).ShortLine? && Run(index, cells, chunks, n - 1).Some? {
        assert Run(index, cells, chunks, n).None?;
      }
      if exists i :: 0 <= i < n && ReadFragment(cells, chunks[i]).ShortLine? {
        var i :| 0 <= i < n && ReadFragment(cells, chunks[i]).ShortLine?;
        if i < n - 1 {
          assert Run(index, cells, chunks, n - 1).None?;
        }
      }
    }
  }

  /**
   * The index the as-written region reader builds when the first region line
   * is malformed (`FeatureIndex.UngroupedRowPastEnd`) has one row of counts
   * but numbers its only feature 1: the first fragment touching that feature
   * makes the counting panic.
   */
  lemma RowPastEndPanics()
    ensures var index := FeatureIndex.Index(1, map["chr1" := [Interval(0, 10, 0)]], [FeatureIndex.Feature(1, 1.0)], [FeatureIndex.Label("chr1", 0, 10)]);
      && IndexOk(index)
      && Run(index, map["AAA" := 0], ["chr1\t5\t6\tAAA\n"], 1).None?
  {
    var index := FeatureIndex.Index(1, map["chr1" := [Interval(0, 10, 0)]], [FeatureIndex.Feature(1, 1.0)], [FeatureIndex.Label("chr1", 0, 10)]);
    var cells := map["AAA" := 0];
    var chunk := "chr1\t5\t6\tAAA\n";
    FragmentOfChunk(cells, chunk);
    FirstFragmentPanics(index);
  }

  /** Both ends of the fragment from 5 to 6 fall in the feature in row 1, past the single row of counts. */
  lemma FirstFragmentPanics(index: Index)
    requires index == FeatureIndex.Index(1, map["chr1" := [Interval(0, 10, 0)]], [FeatureIndex.Feature(1, 1.0)], [FeatureIndex.Label("chr1", 0, 10)])
    ensures IndexOk(index) && Consume(index, Initial(index), Fragment("chr1", 5, 6, 0)).None?
  {
    var s := SwitchTo(index, Initial(index), "chr1");
    var ivs := [Interval(0, 10, 0)];
    assert s.lapper == Some(ivs);
    assert SeekAdditions(ivs, 5, 6, 0).hits == [0, 0] by {
      assert Seek(ivs, 5, 0).hits == [0];
    }
    var fs := FeaturesOf(ivs, index.lookup, [0, 0]);
    assert fs[0].row == 1;
  }

  /** The fragment line of the panic example reads as a fragment of chromosome chr1 from 5 to 6. */
  lemma FragmentOfChunk(cells: map<string, nat>, chunk: string)
    requires cells == map["AAA" := 0] && chunk == "chr1\t5\t6\tAAA\n"
    ensures ReadFragment(cells, chunk) == Fragment("chr1", 5, 6, 0)
  {
    var fields := ["chr1", "5", "6", "AAA"];
    assert chunk[..|chunk| - 1] == Join(fields, '\t');
    SplitJoin(fields, '\t');
    TrimDigits("5");
    TrimDigits("6");
    assert DigitsValue("5") == 5 && DigitsValue("6") == 6;
  }

  /** Every count sits in the column of a registered barcode. */
  predicate InColumns(counts: seq<map<nat, real>>, cols: set<nat>) {
    forall r, c :: 0 <= r < |counts| && c in counts[r] ==> c in cols
  }

  /** A fragment line names the column of its barcode. */
  lemma ReadFragmentColumn(cells: map<string, nat>, chunk: string)
    requires |chunk| > 0
    ensures ReadFragment(cells, chunk).Fragment? ==> ReadFragment(cells, chunk).col in cells.Values
  {
    var line := chunk[..|chunk| - 1];
    var fields := Split(line, '\t');
    if ReadFragment(cells, chunk).Fragment? {
      assert fields[3] in cells;
    }
  }

  /**
   * Only a fragment whose chromosome has features changes the counts, and
   * only in its own column: every other column of every row is unchanged.
   */
  lemma ConsumeFrame(index: Index, t: Tally, line: FragmentLine)
    requires IndexOk(index) && TallyOk(index, t) && Consume(index, t, line).Some?
    ensures var u := Consume(index, t, line).value;
      && (!(line.Fragment? && line.chrom in index.trees) ==> u.counts == t.counts)
      && (line.Fragment? ==> forall r :: 0 <= r < |t.counts| ==> u.counts[r] - {line.col} == t.counts[r] - {line.col})
      && (line.Fragment? ==> forall r :: 0 <= r < |t.counts| ==> line.col in t.counts[r] ==> line.col in u.counts[r])
  {
    if line.Fragment? {
      var s := SwitchTo(index, t, line.chrom);
      if s.lapper.Some? {
        var ivs := s.lapper.value;
        var cursor := if |ivs| == 1 then 0 else s.cursor;
        var sk := SeekAdditions(ivs, line.start, line.end, cursor);
        forall r | 0 <= r < |t.counts|
          ensures Hit(index, s, line.start, line.end, line.col).value.counts[r] - {line.col} == t.counts[r] - {line.col}
          ensures line.col in t.counts[r] ==> line.col in Hit(index, s, line.start, line.end, line.col).value.counts[r]
        {
          AddAllEntry(s.counts, line.col, FeaturesOf(ivs, index.lookup, sk.hits), r);
        }
      }
    }
  }

  /** The counts of a run only ever use registered columns. */
  lemma {:induction false} RunColumns(index: Index, cells: map<string, nat>, chunks: seq<string>, n: nat)
    requires IndexOk(index) && NonEmptyChunks(chunks) && n <= |chunks|
    requires Run(index, cells, chunks, n).Some?
    ensures InColumns(Run(index, cells, chunks, n).value.counts, cells.Values)
  {
    if n > 0 {
      RunColumns(index, cells, chunks, n - 1);
      var t := Run(index, cells, chunks, n - 1).value;
      var line := ReadFragment(cells, chunks[n - 1]);
      ReadFragmentColumn(cells, chunks[n - 1]);
      ConsumeFrame(index, t, line);
      var u := Run(index, cells, chunks, n).value;
      forall r, c | 0 <= r < |u.counts| && c in u.counts[r]
        ensures c in cells.Values
      {
        if line.Fragment? && c != line.col {
          assert c in u.counts[r] - {line.col};
        }
      }
    }
  }

  // ---------------------------------------------------------------------------
  // The exact counting rule

  /** The total weight the features of `row` carry from the intervals at positions lo.. that contain q. */
  function PointWeight(ivs: seq<Interval>, lookup: seq<Feature>, q: nat, row: nat, lo: nat): real
    requires ValsIn(ivs, |lookup|) && lo <= |ivs|
    decreases |ivs| - lo
  {
    if lo == |ivs| then 0.0
    else
      var f := lookup[ivs[lo].val];
      (if Contains(ivs[lo], q) && f.row == row then f.weight else 0.0) + PointWeight(ivs, lookup, q, row, lo + 1)
  }

  lemma {:induction false} RowWeightAppend(fs: seq<Feature>, gs: seq<Feature>, row: nat)
    ensures RowWeight(fs + gs, row) == RowWeight(fs, row) + RowWeight(gs, row)
  {
    if |gs| > 0 {
      RowWeightAppend(fs, gs[..|gs| - 1], row);
      assert (fs + gs)[..|fs + gs| - 1] == fs + gs[..|gs| - 1];
      assert (fs + gs)[|fs + gs| - 1] == gs[|gs| - 1];
    } else {
      assert fs + gs == fs;
    }
  }

  /** A point query carries to each row the weight of the features containing the point. */
  lemma {:induction false} PointHitsWeight(ivs: seq<Interval>, lookup: seq<Feature>, q: nat, row: nat, lo: nat)
    requires ValsIn(ivs, |lookup|) && lo <= |ivs|
    ensures RowWeight(FeaturesOf(ivs, lookup, OverlapsFrom(ivs, q, q + 1, lo)), row) == PointWeight(ivs, lookup, q, row, lo)
    decreases |ivs| - lo
  {
    if lo < |ivs| {
      var f := lookup[ivs[lo].val];
      var c := if Contains(ivs[lo], q) && f.row == row then f.weight else 0.0;
      PointHitsWeight(ivs, lookup, q, row, lo + 1);
      PointHitsStep(ivs, lookup, q, row, lo);
      assert PointWeight(ivs, lookup, q, row, lo) == c + PointWeight(ivs, lookup, q, row, lo + 1);
    } else {
      assert OverlapsFrom(ivs, q, q + 1, lo) == [];
      assert |FeaturesOf(ivs, lookup, [])| == 0;
    }
  }

  /** The point query from lo is the one from lo + 1, with lo in front when its interval contains q. */
  lemma PointHitsStep(ivs: seq<Interval>, lookup: seq<Feature>, q: nat, row: nat, lo: nat)
    requires ValsIn(ivs, |lookup|) && lo < |ivs|
    ensures var f := lookup[ivs[lo].val];
      RowWeight(FeaturesOf(ivs, lookup, OverlapsFrom(ivs, q, q + 1, lo)), row)
      == (if Contains(ivs[lo], q) && f.row == row then f.weight else 0.0)
         + RowWeight(FeaturesOf(ivs, lookup, OverlapsFrom(ivs, q, q + 1, lo + 1)), row)
  {
    var tail := OverlapsFrom(ivs, q, q + 1, lo + 1);
    PointOverlap(ivs[lo], q);
    if Contains(ivs[lo], q) {
      assert OverlapsFrom(ivs, q, q + 1, lo) == [lo] + tail;
      WeightOfFirst(ivs, lookup, lo, tail, row);
    } else {
      assert OverlapsFrom(ivs, q, q + 1, lo) == tail;
    }
  }

  /** The weight of a list of positions is that of its first plus that of the rest. */
  lemma WeightOfFirst(ivs: seq<Interval>, lookup: seq<Feature>, k: nat, tail: seq<nat>, row: nat)
    requires ValsIn(ivs, |lookup|) && k < |ivs| && Positions(ivs, tail)
    ensures Positions(ivs, [k] + tail)
    ensures var f := lookup[ivs[k].val];
      RowWeight(FeaturesOf(ivs, lookup, [k] + tail), row)
      == (if f.row == row then f.weight else 0.0) + RowWeight(FeaturesOf(ivs, lookup, tail), row)
  {
    var f := lookup[ivs[k].val];
    FeaturesOfAppend(ivs, lookup, [k], tail);
    assert FeaturesOf(ivs, lookup, [k]) == [f];
    RowWeightAppend([f], FeaturesOf(ivs, lookup, tail), row);
    assert [f][..0] == [];
  }

  /**
   * The exact counting rule: on a chromosome whose intervals are non-empty
   * and share no position, a fragment with start <= end panics exactly when a
   * feature whose interval contains its start or its end lies in a row past
   * the counts. Otherwise it raises the count of (row, col) by the weight of
   * every feature of that row whose interval contains the fragment's start,
   * plus every one whose interval contains its end, whatever fragments came
   * before, as long as they left the cursor short of the end
   * (`HitStuck` covers the other case); no other column changes.
   */
  lemma HitCountsEndpoints(index: Index, t: Tally, start: nat, end: nat, col: nat, row: nat)
    requires IndexOk(index) && TallyOk(index, t) && t.lapper.Some? && !Stuck(t)
    requires NonOverlapping(t.lapper.value) && NonEmpty(t.lapper.value)
    requires start <= end && row < index.nrows
    ensures var ivs := t.lapper.value; var u := Hit(index, t, start, end, col);
      && ValsIn(ivs, |index.lookup|)
      && (u.None? <==> exists k :: 0 <= k < |ivs| && (Contains(ivs[k], start) || Contains(ivs[k], end))
                                   && index.lookup[ivs[k].val].row >= index.nrows)
      && (u.Some? ==>
            && Get(u.value.counts[row], col)
               == Get(t.counts[row], col) + PointWeight(ivs, index.lookup, start, row, 0) + PointWeight(ivs, index.lookup, end, row, 0)
            && u.value.counts[row] - {col} == t.counts[row] - {col})
  {
    var ivs := t.lapper.value;
    var hs := PointHits(ivs, start);
    var he := PointHits(ivs, end);
    HitIsPointQueries(index, t, start, end, col);
    EndpointPanic(index, ivs, start, end, hs, he);
    if RowsBelow(FeaturesOf(ivs, index.lookup, hs + he), index.nrows) {
      EndpointWeights(ivs, index.lookup, t.counts, col, start, end, row);
    }
  }

  /**
   * On non-empty intervals sharing no position, one fragment whose cursor is
   * short of the end adds the features of its two point queries.
   */
  lemma HitIsPointQueries(index: Index, t: Tally, start: nat, end: nat, col: nat)
    requires IndexOk(index) && TallyOk(index, t) && t.lapper.Some? && !Stuck(t)
    requires NonOverlapping(t.lapper.value) && NonEmpty(t.lapper.value) && start <= end
    ensures var ivs := t.lapper.value; var adds := PointHits(ivs, start) + PointHits(ivs, end);
      && ValsIn(ivs, |index.lookup|) && Positions(ivs, adds)
      && (Hit(index, t, start, end, col).None? <==> AddAll(t.counts, col, FeaturesOf(ivs, index.lookup, adds)).None?)
      && (Hit(index, t, start, end, col).Some? ==>
            Hit(index, t, start, end, col).value.counts == AddAll(t.counts, col, FeaturesOf(ivs, index.lookup, adds)).value)
  {
    var ivs := t.lapper.value;
    var cursor := if |ivs| == 1 then 0 else t.cursor;
    SortedOrdered(ivs);
    SeekAdditionsOrdered(ivs, start, end, cursor);
    OrderedNonOverlapping(ivs);
    AdditionsAreEndpointHits(ivs, start, end);
    FeaturesOfAppend(ivs, index.lookup, PointHits(ivs, start), PointHits(ivs, end));
  }

  /**
   * The cursor of a chromosome with more than one interval has passed the
   * last one. The reset at src/f2m.rs:205-207 covers only one-interval
   * chromosomes, so only a line naming another chromosome clears it.
   */
  predicate Stuck(t: Tally) {
    t.lapper.Some? && |t.lapper.value| > 1 && t.cursor == |t.lapper.value|
  }

  /** With a stuck cursor a fragment adds nothing, panics never, and leaves the cursor stuck. */
  lemma HitStuck(index: Index, t: Tally, start: nat, end: nat, col: nat)
    requires IndexOk(index) && TallyOk(index, t) && Stuck(t)
    ensures Hit(index, t, start, end, col) == Some(t)
  {
    var ivs := t.lapper.value;
    assert SeekAdditions(ivs, start, end, t.cursor).hits == [];
    assert FeaturesOf(ivs, index.lookup, []) == [];
  }

  /**
   * Once the cursor is stuck, every later line on the same chromosome leaves
   * the loop state as it was: the rest of that chromosome's fragments go
   * uncounted.
   */
  lemma ConsumeStuck(index: Index, t: Tally, line: FragmentLine)
    requires IndexOk(index) && TallyOk(index, t) && Stuck(t) && !line.ShortLine?
    requires (line.Fragment? || line.BadCoordinate?) ==> line.chrom == t.chrom
    ensures Consume(index, t, line) == Some(t)
  {
    if line.Fragment? {
      HitStuck(index, t, line.start, line.end, line.col);
    }
  }

  /**
   * A fragment with start <= end leaves the cursor stuck only when every
   * interval of its chromosome ends at or before the fragment's end.
   */
  lemma HitSticks(index: Index, t: Tally, start: nat, end: nat, col: nat)
    requires IndexOk(index) && TallyOk(index, t) && t.lapper.Some? && !Stuck(t) && start <= end
    requires Hit(index, t, start, end, col).Some? && Stuck(Hit(index, t, start, end, col).value)
    ensures forall k :: 0 <= k < |t.lapper.value| ==> t.lapper.value[k].stop <= end
  {
    var ivs := t.lapper.value;
    var cursor := if |ivs| == 1 then 0 else t.cursor;
    SeekAdditionsReachesEnd(ivs, start, end, cursor);
  }

  /** Adding the features of both point queries raises (row, col) by their weights in that row. */
  lemma EndpointWeights(ivs: seq<Interval>, lookup: seq<Feature>, counts: seq<map<nat, real>>, col: nat, start: nat, end: nat, row: nat)
    requires ValsIn(ivs, |lookup|) && Positions(ivs, PointHits(ivs, start) + PointHits(ivs, end))
    requires RowsBelow(FeaturesOf(ivs, lookup, PointHits(ivs, start) + PointHits(ivs, end)), |counts|) && row < |counts|
    ensures var r := AddAll(counts, col, FeaturesOf(ivs, lookup, PointHits(ivs, start) + PointHits(ivs, end))).value;
      && Get(r[row], col) == Get(counts[row], col) + PointWeight(ivs, lookup, start, row, 0) + PointWeight(ivs, lookup, end, row, 0)
      && r[row] - {col} == counts[row] - {col}
  {
    var hs := PointHits(ivs, start);
    var he := PointHits(ivs, end);
    FeaturesOfAppend(ivs, lookup, hs, he);
    RowWeightAppend(FeaturesOf(ivs, lookup, hs), FeaturesOf(ivs, lookup, he), row);
    PointHitsWeight(ivs, lookup, start, row, 0);
    PointHitsWeight(ivs, lookup, end, row, 0);
    AddAllEntry(counts, col, FeaturesOf(ivs, lookup, hs + he), row);
  }

  /** The features of both point queries lie in rows below n unless one containing an endpoint does not. */
  lemma EndpointPanic(index: Index, ivs: seq<Interval>, start: nat, end: nat, hs: seq<nat>, he: seq<nat>)
    requires ValsIn(ivs, |index.lookup|) && hs == PointHits(ivs, start) && he == PointHits(ivs, end)
    requires Positions(ivs, hs + he)
    ensures !RowsBelow(FeaturesOf(ivs, index.lookup, hs + he), index.nrows)
            <==> exists k :: 0 <= k < |ivs| && (Contains(ivs[k], start) || Contains(ivs[k], end))
                             && index.lookup[ivs[k].val].row >= index.nrows
  {
    var fs := FeaturesOf(ivs, index.lookup, hs + he);
    if exists k :: 0 <= k < |ivs| && (Contains(ivs[k], start) || Contains(ivs[k], end))
                   && index.lookup[ivs[k].val].row >= index.nrows {
      var k :| 0 <= k < |ivs| && (Contains(ivs[k], start) || Contains(ivs[k], end))
               && index.lookup[ivs[k].val].row >= index.nrows;
      PanicWitness(index, ivs, start, end, hs, he, k);
    }
    if !RowsBelow(fs, index.nrows) {
      var i :| 0 <= i < |fs| && fs[i].row >= index.nrows;
      PanicCause(ivs, start, end, hs, he, i);
    }
  }

  /** A feature containing an endpoint is among those the two point queries add. */
  lemma PanicWitness(index: Index, ivs: seq<Interval>, start: nat, end: nat, hs: seq<nat>, he: seq<nat>, k: nat)
    requires ValsIn(ivs, |index.lookup|) && hs == PointHits(ivs, start) && he == PointHits(ivs, end)
    requires Positions(ivs, hs + he)
    requires k < |ivs| && (Contains(ivs[k], start) || Contains(ivs[k], end))
    ensures exists i :: 0 <= i < |hs + he| && (hs + he)[i] == k
    ensures !RowsBelow(FeaturesOf(ivs, index.lookup, hs + he), index.nrows) <== index.lookup[ivs[k].val].row >= index.nrows
  {
    PointHitsExact(ivs, start);
    PointHitsExact(ivs, end);
    var adds := hs + he;
    assert k in adds;
    var i :| 0 <= i < |adds| && adds[i] == k;
    var fs := FeaturesOf(ivs, index.lookup, adds);
    assert fs[i] == index.lookup[ivs[k].val];
  }

  /** Every position the two point queries add belongs to an interval containing an endpoint. */
  lemma PanicCause(ivs: seq<Interval>, start: nat, end: nat, hs: seq<nat>, he: seq<nat>, i: nat)
    requires hs == PointHits(ivs, start) && he == PointHits(ivs, end) && i < |hs + he|
    ensures (hs + he)[i] < |ivs| && (Contains(ivs[(hs + he)[i]], start) || Contains(ivs[(hs + he)[i]], end))
  {
    PointHitsExact(ivs, start);
    PointHitsExact(ivs, end);
    var k := (hs + he)[i];
    assert k in hs || k in he;
  }

  /** Every index the region reader returns, with either numbering, is one the counting loop accepts. */
  lemma BuiltIndexOk(num: FeatureIndex.Numbering, cfg: FeatureIndex.Config, lines: seq<string>)
    ensures FeatureIndex.Build(num, cfg, lines).Ok? ==> IndexOk(FeatureIndex.Build(num, cfg, lines).value)
  {
    FeatureIndex.BuildWf(num, cfg, lines);
  }

  /**
   * The index the corrected region reader builds is one the counting loop
   * can use without panicking on a row: it always exists, interval values
   * index the lookup table and every feature's row is below the row count.
   */
  lemma SequentialIndexReady(cfg: FeatureIndex.Config, lines: seq<string>)
    ensures FeatureIndex.Build(FeatureIndex.Sequential, cfg, lines).Ok?
    ensures IndexOk(FeatureIndex.Build(FeatureIndex.Sequential, cfg, lines).value)
    ensures var index := FeatureIndex.Build(FeatureIndex.Sequential, cfg, lines).value;
      RowsBelow(index.lookup, index.nrows)
  {
    var regions := FeatureIndex.ReadAll(cfg, lines);
    FeatureIndex.ReadAllConsistent(cfg, lines);
    FeatureIndex.SequentialFinishes(cfg, regions);
    FeatureIndex.SequentialRows(cfg, regions, |regions|);
    FeatureIndex.BuildWf(FeatureIndex.Sequential, cfg, lines);
  }
}
