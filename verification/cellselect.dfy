/**
 * The `cellselect` subcommand: count the fragments of each cell barcode,
 * write the counts, and select the barcodes whose count exceeds a cutoff.
 */
module CellSelect {
  import opened Wrappers
  import opened Text

  // ---------------------------------------------------------------------------
  // Counting

  /**
   * The barcode a line of the fragment file is counted under: none for a
   * '#' header line, and none when the line has fewer than four
   * tab-separated fields.
   */
  function BarcodeOf(line: string): (r: Option<string>)
    ensures r.Some? <==> !StartsWith(line, '#') && |Split(line, '\t')| >= 4
    ensures r.Some? ==> '\t' !in r.value && r.value == Split(line, '\t')[3]
  {
    if StartsWith(line, '#') then None else Field(line, '\t', 3)
  }

  /** The barcodes of the counted lines, in file order. */
  function Counted(lines: seq<string>): (bs: seq<string>)
    ensures |bs| <= |lines|
  {
    if |lines| == 0 then []
    else
      var b := BarcodeOf(lines[|lines| - 1]);
      Counted(lines[..|lines| - 1]) + (if b.Some? then [b.value] else [])
  }

  /** Counting two parts of a file separately and adding the results counts the whole file. */
  lemma {:induction false} CountedAppend(a: seq<string>, b: seq<string>)
    ensures Counted(a + b) == Counted(a) + Counted(b)
    decreases |b|
  {
    if |b| == 0 {
      assert a + b == a;
    } else {
      CountedAppend(a, b[..|b| - 1]);
      assert (a + b)[..|a + b| - 1] == a + b[..|b| - 1];
    }
  }

  /** A barcode is counted exactly when some line carries it in its fourth field. */
  lemma {:induction false} CountedIffSomeLine(lines: seq<string>, b: string)
    ensures b in Counted(lines) <==> exists i :: 0 <= i < |lines| && BarcodeOf(lines[i]) == Some(b)
  {
    if |lines| > 0 {
      var init := lines[..|lines| - 1];
      CountedIffSomeLine(init, b);
      if exists i :: 0 <= i < |lines| && BarcodeOf(lines[i]) == Some(b) {
        var i :| 0 <= i < |lines| && BarcodeOf(lines[i]) == Some(b);
        if i < |lines| - 1 {
          assert init[i] == lines[i];
        }
      }
    }
  }

  /**
   * The consumer loop of `count_barcodes` over the lines of the fragment
   * file (`Lines` of its text, as the reading thread sends them): every barcode counted is a key, and its value is the number of
   * lines counted under it.
   */
  method CountBarcodes(lines: seq<string>) returns (cells: map<string, nat>)
    ensures Tallies(cells, Counted(lines))
  {
    cells := map[];
    var i := 0;
    while i < |lines|
      invariant i <= |lines|
      invariant Tallies(cells, Counted(lines[..i]))
    {
      CountedStep(lines, i);
      cells := CountFragmentLine(cells, lines[i], Counted(lines[..i]));
      i := i + 1;
    }
    assert lines[..i] == lines;
  }

  /** One pass of the consumer loop: the line's barcode, if any, is counted once more. */
  method CountFragmentLine(cells: map<string, nat>, line: string, ghost before: seq<string>) returns (cells': map<string, nat>)
    requires Tallies(cells, before)
    ensures Tallies(cells', before + (if BarcodeOf(line).Some? then [BarcodeOf(line).value] else []))
  {
    cells' := cells;
    if !StartsWith(line, '#') {
      var field := Field(line, '\t', 3);
      if field.Some? {
        var barcode := field.value;
        var n := if barcode in cells then cells[barcode] else 0;
        TalliesStep(cells, before, barcode);
        cells' := cells[barcode := n + 1];
      } else {
        assert before + [] == before;
      }
    } else {
      assert before + [] == before;
    }
  }

  /** A map holding, for each barcode of a list, how often it occurs there, and nothing else. */
  ghost predicate Tallies(cells: map<string, nat>, bs: seq<string>) {
    && (forall b :: b in cells <==> b in bs)
    && (forall b :: b in cells ==> cells[b] == multiset(bs)[b])
  }

  /** `*cells.entry(barcode).or_insert(0) += 1` keeps the tally of a list when the barcode is appended. */
  lemma TalliesStep(cells: map<string, nat>, bs: seq<string>, b: string)
    requires Tallies(cells, bs)
    ensures Tallies(cells[b := (if b in cells then cells[b] else 0) + 1], bs + [b])
  {
    assert multiset(bs + [b]) == multiset(bs) + multiset{b};
  }

  lemma CountedStep(lines: seq<string>, i: nat)
    requires i < |lines|
    ensures Counted(lines[..i + 1]) == Counted(lines[..i]) + (if BarcodeOf(lines[i]).Some? then [BarcodeOf(lines[i]).value] else [])
  {
    assert lines[..i + 1][..i] == lines[..i];
  }

  /** The barcodes counted from the lines of a text hold neither tab nor line break. */
  lemma CountedClean(text: string)
    ensures forall k :: 0 <= k < |Counted(Lines(text))| ==> Clean(Counted(Lines(text))[k])
  {
    var lines := Lines(text);
    forall k | 0 <= k < |Counted(lines)| ensures Clean(Counted(lines)[k]) {
      CountedFrom(lines, k);
      var i :| 0 <= i < |lines| && BarcodeOf(lines[i]) == Some(Counted(lines)[k]);
      FieldOfLine(lines[i], 3);
    }
  }

  /** Each counted barcode is the fourth field of one of the lines. */
  lemma {:induction false} CountedFrom(lines: seq<string>, k: nat)
    requires k < |Counted(lines)|
    ensures exists i :: 0 <= i < |lines| && BarcodeOf(lines[i]) == Some(Counted(lines)[k])
  {
    var init := lines[..|lines| - 1];
    if k < |Counted(init)| {
      CountedFrom(init, k);
      var i :| 0 <= i < |init| && BarcodeOf(init[i]) == Some(Counted(init)[k]);
      assert lines[i] == init[i];
    } else {
      assert BarcodeOf(lines[|lines| - 1]) == Some(Counted(lines)[k]);
    }
  }

  predicate Clean(b: string) {
    '\t' !in b && '\n' !in b
  }

  /** A field of a line holds no line break when the line holds none. */
  lemma FieldOfLine(line: string, i: nat)
    requires '\n' !in line && i < |Split(line, '\t')|
    ensures '\n' !in Split(line, '\t')[i]
  {
    JoinSplit(line, '\t');
    JoinedField(Split(line, '\t'), '\t', i);
  }

  /** Every character of a field is a character of the joined line. */
  lemma {:induction false} JoinedField(fields: seq<string>, sep: char, i: nat)
    requires |fields| >= 1 && i < |fields|
    ensures forall c :: c in fields[i] ==> c in Join(fields, sep)
    decreases i
  {
    if i > 0 {
      JoinedField(fields[1..], sep, i - 1);
    }
  }

  // ---------------------------------------------------------------------------
  // Selection

  /** A listing of the keys of a map, each once: the order a hash map is iterated in. */
  predicate Enumerates(order: seq<string>, counts: map<string, nat>) {
    && (forall i :: 0 <= i < |order| ==> order[i] in counts)
    && (forall b :: b in counts ==> b in order)
    && Distinct(order)
  }

  /** The barcodes of `order` whose count is above the cutoff, in that order. */
  function Selected(counts: map<string, nat>, order: seq<string>, cutoff: nat): (r: seq<string>)
    requires forall i :: 0 <= i < |order| ==> order[i] in counts
    ensures forall b :: b in r <==> b in order && counts[b] > cutoff
  {
    if |order| == 0 then []
    else
      var b := order[|order| - 1];
      Selected(counts, order[..|order| - 1], cutoff) + (if counts[b] > cutoff then [b] else [])
  }

  predicate Distinct(bs: seq<string>) {
    forall i, j :: 0 <= i < j < |bs| ==> bs[i] != bs[j]
  }

  /** Selection keeps every barcode at most once when the listing does. */
  lemma {:induction false} SelectedDistinct(counts: map<string, nat>, order: seq<string>, cutoff: nat)
    requires forall i :: 0 <= i < |order| ==> order[i] in counts
    requires Distinct(order)
    ensures Distinct(Selected(counts, order, cutoff))
  {
    if |order| > 0 {
      var init := order[..|order| - 1];
      var b := order[|order| - 1];
      SelectedDistinct(counts, init, cutoff);
      assert b !in init;
    }
  }

  /**
   * `select_barcodes`: the loop over the map in its iteration order, keeping
   * each barcode whose count is strictly greater than the cutoff.
   */
  method SelectBarcodes(counts: map<string, nat>, order: seq<string>, cutoff: nat) returns (selected: seq<string>)
    requires Enumerates(order, counts)
    ensures selected == Selected(counts, order, cutoff)
    ensures forall b :: b in selected <==> b in counts && counts[b] > cutoff
  {
    selected := [];
    var i := 0;
    while i < |order|
      invariant i <= |order|
      invariant selected == Selected(counts, order[..i], cutoff)
    {
      assert order[..i + 1][..i] == order[..i];
      if counts[order[i]] > cutoff {
        selected := selected + [order[i]];
      }
      i := i + 1;
    }
    assert order[..i] == order;
  }

  /**
   * Counting and selection together: a barcode is selected exactly when
   * more lines than the cutoff are counted under it.
   */
  lemma SelectedFromCounts(lines: seq<string>, cells: map<string, nat>, order: seq<string>, cutoff: nat)
    requires Tallies(cells, Counted(lines)) && Enumerates(order, cells)
    ensures forall b :: b in Selected(cells, order, cutoff) <==> multiset(Counted(lines))[b] > cutoff
  {
  }

  // ---------------------------------------------------------------------------
  // The count file

  /** One line of the count file: `"{barcode}\t{count}\n"`. */
  function CountLine(barcode: string, count: nat): string {
    barcode + "\t" + NatToString(count) + "\n"
  }

  function CountLines(counts: map<string, nat>, order: seq<string>): (rows: seq<string>)
    requires forall i :: 0 <= i < |order| ==> order[i] in counts
    ensures |rows| == |order|
  {
    seq(|order|, i requires 0 <= i < |order| => CountLine(order[i], counts[order[i]]))
  }

  /** The loop that builds the count file in the map's iteration order. */
  method WriteCounts(counts: map<string, nat>, order: seq<string>) returns (output: string)
    requires Enumerates(order, counts)
    ensures output == Concat(CountLines(counts, order))
  {
    output := "";
    var i := 0;
    while i < |order|
      invariant i <= |order|
      invariant output == Concat(CountLines(counts, order[..i]))
    {
      var barcode := order[i];
      CountLinesStep(counts, order, i);
      output := output + (barcode + "\t" + NatToString(counts[barcode]) + "\n");
      i := i + 1;
    }
    assert order[..i] == order;
  }

  /** The count file after one more barcode. */
  lemma CountLinesStep(counts: map<string, nat>, order: seq<string>, i: nat)
    requires i < |order| && forall j :: 0 <= j < |order| ==> order[j] in counts
    ensures Concat(CountLines(counts, order[..i + 1]))
         == Concat(CountLines(counts, order[..i])) + CountLine(order[i], counts[order[i]])
  {
    var rows := CountLines(counts, order[..i + 1]);
    assert rows[..i] == CountLines(counts, order[..i]);
    assert rows[i] == CountLine(order[i], counts[order[i]]);
  }

  /** One line of the count file is a whole line, and splits back into the barcode and the count. */
  lemma CountLineReads(b: string, n: nat)
    requires Clean(b)
    ensures WholeLines([CountLine(b, n)])
    ensures Split(Chomp(CountLine(b, n)), '\t') == [b, NatToString(n)]
  {
    var digits := NatToString(n);
    var line := CountLine(b, n);
    assert forall k :: 0 <= k < |digits| ==> IsDigit(digits[k]);
    assert line[..|line| - 1] == b + "\t" + digits;
    assert line == (b + "\t" + digits) + "\n";
    ChompLine(b + "\t" + digits);
    SplitCons(b, '\t', digits);
    SplitNoSeparator(digits, '\t');
  }

  /**
   * The count file reads back: its i-th line splits on the tab into the
   * i-th barcode and a digit string whose value is that barcode's count.
   */
  lemma ReadCountFile(counts: map<string, nat>, order: seq<string>)
    requires forall i :: 0 <= i < |order| ==> order[i] in counts && Clean(order[i])
    ensures |Lines(Concat(CountLines(counts, order)))| == |order|
    ensures forall i :: 0 <= i < |order| ==>
      var fields := Split(Lines(Concat(CountLines(counts, order)))[i], '\t');
      && fields == [order[i], NatToString(counts[order[i]])]
      && DigitsValue(fields[1]) == counts[order[i]]
  {
    var rows := CountLines(counts, order);
    forall i | 0 <= i < |order| ensures WholeLines([rows[i]]) && Split(Chomp(rows[i]), '\t') == [order[i], NatToString(counts[order[i]])] {
      CountLineReads(order[i], counts[order[i]]);
    }
    assert WholeLines(rows) by {
      forall i | 0 <= i < |rows| ensures |rows[i]| > 0 && rows[i][|rows[i]| - 1] == '\n' && '\n' !in rows[i][..|rows[i]| - 1] {
        assert WholeLines([rows[i]]);
        assert [rows[i]][0] == rows[i];
      }
    }
    ReadLinesConcat(rows);
  }

  /**
   * The count file written for the counts of a fragment file reads back
   * with every count in place, whatever the iteration order.
   */
  lemma CountFileRoundTrip(text: string, cells: map<string, nat>, order: seq<string>)
    requires forall b :: b in cells <==> b in Counted(Lines(text))
    requires Enumerates(order, cells)
    ensures |Lines(Concat(CountLines(cells, order)))| == |order|
    ensures forall i :: 0 <= i < |order| ==>
      Split(Lines(Concat(CountLines(cells, order)))[i], '\t') == [order[i], NatToString(cells[order[i]])]
  {
    CountedClean(text);
    forall i | 0 <= i < |order| ensures Clean(order[i]) {
      assert order[i] in cells;
      assert order[i] in Counted(Lines(text));
      var k :| 0 <= k < |Counted(Lines(text))| && Counted(Lines(text))[k] == order[i];
    }
    ReadCountFile(cells, order);
  }
}
