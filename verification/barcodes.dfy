/**
 * The barcode registry of both matrix engines: each line of the barcode file
 * becomes a key whose value is the 0-based line number, the column of that
 * barcode in the matrix; a later duplicate overwrites an earlier one.
 */
module Barcodes {
  /** The distinct lines of a barcode file. */
  function LineSet(lines: seq<string>): set<string> {
    set i | 0 <= i < |lines| :: lines[i]
  }

  predicate DistinctLines(lines: seq<string>) {
    forall i, j :: 0 <= i < j < |lines| ==> lines[i] != lines[j]
  }

  /**
   * The loop over the barcode file: every line is a key, and its column is
   * the number of the last line holding it.
   */
  method LoadBarcodes(lines: seq<string>) returns (cells: map<string, nat>)
    ensures cells.Keys == LineSet(lines)
    ensures forall b :: b in cells ==> cells[b] < |lines| && lines[cells[b]] == b
    ensures forall b, j :: b in cells && cells[b] < j < |lines| ==> lines[j] != b
  {
    cells := map[];
    var index := 0;
    while index < |lines|
      invariant index <= |lines|
      invariant cells.Keys == LineSet(lines[..index])
      invariant forall b :: b in cells ==> cells[b] < index && lines[cells[b]] == b
      invariant forall b, j :: b in cells && cells[b] < j < index ==> lines[j] != b
    {
      assert LineSet(lines[..index + 1]) == LineSet(lines[..index]) + {lines[index]} by {
        assert lines[..index + 1] == lines[..index] + [lines[index]];
      }
      cells := cells[lines[index] := index];
      index := index + 1;
    }
    assert lines[..index] == lines;
  }

  /** A line set has at most as many elements as there are lines, and fewer when a line repeats. */
  lemma {:induction false} LineSetSize(lines: seq<string>)
    ensures |LineSet(lines)| <= |lines|
    ensures !DistinctLines(lines) ==> |LineSet(lines)| < |lines|
    ensures DistinctLines(lines) ==> |LineSet(lines)| == |lines|
  {
    if |lines| > 0 {
      var init := lines[..|lines| - 1];
      var last := lines[|lines| - 1];
      LineSetSize(init);
      assert LineSet(lines) == LineSet(init) + {last} by {
        assert lines == init + [last];
      }
      if !DistinctLines(lines) {
        if DistinctLines(init) {
          var i, j :| 0 <= i < j < |lines| && lines[i] == lines[j];
          assert j == |lines| - 1;
          assert last in LineSet(init) by { assert init[i] == last; }
        }
      } else {
        assert DistinctLines(init);
        assert last !in LineSet(init);
      }
    }
  }

  /**
   * With a duplicate-free barcode file every line keeps its own column and
   * the columns are exactly 0 .. ncol - 1, where ncol is the number of keys.
   */
  lemma DistinctColumns(lines: seq<string>, cells: map<string, nat>)
    requires DistinctLines(lines)
    requires cells.Keys == LineSet(lines)
    requires forall b :: b in cells ==> cells[b] < |lines| && lines[cells[b]] == b
    ensures |cells| == |lines|
    ensures forall i :: 0 <= i < |lines| ==> lines[i] in cells && cells[lines[i]] == i
  {
    LineSetSize(lines);
    assert |cells| == |cells.Keys|;
    forall i | 0 <= i < |lines|
      ensures lines[i] in cells && cells[lines[i]] == i
    {
      assert lines[i] in LineSet(lines);
    }
  }

  /**
   * With a repeated barcode the last line's column is at least the number of
   * keys, so it lies outside the declared column count.
   */
  lemma RepeatedBarcodeColumnPastEnd(lines: seq<string>, cells: map<string, nat>)
    requires !DistinctLines(lines)
    requires cells.Keys == LineSet(lines)
    requires forall b :: b in cells ==> cells[b] < |lines| && lines[cells[b]] == b
    requires forall b, j :: b in cells && cells[b] < j < |lines| ==> lines[j] != b
    ensures lines[|lines| - 1] in cells && cells[lines[|lines| - 1]] >= |cells|
  {
    LineSetSize(lines);
    assert |cells| == |cells.Keys|;
    var last := lines[|lines| - 1];
    assert last in LineSet(lines);
  }
}
