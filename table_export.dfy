/**
 * The clipboard export: two columns of names become a table of text, one
 * line per row, the two cells of a row separated by a tab. Rows are built
 * in a loop, missing cells of the shorter column are empty strings, and
 * the rows are joined with newlines (none after the last row).
 */
module TableExport {

  const Tab: char := '\t'
  const Newline: char := '\n'

  function Max(a: nat, b: nat): nat
  {
    if a >= b then a else b
  }

  /** The i-th cell of a column; past its end the entry is missing and the cell is empty. */
  function Cell(column: seq<string>, i: nat): (cell: string)
    ensures i < |column| ==> cell == column[i]
    ensures |column| <= i ==> cell == ""
  {
    if i < |column| then column[i] else ""
  }

  /** Read cell by cell up to length n, a column is padded with empty strings. */
  lemma ColumnPadding(column: seq<string>, n: nat)
    requires |column| <= n
    ensures seq(n, i requires 0 <= i < n => Cell(column, i)) == column + seq(n - |column|, _ => "")
  {
  }

  /**
   * The text of row i: the two cells separated by a tab. When neither cell
   * holds a tab, splitting the row on the tab gives back the two cells; when
   * neither holds a newline, the row holds none.
   */
  function FormatRow(column1: seq<string>, column2: seq<string>, i: nat): (row: string)
    ensures Tab !in Cell(column1, i) && Tab !in Cell(column2, i) ==>
              Split(row, Tab) == [Cell(column1, i), Cell(column2, i)]
    ensures Newline !in Cell(column1, i) && Newline !in Cell(column2, i) ==> Newline !in row
  {
    SplitPair(Cell(column1, i), Tab, Cell(column2, i));
    Cell(column1, i) + [Tab] + Cell(column2, i)
  }

  function TableRows(column1: seq<string>, column2: seq<string>): (rows: seq<string>)
  {
    seq(Max(|column1|, |column2|), i requires 0 <= i => FormatRow(column1, column2, i))
  }

  /**
   * Array join with a one-character separator. When no part holds the
   * separator, the result holds one separator between each two parts and
   * none before the first or after the last.
   */
  function Join(parts: seq<string>, sep: char): (joined: string)
    ensures (forall i :: 0 <= i < |parts| ==> sep !in parts[i]) ==>
              Occurrences(joined, sep) == if |parts| == 0 then 0 else |parts| - 1
  {
    if |parts| == 0 then ""
    else if |parts| == 1 then
      OccurrencesAbsent(parts[0], sep);
      parts[0]
    else
      OccurrencesAppend(parts[0] + [sep], Join(parts[1..], sep), sep);
      OccurrencesAppend(parts[0], [sep], sep);
      OccurrencesAbsent(parts[0], sep);
      parts[0] + [sep] + Join(parts[1..], sep)
  }

  /** How often `c` occurs in `s`. */
  function Occurrences(s: string, c: char): nat
  {
    if s == [] then 0 else (if s[0] == c then 1 else 0) + Occurrences(s[1..], c)
  }

  lemma {:induction false} OccurrencesAppend(a: string, b: string, c: char)
    ensures Occurrences(a + b, c) == Occurrences(a, c) + Occurrences(b, c)
  {
    if a == [] {
      assert a + b == b;
    } else {
      OccurrencesAppend(a[1..], b, c);
      assert (a + b)[1..] == a[1..] + b;
    }
  }

  lemma {:induction false} OccurrencesAbsent(a: string, c: char)
    ensures c !in a <==> Occurrences(a, c) == 0
  {
    if a != [] {
      OccurrencesAbsent(a[1..], c);
      assert a == [a[0]] + a[1..];
    }
  }

  /**
   * String split on a one-character separator: the pieces between the
   * separators, one more piece than there are separators.
   */
  function Split(s: string, sep: char): (parts: seq<string>)
    ensures |parts| == Occurrences(s, sep) + 1
  {
    if s == [] then [""]
    else
      var rest := Split(s[1..], sep);
      if s[0] == sep then [""] + rest
      else [[s[0]] + rest[0]] + rest[1..]
  }

  /** The text the export hands to the clipboard. */
  function TableText(column1: seq<string>, column2: seq<string>): string
  {
    Join(TableRows(column1, column2), Newline)
  }

  /** Builds the rows one index at a time, then joins them. */
  method CopyArraysAsTable(column1: seq<string>, column2: seq<string>) returns (tableString: string)
    ensures tableString == TableText(column1, column2)
  {
    var maxLength := Max(|column1|, |column2|);
    var rows: seq<string> := [];
    for i := 0 to maxLength
      invariant |rows| == i
      invariant forall k :: 0 <= k < i ==> rows[k] == FormatRow(column1, column2, k)
    {
      var col1 := if i < |column1| then column1[i] else "";
      var col2 := if i < |column2| then column2[i] else "";
      rows := rows + [col1 + "\t" + col2];
    }
    assert rows == TableRows(column1, column2);
    tableString := Join(rows, Newline);
  }

  /** No cell of the column contains a tab or a newline. */
  ghost predicate PlainCells(column: seq<string>)
  {
    forall i :: 0 <= i < |column| ==> Tab !in column[i] && Newline !in column[i]
  }

  lemma {:induction false} SplitWithout(a: string, sep: char)
    requires sep !in a
    ensures Split(a, sep) == [a]
  {
    if a != [] {
      SplitWithout(a[1..], sep);
      assert [a[0]] + a[1..] == a;
    }
  }

  lemma {:induction false} SplitAfter(a: string, sep: char, b: string)
    requires sep !in a
    ensures Split(a + [sep] + b, sep) == [a] + Split(b, sep)
  {
    if a == [] {
      assert a + [sep] + b == [sep] + b;
      assert ([sep] + b)[1..] == b;
    } else {
      SplitAfter(a[1..], sep, b);
      assert (a + [sep] + b)[1..] == a[1..] + [sep] + b;
      assert [a[0]] + a[1..] == a;
    }
  }

  /** Splitting a join recovers the parts when no part contains the separator. */
  lemma {:induction false} SplitJoin(parts: seq<string>, sep: char)
    requires |parts| >= 1
    requires forall i :: 0 <= i < |parts| ==> sep !in parts[i]
    ensures Split(Join(parts, sep), sep) == parts
  {
    if |parts| == 1 {
      SplitWithout(parts[0], sep);
    } else {
      SplitJoin(parts[1..], sep);
      SplitAfter(parts[0], sep, Join(parts[1..], sep));
      assert [parts[0]] + parts[1..] == parts;
    }
  }

  /** Splitting two separator-free strings joined by the separator gives them back. */
  lemma SplitPair(a: string, sep: char, b: string)
    ensures sep !in a && sep !in b ==> Split(a + [sep] + b, sep) == [a, b]
  {
    if sep !in a && sep !in b {
      SplitAfter(a, sep, b);
      SplitWithout(b, sep);
    }
  }

  /**
   * Reading the exported text back: split on newlines there is one line
   * per row, as many as the longer column, and each line split on the tab
   * gives the two cells, the shorter column padded with empty strings.
   * With no rows the text is empty.
   */
  lemma TableRoundTrip(column1: seq<string>, column2: seq<string>)
    requires PlainCells(column1) && PlainCells(column2)
    ensures var text := TableText(column1, column2);
      if |column1| == 0 && |column2| == 0 then text == ""
      else
        var lines := Split(text, Newline);
        && |lines| == Max(|column1|, |column2|)
        && Occurrences(text, Newline) == Max(|column1|, |column2|) - 1
        && forall i :: 0 <= i < |lines| ==> Split(lines[i], Tab) == [Cell(column1, i), Cell(column2, i)]
  {
    var rows := TableRows(column1, column2);
    if |rows| > 0 {
      forall i | 0 <= i < |rows|
        ensures Newline !in rows[i] && Split(rows[i], Tab) == [Cell(column1, i), Cell(column2, i)]
      {
      }
      SplitJoin(rows, Newline);
    }
  }

  /** The export is empty exactly when both columns are. */
  lemma EmptyTable(column1: seq<string>, column2: seq<string>)
    ensures TableText(column1, column2) == "" <==> |column1| == 0 && |column2| == 0
  {
  }

  /** The second column is longer: its extra entry gets an empty first cell. */
  lemma ExportExample()
    ensures TableText(["A"], ["B", "C"]) == "A\tB\n\tC"
  {
  }
}
