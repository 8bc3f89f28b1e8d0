/**
 * Conversion of a linear-scan instrument log into CSV rows: comment and
 * separator lines are dropped, newlines removed, each remaining line split
 * on whitespace and cut to six fields, and a fixed header put in front.
 */
module LinearScan {
  import opened Select
  import opened PyStr

  /** Header row of the CSV file. */
  const COLUMNS: seq<string> :=
    ["x", "coincidence 0", "coincidence 1", "coincidence 2", "coincidence 3", "coincidence 01"]

  /** Number of fields kept from each data line. */
  const ROW_WIDTH: nat := 6

  /** Separator (`=`) and comment (`#`) lines of the log. */
  predicate IsComment(line: string)
    ensures IsComment(line) <==> |line| > 0 && (line[0] == '=' || line[0] == '#')
  {
    StartsWith(line, "=") || StartsWith(line, "#")
  }

  predicate IsData(line: string) {
    !IsComment(line)
  }

  /** The data lines of the log, in order, with every newline removed. */
  function CleanLines(lines: seq<string>): (r: seq<string>)
    ensures |r| == |Filter(lines, IsData)|
    ensures forall i :: 0 <= i < |r| ==> '\n' !in r[i]
  {
    var kept := Filter(lines, IsData);
    seq(|kept|, i requires 0 <= i < |kept| => RemoveAll(kept[i], '\n'))
  }

  /** `line.split()[:6]` */
  function RowOf(line: string): (row: seq<string>)
    ensures row <= Split(line)
    ensures |row| == if |Split(line)| < ROW_WIDTH then |Split(line)| else ROW_WIDTH
    ensures forall k :: 0 <= k < |row| ==> IsToken(row[k])
  {
    var tokens := Split(line);
    if |tokens| <= ROW_WIDTH then tokens else tokens[..ROW_WIDTH]
  }

  /** Every CSV row written for the log `lines`: the header, then the data rows. */
  function Convert(lines: seq<string>): (table: seq<seq<string>>)
    ensures |table| == 1 + |Filter(lines, IsData)|
    ensures table[0] == COLUMNS
    ensures forall i :: 1 <= i < |table| ==> |table[i]| <= ROW_WIDTH
    ensures forall i, k :: 1 <= i < |table| && 0 <= k < |table[i]| ==> IsToken(table[i][k])
  {
    var cleaned := CleanLines(lines);
    [COLUMNS] + seq(|cleaned|, i requires 0 <= i < |cleaned| => RowOf(cleaned[i]))
  }

  /** The data lines of a concatenated log are those of its parts, in order. */
  lemma CleanLinesConcat(a: seq<string>, b: seq<string>)
    ensures CleanLines(a + b) == CleanLines(a) + CleanLines(b)
  {
    FilterConcat(a, b, IsData);
  }

  /** One line on its own: dropped iff it is a comment, otherwise stripped of newlines. */
  lemma CleanLinesOne(line: string)
    ensures CleanLines([line]) == if IsComment(line) then [] else [RemoveAll(line, '\n')]
  {
    assert [line][1..] == [];
  }

  /** Each part of a log contributes its own rows, in order, under one header. */
  lemma ConvertConcat(a: seq<string>, b: seq<string>)
    ensures Convert(a + b) == Convert(a) + Convert(b)[1..]
  {
    CleanLinesConcat(a, b);
  }

  /** One line on its own: no row for a comment, otherwise the first six fields of the line. */
  lemma ConvertOne(line: string)
    ensures Convert([line]) == [COLUMNS] + if IsComment(line) then [] else [RowOf(RemoveAll(line, '\n'))]
  {
    CleanLinesOne(line);
  }

  /** A data line holding only whitespace gives an empty row. */
  lemma BlankLineGivesEmptyRow(line: string)
    requires IsData(line) && AllSpace(line)
    ensures Convert([line]) == [COLUMNS, []]
  {
    ConvertOne(line);
    var stripped := RemoveAll(line, '\n');
    forall k | 0 <= k < |stripped| ensures IsSpace(stripped[k]) {
      assert stripped[k] in line;
    }
    SplitEmptyIffAllSpace(stripped);
  }

  /** Removing newlines from a `readlines()` line never turns it into a comment. */
  lemma StrippedReadLineIsData(line: string)
    requires IsReadLine(line) && IsData(line)
    ensures IsData(RemoveAll(line, '\n'))
  {
    var r := RemoveAll(line, '\n');
    if line != [] {
      if line[0] == '\n' {
        assert |line| == 1;
        assert line == ['\n'];
        assert r == [];
      } else {
        assert r == [line[0]] + Filter(line[1..], x => x != '\n');
        assert r[0] == line[0];
      }
    }
  }

  /**
   * Cleaning the lines of a log a second time changes nothing, for lines as
   * `readlines()` produces them.
   */
  lemma CleanLinesIdempotent(lines: seq<string>)
    requires forall i :: 0 <= i < |lines| ==> IsReadLine(lines[i])
    ensures CleanLines(CleanLines(lines)) == CleanLines(lines)
  {
    var kept := Filter(lines, IsData);
    var c := CleanLines(lines);
    forall i | 0 <= i < |c| ensures IsData(c[i]) && RemoveAll(c[i], '\n') == c[i] {
      assert kept[i] in lines;
      var j :| 0 <= j < |lines| && lines[j] == kept[i];
      StrippedReadLineIsData(kept[i]);
    }
    FilterKeepsAll(c, IsData);
  }

  /** The lines of any log file satisfy the assumption of CleanLinesIdempotent. */
  lemma CleanFileIdempotent(text: string)
    ensures CleanLines(CleanLines(ReadLines(text))) == CleanLines(ReadLines(text))
  {
    CleanLinesIdempotent(ReadLines(text));
  }
}
