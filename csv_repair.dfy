/**
 * The one-off repair of data_general.csv (fix_csv.py): every line after the
 * old header is split into fields, lines with fewer than five fields are
 * dropped, the others are brought to the seven columns of the new layout,
 * and the file is rewritten as the new header followed by those rows.
 *
 * The file is an input (its lines, or `None` when it does not exist) and the
 * output is the table handed to the CSV writer (`None` when nothing is
 * written).
 */
module CsvRepair {
  import opened Options
  import opened TextOps

  /** The header of the repaired file. */
  const NewHeader: seq<string> :=
    ["Timestamp", "NIK Operator", "Nama Operator", "Component Number", "Nama Barang", "Quantity", "Image Name"]

  /** Columns of the repaired layout. */
  const ColumnCount: nat := 7

  /** Lines with fewer fields than this are dropped. */
  const MinFields: nat := 5

  /** The fields of one line: the line stripped of surrounding whitespace, then cut at every comma. */
  function Fields(line: string): (r: seq<string>)
    ensures |r| > 0
    ensures Strip(line) == "" ==> r == [""]
  {
    Split(Strip(line), ',')
  }

  /**
   * No quoting is honoured: no field holds a comma, there is one field more
   * than the stripped line has commas, and joining the fields with commas
   * gives the stripped line back.
   */
  lemma FieldsOfLine(line: string)
    ensures Join(Fields(line), ',') == Strip(line)
    ensures |Fields(line)| == Occurrences(Strip(line), ',') + 1
    ensures forall k :: 0 <= k < |Fields(line)| ==> ',' !in Fields(line)[k]
  {
    JoinSplit(Strip(line), ',');
  }

  /**
   * The positional mapping to seven columns. Five fields (time, NIK, code,
   * quantity, image) and six fields (time, NIK, code, item name, quantity,
   * image) keep time and NIK in front, leave the operator name empty, put the
   * code in column 3 and quantity and image last; a five-field line also has
   * no item name. Seven or more fields are cut to the first seven.
   */
  function NormaliseRow(parts: seq<string>): (r: seq<string>)
    requires |parts| >= MinFields
    ensures |r| == ColumnCount
    ensures r[0] == parts[0] && r[1] == parts[1]
    ensures |parts| < ColumnCount ==>
              && r[2] == "" && r[3] == parts[2]
              && r[5] == parts[|parts| - 2] && r[6] == parts[|parts| - 1]
    ensures |parts| == 5 ==> r[4] == ""
    ensures |parts| == 6 ==> r[4] == parts[3]
    ensures |parts| >= ColumnCount ==> r == parts[..ColumnCount]
  {
    if |parts| == 5 then [parts[0], parts[1], "", parts[2], "", parts[3], parts[4]]
    else if |parts| == 6 then [parts[0], parts[1], "", parts[2], parts[3], parts[4], parts[5]]
    else parts[..ColumnCount]
  }

  /** A row already in the seven-column layout is left as it is, so normalising twice is normalising once. */
  lemma NormaliseRowIdempotent(parts: seq<string>)
    requires |parts| >= MinFields
    ensures |parts| == ColumnCount ==> NormaliseRow(parts) == parts
    ensures NormaliseRow(NormaliseRow(parts)) == NormaliseRow(parts)
  {
  }

  /** `lines[1:]`: every line but the old header, and nothing for an empty file. */
  function DataLines(lines: seq<string>): (r: seq<string>)
    ensures |lines| == 0 ==> r == []
    ensures |lines| > 0 ==> |r| == |lines| - 1 && forall k :: 0 <= k < |r| ==> r[k] == lines[k + 1]
  {
    if |lines| == 0 then [] else lines[1..]
  }

  /** The first line is dropped whatever it holds, even when it has the fields of a data line. */
  lemma OldHeaderSkipped(header: string, rest: seq<string>)
    ensures DataLines([header] + rest) == rest
    ensures NormaliseLines(DataLines([header])) == []
  {
    assert ([header] + rest)[1..] == rest;
  }

  /** What one line contributes: its normalised row when it has at least five fields, nothing otherwise. */
  function LineRows(line: string): (rows: seq<seq<string>>)
    ensures |rows| <= 1
  {
    var parts := Fields(line);
    if |parts| < MinFields then [] else [NormaliseRow(parts)]
  }

  /** The rows the loop collects from `lines`: each line's contribution, in order. */
  function NormaliseLines(lines: seq<string>): (rows: seq<seq<string>>)
    ensures |rows| <= |lines|
  {
    if |lines| == 0 then []
    else NormaliseLines(lines[..|lines| - 1]) + LineRows(lines[|lines| - 1])
  }

  /** Every collected row has exactly seven fields. */
  lemma {:induction false} NormaliseLinesWidth(lines: seq<string>)
    ensures forall k :: 0 <= k < |NormaliseLines(lines)| ==> |NormaliseLines(lines)[k]| == ColumnCount
  {
    if |lines| > 0 {
      NormaliseLinesWidth(lines[..|lines| - 1]);
    }
  }

  /** A single line yields one row when it has at least five fields and none otherwise. */
  lemma NormaliseOneLine(line: string)
    ensures NormaliseLines([line]) ==
              if |Fields(line)| < MinFields then [] else [NormaliseRow(Fields(line))]
  {
    assert [line][..0] == [];
  }

  /** Adding a line at the end adds that line's contribution at the end. */
  lemma NormaliseLinesSnoc(lines: seq<string>, line: string)
    ensures NormaliseLines(lines + [line]) == NormaliseLines(lines) + LineRows(line)
  {
    assert (lines + [line])[..|lines|] == lines;
  }

  /** Rows come out in the order of their lines: the rows of a concatenation are the rows of each part, concatenated. */
  lemma {:induction false} NormaliseLinesAppend(a: seq<string>, b: seq<string>)
    ensures NormaliseLines(a + b) == NormaliseLines(a) + NormaliseLines(b)
    decreases |b|
  {
    if |b| == 0 {
      assert a + b == a;
    } else {
      var init, last := b[..|b| - 1], b[|b| - 1];
      assert a + b == (a + init) + [last];
      assert b == init + [last];
      NormaliseLinesSnoc(a + init, last);
      NormaliseLinesSnoc(init, last);
      NormaliseLinesAppend(a, init);
    }
  }

  /** The number of lines that are kept. */
  function KeptCount(lines: seq<string>): nat {
    if |lines| == 0 then 0
    else KeptCount(lines[..|lines| - 1]) + (if |Fields(lines[|lines| - 1])| < MinFields then 0 else 1)
  }

  /** Exactly the lines with at least five fields turn into rows. */
  lemma {:induction false} NormaliseLinesCount(lines: seq<string>)
    ensures |NormaliseLines(lines)| == KeptCount(lines)
  {
    if |lines| > 0 {
      NormaliseLinesCount(lines[..|lines| - 1]);
    }
  }

  /** One more line of `lines` taken by the loop adds that line's contribution. */
  lemma NormaliseLinesStep(lines: seq<string>, i: nat)
    requires i < |lines|
    ensures NormaliseLines(lines[..i + 1]) == NormaliseLines(lines[..i]) + LineRows(lines[i])
  {
    assert lines[..i + 1] == lines[..i] + [lines[i]];
    NormaliseLinesSnoc(lines[..i], lines[i]);
  }

  /** The loop over `lines[1:]`, collecting the normalised rows in order. */
  method FixRows(lines: seq<string>) returns (rows: seq<seq<string>>)
    ensures rows == NormaliseLines(DataLines(lines))
  {
    var body := DataLines(lines);
    rows := [];
    for i := 0 to |body|
      invariant rows == NormaliseLines(body[..i])
    {
      NormaliseLinesStep(body, i);
      var parts := Fields(body[i]);
      if |parts| < MinFields {
        continue;
      }
      rows := rows + [NormaliseRow(parts)];
    }
    assert body[..|body|] == body;
  }

  /**
   * The whole script: nothing is written when the file does not exist;
   * otherwise the file is rewritten as the new header followed by the rows.
   */
  method FixCsv(file: Option<seq<string>>) returns (written: Option<seq<seq<string>>>)
    ensures written.Some? <==> file.Some?
    ensures file.Some? ==> written.value == [NewHeader] + NormaliseLines(DataLines(file.value))
    ensures written.Some? ==> forall k :: 0 <= k < |written.value| ==> |written.value[k]| == ColumnCount
  {
    if file.None? {
      return None;
    }
    var rows := FixRows(file.value);
    NormaliseLinesWidth(DataLines(file.value));
    written := Some([NewHeader] + rows);
  }
}
