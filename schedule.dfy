/**
 * `parse_schedule_optimized`: split each line of a one-column table on " / "
 * into six named columns, read the four time columns with `parse_time` and
 * normalise the day column with `extract_days`. Any failure on the way makes
 * the result for the whole table `None`.
 */
module Schedule {
  import opened Wrappers
  import opened Text
  import opened Days
  import opened Clock

  /** The separator between the fields of a line. */
  const Delimiter: string := " / "

  /** The names given to the six columns after the split. */
  const Columns: seq<string> :=
    ["BrokerName", "DaysWorked", "Begin", "LunchBegin", "LunchEnd", "End"]

  /** The input table: `width` columns, and one sequence of cells per row. */
  datatype Frame = Frame(width: nat, rows: seq<seq<string>>)

  predicate Rectangular(data: Frame) {
    forall i :: 0 <= i < |data.rows| ==> |data.rows[i]| == data.width
  }

  /**
   * A cell of the split table: missing (a short row padded out), a piece of
   * text, or the outcome of `parse_time`.
   */
  datatype Cell = Missing | Raw(text: string) | Parsed(time: Option<TimeOfDay>)

  /** One output row, one field per entry of `Columns`. */
  datatype Record = Record(
    brokerName: string,
    daysWorked: string,
    begin: Option<TimeOfDay>,
    lunchBegin: Option<TimeOfDay>,
    lunchEnd: Option<TimeOfDay>,
    end: Option<TimeOfDay>)

  /**
   * The pieces of a one-column row: cut at every " / ", so that no piece
   * holds a separator the cut missed, and joined back they give the line.
   */
  function Fields(row: seq<string>): (f: seq<string>)
    requires |row| >= 1
    ensures |f| >= 1 && Join(f, Delimiter) == row[0]
    ensures forall n :: 0 <= n < |f| - 1 ==> EndsCleanly(f[n], Delimiter)
    ensures Free(f[|f| - 1], Delimiter)
  {
    SplitPieces(row[0], Delimiter);
    Split(row[0], Delimiter)
  }

  /** The pieces of every line of a one-column table, in row order. */
  function Lines(data: Frame): (ls: seq<seq<string>>)
    requires Rectangular(data) && data.width == 1
    ensures |ls| == |data.rows|
    ensures forall n :: 0 <= n < |ls| ==> |ls[n]| >= 1
  {
    seq(|data.rows|, n requires 0 <= n < |data.rows| => Fields(data.rows[n]))
  }

  /** The record a line with exactly six pieces becomes. */
  function RecordOf(f: seq<string>, days: seq<string>): (r: Record)
    requires |f| == |Columns| && NonEmptyNames(days)
    ensures r.brokerName == f[0]
    ensures forall t :: t in [r.begin, r.lunchBegin, r.lunchEnd, r.end] && t.Some? ==> ValidTime(t.value)
  {
    Record(f[0], ExtractDays(f[1], days), ParseTime(f[2]), ParseTime(f[3]), ParseTime(f[4]), ParseTime(f[5]))
  }

  /** Column `c` of the split table: a short row has a missing cell there. */
  function Column(pieces: seq<seq<string>>, c: nat): (col: seq<Cell>)
    ensures |col| == |pieces|
  {
    seq(|pieces|, n requires 0 <= n < |pieces| => if c < |pieces[n]| then Raw(pieces[n][c]) else Missing)
  }

  /**
   * `apply(parse_time)` over a column: it fails on the first cell that is not
   * text, and otherwise parses every cell.
   */
  function ApplyParseTime(col: seq<Cell>): (r: Option<seq<Cell>>)
    ensures r.None? <==> exists n :: 0 <= n < |col| && !col[n].Raw?
    ensures r.Some? ==> |r.value| == |col|
    ensures r.Some? ==> forall n :: 0 <= n < |col| ==> r.value[n] == Parsed(ParseTime(col[n].text))
  {
    if col == [] then Some([])
    else if !col[0].Raw? then None
    else
      match ApplyParseTime(col[1..])
      case None => None
      case Some(rest) => Some([Parsed(ParseTime(col[0].text))] + rest)
  }

  /**
   * `apply(extract_days)` over a column: it fails on the first cell that is
   * not text, and otherwise normalises every cell.
   */
  function ApplyExtractDays(col: seq<Cell>, days: seq<string>): (r: Option<seq<Cell>>)
    requires NonEmptyNames(days)
    ensures r.None? <==> exists n :: 0 <= n < |col| && !col[n].Raw?
    ensures r.Some? ==> |r.value| == |col|
    ensures r.Some? ==> forall n :: 0 <= n < |col| ==> r.value[n] == Raw(ExtractDays(col[n].text, days))
  {
    if col == [] then Some([])
    else if !col[0].Raw? then None
    else
      match ApplyExtractDays(col[1..], days)
      case None => None
      case Some(rest) => Some([Raw(ExtractDays(col[0].text, days))] + rest)
  }

  /** Column `k` once `parse_time` has read it; every row must reach that far. */
  function TimeColumn(pieces: seq<seq<string>>, k: nat): (col: seq<Cell>)
    requires forall n :: 0 <= n < |pieces| ==> k < |pieces[n]|
    ensures |col| == |pieces|
  {
    seq(|pieces|, n requires 0 <= n < |pieces| => Parsed(ParseTime(pieces[n][k])))
  }

  /**
   * The table after every step has run: `count` rows, text in the first two
   * columns and parsed times in the other four.
   */
  predicate Finished(table: seq<seq<Cell>>, count: nat) {
    |table| == |Columns| &&
    (forall k :: 0 <= k < |table| ==> |table[k]| == count) &&
    (forall n :: 0 <= n < count ==> table[0][n].Raw? && table[1][n].Raw?) &&
    (forall k, n :: 2 <= k < |table| && 0 <= n < count ==> table[k][n].Parsed?)
  }

  /** The finished table read row by row, one record per row. */
  function Records(table: seq<seq<Cell>>, count: nat): (rs: seq<Record>)
    requires Finished(table, count)
    ensures |rs| == count
  {
    seq(count, n requires 0 <= n < count =>
      Record(table[0][n].text, table[1][n].text,
        table[2][n].time, table[3][n].time, table[4][n].time, table[5][n].time))
  }

  /**
   * The column count `str.split(' / ', expand=True)` produces: the number of
   * pieces of the longest line, or none at all for an empty table.
   */
  function Widest(pieces: seq<seq<string>>): (w: nat)
    ensures forall n :: 0 <= n < |pieces| ==> |pieces[n]| <= w
    ensures |pieces| == 0 ==> w == 0
    ensures |pieces| > 0 ==> exists n :: 0 <= n < |pieces| && |pieces[n]| == w
  {
    if pieces == [] then 0
    else
      var w := Widest(pieces[1..]);
      if |pieces[0]| >= w then |pieces[0]| else w
  }

  /** Read row by row, the finished table holds the record of each line. */
  lemma RecordsOfTable(table: seq<seq<Cell>>, pieces: seq<seq<string>>, days: seq<string>)
    requires NonEmptyNames(days)
    requires forall n :: 0 <= n < |pieces| ==> |pieces[n]| == |Columns|
    requires |table| == |Columns| && table[0] == Column(pieces, 0)
    requires |table[1]| == |pieces|
    requires forall n :: 0 <= n < |pieces| ==> table[1][n] == Raw(ExtractDays(pieces[n][1], days))
    requires forall k :: 2 <= k < |Columns| ==> table[k] == TimeColumn(pieces, k)
    ensures Finished(table, |pieces|)
    ensures forall n :: 0 <= n < |pieces| ==> Records(table, |pieces|)[n] == RecordOf(pieces[n], days)
  {
    forall n | 0 <= n < |pieces|
      ensures table[0][n].Raw? && table[1][n].Raw?
      ensures forall k :: 2 <= k < |Columns| ==> table[k][n] == Parsed(ParseTime(pieces[n][k]))
    {
      assert table[0][n] == Raw(pieces[n][0]);
    }
    assert Finished(table, |pieces|);
  }

  /**
   * The steps after the split, on lines of at most six pieces: the columns
   * are named, the four time columns are parsed in place one after another,
   * and then the day column is normalised. A line short of six pieces leaves
   * a missing cell that makes `parse_time` fail for the whole table.
   */
  method ParseFields(pieces: seq<seq<string>>, days: seq<string>) returns (r: Option<seq<Record>>)
    requires NonEmptyNames(days)
    requires forall n :: 0 <= n < |pieces| ==> |pieces[n]| <= |Columns|
    ensures r.None? <==> exists n :: 0 <= n < |pieces| && |pieces[n]| != |Columns|
    ensures r.Some? ==> |r.value| == |pieces|
    ensures r.Some? ==> forall n :: 0 <= n < |pieces| ==> r.value[n] == RecordOf(pieces[n], days)
  {
    // The split table, held column by column; column `c` is named `Columns[c]`.
    var table := seq(|Columns|, c requires 0 <= c < |Columns| => Column(pieces, c));
    // Read the four time columns in turn.
    for c := 2 to |Columns|
      invariant |table| == |Columns|
      invariant forall k :: 0 <= k < 2 || c <= k < |Columns| ==> table[k] == Column(pieces, k)
      invariant c > 2 ==> forall n :: 0 <= n < |pieces| ==> c <= |pieces[n]|
      invariant forall k :: 2 <= k < c ==> table[k] == TimeColumn(pieces, k)
    {
      var parsed := ApplyParseTime(table[c]);
      if parsed.None? {
        return None;
      }
      forall n | 0 <= n < |pieces| ensures c < |pieces[n]| && table[c][n] == Raw(pieces[n][c]) {
        assert table[c][n].Raw?;
      }
      table := table[c := parsed.value];
      assert table[c] == TimeColumn(pieces, c);
    }
    // Normalise the day column; every row now has all six pieces.
    assert forall n :: 0 <= n < |pieces| ==> |pieces[n]| == |Columns|;
    var daysWorked := ApplyExtractDays(table[1], days);
    assert daysWorked.Some?;
    table := table[1 := daysWorked.value];
    RecordsOfTable(table, pieces, days);
    r := Some(Records(table, |pieces|));
  }

  /**
   * The whole table parses exactly when it has one column, at least one row,
   * and every line splits into six pieces; the records then follow the rows
   * one for one.
   */
  method ParseSchedule(data: Frame, days: seq<string>) returns (r: Option<seq<Record>>)
    requires Rectangular(data) && NonEmptyNames(days)
    ensures r.None? <==>
      data.width != 1 || |data.rows| == 0 ||
      exists i :: 0 <= i < |data.rows| && |Lines(data)[i]| != |Columns|
    ensures r.Some? ==> data.width == 1 && |r.value| == |data.rows|
    ensures r.Some? ==> forall i :: 0 <= i < |data.rows| ==> r.value[i] == RecordOf(Lines(data)[i], days)
  {
    if data.width != 1 {
      return None;
    }
    // Split every line; the longest fixes the number of columns.
    var pieces := Lines(data);
    var widest := Widest(pieces);
    if widest != |Columns| {
      return None;
    }
    r := ParseFields(pieces, days);
  }

  /**
   * A field in which no space is directly followed by '/' can neither hold
   * the separator nor run into the one after it: "Mon/Wed and Fri" is such
   * a field.
   */
  lemma NoSpacedSlashIsClean(x: string)
    requires forall i :: 0 <= i < |x| - 1 ==> x[i] != ' ' || x[i + 1] != '/'
    ensures EndsCleanly(x, Delimiter) && Free(x, Delimiter)
  {
    var y := x + Delimiter;
    forall p | 0 <= p < |x| ensures !OccursAt(y, p, Delimiter) {
      if p + 1 < |x| {
        assert y[p] == x[p] && y[p + 1] == x[p + 1];
      } else {
        assert y[p + 1] == Delimiter[0];
      }
      assert y[p] != ' ' || y[p + 1] != '/';
    }
    forall p | 0 <= p <= |x| ensures !OccursAt(x, p, Delimiter) {
      if p + |Delimiter| <= |x| {
        assert x[p] != ' ' || x[p + 1] != '/';
      }
    }
  }

  /** A field without any '/' is clean in particular. */
  lemma NoSlashIsClean(x: string)
    requires '/' !in x
    ensures EndsCleanly(x, Delimiter) && Free(x, Delimiter)
  {
    forall i | 0 <= i < |x| ensures x[i] != '/' {
      assert x[i] in x;
    }
    NoSpacedSlashIsClean(x);
  }

  /** The days field "Mon/Wed and Fri" keeps its '/' through the split. */
  lemma SampleIsClean()
    ensures EndsCleanly(Sample, Delimiter) && Free(Sample, Delimiter)
  {
    forall i | 0 <= i < |Sample| - 1 ensures Sample[i] != ' ' || Sample[i + 1] != '/' {
      if Sample[i + 1] == '/' {
        assert i == 2;
      }
    }
    NoSpacedSlashIsClean(Sample);
  }

  /**
   * A line made of six fields joined by " / ", none of which holds the
   * separator or runs into it, splits back into exactly those fields, and
   * its record holds them: the name as written, the days normalised and the
   * four times parsed.
   */
  lemma LineRoundTrip(fields: seq<string>, days: seq<string>)
    requires |fields| == |Columns| && NonEmptyNames(days)
    requires forall n :: 0 <= n < |fields| - 1 ==> EndsCleanly(fields[n], Delimiter)
    requires Free(fields[|fields| - 1], Delimiter)
    ensures Fields([Join(fields, Delimiter)]) == fields
    ensures RecordOf(Fields([Join(fields, Delimiter)]), days) ==
      Record(fields[0], ExtractDays(fields[1], days),
        ParseTime(fields[2]), ParseTime(fields[3]), ParseTime(fields[4]), ParseTime(fields[5]))
  {
    SplitJoin(fields, Delimiter);
  }

  /** The broker name of a parsed line is its text up to the first " / ", untouched. */
  lemma BrokerNameLeadsLine(line: string, days: seq<string>)
    requires |Fields([line])| == |Columns| && NonEmptyNames(days)
    ensures Find(line, Delimiter, 0).Some?
    ensures RecordOf(Fields([line]), days).brokerName == line[..Find(line, Delimiter, 0).value]
  {
    SplitHead(line, Delimiter);
  }
}
