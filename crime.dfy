/**
 * District extraction from the crime-statistics table
 * (`load_and_process_crime_data`). The table arrives already split into a
 * header row and data rows of optional text cells; a missing cell (pandas'
 * NaN) is None. Every failure of the source gives an empty table, modelled
 * as the empty sequence.
 */
module Crime {
  import opened Options
  import opened Seqs
  import opened Text

  type Cell = Option<string>

  datatype Table = Table(headers: seq<string>, rows: seq<seq<Cell>>)

  /** One row of the result: the `District` and `Total_Crime` columns. */
  datatype DistrictStat = DistrictStat(district: Cell, totalCrime: Cell)

  const CodeColumn := "LOR-Schlüssel (Bezirksregion)"
  const NameColumn := "Bezeichnung (Bezirksregion)"
  const DistrictColumn := "District"
  const TotalColumnName := "Total_Crime"
  /** The region-code suffix of a whole-district row. */
  const DistrictSuffix := "0000"

  /** A character missing from a string is missing from its stripped form. */
  lemma StripKeepsAbsent(s: string, c: char)
    requires c !in s
    ensures c !in Strip(s)
  {
    var i :| TrimmedFrom(s, Strip(s), i);
    assert forall k :: 0 <= k < |Strip(s)| ==> Strip(s)[k] == s[i + k];
  }

  /** `c.replace('\n', '').strip()` on one header. */
  function NormalizeHeader(h: string): string
  {
    Strip(RemoveNewlines(h))
  }

  /** No line break, and no whitespace at either end. */
  predicate CleanHeader(h: string)
  {
    '\n' !in h && (h == [] || (!IsSpace(h[0]) && !IsSpace(h[|h| - 1])))
  }

  /**
   * The normalised header holds no line break and neither starts nor ends
   * with whitespace.
   */
  lemma NormalizeHeaderClean(h: string)
    ensures CleanHeader(NormalizeHeader(h))
  {
    StripKeepsAbsent(RemoveNewlines(h), '\n');
  }

  function NormalizeHeaders(headers: seq<string>): (r: seq<string>)
    ensures |r| == |headers|
    ensures forall i :: 0 <= i < |r| ==> r[i] == NormalizeHeader(headers[i])
  {
    seq(|headers|, i requires 0 <= i < |headers| => NormalizeHeader(headers[i]))
  }

  /** After normalisation no header holds a line break or surrounding whitespace. */
  lemma HeadersNormalized(headers: seq<string>)
    ensures forall h :: h in NormalizeHeaders(headers) ==> CleanHeader(h)
  {
    var hs := NormalizeHeaders(headers);
    forall h | h in hs ensures CleanHeader(h) {
      var i :| 0 <= i < |hs| && hs[i] == h;
      NormalizeHeaderClean(headers[i]);
    }
  }

  /** A header naming the offence total. */
  predicate IsTotalHeader(h: string)
  {
    Contains(h, "Straftaten") && Contains(h, "insgesamt")
  }

  /** `[c for c in columns if ...][0]`: the first header naming the total, if any. */
  function TotalColumn(headers: seq<string>): (r: Option<nat>)
    ensures r.Some? ==> r.value < |headers| && IsTotalHeader(headers[r.value])
    ensures r.Some? ==> forall j :: 0 <= j < r.value ==> !IsTotalHeader(headers[j])
    ensures r.None? <==> forall h :: h in headers ==> !IsTotalHeader(h)
  {
    FirstIndex(IsTotalHeader, headers)
  }

  /** The test "this header is `name`", as a value. */
  function Named(name: string): string -> bool
  {
    h => h == name
  }

  /** `df[name]`: the position of the column called `name`. */
  function ColumnIndex(headers: seq<string>, name: string): (r: Option<nat>)
    ensures r.Some? ==> r.value < |headers| && headers[r.value] == name
    ensures r.None? <==> name !in headers
  {
    FirstIndex(Named(name), headers)
  }

  /**
   * The `rename` of the district-name column to `District` and of the total
   * column to `Total_Crime`. Renaming goes by name: the name column is
   * called `District`, every column named like the total `Total_Crime`, and
   * every other column keeps its name.
   */
  function Renamed(headers: seq<string>, totalCol: nat): (r: seq<string>)
    requires totalCol < |headers|
    ensures |r| == |headers|
    ensures forall i :: 0 <= i < |r| && headers[i] == NameColumn ==> r[i] == DistrictColumn
    ensures forall i :: 0 <= i < |r| && headers[i] != NameColumn && headers[i] == headers[totalCol] ==>
              r[i] == TotalColumnName
    ensures forall i :: 0 <= i < |r| && headers[i] != NameColumn && headers[i] != headers[totalCol] ==>
              r[i] == headers[i]
  {
    seq(|headers|, i requires 0 <= i < |headers| =>
      if headers[i] == NameColumn then DistrictColumn
      else if headers[i] == headers[totalCol] then TotalColumnName
      else headers[i])
  }

  /** The positions of the code, district and total columns. */
  datatype Columns = Columns(code: nat, district: nat, total: nat)

  /**
   * The columns the loader reads, found among the normalised headers. The
   * lookup fails exactly when no header names the total, the code column is
   * missing, or there is neither a name column nor a column already called
   * `District` (None stands for the source raising or returning early);
   * otherwise the total column names the total, the code column is the code
   * header, and the district column is the name column or a column called
   * `District`.
   */
  function FindColumns(headers: seq<string>): (r: Option<Columns>)
    ensures var hs := NormalizeHeaders(headers);
            r.None? <==> || (forall h :: h in hs ==> !IsTotalHeader(h))
                         || CodeColumn !in hs
                         || (NameColumn !in hs && DistrictColumn !in hs)
    ensures r.Some? ==>
              var hs := NormalizeHeaders(headers);
              && r.value.total < |hs| && IsTotalHeader(hs[r.value.total])
              && r.value.code < |hs| && hs[r.value.code] == CodeColumn
              && r.value.district < |hs| && (hs[r.value.district] == NameColumn || hs[r.value.district] == DistrictColumn)
  {
    var hs := NormalizeHeaders(headers);
    match TotalColumn(hs)
    case None => None
    case Some(totalCol) =>
      DistrictFoundAfterRename(hs, totalCol);
      match (ColumnIndex(hs, CodeColumn), ColumnIndex(Renamed(hs, totalCol), DistrictColumn))
      case (Some(codeCol), Some(districtCol)) => Some(Columns(codeCol, districtCol, totalCol))
      case _ => None
  }

  /**
   * After the rename a column called `District` is the name column or a
   * column that was called `District` already (the total is never so named).
   */
  lemma DistrictFoundAfterRename(hs: seq<string>, totalCol: nat)
    requires totalCol < |hs| && IsTotalHeader(hs[totalCol])
    ensures var rn := Renamed(hs, totalCol);
            forall i :: 0 <= i < |rn| ==> (rn[i] == DistrictColumn <==> hs[i] == NameColumn || hs[i] == DistrictColumn)
    ensures DistrictColumn in Renamed(hs, totalCol) <==> NameColumn in hs || DistrictColumn in hs
  {
    var rn := Renamed(hs, totalCol);
    MissingCharRulesOut(DistrictColumn, "Straftaten", 'f');
    assert DistrictColumn != TotalColumnName;
    if NameColumn in hs || DistrictColumn in hs {
      var i :| 0 <= i < |hs| && (hs[i] == NameColumn || hs[i] == DistrictColumn);
      assert rn[i] == DistrictColumn;
    }
  }

  /** The cell of `row` in column `j`; a short row reads as missing there. */
  function CellAt(row: seq<Cell>, j: nat): Cell
  {
    if j < |row| then row[j] else None
  }

  /** `.str.endswith('0000', na=False)`: a present code ending in "0000". */
  predicate IsDistrictCode(code: Cell)
  {
    code.Some? && EndsWith(code.value, DistrictSuffix)
  }

  function IsDistrictRow(codeCol: nat): seq<Cell> -> bool
  {
    row => IsDistrictCode(CellAt(row, codeCol))
  }

  /** `.str.strip()` on one cell; a missing cell stays missing. */
  function StripCell(c: Cell): (r: Cell)
    ensures r.Some? <==> c.Some?
    ensures c.Some? ==> exists i :: TrimmedFrom(c.value, r.value, i)
    ensures r.Some? ==> Strip(r.value) == r.value
  {
    match c
    case None => None
    case Some(s) =>
      StripIdempotent(s);
      var r := Some(Strip(s));
      assert r.value == Strip(s);
      r
  }

  /**
   * The two output columns of one retained row: the district name, trimmed
   * (missing when the cell is), and the total as it stands.
   */
  function Project(row: seq<Cell>, cols: Columns): (d: DistrictStat)
    ensures d.totalCrime == CellAt(row, cols.total)
    ensures d.district.Some? <==> CellAt(row, cols.district).Some?
    ensures d.district.Some? ==> exists i :: TrimmedFrom(CellAt(row, cols.district).value, d.district.value, i)
    ensures d.district.Some? ==> Strip(d.district.value) == d.district.value
  {
    DistrictStat(StripCell(CellAt(row, cols.district)), CellAt(row, cols.total))
  }

  /** The retained rows, projected, in table order. */
  function DistrictStats(rows: seq<seq<Cell>>, cols: Columns): (r: seq<DistrictStat>)
    ensures |r| <= |rows|
  {
    var chosen := Filter(IsDistrictRow(cols.code), rows);
    seq(|chosen|, k requires 0 <= k < |chosen| => Project(chosen[k], cols))
  }

  /**
   * The whole loader: [] when a required column is missing, else the
   * district rows; never more rows than the table has.
   */
  function LoadDistrictStats(t: Table): (r: seq<DistrictStat>)
    ensures FindColumns(t.headers).None? ==> r == []
    ensures |r| <= |t.rows|
  {
    match FindColumns(t.headers)
    case None => []
    case Some(cols) => DistrictStats(t.rows, cols)
  }

  /** Without a header naming the total the result is empty. */
  lemma NoTotalColumnIsEmpty(t: Table)
    requires forall h :: h in NormalizeHeaders(t.headers) ==> !IsTotalHeader(h)
    ensures LoadDistrictStats(t) == []
  {
  }

  /**
   * The total column the loader uses is the first normalised header that
   * holds both "Straftaten" and "insgesamt".
   */
  lemma TotalIsFirstMatchingHeader(t: Table)
    requires FindColumns(t.headers).Some?
    ensures var hs := NormalizeHeaders(t.headers);
            var total := FindColumns(t.headers).value.total;
            && total < |hs| && IsTotalHeader(hs[total])
            && forall j :: 0 <= j < total ==> !IsTotalHeader(hs[j])
  {
  }

  /**
   * Row selection: the result holds one row per table row whose region code
   * is present and ends in "0000", at strictly increasing table positions
   * (table order), each cut down to its trimmed district name and its total.
   */
  lemma DistrictRowsSelected(t: Table, cols: Columns)
    requires FindColumns(t.headers) == Some(cols)
    ensures var r := LoadDistrictStats(t);
            var idx := Positions(IsDistrictRow(cols.code), t.rows);
            && |r| == |idx|
            && Increasing(idx)
            && (forall i :: 0 <= i < |t.rows| && IsDistrictCode(CellAt(t.rows[i], cols.code)) ==> i in idx)
            && forall k :: 0 <= k < |r| ==>
                 && idx[k] < |t.rows|
                 && IsDistrictCode(CellAt(t.rows[idx[k]], cols.code))
                 && r[k] == Project(t.rows[idx[k]], cols)
  {
    LoadedWith(t, cols);
    StatsAtPositions(t.rows, cols);
  }

  lemma LoadedWith(t: Table, cols: Columns)
    requires FindColumns(t.headers) == Some(cols)
    ensures LoadDistrictStats(t) == DistrictStats(t.rows, cols)
  {
  }

  /** The k-th output row is the projection of the k-th retained table row. */
  lemma StatsAtPositions(rows: seq<seq<Cell>>, cols: Columns)
    ensures var r := DistrictStats(rows, cols);
            var idx := Positions(IsDistrictRow(cols.code), rows);
            && |r| == |idx|
            && Increasing(idx)
            && (forall i :: 0 <= i < |rows| && IsDistrictCode(CellAt(rows[i], cols.code)) ==> i in idx)
            && forall k :: 0 <= k < |r| ==>
                 && idx[k] < |rows|
                 && IsDistrictCode(CellAt(rows[idx[k]], cols.code))
                 && r[k] == Project(rows[idx[k]], cols)
  {
    var r := DistrictStats(rows, cols);
    var keep := IsDistrictRow(cols.code);
    var chosen := Filter(keep, rows);
    FilterAtPositions(keep, rows);
    var idx := Positions(keep, rows);
    forall k | 0 <= k < |r|
      ensures idx[k] < |rows| && r[k] == Project(rows[idx[k]], cols)
    {
      assert chosen[k] == rows[idx[k]];
    }
  }

  /**
   * A row is retained exactly when its region code is present and ends in
   * "0000" (so a row with a missing code never is), and every output row
   * comes from such a row.
   */
  lemma DistrictRowMembership(rows: seq<seq<Cell>>, cols: Columns, row: seq<Cell>)
    requires row in rows
    ensures IsDistrictCode(CellAt(row, cols.code)) ==> Project(row, cols) in DistrictStats(rows, cols)
    ensures forall d :: d in DistrictStats(rows, cols) ==>
              exists src :: src in rows && IsDistrictCode(CellAt(src, cols.code)) && d == Project(src, cols)
  {
    var r := DistrictStats(rows, cols);
    var chosen := Filter(IsDistrictRow(cols.code), rows);
    if IsDistrictCode(CellAt(row, cols.code)) {
      assert row in chosen;
      var k :| 0 <= k < |chosen| && chosen[k] == row;
      assert r[k] == Project(row, cols);
    }
    forall d | d in r
      ensures exists src :: src in rows && IsDistrictCode(CellAt(src, cols.code)) && d == Project(src, cols)
    {
      var k :| 0 <= k < |r| && r[k] == d;
      assert chosen[k] in chosen;
    }
  }

  /** The output has only the two renamed columns, and every district name comes out trimmed. */
  lemma DistrictNamesTrimmed(t: Table)
    ensures forall d :: d in LoadDistrictStats(t) && d.district.Some? ==>
              Strip(d.district.value) == d.district.value
  {
    match FindColumns(t.headers)
    case None =>
    case Some(cols) => StatsTrimmed(t.rows, cols);
  }

  lemma StatsTrimmed(rows: seq<seq<Cell>>, cols: Columns)
    ensures forall d :: d in DistrictStats(rows, cols) && d.district.Some? ==>
              Strip(d.district.value) == d.district.value
  {
    var r := DistrictStats(rows, cols);
    forall d | d in r && d.district.Some? ensures Strip(d.district.value) == d.district.value {
      var k :| 0 <= k < |r| && r[k] == d;
    }
  }

  /** Normalising a header a second time changes nothing. */
  lemma NormalizeHeaderIdempotent(h: string)
    ensures NormalizeHeader(NormalizeHeader(h)) == NormalizeHeader(h)
  {
    NormalizeHeaderClean(h);
    CleanHeaderKept(NormalizeHeader(h));
  }

  /** A header that is already clean comes through normalisation unchanged. */
  lemma CleanHeaderKept(h: string)
    requires CleanHeader(h)
    ensures NormalizeHeader(h) == h
  {
    RemoveNewlinesNoop(h);
    StripClean(h);
  }

  /** A header broken over two lines is read as the two lines joined. */
  lemma BrokenHeaderJoined(a: string, b: string)
    requires '\n' !in a && '\n' !in b && a != [] && !IsSpace(a[0]) && b != [] && !IsSpace(b[|b| - 1])
    ensures NormalizeHeader(a + "\n" + b) == a + b
  {
    RemoveNewlinesJoins(a, b);
    assert '\n' !in a + b;
    CleanHeaderKept(a + b);
  }

  /**
   * The column lookup on a three-column header row whose headers normalise
   * to the code header, the name header and a header naming the total.
   */
  lemma ThreeColumns(headers: seq<string>)
    requires |headers| == 3
    requires NormalizeHeader(headers[0]) == CodeColumn && NormalizeHeader(headers[1]) == NameColumn
    requires IsTotalHeader(NormalizeHeader(headers[2]))
    ensures FindColumns(headers) == Some(Columns(0, 1, 2))
  {
    var hs := NormalizeHeaders(headers);
    TotalInThirdColumn(hs);
    CodeInFirstColumn(hs);
    DistrictInSecondColumn(hs);
  }

  lemma TotalInThirdColumn(hs: seq<string>)
    requires |hs| == 3 && hs[0] == CodeColumn && hs[1] == NameColumn && IsTotalHeader(hs[2])
    ensures TotalColumn(hs) == Some(2)
  {
    KeyHeadersAreNotTotals();
    assert hs[2] in hs;
  }

  lemma CodeInFirstColumn(hs: seq<string>)
    requires |hs| == 3 && hs[0] == CodeColumn
    ensures ColumnIndex(hs, CodeColumn) == Some(0)
  {
    assert CodeColumn in hs;
  }

  lemma DistrictInSecondColumn(hs: seq<string>)
    requires |hs| == 3 && hs[0] == CodeColumn && hs[1] == NameColumn
    ensures ColumnIndex(Renamed(hs, 2), DistrictColumn) == Some(1)
  {
    var rn := Renamed(hs, 2);
    assert rn[0] != DistrictColumn && rn[1] == DistrictColumn;
  }

  /** Neither the code nor the name header names the total. */
  lemma KeyHeadersAreNotTotals()
    ensures !IsTotalHeader(CodeColumn) && !IsTotalHeader(NameColumn)
  {
    MissingCharRulesOut(CodeColumn, "Straftaten", 'f');
    MissingCharRulesOut(NameColumn, "Straftaten", 'f');
  }

  /** The header of the total in the example, as it arrives: broken over two lines. */
  const ExampleTotalHeader := "Straftaten \n-insgesamt-"
  /** The same header once the line break is gone. */
  const JoinedTotalHeader := "Straftaten -insgesamt-"

  lemma ExampleTotalHeaderJoined()
    ensures NormalizeHeader(ExampleTotalHeader) == JoinedTotalHeader
  {
    var a, b := "Straftaten ", "-insgesamt-";
    TotalHeaderHalves(a, b);
    assert ExampleTotalHeader == a + "\n" + b;
    assert JoinedTotalHeader == a + b;
    BrokenHeaderJoined(a, b);
  }

  lemma TotalHeaderHalves(a: string, b: string)
    requires a == "Straftaten " && b == "-insgesamt-"
    ensures '\n' !in a && '\n' !in b && a != [] && !IsSpace(a[0]) && b != [] && !IsSpace(b[|b| - 1])
  {
  }

  lemma JoinedTotalHeaderNamesTotal()
    ensures IsTotalHeader(JoinedTotalHeader)
  {
    assert OccursAt(JoinedTotalHeader, "Straftaten", 0);
    assert OccursAt(JoinedTotalHeader, "insgesamt", 12);
  }

  lemma CodeHeaderKept()
    ensures NormalizeHeader(CodeColumn) == CodeColumn
  {
    CleanHeaderKept(CodeColumn);
  }

  lemma NameHeaderKept()
    ensures NormalizeHeader(NameColumn) == NameColumn
  {
    CleanHeaderKept(NameColumn);
  }

  /**
   * In the example header row the total sits in a column whose name is
   * broken over two lines; once normalised it is found at position 2, the
   * code at 0 and the district name at 1.
   */
  lemma ExampleColumns(headers: seq<string>)
    requires |headers| == 3
    requires headers[0] == CodeColumn && headers[1] == NameColumn && headers[2] == ExampleTotalHeader
    ensures FindColumns(headers) == Some(Columns(0, 1, 2))
  {
    assert NormalizeHeader(headers[0]) == CodeColumn by { CodeHeaderKept(); }
    assert NormalizeHeader(headers[1]) == NameColumn by { NameHeaderKept(); }
    assert IsTotalHeader(NormalizeHeader(headers[2])) by {
      ExampleTotalHeaderJoined();
      JoinedTotalHeaderNamesTotal();
    }
    ThreeColumns(headers);
  }

  lemma ExampleRowsFiltered(rows: seq<seq<Cell>>)
    requires rows == [[Some("010000"), Some(" Mitte "), Some("120")],
                      [Some("011001"), Some("Tiergarten"), Some("40")]]
    ensures Filter(IsDistrictRow(0), rows) == [rows[0]]
  {
    assert !EndsWith("011001", DistrictSuffix);
    assert EndsWith("010000", DistrictSuffix);
    assert rows[..1][..0] == [];
    assert rows[..|rows| - 1] == rows[..1];
  }

  lemma PaddedNameTrimmed()
    ensures Strip(" Mitte ") == "Mitte"
  {
    StripPadded("Mitte");
    assert " " + "Mitte" + " " == " Mitte ";
  }

  /**
   * The row selection of the worked example: of a district row "010000"
   * and a sub-district row "011001", only the district row survives, with
   * its trimmed name and total.
   */
  lemma ExampleRowsSelected(rows: seq<seq<Cell>>)
    requires rows == [[Some("010000"), Some(" Mitte "), Some("120")],
                      [Some("011001"), Some("Tiergarten"), Some("40")]]
    ensures DistrictStats(rows, Columns(0, 1, 2)) == [DistrictStat(Some("Mitte"), Some("120"))]
  {
    ExampleRowsFiltered(rows);
    PaddedNameTrimmed();
  }

  /**
   * The worked example through the whole loader: the header row is
   * normalised, the columns are found, and of the district row "010000" and
   * the sub-district row "011001" only the district row survives, with its
   * trimmed name and its total.
   */
  lemma TwoRowExample()
    ensures LoadDistrictStats(Table([CodeColumn, NameColumn, ExampleTotalHeader],
              [[Some("010000"), Some(" Mitte "), Some("120")],
               [Some("011001"), Some("Tiergarten"), Some("40")]]))
            == [DistrictStat(Some("Mitte"), Some("120"))]
  {
    var headers := [CodeColumn, NameColumn, ExampleTotalHeader];
    var rows := [[Some("010000"), Some(" Mitte "), Some("120")],
                 [Some("011001"), Some("Tiergarten"), Some("40")]];
    ExampleColumns(headers);
    ExampleRowsSelected(rows);
  }
}
