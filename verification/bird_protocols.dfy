/**
 * `show_protocols` over a whole table. As written, the details of a BGP
 * row are read with no stop pattern, so they run to the end of the input
 * and the scan cannot reach the rows after it; the intended reading gives
 * each summary row the lines up to the next summary row and returns one
 * record per BGP row, in table order.
 */
module BirdProtocols {
  import opened Wrappers
  import opened Text
  import opened LineReader
  import opened BirdGrammar
  import opened BirdValue
  import opened BirdDetails
  import opened BirdBlocks
  import opened BirdParse

  // ---------------------------------------------------------------------------
  // As written
  // ---------------------------------------------------------------------------

  /**
   * The details of a BGP row are read to the end of the input: after a
   * found record the reader holds "" with a rewind pending, whatever
   * follows the row.
   */
  lemma BgpDetailsRunToEnd(l: string, r: Reader)
    requires ReadLine(r).Ok? && l != "" && ProtoTurnAt(l, r).Found?
    ensures !ProtoTurnAt(l, r).rest.read && ProtoTurnAt(l, r).rest.line == Some("")
  {
    var next := ReadLine(r).value;
    var d := ParseDescLines(next.1, ProtocolBlock);
    OnlyRoutesStop(ProtocolBlock, d.value.1.line.value);
  }

  /** Once the reader is exhausted, the scan adds at most one record (a BGP row with no details). */
  lemma {:induction false} ScanAfterEnd(l: string, r: Reader, acc: seq<ProtoRecord>)
    requires !r.read && r.line == Some("") && r.pos >= |r.lines|
    ensures ProtoLoop(l, r, acc).Ok? ==> |ProtoLoop(l, r, acc).value| <= |acc| + 1
  {
    if l != "" {
      var next := ReadLine(r).value;
      assert next.0 == "" && next.1.read && next.1.pos >= |r.lines|;
      ExhaustedStaysEmpty(next.1);
      match ProtoTurnAt(l, r)
      case Failed(_) =>
      case Skip(line, rest) =>
      case Found(rec, line, rest) =>
        DescLinesAtEnd(next.1, ProtocolBlock);
    }
  }

  /** The column names `birdc` prints above the protocol table. */
  const Header: string := "name proto table state since info"

  /** A summary row as `birdc` prints it, one space between the columns. */
  function RowLine(row: ProtoRow): string {
    row.name + (" " + (row.proto + (" " + (row.table + (" " + (row.state + (" " + (row.since + ("" + row.info)))))))))
  }

  lemma BodyNewline(s: string)
    ensures Body(s + "\n") == s
  {
    assert (s + "\n")[..|s|] == s;
  }

  /** The conditions under which a printed summary row is matched back to its fields. */
  predicate Printable(row: ProtoRow) {
    && |row.name| > 0 && AllWord(row.name) && |row.proto| > 0 && AllWord(row.proto)
    && |row.table| > 0 && AllWord(row.table) && |row.state| > 0 && AllWord(row.state)
    && |row.since| > 0 && (forall i :: 0 <= i < |row.since| ==> IsProtoSinceChar(row.since[i]))
    && (|row.info| > 0 ==> !IsSpace(row.info[0]) && !IsProtoSinceChar(row.info[0]))
  }

  /** A printed summary row is matched back to its fields. */
  lemma RowLineSummary(row: ProtoRow)
    requires Printable(row)
    ensures ProtoSummary(RowLine(row) + "\n") == Some(row)
  {
    BodyNewline(RowLine(row));
    ProtoSummaryComplete(RowLine(row) + "\n", row, " ", " ", " ", " ", "");
  }

  /** A printed summary row is not a detail line: it starts with a word character. */
  lemma RowLineNotDetail(row: ProtoRow)
    requires |row.name| > 0 && AllWord(row.name)
    ensures DetailDesc(ProtocolBlock, RowLine(row) + "\n").None?
  {
    BodyNewline(RowLine(row));
    assert RowLine(row)[0] == row.name[0];
    assert IsWord(row.name[0]);
    NotIndented(RowLine(row) + "\n");
  }

  /** A line whose body starts with a character that is not a space has no indented detail. */
  lemma NotIndented(line: string)
    requires |Body(line)| > 0 && !IsSpace(Body(line)[0])
    ensures DetailDesc(ProtocolBlock, line).None?
  {
    assert RunLength(Body(line), IsSpace) == 0;
  }

  const Row2: ProtoRow := ProtoRow("p2", "BGP", "t2", "up", "1", "")
  const Row1: ProtoRow := ProtoRow("p1", "BGP", "t1", "up", "2", "")

  lemma ExampleRowsPrintable()
    ensures Printable(Row2) && Printable(Row1)
  {
    assert IsWord('p') && IsWord('t') && IsWord('u') && IsWord('B') && IsWord('G') && IsWord('P');
  }

  /** The header, a BGP row, an empty line and a second BGP row. */
  const TwoBgpRows: seq<string> := [Header + "\n", RowLine(Row2) + "\n", "\n", RowLine(Row1) + "\n"]

  lemma TwoBgpRowsHeader()
    ensures Split(TwoBgpRows[0]) == HeaderFields
  {
    HeaderAccepted("\n");
  }

  lemma TwoBgpRowsRows()
    ensures ProtoSummary(TwoBgpRows[1]) == Some(Row2) && ProtoSummary(TwoBgpRows[3]) == Some(Row1)
    ensures DetailDesc(ProtocolBlock, TwoBgpRows[3]).None?
  {
    ExampleRowsPrintable();
    RowLineSummary(Row2);
    RowLineSummary(Row1);
    RowLineNotDetail(Row1);
  }

  lemma BlankLine()
    ensures ProtoSummary("\n").None? && DetailDesc(ProtocolBlock, "\n").None?
  {
    BodyNewline("");
  }

  lemma TwoBgpRowsLines()
    ensures Split(TwoBgpRows[0]) == HeaderFields
    ensures ProtoSummary(TwoBgpRows[1]) == Some(Row2) && ProtoSummary(TwoBgpRows[3]) == Some(Row1)
    ensures ProtoSummary(TwoBgpRows[2]).None?
    ensures DetailDesc(ProtocolBlock, TwoBgpRows[2]).None? && DetailDesc(ProtocolBlock, TwoBgpRows[3]).None?
  {
    TwoBgpRowsHeader();
    TwoBgpRowsRows();
    BlankLine();
  }

  /**
   * Details read from the line after an empty line, when the only line left
   * is not a detail line, are empty and end at the end of the input.
   */
  lemma DetailsOfLastLine(lines: seq<string>)
    requires |lines| == 4 && lines[3] != "" && DetailDesc(ProtocolBlock, lines[3]).None?
    ensures ParseDescLines(Reader(lines, 3, Some(lines[2]), true), ProtocolBlock)
      == Ok((map[], Reader(lines, 4, Some(""), false)))
  {
    var r4 := Reader(lines, 4, Some(lines[3]), true);
    ReadNext(Reader(lines, 3, Some(lines[2]), true));
    DescLoopSkips(lines[3], r4, ProtocolBlock, map[]);
    assert ReadLine(r4) == Ok(("", Reader(lines, 4, Some(""), true)));
  }

  /** As written, the first row's details swallow the rest of the table and end at the end of the input. */
  lemma TwoBgpRowsDetails(lines: seq<string>)
    requires lines == TwoBgpRows
    ensures ParseDescLines(Reader(lines, 3, Some(lines[2]), true), ProtocolBlock)
      == Ok((map[], Reader(lines, 4, Some(""), false)))
  {
    TwoBgpRowsRows();
    DetailsOfLastLine(lines);
  }

  /** A line that is not a summary row, read when only the end of the input is left, ends the scan. */
  lemma ScanStopsAtEnd(l: string, r: Reader, acc: seq<ProtoRecord>)
    requires l != "" && ProtoSummary(l).None? && !r.read && r.line == Some("")
    ensures ProtoLoop(l, r, acc) == Ok(acc)
  {
    assert ProtoTurnAt(l, r) == Skip("", r.(read := true));
  }

  /** The header of the example is accepted and the scan starts on its first row. */
  lemma TwoBgpRowsStart(lines: seq<string>)
    requires lines == TwoBgpRows
    ensures ShowProtocols(Open(lines)) == ProtoLoop(lines[1], Reader(lines, 2, Some(lines[1]), true), [])
  {
    TwoBgpRowsHeader();
    ReadNext(Open(lines));
    ReadNext(Reader(lines, 1, Some(lines[0]), true));
  }

  /** A BGP row whose details parse adds its record and hands the scan the line read after it. */
  lemma BgpTurnStep(l: string, r: Reader, row: ProtoRow, l2: string, r3: Reader, m: map<string, Value>, rest: Reader)
    requires ProtoSummary(l) == Some(row) && row.proto == "BGP" && l != ""
    requires ReadLine(r) == Ok((l2, r3)) && ParseDescLines(r3, ProtocolBlock) == Ok((m, rest))
    ensures ReadLine(rest).Ok?
    ensures ProtoLoop(l, r, []) == ProtoLoop(l2, rest, [ProtoRecord(row, m)])
  {
    BgpRowTurn(l, r, row);
    assert ProtoTurnAt(l, r) == Found(ProtoRecord(row, m), l2, rest);
    var acc := ProtoLoopFound(l, r, []);
    assert acc == [ProtoRecord(row, m)];
  }

  /** The first row of the example takes the rest of the table as its details. */
  lemma TwoBgpRowsFirstTurn(lines: seq<string>)
    requires lines == TwoBgpRows
    ensures ProtoLoop(lines[1], Reader(lines, 2, Some(lines[1]), true), [])
      == ProtoLoop(lines[2], Reader(lines, 4, Some(""), false), [ProtoRecord(Row2, map[])])
  {
    var r2 := Reader(lines, 2, Some(lines[1]), true);
    TwoBgpRowsRows();
    ReadNext(r2);
    TwoBgpRowsDetails(lines);
    BgpTurnStep(lines[1], r2, Row2, lines[2], Reader(lines, 3, Some(lines[2]), true), map[], Reader(lines, 4, Some(""), false));
  }

  /**
   * As written, the table with two BGP rows yields one record: the second
   * BGP row is read as a detail line of the first, and the scan resumes
   * with the empty line, after which the input is exhausted.
   */
  lemma ShowProtocolsDropsRow()
    ensures ShowProtocols(Open(TwoBgpRows)) == Ok([ProtoRecord(Row2, map[])])
  {
    var lines := TwoBgpRows;
    TwoBgpRowsStart(lines);
    TwoBgpRowsFirstTurn(lines);
    BlankLine();
    ScanStopsAtEnd(lines[2], Reader(lines, 4, Some(""), false), [ProtoRecord(Row2, map[])]);
  }

  // ---------------------------------------------------------------------------
  // Intended: one record per BGP row
  // ---------------------------------------------------------------------------

  /** What the protocol summary pattern makes of each line. */
  function ProtoSummariesOf(lines: seq<string>): (sums: seq<Option<ProtoRow>>)
    ensures |sums| == |lines|
  {
    seq(|lines|, i requires 0 <= i < |lines| => ProtoSummary(lines[i]))
  }

  /** No summary row among `sums[a..b]`. */
  predicate NoSummary(sums: seq<Option<ProtoRow>>, a: nat, b: nat) {
    forall k :: a <= k < b && k < |sums| ==> sums[k].None?
  }

  /** The first summary row at or after `i`, or the end of the table: where the section of the row before `i` ends. */
  function SectionEnd(sums: seq<Option<ProtoRow>>, i: nat): (j: nat)
    requires i <= |sums|
    ensures i <= j <= |sums| && (j < |sums| ==> sums[j].Some?) && NoSummary(sums, i, j)
    decreases |sums| - i
  {
    if i == |sums| || sums[i].Some? then i else SectionEnd(sums, i + 1)
  }

  /**
   * The scan as intended from line `i`: a summary row owns the lines up to
   * the next summary row, and a BGP row's details are read from those
   * lines alone; other lines and other protocols are passed over.
   */
  function Scan(lines: seq<string>, sums: seq<Option<ProtoRow>>, i: nat): Result<seq<ProtoRecord>>
    requires |sums| == |lines| && i <= |lines|
    decreases |lines| - i
  {
    if i == |lines| then Ok([])
    else match sums[i]
      case None => Scan(lines, sums, i + 1)
      case Some(row) =>
        if row.proto !in Supported then Scan(lines, sums, i + 1)
        else
          var j := SectionEnd(sums, i + 1);
          var d :- ParseDescLines(Open(lines[i + 1..j]), ProtocolBlock);
          var rest :- Scan(lines, sums, j);
          Ok([ProtoRecord(row, d.0)] + rest)
  }

  /** `show_protocols` as intended: the header is checked as written, then every BGP row yields its record. */
  function ShowProtocolsIntended(lines: seq<string>): Result<seq<ProtoRecord>> {
    if |lines| == 0 || Split(lines[0]) != HeaderFields then Err(AssertionError("header.split() == HEADER_LINE_FIELDS"))
    else Scan(lines, ProtoSummariesOf(lines), 1)
  }

  /** The BGP summary rows among `sums[i..]`, in order. */
  function BgpRows(sums: seq<Option<ProtoRow>>, i: nat): seq<ProtoRow>
    decreases |sums| - i
  {
    if i >= |sums| then []
    else (if sums[i].Some? && sums[i].value.proto in Supported then [sums[i].value] else []) + BgpRows(sums, i + 1)
  }

  /** The summary rows the records hold, in order. */
  function RowsOf(rs: seq<ProtoRecord>): seq<ProtoRow> {
    if |rs| == 0 then [] else [rs[0].row] + RowsOf(rs[1..])
  }

  /** Lines that are not summary rows add no BGP row. */
  lemma {:induction false} BgpRowsSkip(sums: seq<Option<ProtoRow>>, a: nat, b: nat)
    requires a <= b <= |sums| && NoSummary(sums, a, b)
    ensures BgpRows(sums, a) == BgpRows(sums, b)
    decreases b - a
  {
    if a < b {
      BgpRowsSkip(sums, a + 1, b);
      assert BgpRows(sums, a) == [] + BgpRows(sums, a + 1);
    }
  }

  /**
   * The intended scan returns one record per BGP summary row, in table
   * order, each holding that row.
   */
  lemma {:induction false} ScanRows(lines: seq<string>, sums: seq<Option<ProtoRow>>, i: nat)
    requires |sums| == |lines| && i <= |lines| && Scan(lines, sums, i).Ok?
    ensures RowsOf(Scan(lines, sums, i).value) == BgpRows(sums, i)
    decreases |lines| - i
  {
    if i < |lines| {
      if sums[i].None? || sums[i].value.proto !in Supported {
        ScanRows(lines, sums, i + 1);
        assert BgpRows(sums, i) == [] + BgpRows(sums, i + 1);
      } else {
        var row := sums[i].value;
        var j := SectionEnd(sums, i + 1);
        var d := ParseDescLines(Open(lines[i + 1..j]), ProtocolBlock).value;
        ScanBgpStep(lines, sums, i, row, d.0);
        ScanRows(lines, sums, j);
        RowsOfCons(ProtoRecord(row, d.0), Scan(lines, sums, j).value);
        BgpRowsCons(sums, i, j);
      }
    }
  }

  lemma RowsOfCons(rec: ProtoRecord, rest: seq<ProtoRecord>)
    ensures RowsOf([rec] + rest) == [rec.row] + RowsOf(rest)
  {
    assert ([rec] + rest)[1..] == rest;
  }

  /** A BGP row followed by lines that are not summary rows contributes itself alone. */
  lemma BgpRowsCons(sums: seq<Option<ProtoRow>>, i: nat, j: nat)
    requires i < j <= |sums| && sums[i].Some? && sums[i].value.proto in Supported && NoSummary(sums, i + 1, j)
    ensures BgpRows(sums, i) == [sums[i].value] + BgpRows(sums, j)
  {
    BgpRowsSkip(sums, i + 1, j);
  }

  /** As intended, `show_protocols` returns one record per BGP row of the table, in order. */
  lemma IntendedOneRecordPerBgpRow(lines: seq<string>)
    requires ShowProtocolsIntended(lines).Ok?
    ensures RowsOf(ShowProtocolsIntended(lines).value) == BgpRows(ProtoSummariesOf(lines), 1)
  {
    ScanRows(lines, ProtoSummariesOf(lines), 1);
  }

  /** A section holding one line that is not a detail line carries no details. */
  lemma NoDetailsInSection(x: string)
    requires x != "" && DetailDesc(ProtocolBlock, x).None?
    ensures ParseDescLines(Open([x]), ProtocolBlock).Ok?
    ensures ParseDescLines(Open([x]), ProtocolBlock).value.0 == map[]
  {
    var r1 := Reader([x], 1, Some(x), true);
    ReadNext(Open([x]));
    DescLoopSkips(x, r1, ProtocolBlock, map[]);
  }

  /** An empty section carries no details. */
  lemma NoDetailsInEmptySection()
    ensures ParseDescLines(Open([]), ProtocolBlock).Ok?
    ensures ParseDescLines(Open([]), ProtocolBlock).value.0 == map[]
  {
  }

  /** The intended scan on a BGP row whose section parses: its record, then the records after the section. */
  lemma ScanBgpStep(lines: seq<string>, sums: seq<Option<ProtoRow>>, i: nat, row: ProtoRow, m: map<string, Value>)
    requires |sums| == |lines| && i < |lines| && sums[i] == Some(row) && row.proto == "BGP"
    requires ParseDescLines(Open(lines[i + 1..SectionEnd(sums, i + 1)]), ProtocolBlock).Ok?
    requires ParseDescLines(Open(lines[i + 1..SectionEnd(sums, i + 1)]), ProtocolBlock).value.0 == m
    requires Scan(lines, sums, SectionEnd(sums, i + 1)).Ok?
    ensures Scan(lines, sums, i) == Ok([ProtoRecord(row, m)] + Scan(lines, sums, SectionEnd(sums, i + 1)).value)
  {
  }

  /** Two BGP rows, the first followed by one line that is not a detail line, give two records. */
  lemma ScanTwoRows(lines: seq<string>, sums: seq<Option<ProtoRow>>, row2: ProtoRow, row1: ProtoRow)
    requires |lines| == 4 && |sums| == 4 && lines[2] != "" && DetailDesc(ProtocolBlock, lines[2]).None?
    requires sums[1] == Some(row2) && sums[2].None? && sums[3] == Some(row1)
    requires row2.proto == "BGP" && row1.proto == "BGP"
    ensures Scan(lines, sums, 1) == Ok([ProtoRecord(row2, map[]), ProtoRecord(row1, map[])])
  {
    assert SectionEnd(sums, 2) == 3;
    assert SectionEnd(sums, 4) == 4;
    assert lines[2..3] == [lines[2]];
    NoDetailsInSection(lines[2]);
    assert lines[4..4] == [];
    NoDetailsInEmptySection();
    assert Scan(lines, sums, 4) == Ok([]);
    ScanBgpStep(lines, sums, 3, row1, map[]);
    assert [ProtoRecord(row1, map[])] + [] == [ProtoRecord(row1, map[])];
    ScanBgpStep(lines, sums, 1, row2, map[]);
    assert [ProtoRecord(row2, map[])] + [ProtoRecord(row1, map[])] == [ProtoRecord(row2, map[]), ProtoRecord(row1, map[])];
  }

  /** As intended, the table with two BGP rows yields a record for each. */
  lemma IntendedKeepsRow()
    ensures ShowProtocolsIntended(TwoBgpRows) == Ok([ProtoRecord(Row2, map[]), ProtoRecord(Row1, map[])])
  {
    var lines := TwoBgpRows;
    var sums := ProtoSummariesOf(lines);
    TwoBgpRowsLines();
    ScanTwoRows(lines, sums, Row2, Row1);
  }
}
