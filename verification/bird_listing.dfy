/**
 * `show_route` over a whole listing: which file lines the reader has
 * handed out at each step, and the records the driver returns for a
 * listing of route rows, each followed by its attribute lines.
 */
module BirdListing {
  import opened Wrappers
  import opened Text
  import opened LineReader
  import opened BirdGrammar
  import opened BirdValue
  import opened BirdDetails
  import opened BirdBlocks
  import opened BirdParse

  // ---------------------------------------------------------------------------
  // Where the reader is in the file
  // ---------------------------------------------------------------------------

  /** The cached line is the file line handed out last, or "" once the file is exhausted. */
  predicate Synced(r: Reader) {
    && r.pos <= |r.lines| && r.line.Some?
    && (r.line.value == "" ==> r.pos == |r.lines|)
    && (r.line.value != "" ==> 0 < r.pos && r.lines[r.pos - 1] == r.line.value)
  }

  /** The index of the cached line; `|lines|` stands for the end of input. */
  function At(r: Reader): nat {
    if r.line.Some? && r.line.value != "" && r.pos > 0 then r.pos - 1 else |r.lines|
  }

  /** The index of the line the next read returns. */
  function Next(r: Reader): nat {
    if r.read then r.pos else At(r)
  }

  /**
   * What `birdc show route all` prints: no line is empty (every line read
   * from the file ends in a newline) and no attribute continuation line,
   * which starts with two tabs, is also a route summary row.
   */
  predicate Listing(lines: seq<string>) {
    forall i :: 0 <= i < |lines| ==> ListingLine(lines, i)
  }

  /** Line `i` of a listing is not empty, and is not a row when it starts with two tabs. */
  predicate ListingLine(lines: seq<string>, i: nat) {
    i < |lines| ==> lines[i] != "" && (StartsWith(lines[i], "\t\t") ==> RouteSummary(lines[i]).None?)
  }

  /** What the route summary pattern makes of each line. */
  function SummariesOf(lines: seq<string>): (sums: seq<Option<RouteRow>>)
    ensures |sums| == |lines|
  {
    seq(|lines|, i requires 0 <= i < |lines| => RouteSummary(lines[i]))
  }

  /** `sums[i]` is what the route summary pattern makes of line `i`. */
  predicate SummaryAt(lines: seq<string>, sums: seq<Option<RouteRow>>, i: nat) {
    i < |lines| && i < |sums| ==> sums[i] == RouteSummary(lines[i])
  }

  /** `sums` holds what the route summary pattern makes of each line. */
  predicate Matches(lines: seq<string>, sums: seq<Option<RouteRow>>) {
    |sums| == |lines| && forall i :: 0 <= i < |lines| ==> SummaryAt(lines, sums, i)
  }

  /** `Listing`, with the summaries of the lines given as `sums`. */
  predicate Shaped(lines: seq<string>, sums: seq<Option<RouteRow>>) {
    |sums| == |lines| && forall i :: 0 <= i < |lines| ==> ShapedLine(lines, sums, i)
  }

  /** Line `i` of `Shaped`. */
  predicate ShapedLine(lines: seq<string>, sums: seq<Option<RouteRow>>, i: nat) {
    i < |lines| && i < |sums| ==> lines[i] != "" && (StartsWith(lines[i], "\t\t") ==> sums[i].None?)
  }

  /** The summaries of a listing's lines match them, and the listing is shaped by them. */
  lemma SummariesOfMatch(lines: seq<string>)
    requires Listing(lines)
    ensures Matches(lines, SummariesOf(lines)) && Shaped(lines, SummariesOf(lines))
  {
    var sums := SummariesOf(lines);
    forall i | 0 <= i < |lines|
      ensures SummaryAt(lines, sums, i) && ShapedLine(lines, sums, i)
    {
      assert ListingLine(lines, i);
    }
  }

  /** No line with index in [a, b) is a route summary row. */
  predicate NoRows(sums: seq<Option<RouteRow>>, a: nat, b: nat) {
    forall i :: a <= i < b && i < |sums| ==> sums[i].None?
  }

  lemma NoRowsOne(sums: seq<Option<RouteRow>>, a: nat)
    requires a < |sums| && sums[a].None?
    ensures NoRows(sums, a, a + 1)
  {
  }

  lemma NoRowsJoin(sums: seq<Option<RouteRow>>, a: nat, b: nat, c: nat)
    requires NoRows(sums, a, b) && NoRows(sums, b, c)
    ensures NoRows(sums, a, c)
  {
  }

  /** The summary rows among `sums[i..]`, in order. */
  function RowsFrom(sums: seq<Option<RouteRow>>, i: nat): seq<RouteRow>
    decreases |sums| - i
  {
    if i >= |sums| then []
    else (if sums[i].Some? then [sums[i].value] else []) + RowsFrom(sums, i + 1)
  }

  /** The summary rows of a file, in order. */
  function Rows(lines: seq<string>): seq<RouteRow> {
    RowsFrom(SummariesOf(lines), 0)
  }

  /** A rewind moves the next read back onto the cached line. */
  lemma RewindAt(r: Reader)
    ensures Synced(Rewind(r)) == Synced(r) && Rewind(r).lines == r.lines
    ensures At(Rewind(r)) == At(r) && Next(Rewind(r)) == At(r)
  {
  }

  /** A read hands out the line at `Next` and leaves the reader on it. */
  lemma ReadSynced(r: Reader, sums: seq<Option<RouteRow>>)
    requires Synced(r) && Shaped(r.lines, sums)
    ensures ReadLine(r).Ok?
    ensures var (x, r1) := ReadLine(r).value;
      Synced(r1) && r1.read && r1.lines == r.lines && At(r1) == Next(r) && x == r1.line.value
  {
    if r.read && r.pos < |r.lines| {
      assert ShapedLine(r.lines, sums, r.pos);
    }
  }

  /** The first read of a fresh file leaves the reader on line 0. */
  lemma OpenSynced(lines: seq<string>, sums: seq<Option<RouteRow>>)
    requires Shaped(lines, sums)
    ensures var (x, r1) := ReadLine(Open(lines)).value;
      Synced(r1) && r1.read && r1.lines == lines && At(r1) == 0 && x == r1.line.value
  {
    if |lines| > 0 {
      assert ShapedLine(lines, sums, 0);
    }
  }

  /** Skipping lines that are not rows does not change the rows that follow. */
  lemma {:induction false} RowsFromSkip(sums: seq<Option<RouteRow>>, a: nat, b: nat)
    requires a <= b <= |sums| && NoRows(sums, a, b)
    ensures RowsFrom(sums, a) == RowsFrom(sums, b)
    decreases b - a
  {
    if a < b {
      RowsFromSkip(sums, a + 1, b);
      assert RowsFrom(sums, a) == [] + RowsFrom(sums, a + 1);
    }
  }

  /** A row followed by lines that are not rows: the rows from it are that row, then those after the gap. */
  lemma RowsFromRow(sums: seq<Option<RouteRow>>, a: nat, b: nat)
    requires a < b <= |sums| && sums[a].Some? && NoRows(sums, a + 1, b)
    ensures RowsFrom(sums, a) == [sums[a].value] + RowsFrom(sums, b)
  {
    RowsFromSkip(sums, a + 1, b);
  }

  // ---------------------------------------------------------------------------
  // What an attribute block consumes
  // ---------------------------------------------------------------------------

  /** Continuation lines start with two tabs, so none of them is a row. */
  lemma {:induction false} ContinuationsSpan(r: Reader, sums: seq<Option<RouteRow>>)
    requires Synced(r) && r.read && Shaped(r.lines, sums)
    ensures var (_, stop, r2) := Continuations(r);
      && Synced(r2) && r2.read && r2.lines == r.lines && stop == r2.line.value
      && Next(r) <= At(r2) && NoRows(sums, Next(r), At(r2))
    decreases Measure(r)
  {
    ReadSynced(r, sums);
    var (l, r1) := ReadLine(r).value;
    if l != "" && StartsWith(l, "\t\t") {
      assert ShapedLine(r.lines, sums, r.pos);
      ContinuationsSpan(r1, sums);
    }
  }

  /** The decoders of the route table. */
  predicate RouteDecoder(d: Decoder) {
    d == ColonStrDecoder || d == ColonIntDecoder || d == IntListDecoder
  }

  /** A `key: value` entry and its continuation lines: none of them is a row. */
  lemma EntrySpan(r: Reader, sums: seq<Option<RouteRow>>)
    requires Synced(r) && r.read && r.line.value != "" && Shaped(r.lines, sums) && sums[At(r)].None?
    ensures var r2 := Continuations(r).2;
      Synced(r2) && r2.lines == r.lines && At(r) < At(r2) && NoRows(sums, At(r), At(r2))
  {
    var r2 := Continuations(r).2;
    ContinuationsSpan(r, sums);
    NoRowsOne(sums, At(r));
    NoRowsJoin(sums, At(r), r.pos, At(r2));
  }

  /**
   * Where a route decoder leaves the reader: past the line it started on
   * and, for a string, past its continuation lines, with the line that
   * stopped it pushed back.
   */
  lemma RouteDecoderRest(d: Decoder, r: Reader)
    requires r.read && r.line.Some? && RouteDecoder(d) && RunDecoder(d, Rewind(r)).Ok?
    ensures RunDecoder(d, Rewind(r)).value.rest == (if d == ColonStrDecoder then Rewind(Continuations(r).2) else r)
  {
    assert ReadLine(Rewind(r)).value.1 == r;
    if d == ColonStrDecoder {
      assert RunDecoder(d, Rewind(r)) == ParseColonStr(Rewind(r));
    } else if d == ColonIntDecoder {
      assert RunDecoder(d, Rewind(r)) == ParseColonInt(Rewind(r));
    } else {
      assert RunDecoder(d, Rewind(r)) == ParseIntList(Rewind(r));
    }
  }

  /** A route decoder started on an attribute line consumes it and, for a string, its continuation lines, none of them rows. */
  lemma DecoderSpan(d: Decoder, r: Reader, x: Reader, sums: seq<Option<RouteRow>>)
    requires Synced(r) && r.read && r.line.value != "" && Shaped(r.lines, sums) && sums[At(r)].None?
    requires x == (if d == ColonStrDecoder then Rewind(Continuations(r).2) else r)
    ensures Synced(x) && x.lines == r.lines && At(r) < Next(x) && NoRows(sums, At(r), Next(x))
  {
    if d == ColonStrDecoder {
      var r2 := Continuations(r).2;
      EntrySpan(r, sums);
      RewindAt(r2);
    } else {
      NoRowsOne(sums, At(r));
    }
  }

  /** Every attribute of a route has a route decoder: the table's, or the string decoder. */
  lemma RouteDecoderFor(desc: string)
    ensures DecoderFor(RouteBlock, desc).Some? && RouteDecoder(DecoderFor(RouteBlock, desc).value)
  {
  }

  /**
   * One step of the attribute loop on a line that is not a row: the loop
   * either fails or goes on from a later line, and the lines in between
   * are not rows.
   */
  lemma DescStep(l: string, r: Reader, acc: map<string, Value>, sums: seq<Option<RouteRow>>)
      returns (l1: string, r1: Reader, acc1: map<string, Value>)
    requires Synced(r) && r.read && r.line == Some(l) && Shaped(r.lines, sums) && Matches(r.lines, sums)
    requires l != "" && !EndsBlock(RouteBlock, l) && DescLoop(l, r, RouteBlock, acc).Ok?
    ensures Synced(r1) && r1.read && r1.line == Some(l1) && r1.lines == r.lines
    ensures DescLoop(l, r, RouteBlock, acc) == DescLoop(l1, r1, RouteBlock, acc1)
    ensures At(r) < At(r1) && NoRows(sums, At(r), At(r1))
    ensures Measure(r1) + (if l1 != "" then 1 else 0) < Measure(r) + 1
  {
    assert SummaryAt(r.lines, sums, At(r));
    NoRowsOne(sums, At(r));
    ReadSynced(r, sums);
    match DetailDesc(RouteBlock, l)
    case None =>
      DescLoopSkips(l, r, RouteBlock, acc);
      l1, r1 := ReadLine(r).value.0, ReadLine(r).value.1;
      acc1 := acc;
    case Some(desc) =>
      RouteDecoderFor(desc);
      var d := DecoderFor(RouteBlock, desc).value;
      if RunDecoder(d, Rewind(r)).Err? {
        DescLoopDecoderFails(l, r, RouteBlock, acc, desc, d);
        assert false;
      }
      var dec := RunDecoder(d, Rewind(r)).value;
      DescLoopStores(l, r, RouteBlock, acc, desc, d, dec);
      RouteDecoderRest(d, r);
      DecoderSpan(d, r, dec.rest, sums);
      ReadSynced(dec.rest, sums);
      l1, r1 := ReadLine(dec.rest).value.0, ReadLine(dec.rest).value.1;
      acc1 := acc[dec.key := dec.value];
  }

  /** On a row or at the end of input the attribute loop stops where it is. */
  lemma DescLoopStops(l: string, r: Reader, acc: map<string, Value>, sums: seq<Option<RouteRow>>)
    requires Synced(r) && r.read && r.line == Some(l) && (l == "" || EndsBlock(RouteBlock, l))
    ensures DescLoop(l, r, RouteBlock, acc) == Ok((acc, Rewind(r)))
    ensures Synced(Rewind(r)) && At(Rewind(r)) == At(r) && NoRows(sums, At(r), At(r))
  {
  }

  /**
   * The attribute loop stops at a row or at the end of input, and every
   * line it passes over before that is not a row.
   */
  lemma {:induction false} DescLoopSpan(l: string, r: Reader, acc: map<string, Value>, sums: seq<Option<RouteRow>>)
    requires Synced(r) && r.read && r.line == Some(l) && Shaped(r.lines, sums) && Matches(r.lines, sums)
    requires DescLoop(l, r, RouteBlock, acc).Ok?
    ensures var r' := DescLoop(l, r, RouteBlock, acc).value.1;
      Synced(r') && r'.lines == r.lines && !r'.read && At(r) <= At(r') && NoRows(sums, At(r), At(r'))
    decreases Measure(r) + (if l != "" then 1 else 0)
  {
    if l == "" || EndsBlock(RouteBlock, l) {
      DescLoopStops(l, r, acc, sums);
    } else {
      var l1, r1, acc1 := DescStep(l, r, acc, sums);
      DescLoopSpan(l1, r1, acc1, sums);
      var r' := DescLoop(l1, r1, RouteBlock, acc1).value.1;
      NoRowsJoin(sums, At(r), At(r1), At(r'));
    }
  }

  /** A route's attribute block reaches from the line after the row to the next row, or to the end of input. */
  lemma RouteBlockSpan(r: Reader, sums: seq<Option<RouteRow>>)
    requires Synced(r) && r.read && Shaped(r.lines, sums) && Matches(r.lines, sums)
    requires ParseDescLines(r, RouteBlock).Ok?
    ensures var r' := ParseDescLines(r, RouteBlock).value.1;
      Synced(r') && r'.lines == r.lines && !r'.read && Next(r) <= At(r') && NoRows(sums, Next(r), At(r'))
  {
    ReadSynced(r, sums);
    var (l1, r1) := ReadLine(r).value;
    DescLoopSpan(l1, r1, map[], sums);
  }

  /** One turn of the route loop goes from its row to the next row, or to the end of input. */
  lemma RouteTurnSpan(l: string, r: Reader, sums: seq<Option<RouteRow>>)
    requires Synced(r) && r.read && r.line == Some(l) && l != "" && Shaped(r.lines, sums) && Matches(r.lines, sums)
    requires RouteTurnAt(l, r).Row?
    ensures var t := RouteTurnAt(l, r);
      && Synced(t.rest) && t.rest.read && t.rest.lines == r.lines && t.rest.line == Some(t.line)
      && At(r) < At(t.rest) && NoRows(sums, At(r) + 1, At(t.rest))
      && sums[At(r)] == Some(t.row)
  {
    assert SummaryAt(r.lines, sums, At(r));
    RouteBlockSpan(r, sums);
    ReadSynced(ParseDescLines(r, RouteBlock).value.1, sums);
  }

  // ---------------------------------------------------------------------------
  // The records of a listing
  // ---------------------------------------------------------------------------

  /** The network each row ends up with, met in this order after `network`. */
  function Nets(rows: seq<RouteRow>, network: Option<string>): (ns: seq<Option<string>>)
    ensures |ns| == |rows|
  {
    if |rows| == 0 then []
    else [Inherit(rows[0], network)] + Nets(rows[1..], Inherit(rows[0], network))
  }

  /** The network of the last of the rows that has one, or `network` when none has. */
  function LastNet(rows: seq<RouteRow>, network: Option<string>): Option<string> {
    if |rows| == 0 then network
    else if rows[|rows| - 1].net.Some? then rows[|rows| - 1].net
    else LastNet(rows[..|rows| - 1], network)
  }

  /** The networks of a row followed by more rows. */
  lemma NetsCons(row: RouteRow, rows: seq<RouteRow>, network: Option<string>)
    ensures Nets([row] + rows, network) == [Inherit(row, network)] + Nets(rows, Inherit(row, network))
  {
    assert ([row] + rows)[1..] == rows;
  }

  /**
   * Records for the rows after a row, preceded by the row's own record, are
   * records for all of them; `fields` stands for what a record keeps of a
   * row and its network.
   */
  lemma RecordsCons(res: seq<RouteRecord>, acc: seq<RouteRecord>, acc': seq<RouteRecord>, row: RouteRow,
                    rows: seq<RouteRow>, network: Option<string>, net: Option<string>,
                    fields: (RouteRow, Option<string>) -> map<string, string>)
    requires net == Inherit(row, network) && |acc'| == |acc| + 1 && acc'[|acc|].fields == fields(row, net)
    requires |acc'| <= |res| && res[..|acc'|] == acc' && |res| == |acc'| + |rows|
    requires forall k :: 0 <= k < |rows| ==> res[|acc'| + k].fields == fields(rows[k], Nets(rows, net)[k])
    ensures |res| == |acc| + |[row] + rows|
    ensures forall k :: 0 <= k < |[row] + rows| ==>
      res[|acc| + k].fields == fields(([row] + rows)[k], Nets([row] + rows, network)[k])
  {
    NetsCons(row, rows, network);
    forall k | 0 <= k < |[row] + rows|
      ensures res[|acc| + k].fields == fields(([row] + rows)[k], Nets([row] + rows, network)[k])
    {
      if k == 0 {
        assert res[|acc|] == res[..|acc'|][|acc|] == acc'[|acc|];
      } else {
        assert ([row] + rows)[k] == rows[k - 1];
        assert |acc| + k == |acc'| + (k - 1);
      }
    }
  }

  /**
   * The route loop, from any row on, appends one record per row that
   * follows in the file, each holding that row's fields with the network it
   * inherits.
   */
  lemma {:induction false} RouteLoopLists(l: string, r: Reader, network: Option<string>, acc: seq<RouteRecord>, sums: seq<Option<RouteRow>>)
    requires Synced(r) && r.read && r.line == Some(l) && Shaped(r.lines, sums) && Matches(r.lines, sums)
    requires RouteLoop(l, r, network, true, acc).Ok?
    ensures var res := RouteLoop(l, r, network, true, acc).value;
      var rows := RowsFrom(sums, At(r));
      && |res| == |acc| + |rows|
      && forall k :: 0 <= k < |rows| ==> res[|acc| + k].fields == RouteFields(rows[k], Nets(rows, network)[k])
    decreases Measure(r) + (if l != "" then 1 else 0)
  {
    if l != "" {
      var t := RouteTurnAt(l, r);
      RouteTurnSpan(l, r, sums);
      var net, acc' := RouteLoopRow(l, r, network, true, acc);
      RouteLoopLists(t.line, t.rest, net, acc', sums);
      RouteLoopAppends(t.line, t.rest, net, true, acc');
      RowsFromRow(sums, At(r), At(t.rest));
      var res := RouteLoop(l, r, network, true, acc).value;
      var rows' := RowsFrom(sums, At(t.rest));
      assert acc'[|acc|].fields == RouteFields(t.row, net);
      assert |res| == |acc'| + |rows'|;
      assert res[..|acc'|] == acc';
      RecordsCons(res, acc, acc', t.row, rows', network, net, RouteFields);
    }
  }

  /**
   * Over a listing, `show_route` with `return_json` returns one record per
   * summary row, in file order, holding that row's fields with the network
   * it inherits.
   */
  lemma ShowRouteLists(lines: seq<string>)
    requires Listing(lines) && ShowRoute(Open(lines), true).Ok?
    ensures var res := ShowRoute(Open(lines), true).value;
      var rows := Rows(lines);
      && |res| == |rows|
      && forall k :: 0 <= k < |rows| ==> res[k].fields == RouteFields(rows[k], Nets(rows, None)[k])
  {
    var sums := SummariesOf(lines);
    SummariesOfMatch(lines);
    OpenSynced(lines, sums);
    var (l, r1) := ReadLine(Open(lines)).value;
    RouteLoopLists(l, r1, None, [], sums);
  }

  /** Looking from the front: the network after the first row is where the search from the back ends. */
  lemma {:induction false} LastNetCons(row: RouteRow, rows: seq<RouteRow>, network: Option<string>)
    ensures LastNet([row] + rows, network) == LastNet(rows, Inherit(row, network))
    decreases |rows|
  {
    if |rows| > 0 {
      assert ([row] + rows)[..|rows|] == [row] + rows[..|rows| - 1];
      LastNetCons(row, rows[..|rows| - 1], network);
    } else {
      assert ([row] + rows)[..0] == [];
    }
  }

  /** The k-th row inherits the network of the last row up to it that names one, or `network` when none does. */
  lemma {:induction false} NetsAt(rows: seq<RouteRow>, network: Option<string>, k: nat)
    requires k < |rows|
    ensures Nets(rows, network)[k] == LastNet(rows[..k + 1], network)
    decreases |rows|
  {
    var net := Inherit(rows[0], network);
    if k == 0 {
      assert rows[..1] == [rows[0]] + [];
      LastNetCons(rows[0], [], network);
    } else {
      NetsAt(rows[1..], net, k - 1);
      assert rows[..k + 1] == [rows[0]] + rows[1..][..k];
      LastNetCons(rows[0], rows[1..][..k], network);
    }
  }

  /**
   * The element-wise reading: the k-th record holds the k-th summary row of
   * the listing, with the network of the last row up to it that names one
   * (no network key before any).
   */
  lemma ShowRouteRecordAt(lines: seq<string>, k: nat)
    requires Listing(lines) && ShowRoute(Open(lines), true).Ok?
    ensures |ShowRoute(Open(lines), true).value| == |Rows(lines)|
    ensures var rows := Rows(lines);
      k < |rows| ==> ShowRoute(Open(lines), true).value[k].fields == RouteFields(rows[k], LastNet(rows[..k + 1], None))
  {
    ShowRouteLists(lines);
    var rows := Rows(lines);
    if k < |rows| {
      NetsAt(rows, None, k);
    }
  }
}
