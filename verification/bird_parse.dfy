/**
 * The two drivers: `show_protocols` (the table of `birdc show protocols
 * all`) and `show_route` (the rows of `birdc show route all`), as the lists
 * they return.
 */
module BirdParse {
  import opened Wrappers
  import opened Text
  import opened LineReader
  import opened BirdGrammar
  import opened BirdValue
  import opened BirdDetails

  // ---------------------------------------------------------------------------
  // show_protocols
  // ---------------------------------------------------------------------------

  /** `HEADER_LINE_FIELDS`: the column names of the protocol table's header line. */
  const HeaderFields: seq<string> := ["name", "proto", "table", "state", "since", "info"]

  /** `SUPPORTED`: the only protocol kind whose details are read. */
  const Supported: set<string> := {"BGP"}

  /** One protocol: the summary groups as matched, and its details. */
  datatype ProtoRecord = ProtoRecord(row: ProtoRow, details: map<string, Value>)

  /** The header line must split into exactly the expected column names. */
  function ShowProtocols(r: Reader): (res: Result<seq<ProtoRecord>>)
    ensures ReadLine(r).Ok? && Split(ReadLine(r).value.0) != HeaderFields ==> res.Err? && res.error.AssertionError?
    ensures res.Ok? ==> AllSupported(res.value)
  {
    var header :- ReadLine(r);
    if Split(header.0) != HeaderFields then Err(AssertionError("header.split() == HEADER_LINE_FIELDS"))
    else
      var first := ReadLine(header.1).value;
      ProtoLoopAppends(first.0, first.1, []);
      ProtoLoop(first.0, first.1, [])
  }

  /** Every record is of a supported protocol kind. */
  predicate AllSupported(rs: seq<ProtoRecord>) {
    forall i :: 0 <= i < |rs| ==> rs[i].row.proto in Supported
  }

  /** What one turn of the protocol scan yields. */
  datatype ProtoTurn =
    | Skip(line: string, rest: Reader)
    | Found(rec: ProtoRecord, line: string, rest: Reader)
    | Failed(error: Error)

  /**
   * One turn of the `show_protocols` loop on the non-empty line `l`.
   * A line that is not a summary row is skipped. For a summary row the next
   * line is read at once; a protocol that is not supported goes on with that
   * line, a BGP one has its details read from the line after it (the line
   * just read is not handed to the detail reader) to the end of the input,
   * and the scan then goes on with the line read before the details.
   */
  function ProtoTurnAt(l: string, r: Reader): (t: ProtoTurn)
    requires ReadLine(r).Ok? && l != ""
    ensures !t.Failed? ==> ReadLine(t.rest).Ok? && Measure(t.rest) + (if t.line != "" then 1 else 0) <= Measure(r)
    ensures t.Found? ==> t.rec.row.proto in Supported && ProtoSummary(l) == Some(t.rec.row)
    ensures ProtoSummary(l).None? ==> t == Skip(ReadLine(r).value.0, ReadLine(r).value.1)
  {
    var next := ReadLine(r).value;
    match ProtoSummary(l)
    case None => Skip(next.0, next.1)
    case Some(row) =>
      if row.proto !in Supported then Skip(next.0, next.1)
      else match ParseDescLines(next.1, ProtocolBlock)
        case Err(e) => Failed(e)
        case Ok((details, rest)) => Found(ProtoRecord(row, details), next.0, rest)
  }

  /** The loop of `show_protocols`, holding the current line `l` and the records so far. */
  function ProtoLoop(l: string, r: Reader, acc: seq<ProtoRecord>): (res: Result<seq<ProtoRecord>>)
    requires ReadLine(r).Ok?
    decreases Measure(r) + (if l != "" then 1 else 0)
  {
    if l == "" then Ok(acc)
    else match ProtoTurnAt(l, r)
      case Failed(e) => Err(e)
      case Skip(line, rest) => ProtoLoop(line, rest, acc)
      case Found(rec, line, rest) => ProtoLoop(line, rest, acc + [rec])
  }

  /** The loop only appends, and only records of supported protocols. */
  lemma {:induction false} ProtoLoopAppends(l: string, r: Reader, acc: seq<ProtoRecord>)
    requires ReadLine(r).Ok? && AllSupported(acc)
    ensures var res := ProtoLoop(l, r, acc);
      res.Ok? ==> |acc| <= |res.value| && res.value[..|acc|] == acc && AllSupported(res.value)
    decreases Measure(r) + (if l != "" then 1 else 0)
  {
    if l != "" {
      var t := ProtoTurnAt(l, r);
      if t.Skip? {
        ProtoLoopAppends(t.line, t.rest, acc);
      } else if t.Found? {
        var acc' := ProtoLoopFound(l, r, acc);
        ProtoLoopAppends(t.line, t.rest, acc');
        PrefixOfAppended(acc, t.rec, acc', ProtoLoop(t.line, t.rest, acc'));
      }
    }
  }

  /** A found record is appended and the scan goes on where the turn left it. */
  lemma ProtoLoopFound(l: string, r: Reader, acc: seq<ProtoRecord>) returns (acc': seq<ProtoRecord>)
    requires ReadLine(r).Ok? && l != "" && ProtoTurnAt(l, r).Found?
    ensures var t := ProtoTurnAt(l, r);
      acc' == acc + [t.rec] && ProtoLoop(l, r, acc) == ProtoLoop(t.line, t.rest, acc')
      && (AllSupported(acc) ==> AllSupported(acc'))
  {
    var t := ProtoTurnAt(l, r);
    acc' := acc + [t.rec];
    FoundStep(l, r, acc);
    SupportedAppend(acc, t.rec);
  }

  lemma FoundStep(l: string, r: Reader, acc: seq<ProtoRecord>)
    requires ReadLine(r).Ok? && l != "" && ProtoTurnAt(l, r).Found?
    ensures ProtoLoop(l, r, acc) == ProtoLoop(ProtoTurnAt(l, r).line, ProtoTurnAt(l, r).rest, acc + [ProtoTurnAt(l, r).rec])
  {
  }

  lemma SupportedAppend(acc: seq<ProtoRecord>, rec: ProtoRecord)
    requires rec.row.proto in Supported
    ensures AllSupported(acc) ==> AllSupported(acc + [rec])
  {
    if AllSupported(acc) {
      assert forall i :: 0 <= i < |acc| + 1 ==> (acc + [rec])[i] == (if i < |acc| then acc[i] else rec);
    }
  }

  /** What extends `acc + [x]` extends `acc`. */
  lemma PrefixOfAppended<T>(acc: seq<T>, x: T, acc': seq<T>, res: Result<seq<T>>)
    requires acc' == acc + [x]
    requires res.Ok? ==> |acc'| <= |res.value| && res.value[..|acc'|] == acc'
    ensures res.Ok? ==> |acc| <= |res.value| && res.value[..|acc|] == acc
  {
    if res.Ok? {
      assert res.value[..|acc|] == acc'[..|acc|];
    }
  }

  /**
   * A BGP row: the line after it is read before its details, the details
   * are read from the line after that, and the scan goes on with the line
   * read first.
   */
  lemma BgpRowTurn(l: string, r: Reader, row: ProtoRow)
    requires ReadLine(r).Ok? && ProtoSummary(l) == Some(row) && row.proto == "BGP"
    ensures var next := ReadLine(r).value;
      var d := ParseDescLines(next.1, ProtocolBlock);
      && (d.Err? ==> ProtoTurnAt(l, r) == Failed(d.error))
      && (d.Ok? ==> ProtoTurnAt(l, r) == Found(ProtoRecord(row, d.value.0), next.0, d.value.1))
  {
  }

  /** The header line that `birdc` prints is accepted. */
  lemma HeaderAccepted(ws: string)
    requires AllSpace(ws)
    ensures Split("name proto table state since info" + ws) == HeaderFields
  {
    assert "name proto table state since info" == Join(" ", HeaderFields);
    HeaderFieldsAreWords();
    SplitJoin(HeaderFields);
    SplitTrailingBlanks(Join(" ", HeaderFields), ws);
  }

  lemma HeaderFieldsAreWords()
    ensures forall i :: 0 <= i < |HeaderFields| ==> |HeaderFields[i]| > 0 && NoSpace(HeaderFields[i])
  {
  }

  /** Only the protocol's summary lines that are BGP yield records; with none, the result is empty. */
  lemma {:induction false} NoBgpRows(l: string, r: Reader, acc: seq<ProtoRecord>)
    requires ReadLine(r).Ok? && r.read
    requires NoBgpSummary(l) && forall i :: r.pos <= i < |r.lines| ==> NoBgpSummary(r.lines[i])
    ensures ProtoLoop(l, r, acc) == Ok(acc)
    decreases Measure(r) + (if l != "" then 1 else 0)
  {
    if l != "" {
      var next := ReadLine(r).value;
      if next.1.pos > r.pos {
        assert next.0 == r.lines[r.pos];
      }
      NoBgpRows(next.0, next.1, acc);
    }
  }

  /** A line that is not a BGP summary row. */
  predicate NoBgpSummary(l: string) {
    l == "" || ProtoSummary(l).None? || ProtoSummary(l).value.proto !in Supported
  }

  /** A header followed only by lines that are not BGP rows yields the empty list. */
  lemma HeaderThenNoBgp(r: Reader)
    requires r.read && r.pos < |r.lines| && Split(r.lines[r.pos]) == HeaderFields
    requires forall i :: r.pos + 1 <= i < |r.lines| ==> NoBgpSummary(r.lines[i])
    ensures ShowProtocols(r) == Ok([])
  {
    ReadNext(r);
    var header := ReadLine(r).value;
    var first := ReadLine(header.1).value;
    if first.1.pos > header.1.pos {
      assert first.0 == r.lines[r.pos + 1];
    }
    NoBgpRows(first.0, first.1, []);
  }

  // ---------------------------------------------------------------------------
  // show_route
  // ---------------------------------------------------------------------------

  /** One route: its summary fields (stripped, absent ones dropped) and its attributes. */
  datatype RouteRecord = RouteRecord(fields: map<string, string>, attributes: map<string, Value>)

  /** `SUMMARY_NETWORK_KEY`. */
  const NetworkKey: string := "net"

  /** The network a row carries, or the one inherited from an earlier row. */
  function Inherit(row: RouteRow, network: Option<string>): (n: Option<string>)
    ensures n.Some? <==> row.net.Some? || network.Some?
    ensures row.net.Some? ==> n == row.net
  {
    if row.net.Some? then row.net else network
  }

  /** A present group, stripped, under its name. */
  function Put(m: map<string, string>, k: string, v: Option<string>): (m': map<string, string>)
    ensures v.Some? ==> m' == m[k := Strip(v.value)]
    ensures v.None? ==> m' == m
  {
    if v.Some? then m[k := Strip(v.value)] else m
  }

  /** `rt`: the groups with the network replaced, `None` values dropped and the rest stripped. */
  function RouteFields(row: RouteRow, network: Option<string>): (m: map<string, string>)
    ensures NetworkKey in m <==> network.Some?
    ensures network.Some? ==> m[NetworkKey] == Strip(network.value)
    ensures ("from" in m <==> row.from.Some?) && ("primary" in m <==> row.primary.Some?)
    ensures m.Keys <= {"net", "rtype", "proto", "since", "from", "primary", "info"}
  {
    var base := map["rtype" := Strip(row.rtype), "proto" := Strip(row.proto), "since" := Strip(row.since), "info" := Strip(row.info)];
    Put(Put(Put(base, "from", row.from), "primary", row.primary), NetworkKey, network)
  }

  /** `show_route`: every row and its attributes; the list is built only when `return_json` is set. */
  function ShowRoute(r: Reader, returnJson: bool): (res: Result<seq<RouteRecord>>)
    ensures res.Ok? && !returnJson ==> res.value == []
  {
    var first :- ReadLine(r);
    RouteLoopAppends(first.0, first.1, None, returnJson, []);
    RouteLoop(first.0, first.1, None, returnJson, [])
  }

  /** What one turn of the route loop yields. */
  datatype RouteTurn =
    | Row(row: RouteRow, attrs: map<string, Value>, line: string, rest: Reader)
    | Broken(error: Error)

  /**
   * One turn of the `show_route` loop on the non-empty line `l`: the line
   * must be a summary row; its attributes are read up to the next summary
   * row, which the detail reader pushes back and the turn reads again.
   */
  function RouteTurnAt(l: string, r: Reader): (t: RouteTurn)
    requires ReadLine(r).Ok? && l != ""
    ensures t.Row? ==> ReadLine(t.rest).Ok? && Measure(t.rest) + (if t.line != "" then 1 else 0) <= Measure(r)
    ensures t.Row? ==> RouteSummary(l) == Some(t.row) && (t.line == "" || RouteSummary(t.line).Some?)
    ensures RouteSummary(l).None? ==> t == Broken(AssertionError(l))
  {
    match RouteSummary(l)
    case None => Broken(AssertionError(l))
    case Some(row) =>
      match ParseDescLines(r, RouteBlock)
      case Err(e) => Broken(e)
      case Ok((attrs, rest)) =>
        var next := ReadLine(rest).value;
        Row(row, attrs, next.0, next.1)
  }

  /**
   * The loop of `show_route` with the current line `l`, the last network
   * seen and the records so far (kept only when `returnJson` is set).
   */
  function RouteLoop(l: string, r: Reader, network: Option<string>, returnJson: bool, acc: seq<RouteRecord>): (res: Result<seq<RouteRecord>>)
    requires ReadLine(r).Ok?
    ensures l != "" && RouteSummary(l).None? ==> res == Err(AssertionError(l))
    decreases Measure(r) + (if l != "" then 1 else 0)
  {
    if l == "" then Ok(acc)
    else match RouteTurnAt(l, r)
      case Broken(e) => Err(e)
      case Row(row, attrs, line, rest) =>
        var net := Inherit(row, network);
        var acc' := if returnJson then acc + [RouteRecord(RouteFields(row, net), attrs)] else acc;
        RouteLoop(line, rest, net, returnJson, acc')
  }

  /** The loop only appends, and appends nothing unless the list is asked for. */
  lemma {:induction false} RouteLoopAppends(l: string, r: Reader, network: Option<string>, returnJson: bool, acc: seq<RouteRecord>)
    requires ReadLine(r).Ok?
    ensures var res := RouteLoop(l, r, network, returnJson, acc);
      && (res.Ok? ==> |acc| <= |res.value| && res.value[..|acc|] == acc)
      && (res.Ok? && !returnJson ==> res.value == acc)
    decreases Measure(r) + (if l != "" then 1 else 0)
  {
    if l != "" && RouteTurnAt(l, r).Row? {
      var t := RouteTurnAt(l, r);
      var net, acc' := RouteLoopRow(l, r, network, returnJson, acc);
      RouteLoopAppends(t.line, t.rest, net, returnJson, acc');
      if returnJson {
        PrefixOfAppended(acc, RouteRecord(RouteFields(t.row, net), t.attrs), acc', RouteLoop(t.line, t.rest, net, returnJson, acc'));
      }
    }
  }

  /** A route row: its record is appended when asked for, and the loop goes on with the next row and the inherited network. */
  lemma RouteLoopRow(l: string, r: Reader, network: Option<string>, returnJson: bool, acc: seq<RouteRecord>)
    returns (net: Option<string>, acc': seq<RouteRecord>)
    requires ReadLine(r).Ok? && l != "" && RouteTurnAt(l, r).Row?
    ensures var t := RouteTurnAt(l, r);
      && net == Inherit(t.row, network)
      && acc' == (if returnJson then acc + [RouteRecord(RouteFields(t.row, net), t.attrs)] else acc)
      && RouteLoop(l, r, network, returnJson, acc) == RouteLoop(t.line, t.rest, net, returnJson, acc')
  {
    var t := RouteTurnAt(l, r);
    net := Inherit(t.row, network);
    acc' := if returnJson then acc + [RouteRecord(RouteFields(t.row, net), t.attrs)] else acc;
  }

  /** Each record's network is the row's own, or else the nearest earlier one; before any, the key is absent. */
  lemma NetworkOfRecord(row: RouteRow, network: Option<string>)
    ensures var m := RouteFields(row, Inherit(row, network));
      && (row.net.Some? ==> NetworkKey in m && m[NetworkKey] == Strip(row.net.value))
      && (row.net.None? && network.Some? ==> NetworkKey in m && m[NetworkKey] == Strip(network.value))
      && (row.net.None? && network.None? ==> NetworkKey !in m)
  {
  }
}
