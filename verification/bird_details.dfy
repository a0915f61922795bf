/**
 * The detail decoders of the BIRD output parsers and the loop that hands
 * detail lines to them (`parse_desc_lines`). A decoder is called with the
 * reader rewound onto the detail line that selected it; it reads that line
 * and whatever belongs to it and returns a key, a value and the reader.
 */
module BirdDetails {
  import opened Wrappers
  import opened Text
  import opened LineReader
  import opened BirdGrammar
  import opened BirdValue

  /** What a decoder returns: the key and value to store, and the reader after it. */
  datatype Decoded = Decoded(key: string, value: Value, rest: Reader)

  /** The decoders the dispatch tables name. */
  datatype Decoder =
    | ColonStrDecoder   // util.parse_desc_colon_str
    | ColonIntDecoder   // util.parse_desc_colon_int
    | IntListDecoder    // util.parse_desc_int_list
    | RoutesDecoder     // protocols.parse_proto_routes
    | StatsDecoder      // protocols.parse_proto_route_stats
    | BgpStateDecoder   // protocols.parse_bgp_state

  /** `normalize_desc`: descriptions are stored stripped. */
  function NormalizeDesc(desc: string): string { Strip(desc) }

  // ---------------------------------------------------------------------------
  // Decoders
  // ---------------------------------------------------------------------------

  /** `parse_desc_colon_int`: one line `<blanks><desc>:<blanks><digits>`. */
  function ParseColonInt(r: Reader): (res: Result<Decoded>)
    ensures ReadLine(r).Err? ==> res.Err?
    ensures ReadLine(r).Ok? ==> (res.Ok? <==> ColonIntLine(ReadLine(r).value.0).Some?)
    ensures res.Ok? ==> res.value.value.Int? && res.value.value.i >= 0
    ensures res.Ok? ==> var d := res.value;
      d.rest.read && d.rest.lines == r.lines && d.rest.line.Some? && Measure(d.rest) < Measure(r)
    ensures res.Ok? ==> res.value.rest == ReadLine(r).value.1
  {
    var lr :- ReadLine(r);
    match ColonIntLine(lr.0)
    case None => Err(NoMatch("parse_desc_colon_int"))
    case Some((desc, digits)) => Ok(Decoded(NormalizeDesc(desc), Int(DigitsValue(digits)), lr.1))
  }

  /**
   * The continuation lines of a `key: value` entry: the lines that follow it
   * and start with two tabs, each stripped. Returns them, the first line
   * that is not one, and the reader with that line cached.
   */
  function Continuations(r: Reader): (res: (seq<string>, string, Reader))
    requires r.read
    ensures res.2.read && res.2.line == Some(res.1) && res.2.lines == r.lines
    ensures res.1 == "" || !StartsWith(res.1, "\t\t")
    ensures Measure(res.2) + |res.0| + (if res.1 != "" then 1 else 0) <= Measure(r)
    decreases Measure(r)
  {
    var (l, r1) := ReadLine(r).value;
    if l != "" && StartsWith(l, "\t\t") then
      var (more, stop, r2) := Continuations(r1);
      ([Strip(l)] + more, stop, r2)
    else ([], l, r1)
  }

  /**
   * `parse_desc_colon_str`: a `key: value` line and its continuation lines,
   * glued together without a separator; the value is everything after the
   * first colon, stripped. The first line that is not a continuation is
   * left to be read again.
   */
  function ParseColonStr(r: Reader): (res: Result<Decoded>)
    ensures ReadLine(r).Err? ==> res.Err?
    ensures res.Ok? ==> res.value.value.Str? && Strip(res.value.value.s) == res.value.value.s
    ensures res.Ok? ==> var d := res.value;
      && !d.rest.read && d.rest.lines == r.lines && d.rest.line.Some?
      && (d.rest.line.value == "" || !StartsWith(d.rest.line.value, "\t\t"))
      && Measure(d.rest) < Measure(r)
    ensures res.Ok? ==> res.value.rest == Rewind(Continuations(ReadLine(r).value.1).2)
  {
    var lr :- ReadLine(r);
    var first := RStrip(lr.0);
    var (conts, stop, r2) := Continuations(lr.1);
    var buf := first + Join("", conts);
    match ColonStrMatch(buf)
    case None => Err(NoMatch("parse_desc_colon_str"))
    case Some((desc, data)) =>
      StripIdempotent(data);
      Ok(Decoded(NormalizeDesc(desc), Str(Strip(data)), Rewind(r2)))
  }

  /** `[int(x) for x in tokens]`: the integers, or a ValueError when a token is not one. */
  function ParseInts(tokens: seq<string>): (res: Result<seq<int>>)
    ensures res.Ok? <==> forall i :: 0 <= i < |tokens| ==> PyInt(tokens[i]).Some?
    ensures res.Ok? ==> |res.value| == |tokens|
    ensures res.Ok? ==> forall i :: 0 <= i < |tokens| ==> PyInt(tokens[i]) == Some(res.value[i])
    ensures res.Err? ==> res.error.ValueError?
  {
    if |tokens| == 0 then Ok([])
    else match PyInt(tokens[0])
      case None => Err(ValueError("invalid literal for int() with base 10"))
      case Some(x) =>
        var rest :- ParseInts(tokens[1..]);
        Ok([x] + rest)
  }

  /** `parse_desc_int_list`: an AS path as a list of integers, `None` when it holds an AS set (`{`). */
  function ParseIntList(r: Reader): (res: Result<Decoded>)
    ensures ReadLine(r).Err? ==> res.Err?
    ensures res.Ok? ==> res.value.value.Null? || res.value.value.IntList?
    ensures res.Ok? ==> var d := res.value;
      d.rest.read && d.rest.lines == r.lines && d.rest.line.Some? && Measure(d.rest) < Measure(r)
    ensures res.Ok? ==> res.value.rest == ReadLine(r).value.1
  {
    var lr :- ReadLine(r);
    match IntListLine(lr.0)
    case None => Err(NoMatch("parse_desc_int_list"))
    case Some((desc, data)) =>
      if '{' in data then Ok(Decoded(NormalizeDesc(desc), Null, lr.1))
      else
        var xs :- ParseInts(Split(data));
        Ok(Decoded(NormalizeDesc(desc), IntList(xs), lr.1))
  }

  /** The keys of a `Routes:` entry, in the order BIRD prints the counts. */
  const RouteCountKeys: set<string> := {"imported", "exported", "preferred"}

  /**
   * `parse_proto_routes`: the imported, exported and preferred route counts
   * of a `Routes:` line. Every group goes through `int`, so a line without
   * the optional preferred count fails with a TypeError (`int(None)`).
   */
  function ParseRoutes(r: Reader): (res: Result<Decoded>)
    ensures ReadLine(r).Err? ==> res.Err?
    ensures ReadLine(r).Ok? && RoutesLine(ReadLine(r).value.0).Some? ==>
      (res.Ok? <==> RoutesLine(ReadLine(r).value.0).value.preferred.Some?)
    ensures res.Ok? ==> var v := res.value.value;
      v.Dict? && v.m.Keys == RouteCountKeys && forall k :: k in v.m ==> v.m[k].Int? && v.m[k].i >= 0
    ensures res.Ok? ==> var d := res.value;
      d.rest.read && d.rest.lines == r.lines && d.rest.line.Some? && Measure(d.rest) < Measure(r)
  {
    var lr :- ReadLine(r);
    match RoutesLine(lr.0)
    case None => Err(NoMatch("parse_proto_routes"))
    case Some(m) =>
      if m.preferred.None? then Err(TypeError("int() argument must be a string, not 'NoneType'"))
      else
        var counts := CountsDict(DigitsValue(m.imported), DigitsValue(m.exported), DigitsValue(m.preferred.value));
        Ok(Decoded(NormalizeDesc(m.desc), Dict(counts), lr.1))
  }

  /** The dict a `Routes:` entry is stored as: the three counts as integers. */
  function CountsDict(imported: nat, exported: nat, preferred: nat): (m: map<string, Value>)
    ensures m.Keys == RouteCountKeys && forall k :: k in m ==> m[k].Int? && m[k].i >= 0
  {
    map["imported" := Int(imported), "exported" := Int(exported), "preferred" := Int(preferred)]
  }

  /**
   * The value of one statistics row, the match's `groupdict()` without its
   * label: each column name paired with its cell, as a string.
   */
  function StatCellsValue(cells: seq<string>): (v: Value)
    requires |cells| == 5
    ensures IsStatsEntry(v)
  {
    Dict(GroupDict(StatColumns, cells))
  }

  /** Names paired with the captured groups; an earlier name wins over a repeated one. */
  function GroupDict(names: seq<string>, groups: seq<string>): (m: map<string, Value>)
    requires |names| == |groups|
    ensures m.Keys == set c | c in names
    ensures forall k :: k in m ==> m[k].Str?
    decreases |names|
  {
    if |names| == 0 then map[]
    else GroupDict(names[1..], groups[1..])[names[0] := Str(groups[0])]
  }

  /** A statistics row as the parser stores it: a dict from exactly the five column names to strings. */
  predicate IsStatsEntry(v: Value) {
    && v.Dict? && v.m.Keys == set c | c in StatColumns
    && forall k :: k in v.m ==> v.m[k].Str?
  }

  /**
   * `set_desc_values` applied to `n` consecutive statistics rows: each row
   * is stored under its stripped label, a later row replacing an earlier
   * one with the same label; a row that does not match fails.
   */
  function StatsRows(n: nat, r: Reader, acc: map<string, Value>): (res: Result<(map<string, Value>, Reader)>)
    requires r.read && r.line.Some?
    ensures res.Ok? ==> var (m, r') := res.value;
      && r'.read && r'.lines == r.lines && r'.line.Some? && Measure(r') + n <= Measure(r)
      && acc.Keys <= m.Keys
      && forall k :: k in m ==> (k in acc && m[k] == acc[k]) || IsStatsEntry(m[k])
    ensures res.Err? ==> res.error.NoMatch?
    decreases n
  {
    if n == 0 then Ok((acc, r))
    else
      var (l, r1) := ReadLine(r).value;
      match StatsRow(l)
      case None => Err(NoMatch("set_desc_values"))
      case Some((lbl, cells)) =>
        var acc' := acc[NormalizeDesc(lbl) := StatCellsValue(cells)];
        assert forall k :: k in acc' ==> (k in acc && acc'[k] == acc[k]) || IsStatsEntry(acc'[k]);
        StatsRows(n - 1, r1, acc')
  }

  /** Reading a matching row stores its cells under its stripped label and goes on with the rest. */
  lemma StatsRowsAt(n: nat, r: Reader, acc: map<string, Value>, lbl: string, cells: seq<string>)
    requires n > 0 && r.read && r.line.Some?
    requires StatsRow(ReadLine(r).value.0) == Some((lbl, cells))
    ensures StatsRows(n, r, acc) == StatsRows(n - 1, ReadLine(r).value.1, acc[Strip(lbl) := StatCellsValue(cells)])
  {
  }

  /**
   * `parse_proto_route_stats`: the `Route change stats:` header, which must
   * be there (an assertion), then four rows (import updates, import
   * withdraws, export updates, export withdraws), stored under the fixed
   * key `route_change_stats`.
   */
  function ParseRouteStats(r: Reader): (res: Result<Decoded>)
    ensures ReadLine(r).Ok? && !StatsHeader(ReadLine(r).value.0) ==> res == Err(AssertionError("m"))
    ensures res.Ok? ==> var d := res.value;
      && d.key == "route_change_stats" && d.value.Dict? && |d.value.m| > 0
      && (forall k :: k in d.value.m ==> IsStatsEntry(d.value.m[k]))
      && d.rest.read && d.rest.lines == r.lines && d.rest.line.Some? && Measure(d.rest) + 5 <= Measure(r)
  {
    var lr :- ReadLine(r);
    if !StatsHeader(lr.0) then Err(AssertionError("m"))
    else
      var rows :- StatsRows(4, lr.1, map[]);
      assert StatsRows(4, lr.1, map[]).Ok?;
      StatsRowsNonEmpty(lr.1);
      Ok(Decoded("route_change_stats", Dict(rows.0), rows.1))
  }

  /** Four rows that all match leave at least one entry. */
  lemma StatsRowsNonEmpty(r: Reader)
    requires r.read && r.line.Some? && StatsRows(4, r, map[]).Ok?
    ensures |StatsRows(4, r, map[]).value.0| > 0
  {
    var (l, r1) := ReadLine(r).value;
    var (lbl, cells) := StatsRow(l).value;
    var k := NormalizeDesc(lbl);
    assert k in StatsRows(4, r, map[]).value.0;
  }

  // ---------------------------------------------------------------------------
  // Detail blocks
  // ---------------------------------------------------------------------------

  /** The three kinds of detail block: a protocol's details, a BGP session's details, a route's attributes. */
  datatype Block = ProtocolBlock | BgpBlock | RouteBlock

  /** `DETAILS_PARSERS` of the protocol parser. */
  const ProtocolDecoders: map<string, Decoder> := map[
    "Description" := ColonStrDecoder,
    "Preference" := ColonIntDecoder,
    "Input filter" := ColonStrDecoder,
    "Output filter" := ColonStrDecoder,
    "Routes" := RoutesDecoder,
    "Route change stats" := StatsDecoder,
    "BGP state" := BgpStateDecoder]

  /** `BGP_DETAILS_PARSERS` of the protocol parser. */
  const BgpDecoders: map<string, Decoder> := map[
    "BGP state" := ColonStrDecoder,
    "Neighbor address" := ColonStrDecoder,
    "Neighbor AS" := ColonIntDecoder,
    "Neighbor ID" := ColonStrDecoder,
    "Neighbor caps" := ColonStrDecoder,
    "Session" := ColonStrDecoder,
    "Source address" := ColonStrDecoder,
    "Hold timer" := ColonStrDecoder,
    "Keepalive timer" := ColonStrDecoder]

  /** The explicit entries of the route parser's `DETAILS_PARSERS`; every other description defaults to `parse_desc_colon_str`. */
  const RouteDecoders: map<string, Decoder> := map[
    "BGP.as_path" := IntListDecoder,
    "BGP.med" := ColonIntDecoder,
    "BGP.local_pref" := ColonIntDecoder]

  /** The description a detail line carries under the block's pattern, or `None` when the line is not a detail line. */
  function DetailDesc(b: Block, line: string): (d: Option<string>)
    ensures d.Some? ==> |d.value| > 0
  {
    match b
    case ProtocolBlock => if IndentedDetail(line, 2).Some? then Some(IndentedDetail(line, 2).value.0) else None
    case BgpBlock => if IndentedDetail(line, 4).Some? then Some(IndentedDetail(line, 4).value.0) else None
    case RouteBlock => RouteDetail(line)
  }

  /** `parsers[desc]`: `None` is the KeyError of a plain dict; the route table never fails. */
  function DecoderFor(b: Block, desc: string): (d: Option<Decoder>)
    ensures d.None? <==> b != RouteBlock && desc !in (if b == ProtocolBlock then ProtocolDecoders else BgpDecoders)
  {
    match b
    case ProtocolBlock => if desc in ProtocolDecoders then Some(ProtocolDecoders[desc]) else None
    case BgpBlock => if desc in BgpDecoders then Some(BgpDecoders[desc]) else None
    case RouteBlock => Some(if desc in RouteDecoders then RouteDecoders[desc] else ColonStrDecoder)
  }

  /** The `ignore_regex` check: inside `show route` a route summary line ends the attribute block. */
  predicate EndsBlock(b: Block, line: string) {
    b == RouteBlock && RouteSummary(line).Some?
  }

  /**
   * `parse_desc_lines`: reads detail lines until an empty read (end of
   * input) or a line that ends the block, skipping lines that are not
   * detail lines and storing what each detail line's decoder returns. The
   * line that stopped it is left to be read again.
   */
  function ParseDescLines(r: Reader, b: Block): (res: Result<(map<string, Value>, Reader)>)
    ensures ReadLine(r).Err? ==> res.Err?
    ensures res.Ok? ==> var r' := res.value.1;
      && !r'.read && r'.lines == r.lines && r'.line.Some? && Measure(r') <= Measure(r)
      && (r'.line.value == "" || EndsBlock(b, r'.line.value))
    decreases Measure(r), 2
  {
    var first :- ReadLine(r);
    DescLoop(first.0, first.1, b, map[])
  }

  /** The loop of `parse_desc_lines`, entered with `l` just read and `acc` holding what is stored so far. */
  function DescLoop(l: string, r: Reader, b: Block, acc: map<string, Value>): (res: Result<(map<string, Value>, Reader)>)
    requires r.read && r.line == Some(l)
    ensures res.Ok? ==> var r' := res.value.1;
      && !r'.read && r'.lines == r.lines && r'.line.Some?
      && Measure(r') <= Measure(r) + (if l != "" then 1 else 0)
      && (r'.line.value == "" || EndsBlock(b, r'.line.value))
    ensures res.Ok? ==> acc.Keys <= res.value.0.Keys
    decreases Measure(r) + (if l != "" then 1 else 0), 1
  {
    if l == "" || EndsBlock(b, l) then Ok((acc, Rewind(r)))
    else match DetailDesc(b, l)
      case None =>
        var next := ReadLine(r).value;
        DescLoop(next.0, next.1, b, acc)
      case Some(desc) =>
        match DecoderFor(b, desc)
        case None => Err(KeyError(desc))
        case Some(d) =>
          var dec :- RunDecoder(d, Rewind(r));
          var next := ReadLine(dec.rest).value;
          DescLoop(next.0, next.1, b, acc[dec.key := dec.value])
  }

  /**
   * Runs one decoder on a reader rewound onto its line. `parse_bgp_state`
   * reads its own `BGP state:` line, then the BGP details block that
   * follows it, and returns both under the key `bgp`.
   */
  function RunDecoder(d: Decoder, r: Reader): (res: Result<Decoded>)
    ensures res.Ok? ==> var x := res.value;
      x.rest.lines == r.lines && x.rest.line.Some? && Measure(x.rest) < Measure(r)
    ensures res.Ok? && d == BgpStateDecoder ==> var x := res.value;
      x.key == "bgp" && x.value.Dict? && "details" in x.value.m && x.value.m["details"].Dict?
    decreases Measure(r), 0
  {
    match d
    case ColonStrDecoder => ParseColonStr(r)
    case ColonIntDecoder => ParseColonInt(r)
    case IntListDecoder => ParseIntList(r)
    case RoutesDecoder => ParseRoutes(r)
    case StatsDecoder => ParseRouteStats(r)
    case BgpStateDecoder =>
      var head :- ParseColonStr(r);
      var details :- ParseDescLines(head.rest, BgpBlock);
      Ok(Decoded("bgp", Dict(map[head.key := head.value]["details" := Dict(details.0)]), details.1))
  }
}
