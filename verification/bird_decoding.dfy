/**
 * What the detail decoders and `parse_desc_lines` promise: each decoder
 * reads back the entry BIRD prints for a key and value, and a detail block
 * keeps the last value printed for each key.
 */
module BirdDecoding {
  import opened Wrappers
  import opened Text
  import opened LineReader
  import opened BirdGrammar
  import opened BirdValue
  import opened BirdDetails

  /** A description as BIRD prints it: non-empty, no colon, no blank at either end. */
  predicate PlainDesc(key: string) { Stripped(key) && Lacks(key, ':') }

  /** `<blanks><key>:<gap><data>` and a newline. */
  function DetailLine(ws: string, key: string, gap: string, data: string): string {
    ws + key + ":" + (gap + data) + "\n"
  }

  /** The line a reader hands out next. */
  predicate NextLine(r: Reader, l: string) {
    ReadLine(r).Ok? && ReadLine(r).value.0 == l
  }

  /** The reader after its next line. */
  function After(r: Reader): Reader
    requires ReadLine(r).Ok?
  {
    ReadLine(r).value.1
  }

  lemma BodyOfLine(s: string)
    ensures Body(s + "\n") == s
  {
  }

  /** The text after the colon of `<ws><key>:<rest>`. */
  lemma AfterColon(ws: string, key: string, rest: string)
    ensures (ws + key + ":" + rest)[|ws| + |key| + 1..] == rest
  {
  }

  /** Blanks before a non-blank: `\s+` takes exactly the blanks. */
  lemma GapThen(gap: string, data: string)
    requires AllSpace(gap) && |data| > 0 && !IsSpace(data[0])
    ensures RunLength(gap + data, IsSpace) == |gap| && (gap + data)[|gap|..] == data
  {
    RunLengthConcat(gap, data, IsSpace);
  }

  /** `<ws><key>:<gap><data>` is recognised at the key's colon, with the key as description. */
  lemma DetailHead(ws: string, key: string, gap: string, data: string)
    requires |ws| > 0 && AllSpace(ws) && PlainDesc(key)
    ensures var s := Body(DetailLine(ws, key, gap, data));
      && s == ws + key + ":" + (gap + data)
      && LeadingDesc(s) == Some((key, |ws| + |key|))
      && s[|ws| + |key| + 1..] == gap + data
  {
    BodyOfLine(ws + key + ":" + (gap + data));
    LeadingDescComplete(ws, key, gap + data);
    AfterColon(ws, key, gap + data);
  }

  /** A digit is never a blank. */
  lemma DigitsStartNonBlank(d: string)
    requires |d| > 0 && AllDigits(d)
    ensures !IsSpace(d[0]) && !IsSpace(d[|d| - 1])
  {
  }

  // ---------------------------------------------------------------------------
  // parse_desc_colon_int
  // ---------------------------------------------------------------------------

  /** A number entry is recognised with its key and digits. */
  lemma ColonIntLineOf(ws: string, key: string, gap: string, digits: string)
    requires |ws| > 0 && AllSpace(ws) && PlainDesc(key) && |gap| > 0 && AllSpace(gap)
    requires |digits| > 0 && AllDigits(digits)
    ensures ColonIntLine(DetailLine(ws, key, gap, digits)) == Some((key, digits))
  {
    DetailHead(ws, key, gap, digits);
    DigitsStartNonBlank(digits);
    GapThen(gap, digits);
  }

  /** `parse_desc_colon_int` reads back the number printed after the key. */
  lemma ColonIntRoundTrip(r: Reader, ws: string, key: string, gap: string, n: nat)
    requires |ws| > 0 && AllSpace(ws) && PlainDesc(key) && |gap| > 0 && AllSpace(gap)
    requires NextLine(r, DetailLine(ws, key, gap, NatToString(n)))
    ensures ParseColonInt(r) == Ok(Decoded(key, Int(n), After(r)))
  {
    ColonIntLineOf(ws, key, gap, NatToString(n));
    StripNoOp(key);
    DigitsValueOfNatToString(n);
  }

  /** A line whose data is not all digits is not a number entry, and the decoder fails. */
  lemma ColonIntRejectsText(r: Reader, ws: string, key: string, gap: string, data: string)
    requires |ws| > 0 && AllSpace(ws) && PlainDesc(key) && |gap| > 0 && AllSpace(gap)
    requires |data| > 0 && !IsSpace(data[0]) && !AllDigits(data)
    requires NextLine(r, DetailLine(ws, key, gap, data))
    ensures ParseColonInt(r).Err?
  {
    assert ColonIntLine(DetailLine(ws, key, gap, data)).None? by {
      DetailHead(ws, key, gap, data);
      GapThen(gap, data);
    }
  }

  // ---------------------------------------------------------------------------
  // parse_desc_colon_str
  // ---------------------------------------------------------------------------

  /** The line is not a continuation line. */
  predicate NotContinuation(l: string) { l == "" || !StartsWith(l, "\t\t") }

  /**
   * The file's next `|parts|` lines are continuation lines (two tabs, a
   * part, a newline) and the line after them, if any, is not one.
   */
  predicate ContinuationLines(r: Reader, parts: seq<string>) {
    && r.read && r.pos + |parts| <= |r.lines|
    && (forall i :: 0 <= i < |parts| ==> r.lines[r.pos + i] == "\t\t" + parts[i] + "\n" && Stripped(parts[i]))
    && (r.pos + |parts| < |r.lines| ==> NotContinuation(r.lines[r.pos + |parts|]))
  }

  /** The continuation reader collects exactly the continuation lines, stripped. */
  lemma {:induction false} ContinuationsRead(r: Reader, parts: seq<string>)
    requires ContinuationLines(r, parts)
    ensures Continuations(r).0 == parts
    decreases |parts|
  {
    if |parts| > 0 {
      var r1 := ContinuationStep(r, parts);
      ContinuationsRead(r1, parts[1..]);
      ConsTail(parts);
    } else {
      ContinuationStop(r);
    }
  }

  /** With no continuation lines left, the reader collects nothing. */
  lemma ContinuationStop(r: Reader)
    requires ContinuationLines(r, [])
    ensures Continuations(r).0 == []
  {
    if r.pos < |r.lines| {
      ReadNext(r);
    }
  }

  /** Reading one continuation line contributes its stripped part, and the rest of the continuation lines follow. */
  lemma ContinuationStep(r: Reader, parts: seq<string>) returns (r1: Reader)
    requires ContinuationLines(r, parts) && |parts| > 0
    ensures r1 == ReadLine(r).value.1
    ensures Continuations(r).0 == [parts[0]] + Continuations(r1).0
    ensures ContinuationLines(r1, parts[1..])
  {
    ReadNext(r);
    r1 := ReadLine(r).value.1;
    var l := r.lines[r.pos];
    ContinuationLine(l, parts[0]);
    ContinuationUnfold(r, l, r1);
    ContinuationsTail(r, parts, r1);
  }

  /** A continuation line is recognised as one and strips to its part. */
  lemma ContinuationLine(l: string, part: string)
    requires l == "\t\t" + part + "\n" && Stripped(part)
    ensures l != "" && StartsWith(l, "\t\t") && Strip(l) == part
  {
    assert l[..2] == "\t\t";
    StripPadded("\t\t", part, "\n");
  }

  lemma ContinuationUnfold(r: Reader, l: string, r1: Reader)
    requires r.read && ReadLine(r) == Ok((l, r1)) && l != "" && StartsWith(l, "\t\t")
    ensures Continuations(r).0 == [Strip(l)] + Continuations(r1).0
  {
  }

  lemma ContinuationsTail(r: Reader, parts: seq<string>, r1: Reader)
    requires ContinuationLines(r, parts) && |parts| > 0
    requires r1 == Reader(r.lines, r.pos + 1, Some(r.lines[r.pos]), true)
    ensures ContinuationLines(r1, parts[1..])
  {
    forall i | 0 <= i < |parts| - 1
      ensures r1.lines[r1.pos + i] == "\t\t" + parts[1..][i] + "\n" && Stripped(parts[1..][i])
    {
      assert r1.pos + i == r.pos + (i + 1);
    }
  }

  /**
   * `parse_desc_colon_str` reads back the value printed after `key: `,
   * with the parts of its continuation lines glued on without separator,
   * and leaves the line after them to be read again.
   */
  lemma ColonStrRoundTrip(r: Reader, ws: string, key: string, v: string, parts: seq<string>)
    requires |ws| > 0 && AllSpace(ws) && PlainDesc(key) && Stripped(v) && Stripped(v + Join("", parts))
    requires NextLine(r, DetailLine(ws, key, " ", v))
    requires ContinuationLines(After(r), parts)
    ensures ParseColonStr(r) == Ok(Decoded(key, Str(v + Join("", parts)), Rewind(Continuations(After(r)).2)))
  {
    var head := ws + key + ":" + (" " + v);
    var value := v + Join("", parts);
    var buf := RStrip(DetailLine(ws, key, " ", v)) + Join("", Continuations(After(r)).0);
    assert buf == ws + key + ":" + (" " + value) by {
      RStripDetailLine(ws, key, v);
      ContinuationsRead(After(r), parts);
      Regroup(ws + key + ":", v, Join("", parts));
    }
    ColonStrBuffer(ws, key, value);
    ParseColonStrSteps(r, buf);
    StripNoOp(key);
  }

  lemma Regroup(p: string, v: string, j: string)
    ensures (p + (" " + v)) + j == p + (" " + (v + j))
  {
  }

  /** `rstrip` takes the newline off an entry line whose value ends in a non-blank. */
  lemma RStripDetailLine(ws: string, key: string, v: string)
    requires Stripped(v)
    ensures RStrip(DetailLine(ws, key, " ", v)) == ws + key + ":" + (" " + v)
  {
    var head := ws + key + ":" + (" " + v);
    assert DetailLine(ws, key, " ", v) == head + "\n";
    assert head[|head| - 1] == v[|v| - 1];
    RStripPadded(head, "\n");
  }

  lemma ParseColonStrSteps(r: Reader, buf: string)
    requires ReadLine(r).Ok? && buf == RStrip(ReadLine(r).value.0) + Join("", Continuations(After(r)).0)
    requires ColonStrMatch(buf).Some?
    ensures ParseColonStr(r) == Ok(Decoded(Strip(ColonStrMatch(buf).value.0), Str(Strip(ColonStrMatch(buf).value.1)), Rewind(Continuations(After(r)).2)))
  {
  }

  /** The assembled buffer is recognised with the key, and its data strips to the value. */
  lemma ColonStrBuffer(ws: string, key: string, value: string)
    requires |ws| > 0 && AllSpace(ws) && PlainDesc(key) && Stripped(value)
    ensures var m := ColonStrMatch(ws + key + ":" + (" " + value));
      m.Some? && m.value.0 == key && Strip(m.value.1) == value
  {
    var buf := ws + key + ":" + (" " + value);
    assert Body(buf) == buf;
    LeadingDescComplete(ws, key, " " + value);
    AfterColon(ws, key, " " + value);
    assert Strip(" " + value) == value by {
      StripPadded(" ", value, "");
      assert " " + value + "" == " " + value;
    }
  }

  // ---------------------------------------------------------------------------
  // parse_desc_int_list
  // ---------------------------------------------------------------------------

  /** `str(x)` of every element. */
  function IntStrings(xs: seq<int>): (ts: seq<string>)
    ensures |ts| == |xs| && forall i :: 0 <= i < |xs| ==> ts[i] == IntToString(xs[i])
  {
    if |xs| == 0 then [] else [IntToString(xs[0])] + IntStrings(xs[1..])
  }

  /** A character of a printed list of integers. */
  predicate IsIntListChar(c: char) { IsDigit(c) || c == '-' || c == ' ' }

  lemma IntToStringChars(x: int)
    ensures |IntToString(x)| > 0 && forall i :: 0 <= i < |IntToString(x)| ==> IsDigit(IntToString(x)[i]) || IntToString(x)[i] == '-'
  {
  }

  /** The printed integers are non-empty words without blanks or braces. */
  lemma IntStringsShape(xs: seq<int>)
    ensures forall k :: 0 <= k < |xs| ==> |IntStrings(xs)[k]| > 0 && NoSpace(IntStrings(xs)[k])
    ensures forall k, i :: 0 <= k < |xs| && 0 <= i < |IntStrings(xs)[k]| ==> IsIntListChar(IntStrings(xs)[k][i])
  {
    forall k | 0 <= k < |xs|
      ensures |IntStrings(xs)[k]| > 0 && NoSpace(IntStrings(xs)[k])
      ensures forall i :: 0 <= i < |IntStrings(xs)[k]| ==> IsIntListChar(IntStrings(xs)[k][i])
    {
      IntToStringChars(xs[k]);
    }
  }

  /** `int` of every printed integer gives the list back. */
  lemma ParseIntsOfStrings(xs: seq<int>)
    ensures ParseInts(IntStrings(xs)) == Ok(xs)
  {
    var ts := IntStrings(xs);
    forall i | 0 <= i < |xs| ensures PyInt(ts[i]) == Some(xs[i]) {
      IntToStringRoundTrip(xs[i]);
    }
    assert ParseInts(ts).value == xs;
  }

  /** The data of a list entry starts at its first non-blank. */
  lemma IntListData(line: string, ws: string, key: string, gap: string, data: string)
    requires |ws| > 0 && AllSpace(ws) && PlainDesc(key) && |gap| > 0 && AllSpace(gap)
    requires |data| > 0 && !IsSpace(data[0])
    requires Body(line) == ws + key + ":" + (gap + data)
    ensures IntListLine(line) == Some((key, data))
  {
    var s := Body(line);
    var c := |ws| + |key|;
    IntListDataFacts(s, ws, key, gap, data);
    IntListLineAt(line, s, key, c, |gap|, data);
  }

  lemma IntListDataFacts(s: string, ws: string, key: string, gap: string, data: string)
    requires |ws| > 0 && AllSpace(ws) && PlainDesc(key) && |gap| > 0 && AllSpace(gap)
    requires |data| > 0 && !IsSpace(data[0])
    requires s == ws + key + ":" + (gap + data)
    ensures var c := |ws| + |key|;
      && LeadingDesc(s) == Some((key, c)) && c + 1 + |gap| <= |s|
      && DataStart(s[c + 1..]) == Some(|gap|) && s[c + 1 + |gap|..] == data
  {
    HeadOfBody(s, ws, key, gap + data);
    DataAfterColon(s, |ws| + |key|, gap, data);
  }

  /** A body `<ws><key>:<rest>` is recognised at the key's colon, with the key as description. */
  lemma HeadOfBody(s: string, ws: string, key: string, rest: string)
    requires |ws| > 0 && AllSpace(ws) && PlainDesc(key)
    requires s == ws + key + ":" + rest
    ensures var c := |ws| + |key|;
      LeadingDesc(s) == Some((key, c)) && c + 1 <= |s| && s[c + 1..] == rest
  {
    LeadingDescComplete(ws, key, rest);
    AfterColon(ws, key, rest);
  }

  lemma DataAfterColon(s: string, c: nat, gap: string, data: string)
    requires AllSpace(gap) && |gap| > 0 && |data| > 0 && !IsSpace(data[0])
    requires c + 1 <= |s| && s[c + 1..] == gap + data
    ensures c + 1 + |gap| <= |s| && DataStart(s[c + 1..]) == Some(|gap|) && s[c + 1 + |gap|..] == data
  {
    DataStartAfterGap(gap, data);
    DropDrop(s, c + 1, |gap|);
  }

  lemma DataStartAfterGap(gap: string, data: string)
    requires AllSpace(gap) && |gap| > 0 && |data| > 0 && !IsSpace(data[0])
    ensures DataStart(gap + data) == Some(|gap|) && (gap + data)[|gap|..] == data
  {
    GapThen(gap, data);
  }

  /** A list of integers printed with single spaces: no brace, no leading blank, and it splits into the printed integers. */
  lemma IntListText(xs: seq<int>)
    requires |xs| > 0
    ensures var data := Join(" ", IntStrings(xs));
      |data| > 0 && !IsSpace(data[0]) && '{' !in data && Split(data) == IntStrings(xs)
  {
    var ts := IntStrings(xs);
    var data := Join(" ", ts);
    IntStringsShape(xs);
    JoinChars(" ", ts, IsIntListChar);
    assert '{' !in data by {
      assert forall i :: 0 <= i < |data| ==> IsIntListChar(data[i]);
    }
    assert |data| > 0 && data[0] == ts[0][0] by {
      if |ts| >= 2 { JoinCons(" ", ts); }
    }
    SplitJoin(ts);
  }

  /** A list of integers as BIRD prints an AS path: separated by single spaces. */
  function IntsText(xs: seq<int>): (t: string)
    requires |xs| > 0
    ensures |t| > 0 && !IsSpace(t[0]) && '{' !in t && Split(t) == IntStrings(xs)
  {
    IntListText(xs);
    Join(" ", IntStrings(xs))
  }

  /** `parse_desc_int_list` reads back a list of integers printed separated by single spaces. */
  lemma IntListRoundTrip(r: Reader, ws: string, key: string, gap: string, xs: seq<int>)
    requires |ws| > 0 && AllSpace(ws) && PlainDesc(key) && |gap| > 0 && AllSpace(gap) && |xs| > 0
    requires NextLine(r, DetailLine(ws, key, gap, IntsText(xs)))
    ensures ParseIntList(r) == Ok(Decoded(key, IntList(xs), After(r)))
  {
    ParseIntsOfStrings(xs);
    IntListDecodes(r, ws, key, gap, IntsText(xs), xs);
  }

  lemma IntListDecodes(r: Reader, ws: string, key: string, gap: string, data: string, xs: seq<int>)
    requires |ws| > 0 && AllSpace(ws) && PlainDesc(key) && |gap| > 0 && AllSpace(gap)
    requires |data| > 0
    requires !IsSpace(data[0])
    requires '{' !in data
    requires ParseInts(Split(data)) == Ok(xs)
    requires NextLine(r, DetailLine(ws, key, gap, data))
    ensures ParseIntList(r) == Ok(Decoded(key, IntList(xs), After(r)))
  {
    BodyOfLine(ws + key + ":" + (gap + data));
    IntListData(DetailLine(ws, key, gap, data), ws, key, gap, data);
    StripNoOp(key);
  }

  /** An AS path holding an AS set (`{`) is stored as `None`. */
  lemma IntListAsSet(r: Reader, ws: string, key: string, gap: string, data: string)
    requires |ws| > 0 && AllSpace(ws) && PlainDesc(key) && |gap| > 0 && AllSpace(gap)
    requires |data| > 0 && !IsSpace(data[0]) && '{' in data
    requires NextLine(r, DetailLine(ws, key, gap, data))
    ensures ParseIntList(r) == Ok(Decoded(key, Null, After(r)))
  {
    BodyOfLine(ws + key + ":" + (gap + data));
    IntListData(DetailLine(ws, key, gap, data), ws, key, gap, data);
    StripNoOp(key);
  }

  // ---------------------------------------------------------------------------
  // parse_proto_routes
  // ---------------------------------------------------------------------------

  /** The groups of a `Routes:` line with these counts. */
  function Counts(desc: string, i: nat, e: nat, p: Option<nat>): RoutesCounts {
    RoutesCounts(desc, NatToString(i), NatToString(e), if p.Some? then Some(NatToString(p.value)) else None)
  }

  lemma WordIsStripped(w: string)
    requires |w| > 0 && AllWord(w)
    ensures Stripped(w)
  {
    WordNotSpace(w[0]);
    WordNotSpace(w[|w| - 1]);
  }

  /** `parse_proto_routes` reads back the three counts of a `Routes:` line. */
  lemma RoutesRoundTrip(r: Reader, ws: string, desc: string, gap: string, i: nat, e: nat, p: nat)
    requires |ws| == 2 && AllSpace(ws) && |desc| > 0 && AllWord(desc) && |gap| > 0 && AllSpace(gap)
    requires NextLine(r, RenderRoutes(ws, Counts(desc, i, e, Some(p)), gap) + "\n")
    ensures ParseRoutes(r) == Ok(Decoded(desc, Dict(CountsDict(i, e, p)), After(r)))
  {
    var m := Counts(desc, i, e, Some(p));
    var s := RenderRoutes(ws, m, gap);
    assert Body(s + "\n") == s;
    RoutesComplete(ws, m, gap);
    WordIsStripped(desc);
    StripNoOp(desc);
    DigitsValueOfNatToString(i);
    DigitsValueOfNatToString(e);
    DigitsValueOfNatToString(p);
  }

  /** Without the optional preferred count, `parse_proto_routes` fails on `int(None)`. */
  lemma RoutesWithoutPreferred(r: Reader, ws: string, desc: string, gap: string, i: nat, e: nat)
    requires |ws| == 2 && AllSpace(ws) && |desc| > 0 && AllWord(desc) && |gap| > 0 && AllSpace(gap)
    requires NextLine(r, RenderRoutes(ws, Counts(desc, i, e, None), gap) + "\n")
    ensures ParseRoutes(r).Err? && ParseRoutes(r).error.TypeError?
  {
    var m := Counts(desc, i, e, None);
    var s := RenderRoutes(ws, m, gap);
    assert Body(s + "\n") == s;
    RoutesComplete(ws, m, gap);
  }

  // ---------------------------------------------------------------------------
  // parse_proto_route_stats
  // ---------------------------------------------------------------------------

  /** A label and five cells that make a statistics row. */
  predicate ValidRow(lbl: string, cells: seq<string>) {
    |lbl| > 0 && (forall i :: 0 <= i < |lbl| ==> IsLabelChar(lbl[i])) && |cells| == 5 && StatCells(cells)
  }

  /** The file's next lines are statistics rows with these labels and cells. */
  predicate StatsRowLines(r: Reader, lbls: seq<string>, cells: seq<seq<string>>) {
    && r.read && r.line.Some? && |lbls| == |cells|
    && (forall k :: 0 <= k < |cells| ==> |cells[k]| == 5)
    && RowsAt(r.lines, r.pos, lbls, cells)
  }

  /** From `pos` on, the lines parse as statistics rows with these labels and cells. */
  predicate RowsAt(lines: seq<string>, pos: nat, lbls: seq<string>, cells: seq<seq<string>>)
    requires |lbls| == |cells|
    decreases |lbls|
  {
    |lbls| > 0 ==>
      && pos < |lines| && StatsRow(lines[pos]) == Some((lbls[0], cells[0]))
      && RowsAt(lines, pos + 1, lbls[1..], cells[1..])
  }

  /** The file's next lines are the statistics rows rendered from these labels and cells. */
  predicate RenderedRows(r: Reader, lbls: seq<string>, cells: seq<seq<string>>) {
    && r.read && r.line.Some? && |lbls| == |cells|
    && (forall k :: 0 <= k < |lbls| ==> ValidRow(lbls[k], cells[k]))
    && RenderedAt(r.lines, r.pos, lbls, cells)
  }

  /** From `pos` on, the lines are the rendered rows. */
  predicate RenderedAt(lines: seq<string>, pos: nat, lbls: seq<string>, cells: seq<seq<string>>)
    requires |lbls| == |cells|
    decreases |lbls|
  {
    |lbls| > 0 ==>
      && pos < |lines| && lines[pos] == RenderStatsRow(lbls[0], " ", cells[0]) + "\n"
      && RenderedAt(lines, pos + 1, lbls[1..], cells[1..])
  }

  lemma RenderedRowsParse(r: Reader, lbls: seq<string>, cells: seq<seq<string>>)
    requires RenderedRows(r, lbls, cells)
    ensures StatsRowLines(r, lbls, cells)
  {
    RenderedRowsAt(r.lines, r.pos, lbls, cells);
  }

  lemma {:induction false} RenderedRowsAt(lines: seq<string>, pos: nat, lbls: seq<string>, cells: seq<seq<string>>)
    requires |lbls| == |cells| && forall k :: 0 <= k < |lbls| ==> ValidRow(lbls[k], cells[k])
    requires RenderedAt(lines, pos, lbls, cells)
    ensures RowsAt(lines, pos, lbls, cells)
    decreases |lbls|
  {
    if |lbls| > 0 {
      assert forall k :: 0 <= k < |lbls[1..]| ==> lbls[1..][k] == lbls[k + 1] && cells[1..][k] == cells[k + 1];
      RenderedRowsAt(lines, pos + 1, lbls[1..], cells[1..]);
      RowAt(lines, pos, lbls[0], cells[0]);
    }
  }

  lemma RowAt(lines: seq<string>, pos: nat, lbl: string, cell: seq<string>)
    requires ValidRow(lbl, cell)
    requires pos < |lines| && lines[pos] == RenderStatsRow(lbl, " ", cell) + "\n"
    ensures StatsRow(lines[pos]) == Some((lbl, cell))
  {
    StatsRowComplete(lbl, " ", cell);
  }

  /** The labels as a set. */
  function Labels(lbls: seq<string>): set<string> {
    set l | l in lbls
  }

  /** No two keys alike. */
  predicate Distinct(keys: seq<string>) {
    forall j, k :: 0 <= j < k < |keys| ==> keys[j] != keys[k]
  }

  /** Labels without surrounding blanks, no two alike: the keys they are stored under. */
  predicate DistinctLabels(lbls: seq<string>) {
    (forall k :: 0 <= k < |lbls| ==> Stripped(lbls[k])) && Distinct(lbls)
  }

  /** The keys rows are stored under: their stripped labels. */
  function RowKeys(lbls: seq<string>): (keys: seq<string>)
    ensures |keys| == |lbls| && forall k :: 0 <= k < |lbls| ==> keys[k] == Strip(lbls[k])
  {
    seq(|lbls|, k requires 0 <= k < |lbls| => Strip(lbls[k]))
  }

  /** The values rows are stored as. */
  function RowValues(cells: seq<seq<string>>): (vals: seq<Value>)
    requires forall k :: 0 <= k < |cells| ==> |cells[k]| == 5
    ensures |vals| == |cells| && forall k :: 0 <= k < |cells| ==> vals[k] == StatCellsValue(cells[k])
  {
    seq(|cells|, k requires 0 <= k < |cells| => StatCellsValue(cells[k]))
  }

  /** Values stored one after another under their keys, a later one replacing an earlier one. */
  function Store(acc: map<string, Value>, keys: seq<string>, vals: seq<Value>): map<string, Value>
    requires |keys| == |vals|
    decreases |keys|
  {
    if |keys| == 0 then acc else Store(acc[keys[0] := vals[0]], keys[1..], vals[1..])
  }

  /** Reading the first of the statistics rows stores its cells under its stripped label. */
  lemma StatsRowsStep(r: Reader, acc: map<string, Value>, lbls: seq<string>, cells: seq<seq<string>>)
    requires StatsRowLines(r, lbls, cells) && |lbls| > 0
    ensures var r1 := ReadLine(r).value.1;
      && StatsRowLines(r1, lbls[1..], cells[1..])
      && StatsRows(|lbls|, r, acc) == StatsRows(|lbls| - 1, r1, acc[Strip(lbls[0]) := StatCellsValue(cells[0])])
  {
    RowsTail(r, lbls, cells);
    StatsRowsAt(|lbls|, r, acc, lbls[0], cells[0]);
  }

  /** After the first row is read, the remaining rows follow. */
  lemma RowsTail(r: Reader, lbls: seq<string>, cells: seq<seq<string>>)
    requires StatsRowLines(r, lbls, cells) && |lbls| > 0
    ensures ReadLine(r).Ok? && StatsRow(ReadLine(r).value.0) == Some((lbls[0], cells[0]))
    ensures StatsRowLines(ReadLine(r).value.1, lbls[1..], cells[1..])
  {
    RowsAtTail(r.lines, r.pos, lbls, cells);
    ReadNext(r);
    FiveCellsTail(cells);
  }

  lemma RowsAtTail(lines: seq<string>, pos: nat, lbls: seq<string>, cells: seq<seq<string>>)
    requires |lbls| == |cells| > 0 && RowsAt(lines, pos, lbls, cells)
    ensures pos < |lines| && StatsRow(lines[pos]) == Some((lbls[0], cells[0]))
    ensures |lbls[1..]| == |cells[1..]| && RowsAt(lines, pos + 1, lbls[1..], cells[1..])
  {
  }

  lemma FiveCellsTail(cells: seq<seq<string>>)
    requires |cells| > 0 && forall k :: 0 <= k < |cells| ==> |cells[k]| == 5
    ensures forall k :: 0 <= k < |cells[1..]| ==> |cells[1..][k]| == 5
  {
    assert forall k :: 0 <= k < |cells[1..]| ==> cells[1..][k] == cells[k + 1];
  }

  /** Reading rows that all match stores them one after another. */
  lemma {:induction false} StatsRowsStore(r: Reader, acc: map<string, Value>, lbls: seq<string>, cells: seq<seq<string>>)
    requires StatsRowLines(r, lbls, cells)
    ensures StatsRows(|lbls|, r, acc).Ok?
    ensures StatsRows(|lbls|, r, acc).value.0 == Store(acc, RowKeys(lbls), RowValues(cells))
    decreases |lbls|
  {
    if |lbls| > 0 {
      var r1 := ReadLine(r).value.1;
      var acc' := acc[Strip(lbls[0]) := StatCellsValue(cells[0])];
      assert |lbls[1..]| == |lbls| - 1;
      StatsRowsStep(r, acc, lbls, cells);
      StatsRowsStore(r1, acc', lbls[1..], cells[1..]);
      StoreRowsStep(acc, lbls, cells);
    }
  }

  /** Storing the rows is storing the first one and then the rest. */
  lemma StoreRowsStep(acc: map<string, Value>, lbls: seq<string>, cells: seq<seq<string>>)
    requires |lbls| == |cells| > 0 && forall k :: 0 <= k < |cells| ==> |cells[k]| == 5
    ensures forall k :: 0 <= k < |cells[1..]| ==> |cells[1..][k]| == 5
    ensures Store(acc, RowKeys(lbls), RowValues(cells))
      == Store(acc[Strip(lbls[0]) := StatCellsValue(cells[0])], RowKeys(lbls[1..]), RowValues(cells[1..]))
  {
    assert forall k :: 0 <= k < |cells[1..]| ==> cells[1..][k] == cells[k + 1];
    assert RowKeys(lbls)[1..] == RowKeys(lbls[1..]);
    assert RowValues(cells)[1..] == RowValues(cells[1..]);
  }

  /** Storing adds exactly the keys stored under. */
  lemma {:induction false} StoreKeys(acc: map<string, Value>, keys: seq<string>, vals: seq<Value>)
    requires |keys| == |vals|
    ensures Store(acc, keys, vals).Keys == acc.Keys + Labels(keys)
    decreases |keys|
  {
    if |keys| > 0 {
      StoreKeys(acc[keys[0] := vals[0]], keys[1..], vals[1..]);
      assert Labels(keys) == {keys[0]} + Labels(keys[1..]);
    }
  }

  /** Storing leaves every key it does not store under as it was. */
  lemma {:induction false} StoreKeeps(acc: map<string, Value>, keys: seq<string>, vals: seq<Value>, key: string)
    requires |keys| == |vals| && key in acc && key !in Labels(keys)
    ensures key in Store(acc, keys, vals) && Store(acc, keys, vals)[key] == acc[key]
    decreases |keys|
  {
    if |keys| > 0 {
      assert Labels(keys) == {keys[0]} + Labels(keys[1..]);
      StoreKeeps(acc[keys[0] := vals[0]], keys[1..], vals[1..], key);
    }
  }

  /** Storing under distinct keys puts each value under its own key. */
  lemma {:induction false} StoreValues(acc: map<string, Value>, keys: seq<string>, vals: seq<Value>, k: nat)
    requires |keys| == |vals| && Distinct(keys) && k < |keys|
    ensures keys[k] in Store(acc, keys, vals) && Store(acc, keys, vals)[keys[k]] == vals[k]
    decreases |keys|
  {
    var acc' := acc[keys[0] := vals[0]];
    if k == 0 {
      assert keys[0] !in Labels(keys[1..]) by {
        forall j | 0 <= j < |keys[1..]| ensures keys[1..][j] != keys[0] {
          assert keys[1..][j] == keys[j + 1];
        }
      }
      StoreKeeps(acc', keys[1..], vals[1..], keys[0]);
    } else {
      assert Distinct(keys[1..]) by {
        forall i, j | 0 <= i < j < |keys[1..]| ensures keys[1..][i] != keys[1..][j] {
          assert keys[1..][i] == keys[i + 1] && keys[1..][j] == keys[j + 1];
        }
      }
      StoreValues(acc', keys[1..], vals[1..], k - 1);
      assert keys[1..][k - 1] == keys[k] && vals[1..][k - 1] == vals[k];
    }
  }

  /** Labels without surrounding blanks are their own keys. */
  lemma RowKeysStripped(lbls: seq<string>)
    requires forall k :: 0 <= k < |lbls| ==> Stripped(lbls[k])
    ensures RowKeys(lbls) == lbls
  {
    forall k | 0 <= k < |lbls| ensures RowKeys(lbls)[k] == lbls[k] {
      StripNoOp(lbls[k]);
    }
  }

  /** Storing rows with distinct labels into an empty table gives exactly those rows. */
  lemma StoreRowsDistinct(lbls: seq<string>, cells: seq<seq<string>>)
    requires |lbls| == |cells| && (forall k :: 0 <= k < |cells| ==> |cells[k]| == 5)
    requires DistinctLabels(lbls)
    ensures var m := Store(map[], RowKeys(lbls), RowValues(cells));
      && m.Keys == Labels(lbls)
      && forall k :: 0 <= k < |lbls| ==> m[lbls[k]] == StatCellsValue(cells[k])
  {
    RowKeysStripped(lbls);
    StoreKeys(map[], lbls, RowValues(cells));
    forall k | 0 <= k < |lbls|
      ensures Store(map[], lbls, RowValues(cells))[lbls[k]] == StatCellsValue(cells[k])
    {
      StoreValues(map[], lbls, RowValues(cells), k);
    }
  }

  /**
   * `parse_proto_route_stats` reads back the header and four rows with
   * distinct labels: each row's cells under its label, and nothing else.
   */
  lemma RouteStatsRoundTrip(r: Reader, ws: string, gap: string, lbls: seq<string>, cells: seq<seq<string>>)
    requires |ws| == 2 && AllSpace(ws) && |gap| > 0 && AllSpace(gap)
    requires NextLine(r, RenderStatsHeader(ws, gap) + "\n")
    requires |lbls| == 4 && RenderedRows(After(r), lbls, cells) && DistinctLabels(lbls)
    ensures forall k :: 0 <= k < |cells| ==> |cells[k]| == 5
    ensures ParseRouteStats(r).Ok?
    ensures var d := ParseRouteStats(r).value;
      && d.key == "route_change_stats" && d.value.Dict? && d.value.m.Keys == Labels(lbls)
      && forall k :: 0 <= k < |lbls| ==> d.value.m[lbls[k]] == StatCellsValue(cells[k])
  {
    StatsHeaderComplete(ws, gap);
    RenderedRowsParse(After(r), lbls, cells);
    RouteStatsOfRows(r, lbls, cells);
    RouteStatsDistinct(ParseRouteStats(r).value, lbls, cells);
  }

  lemma RouteStatsDistinct(d: Decoded, lbls: seq<string>, cells: seq<seq<string>>)
    requires |lbls| == |cells| && forall k :: 0 <= k < |cells| ==> |cells[k]| == 5
    requires d.value == Dict(Store(map[], RowKeys(lbls), RowValues(cells))) && DistinctLabels(lbls)
    ensures d.value.m.Keys == Labels(lbls)
    ensures forall k :: 0 <= k < |lbls| ==> d.value.m[lbls[k]] == StatCellsValue(cells[k])
  {
    StoreRowsDistinct(lbls, cells);
  }

  /** A header followed by four parsed rows gives those rows, stored one after another. */
  lemma RouteStatsOfRows(r: Reader, lbls: seq<string>, cells: seq<seq<string>>)
    requires ReadLine(r).Ok? && StatsHeader(ReadLine(r).value.0)
    requires |lbls| == 4 && StatsRowLines(After(r), lbls, cells)
    ensures ParseRouteStats(r).Ok?
    ensures ParseRouteStats(r).value.key == "route_change_stats"
    ensures ParseRouteStats(r).value.value == Dict(Store(map[], RowKeys(lbls), RowValues(cells)))
  {
    StatsRowsStore(After(r), map[], lbls, cells);
    ParseRouteStatsSteps(r);
  }

  lemma ParseRouteStatsSteps(r: Reader)
    requires ReadLine(r).Ok? && StatsHeader(ReadLine(r).value.0)
    requires StatsRows(4, After(r), map[]).Ok?
    ensures ParseRouteStats(r) == Ok(Decoded("route_change_stats", Dict(StatsRows(4, After(r), map[]).value.0), StatsRows(4, After(r), map[]).value.1))
  {
  }

  /** A missing `Route change stats:` header fails the decoder's assertion. */
  lemma RouteStatsNeedHeader(r: Reader)
    requires ReadLine(r).Ok? && !StatsHeader(ReadLine(r).value.0)
    ensures ParseRouteStats(r) == Err(AssertionError("m"))
  {
  }
}
