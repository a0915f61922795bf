/**
 * Recognisers for the fixed regular expressions of the BIRD output parsers
 * (`parsers/protocols.py`, `parsers/route.py`, `parsers/util.py`).
 *
 * Each recogniser returns the groups that Python's `re.match` returns, or
 * `None` where `re.match` returns None, including the outcome of
 * backtracking. Lines are as `readline` hands them out; `$` matches at the
 * very end or just before one final newline, so the recognisers look at
 * `Body(line)`. Lines read from a file hold no other newline.
 */
module BirdGrammar {
  import opened Wrappers
  import opened Text

  /** What the pattern sees before `$`: the line without its one final newline. */
  function Body(line: string): (b: string)
    ensures b == line || line == b + "\n"
  {
    if |line| > 0 && line[|line| - 1] == '\n' then line[..|line| - 1] else line
  }

  /** `[0-9:-]`, the protocol summary's `since` column. */
  predicate IsProtoSinceChar(c: char) { IsDigit(c) || c == ':' || c == '-' }
  /** `[0-9:\.-]`, the route summary's `since` column. */
  predicate IsRouteSinceChar(c: char) { IsDigit(c) || c == ':' || c == '.' || c == '-' }
  /** `[\d-]`, a cell of the route change statistics. */
  predicate IsStatChar(c: char) { IsDigit(c) || c == '-' }
  /** `[\w ]`, a row label of the route change statistics. */
  predicate IsLabelChar(c: char) { IsWord(c) || c == ' ' }

  // ---------------------------------------------------------------------------
  // Detail lines: `key: data`
  // ---------------------------------------------------------------------------

  /**
   * `^\s{n}(?P<desc>[^:]+):(?P<data>.+)$`: `DETAILS_RE` (n = 2) and
   * `BGP_DETAILS_RE` (n = 4) of the protocol parser. The description runs
   * from the n-th character to the first colon.
   */
  function IndentedDetail(line: string, n: nat): (r: Option<(string, string)>)
    ensures r.Some? ==> var (desc, data) := r.value;
      && n <= |Body(line)| && Body(line) == Body(line)[..n] + desc + ":" + data
      && AllSpace(Body(line)[..n]) && |desc| > 0 && Lacks(desc, ':') && |data| > 0
  {
    var s := Body(line);
    if RunLength(s, IsSpace) < n then None
    else match IndexOf(s, ':')
      case None => None
      case Some(c) =>
        if n < c && c + 1 < |s| then
          DetailSplit(s, n, c);
          Some((s[n..c], s[c + 1..]))
        else None
  }

  /** Cutting a line at its indentation and its first colon. */
  lemma DetailSplit(s: string, n: nat, c: nat)
    requires n <= RunLength(s, IsSpace) && n < c && c + 1 < |s| && s[c] == ':'
    requires forall i :: 0 <= i < c ==> s[i] != ':'
    ensures s == s[..n] + s[n..c] + ":" + s[c + 1..]
    ensures AllSpace(s[..n]) && Lacks(s[n..c], ':')
  {
    CutAtColon(s, n, c);
    SpacePrefix(s, n);
    ColonFreeSlice(s, n, c);
  }

  lemma SpacePrefix(s: string, n: nat)
    requires n <= RunLength(s, IsSpace)
    ensures AllSpace(s[..n])
  {
    assert forall i :: 0 <= i < n ==> s[..n][i] == s[i];
  }

  lemma ColonFreeSlice(s: string, n: nat, c: nat)
    requires n <= c <= |s| && forall i :: 0 <= i < c ==> s[i] != ':'
    ensures Lacks(s[n..c], ':')
  {
    assert forall i :: 0 <= i < c - n ==> s[n..c][i] == s[n + i];
  }

  lemma CutAtColon(s: string, n: nat, c: nat)
    requires n <= c < |s| && s[c] == ':'
    ensures s == s[..n] + s[n..c] + ":" + s[c + 1..]
  {
    var a, b, t := s[..n], s[n..c], s[c + 1..];
    assert s[..c] == a + b;
    assert s[c..] == ":" + t;
    assert s == s[..c] + s[c..];
  }

  /** Every line of the shape `<n spaces><desc>:<data>` is recognised, with those groups. */
  lemma IndentedDetailComplete(line: string, ws: string, desc: string, data: string)
    requires AllSpace(ws) && |desc| > 0 && Lacks(desc, ':') && |data| > 0
    requires Body(line) == ws + desc + ":" + data
    ensures IndentedDetail(line, |ws|) == Some((desc, data))
  {
    var s := Body(line);
    assert s == (ws + desc) + [':'] + data;
    assert Lacks(ws + desc, ':') by {
      forall i | 0 <= i < |ws| ensures ws[i] != ':' { assert IsSpace(ws[i]); }
    }
    IndexOfConcat(ws + desc, ':', data);
    assert s[..|ws|] == ws;
    assert s[|ws|..|ws| + |desc|] == desc;
    assert s[|ws| + |desc| + 1..] == data;
    assert forall i :: 0 <= i < |ws| ==> IsSpace(s[i]);
  }

  /**
   * `^\s+(?P<desc>[^:]+):`, the common head of the route detail pattern and
   * of the decoders' own patterns: the description and the index of the
   * first colon. `\s+` is greedy but must leave at least one character to
   * the description, so the description keeps one blank when the text
   * before the colon is all blanks.
   */
  function LeadingDesc(s: string): (r: Option<(string, nat)>)
    ensures r.Some? ==> r.value.1 < |s|
  {
    if |s| == 0 || !IsSpace(s[0]) then None
    else match IndexOf(s, ':')
      case None => None
      case Some(c) =>
        if c < 2 then None
        else
          var w := RunLength(s, IsSpace);
          var k := if w < c then w else c - 1;
          Some((s[k..c], c))
  }

  /** What `LeadingDesc` finds: blanks, then the description, then the first colon. */
  lemma LeadingDescSound(s: string)
    ensures var r := LeadingDesc(s); r.Some? ==> var (desc, c) := r.value;
      && c < |s| && s[c] == ':' && Lacks(s[..c], ':')
      && 1 <= |desc| < c && s[c - |desc|..c] == desc && AllSpace(s[..c - |desc|])
      && (|desc| > 1 ==> !IsSpace(desc[0]))
  {
  }

  /** A line `<blanks><desc>:<rest>` is recognised at that colon, and with that description when it starts with a non-blank. */
  lemma LeadingDescComplete(ws: string, desc: string, rest: string)
    requires |ws| >= 1 && AllSpace(ws) && |desc| >= 1 && Lacks(desc, ':')
    ensures var r := LeadingDesc(ws + desc + ":" + rest);
      r.Some? && r.value.1 == |ws| + |desc| && (!IsSpace(desc[0]) ==> r.value.0 == desc)
  {
    var s := ws + desc + ":" + rest;
    assert s == (ws + desc) + [':'] + rest;
    assert Lacks(ws + desc, ':') by {
      forall i | 0 <= i < |ws| ensures ws[i] != ':' { assert IsSpace(ws[i]); }
    }
    IndexOfConcat(ws + desc, ':', rest);
    if !IsSpace(desc[0]) {
      assert s == ws + (desc + ":" + rest);
      RunLengthConcat(ws, desc + ":" + rest, IsSpace);
    }
  }

  /** `^\s+(?P<desc>[^:]+):(?P<data>.+)$`, the route attribute pattern: the raw description. */
  function RouteDetail(line: string): (r: Option<string>)
    ensures r.Some? ==> LeadingDesc(Body(line)).Some? && r.value == LeadingDesc(Body(line)).value.0
    ensures r.Some? ==> LeadingDesc(Body(line)).value.1 + 1 < |Body(line)|
  {
    var s := Body(line);
    match LeadingDesc(s)
    case None => None
    case Some((desc, c)) => if c + 1 < |s| then Some(desc) else None
  }

  /** `^\s+(?P<desc>[^:]+):\s+(?P<data>\d+)$`: description and digit string. */
  function ColonIntLine(line: string): (r: Option<(string, string)>)
    ensures r.Some? ==> var (desc, digits) := r.value;
      && |digits| > 0 && AllDigits(digits) && EndsWith(Body(line), digits)
      && LeadingDesc(Body(line)).Some? && desc == LeadingDesc(Body(line)).value.0
  {
    var s := Body(line);
    match LeadingDesc(s)
    case None => None
    case Some((desc, c)) =>
      var a := s[c + 1..];
      var w := RunLength(a, IsSpace);
      if w == 0 || w == |a| || !AllDigits(a[w..]) then None
      else
        assert s[|s| - |a[w..]|..] == a[w..];
        Some((desc, a[w..]))
  }

  /**
   * `^\s+(?P<desc>[^:]+):\s+(?P<data>.+)$`: description and data. The data
   * starts after the blanks that follow the colon; when only blanks follow,
   * `\s+` gives back the last one to the data.
   */
  function IntListLine(line: string): (r: Option<(string, string)>)
    ensures r.Some? ==> |r.value.1| > 0 && EndsWith(Body(line), r.value.1)
  {
    var s := Body(line);
    match LeadingDesc(s)
    case None => None
    case Some((desc, c)) =>
      match DataStart(s[c + 1..])
      case None => None
      case Some(k) =>
        SuffixEnds(s, c + 1 + k);
        Some((desc, s[c + 1 + k..]))
  }

  lemma IntListLineAt(line: string, s: string, desc: string, c: nat, k: nat, data: string)
    requires Body(line) == s && LeadingDesc(s) == Some((desc, c))
    requires c + 1 + k <= |s| && DataStart(s[c + 1..]) == Some(k) && s[c + 1 + k..] == data
    ensures IntListLine(line) == Some((desc, data))
  {
  }

  /** Where `\s+(?P<data>.+)$` starts the data in the text after the colon. */
  function DataStart(a: string): (k: Option<nat>)
    ensures k.Some? ==> 0 < k.value < |a|
  {
    var w := RunLength(a, IsSpace);
    if w == 0 then None
    else if w < |a| then Some(w)
    else if |a| >= 2 then Some(|a| - 1)
    else None
  }

  /** `^\s+(?P<desc>[^:]+):(?P<data>.*)$` on an assembled buffer: description and everything after the colon. */
  function ColonStrMatch(buf: string): (r: Option<(string, string)>)
    ensures r.Some? <==> LeadingDesc(Body(buf)).Some?
    ensures r.Some? ==> var c := LeadingDesc(Body(buf)).value.1;
      r.value == (LeadingDesc(Body(buf)).value.0, Body(buf)[c + 1..])
  {
    var s := Body(buf);
    match LeadingDesc(s)
    case None => None
    case Some((desc, c)) => Some((desc, s[c + 1..]))
  }

  // ---------------------------------------------------------------------------
  // `show protocols` summary rows
  // ---------------------------------------------------------------------------

  /** The six unstripped groups of a protocol summary row. */
  datatype ProtoRow = ProtoRow(name: string, proto: string, table: string, state: string, since: string, info: string)

  /** `(\w+)\s+`: a word and the text after the blanks that follow it. */
  function WordField(s: string): (r: Option<(string, string)>)
    ensures r.Some? ==> |r.value.0| > 0 && AllWord(r.value.0)
    ensures r.Some? ==> |r.value.1| > 0 ==> !IsSpace(r.value.1[0])
    ensures r.Some? ==> |r.value.0| + |r.value.1| < |s|
  {
    var n := RunLength(s, IsWord);
    var w := RunLength(s[n..], IsSpace);
    if n == 0 || w == 0 then None else Some((s[..n], s[n + w..]))
  }

  lemma WordNotSpace(c: char)
    requires IsWord(c)
    ensures !IsSpace(c)
  {
  }

  lemma WordFieldComplete(word: string, gap: string, rest: string)
    requires |word| > 0 && AllWord(word) && |gap| > 0 && AllSpace(gap)
    requires |rest| > 0 ==> !IsSpace(rest[0])
    ensures WordField(word + (gap + rest)) == Some((word, rest))
  {
    var s := word + (gap + rest);
    assert !IsWord(gap[0]);
    RunLengthConcat(word, gap + rest, IsWord);
    assert s[|word|..] == gap + rest;
    RunLengthConcat(gap, rest, IsSpace);
    assert s[|word| + |gap|..] == rest;
  }

  /**
   * `SUMMARY_RE` of `show protocols`:
   * `^(\w+)\s+(\w+)\s+(\w+)\s+(\w+)\s+([0-9:-]+)\s*(.*)$`.
   * Every repetition is greedy and nothing after it can fail, so the match
   * takes maximal runs; `info` is whatever follows the blanks after `since`.
   */
  function ProtoSummary(line: string): (r: Option<ProtoRow>)
    ensures r.Some? ==> var row := r.value;
      && |row.name| > 0 && AllWord(row.name) && |row.proto| > 0 && AllWord(row.proto)
      && |row.table| > 0 && AllWord(row.table) && |row.state| > 0 && AllWord(row.state)
      && |row.since| > 0 && (forall i :: 0 <= i < |row.since| ==> IsProtoSinceChar(row.since[i]))
      && (|row.info| > 0 ==> !IsSpace(row.info[0]))
  {
    ProtoFields(Body(line))
  }

  /** The summary fields of a line without its newline. */
  function ProtoFields(s: string): (r: Option<ProtoRow>)
    ensures r.Some? ==> var row := r.value;
      && |row.name| > 0 && AllWord(row.name) && |row.proto| > 0 && AllWord(row.proto)
      && |row.table| > 0 && AllWord(row.table) && |row.state| > 0 && AllWord(row.state)
      && |row.since| > 0 && (forall i :: 0 <= i < |row.since| ==> IsProtoSinceChar(row.since[i]))
      && (|row.info| > 0 ==> !IsSpace(row.info[0]))
  {
    var f1 :- WordField(s);
    var f2 :- WordField(f1.1);
    var f3 :- WordField(f2.1);
    var f4 :- WordField(f3.1);
    var si :- SinceInfo(f4.1);
    Some(ProtoRow(f1.0, f2.0, f3.0, f4.0, si.0, si.1))
  }

  /** `([0-9:-]+)\s*(.*)$`: the `since` stamp and the info after the blanks that follow it. */
  function SinceInfo(s: string): (r: Option<(string, string)>)
    ensures r.Some? ==> |r.value.0| > 0 && (forall i :: 0 <= i < |r.value.0| ==> IsProtoSinceChar(r.value.0[i]))
    ensures r.Some? ==> |r.value.1| > 0 ==> !IsSpace(r.value.1[0])
  {
    var d := RunLength(s, IsProtoSinceChar);
    if d == 0 then None
    else
      var rest := s[d..];
      Some((s[..d], rest[RunLength(rest, IsSpace)..]))
  }

  /** Every row written as words, blank gaps, a `since` stamp and an info text is recognised with those fields. */
  lemma ProtoSummaryComplete(line: string, row: ProtoRow, g1: string, g2: string, g3: string, g4: string, g5: string)
    requires |row.name| > 0 && AllWord(row.name) && |row.proto| > 0 && AllWord(row.proto)
    requires |row.table| > 0 && AllWord(row.table) && |row.state| > 0 && AllWord(row.state)
    requires |row.since| > 0 && forall i :: 0 <= i < |row.since| ==> IsProtoSinceChar(row.since[i])
    requires |g1| > 0 && |g2| > 0 && |g3| > 0 && |g4| > 0
    requires AllSpace(g1) && AllSpace(g2) && AllSpace(g3) && AllSpace(g4) && AllSpace(g5)
    requires |row.info| > 0 ==> !IsSpace(row.info[0]) && (|g5| > 0 || !IsProtoSinceChar(row.info[0]))
    requires Body(line) == row.name + (g1 + (row.proto + (g2 + (row.table + (g3 + (row.state + (g4 + (row.since + (g5 + row.info)))))))))
    ensures ProtoSummary(line) == Some(row)
  {
    ProtoFieldsComplete(Body(line), row, g1, g2, g3, g4, g5);
  }

  lemma ProtoFieldsComplete(s: string, row: ProtoRow, g1: string, g2: string, g3: string, g4: string, g5: string)
    requires |row.name| > 0 && AllWord(row.name) && |row.proto| > 0 && AllWord(row.proto)
    requires |row.table| > 0 && AllWord(row.table) && |row.state| > 0 && AllWord(row.state)
    requires |row.since| > 0 && forall i :: 0 <= i < |row.since| ==> IsProtoSinceChar(row.since[i])
    requires |g1| > 0 && |g2| > 0 && |g3| > 0 && |g4| > 0
    requires AllSpace(g1) && AllSpace(g2) && AllSpace(g3) && AllSpace(g4) && AllSpace(g5)
    requires |row.info| > 0 ==> !IsSpace(row.info[0]) && (|g5| > 0 || !IsProtoSinceChar(row.info[0]))
    requires s == row.name + (g1 + (row.proto + (g2 + (row.table + (g3 + (row.state + (g4 + (row.since + (g5 + row.info)))))))))
    ensures ProtoFields(s) == Some(row)
  {
    var tail := row.since + (g5 + row.info);
    var t3 := row.state + (g4 + tail);
    var t2 := row.table + (g3 + t3);
    var t1 := row.proto + (g2 + t2);
    WordFieldAt(s, row.name, g1, row.proto, g2 + t2);
    WordFieldAt(t1, row.proto, g2, row.table, g3 + t3);
    WordFieldAt(t2, row.table, g3, row.state, g4 + tail);
    SinceStart(tail, row.since, g5 + row.info);
    WordFieldAt(t3, row.state, g4, row.since, g5 + row.info);
    SinceInfoAt(tail, row.since, g5, row.info);
    ProtoFieldsSteps(s, row, t1, t2, t3, tail);
  }

  /** `(\w+)\s+` on a word, blanks and a text starting with a non-blank. */
  lemma WordFieldAt(s: string, word: string, gap: string, next: string, more: string)
    requires |word| > 0 && AllWord(word) && |gap| > 0 && AllSpace(gap)
    requires |next| > 0 && !IsSpace(next[0])
    requires s == word + (gap + (next + more))
    ensures WordField(s) == Some((word, next + more))
  {
    WordFieldComplete(word, gap, next + more);
  }

  lemma SinceStart(tail: string, since: string, rest: string)
    requires |since| > 0 && IsProtoSinceChar(since[0]) && tail == since + rest
    ensures |tail| > 0 && !IsSpace(tail[0])
  {
  }

  lemma SinceInfoAt(s: string, since: string, gap: string, info: string)
    requires |since| > 0 && forall i :: 0 <= i < |since| ==> IsProtoSinceChar(since[i])
    requires AllSpace(gap)
    requires |info| > 0 ==> !IsSpace(info[0]) && (|gap| > 0 || !IsProtoSinceChar(info[0]))
    requires s == since + (gap + info)
    ensures SinceInfo(s) == Some((since, info))
  {
    SinceInfoComplete(since, gap, info);
  }

  lemma ProtoFieldsSteps(s: string, row: ProtoRow, t1: string, t2: string, t3: string, tail: string)
    requires WordField(s) == Some((row.name, t1)) && WordField(t1) == Some((row.proto, t2))
    requires WordField(t2) == Some((row.table, t3)) && WordField(t3) == Some((row.state, tail))
    requires SinceInfo(tail) == Some((row.since, row.info))
    ensures ProtoFields(s) == Some(row)
  {
  }

  lemma SinceInfoComplete(since: string, gap: string, info: string)
    requires |since| > 0 && forall i :: 0 <= i < |since| ==> IsProtoSinceChar(since[i])
    requires AllSpace(gap)
    requires |info| > 0 ==> !IsSpace(info[0]) && (|gap| > 0 || !IsProtoSinceChar(info[0]))
    ensures SinceInfo(since + (gap + info)) == Some((since, info))
  {
    var s := since + (gap + info);
    if |gap| > 0 {
      assert !IsProtoSinceChar(gap[0]) by { assert IsSpace(gap[0]); }
    } else {
      assert gap + info == info;
    }
    RunLengthConcat(since, gap + info, IsProtoSinceChar);
    assert s[..|since|] == since && s[|since|..] == gap + info;
    RunLengthConcat(gap, info, IsSpace);
    assert (gap + info)[|gap|..] == info;
  }

  // ---------------------------------------------------------------------------
  // `show route` summary rows
  // ---------------------------------------------------------------------------

  /** The groups of a route summary row as matched (unstripped), absent groups as `None`. */
  datatype RouteRow = RouteRow(
    net: Option<string>, rtype: string, proto: string, since: string,
    from: Option<string>, primary: Option<string>, info: string)

  /**
   * `(?P<primary> .)?(?P<info> .*)$` after the closing bracket. The marker
   * is taken when the text still starts with a blank after it; otherwise the
   * engine backtracks and the whole text is the info.
   */
  function MarkerAndInfo(rest: string): (r: Option<(Option<string>, string)>)
    ensures r.Some? <==> |rest| > 0 && rest[0] == ' '
    ensures r.Some? ==> var (primary, info) := r.value;
      && (primary.Some? <==> |rest| >= 3 && rest[2] == ' ')
      && (primary.Some? ==> primary.value == rest[..2] && info == rest[2..])
      && (primary.None? ==> info == rest)
  {
    if |rest| == 0 || rest[0] != ' ' then None
    else if |rest| >= 3 && rest[2] == ' ' then Some((Some(rest[..2]), rest[2..]))
    else Some((None, rest))
  }

  /**
   * `(?P<from> from \S+)?\](?P<primary> .)?(?P<info> .*)$` after the
   * `since` stamp. `\S+` backs off to the last `]` of its run, and that `]`
   * must be followed by a blank for the rest to match.
   */
  function RouteTail(r4: string): (r: Option<(Option<string>, Option<string>, string)>)
    ensures r.Some? ==> |r.value.2| > 0 && r.value.2[0] == ' '
    ensures r.Some? && r.value.0.Some? ==> StartsWith(r.value.0.value, " from ") && |r.value.0.value| > 6
  {
    if StartsWith(r4, " from ") then
      var u := r4[6..];
      var q := RunLength(u, NonSpace);
      if q >= 2 && u[q - 1] == ']' then
        match MarkerAndInfo(u[q..])
        case None => None
        case Some((primary, info)) =>
          assert r4[..5 + q][..6] == " from ";
          Some((Some(r4[..5 + q]), primary, info))
      else None
    else if |r4| > 0 && r4[0] == ']' then
      match MarkerAndInfo(r4[1..])
      case None => None
      case Some((primary, info)) => Some((None, primary, info))
    else None
  }

  /**
   * `SUMMARY_RE` of `show route`:
   * `^(?P<net>\S+)?\s+(?P<rtype>\w+) \[(?P<proto>\w+) (?P<since>[0-9:\.-]+)(?P<from> from \S+)?\](?P<primary> .)?(?P<info> .*)$`.
   * The network is present exactly when the row does not start with a blank.
   */
  function RouteSummary(line: string): (r: Option<RouteRow>)
    ensures r.Some? ==> (r.value.net.Some? <==> |Body(line)| > 0 && !IsSpace(Body(line)[0]))
    ensures r.Some? ==> |r.value.rtype| > 0 && AllWord(r.value.rtype) && |r.value.proto| > 0 && AllWord(r.value.proto)
    ensures r.Some? ==> |r.value.info| > 0 && r.value.info[0] == ' '
    ensures r.Some? && r.value.net.Some? ==> |r.value.net.value| > 0 && NoSpace(r.value.net.value)
  {
    RouteRowOf(Body(line))
  }

  /** The route summary pattern on the text before `$`. */
  function RouteRowOf(s: string): (r: Option<RouteRow>)
    ensures r.Some? ==> (r.value.net.Some? <==> |s| > 0 && !IsSpace(s[0]))
    ensures r.Some? ==> |r.value.rtype| > 0 && AllWord(r.value.rtype) && |r.value.proto| > 0 && AllWord(r.value.proto)
    ensures r.Some? ==> |r.value.info| > 0 && r.value.info[0] == ' '
    ensures r.Some? && r.value.net.Some? ==> |r.value.net.value| > 0 && NoSpace(r.value.net.value)
  {
    var nf :- NetField(s);
    var tf :- WordThen(nf.1, " [");
    var pf :- WordThen(tf.1, " ");
    var sf :- RouteSince(pf.1);
    var tail :- RouteTail(sf.1);
    Some(RouteRow(nf.0, tf.0, pf.0, sf.0, tail.0, tail.1, tail.2))
  }

  /** `^(?P<net>\S+)?\s+`: the network, when the row starts with one, and the text after the blanks. */
  function NetField(s: string): (r: Option<(Option<string>, string)>)
    ensures r.Some? ==> (r.value.0.Some? <==> |s| > 0 && !IsSpace(s[0]))
    ensures r.Some? && r.value.0.Some? ==> |r.value.0.value| > 0 && NoSpace(r.value.0.value)
    ensures r.Some? ==> |r.value.1| > 0 ==> !IsSpace(r.value.1[0])
  {
    var n := RunLength(s, NonSpace);
    var w := RunLength(s[n..], IsSpace);
    if w == 0 then None else Some((if n == 0 then None else Some(s[..n]), s[n + w..]))
  }

  /** `(\w+)` followed by the literal `sep`: the word and the text after the separator. */
  function WordThen(s: string, sep: string): (r: Option<(string, string)>)
    ensures r.Some? ==> |r.value.0| > 0 && AllWord(r.value.0)
  {
    var t := RunLength(s, IsWord);
    if t == 0 || !StartsWith(s[t..], sep) then None else Some((s[..t], s[t + |sep|..]))
  }

  /** `(?P<since>[0-9:\.-]+)`: the stamp and the text after it. */
  function RouteSince(s: string): (r: Option<(string, string)>)
    ensures r.Some? ==> |r.value.0| > 0 && forall i :: 0 <= i < |r.value.0| ==> IsRouteSinceChar(r.value.0[i])
  {
    var d := RunLength(s, IsRouteSinceChar);
    if d == 0 then None else Some((s[..d], s[d..]))
  }

  lemma NetFieldComplete(net: Option<string>, gap: string, rest: string)
    requires net.Some? ==> |net.value| > 0 && NoSpace(net.value)
    requires |gap| > 0 && AllSpace(gap) && (|rest| > 0 ==> !IsSpace(rest[0]))
    ensures NetField(OptText(net) + (gap + rest)) == Some((net, rest))
  {
    var n := OptText(net);
    var s := n + (gap + rest);
    RunLengthConcat(n, gap + rest, NonSpace);
    assert s[..|n|] == n && s[|n|..] == gap + rest;
    RunLengthConcat(gap, rest, IsSpace);
    assert s[|n| + |gap|..] == rest;
  }

  lemma WordThenComplete(word: string, sep: string, rest: string)
    requires |word| > 0 && AllWord(word) && |sep| > 0 && !IsWord(sep[0])
    ensures WordThen(word + (sep + rest), sep) == Some((word, rest))
  {
    var s := word + (sep + rest);
    RunLengthConcat(word, sep + rest, IsWord);
    assert s[..|word|] == word && s[|word|..] == sep + rest;
    assert s[|word| + |sep|..] == rest;
  }

  lemma RouteSinceComplete(since: string, rest: string)
    requires |since| > 0 && forall i :: 0 <= i < |since| ==> IsRouteSinceChar(since[i])
    requires |rest| > 0 ==> !IsRouteSinceChar(rest[0])
    ensures RouteSince(since + rest) == Some((since, rest))
  {
    RunLengthConcat(since, rest, IsRouteSinceChar);
    assert (since + rest)[..|since|] == since && (since + rest)[|since|..] == rest;
  }

  function OptText(o: Option<string>): string {
    if o.Some? then o.value else ""
  }

  /** What follows the `since` stamp in a route row with these groups. */
  function TailText(row: RouteRow): string {
    OptText(row.from) + ("]" + (OptText(row.primary) + row.info))
  }

  /** What follows the protocol name in a route row with these groups. */
  function SinceText(row: RouteRow): string { row.since + TailText(row) }
  /** What follows the route type in a route row with these groups. */
  function ProtoText(row: RouteRow): string { row.proto + (" " + SinceText(row)) }
  /** What follows the blanks after the network in a route row with these groups. */
  function TypeText(row: RouteRow): string { row.rtype + (" [" + ProtoText(row)) }

  /** The text of a route summary row with these groups and this blank gap after the network. */
  function RenderRoute(row: RouteRow, gap: string): string {
    OptText(row.net) + (gap + TypeText(row))
  }

  /** The rows BIRD prints: the conditions under which `RenderRoute` reads back as the same groups. */
  predicate WellFormedRoute(row: RouteRow, gap: string) {
    && (row.net.Some? ==> |row.net.value| > 0 && NoSpace(row.net.value))
    && |gap| > 0 && AllSpace(gap)
    && |row.rtype| > 0 && AllWord(row.rtype) && |row.proto| > 0 && AllWord(row.proto)
    && |row.since| > 0 && (forall i :: 0 <= i < |row.since| ==> IsRouteSinceChar(row.since[i]))
    && (row.from.Some? ==> var f := row.from.value; |f| > 6 && f[..6] == " from " && NoSpace(f[6..]))
    && (row.primary.Some? ==> |row.primary.value| == 2 && row.primary.value[0] == ' ')
    && |row.info| > 0 && row.info[0] == ' '
    && (row.primary.None? ==> !(|row.info| >= 3 && row.info[2] == ' '))
  }

  lemma MarkerAndInfoComplete(primary: Option<string>, info: string)
    requires primary.Some? ==> |primary.value| == 2 && primary.value[0] == ' '
    requires |info| > 0 && info[0] == ' '
    requires primary.None? ==> !(|info| >= 3 && info[2] == ' ')
    ensures MarkerAndInfo(OptText(primary) + info) == Some((primary, info))
  {
    var rest := OptText(primary) + info;
    if primary.Some? {
      assert rest[..2] == primary.value && rest[2..] == info;
    } else {
      assert rest == info;
    }
  }

  lemma FromTailComplete(h: string, mi: string)
    requires |h| > 0 && NoSpace(h) && MarkerAndInfo(mi).Some?
    ensures var (p, i) := MarkerAndInfo(mi).value;
      RouteTail(" from " + (h + ("]" + mi))) == Some((Some(" from " + h), p, i))
  {
    var r4 := " from " + (h + ("]" + mi));
    assert r4[..6] == " from ";
    var u := r4[6..];
    assert u == (h + "]") + mi;
    RunLengthConcat(h + "]", mi, NonSpace);
    assert u[|h| + 1..] == mi;
    assert r4[..5 + |h| + 1] == " from " + h;
  }

  lemma BareTailComplete(mi: string)
    requires MarkerAndInfo(mi).Some?
    ensures var (p, i) := MarkerAndInfo(mi).value; RouteTail("]" + mi) == Some((None, p, i))
  {
    assert ("]" + mi)[1..] == mi;
    assert !StartsWith("]" + mi, " from ");
  }

  lemma RouteTailComplete(row: RouteRow)
    requires row.from.Some? ==> var f := row.from.value; |f| > 6 && f[..6] == " from " && NoSpace(f[6..])
    requires row.primary.Some? ==> |row.primary.value| == 2 && row.primary.value[0] == ' '
    requires |row.info| > 0 && row.info[0] == ' '
    requires row.primary.None? ==> !(|row.info| >= 3 && row.info[2] == ' ')
    ensures RouteTail(TailText(row)) == Some((row.from, row.primary, row.info))
  {
    var mi := OptText(row.primary) + row.info;
    MarkerAndInfoComplete(row.primary, row.info);
    if row.from.Some? {
      var f := row.from.value;
      var h := f[6..];
      assert f == " from " + h;
      assert TailText(row) == " from " + (h + ("]" + mi));
      FromTailComplete(h, mi);
    } else {
      assert TailText(row) == "]" + mi;
      BareTailComplete(mi);
    }
  }

  /** Rendering the groups of a well-formed row and matching it gives the same groups back. */
  lemma RouteSummaryComplete(line: string, row: RouteRow, gap: string)
    requires WellFormedRoute(row, gap)
    requires Body(line) == RenderRoute(row, gap)
    ensures RouteSummary(line) == Some(row)
  {
    RouteRowComplete(row, gap);
  }

  lemma RouteRowComplete(row: RouteRow, gap: string)
    requires WellFormedRoute(row, gap)
    ensures RouteRowOf(RenderRoute(row, gap)) == Some(row)
  {
    NetStep(row, gap);
    TypeStep(row);
    ProtoStep(row);
    SinceStep(row);
    RouteTailComplete(row);
    RouteRowOfSteps(RenderRoute(row, gap), row, TypeText(row), ProtoText(row), SinceText(row), TailText(row));
  }

  lemma NetStep(row: RouteRow, gap: string)
    requires WellFormedRoute(row, gap)
    ensures NetField(RenderRoute(row, gap)) == Some((row.net, TypeText(row)))
  {
    WordNotSpace(row.rtype[0]);
    NetFieldComplete(row.net, gap, TypeText(row));
  }

  lemma TypeStep(row: RouteRow)
    requires |row.rtype| > 0 && AllWord(row.rtype)
    ensures WordThen(TypeText(row), " [") == Some((row.rtype, ProtoText(row)))
  {
    WordThenComplete(row.rtype, " [", ProtoText(row));
  }

  lemma ProtoStep(row: RouteRow)
    requires |row.proto| > 0 && AllWord(row.proto)
    ensures WordThen(ProtoText(row), " ") == Some((row.proto, SinceText(row)))
  {
    WordThenComplete(row.proto, " ", SinceText(row));
  }

  lemma SinceStep(row: RouteRow)
    requires |row.since| > 0 && (forall i :: 0 <= i < |row.since| ==> IsRouteSinceChar(row.since[i]))
    requires row.from.Some? ==> var f := row.from.value; |f| > 6 && f[..6] == " from "
    ensures RouteSince(SinceText(row)) == Some((row.since, TailText(row)))
  {
    var after := TailText(row);
    if row.from.Some? {
      assert after[0] == row.from.value[..6][0];
    } else {
      assert after[0] == ']';
    }
    RouteSinceComplete(row.since, after);
  }

  /** `RouteRowOf` chains its steps: when each step yields the next group, the row has those groups. */
  lemma RouteRowOfSteps(s: string, row: RouteRow, r1: string, r2: string, r3: string, after: string)
    requires NetField(s) == Some((row.net, r1))
    requires WordThen(r1, " [") == Some((row.rtype, r2))
    requires WordThen(r2, " ") == Some((row.proto, r3))
    requires RouteSince(r3) == Some((row.since, after))
    requires RouteTail(after) == Some((row.from, row.primary, row.info))
    ensures RouteRowOf(s) == Some(row)
  {
  }

  /**
   * An attribute line such as `\tType: BGP univ` (blanks, a word, a colon)
   * is never taken for a route row: the type word must be followed by ` [`.
   */
  lemma AttributeIsNotRoute(ws: string, word: string, rest: string)
    requires |ws| > 0 && AllSpace(ws) && |word| > 0 && AllWord(word)
    ensures RouteRowOf(ws + (word + (":" + rest))).None?
  {
    var t := word + (":" + rest);
    AttributeNetStep(ws, word, rest);
    AttributeTypeStep(word, rest);
    RouteRowOfNoType(ws + t, t);
  }

  lemma AttributeNetStep(ws: string, word: string, rest: string)
    requires |ws| > 0 && AllSpace(ws) && |word| > 0 && AllWord(word)
    ensures NetField(ws + (word + (":" + rest))) == Some((None, word + (":" + rest)))
  {
    WordNotSpace(word[0]);
    NetFieldComplete(None, ws, word + (":" + rest));
    assert OptText(None) + (ws + (word + (":" + rest))) == ws + (word + (":" + rest));
  }

  lemma AttributeTypeStep(word: string, rest: string)
    requires |word| > 0 && AllWord(word)
    ensures WordThen(word + (":" + rest), " [").None?
  {
    RunLengthConcat(word, ":" + rest, IsWord);
    assert (word + (":" + rest))[|word|..] == ":" + rest;
  }

  lemma RouteRowOfNoType(s: string, t: string)
    requires NetField(s).Some? && NetField(s).value.1 == t && WordThen(t, " [").None?
    ensures RouteRowOf(s).None?
  {
  }

  // ---------------------------------------------------------------------------
  // `Routes:` and `Route change stats:` lines of a protocol
  // ---------------------------------------------------------------------------

  /** `(\d+)` followed by the literal `lit`: the digits and the text after the literal. */
  function DigitsThen(s: string, lit: string): (r: Option<(string, string)>)
    ensures r.Some? ==> |r.value.0| > 0 && AllDigits(r.value.0)
  {
    var n := RunLength(s, IsDigit);
    if n == 0 || !StartsWith(s[n..], lit) then None else Some((s[..n], s[n + |lit|..]))
  }

  lemma DigitsThenComplete(digits: string, lit: string, rest: string)
    requires |digits| > 0 && AllDigits(digits) && |lit| > 0 && !IsDigit(lit[0])
    ensures DigitsThen(digits + (lit + rest), lit) == Some((digits, rest))
  {
    var s := digits + (lit + rest);
    RunLengthConcat(digits, lit + rest, IsDigit);
    assert s[..|digits|] == digits && s[|digits|..] == lit + rest;
    assert s[|digits| + |lit|..] == rest;
  }

  /** The groups of a `Routes:` line: description and the three counts, the last optional. */
  datatype RoutesCounts = RoutesCounts(desc: string, imported: string, exported: string, preferred: Option<string>)

  /**
   * `^\s\s(?P<desc>\w+):\s+(?P<imported>\d+) imported, (?P<exported>\d+) exported(?:, (?P<preferred>\d+) preferred)?$`.
   */
  function RoutesLine(line: string): (r: Option<RoutesCounts>)
    ensures r.Some? ==> |line| > 0
    ensures r.Some? ==> var m := r.value;
      && |m.desc| > 0 && AllWord(m.desc) && AllDigits(m.imported) && |m.imported| > 0
      && AllDigits(m.exported) && |m.exported| > 0
      && (m.preferred.Some? ==> AllDigits(m.preferred.value) && |m.preferred.value| > 0)
  {
    RoutesOf(Body(line))
  }

  function RoutesOf(s: string): (r: Option<RoutesCounts>)
    ensures r.Some? ==> |s| > 0
    ensures r.Some? ==> var m := r.value;
      && |m.desc| > 0 && AllWord(m.desc) && AllDigits(m.imported) && |m.imported| > 0
      && AllDigits(m.exported) && |m.exported| > 0
      && (m.preferred.Some? ==> AllDigits(m.preferred.value) && |m.preferred.value| > 0)
  {
    var h :- RoutesHead(s);
    var d1 :- DigitsThen(h.1, " imported, ");
    var d2 :- DigitsThen(d1.1, " exported");
    var pref :- PreferredTail(d2.1);
    Some(RoutesCounts(h.0, d1.0, d2.0, pref))
  }

  /** `^\s\s(\w+):\s+`: the description and the text after the blanks that follow its colon. */
  function RoutesHead(s: string): (r: Option<(string, string)>)
    ensures r.Some? ==> |s| > 0
    ensures r.Some? ==> |r.value.0| > 0 && AllWord(r.value.0)
    ensures r.Some? ==> |r.value.1| > 0 ==> !IsSpace(r.value.1[0])
  {
    if |s| < 2 || !IsSpace(s[0]) || !IsSpace(s[1]) then None
    else
      var t := RunLength(s[2..], IsWord);
      var a := s[2 + t..];
      if t == 0 || |a| == 0 || a[0] != ':' then None
      else
        var b := a[1..];
        var w := RunLength(b, IsSpace);
        if w == 0 then None else Some((s[2..2 + t], b[w..]))
  }

  /**
   * `(?:, (?P<preferred>\d+) preferred)?$`: `Some(None)` when nothing is
   * left, `Some(Some(count))` for the optional group, `None` otherwise.
   */
  function PreferredTail(t: string): (r: Option<Option<string>>)
    ensures r.Some? && r.value.Some? ==> |r.value.value| > 0 && AllDigits(r.value.value)
    ensures r == Some(None) <==> t == ""
  {
    if |t| == 0 then Some(None)
    else if !StartsWith(t, ", ") then None
    else
      var n := RunLength(t[2..], IsDigit);
      if n > 0 && t[2 + n..] == " preferred" then Some(Some(t[2..2 + n])) else None
  }

  /** The text of a `Routes:` line with these groups, as BIRD prints it. */
  function RenderRoutes(ws: string, m: RoutesCounts, gap: string): string {
    ws + (m.desc + (":" + (gap + (m.imported + (" imported, " + (m.exported + (" exported"
    + (if m.preferred.Some? then ", " + m.preferred.value + " preferred" else ""))))))))
  }

  lemma RoutesHeadComplete(ws: string, desc: string, gap: string, rest: string)
    requires |ws| == 2 && AllSpace(ws) && |desc| > 0 && AllWord(desc)
    requires |gap| > 0 && AllSpace(gap) && (|rest| > 0 ==> !IsSpace(rest[0]))
    ensures RoutesHead(ws + (desc + (":" + (gap + rest)))) == Some((desc, rest))
  {
    var s := ws + (desc + (":" + (gap + rest)));
    var a := ":" + (gap + rest);
    IndentSlices(ws, desc, a);
    ColonGap(gap, rest);
    RunLengthConcat(desc, a, IsWord);
    RoutesHeadAt(s, |desc|, |gap|);
  }

  lemma IndentSlices(ws: string, desc: string, a: string)
    requires |ws| == 2 && AllSpace(ws)
    ensures var s := ws + (desc + a);
      IsSpace(s[0]) && IsSpace(s[1]) && s[2..] == desc + a && s[2 + |desc|..] == a && s[2..2 + |desc|] == desc
  {
    var s := ws + (desc + a);
    assert s[2..] == desc + a;
  }

  lemma ColonGap(gap: string, rest: string)
    requires AllSpace(gap) && (|rest| > 0 ==> !IsSpace(rest[0]))
    ensures var a := ":" + (gap + rest);
      |a| > 0 && a[0] == ':' && !IsWord(a[0]) && a[1..] == gap + rest
      && RunLength(a[1..], IsSpace) == |gap| && a[1..][|gap|..] == rest
  {
    var a := ":" + (gap + rest);
    assert a[1..] == gap + rest;
    RunLengthConcat(gap, rest, IsSpace);
  }

  lemma RoutesHeadAt(s: string, t: nat, w: nat)
    requires |s| >= 2 && IsSpace(s[0]) && IsSpace(s[1])
    requires t > 0 && RunLength(s[2..], IsWord) == t
    requires 2 + t < |s| && s[2 + t..][0] == ':'
    requires w > 0 && RunLength(s[2 + t..][1..], IsSpace) == w
    ensures RoutesHead(s) == Some((s[2..2 + t], s[2 + t..][1..][w..]))
  {
  }

  lemma PreferredTailComplete(p: Option<string>)
    requires p.Some? ==> |p.value| > 0 && AllDigits(p.value)
    ensures PreferredTail(if p.Some? then ", " + p.value + " preferred" else "") == Some(p)
  {
    if p.Some? {
      var t := ", " + p.value + " preferred";
      assert t[2..] == p.value + " preferred";
      RunLengthConcat(p.value, " preferred", IsDigit);
      assert t[2 + |p.value|..] == " preferred";
      assert t[2..2 + |p.value|] == p.value;
    }
  }

  /** A `Routes:` line rendered from its groups reads back as the same groups. */
  lemma RoutesComplete(ws: string, m: RoutesCounts, gap: string)
    requires |ws| == 2 && AllSpace(ws) && |m.desc| > 0 && AllWord(m.desc) && |gap| > 0 && AllSpace(gap)
    requires |m.imported| > 0 && AllDigits(m.imported) && |m.exported| > 0 && AllDigits(m.exported)
    requires m.preferred.Some? ==> |m.preferred.value| > 0 && AllDigits(m.preferred.value)
    ensures RoutesOf(RenderRoutes(ws, m, gap)) == Some(m)
  {
    var pt := if m.preferred.Some? then ", " + m.preferred.value + " preferred" else "";
    var e := m.exported + (" exported" + pt);
    var i := m.imported + (" imported, " + e);
    assert RoutesHead(RenderRoutes(ws, m, gap)) == Some((m.desc, i)) by {
      assert !IsSpace(m.imported[0]);
      RoutesHeadComplete(ws, m.desc, gap, i);
    }
    assert DigitsThen(i, " imported, ") == Some((m.imported, e)) by {
      DigitsThenComplete(m.imported, " imported, ", e);
    }
    assert DigitsThen(e, " exported") == Some((m.exported, pt)) by {
      DigitsThenComplete(m.exported, " exported", pt);
    }
    PreferredTailComplete(m.preferred);
    RoutesOfSteps(RenderRoutes(ws, m, gap), m, i, e, pt);
  }

  lemma RoutesOfSteps(s: string, m: RoutesCounts, i: string, e: string, pt: string)
    requires RoutesHead(s) == Some((m.desc, i))
    requires DigitsThen(i, " imported, ") == Some((m.imported, e))
    requires DigitsThen(e, " exported") == Some((m.exported, pt))
    requires PreferredTail(pt) == Some(m.preferred)
    ensures RoutesOf(s) == Some(m)
  {
  }

  /** The column names of the route change statistics, in order. */
  const StatColumns: seq<string> := ["received", "rejected", "filtered", "ignored", "accepted"]

  /**
   * `^\s\sRoute change stats:\s+received\s+rejected\s+filtered\s+ignored\s+accepted$`:
   * after the colon come blanks, the five column names separated by blanks,
   * and nothing else.
   */
  predicate StatsHeader(line: string) {
    var s := Body(line);
    && |s| >= 21 && IsSpace(s[0]) && IsSpace(s[1]) && s[2..21] == "Route change stats:"
    && SpacedTokens(s[21..], StatColumns)
  }

  /** `\s+t1\s+t2 ... \s+tn$`: blanks before every token, tokens separated by blanks, nothing after the last. */
  predicate SpacedTokens(rest: string, tokens: seq<string>) {
    |rest| > 0 && IsSpace(rest[0]) && !IsSpace(rest[|rest| - 1]) && Split(rest) == tokens
  }

  /**
   * `^\s\s\s\s(?P<desc>[\w ]+):\s+(?P<received>[\d-]+)\s+ ... \s+(?P<accepted>[\d-]+)$`:
   * the label and the five cells of one statistics row. The label is the
   * maximal run of word characters and spaces after four blanks and must be
   * followed by the colon.
   */
  function StatsRow(line: string): (r: Option<(string, seq<string>)>)
    ensures r.Some? ==> |line| > 0
    ensures r.Some? ==> var (lbl, cells) := r.value;
      && |lbl| > 0 && (forall i :: 0 <= i < |lbl| ==> IsLabelChar(lbl[i]))
      && |cells| == 5 && StatCells(cells)
  {
    var s := Body(line);
    var l :- StatsLabel(s);
    if SpacedTokens(l.1, Split(l.1)) && |Split(l.1)| == 5 && StatCells(Split(l.1))
    then Some((l.0, Split(l.1)))
    else None
  }

  /** Every cell is a non-empty run of digits and dashes. */
  predicate StatCells(cells: seq<string>) {
    forall j :: 0 <= j < |cells| ==> |cells[j]| > 0 && forall i :: 0 <= i < |cells[j]| ==> IsStatChar(cells[j][i])
  }

  /** `^\s\s\s\s([\w ]+):`: the row label and the text after its colon. */
  function StatsLabel(s: string): (r: Option<(string, string)>)
    ensures r.Some? ==> |r.value.0| > 0 && forall i :: 0 <= i < |r.value.0| ==> IsLabelChar(r.value.0[i])
  {
    if RunLength(s, IsSpace) < 4 then None
    else
      var t := RunLength(s[4..], IsLabelChar);
      if t == 0 || 4 + t >= |s| || s[4 + t] != ':' then None
      else Some((s[4..4 + t], s[4 + t + 1..]))
  }

  /** The text of a statistics row: four blanks, the label, a colon, blanks, and the cells separated by single spaces. */
  function RenderStatsRow(lbl: string, gap: string, cells: seq<string>): string {
    "    " + (lbl + (":" + (gap + Join(" ", cells))))
  }

  /** Blanks followed by tokens joined by single spaces are what `SpacedTokens` accepts. */
  lemma SpacedTokensOfJoin(gap: string, tokens: seq<string>)
    requires |gap| > 0 && AllSpace(gap) && |tokens| > 0
    requires forall j :: 0 <= j < |tokens| ==> |tokens[j]| > 0 && NoSpace(tokens[j])
    ensures SpacedTokens(gap + Join(" ", tokens), tokens)
  {
    SplitAfterBlanks(gap, Join(" ", tokens));
    SplitJoin(tokens);
    JoinLast(" ", tokens);
  }

  lemma StatsLabelComplete(lbl: string, rest: string)
    requires |lbl| > 0 && forall i :: 0 <= i < |lbl| ==> IsLabelChar(lbl[i])
    ensures StatsLabel("    " + (lbl + (":" + rest))) == Some((lbl, rest))
  {
    var s := "    " + (lbl + (":" + rest));
    assert forall i :: 0 <= i < 4 ==> s[i] == ' ';
    assert s[4..] == lbl + (":" + rest);
    RunLengthConcat(lbl, ":" + rest, IsLabelChar);
    assert s[4 + |lbl|] == ':';
    assert s[4..4 + |lbl|] == lbl;
    assert s[4 + |lbl| + 1..] == rest;
  }

  /** A statistics row rendered from a label and five cells reads back as that label and those cells. */
  lemma StatsRowComplete(lbl: string, gap: string, cells: seq<string>)
    requires |lbl| > 0 && forall i :: 0 <= i < |lbl| ==> IsLabelChar(lbl[i])
    requires |gap| > 0 && AllSpace(gap) && |cells| == 5 && StatCells(cells)
    ensures StatsRow(RenderStatsRow(lbl, gap, cells) + "\n") == Some((lbl, cells))
  {
    var s := RenderStatsRow(lbl, gap, cells);
    assert Body(s + "\n") == s;
    StatsLabelComplete(lbl, gap + Join(" ", cells));
    assert forall j :: 0 <= j < |cells| ==> NoSpace(cells[j]) by {
      forall j, i | 0 <= j < |cells| && 0 <= i < |cells[j]| ensures !IsSpace(cells[j][i]) {
        assert IsStatChar(cells[j][i]);
      }
    }
    SpacedTokensOfJoin(gap, cells);
  }

  /** The `Route change stats:` header with the column names separated by single spaces. */
  function RenderStatsHeader(ws: string, gap: string): string {
    ws + ("Route change stats:" + (gap + Join(" ", StatColumns)))
  }

  lemma StatsHeaderComplete(ws: string, gap: string)
    requires |ws| == 2 && AllSpace(ws) && |gap| > 0 && AllSpace(gap)
    ensures StatsHeader(RenderStatsHeader(ws, gap) + "\n")
  {
    var rest := gap + Join(" ", StatColumns);
    var s := RenderStatsHeader(ws, gap);
    assert Body(s + "\n") == s;
    StatsHeaderParts(ws, rest);
    StatColumnsAreWords();
    SpacedTokensOfJoin(gap, StatColumns);
  }

  lemma StatsHeaderParts(ws: string, rest: string)
    requires |ws| == 2 && AllSpace(ws)
    ensures var s := ws + ("Route change stats:" + rest);
      && |s| >= 21 && IsSpace(s[0]) && IsSpace(s[1]) && s[2..21] == "Route change stats:" && s[21..] == rest
  {
    var s := ws + ("Route change stats:" + rest);
    assert s[2..] == "Route change stats:" + rest;
  }

  /** The column names are non-empty and have no blanks. */
  lemma StatColumnsAreWords()
    ensures forall j :: 0 <= j < |StatColumns| ==> |StatColumns[j]| > 0 && NoSpace(StatColumns[j])
  {
    forall j | 0 <= j < |StatColumns| ensures |StatColumns[j]| > 0 && NoSpace(StatColumns[j]) {
      var c := StatColumns[j];
      forall i | 0 <= i < |c| ensures !IsSpace(c[i]) {
        assert 'a' <= c[i] <= 'z';
      }
    }
  }
}
