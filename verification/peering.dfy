/**
 * The pure helpers of the PEERING announcement controller: the mux
 * names, the announcement records, the Vultr community builders, the
 * name of a prefix filter file, the gateway of an egress rule, the
 * protocol-name parser and the mux-to-tap table. Rendering BIRD
 * configurations, writing files and running `birdc` or `ip` are outside
 * the model.
 */
module Peering {
  import opened Wrappers
  import opened Text

  /** `MuxName`, in declaration order. */
  const MuxNames: seq<string> := [
    "amsterdam01", "clemson01", "grnet01", "isi01", "neu01", "saopaulo01", "seattle01",
    "ufmg01", "utah01", "uw01", "wisc01", "vtramsterdam", "vtratlanta", "vtrbangalore",
    "vtrchicago", "vtrdallas", "vtrdelhi", "vtrfrankfurt", "vtrhonolulu", "vtrjohannesburg",
    "vtrlondon", "vtrlosangelas", "vtrmadrid", "vtrmanchester", "vtrmelbourne", "vtrmexico",
    "vtrmiami", "vtrmumbai", "vtrnewyork", "vtrosaka", "vtrparis", "vtrsantiago",
    "vtrsaopaulo", "vtrseattle", "vtrseoul", "vtrsilicon", "vtrsingapore", "vtrstockholm",
    "vtrsydney", "vtrtelaviv", "vtrtokyo", "vtrtoronto", "vtrwarsaw"]

  /** The IPv4 peers of the two IXPs whose route servers and members get their own announcements: mux, ASN, peer ids. */
  const IxpSpecialPeersV4: seq<(string, nat, seq<nat>)> := [
    ("amsterdam01", 6777, [27, 29]),
    ("amsterdam01", 12859, [60, 61]),
    ("amsterdam01", 8283, [52]),
    ("seattle01", 33108, [1, 2]),
    ("seattle01", 3130, [101, 592])]

  /**
   * `Announcement`. The mux list is a set: the generators build it by
   * iterating over sets, so its order carries no meaning.
   */
  datatype Announcement = Announcement(
    muxes: set<string>,
    peerIds: seq<nat>,
    communities: seq<(nat, nat)>,
    prepend: seq<nat>)

  /** An announcement to `muxes` with no peers, communities or prepending. */
  function Plain(muxes: set<string>): Announcement {
    Announcement(muxes, [], [], [])
  }

  /** `Update`. */
  datatype Update = Update(withdraw: set<string>, announce: seq<Announcement>, description: Option<string>)

  // ---------------------------------------------------------------------------
  // Vultr communities
  // ---------------------------------------------------------------------------

  const VultrAsn: nat := 20473

  /** `Vultr.communities_do_not_announce`: (64600, u) for each upstream, in order. */
  function CommunitiesDoNotAnnounce(upstreams: seq<nat>): (cs: seq<(nat, nat)>)
    ensures |cs| == |upstreams|
    ensures forall i :: 0 <= i < |cs| ==> cs[i] == (64600, upstreams[i])
  {
    seq(|upstreams|, i requires 0 <= i < |upstreams| => (64600, upstreams[i]))
  }

  /** `Vultr.communities_announce_to_upstreams`: (20473, 6000), then (64699, u) for each upstream, in order. */
  function CommunitiesAnnounceToUpstreams(upstreams: seq<nat>): (cs: seq<(nat, nat)>)
    ensures |cs| == |upstreams| + 1
    ensures cs[0] == (VultrAsn, 6000)
    ensures forall i :: 0 <= i < |upstreams| ==> cs[i + 1] == (64699, upstreams[i])
  {
    [(VultrAsn, 6000)] + seq(|upstreams|, i requires 0 <= i < |upstreams| => (64699, upstreams[i]))
  }

  /** The upstreams the communities with action ASN `action` name, in order. */
  function Targets(cs: seq<(nat, nat)>, action: nat): seq<nat> {
    if |cs| == 0 then [] else (if cs[0].0 == action then [cs[0].1] else []) + Targets(cs[1..], action)
  }

  /** Both builders name exactly the upstreams they were given, in order. */
  lemma {:induction false} CommunitiesNameUpstreams(upstreams: seq<nat>)
    ensures Targets(CommunitiesDoNotAnnounce(upstreams), 64600) == upstreams
    ensures Targets(CommunitiesAnnounceToUpstreams(upstreams), 64699) == upstreams
    ensures Targets(CommunitiesAnnounceToUpstreams(upstreams), 64600) == []
    decreases |upstreams|
  {
    if |upstreams| > 0 {
      CommunitiesNameUpstreams(upstreams[1..]);
      assert CommunitiesDoNotAnnounce(upstreams)[1..] == CommunitiesDoNotAnnounce(upstreams[1..]);
      var a := CommunitiesAnnounceToUpstreams(upstreams);
      var b := CommunitiesAnnounceToUpstreams(upstreams[1..]);
      assert a[2..] == b[1..];
      assert Targets(a, 64699) == Targets(a[1..], 64699);
      assert Targets(b, 64699) == Targets(b[1..], 64699);
      assert Targets(a, 64600) == Targets(a[1..], 64600);
      assert Targets(b, 64600) == Targets(b[1..], 64600);
    } else {
      assert CommunitiesAnnounceToUpstreams(upstreams)[1..] == [];
    }
  }

  // ---------------------------------------------------------------------------
  // Prefix filter files
  // ---------------------------------------------------------------------------

  /** The prefix as it appears in a file name: '/' becomes '-' and ':' becomes 'i'. */
  function MangledPrefix(prefix: string): (m: string)
    ensures Lacks(m, '/') && Lacks(m, ':')
  {
    var m := ReplaceChar(ReplaceChar(prefix, '/', "-"), ':', "i");
    KeepsLacking(ReplaceChar(prefix, '/', "-"), ':', "i", '/');
    m
  }

  /** Replacing one character by a string without `d` adds no `d`. */
  lemma {:induction false} KeepsLacking(s: string, c: char, r: string, d: char)
    requires Lacks(s, d) && Lacks(r, d)
    ensures Lacks(ReplaceChar(s, c, r), d)
  {
    if |s| > 0 {
      assert Lacks(s[1..], d) by {
        assert forall i :: 0 <= i < |s[1..]| ==> s[1..][i] == s[i + 1];
      }
      KeepsLacking(s[1..], c, r, d);
    }
  }

  /** Replacing a character by one other character keeps the length and every other character. */
  lemma {:induction false} ReplaceOne(s: string, c: char, x: char)
    ensures |ReplaceChar(s, c, [x])| == |s|
    ensures forall i :: 0 <= i < |s| ==> ReplaceChar(s, c, [x])[i] == if s[i] == c then x else s[i]
  {
    if |s| > 0 {
      ReplaceOne(s[1..], c, x);
    }
  }

  /**
   * The file name `__config_file` builds, or ValueError when the prefix is
   * not a network; `isNetwork` stands for `ipaddress.ip_network`.
   */
  function ConfigFile(prefix: string, mux: string, isNetwork: string -> bool): (r: Result<string>)
    ensures r.Err? <==> !isNetwork(prefix)
    ensures r.Err? ==> r.error.ValueError?
  {
    if !isNetwork(prefix) then Err(ValueError(prefix))
    else Ok("export_" + mux + "_" + MangledPrefix(prefix) + ".conf")
  }

  /**
   * The name is `export_<mux>_<prefix>.conf` with the prefix mangled
   * position by position, so it has the prefix's length and no '/' or ':'
   * from it.
   */
  lemma ConfigFileName(prefix: string, mux: string, isNetwork: string -> bool)
    requires isNetwork(prefix)
    ensures var m := MangledPrefix(prefix);
      && ConfigFile(prefix, mux, isNetwork) == Ok("export_" + mux + "_" + m + ".conf")
      && |m| == |prefix|
      && forall i :: 0 <= i < |prefix| ==> m[i] == (if prefix[i] == '/' then '-' else if prefix[i] == ':' then 'i' else prefix[i])
  {
    ReplaceOne(prefix, '/', '-');
    ReplaceOne(ReplaceChar(prefix, '/', "-"), ':', 'i');
  }

  // ---------------------------------------------------------------------------
  // Egress gateways
  // ---------------------------------------------------------------------------

  /** The four numbers of the gateway address; Python's `//` and `%` by 256 are floored, as Dafny's are for a positive divisor. */
  function GatewayOctets(muxid: int, peerid: Option<int>): (o: seq<int>)
    ensures |o| == 4 && o[0] == 100 && o[1] == 64 + muxid
    ensures peerid.None? ==> o[2..] == [128, 1]
    ensures peerid.Some? && 0 <= peerid.value < 65536 ==> 0 <= o[2] < 256 && 0 <= o[3] < 256 && o[2] * 256 + o[3] == peerid.value
    ensures 0 <= muxid < 192 && (peerid.None? || 0 <= peerid.value < 65536) ==> forall i :: 0 <= i < 4 ==> 0 <= o[i] < 256
  {
    match peerid
    case None => [100, 64 + muxid, 128, 1]
    case Some(p) => [100, 64 + muxid, p / 256, p % 256]
  }

  /** Dotted-decimal text of a list of numbers. */
  function Dotted(o: seq<int>): string {
    if |o| == 0 then "" else if |o| == 1 then IntToString(o[0]) else IntToString(o[0]) + "." + Dotted(o[1..])
  }

  /** The gateway `set_egress` routes through, or KeyError for a mux without a tap. */
  function Gateway(mux2id: map<string, int>, mux: string, peerid: Option<int>): (r: Result<string>)
    ensures r.Err? <==> mux !in mux2id
    ensures r.Err? ==> r.error == KeyError(mux)
    ensures r.Ok? ==> r.value == Dotted(GatewayOctets(mux2id[mux], peerid))
  {
    if mux !in mux2id then Err(KeyError(mux))
    else Ok(Dotted(GatewayOctets(mux2id[mux], peerid)))
  }

  // ---------------------------------------------------------------------------
  // Protocol names
  // ---------------------------------------------------------------------------

  /** The length of the run of ASCII digits at position `i`. */
  function DigitRun(s: string, i: nat): (n: nat)
    requires i <= |s|
    ensures i + n <= |s| && AllDigits(s[i..i + n])
    ensures i + n < |s| ==> !IsDigit(s[i + n])
  {
    RunLength(s[i..], IsDigit)
  }

  /**
   * `protocol_to_peerid_asn`: the peer id and ASN of a name matching
   * `up<digits>_<digits>` at its start, trailing text ignored, and
   * ValueError for any other name.
   */
  function ProtocolToPeeridAsn(proto: string): (r: Result<(nat, nat)>)
    ensures r.Err? ==> r.error.ValueError?
  {
    if !StartsWith(proto, "up") then Err(ValueError(proto))
    else
      var n := DigitRun(proto, 2);
      if n == 0 || 2 + n >= |proto| || proto[2 + n] != '_' then Err(ValueError(proto))
      else
        var m := DigitRun(proto, 3 + n);
        if m == 0 then Err(ValueError(proto))
        else Ok((DigitsValue(proto[2..2 + n]), DigitsValue(proto[3 + n..3 + n + m])))
  }

  /** An accepted name starts with `up`, a digit run, `_` and a digit run, and gives the two runs' values. */
  lemma ProtocolAccepted(proto: string)
    ensures var r := ProtocolToPeeridAsn(proto);
      r.Ok? ==> (
        && 2 < |proto| && proto[..2] == "up"
        && var n := DigitRun(proto, 2);
        && 0 < n && 3 + n <= |proto| && proto[2 + n] == '_'
        && var m := DigitRun(proto, 3 + n);
        && 0 < m && AllDigits(proto[2..2 + n]) && AllDigits(proto[3 + n..3 + n + m])
        && r.value == (DigitsValue(proto[2..2 + n]), DigitsValue(proto[3 + n..3 + n + m])))
  {
  }

  /** The name BIRD gives the session with peer `peerid` of AS `asn`, with any trailing text. */
  function ProtocolName(peerid: nat, asn: nat, rest: string): string {
    "up" + NatToString(peerid) + "_" + NatToString(asn) + rest
  }

  /** A name of that shape parses back to its peer id and ASN, as long as the trailing text does not extend the ASN. */
  lemma ProtocolNameRoundTrip(peerid: nat, asn: nat, rest: string)
    requires |rest| > 0 ==> !IsDigit(rest[0])
    ensures ProtocolToPeeridAsn(ProtocolName(peerid, asn, rest)) == Ok((peerid, asn))
  {
    var p := NatToString(peerid);
    var a := NatToString(asn);
    assert ProtocolName(peerid, asn, rest) == "up" + (p + ("_" + (a + rest)));
    ProtocolDigits("up" + (p + ("_" + (a + rest))), p, a, rest);
    DigitsValueOfNatToString(peerid);
    DigitsValueOfNatToString(asn);
  }

  /** `up`, a digit run, `_` and a digit run, then text that does not extend it: the two runs' values. */
  lemma ProtocolDigits(s: string, p: string, a: string, rest: string)
    requires |p| > 0 && AllDigits(p) && |a| > 0 && AllDigits(a)
    requires |rest| > 0 ==> !IsDigit(rest[0])
    requires s == "up" + (p + ("_" + (a + rest)))
    ensures ProtocolToPeeridAsn(s) == Ok((DigitsValue(p), DigitsValue(a)))
  {
    assert s[..2] == "up";
    assert s[2..] == p + ("_" + (a + rest));
    DigitRunAt(s, 2, p, "_" + (a + rest));
    assert s[2 + |p|] == '_';
    assert s[3 + |p|..] == a + rest;
    DigitRunAt(s, 3 + |p|, a, rest);
    ProtocolOk(s, p, a);
  }

  /** A name whose digit runs and separator are where the pattern wants them is accepted. */
  lemma ProtocolOk(s: string, p: string, a: string)
    requires AllDigits(p) && AllDigits(a) && 0 < |p| && 0 < |a|
    requires StartsWith(s, "up") && 2 + |p| < |s| && DigitRun(s, 2) == |p| && s[2 + |p|] == '_'
    requires DigitRun(s, 3 + |p|) == |a| && s[2..2 + |p|] == p && s[3 + |p|..3 + |p| + |a|] == a
    ensures ProtocolToPeeridAsn(s) == Ok((DigitsValue(p), DigitsValue(a)))
  {
  }

  /** The digit run at `i` is exactly `d` when `d` is followed by a non-digit. */
  lemma DigitRunAt(s: string, i: nat, d: string, after: string)
    requires i <= |s| && s[i..] == d + after && AllDigits(d)
    requires |after| > 0 ==> !IsDigit(after[0])
    ensures DigitRun(s, i) == |d| && s[i..i + |d|] == d
  {
    RunLengthConcat(d, after, IsDigit);
    assert s[i..i + |d|] == (d + after)[..|d|];
  }

  // ---------------------------------------------------------------------------
  // The mux-to-tap table
  // ---------------------------------------------------------------------------

  /**
   * One line of the mux-to-tap file, split into its whitespace-separated
   * fields: exactly two fields (ValueError otherwise), the second
   * `tap<id>` (AssertionError otherwise), and the id an integer
   * (ValueError otherwise).
   */
  function ParseTapFields(fields: seq<string>): (r: Result<(string, int)>)
    ensures r.Ok? <==> |fields| == 2 && StartsWith(fields[1], "tap") && PyInt(fields[1][3..]).Some?
    ensures r.Ok? ==> r.value == (fields[0], PyInt(fields[1][3..]).value) && fields[1] == "tap" + fields[1][3..]
    ensures |fields| != 2 ==> r.Err? && r.error.ValueError?
    ensures |fields| == 2 && !StartsWith(fields[1], "tap") ==> r.Err? && r.error.AssertionError?
  {
    if |fields| != 2 then Err(ValueError("mux, tapdev = line.strip().split()"))
    else if !StartsWith(fields[1], "tap") then Err(AssertionError("tapdev.startswith(\"tap\")"))
    else
      assert fields[1] == "tap" + fields[1][3..];
      match PyInt(fields[1][3..])
      case None => Err(ValueError(fields[1]))
      case Some(id) => Ok((fields[0], id))
  }

  /** The fields of a line: `line.strip().split()`. */
  function Fields(line: string): seq<string> {
    Split(Strip(line))
  }

  /** The line for a mux name without blanks and a tap numbered `id` has those two fields. */
  lemma TapLineFields(mux: string, id: int)
    requires IsToken(mux)
    ensures Fields(mux + " tap" + IntToString(id)) == [mux, "tap" + IntToString(id)]
  {
    var tap := "tap" + IntToString(id);
    TapIsToken(id);
    assert mux + " tap" + IntToString(id) == mux + " " + tap;
    TwoTokenFields(mux, tap);
  }

  /** `tap<id>` holds no blank. */
  lemma TapIsToken(id: int)
    ensures IsToken("tap" + IntToString(id))
  {
    var tap := "tap" + IntToString(id);
    var d := if id < 0 then NatToString(-id) else NatToString(id);
    assert IntToString(id) == (if id < 0 then "-" + d else d);
    assert forall i :: 0 <= i < |IntToString(id)| ==> IsDigit(IntToString(id)[i]) || IntToString(id)[i] == '-';
    forall i | 0 <= i < |tap| ensures !IsSpace(tap[i]) {
      if i >= 3 {
        assert tap[i] == IntToString(id)[i - 3];
      }
    }
  }

  /** Two blank-free words joined by one blank split back into those words. */
  lemma TwoTokenFields(a: string, b: string)
    requires IsToken(a) && IsToken(b)
    ensures Fields(a + " " + b) == [a, b]
  {
    var line := a + " " + b;
    assert Join(" ", [a, b]) == line;
    SplitJoin([a, b]);
    assert line[0] == a[0];
    assert line[|line| - 1] == b[|b| - 1];
    StripNoOp(line);
  }

  /** A line `<mux> tap<id>` parses back to the mux and the id. */
  lemma TapLineRoundTrip(mux: string, id: int)
    requires IsToken(mux)
    ensures ParseTapFields(Fields(mux + " tap" + IntToString(id))) == Ok((mux, id))
  {
    TapLineFields(mux, id);
    var tap := "tap" + IntToString(id);
    assert tap[3..] == IntToString(id);
    IntToStringRoundTrip(id);
  }

  /** The constructor's loop over the mux-to-tap file, given each line's fields: a later line for the same mux wins. */
  function Mux2Id(lines: seq<seq<string>>): (r: Result<map<string, int>>)
    ensures r.Ok? <==> forall i :: 0 <= i < |lines| ==> ParseTapFields(lines[i]).Ok?
    ensures r.Ok? ==> forall mux :: mux in r.value <==> exists i :: 0 <= i < |lines| && lines[i][0] == mux
  {
    if |lines| == 0 then Ok(map[])
    else
      var prev := Mux2Id(lines[..|lines| - 1]);
      var last := ParseTapFields(lines[|lines| - 1]);
      assert forall i :: 0 <= i < |lines| - 1 ==> lines[..|lines| - 1][i] == lines[i];
      if prev.Err? then Err(prev.error)
      else if last.Err? then Err(last.error)
      else Ok(prev.value[last.value.0 := last.value.1])
  }

  /** The mux-to-tap file read line by line. */
  function ParseMux2Tap(lines: seq<string>): Result<map<string, int>> {
    Mux2Id(seq(|lines|, i requires 0 <= i < |lines| => Fields(lines[i])))
  }

  /** A mux's tap id comes from the last line that names it. */
  lemma {:induction false} Mux2IdLastWins(lines: seq<seq<string>>, i: nat)
    requires Mux2Id(lines).Ok? && i < |lines|
    requires forall j :: i < j < |lines| ==> lines[j][0] != lines[i][0]
    ensures Mux2Id(lines).value[lines[i][0]] == ParseTapFields(lines[i]).value.1
  {
    if i < |lines| - 1 {
      var init := lines[..|lines| - 1];
      assert init[i] == lines[i];
      assert forall j :: i < j < |init| ==> init[j] == lines[j];
      Mux2IdLastWins(init, i);
    }
  }

  /** The mux-to-tap file written as `<mux> tap<id>` lines. */
  function TapLines(muxes: seq<string>, ids: seq<int>): (lines: seq<string>)
    requires |muxes| == |ids|
    ensures |lines| == |muxes| && forall i :: 0 <= i < |muxes| ==> lines[i] == muxes[i] + " tap" + IntToString(ids[i])
  {
    seq(|muxes|, i requires 0 <= i < |muxes| => muxes[i] + " tap" + IntToString(ids[i]))
  }

  /** No later entry repeats the `i`-th. */
  predicate LastOf(xs: seq<string>, i: nat) {
    i < |xs| && forall j :: i < j < |xs| ==> xs[j] != xs[i]
  }

  /** The fields of each tap line: the mux, then `tap<id>`, which parse back to that pair. */
  lemma TapLinesFields(muxes: seq<string>, ids: seq<int>) returns (fs: seq<seq<string>>)
    requires |muxes| == |ids| && forall i :: 0 <= i < |muxes| ==> IsToken(muxes[i])
    ensures ParseMux2Tap(TapLines(muxes, ids)) == Mux2Id(fs) && |fs| == |muxes|
    ensures forall i :: 0 <= i < |fs| ==> ParseTapFields(fs[i]) == Ok((muxes[i], ids[i])) && fs[i][0] == muxes[i]
  {
    var lines := TapLines(muxes, ids);
    fs := seq(|lines|, i requires 0 <= i < |lines| => Fields(lines[i]));
    forall i | 0 <= i < |fs| ensures ParseTapFields(fs[i]) == Ok((muxes[i], ids[i])) {
      TapLineRoundTrip(muxes[i], ids[i]);
    }
  }

  /**
   * Reading a well-formed mux-to-tap file succeeds, maps exactly the muxes
   * it names, and gives each the id on the last line naming it.
   */
  lemma ParseMux2TapLines(muxes: seq<string>, ids: seq<int>)
    requires |muxes| == |ids| && forall i :: 0 <= i < |muxes| ==> IsToken(muxes[i])
    ensures var r := ParseMux2Tap(TapLines(muxes, ids));
      && r.Ok?
      && (forall mux :: mux in r.value <==> mux in muxes)
      && (forall i: nat :: LastOf(muxes, i) ==> muxes[i] in r.value && r.value[muxes[i]] == ids[i])
  {
    var fs := TapLinesFields(muxes, ids);
    Mux2IdNames(fs, muxes);
    Mux2IdLast(fs, muxes, ids);
  }

  /** The muxes mapped are those the lines name. */
  lemma Mux2IdNames(fs: seq<seq<string>>, muxes: seq<string>)
    requires Mux2Id(fs).Ok? && |fs| == |muxes| && forall i :: 0 <= i < |fs| ==> |fs[i]| > 0 && fs[i][0] == muxes[i]
    ensures forall mux :: mux in Mux2Id(fs).value <==> mux in muxes
  {
    forall mux | mux in muxes ensures mux in Mux2Id(fs).value {
      var i :| 0 <= i < |muxes| && muxes[i] == mux;
      assert fs[i][0] == mux;
    }
  }

  /** Each mux not named again later gets the id of its line. */
  lemma Mux2IdLast(fs: seq<seq<string>>, muxes: seq<string>, ids: seq<int>)
    requires |fs| == |muxes| == |ids|
    requires forall i :: 0 <= i < |fs| ==> ParseTapFields(fs[i]) == Ok((muxes[i], ids[i])) && fs[i][0] == muxes[i]
    ensures Mux2Id(fs).Ok?
    ensures forall i: nat :: LastOf(muxes, i) ==> muxes[i] in Mux2Id(fs).value && Mux2Id(fs).value[muxes[i]] == ids[i]
  {
    forall i: nat | LastOf(muxes, i) ensures muxes[i] in Mux2Id(fs).value && Mux2Id(fs).value[muxes[i]] == ids[i] {
      Mux2IdLastWins(fs, i);
    }
  }
}
