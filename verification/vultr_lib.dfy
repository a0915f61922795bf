/**
 * The per-file fold of the Vultr provider matrix (`process_file`): every
 * line of one mux's route dump is classified, the routes are grouped by
 * the neighbour after Vultr in their AS path, and the findings are counted
 * per file and per neighbour. Reading, decompressing and JSON decoding are
 * outside the model: a line comes with the route it decodes to, if any.
 *
 * Rust's `HashMap`s are modelled as association lists without repeated
 * keys, in first-insertion order; nothing below depends on that order.
 */
module VultrLib {
  import opened Wrappers
  import opened Text
  import opened VultrRoutes
  import opened VultrChecks

  // ---------------------------------------------------------------------------
  // The mux a dump belongs to
  // ---------------------------------------------------------------------------

  /** Index of the last occurrence of `c` in `s`, if any. */
  function LastIndexOf(s: string, c: char): (r: Option<nat>)
    ensures r.Some? ==> r.value < |s| && s[r.value] == c && Lacks(s[r.value + 1..], c)
    ensures r.None? ==> Lacks(s, c)
    decreases |s|
  {
    if |s| == 0 then None
    else if s[|s| - 1] == c then Some(|s| - 1)
    else
      var r := LastIndexOf(s[..|s| - 1], c);
      assert r.Some? ==> s[r.value + 1..] == s[..|s| - 1][r.value + 1..] + [s[|s| - 1]];
      r
  }

  /**
   * `Path::file_stem` of a file name: the text before its last dot, or the
   * whole name when it has no dot or its only dot leads it.
   */
  function FileStem(name: string): (stem: string)
    ensures StartsWith(name, stem)
    ensures stem == name || (0 < |stem| < |name| && name[|stem|] == '.' && Lacks(name[|stem| + 1..], '.'))
    ensures stem == name <==> Lacks(name, '.') || (0 < |name| && name[0] == '.' && Lacks(name[1..], '.'))
  {
    match LastIndexOf(name, '.')
    case None => name
    case Some(i) =>
      if i == 0 then name
      else
        assert name[1..][i - 1] == '.';
        name[..i]
  }

  /**
   * `get_mux_protocol`: the file stem without its `.table.jsonl` suffix.
   * `fileName` is the path's last component as text, `None` when the path
   * has none or it is not valid Unicode.
   */
  function GetMuxProtocol(fileName: Option<string>): (r: Option<string>)
    ensures r.Some? ==> fileName.Some? && StartsWith(fileName.value, r.value + ".table.jsonl")
    ensures r.Some? ==> FileStem(fileName.value) == r.value + ".table.jsonl"
    ensures r.Some? <==> fileName.Some? && EndsWith(FileStem(fileName.value), ".table.jsonl")
  {
    if fileName.None? then None
    else
      var stem := FileStem(fileName.value);
      if EndsWith(stem, ".table.jsonl") then
        var base := stem[..|stem| - |".table.jsonl"|];
        assert stem == base + ".table.jsonl";
        assert fileName.value[..|base + ".table.jsonl"|] == stem;
        Some(base)
      else None
  }

  /** A compressed table dump `<mux>.table.jsonl.bz2` names its mux, whatever the mux is called. */
  lemma DumpNamesMux(mux: string)
    ensures GetMuxProtocol(Some(mux + ".table.jsonl.bz2")) == Some(mux)
  {
    var name := mux + ".table.jsonl.bz2";
    var i := |mux| + |".table.jsonl"|;
    assert name[i] == '.';
    assert name[i + 1..] == "bz2";
    assert LastIndexOf(name, '.') == Some(i) by {
      LastDot(name, i);
    }
    assert name[..i] == mux + ".table.jsonl";
  }

  /** The last dot of a name is the one no dot follows. */
  lemma LastDot(s: string, i: nat)
    requires i < |s| && s[i] == '.' && Lacks(s[i + 1..], '.')
    ensures LastIndexOf(s, '.') == Some(i)
  {
    var r := LastIndexOf(s, '.');
    assert !Lacks(s, '.') by {
      assert s[i] == '.';
    }
    LacksBeyond(s, r.value, i, '.');
    LacksBeyond(s, i, r.value, '.');
  }

  /** A character that does not occur after position `j` is not at any later position. */
  lemma LacksBeyond(s: string, j: nat, k: nat, c: char)
    requires j < |s| && k < |s| && Lacks(s[j + 1..], c)
    ensures j < k ==> s[k] != c
  {
    if j < k {
      assert s[j + 1..][k - j - 1] == s[k];
    }
  }

  // ---------------------------------------------------------------------------
  // Routes, peers and counts
  // ---------------------------------------------------------------------------

  /** The fields of a decoded `Route` that the fold reads. */
  datatype Route = Route(
    net: string,
    asPath: Option<seq<nat>>,
    community: Option<seq<(nat, nat)>>,
    largeCommunity: Option<seq<(nat, nat, nat)>>)

  /** One line of a dump, with the route serde decodes from its trimmed text (`None` when it fails). */
  datatype Line = Line(text: string, route: Option<Route>)

  /** `PeerInfo`. */
  datatype PeerInfo = PeerInfo(peerTypes: set<PeerType>, numRoutes: nat, failedChecks: map<string, nat>)

  /** A neighbour ASN and what is known of it. */
  type Peers = seq<(nat, PeerInfo)>

  /** `FileResult`. */
  datatype FileResult = FileResult(ipVersion: nat, peers: Peers, failedChecks: map<string, nat>)

  /** The state of the fold: the route total, the IP version, the peers and the per-file counts. */
  datatype Acc = Acc(total: nat, ipVersion: nat, peers: Peers, counts: map<string, nat>)

  /** A count, 0 when the name has none yet. */
  function Get(m: map<string, nat>, k: string): nat {
    if k in m then m[k] else 0
  }

  /** `*m.entry(k).or_insert(0) += 1`. */
  function Bump(m: map<string, nat>, k: string): (r: map<string, nat>)
    ensures Get(r, k) == Get(m, k) + 1
    ensures forall j :: j != k ==> Get(r, j) == Get(m, j)
  {
    m[k := Get(m, k) + 1]
  }

  /** How many of the findings are counted under `name`. */
  function Occurrences(cs: seq<Check>, name: string): nat {
    if |cs| == 0 then 0 else (if Name(cs[0]) == name then 1 else 0) + Occurrences(cs[1..], name)
  }

  /** Every finding bumps the count under its name. */
  function BumpAll(m: map<string, nat>, cs: seq<Check>): (r: map<string, nat>)
    ensures forall name :: Get(r, name) == Get(m, name) + Occurrences(cs, name)
    decreases |cs|
  {
    if |cs| == 0 then m else BumpAll(Bump(m, Name(cs[0])), cs[1..])
  }

  /** The ASNs of a peer list. */
  function Asns(ps: Peers): set<nat> {
    set i | 0 <= i < |ps| :: ps[i].0
  }

  /** No ASN appears twice. */
  predicate DistinctAsns(ps: Peers) {
    forall i, j :: 0 <= i < j < |ps| ==> ps[i].0 != ps[j].0
  }

  /** The ASNs of a non-empty list are the head's and the tail's. */
  lemma AsnsCons(ps: Peers)
    requires |ps| > 0
    ensures Asns(ps) == {ps[0].0} + Asns(ps[1..])
  {
    forall a | a in Asns(ps) ensures a in {ps[0].0} + Asns(ps[1..]) {
      var i :| 0 <= i < |ps| && ps[i].0 == a;
      if i > 0 {
        assert ps[1..][i - 1].0 == a;
      }
    }
    forall a | a in Asns(ps[1..]) ensures a in Asns(ps) {
      var i :| 0 <= i < |ps[1..]| && ps[1..][i].0 == a;
      assert ps[i + 1].0 == a;
    }
  }

  /** A list has distinct ASNs exactly when its tail has and lacks the head's. */
  lemma DistinctCons(ps: Peers)
    requires |ps| > 0
    ensures DistinctAsns(ps) <==> ps[0].0 !in Asns(ps[1..]) && DistinctAsns(ps[1..])
  {
    var tail := ps[1..];
    if DistinctAsns(ps) {
      forall i, j | 0 <= i < j < |tail| ensures tail[i].0 != tail[j].0 {
        assert tail[i] == ps[i + 1] && tail[j] == ps[j + 1];
      }
      forall k | 0 <= k < |tail| ensures tail[k].0 != ps[0].0 {
        assert tail[k] == ps[k + 1];
      }
    }
    if ps[0].0 !in Asns(tail) && DistinctAsns(tail) {
      forall i, j | 0 <= i < j < |ps| ensures ps[i].0 != ps[j].0 {
        assert ps[j] == tail[j - 1];
        if i == 0 {
          assert tail[j - 1].0 in Asns(tail);
        } else {
          assert ps[i] == tail[i - 1];
        }
      }
    }
  }

  /** `entry(asn).or_default()`: the peer's info, or the empty one. */
  function PeerOf(ps: Peers, asn: nat): (p: PeerInfo)
    ensures asn !in Asns(ps) ==> p == PeerInfo({}, 0, map[])
    ensures forall i :: 0 <= i < |ps| && ps[i].0 == asn && DistinctAsns(ps) ==> p == ps[i].1
  {
    if |ps| == 0 then PeerInfo({}, 0, map[])
    else if ps[0].0 == asn then ps[0].1
    else
      AsnsCons(ps);
      DistinctCons(ps);
      assert forall i :: 1 <= i < |ps| ==> ps[i] == ps[1..][i - 1];
      PeerOf(ps[1..], asn)
  }

  /** `insert`: `asn` now maps to `p`, every other ASN to what it mapped to before. */
  function Upsert(ps: Peers, asn: nat, p: PeerInfo): (r: Peers)
    requires DistinctAsns(ps)
    ensures DistinctAsns(r) && Asns(r) == Asns(ps) + {asn}
    ensures PeerOf(r, asn) == p
    ensures forall a :: a != asn ==> PeerOf(r, a) == PeerOf(ps, a)
  {
    if |ps| == 0 then
      var r := [(asn, p)];
      AsnsCons(r);
      r
    else
      DistinctCons(ps);
      AsnsCons(ps);
      if ps[0].0 == asn then
        var r := [(asn, p)] + ps[1..];
        assert r[1..] == ps[1..];
        DistinctCons(r);
        AsnsCons(r);
        r
      else
        var rest := Upsert(ps[1..], asn, p);
        var r := [ps[0]] + rest;
        assert r[1..] == rest;
        DistinctCons(r);
        AsnsCons(r);
        r
  }

  /** The routes counted over all peers. */
  function RouteSum(ps: Peers): nat {
    if |ps| == 0 then 0 else ps[0].1.numRoutes + RouteSum(ps[1..])
  }

  /** The findings counted under `name` over all peers. */
  function CheckSum(ps: Peers, name: string): nat {
    if |ps| == 0 then 0 else Get(ps[0].1.failedChecks, name) + CheckSum(ps[1..], name)
  }

  /** Storing a peer replaces its old contribution to both sums by the new one. */
  lemma {:induction false} UpsertSums(ps: Peers, asn: nat, p: PeerInfo, name: string)
    requires DistinctAsns(ps)
    ensures RouteSum(Upsert(ps, asn, p)) + PeerOf(ps, asn).numRoutes == RouteSum(ps) + p.numRoutes
    ensures CheckSum(Upsert(ps, asn, p), name) + Get(PeerOf(ps, asn).failedChecks, name)
         == CheckSum(ps, name) + Get(p.failedChecks, name)
  {
    if |ps| > 0 {
      DistinctCons(ps);
      var r := Upsert(ps, asn, p);
      if ps[0].0 == asn {
        assert r == [(asn, p)] + ps[1..];
        assert r[1..] == ps[1..];
      } else {
        UpsertSums(ps[1..], asn, p, name);
        assert r == [ps[0]] + Upsert(ps[1..], asn, p);
        assert r[1..] == Upsert(ps[1..], asn, p);
      }
    }
  }

  // ---------------------------------------------------------------------------
  // One line
  // ---------------------------------------------------------------------------

  /** 6 when the network has a colon, 4 otherwise. */
  function IpVersionOf(net: string): (v: nat)
    ensures v == 6 <==> !Lacks(net, ':')
    ensures v == 4 <==> Lacks(net, ':')
  {
    if ':' in net then 6 else 4
  }

  /** The standard-community peer types; `{Unknown}` when the route has no communities. */
  function CommTypes(route: Route): (r: set<PeerType>)
    ensures r != {}
  {
    match route.community
    case None => {Unknown}
    case Some(cs) => DetectFromCommunities(cs)
  }

  /** The large-community peer data; `{(Unknown, 0)}` when the route has none. */
  function LargeData(route: Route): (r: set<(PeerType, nat)>)
    ensures r != {}
  {
    match route.largeCommunity
    case None => {(Unknown, 0)}
    case Some(cs) => DetectFromLarge(cs)
  }

  /** The name of the finding counted for a route without a neighbour after Vultr. */
  const MissingNeighbor: string := Name(RouteMissingNeighbor(0, None))

  /** The name of the finding counted for an undecodable line. */
  const ParseFailure: string := Name(JsonParseFailure(0, ""))

  /** The name of the finding counted for a peer seen with several known types. */
  const InconsistentTypes: string := Name(AsInconsistentPeerTypes(0, []))

  /** The body of the `for` loop of `process_file` for line `idx`. */
  function Step(acc: Acc, idx: nat, line: Line): (r: Acc)
    requires DistinctAsns(acc.peers)
    ensures DistinctAsns(r.peers)
  {
    if Trim(line.text) == "" then acc
    else match line.route
      case None => acc.(counts := Bump(acc.counts, Name(JsonParseFailure(idx, Trim(line.text)))))
      case Some(route) => AddRoute(acc, idx, route)
  }

  /** A decoded route: fix the IP version if it is not yet, count the route, and file it under its neighbour. */
  function AddRoute(acc: Acc, idx: nat, route: Route): (r: Acc)
    requires DistinctAsns(acc.peers)
    ensures DistinctAsns(r.peers)
    ensures r.total == acc.total + 1
    ensures r.ipVersion == (if acc.ipVersion == 0 then IpVersionOf(route.net) else acc.ipVersion)
  {
    var ipVersion := if acc.ipVersion == 0 then IpVersionOf(route.net) else acc.ipVersion;
    var counted := acc.(total := acc.total + 1, ipVersion := ipVersion);
    match VultrNeighbor(route.asPath)
    case None => counted.(counts := Bump(acc.counts, Name(RouteMissingNeighbor(idx, route.asPath))))
    case Some(neigh) => AddPeerRoute(counted, idx, route, neigh)
  }

  /** The findings of `run` on a route whose neighbour after Vultr is `neigh`. */
  function RouteChecks(idx: nat, route: Route, neigh: nat): (cs: seq<Check>)
    ensures forall i :: 0 <= i < |cs| ==> Rank(cs[i]) < 4
  {
    Run(idx, route.asPath, neigh, CommTypes(route), LargeData(route))
  }

  /** The peer's updated info once it has seen `route`. */
  function PeerWithRoute(info: PeerInfo, idx: nat, route: Route, neigh: nat): PeerInfo {
    PeerInfo(
      info.peerTypes + CommTypes(route) + (set p | p in LargeData(route) :: p.0),
      info.numRoutes + 1,
      BumpAll(info.failedChecks, RouteChecks(idx, route, neigh)))
  }

  /** A route with neighbour `neigh`: one more route for the peer, its findings counted for the peer and the file. */
  function AddPeerRoute(acc: Acc, idx: nat, route: Route, neigh: nat): (r: Acc)
    requires DistinctAsns(acc.peers)
    ensures DistinctAsns(r.peers)
    ensures r.total == acc.total && r.ipVersion == acc.ipVersion
  {
    var info := PeerWithRoute(PeerOf(acc.peers, neigh), idx, route, neigh);
    acc.(peers := Upsert(acc.peers, neigh, info), counts := BumpAll(acc.counts, RouteChecks(idx, route, neigh)))
  }

  /** A line that is blank after trimming changes nothing. */
  lemma BlankSkipped(acc: Acc, idx: nat, line: Line)
    requires DistinctAsns(acc.peers) && Trim(line.text) == ""
    ensures Step(acc, idx, line) == acc
  {
  }

  /** An undecodable line adds one to the parse-failure count and nothing else. */
  lemma UndecodableCounted(acc: Acc, idx: nat, line: Line)
    requires DistinctAsns(acc.peers) && Trim(line.text) != "" && line.route.None?
    ensures var r := Step(acc, idx, line);
      && r.total == acc.total && r.ipVersion == acc.ipVersion && r.peers == acc.peers
      && Get(r.counts, ParseFailure) == Get(acc.counts, ParseFailure) + 1
      && forall name :: name != ParseFailure ==> Get(r.counts, name) == Get(acc.counts, name)
  {
  }

  /** `run` never emits a finding counted as a missing neighbour. */
  lemma {:induction false} NoMissingFromRun(cs: seq<Check>)
    requires forall i :: 0 <= i < |cs| ==> Rank(cs[i]) < 4
    ensures Occurrences(cs, MissingNeighbor) == 0
  {
    if |cs| > 0 {
      NameIsKind(cs[0], RouteMissingNeighbor(0, None));
      assert forall i :: 0 <= i < |cs[1..]| ==> cs[1..][i] == cs[i + 1];
      NoMissingFromRun(cs[1..]);
    }
  }

  /**
   * What the fold keeps true: every decoded route is counted either as
   * missing its neighbour or in exactly one peer's routes, and no peer has
   * counted a finding the file has not.
   */
  ghost predicate Consistent(acc: Acc) {
    && DistinctAsns(acc.peers)
    && acc.total == Get(acc.counts, MissingNeighbor) + RouteSum(acc.peers)
    && forall name :: CheckSum(acc.peers, name) <= Get(acc.counts, name)
  }

  /** One line keeps the fold consistent. */
  lemma StepConsistent(acc: Acc, idx: nat, line: Line)
    requires Consistent(acc)
    ensures Consistent(Step(acc, idx, line))
  {
    if Trim(line.text) != "" {
      match line.route
      case None =>
        NameIsKind(JsonParseFailure(idx, Trim(line.text)), RouteMissingNeighbor(0, None));
      case Some(route) =>
        AddRouteConsistent(acc, idx, route);
    }
  }

  /** A decoded route keeps the fold consistent. */
  lemma AddRouteConsistent(acc: Acc, idx: nat, route: Route)
    requires Consistent(acc)
    ensures Consistent(AddRoute(acc, idx, route))
  {
    match VultrNeighbor(route.asPath)
    case None =>
      NameIsKind(RouteMissingNeighbor(idx, route.asPath), RouteMissingNeighbor(0, None));
    case Some(neigh) =>
      var counted := acc.(total := acc.total + 1, ipVersion := AddRoute(acc, idx, route).ipVersion);
      assert AddRoute(acc, idx, route) == AddPeerRoute(counted, idx, route, neigh);
      AddPeerRouteSums(counted, idx, route, neigh);
  }

  /** A route filed under a peer adds one to the peer routes and as much to each peer sum as to the file count. */
  lemma AddPeerRouteSums(acc: Acc, idx: nat, route: Route, neigh: nat)
    requires DistinctAsns(acc.peers)
    ensures var r := AddPeerRoute(acc, idx, route, neigh);
      && RouteSum(r.peers) == RouteSum(acc.peers) + 1
      && Get(r.counts, MissingNeighbor) == Get(acc.counts, MissingNeighbor)
      && forall name :: CheckSum(r.peers, name) - CheckSum(acc.peers, name) == Get(r.counts, name) - Get(acc.counts, name)
  {
    var checks := RouteChecks(idx, route, neigh);
    var info := PeerWithRoute(PeerOf(acc.peers, neigh), idx, route, neigh);
    NoMissingFromRun(checks);
    UpsertSums(acc.peers, neigh, info, MissingNeighbor);
    forall name
      ensures CheckSum(AddPeerRoute(acc, idx, route, neigh).peers, name) - CheckSum(acc.peers, name)
           == Get(AddPeerRoute(acc, idx, route, neigh).counts, name) - Get(acc.counts, name)
    {
      UpsertSums(acc.peers, neigh, info, name);
    }
  }

  // ---------------------------------------------------------------------------
  // The whole file
  // ---------------------------------------------------------------------------

  /** The `for` loop of `process_file` over the lines from index `idx` on. */
  function Fold(acc: Acc, idx: nat, lines: seq<Line>): (r: Acc)
    requires DistinctAsns(acc.peers)
    ensures DistinctAsns(r.peers)
    decreases |lines|
  {
    if |lines| == 0 then acc else Fold(Step(acc, idx, lines[0]), idx + 1, lines[1..])
  }

  /** The fold stays consistent over any lines. */
  lemma {:induction false} FoldConsistent(acc: Acc, idx: nat, lines: seq<Line>)
    requires Consistent(acc)
    ensures Consistent(Fold(acc, idx, lines))
    decreases |lines|
  {
    if |lines| > 0 {
      StepConsistent(acc, idx, lines[0]);
      FoldConsistent(Step(acc, idx, lines[0]), idx + 1, lines[1..]);
    }
  }

  /** The first line that is not blank and decodes, if any. */
  function FirstRoute(lines: seq<Line>): (r: Option<Route>)
    ensures r.Some? ==> exists i :: 0 <= i < |lines| && lines[i].route == r && Trim(lines[i].text) != ""
  {
    if |lines| == 0 then None
    else if Trim(lines[0].text) != "" && lines[0].route.Some? then lines[0].route
    else
      var r := FirstRoute(lines[1..]);
      assert r.Some? ==> exists i :: 1 <= i < |lines| && lines[i].route == r && Trim(lines[i].text) != "" by {
        if r.Some? {
          var i :| 0 <= i < |lines[1..]| && lines[1..][i].route == r && Trim(lines[1..][i].text) != "";
          assert lines[i + 1] == lines[1..][i];
        }
      }
      r
  }

  /**
   * The IP version is fixed by the first decoded route, 6 when its network
   * has a colon and 4 otherwise; it stays 0 when no line decodes.
   */
  lemma {:induction false} FoldIpVersion(acc: Acc, idx: nat, lines: seq<Line>)
    requires DistinctAsns(acc.peers)
    ensures acc.ipVersion != 0 ==> Fold(acc, idx, lines).ipVersion == acc.ipVersion
    ensures acc.ipVersion == 0 ==> Fold(acc, idx, lines).ipVersion == VersionOf(FirstRoute(lines))
    decreases |lines|
  {
    if |lines| > 0 {
      var next := Step(acc, idx, lines[0]);
      StepIpVersion(acc, idx, lines[0]);
      FoldIpVersion(next, idx + 1, lines[1..]);
      assert Fold(acc, idx, lines) == Fold(next, idx + 1, lines[1..]);
      if Trim(lines[0].text) != "" && lines[0].route.Some? {
        assert FirstRoute(lines) == lines[0].route;
      } else {
        assert FirstRoute(lines) == FirstRoute(lines[1..]);
      }
    }
  }

  /** The IP version a route gives, 0 for none. */
  function VersionOf(route: Option<Route>): nat {
    if route.None? then 0 else IpVersionOf(route.value.net)
  }

  /** Only the first non-blank decoded line sets the IP version. */
  lemma StepIpVersion(acc: Acc, idx: nat, line: Line)
    requires DistinctAsns(acc.peers)
    ensures Step(acc, idx, line).ipVersion ==
      if acc.ipVersion == 0 && Trim(line.text) != "" then VersionOf(line.route) else acc.ipVersion
  {
  }

  /** Peer types after finalisation: the known ones, or `{Unknown}` when there are none. */
  function FinalTypes(types: set<PeerType>): (r: set<PeerType>)
    ensures r != {} && (r == {Unknown} || Unknown !in r)
    ensures r == {Unknown} <==> types - {Unknown} == {}
  {
    var known := types - {Unknown};
    if known == {} then {Unknown} else known
  }

  /** Whether a peer has been seen with two or more known types. */
  predicate Inconsistent(p: PeerInfo) {
    |p.peerTypes - {Unknown}| > 1
  }

  /** The finalisation of one peer; an inconsistent one gets one AsInconsistentPeerTypes finding. */
  function FinalPeer(p: PeerInfo): (r: PeerInfo)
    ensures r.numRoutes == p.numRoutes
    ensures r.peerTypes != {} && (r.peerTypes == {Unknown} || Unknown !in r.peerTypes)
    ensures Get(r.failedChecks, InconsistentTypes) == Get(p.failedChecks, InconsistentTypes) + (if Inconsistent(p) then 1 else 0)
    ensures forall name :: name != InconsistentTypes ==> Get(r.failedChecks, name) == Get(p.failedChecks, name)
  {
    var types := FinalTypes(p.peerTypes);
    var failed := if Inconsistent(p) then Bump(p.failedChecks, InconsistentTypes) else p.failedChecks;
    PeerInfo(types, p.numRoutes, failed)
  }

  /** The number of inconsistent peers. */
  function InconsistentCount(ps: Peers): nat {
    if |ps| == 0 then 0 else (if Inconsistent(ps[0].1) then 1 else 0) + InconsistentCount(ps[1..])
  }

  /** Every peer finalised. */
  function FinalPeers(ps: Peers): (r: Peers)
    ensures |r| == |ps|
    ensures forall i :: 0 <= i < |ps| ==> r[i] == (ps[i].0, FinalPeer(ps[i].1))
  {
    if |ps| == 0 then [] else [(ps[0].0, FinalPeer(ps[0].1))] + FinalPeers(ps[1..])
  }

  /** Finalisation adds the inconsistent peers to their finding's sum and leaves every other sum alone. */
  lemma {:induction false} FinalSums(ps: Peers, name: string)
    ensures RouteSum(FinalPeers(ps)) == RouteSum(ps)
    ensures CheckSum(FinalPeers(ps), name) == CheckSum(ps, name) + (if name == InconsistentTypes then InconsistentCount(ps) else 0)
  {
    if |ps| > 0 {
      FinalSums(ps[1..], name);
      assert FinalPeers(ps)[1..] == FinalPeers(ps[1..]);
    }
  }

  /** The ASNs are kept as they are. */
  lemma FinalAsns(ps: Peers)
    ensures Asns(FinalPeers(ps)) == Asns(ps)
    ensures DistinctAsns(ps) ==> DistinctAsns(FinalPeers(ps))
  {
    var r := FinalPeers(ps);
    assert forall i :: 0 <= i < |ps| ==> r[i].0 == ps[i].0;
    forall a | a in Asns(r) ensures a in Asns(ps) {
      var i :| 0 <= i < |r| && r[i].0 == a;
    }
    forall a | a in Asns(ps) ensures a in Asns(r) {
      var i :| 0 <= i < |ps| && ps[i].0 == a;
      assert r[i].0 == a;
    }
  }

  /** The loop after the fold: finalise every peer and count the inconsistent ones in the file. */
  function Finalise(acc: Acc): (r: FileResult)
    ensures r.ipVersion == acc.ipVersion
    ensures |r.peers| == |acc.peers|
    ensures forall i :: 0 <= i < |r.peers| ==>
      (r.peers[i].0 == acc.peers[i].0 && r.peers[i].1.peerTypes != {}
       && (r.peers[i].1.peerTypes == {Unknown} || Unknown !in r.peers[i].1.peerTypes))
    ensures Get(r.failedChecks, InconsistentTypes) == Get(acc.counts, InconsistentTypes) + InconsistentCount(acc.peers)
    ensures forall name :: name != InconsistentTypes ==> Get(r.failedChecks, name) == Get(acc.counts, name)
    ensures InconsistentCount(acc.peers) == 0 ==> r.failedChecks == acc.counts
  {
    var n := InconsistentCount(acc.peers);
    var counts := if n == 0 then acc.counts else acc.counts[InconsistentTypes := Get(acc.counts, InconsistentTypes) + n];
    FileResult(acc.ipVersion, FinalPeers(acc.peers), counts)
  }

  /** The empty state the fold starts from. */
  const Start: Acc := Acc(0, 0, [], map[])

  /** `process_file` on the lines of a dump. */
  function ProcessFile(lines: seq<Line>): FileResult {
    Finalise(Fold(Start, 0, lines))
  }

  /** The IP version is that of the first decoded route, 6 when its network has a colon, 4 otherwise, 0 when none decodes. */
  lemma ProcessFileVersion(lines: seq<Line>)
    ensures ProcessFile(lines).ipVersion == VersionOf(FirstRoute(lines))
  {
    FoldIpVersion(Start, 0, lines);
  }

  /** Each peer appears once and is typed `{Unknown}` or only with known types. */
  lemma ProcessFilePeers(lines: seq<Line>)
    ensures var r := ProcessFile(lines);
      && DistinctAsns(r.peers)
      && forall i :: 0 <= i < |r.peers| ==>
           r.peers[i].1.peerTypes != {} && (r.peers[i].1.peerTypes == {Unknown} || Unknown !in r.peers[i].1.peerTypes)
  {
    FinalAsns(Fold(Start, 0, lines).peers);
  }

  /** No finding is counted for the peers more often than for the file. */
  lemma ProcessFileCounts(lines: seq<Line>, name: string)
    ensures CheckSum(ProcessFile(lines).peers, name) <= Get(ProcessFile(lines).failedChecks, name)
  {
    var acc := Fold(Start, 0, lines);
    FoldConsistent(Start, 0, lines);
    FinalSums(acc.peers, name);
  }

  /** Every decoded route is counted once: as missing its neighbour, or in one peer's routes. */
  lemma ProcessFileRoutes(lines: seq<Line>)
    ensures var acc := Fold(Start, 0, lines);
      acc.total == Get(ProcessFile(lines).failedChecks, MissingNeighbor) + RouteSum(ProcessFile(lines).peers)
  {
    var acc := Fold(Start, 0, lines);
    FoldConsistent(Start, 0, lines);
    FinalSums(acc.peers, MissingNeighbor);
    NameIsKind(RouteMissingNeighbor(0, None), AsInconsistentPeerTypes(0, []));
  }
}
