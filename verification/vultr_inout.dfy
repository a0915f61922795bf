/**
 * The whole-run side of the Vultr provider matrix: which files are table
 * dumps, how many sites see each ASN as a transit provider, and the
 * provider output built from the per-file results. Walking directories,
 * opening files and writing JSON are outside the model.
 */
module VultrInout {
  import opened Wrappers
  import opened Text
  import opened VultrRoutes
  import opened VultrLib

  // ---------------------------------------------------------------------------
  // Table dumps
  // ---------------------------------------------------------------------------

  const DumpSuffix: string := ".table.jsonl.bz2"

  /** The file-name test of `find_table_dump_files`. */
  predicate IsDumpFile(name: string) {
    StartsWith(name, "vtr") && EndsWith(name, DumpSuffix)
  }

  /** A directory entry: its path, whether it is a regular file, and its last component if that is valid Unicode. */
  datatype Entry = Entry(path: string, isFile: bool, fileName: Option<string>)

  /** Whether `find_table_dump_files` keeps an entry. */
  predicate Keeps(e: Entry) {
    e.isFile && e.fileName.Some? && IsDumpFile(e.fileName.value)
  }

  /** How many of the entries `find_table_dump_files` keeps. */
  function CountKept(entries: seq<Entry>): (n: nat)
    ensures n <= |entries|
  {
    if |entries| == 0 then 0 else (if Keeps(entries[0]) then 1 else 0) + CountKept(entries[1..])
  }

  /**
   * `find_table_dump_files` over the entries the walk yields, in walk order:
   * one path per kept entry, the i-th entry's at the position counting the
   * kept entries before it.
   */
  function FindTableDumpFiles(entries: seq<Entry>): (r: seq<string>)
    ensures |r| == CountKept(entries)
    ensures forall i :: 0 <= i < |entries| && Keeps(entries[i]) ==>
      CountKept(entries[..i]) < |r| && r[CountKept(entries[..i])] == entries[i].path
    ensures forall p :: p in r <==> exists i :: 0 <= i < |entries| && entries[i].path == p && Keeps(entries[i])
  {
    if |entries| == 0 then []
    else
      var rest := FindTableDumpFiles(entries[1..]);
      assert forall i :: 1 <= i < |entries| ==> entries[i] == entries[1..][i - 1];
      assert forall i :: 1 <= i <= |entries| ==> entries[..i][1..] == entries[1..][..i - 1];
      if Keeps(entries[0]) then [entries[0].path] + rest else rest
  }

  /** Counting kept entries distributes over concatenation. */
  lemma {:induction false} CountKeptAppend(a: seq<Entry>, b: seq<Entry>)
    ensures CountKept(a + b) == CountKept(a) + CountKept(b)
  {
    if |a| > 0 {
      assert (a + b)[1..] == a[1..] + b;
      CountKeptAppend(a[1..], b);
    } else {
      assert a + b == b;
    }
  }

  /**
   * A kept entry's path comes before the path of every later kept entry:
   * the paths are listed in walk order and no entry contributes twice.
   */
  lemma DumpFilesInWalkOrder(entries: seq<Entry>, i: nat, j: nat)
    requires i < j < |entries| && Keeps(entries[i]) && Keeps(entries[j])
    ensures var r := FindTableDumpFiles(entries);
      CountKept(entries[..i]) < CountKept(entries[..j]) < |r|
      && r[CountKept(entries[..i])] == entries[i].path
      && r[CountKept(entries[..j])] == entries[j].path
  {
    assert entries[..j] == entries[..i] + entries[i..j];
    CountKeptAppend(entries[..i], entries[i..j]);
    assert entries[i..j][0] == entries[i];
  }

  /** Every dump file names a mux: the part before `.table.jsonl.bz2`, which starts with `vtr`. */
  lemma DumpFileMux(name: string)
    requires IsDumpFile(name)
    ensures |name| >= |"vtr"| + |DumpSuffix|
    ensures var mux := name[..|name| - |DumpSuffix|];
      StartsWith(mux, "vtr") && name == mux + DumpSuffix && GetMuxProtocol(Some(name)) == Some(mux)
  {
    var k := |name| - |DumpSuffix|;
    assert name[k..] == DumpSuffix;
    assert name[k] == '.';
    NotADot(name, k);
    var mux := name[..k];
    assert name == mux + DumpSuffix;
    assert mux[..3] == name[..3];
    DumpNamesMux(mux);
  }

  /** None of the first three characters of a `vtr` name is a dot. */
  lemma NotADot(name: string, k: nat)
    requires StartsWith(name, "vtr") && k < |name|
    ensures k < 3 ==> name[k] != '.'
  {
    if k < 3 {
      assert name[k] == "vtr"[k];
    }
  }

  // ---------------------------------------------------------------------------
  // Sites per provider
  // ---------------------------------------------------------------------------

  /** The per-file results, keyed by mux name. */
  type Results = seq<(string, FileResult)>

  /** What a `HashMap<String, FileResult>` guarantees: no mux twice, and no ASN twice in one file. */
  predicate WellFormed(results: Results) {
    && (forall i, j :: 0 <= i < j < |results| ==> results[i].0 != results[j].0)
    && (forall i :: 0 <= i < |results| ==> DistinctAsns(results[i].1.peers))
  }

  /** Whether a file saw `asn` as a transit provider. */
  predicate IsTransit(ps: Peers, asn: nat) {
    asn in Asns(ps) && Transit in PeerOf(ps, asn).peerTypes
  }

  /** The IPv4 and IPv6 site counts of an ASN, zero when it has none. */
  function Sites(m: map<nat, (nat, nat)>, asn: nat): (nat, nat) {
    if asn in m then m[asn] else (0, 0)
  }

  /** One more site of the file's IP version; anything but 4 counts as IPv6. */
  function OneSite(ipVersion: nat): (nat, nat) {
    if ipVersion == 4 then (1, 0) else (0, 1)
  }

  function Plus(a: (nat, nat), b: (nat, nat)): (nat, nat) {
    (a.0 + b.0, a.1 + b.1)
  }

  lemma PlusAssoc(a: (nat, nat), b: (nat, nat), c: (nat, nat))
    ensures Plus(Plus(a, b), c) == Plus(a, Plus(b, c))
  {
  }

  /** The reference count: the IPv4 and the other files in which `asn` is a transit provider. */
  function SiteCount(results: Results, asn: nat): (c: (nat, nat))
    ensures c.0 + c.1 <= |results|
  {
    if |results| == 0 then (0, 0)
    else
      var here := if IsTransit(results[0].1.peers, asn) then OneSite(results[0].1.ipVersion) else (0, 0);
      Plus(here, SiteCount(results[1..], asn))
  }

  /** The inner loop of `count_sites_per_provider`, over one file's peers. */
  function CountPeers(m: map<nat, (nat, nat)>, ps: Peers, ipVersion: nat): map<nat, (nat, nat)>
    decreases |ps|
  {
    if |ps| == 0 then m
    else
      var m' := if Transit in ps[0].1.peerTypes then m[ps[0].0 := Plus(Sites(m, ps[0].0), OneSite(ipVersion))] else m;
      CountPeers(m', ps[1..], ipVersion)
  }

  /** The head of a list is a transit provider there exactly when its entry says so; the others are as in the tail. */
  lemma TransitCons(ps: Peers, asn: nat)
    requires |ps| > 0 && DistinctAsns(ps)
    ensures IsTransit(ps, asn) <==> (asn == ps[0].0 && Transit in ps[0].1.peerTypes) || IsTransit(ps[1..], asn)
  {
    DistinctCons(ps);
    AsnsCons(ps);
  }

  /** One file's peers add one site of its IP version to each of its transit providers. */
  lemma {:induction false} CountPeersSites(m: map<nat, (nat, nat)>, ps: Peers, ipVersion: nat, asn: nat)
    requires DistinctAsns(ps)
    ensures asn in CountPeers(m, ps, ipVersion) <==> asn in m || IsTransit(ps, asn)
    ensures Sites(CountPeers(m, ps, ipVersion), asn) == Plus(Sites(m, asn), if IsTransit(ps, asn) then OneSite(ipVersion) else (0, 0))
    decreases |ps|
  {
    if |ps| > 0 {
      DistinctCons(ps);
      TransitCons(ps, asn);
      var m' := if Transit in ps[0].1.peerTypes then m[ps[0].0 := Plus(Sites(m, ps[0].0), OneSite(ipVersion))] else m;
      CountPeersSites(m', ps[1..], ipVersion, asn);
    }
  }

  /** The outer loop of `count_sites_per_provider`, over the files. */
  function CountResults(m: map<nat, (nat, nat)>, results: Results): map<nat, (nat, nat)>
    decreases |results|
  {
    if |results| == 0 then m
    else CountResults(CountPeers(m, results[0].1.peers, results[0].1.ipVersion), results[1..])
  }

  /** Some file sees `asn` as a transit provider. */
  predicate TransitSomewhere(results: Results, asn: nat) {
    exists i :: 0 <= i < |results| && IsTransit(results[i].1.peers, asn)
  }

  /** All files add their sites to the counts. */
  lemma CountResultsSites(m: map<nat, (nat, nat)>, results: Results, asn: nat)
    requires forall i :: 0 <= i < |results| ==> DistinctAsns(results[i].1.peers)
    ensures asn in CountResults(m, results) <==> asn in m || TransitSomewhere(results, asn)
    ensures Sites(CountResults(m, results), asn) == Plus(Sites(m, asn), SiteCount(results, asn))
  {
    CountResultsKeys(m, results, asn);
    CountResultsCounts(m, results, asn);
  }

  /** The later files satisfy the precondition of the counting lemmas too. */
  lemma DistinctTail(results: Results)
    requires |results| > 0 && forall i :: 0 <= i < |results| ==> DistinctAsns(results[i].1.peers)
    ensures DistinctAsns(results[0].1.peers)
    ensures forall i :: 0 <= i < |results[1..]| ==> DistinctAsns(results[1..][i].1.peers)
  {
    assert forall i :: 0 <= i < |results[1..]| ==> results[1..][i] == results[i + 1];
  }

  /** An ASN is counted exactly when it was already or some file sees it as transit. */
  lemma {:induction false} CountResultsKeys(m: map<nat, (nat, nat)>, results: Results, asn: nat)
    requires forall i :: 0 <= i < |results| ==> DistinctAsns(results[i].1.peers)
    ensures asn in CountResults(m, results) <==> asn in m || TransitSomewhere(results, asn)
    decreases |results|
  {
    if |results| > 0 {
      var fr := results[0].1;
      DistinctTail(results);
      CountPeersSites(m, fr.peers, fr.ipVersion, asn);
      var m' := CountPeers(m, fr.peers, fr.ipVersion);
      CountResultsKeys(m', results[1..], asn);
      assert CountResults(m, results) == CountResults(m', results[1..]);
      TransitSomewhereCons(results, asn);
    }
  }

  /** The counts grow by the sites of every file that sees the ASN as transit. */
  lemma {:induction false} CountResultsCounts(m: map<nat, (nat, nat)>, results: Results, asn: nat)
    requires forall i :: 0 <= i < |results| ==> DistinctAsns(results[i].1.peers)
    ensures Sites(CountResults(m, results), asn) == Plus(Sites(m, asn), SiteCount(results, asn))
    decreases |results|
  {
    if |results| > 0 {
      var fr := results[0].1;
      DistinctTail(results);
      CountPeersSites(m, fr.peers, fr.ipVersion, asn);
      var m' := CountPeers(m, fr.peers, fr.ipVersion);
      var here := if IsTransit(fr.peers, asn) then OneSite(fr.ipVersion) else (0, 0);
      CountResultsCounts(m', results[1..], asn);
      assert CountResults(m, results) == CountResults(m', results[1..]);
      assert SiteCount(results, asn) == Plus(here, SiteCount(results[1..], asn));
      PlusAssoc(Sites(m, asn), here, SiteCount(results[1..], asn));
    }
  }

  /** Some file sees `asn` as transit exactly when the first does or a later one does. */
  lemma TransitSomewhereCons(results: Results, asn: nat)
    requires |results| > 0
    ensures TransitSomewhere(results, asn) <==> IsTransit(results[0].1.peers, asn) || TransitSomewhere(results[1..], asn)
  {
    var tail := results[1..];
    if TransitSomewhere(tail, asn) {
      var i :| 0 <= i < |tail| && IsTransit(tail[i].1.peers, asn);
      assert results[i + 1] == tail[i];
    }
    if TransitSomewhere(results, asn) && !IsTransit(results[0].1.peers, asn) {
      var i :| 0 <= i < |results| && IsTransit(results[i].1.peers, asn);
      assert tail[i - 1] == results[i];
    }
  }

  /**
   * `count_sites_per_provider`: an ASN has counts exactly when some file
   * sees it as a transit provider, and they are the numbers of IPv4 and
   * of other files that do.
   */
  function CountSitesPerProvider(results: Results): (r: map<nat, (nat, nat)>)
    requires WellFormed(results)
    ensures forall asn :: asn in r <==> TransitSomewhere(results, asn)
    ensures forall asn :: asn in r ==> r[asn] == SiteCount(results, asn)
    ensures forall asn :: asn in r ==> 0 < r[asn].0 + r[asn].1 <= |results|
  {
    var r := CountResults(map[], results);
    forall asn ensures (asn in r <==> TransitSomewhere(results, asn)) && Sites(r, asn) == SiteCount(results, asn) {
      CountResultsSites(map[], results, asn);
    }
    forall asn | asn in r ensures 0 < r[asn].0 + r[asn].1 {
      var i :| 0 <= i < |results| && IsTransit(results[i].1.peers, asn);
      SiteCountPositive(results, asn, i);
    }
    r
  }

  /** A file that sees `asn` as transit counts as one site. */
  lemma {:induction false} SiteCountPositive(results: Results, asn: nat, i: nat)
    requires i < |results| && IsTransit(results[i].1.peers, asn)
    ensures SiteCount(results, asn).0 + SiteCount(results, asn).1 > 0
  {
    if i > 0 {
      assert results[1..][i - 1] == results[i];
      SiteCountPositive(results[1..], asn, i - 1);
    }
  }

  // ---------------------------------------------------------------------------
  // The provider output
  // ---------------------------------------------------------------------------

  /** The mux a file belongs to and the transit providers it keeps; and for each provider, its muxes. */
  datatype ProviderOutput = ProviderOutput(mux2peers: Results, peer2muxes: map<nat, seq<string>>)

  /** Whether a peer is kept: a transit provider seen at `minSites` or more sites of the file's IP version. */
  predicate KeepPeer(asn: nat, info: PeerInfo, ipVersion: nat, sites: map<nat, (nat, nat)>, minSites: nat) {
    && Transit in info.peerTypes
    && asn in sites
    && (if ipVersion == 4 then sites[asn].0 else sites[asn].1) >= minSites
  }

  /** The `filter` and `filter_map` of `write_providers_json` over one file's peers. */
  function TransitPeers(ps: Peers, ipVersion: nat, sites: map<nat, (nat, nat)>, minSites: nat): (r: Peers)
    requires DistinctAsns(ps)
    ensures DistinctAsns(r)
    ensures forall asn :: asn in Asns(r) <==> asn in Asns(ps) && KeepPeer(asn, PeerOf(ps, asn), ipVersion, sites, minSites)
    ensures forall asn :: asn in Asns(r) ==> PeerOf(r, asn) == PeerOf(ps, asn)
  {
    if |ps| == 0 then []
    else
      DistinctCons(ps);
      AsnsCons(ps);
      var rest := TransitPeers(ps[1..], ipVersion, sites, minSites);
      if KeepPeer(ps[0].0, ps[0].1, ipVersion, sites, minSites) then
        var r := [ps[0]] + rest;
        assert r[1..] == rest;
        AsnsCons(r);
        DistinctCons(r);
        r
      else rest
  }

  /** Every file with only its kept peers. */
  function Mux2Peers(results: Results, sites: map<nat, (nat, nat)>, minSites: nat): (r: Results)
    requires forall i :: 0 <= i < |results| ==> DistinctAsns(results[i].1.peers)
    ensures |r| == |results|
    ensures forall i :: 0 <= i < |r| ==>
      && r[i].0 == results[i].0
      && r[i].1.ipVersion == results[i].1.ipVersion
      && r[i].1.failedChecks == results[i].1.failedChecks
      && r[i].1.peers == TransitPeers(results[i].1.peers, results[i].1.ipVersion, sites, minSites)
  {
    if |results| == 0 then []
    else
      var fr := results[0].1;
      assert forall i :: 1 <= i < |results| ==> results[i] == results[1..][i - 1];
      [(results[0].0, FileResult(fr.ipVersion, TransitPeers(fr.peers, fr.ipVersion, sites, minSites), fr.failedChecks))]
        + Mux2Peers(results[1..], sites, minSites)
  }

  /** The muxes recorded for an ASN, none when it has none. */
  function MuxesOf(m: map<nat, seq<string>>, asn: nat): seq<string> {
    if asn in m then m[asn] else []
  }

  /** The inner loop building `peer2muxes`: `mux` appended for each ASN of one file. */
  function PushMux(m: map<nat, seq<string>>, ps: Peers, mux: string): map<nat, seq<string>>
    decreases |ps|
  {
    if |ps| == 0 then m
    else PushMux(m[ps[0].0 := MuxesOf(m, ps[0].0) + [mux]], ps[1..], mux)
  }

  /** One file's ASNs gain its mux and nothing else changes. */
  lemma {:induction false} PushMuxOf(m: map<nat, seq<string>>, ps: Peers, mux: string, asn: nat, x: string)
    ensures asn in PushMux(m, ps, mux) <==> asn in m || asn in Asns(ps)
    ensures x in MuxesOf(PushMux(m, ps, mux), asn) <==> x in MuxesOf(m, asn) || (x == mux && asn in Asns(ps))
    decreases |ps|
  {
    if |ps| > 0 {
      AsnsCons(ps);
      PushMuxOf(m[ps[0].0 := MuxesOf(m, ps[0].0) + [mux]], ps[1..], mux, asn, x);
    }
  }

  /** The outer loop building `peer2muxes`, over the filtered files. */
  function Peer2Muxes(m: map<nat, seq<string>>, mux2peers: Results): map<nat, seq<string>>
    decreases |mux2peers|
  {
    if |mux2peers| == 0 then m
    else Peer2Muxes(PushMux(m, mux2peers[0].1.peers, mux2peers[0].0), mux2peers[1..])
  }

  /** Some file lists `asn` among its peers. */
  predicate PeerSomewhere(mux2peers: Results, asn: nat) {
    exists i :: 0 <= i < |mux2peers| && asn in Asns(mux2peers[i].1.peers)
  }

  /** Some file of mux `x` lists `asn` among its peers. */
  predicate PeerAt(mux2peers: Results, asn: nat, x: string) {
    exists i :: 0 <= i < |mux2peers| && mux2peers[i].0 == x && asn in Asns(mux2peers[i].1.peers)
  }

  /** Every ASN gains the muxes of the files that list it, and nothing else. */
  lemma {:induction false} Peer2MuxesOf(m: map<nat, seq<string>>, mux2peers: Results, asn: nat, x: string)
    ensures asn in Peer2Muxes(m, mux2peers) <==> asn in m || PeerSomewhere(mux2peers, asn)
    ensures x in MuxesOf(Peer2Muxes(m, mux2peers), asn) <==> x in MuxesOf(m, asn) || PeerAt(mux2peers, asn, x)
    decreases |mux2peers|
  {
    if |mux2peers| > 0 {
      var tail := mux2peers[1..];
      assert forall i :: 1 <= i < |mux2peers| ==> mux2peers[i] == tail[i - 1];
      PushMuxOf(m, mux2peers[0].1.peers, mux2peers[0].0, asn, x);
      Peer2MuxesOf(PushMux(m, mux2peers[0].1.peers, mux2peers[0].0), tail, asn, x);
      if PeerSomewhere(tail, asn) {
        var i :| 0 <= i < |tail| && asn in Asns(tail[i].1.peers);
        assert mux2peers[i + 1] == tail[i];
      }
      if PeerAt(tail, asn, x) {
        var i :| 0 <= i < |tail| && tail[i].0 == x && asn in Asns(tail[i].1.peers);
        assert mux2peers[i + 1] == tail[i];
      }
    }
  }

  /**
   * `write_providers_json` without the writing: nothing when no provider
   * output was asked for, the provider output otherwise.
   */
  function WriteProviders(providers: Option<string>, minSites: nat, results: Results): (r: Option<ProviderOutput>)
    requires WellFormed(results)
    ensures r.None? <==> providers.None?
  {
    if providers.None? then None
    else
      var sites := CountSitesPerProvider(results);
      var mux2peers := Mux2Peers(results, sites, minSites);
      Some(ProviderOutput(mux2peers, Peer2Muxes(map[], mux2peers)))
  }

  /**
   * Each mux keeps its IP version and findings, and keeps exactly the peers
   * it saw as transit providers whose site count for that IP version is at
   * least `minSites`, with their info unchanged.
   */
  lemma ProviderPeers(providers: string, minSites: nat, results: Results, i: nat, asn: nat)
    requires WellFormed(results) && i < |results|
    ensures var out := WriteProviders(Some(providers), minSites, results).value;
      var fr := results[i].1;
      && |out.mux2peers| == |results|
      && out.mux2peers[i].0 == results[i].0
      && out.mux2peers[i].1.ipVersion == fr.ipVersion
      && out.mux2peers[i].1.failedChecks == fr.failedChecks
      && (asn in Asns(out.mux2peers[i].1.peers) <==>
            IsTransit(fr.peers, asn)
            && (if fr.ipVersion == 4 then SiteCount(results, asn).0 else SiteCount(results, asn).1) >= minSites)
      && (asn in Asns(out.mux2peers[i].1.peers) ==> PeerOf(out.mux2peers[i].1.peers, asn) == PeerOf(fr.peers, asn))
  {
    var sites := CountSitesPerProvider(results);
    if IsTransit(results[i].1.peers, asn) {
      assert asn in sites;
    }
  }

  /** A provider lists exactly the muxes that kept it. */
  lemma ProviderMuxes(providers: string, minSites: nat, results: Results, asn: nat, mux: string)
    requires WellFormed(results)
    ensures var out := WriteProviders(Some(providers), minSites, results).value;
      && (asn in out.peer2muxes <==> PeerSomewhere(out.mux2peers, asn))
      && (mux in MuxesOf(out.peer2muxes, asn) <==> PeerAt(out.mux2peers, asn, mux))
  {
    var out := WriteProviders(Some(providers), minSites, results).value;
    Peer2MuxesOf(map[], out.mux2peers, asn, mux);
  }
}
