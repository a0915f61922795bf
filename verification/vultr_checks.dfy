/**
 * The per-route consistency checks of the Vultr provider matrix: what a
 * route's standard and large communities and its AS path may disagree
 * about, and the name each finding is counted under.
 */
module VultrChecks {
  import opened Wrappers
  import opened VultrRoutes

  /** `Check`: one finding, with the data the source attaches to it. */
  datatype Check =
    | RouteMissingNeighbor(linenum: nat, asPath: Option<seq<nat>>)
    | CustomerWithLargeCommunity(linenum: nat)
    | NeighborAsnInconsistency(linenum: nat, neighLarge: nat, peertypesLarge: set<PeerType>, asPath: Option<seq<nat>>)
    | RouteInconsistentPeerTypes(linenum: nat, standard: set<PeerType>, large: set<PeerType>)
    | AsInconsistentPeerTypes(asn: nat, types: seq<PeerType>)
    | InconsistentLargeCommPeerAsns(linenum: nat, neighbors: set<nat>)
    | JsonParseFailure(linenum: nat, line: string)

  /**
   * `Check::name`, which is also what `Display` prints and so the key the
   * findings are counted under: the name of the variant.
   */
  function Name(c: Check): (s: string)
    ensures |s| > 0
  {
    match c
    case RouteMissingNeighbor(_, _) => "RouteMissingNeighbor"
    case CustomerWithLargeCommunity(_) => "CustomerWithLargeCommunity"
    case NeighborAsnInconsistency(_, _, _, _) => "NeighborAsnInconsistency"
    case RouteInconsistentPeerTypes(_, _, _) => "RouteInconsistentPeerTypes"
    case AsInconsistentPeerTypes(_, _) => "AsInconsistentPeerTypes"
    case InconsistentLargeCommPeerAsns(_, _) => "InconsistentLargeCommPeerAsns"
    case JsonParseFailure(_, _) => "JsonParseFailure"
  }

  /** Two variants of the same kind. */
  predicate SameKind(a: Check, b: Check) {
    (a.RouteMissingNeighbor? && b.RouteMissingNeighbor?)
    || (a.CustomerWithLargeCommunity? && b.CustomerWithLargeCommunity?)
    || (a.NeighborAsnInconsistency? && b.NeighborAsnInconsistency?)
    || (a.RouteInconsistentPeerTypes? && b.RouteInconsistentPeerTypes?)
    || (a.AsInconsistentPeerTypes? && b.AsInconsistentPeerTypes?)
    || (a.InconsistentLargeCommPeerAsns? && b.InconsistentLargeCommPeerAsns?)
    || (a.JsonParseFailure? && b.JsonParseFailure?)
  }

  /** Two findings are counted under the same name exactly when they are of the same kind. */
  lemma NameIsKind(a: Check, b: Check)
    ensures Name(a) == Name(b) <==> SameKind(a, b)
  {
    if !SameKind(a, b) && |Name(a)| == |Name(b)| {
      assert Name(a)[0] != Name(b)[0];
    }
  }

  // ---------------------------------------------------------------------------
  // The per-route checks
  // ---------------------------------------------------------------------------

  /** The standard-community peer types with `Unknown` removed. */
  function KnownOf(types: set<PeerType>): (r: set<PeerType>)
    ensures Unknown !in r && forall pt :: pt != Unknown ==> (pt in r <==> pt in types)
  {
    types - {Unknown}
  }

  /** The peer types of the large communities whose type is known. */
  function LargeTypes(large: set<(PeerType, nat)>): (r: set<PeerType>)
    ensures Unknown !in r
    ensures forall pt :: pt in r <==> pt != Unknown && exists n :: (pt, n) in large
  {
    set p | p in large && p.0 != Unknown :: p.0
  }

  /** The neighbour ASNs of the large communities whose type is known. */
  function LargeNeighbors(large: set<(PeerType, nat)>): (r: set<nat>)
    ensures forall n :: n in r <==> exists pt :: pt != Unknown && (pt, n) in large
  {
    set p | p in large && p.0 != Unknown :: p.1
  }

  /** A set with exactly one element has no other element. */
  lemma SingletonUnique<T>(s: set<T>)
    requires |s| == 1
    ensures forall a, b :: a in s && b in s ==> a == b
  {
    var x :| x in s;
    assert |s - {x}| == 0;
    assert s - {x} == {};
  }

  /** The one neighbour the large communities name, 0 when they name none or several. */
  function NeighLarge(large: set<(PeerType, nat)>): (n: nat)
    ensures |LargeNeighbors(large)| == 1 ==> LargeNeighbors(large) == {n}
    ensures |LargeNeighbors(large)| != 1 ==> n == 0
  {
    var ns := LargeNeighbors(large);
    if |ns| == 1 then
      SingletonUnique(ns);
      var x :| x in ns;
      assert ns == {x};
      x
    else 0
  }

  /** The fixed order `run` emits its findings in. */
  function Rank(c: Check): nat {
    match c
    case RouteInconsistentPeerTypes(_, _, _) => 0
    case CustomerWithLargeCommunity(_) => 1
    case InconsistentLargeCommPeerAsns(_, _) => 2
    case NeighborAsnInconsistency(_, _, _, _) => 3
    case _ => 4
  }

  /** The standard and the large known types both exist and disagree. */
  predicate TypesDisagree(comm: set<PeerType>, large: set<(PeerType, nat)>) {
    KnownOf(comm) != {} && LargeTypes(large) != {} && KnownOf(comm) != LargeTypes(large)
  }

  /** The route is from a customer only, yet carries a known large community. */
  predicate CustomerWithLarge(comm: set<PeerType>, large: set<(PeerType, nat)>) {
    KnownOf(comm) == {Customer} && LargeTypes(large) != {}
  }

  /** The single large neighbour is a real ASN that the AS path contradicts, and no public peering explains it. */
  predicate NeighborMismatch(neighAspath: nat, large: set<(PeerType, nat)>) {
    exists n :: n in LargeNeighbors(large) && LargeNeighbors(large) == {n} && n != 0 && n != neighAspath && PublicPeer !in LargeTypes(large)
  }

  /** The finding `run` emits for disagreeing known types, if any. */
  function TypesFinding(idx: nat, comm: set<PeerType>, large: set<(PeerType, nat)>): (r: seq<Check>)
    ensures |r| <= 1 && (r != [] <==> TypesDisagree(comm, large))
    ensures r != [] ==> r[0] == RouteInconsistentPeerTypes(idx, KnownOf(comm), LargeTypes(large))
  {
    var commPts := KnownOf(comm);
    var largePts := LargeTypes(large);
    if commPts != {} && largePts != {} && commPts != largePts
    then [RouteInconsistentPeerTypes(idx, commPts, largePts)] else []
  }

  /** The finding `run` emits for a customer-only route with large communities, if any. */
  function CustomerFinding(idx: nat, comm: set<PeerType>, large: set<(PeerType, nat)>): (r: seq<Check>)
    ensures |r| <= 1 && (r != [] <==> CustomerWithLarge(comm, large))
    ensures r != [] ==> r[0] == CustomerWithLargeCommunity(idx)
  {
    var commPts := KnownOf(comm);
    assert Customer in commPts && |commPts| == 1 <==> commPts == {Customer} by {
      if Customer in commPts && |commPts| == 1 {
        SingletonUnique(commPts);
      }
    }
    if Customer in commPts && |commPts| == 1 && LargeTypes(large) != {}
    then [CustomerWithLargeCommunity(idx)] else []
  }

  /** The finding `run` emits when the large communities name several neighbours, if any. */
  function NeighborsFinding(idx: nat, large: set<(PeerType, nat)>): (r: seq<Check>)
    ensures |r| <= 1 && (r != [] <==> |LargeNeighbors(large)| > 1)
    ensures r != [] ==> r[0] == InconsistentLargeCommPeerAsns(idx, LargeNeighbors(large))
  {
    var neighbors := LargeNeighbors(large);
    if |neighbors| > 1 then [InconsistentLargeCommPeerAsns(idx, neighbors)] else []
  }

  /** The finding `run` emits when the large neighbour contradicts the AS path, if any. */
  function MismatchFinding(idx: nat, asPath: Option<seq<nat>>, neighAspath: nat, large: set<(PeerType, nat)>): (r: seq<Check>)
    ensures |r| <= 1 && (r != [] <==> NeighborMismatch(neighAspath, large))
    ensures r != [] ==> r[0] == NeighborAsnInconsistency(idx, NeighLarge(large), LargeTypes(large), asPath)
  {
    var neighLarge := NeighLarge(large);
    var largePts := LargeTypes(large);
    assert neighLarge != 0 && neighLarge != neighAspath && PublicPeer !in largePts
      <==> NeighborMismatch(neighAspath, large);
    if neighLarge != 0 && neighLarge != neighAspath && PublicPeer !in largePts
    then [NeighborAsnInconsistency(idx, neighLarge, largePts, asPath)] else []
  }

  /**
   * `Check::run`: the findings for the route on line `idx`, at most one of
   * each of four kinds, in a fixed order, all stamped with `idx`.
   */
  function Run(idx: nat, asPath: Option<seq<nat>>, neighAspath: nat, comm: set<PeerType>, large: set<(PeerType, nat)>): (r: seq<Check>)
    ensures forall i :: 0 <= i < |r| ==> Rank(r[i]) < 4 && r[i].linenum == idx
    ensures forall i, j :: 0 <= i < j < |r| ==> Rank(r[i]) < Rank(r[j])
  {
    var c1, c2 := TypesFinding(idx, comm, large), CustomerFinding(idx, comm, large);
    var c3, c4 := NeighborsFinding(idx, large), MismatchFinding(idx, asPath, neighAspath, large);
    FindingsStamped(idx, asPath, neighAspath, comm, large);
    RankedConcat(c1, c2, c3, c4, idx);
    c1 + c2 + c3 + c4
  }

  /** At most one finding, of the given rank, stamped with line `idx`. */
  predicate Stamped(cs: seq<Check>, rank: nat, idx: nat) {
    |cs| <= 1 && rank < 4 && forall i :: 0 <= i < |cs| ==> Rank(cs[i]) == rank && cs[i].linenum == idx
  }

  /** Each finding list holds at most one finding of its own rank, stamped with line `idx`. */
  lemma FindingsStamped(idx: nat, asPath: Option<seq<nat>>, neighAspath: nat, comm: set<PeerType>, large: set<(PeerType, nat)>)
    ensures Stamped(TypesFinding(idx, comm, large), 0, idx)
    ensures Stamped(CustomerFinding(idx, comm, large), 1, idx)
    ensures Stamped(NeighborsFinding(idx, large), 2, idx)
    ensures Stamped(MismatchFinding(idx, asPath, neighAspath, large), 3, idx)
  {
  }

  /** Four lists of at most one finding each, of ranks 0 to 3, concatenate in strictly increasing rank. */
  lemma RankedConcat(c1: seq<Check>, c2: seq<Check>, c3: seq<Check>, c4: seq<Check>, idx: nat)
    requires Stamped(c1, 0, idx) && Stamped(c2, 1, idx) && Stamped(c3, 2, idx) && Stamped(c4, 3, idx)
    ensures var r := c1 + c2 + c3 + c4;
      && (forall i :: 0 <= i < |r| ==> Rank(r[i]) < 4 && r[i].linenum == idx)
      && (forall i, j :: 0 <= i < j < |r| ==> Rank(r[i]) < Rank(r[j]))
  {
  }

  /** Membership in the four concatenated finding lists. */
  lemma InFindings(c: Check, c1: seq<Check>, c2: seq<Check>, c3: seq<Check>, c4: seq<Check>)
    ensures c in c1 + c2 + c3 + c4 <==> c in c1 || c in c2 || c in c3 || c in c4
  {
  }

  /** RouteInconsistentPeerTypes is emitted, with both known-type sets, exactly when they are non-empty and differ. */
  lemma RunTypesFinding(idx: nat, asPath: Option<seq<nat>>, neighAspath: nat, comm: set<PeerType>, large: set<(PeerType, nat)>)
    ensures RouteInconsistentPeerTypes(idx, KnownOf(comm), LargeTypes(large)) in Run(idx, asPath, neighAspath, comm, large)
      <==> TypesDisagree(comm, large)
  {
    InFindings(RouteInconsistentPeerTypes(idx, KnownOf(comm), LargeTypes(large)), TypesFinding(idx, comm, large),
      CustomerFinding(idx, comm, large), NeighborsFinding(idx, large), MismatchFinding(idx, asPath, neighAspath, large));
  }

  /** CustomerWithLargeCommunity is emitted exactly when the known standard types are {Customer} and a known large type exists. */
  lemma RunCustomerFinding(idx: nat, asPath: Option<seq<nat>>, neighAspath: nat, comm: set<PeerType>, large: set<(PeerType, nat)>)
    ensures CustomerWithLargeCommunity(idx) in Run(idx, asPath, neighAspath, comm, large)
      <==> CustomerWithLarge(comm, large)
  {
    InFindings(CustomerWithLargeCommunity(idx), TypesFinding(idx, comm, large),
      CustomerFinding(idx, comm, large), NeighborsFinding(idx, large), MismatchFinding(idx, asPath, neighAspath, large));
  }

  /** InconsistentLargeCommPeerAsns is emitted, with the neighbour set, exactly when the known large entries name several neighbours. */
  lemma RunNeighborsFinding(idx: nat, asPath: Option<seq<nat>>, neighAspath: nat, comm: set<PeerType>, large: set<(PeerType, nat)>)
    ensures InconsistentLargeCommPeerAsns(idx, LargeNeighbors(large)) in Run(idx, asPath, neighAspath, comm, large)
      <==> |LargeNeighbors(large)| > 1
  {
    InFindings(InconsistentLargeCommPeerAsns(idx, LargeNeighbors(large)), TypesFinding(idx, comm, large),
      CustomerFinding(idx, comm, large), NeighborsFinding(idx, large), MismatchFinding(idx, asPath, neighAspath, large));
  }

  /**
   * NeighborAsnInconsistency is emitted exactly when the single known large
   * neighbour is nonzero, differs from the AS path's and is not a public peer.
   */
  lemma RunMismatchFinding(idx: nat, asPath: Option<seq<nat>>, neighAspath: nat, comm: set<PeerType>, large: set<(PeerType, nat)>)
    ensures NeighborAsnInconsistency(idx, NeighLarge(large), LargeTypes(large), asPath) in Run(idx, asPath, neighAspath, comm, large)
      <==> NeighborMismatch(neighAspath, large)
  {
    InFindings(NeighborAsnInconsistency(idx, NeighLarge(large), LargeTypes(large), asPath), TypesFinding(idx, comm, large),
      CustomerFinding(idx, comm, large), NeighborsFinding(idx, large), MismatchFinding(idx, asPath, neighAspath, large));
  }

  /** `run` looks at known types only: `Unknown` entries on either side change nothing. */
  lemma RunIgnoresUnknown(idx: nat, asPath: Option<seq<nat>>, neighAspath: nat, comm: set<PeerType>, large: set<(PeerType, nat)>)
    ensures Run(idx, asPath, neighAspath, comm, large)
      == Run(idx, asPath, neighAspath, comm - {Unknown}, set p | p in large && p.0 != Unknown)
  {
    var large' := set p | p in large && p.0 != Unknown;
    assert LargeTypes(large) == LargeTypes(large');
    assert LargeNeighbors(large) == LargeNeighbors(large');
    assert KnownOf(comm) == KnownOf(comm - {Unknown});
  }

  /** Agreeing transit communities with the AS path's neighbour raise nothing. */
  lemma ConsistentTransitPasses(idx: nat, asPath: Option<seq<nat>>, n: nat)
    ensures Run(idx, asPath, n, {Transit}, {(Transit, n)}) == []
  {
    var large := {(Transit, n)};
    assert LargeTypes(large) == {Transit};
    assert LargeNeighbors(large) == {n};
  }

  /** A customer route with a transit large community is flagged as both inconsistent and customer-with-large. */
  lemma CustomerFlagged(idx: nat, asPath: Option<seq<nat>>, n: nat)
    ensures Run(idx, asPath, n, {Customer}, {(Transit, n)})
      == [RouteInconsistentPeerTypes(idx, {Customer}, {Transit}), CustomerWithLargeCommunity(idx)]
  {
    var large := {(Transit, n)};
    assert LargeTypes(large) == {Transit};
    assert LargeNeighbors(large) == {n};
    assert KnownOf({Customer}) == {Customer};
  }

  /** A transit large community naming another neighbour than the AS path is flagged as a neighbour inconsistency. */
  lemma OtherNeighborFlagged(idx: nat, asPath: Option<seq<nat>>, n: nat, m: nat)
    requires m != 0 && m != n
    ensures Run(idx, asPath, n, {Transit}, {(Transit, m)})
      == [NeighborAsnInconsistency(idx, m, {Transit}, asPath)]
  {
    var large := {(Transit, m)};
    assert LargeTypes(large) == {Transit};
    assert LargeNeighbors(large) == {m};
  }
}
