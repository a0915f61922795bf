/**
 * Route-level facts of the Vultr provider matrix: the community text
 * scanners, the mapping from community values to peer types, the peer-type
 * sets a route's communities yield, and the neighbour after Vultr's AS in
 * the AS path.
 */
module VultrRoutes {
  import opened Wrappers
  import opened Text

  /** `VULTR_ASN`. */
  const VultrAsn: nat := 20473

  /** One more than the largest `u32`. */
  const U32Limit: nat := 0x1_0000_0000

  // ---------------------------------------------------------------------------
  // Peer types
  // ---------------------------------------------------------------------------

  /** `PeerType`, declared in the order its derived `Ord` uses. */
  datatype PeerType = Transit | PublicPeer | PrivatePeer | Customer | VultrOrigin | Unknown

  /** `From<u32> for PeerType`: the community value of each known type; any other value is unknown. */
  function PeerTypeOf(v: nat): (pt: PeerType)
    ensures pt == Unknown <==> v != 100 && v != 200 && v != 300 && v != 4000 && v != 500
  {
    if v == 100 then Transit
    else if v == 200 then PublicPeer
    else if v == 300 then PrivatePeer
    else if v == 4000 then Customer
    else if v == 500 then VultrOrigin
    else Unknown
  }

  /** The community value that announces a known peer type. */
  function CodeOf(pt: PeerType): (v: nat)
    requires pt != Unknown
    ensures v in {100, 200, 300, 500, 4000}
  {
    match pt
    case Transit => 100
    case PublicPeer => 200
    case PrivatePeer => 300
    case Customer => 4000
    case VultrOrigin => 500
  }

  /** Every known peer type has exactly one community value, and that value maps back to it. */
  lemma PeerTypeCodes(v: nat, pt: PeerType)
    requires pt != Unknown
    ensures PeerTypeOf(CodeOf(pt)) == pt
    ensures PeerTypeOf(v) == pt <==> v == CodeOf(pt)
  {
  }

  /** `Display for PeerType`. */
  function PeerTypeName(pt: PeerType): (s: string)
    ensures |s| > 0
  {
    match pt
    case Transit => "transit"
    case PublicPeer => "public_peer"
    case PrivatePeer => "private_peer"
    case Customer => "customer"
    case VultrOrigin => "vultr_origin"
    case Unknown => "unknown"
  }

  /** Distinct peer types print distinctly. */
  lemma PeerTypeNamesDistinct(a: PeerType, b: PeerType)
    ensures PeerTypeName(a) == PeerTypeName(b) <==> a == b
  {
    if a != b {
      var x, y := PeerTypeName(a), PeerTypeName(b);
      assert |x| != |y| || x[0] != y[0];
    }
  }

  // ---------------------------------------------------------------------------
  // Community text
  // ---------------------------------------------------------------------------

  /** `str::parse::<u32>` on a run of ASCII digits: the value, or nothing when it does not fit. */
  function ParseU32(d: string): (r: Option<nat>)
    requires AllDigits(d)
    ensures r.Some? <==> DigitsValue(d) < U32Limit
    ensures r.Some? ==> r.value == DigitsValue(d)
  {
    if DigitsValue(d) < U32Limit then Some(DigitsValue(d)) else None
  }

  /** Every element is a non-empty run of ASCII digits. */
  predicate DigitRuns(ds: seq<string>) {
    forall i :: 0 <= i < |ds| ==> |ds[i]| > 0 && AllDigits(ds[i])
  }

  /**
   * `\d+` followed by `k - 1` times `,\s*\d+`, at the start of `s`: the
   * digit runs and the text after them. Digits and blanks are disjoint
   * classes, so every repetition is greedy without backtracking.
   */
  function DigitGroups(s: string, k: nat): (r: Option<(seq<string>, string)>)
    requires k >= 1
    ensures r.Some? ==> |r.value.0| == k && DigitRuns(r.value.0)
    decreases k
  {
    var d := RunLength(s, IsDigit);
    if d == 0 then None
    else if k == 1 then Some(([s[..d]], s[d..]))
    else if d < |s| && s[d] == ',' then
      var w := RunLength(s[d + 1..], IsRustSpace);
      var g := DigitGroups(s[d + 1 + w..], k - 1);
      if g.None? then None else Some(([s[..d]] + g.value.0, g.value.1))
    else None
  }

  /** `DigitGroups` consumes at least one character, so the scan after a tuple resumes further on. */
  lemma {:induction false} GroupsShrink(s: string, k: nat)
    requires k >= 1
    ensures DigitGroups(s, k).Some? ==> |DigitGroups(s, k).value.1| < |s|
    decreases k
  {
    var d := RunLength(s, IsDigit);
    if d > 0 && k > 1 && d < |s| && s[d] == ',' {
      var w := RunLength(s[d + 1..], IsRustSpace);
      var g := DigitGroups(s[d + 1 + w..], k - 1);
      GroupsShrink(s[d + 1 + w..], k - 1);
      if g.Some? {
        ShrinkStep(s, k, d, w, g.value.0, g.value.1);
      }
    }
  }

  /** One comma step of `GroupsShrink`: the text left over is the text the later groups leave. */
  lemma ShrinkStep(s: string, k: nat, n: nat, w: nat, ds: seq<string>, rest: string)
    requires k >= 2 && 0 < n < |s| && n == RunLength(s, IsDigit) && s[n] == ','
    requires w == RunLength(s[n + 1..], IsRustSpace)
    requires DigitGroups(s[n + 1 + w..], k - 1) == Some((ds, rest)) && |rest| < |s| - (n + 1 + w)
    ensures DigitGroups(s, k).Some? && |DigitGroups(s, k).value.1| < |s|
  {
    CommaStep(s, k, n, w, ds, rest);
  }

  /** A parenthesised tuple of `k` digit runs at the start of `s`, and the text after it. */
  function TupleAt(s: string, k: nat): (r: Option<(seq<string>, string)>)
    requires k >= 1
    ensures r.Some? ==> |r.value.0| == k && |r.value.1| < |s| && DigitRuns(r.value.0)
  {
    if |s| == 0 || s[0] != '(' then None
    else
      var g := DigitGroups(s[1..], k);
      GroupsShrink(s[1..], k);
      if g.Some? && |g.value.1| > 0 && g.value.1[0] == ')' then Some((g.value.0, g.value.1[1..])) else None
  }

  /** Every run parsed as a `u32`, or nothing if one of them does not fit. */
  function ParseAll(ds: seq<string>): (r: Option<seq<nat>>)
    requires DigitRuns(ds)
    ensures r.Some? ==> |r.value| == |ds| && forall i :: 0 <= i < |ds| ==> r.value[i] == DigitsValue(ds[i]) < U32Limit
    ensures r.None? <==> exists i :: 0 <= i < |ds| && DigitsValue(ds[i]) >= U32Limit
  {
    if |ds| == 0 then Some([])
    else
      var head := ParseU32(ds[0]);
      var tail := ParseAll(ds[1..]);
      TailOverflow(ds);
      if head.Some? && tail.Some? then Some([head.value] + tail.value) else None
  }

  lemma TailOverflow(ds: seq<string>)
    requires |ds| > 0 && DigitRuns(ds)
    ensures (exists i :: 0 <= i < |ds| && DigitsValue(ds[i]) >= U32Limit)
      <==> DigitsValue(ds[0]) >= U32Limit || exists i :: 0 <= i < |ds[1..]| && DigitsValue(ds[1..][i]) >= U32Limit
  {
    if exists i :: 0 <= i < |ds| && DigitsValue(ds[i]) >= U32Limit {
      var i :| 0 <= i < |ds| && DigitsValue(ds[i]) >= U32Limit;
      if i > 0 {
        assert ds[1..][i - 1] == ds[i];
      }
    }
    if exists i :: 0 <= i < |ds[1..]| && DigitsValue(ds[1..][i]) >= U32Limit {
      var i :| 0 <= i < |ds[1..]| && DigitsValue(ds[1..][i]) >= U32Limit;
      assert ds[i + 1] == ds[1..][i];
    }
  }

  /** Each tuple of values fits a `u32` and has `k` entries. */
  predicate Tuples(ts: seq<seq<nat>>, k: nat) {
    forall i :: 0 <= i < |ts| ==> |ts[i]| == k && forall j :: 0 <= j < k ==> ts[i][j] < U32Limit
  }

  /**
   * `captures_iter` followed by the `filter_map`: the leftmost tuple is
   * taken, the scan resumes after it, and a tuple holding a number too
   * large for a `u32` is dropped rather than truncated.
   */
  function ScanTuples(s: string, k: nat): (r: seq<seq<nat>>)
    requires k >= 1
    ensures Tuples(r, k)
    decreases |s|
  {
    if |s| == 0 then []
    else
      var t := TupleAt(s, k);
      if t.None? then ScanTuples(s[1..], k)
      else
        var vs := ParseAll(t.value.0);
        (if vs.Some? then [vs.value] else []) + ScanTuples(t.value.1, k)
  }

  /** The scanned pairs as tuples. */
  function Pairs(ts: seq<seq<nat>>): (r: seq<(nat, nat)>)
    requires Tuples(ts, 2)
    ensures |r| == |ts| && forall i :: 0 <= i < |ts| ==> [r[i].0, r[i].1] == ts[i]
  {
    if |ts| == 0 then [] else [(ts[0][0], ts[0][1])] + Pairs(ts[1..])
  }

  /** The scanned triples as tuples. */
  function Triples(ts: seq<seq<nat>>): (r: seq<(nat, nat, nat)>)
    requires Tuples(ts, 3)
    ensures |r| == |ts| && forall i :: 0 <= i < |ts| ==> [r[i].0, r[i].1, r[i].2] == ts[i]
  {
    if |ts| == 0 then [] else [(ts[0][0], ts[0][1], ts[0][2])] + Triples(ts[1..])
  }

  /** `parse_communities`: every `(asn,value)` pair, left to right. */
  function ParseCommunities(s: string): seq<(nat, nat)> {
    Pairs(ScanTuples(s, 2))
  }

  /** `parse_large_communities`: every `(asn,type,neighbour)` triple, left to right. */
  function ParseLargeCommunities(s: string): seq<(nat, nat, nat)> {
    Triples(ScanTuples(s, 3))
  }

  /** The pairs as two-entry tuples. */
  function PairTuples(ps: seq<(nat, nat)>): (ts: seq<seq<nat>>)
    ensures |ts| == |ps| && forall i :: 0 <= i < |ps| ==> ts[i] == [ps[i].0, ps[i].1]
  {
    seq(|ps|, i requires 0 <= i < |ps| => [ps[i].0, ps[i].1])
  }

  /** The triples as three-entry tuples. */
  function TripleTuples(ps: seq<(nat, nat, nat)>): (ts: seq<seq<nat>>)
    ensures |ts| == |ps| && forall i :: 0 <= i < |ps| ==> ts[i] == [ps[i].0, ps[i].1, ps[i].2]
  {
    seq(|ps|, i requires 0 <= i < |ps| => [ps[i].0, ps[i].1, ps[i].2])
  }

  /** Standard communities printed the way BIRD prints them parse back to the same list, in order. */
  lemma CommunitiesRoundTrip(ps: seq<(nat, nat)>, gap: string)
    requires forall i :: 0 <= i < |ps| ==> ps[i].0 < U32Limit && ps[i].1 < U32Limit
    requires RustBlank(gap)
    ensures ParseCommunities(TuplesText(PairTuples(ps), gap)) == ps
  {
    var ts := PairTuples(ps);
    ScanTuplesText(ts, 2, gap);
    var r := Pairs(ts);
    forall i | 0 <= i < |ps| ensures r[i] == ps[i] {
      assert [r[i].0, r[i].1][0] == ts[i][0] == ps[i].0;
      assert [r[i].0, r[i].1][1] == ts[i][1] == ps[i].1;
    }
  }

  /** Large communities printed the way BIRD prints them parse back to the same list, in order. */
  lemma LargeCommunitiesRoundTrip(ps: seq<(nat, nat, nat)>, gap: string)
    requires forall i :: 0 <= i < |ps| ==> ps[i].0 < U32Limit && ps[i].1 < U32Limit && ps[i].2 < U32Limit
    requires RustBlank(gap)
    ensures ParseLargeCommunities(TuplesText(TripleTuples(ps), gap)) == ps
  {
    var ts := TripleTuples(ps);
    ScanTuplesText(ts, 3, gap);
    var r := Triples(ts);
    forall i | 0 <= i < |ps| ensures r[i] == ps[i] {
      assert [r[i].0, r[i].1, r[i].2][0] == ts[i][0] == ps[i].0;
      assert [r[i].0, r[i].1, r[i].2][1] == ts[i][1] == ps[i].1;
      assert [r[i].0, r[i].1, r[i].2][2] == ts[i][2] == ps[i].2;
    }
  }

  /** Empty text has no communities. */
  lemma EmptyText()
    ensures ParseCommunities("") == [] && ParseLargeCommunities("") == []
  {
  }

  /** Text that does not open a tuple contributes nothing: the scan moves on by one character. */
  lemma NoTupleHere(s: string, k: nat)
    requires k >= 1 && |s| > 0 && TupleAt(s, k).None?
    ensures ScanTuples(s, k) == ScanTuples(s[1..], k)
  {
  }

  /** A tuple with a number that does not fit a `u32` is dropped, and the scan resumes after it. */
  lemma OverflowDropped(s: string, k: nat)
    requires k >= 1 && TupleAt(s, k).Some?
    requires exists i :: 0 <= i < k && DigitsValue(TupleAt(s, k).value.0[i]) >= U32Limit
    ensures ScanTuples(s, k) == ScanTuples(TupleAt(s, k).value.1, k)
  {
  }

  // ---------------------------------------------------------------------------
  // Rendering, and the round trip
  // ---------------------------------------------------------------------------

  predicate RustBlank(s: string) { forall i :: 0 <= i < |s| ==> IsRustSpace(s[i]) }

  /** The runs joined by a comma and `gap`, with `rest` after the last one. */
  function JoinedThen(ds: seq<string>, gap: string, rest: string): (t: string)
    requires |ds| >= 1
    ensures |ds[0]| <= |t| && t[..|ds[0]|] == ds[0]
    decreases |ds|
  {
    if |ds| == 1 then ds[0] + rest else ds[0] + ("," + (gap + JoinedThen(ds[1..], gap, rest)))
  }

  /** One tuple as BIRD prints it, e.g. `(20473, 100, 3356)` with `gap` a single space, then `rest`. */
  function TupleThenText(vs: seq<nat>, gap: string, rest: string): string
    requires |vs| >= 1
  {
    "(" + JoinedThen(Decimals(vs), gap, ")" + rest)
  }

  /** Tuples separated by single spaces. */
  function TuplesText(ts: seq<seq<nat>>, gap: string): string
    requires forall i :: 0 <= i < |ts| ==> |ts[i]| >= 1
    decreases |ts|
  {
    if |ts| == 0 then ""
    else if |ts| == 1 then TupleThenText(ts[0], gap, "")
    else TupleThenText(ts[0], gap, " " + TuplesText(ts[1..], gap))
  }

  /** The decimal renderings of the values. */
  function Decimals(vs: seq<nat>): (ds: seq<string>)
    ensures |ds| == |vs| && DigitRuns(ds)
    ensures forall i :: 0 <= i < |vs| ==> ds[i] == NatToString(vs[i])
  {
    if |vs| == 0 then [] else [NatToString(vs[0])] + Decimals(vs[1..])
  }

  /** Scanning the rendered tuples gives them back, whatever blanks follow the commas. */
  lemma {:induction false} ScanTuplesText(ts: seq<seq<nat>>, k: nat, gap: string)
    requires k >= 1 && Tuples(ts, k) && RustBlank(gap)
    ensures ScanTuples(TuplesText(ts, gap), k) == ts
    decreases |ts|
  {
    if |ts| == 1 {
      TupleThen(ts[0], k, gap, "");
    } else if |ts| > 1 {
      ScanTuplesText(ts[1..], k, gap);
      TupleThen(ts[0], k, gap, " " + TuplesText(ts[1..], gap));
      SkipSpace(TuplesText(ts[1..], gap), k);
      ConsTail(ts);
    }
  }

  lemma SkipSpace(s: string, k: nat)
    requires k >= 1
    ensures ScanTuples(" " + s, k) == ScanTuples(s, k)
  {
    assert (" " + s)[1..] == s;
  }

  /** A rendered tuple at the front is scanned as one entry. */
  lemma TupleThen(vs: seq<nat>, k: nat, gap: string, rest: string)
    requires k >= 1 && |vs| == k && RustBlank(gap)
    requires forall j :: 0 <= j < k ==> vs[j] < U32Limit
    ensures ScanTuples(TupleThenText(vs, gap, rest), k) == [vs] + ScanTuples(rest, k)
  {
    TupleAtText(TupleThenText(vs, gap, rest), Decimals(vs), gap, rest);
    ParseDecimals(vs);
  }

  lemma TupleAtText(s: string, ds: seq<string>, gap: string, rest: string)
    requires |ds| >= 1 && DigitRuns(ds) && RustBlank(gap) && s == "(" + JoinedThen(ds, gap, ")" + rest)
    ensures TupleAt(s, |ds|) == Some((ds, rest))
  {
    assert s[1..] == JoinedThen(ds, gap, ")" + rest);
    GroupsThen(ds, gap, ")" + rest, |ds|);
    assert DigitGroups(s[1..], |ds|) == Some((ds, ")" + rest));
    assert (")" + rest)[1..] == rest;
  }

  /** The values parse back from their decimal renderings. */
  lemma {:induction false} ParseDecimals(vs: seq<nat>)
    requires forall j :: 0 <= j < |vs| ==> vs[j] < U32Limit
    ensures ParseAll(Decimals(vs)) == Some(vs)
    decreases |vs|
  {
    if |vs| > 0 {
      var ds := Decimals(vs);
      ParseDecimals(vs[1..]);
      assert ds[1..] == Decimals(vs[1..]);
      DigitsValueOfNatToString(vs[0]);
      assert ParseU32(ds[0]) == Some(vs[0]);
      assert ParseAll(ds) == Some([vs[0]] + vs[1..]);
      assert [vs[0]] + vs[1..] == vs;
    }
  }

  /** `DigitGroups` reads the joined runs back, leaving `rest`. */
  predicate ReadsBack(ds: seq<string>, gap: string, rest: string)
    requires |ds| >= 1
  {
    DigitGroups(JoinedThen(ds, gap, rest), |ds|) == Some((ds, rest))
  }

  /** The `k` joined digit runs, followed by a non-digit, are read back as the same runs. */
  lemma {:induction false} GroupsThen(ds: seq<string>, gap: string, rest: string, k: nat)
    requires k >= 1 && |ds| == k && DigitRuns(ds) && RustBlank(gap)
    requires |rest| > 0 ==> !IsDigit(rest[0])
    ensures ReadsBack(ds, gap, rest)
    decreases k, 1
  {
    if k == 1 {
      SingleGroup(ds[0], rest);
      assert [ds[0]] == ds;
    } else {
      GroupsAfterFirst(ds, gap, rest, k);
    }
  }

  /** `GroupsThen` for two or more runs: the first run, then the others read back by induction. */
  lemma {:induction false} GroupsAfterFirst(ds: seq<string>, gap: string, rest: string, k: nat)
    requires k >= 2 && |ds| == k && DigitRuns(ds) && RustBlank(gap)
    requires |rest| > 0 ==> !IsDigit(rest[0])
    ensures ReadsBack(ds, gap, rest)
    decreases k, 0
  {
    var tail := ds[1..];
    DigitRunsTail(ds);
    GroupsThen(tail, gap, rest, k - 1);
    var more := JoinedThen(tail, gap, rest);
    assert DigitGroups(more, k - 1) == Some((tail, rest));
    assert more[0] == more[..|tail[0]|][0] == tail[0][0];
    assert JoinedThen(ds, gap, rest) == ds[0] + ("," + (gap + more));
    GroupStep(JoinedThen(ds, gap, rest), ds[0], gap, more, k, tail, rest);
    assert [ds[0]] + tail == ds;
  }

  lemma DigitRunsTail(ds: seq<string>)
    requires |ds| >= 1 && DigitRuns(ds)
    ensures DigitRuns(ds[1..])
  {
    forall i | 0 <= i < |ds| - 1 ensures |ds[1..][i]| > 0 && AllDigits(ds[1..][i]) {
      assert ds[1..][i] == ds[i + 1];
    }
  }

  /** One digit run followed by a non-digit. */
  lemma SingleGroup(d: string, rest: string)
    requires |d| > 0 && AllDigits(d)
    requires |rest| > 0 ==> !IsDigit(rest[0])
    ensures DigitGroups(d + rest, 1) == Some(([d], rest))
  {
    DigitsThenStop(d, rest);
  }

  lemma DigitsThenStop(d: string, rest: string)
    requires |d| > 0 && AllDigits(d)
    requires |rest| > 0 ==> !IsDigit(rest[0])
    ensures RunLength(d + rest, IsDigit) == |d| && (d + rest)[..|d|] == d && (d + rest)[|d|..] == rest
  {
    RunLengthConcat(d, rest, IsDigit);
  }

  /** One `\d+,\s*` step of `DigitGroups`. */
  lemma GroupStep(s: string, d: string, gap: string, more: string, k: nat, ds: seq<string>, rest: string)
    requires k >= 2 && |d| > 0 && AllDigits(d) && RustBlank(gap) && |more| > 0 && IsDigit(more[0])
    requires s == d + ("," + (gap + more))
    requires DigitGroups(more, k - 1) == Some((ds, rest))
    ensures DigitGroups(s, k) == Some(([d] + ds, rest))
  {
    CommaText(s, d, gap, more);
    CommaThen(s, k, |d|, |gap|, d, more, ds, rest);
  }

  /** `CommaStep` with the digit run and the text after the blanks named. */
  lemma CommaThen(s: string, k: nat, n: nat, w: nat, d: string, more: string, ds: seq<string>, rest: string)
    requires k >= 2 && 0 < n < |s| && RunLength(s, IsDigit) == n && s[..n] == d && s[n] == ','
    requires RunLength(s[n + 1..], IsRustSpace) == w && n + 1 + w <= |s| && s[n + 1 + w..] == more
    requires DigitGroups(more, k - 1) == Some((ds, rest))
    ensures DigitGroups(s, k) == Some(([d] + ds, rest))
  {
    CommaStep(s, k, n, w, ds, rest);
  }

  /** Where the digits, the comma and the blanks of `d,gap more` end. */
  lemma CommaText(s: string, d: string, gap: string, more: string)
    requires |d| > 0 && AllDigits(d) && RustBlank(gap) && |more| > 0 && IsDigit(more[0])
    requires s == d + ("," + (gap + more))
    ensures RunLength(s, IsDigit) == |d| && s[..|d|] == d && s[|d|] == ','
    ensures RunLength(s[|d| + 1..], IsRustSpace) == |gap| && s[|d| + 1 + |gap|..] == more
  {
    DigitsThenStop(d, "," + (gap + more));
    assert s[|d| + 1..] == gap + more;
    RunLengthConcat(gap, more, IsRustSpace);
  }

  /** `DigitGroups` past a run of `n` digits, a comma and `w` blanks. */
  lemma CommaStep(s: string, k: nat, n: nat, w: nat, ds: seq<string>, rest: string)
    requires k >= 2 && 0 < n < |s| && n == RunLength(s, IsDigit) && s[n] == ','
    requires w == RunLength(s[n + 1..], IsRustSpace)
    requires DigitGroups(s[n + 1 + w..], k - 1) == Some((ds, rest))
    ensures DigitGroups(s, k) == Some(([s[..n]] + ds, rest))
  {
  }

  // ---------------------------------------------------------------------------
  // Peer types from communities
  // ---------------------------------------------------------------------------

  /** The known peer types that Vultr's standard communities name, in a fold over the list. */
  function KnownTypes(cs: seq<(nat, nat)>): (r: set<PeerType>)
    ensures forall pt :: pt in r <==> pt != Unknown && exists i :: 0 <= i < |cs| && cs[i].0 == VultrAsn && PeerTypeOf(cs[i].1) == pt
  {
    if |cs| == 0 then {}
    else
      var rest := KnownTypes(cs[1..]);
      assert forall i :: 1 <= i < |cs| ==> cs[i] == cs[1..][i - 1];
      var pt := PeerTypeOf(cs[0].1);
      if cs[0].0 == VultrAsn && pt != Unknown then {pt} + rest else rest
  }

  /** No known type is named exactly when every Vultr community names an unknown code. */
  lemma KnownTypesEmpty(cs: seq<(nat, nat)>)
    ensures KnownTypes(cs) == {} <==> forall i :: 0 <= i < |cs| && cs[i].0 == VultrAsn ==> PeerTypeOf(cs[i].1) == Unknown
  {
    if i :| 0 <= i < |cs| && cs[i].0 == VultrAsn && PeerTypeOf(cs[i].1) != Unknown {
      assert PeerTypeOf(cs[i].1) in KnownTypes(cs);
    }
  }

  /** `detect_from_communities`: the known types, or `{Unknown}` when there are none. */
  function DetectFromCommunities(cs: seq<(nat, nat)>): (r: set<PeerType>)
    ensures r != {}
    ensures Unknown in r <==> r == {Unknown}
    ensures r == {Unknown} <==> forall i :: 0 <= i < |cs| && cs[i].0 == VultrAsn ==> PeerTypeOf(cs[i].1) == Unknown
    ensures forall pt :: pt != Unknown ==> (pt in r <==> exists i :: 0 <= i < |cs| && cs[i] == (VultrAsn, CodeOf(pt)))
  {
    var known := KnownTypes(cs);
    KnownTypesEmpty(cs);
    if known == {} then {Unknown} else known
  }

  /** The known (type, neighbour) pairs that Vultr's large communities name. */
  function KnownLarge(cs: seq<(nat, nat, nat)>): (r: set<(PeerType, nat)>)
    ensures forall p :: p in r <==> p.0 != Unknown && exists i :: 0 <= i < |cs| && cs[i].0 == VultrAsn && PeerTypeOf(cs[i].1) == p.0 && cs[i].2 == p.1
  {
    if |cs| == 0 then {}
    else
      var rest := KnownLarge(cs[1..]);
      assert forall i :: 1 <= i < |cs| ==> cs[i] == cs[1..][i - 1];
      var pt := PeerTypeOf(cs[0].1);
      if cs[0].0 == VultrAsn && pt != Unknown then {(pt, cs[0].2)} + rest else rest
  }

  /** No known pair is named exactly when every Vultr large community names an unknown code. */
  lemma KnownLargeEmpty(cs: seq<(nat, nat, nat)>)
    ensures KnownLarge(cs) == {} <==> forall i :: 0 <= i < |cs| && cs[i].0 == VultrAsn ==> PeerTypeOf(cs[i].1) == Unknown
  {
    if i :| 0 <= i < |cs| && cs[i].0 == VultrAsn && PeerTypeOf(cs[i].1) != Unknown {
      assert (PeerTypeOf(cs[i].1), cs[i].2) in KnownLarge(cs);
    }
  }

  /** `detect_from_large`: the known pairs, or the sentinel `{(Unknown, 0)}` when there are none. */
  function DetectFromLarge(cs: seq<(nat, nat, nat)>): (r: set<(PeerType, nat)>)
    ensures r != {}
    ensures (exists n :: (Unknown, n) in r) <==> r == {(Unknown, 0)}
    ensures r == {(Unknown, 0)} <==> forall i :: 0 <= i < |cs| && cs[i].0 == VultrAsn ==> PeerTypeOf(cs[i].1) == Unknown
    ensures forall pt, n :: pt != Unknown ==> ((pt, n) in r <==> exists i :: 0 <= i < |cs| && cs[i] == (VultrAsn, CodeOf(pt), n))
  {
    var known := KnownLarge(cs);
    KnownLargeEmpty(cs);
    if known == {} then {(Unknown, 0)} else known
  }

  // ---------------------------------------------------------------------------
  // The neighbour after Vultr in the AS path
  // ---------------------------------------------------------------------------

  /** Index of the first occurrence of `x`. */
  function FirstIndex(xs: seq<nat>, x: nat): (r: Option<nat>)
    ensures r.Some? ==> r.value < |xs| && xs[r.value] == x && forall j :: 0 <= j < r.value ==> xs[j] != x
    ensures r.None? ==> forall j :: 0 <= j < |xs| ==> xs[j] != x
  {
    if |xs| == 0 then None
    else if xs[0] == x then Some(0)
    else
      var rest := FirstIndex(xs[1..], x);
      if rest.None? then None else Some(rest.value + 1)
  }

  /** Position `i` holds the first 20473 of the path, and something follows it. */
  predicate FirstVultrAt(p: seq<nat>, i: int) {
    0 <= i < |p| - 1 && p[i] == VultrAsn && forall j :: 0 <= j < i ==> p[j] != VultrAsn
  }

  /** `extract_vultr_neighbor`: the AS right after the first 20473 in the path. */
  function VultrNeighbor(asPath: Option<seq<nat>>): (r: Option<nat>)
    ensures r.Some? <==> asPath.Some? && exists i :: 0 <= i < |asPath.value| - 1 && asPath.value[i] == VultrAsn
    ensures r.Some? ==> exists i :: FirstVultrAt(asPath.value, i) && r.value == asPath.value[i + 1]
  {
    if asPath.None? then None
    else
      var p := asPath.value;
      var at := FirstIndex(p, VultrAsn);
      if at.Some? && at.value + 1 < |p| then
        assert FirstVultrAt(p, at.value);
        Some(p[at.value + 1])
      else None
  }
}
