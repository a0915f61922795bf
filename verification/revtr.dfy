/**
 * Post-processing of reverse traceroutes: the batch-size guard and the
 * chunking of submissions, the failed-measurement guard, the symmetry
 * check behind `is_trustworthy`, and the excision of AS loops from the
 * reverse path. HTTP calls and the IP-to-AS and AS-name lookups are
 * outside the model: hops arrive with their ASN already looked up.
 */
module Revtr {
  import opened Wrappers
  import opened Text

  /** The most pairs one submission may carry. */
  const BatchSize: nat := 1000

  // ---------------------------------------------------------------------------
  // Submitting measurements
  // ---------------------------------------------------------------------------

  /** A vantage point and the remote whose reverse path it should measure. */
  type Pair = (string, string)

  /** One entry of a submission. */
  datatype Request = Request(src: string, dst: string, tag: string)

  /** The body `batch` submits, or ValueError when there are too many pairs. */
  function Batch(pairs: seq<Pair>, tag: string): (r: Result<seq<Request>>)
    ensures r.Err? <==> |pairs| > BatchSize
    ensures r.Err? ==> r.error.ValueError?
    ensures r.Ok? ==> |r.value| == |pairs|
    ensures r.Ok? ==> forall i :: 0 <= i < |pairs| ==> r.value[i] == Request(pairs[i].0, pairs[i].1, tag)
  {
    if |pairs| > BatchSize then Err(ValueError("Batch size too large"))
    else Ok(seq(|pairs|, i requires 0 <= i < |pairs| => Request(pairs[i].0, pairs[i].1, tag)))
  }

  /** Python's clamping slice `s[a:b]` for `0 <= a`. */
  function Slice<T>(s: seq<T>, a: nat, b: nat): seq<T> {
    if a >= |s| then [] else if b >= |s| then s[a..] else if b <= a then [] else s[a..b]
  }

  /** The pairs of the batches, in order. */
  function Flatten(batches: seq<(seq<Pair>, string)>): seq<Pair> {
    if |batches| == 0 then [] else Flatten(batches[..|batches| - 1]) + batches[|batches| - 1].0
  }

  /** The label of the `i`th batch. */
  function BatchLabel(tag: string, i: nat): string {
    tag + "_" + NatToString(i)
  }

  /**
   * `multibatch`: the batches submitted, each with its label. They are
   * consecutive non-empty slices of at most `BatchSize` pairs whose
   * concatenation is the input, labelled `<label>_<i>`, and each passes the
   * size guard.
   */
  method Multibatch(pairs: seq<Pair>, tag: string) returns (batches: seq<(seq<Pair>, string)>)
    ensures Flatten(batches) == pairs
    ensures forall k :: 0 <= k < |batches| ==>
      0 < |batches[k].0| <= BatchSize && batches[k].1 == BatchLabel(tag, k) && Batch(batches[k].0, batches[k].1).Ok?
    ensures |batches| == (|pairs| + BatchSize - 1) / BatchSize
    ensures |pairs| == 0 <==> batches == []
  {
    var i: nat := 0;
    var start: nat := 0;
    batches := [];
    while start < |pairs|
      invariant Batched(pairs, tag, batches, i, start)
      decreases |pairs| - start
    {
      BatchedStep(pairs, tag, batches, i, start);
      batches := batches + [(Slice(pairs, start, start + BatchSize), BatchLabel(tag, i))];
      i := i + 1;
      start := start + BatchSize;
    }
    BatchCount(|pairs|, i, start);
    assert pairs[..|pairs|] == pairs;
  }

  /** The state of `Multibatch` after `i` batches, the next one starting at `start`. */
  predicate Batched(pairs: seq<Pair>, tag: string, batches: seq<(seq<Pair>, string)>, i: nat, start: nat) {
    && start == i * BatchSize && |batches| == i
    && (start <= |pairs| || (i > 0 && start - BatchSize < |pairs|))
    && Flatten(batches) == pairs[..if start <= |pairs| then start else |pairs|]
    && (forall k :: 0 <= k < |batches| ==> 0 < |batches[k].0| <= BatchSize && batches[k].1 == BatchLabel(tag, k))
  }

  /** One turn of the `multibatch` loop keeps `Batched`. */
  lemma BatchedStep(pairs: seq<Pair>, tag: string, batches: seq<(seq<Pair>, string)>, i: nat, start: nat)
    requires Batched(pairs, tag, batches, i, start) && start < |pairs|
    ensures Batched(pairs, tag, batches + [(Slice(pairs, start, start + BatchSize), BatchLabel(tag, i))], i + 1, start + BatchSize)
  {
    var stop := start + BatchSize;
    var batch := Slice(pairs, start, stop);
    var end := if stop <= |pairs| then stop else |pairs|;
    assert batch == pairs[start..end];
    var after := batches + [(batch, BatchLabel(tag, i))];
    assert after[..|after| - 1] == batches;
    assert Flatten(after) == pairs[..start] + pairs[start..end];
    assert pairs[..start] + pairs[start..end] == pairs[..end];
  }

  /** `i` batches of `BatchSize` cover `n` pairs with the last one non-empty: `i` is `n / BatchSize` rounded up. */
  lemma BatchCount(n: nat, i: nat, start: nat)
    requires start == i * BatchSize && n <= start
    requires i > 0 ==> start - BatchSize < n
    ensures i == (n + BatchSize - 1) / BatchSize
  {
    assert i * 1000 <= n + 999 < (i + 1) * 1000;
  }

  // ---------------------------------------------------------------------------
  // Measurements
  // ---------------------------------------------------------------------------

  /** `RevTrHopType`. */
  datatype HopType =
    | Dummy
    | DstRevSegment
    | DstSymRevSegment
    | TrToSrcRevSegment
    | TrToSrcRevSegmentBetween
    | RrRevSegment
    | SpoofRrRevSegment
    | TsAdjRevSegment
    | SpoofTsAdjRevSegment
    | SpoofTsAdjRevSegmentTsZero
    | SpoofTsAdjRevSegmentTsZeroDoubleStamp

  /** The enum member names, in value order. */
  const HopTypeNames: seq<string> := [
    "DUMMY", "DST_REV_SEGMENT", "DST_SYM_REV_SEGMENT", "TR_TO_SRC_REV_SEGMENT",
    "TR_TO_SRC_REV_SEGMENT_BETWEEN", "RR_REV_SEGMENT", "SPOOF_RR_REV_SEGMENT",
    "TS_ADJ_REV_SEGMENT", "SPOOF_TS_ADJ_REV_SEGMENT", "SPOOF_TS_ADJ_REV_SEGMENT_TS_ZERO",
    "SPOOF_TS_ADJ_REV_SEGMENT_TS_ZERO_DOUBLE_STAMP"]

  const HopTypes: seq<HopType> := [
    Dummy, DstRevSegment, DstSymRevSegment, TrToSrcRevSegment, TrToSrcRevSegmentBetween,
    RrRevSegment, SpoofRrRevSegment, TsAdjRevSegment, SpoofTsAdjRevSegment,
    SpoofTsAdjRevSegmentTsZero, SpoofTsAdjRevSegmentTsZeroDoubleStamp]

  /** The integer value of a hop type. */
  function HopTypeValue(t: HopType): (v: nat)
    ensures v < |HopTypes| && HopTypes[v] == t
  {
    match t
    case Dummy => 0
    case DstRevSegment => 1
    case DstSymRevSegment => 2
    case TrToSrcRevSegment => 3
    case TrToSrcRevSegmentBetween => 4
    case RrRevSegment => 5
    case SpoofRrRevSegment => 6
    case TsAdjRevSegment => 7
    case SpoofTsAdjRevSegment => 8
    case SpoofTsAdjRevSegmentTsZero => 9
    case SpoofTsAdjRevSegmentTsZeroDoubleStamp => 10
  }

  /** `RevTrHopType[name]`: the member with that name, KeyError for any other name. */
  function HopTypeNamed(name: string): (r: Result<HopType>)
    ensures r.Ok? <==> name in HopTypeNames
    ensures r.Err? ==> r.error == KeyError(name)
    ensures r.Ok? ==> HopTypeNames[HopTypeValue(r.value)] == name
  {
    if name in HopTypeNames then
      var i :| 0 <= i < |HopTypeNames| && HopTypeNames[i] == name;
      NamesDistinct(i);
      Ok(HopTypes[i])
    else Err(KeyError(name))
  }

  /** No two members share a name, so a name picks one member. */
  lemma NamesDistinct(i: nat)
    requires i < |HopTypeNames|
    ensures forall j :: 0 <= j < |HopTypeNames| && HopTypeNames[j] == HopTypeNames[i] ==> j == i
    ensures HopTypeValue(HopTypes[i]) == i
  {
  }

  /** Every member is found under its own name. */
  lemma HopTypeNameRoundTrip(t: HopType)
    ensures HopTypeNamed(HopTypeNames[HopTypeValue(t)]) == Ok(t)
  {
    NamesDistinct(HopTypeValue(t));
  }

  /** `RevTrHop`: the address, the looked-up ASN, name and country, and the hop type. */
  datatype Hop = Hop(ip: nat, asn: Option<nat>, asname: Option<string>, cc: Option<string>, hoptype: HopType)

  /** A hop as the server reports it, with the lookups already done. */
  datatype RawHop = RawHop(ip: nat, typeName: string, asn: Option<nat>, asname: Option<string>, cc: Option<string>)

  /** A measurement as the server reports it. */
  datatype RawMeasurement = RawMeasurement(status: string, stopReason: string, src: nat, dst: nat, path: seq<RawHop>)

  /** `RevTrMeasurement`. */
  datatype Measurement = Measurement(
    status: string, stopReason: string, vp: nat, remote: nat,
    origHops: seq<Hop>, isTrustworthy: bool, hops: seq<Hop>)

  /** The hops of a path, or the KeyError of the first unknown hop type. */
  function DecodeHops(path: seq<RawHop>): (r: Result<seq<Hop>>)
    ensures r.Ok? ==> |r.value| == |path|
    ensures r.Ok? ==> forall i :: 0 <= i < |path| ==>
      (HopTypeNamed(path[i].typeName) == Ok(r.value[i].hoptype) && r.value[i].ip == path[i].ip && r.value[i].asn == path[i].asn)
    ensures r.Ok? ==> forall i :: 0 <= i < |path| ==>
      if path[i].asn.None? then r.value[i].asname.None? && r.value[i].cc.None?
      else r.value[i].asname == path[i].asname && r.value[i].cc == path[i].cc
    ensures r.Ok? <==> forall i :: 0 <= i < |path| ==> path[i].typeName in HopTypeNames
    ensures r.Err? ==>
      exists i :: (0 <= i < |path| && path[i].typeName !in HopTypeNames
                   && r.error == KeyError(path[i].typeName)
                   && forall j :: 0 <= j < i ==> path[j].typeName in HopTypeNames)
  {
    if |path| == 0 then Ok([])
    else
      var h := path[0];
      var t := HopTypeNamed(h.typeName);
      var rest := DecodeHops(path[1..]);
      assert forall i :: 1 <= i < |path| ==> path[i] == path[1..][i - 1];
      if t.Err? then Err(t.error)
      else if rest.Err? then Err(rest.error)
      else
        var hop := if h.asn.None? then Hop(h.ip, None, None, None, t.value) else Hop(h.ip, h.asn, h.asname, h.cc, t.value);
        Ok([hop] + rest.value)
  }

  /** The constructor of `RevTrMeasurement`: ValueError for a failed measurement, checked before the path is read. */
  function NewMeasurement(raw: RawMeasurement): (r: Result<Measurement>)
    ensures raw.stopReason == "FAILED" ==> r == Err(ValueError("Reverse Traceroute failed"))
    ensures r.Ok? ==>
      (r.value.isTrustworthy == !ContainsInterdomainAssumeSymmetry(r.value.origHops)
       && r.value.hops == RemoveAsLoop(r.value.origHops) && |r.value.origHops| == |raw.path|)
    ensures raw.stopReason != "FAILED" ==> (r.Ok? <==> DecodeHops(raw.path).Ok?)
    ensures raw.stopReason != "FAILED" && r.Err? ==> r.error == DecodeHops(raw.path).error
    ensures r.Ok? ==>
      (r.value.origHops == DecodeHops(raw.path).value
       && r.value.status == raw.status && r.value.stopReason == raw.stopReason
       && r.value.vp == raw.src && r.value.remote == raw.dst)
  {
    if raw.stopReason == "FAILED" then Err(ValueError("Reverse Traceroute failed"))
    else
      var hops :- DecodeHops(raw.path);
      Ok(Measurement(raw.status, raw.stopReason, raw.src, raw.dst, hops,
                     !ContainsInterdomainAssumeSymmetry(hops), RemoveAsLoop(hops)))
  }

  // ---------------------------------------------------------------------------
  // Symmetry
  // ---------------------------------------------------------------------------

  /** Hop `i + 1` was assumed symmetric and changes AS; an absent ASN is compared like any value. */
  predicate SymmetricAsChange(hops: seq<Hop>, i: nat)
    requires i + 1 < |hops|
  {
    hops[i + 1].hoptype == DstSymRevSegment && hops[i].asn != hops[i + 1].asn
  }

  /** `contains_interdomain_assume_symmetry`, scanning the hops from the front. */
  function ContainsInterdomainAssumeSymmetry(hops: seq<Hop>): (b: bool)
    ensures b <==> exists i :: 0 <= i && i + 1 < |hops| && SymmetricAsChange(hops, i)
  {
    if |hops| < 2 then false
    else if SymmetricAsChange(hops, 0) then true
    else
      var b := ContainsInterdomainAssumeSymmetry(hops[1..]);
      assert forall i :: 0 <= i && i + 2 < |hops| ==> (SymmetricAsChange(hops[1..], i) <==> SymmetricAsChange(hops, i + 1));
      assert b ==> exists i :: 0 <= i && i + 1 < |hops| && SymmetricAsChange(hops, i) by {
        if b {
          var i :| 0 <= i && i + 1 < |hops[1..]| && SymmetricAsChange(hops[1..], i);
          assert SymmetricAsChange(hops, i + 1);
        }
      }
      assert (exists i :: 0 <= i && i + 1 < |hops| && SymmetricAsChange(hops, i)) ==> b by {
        if exists i :: 0 <= i && i + 1 < |hops| && SymmetricAsChange(hops, i) {
          var i :| 0 <= i && i + 1 < |hops| && SymmetricAsChange(hops, i);
          assert i > 0;
          assert SymmetricAsChange(hops[1..], i - 1);
        }
      }
      b
  }

  // ---------------------------------------------------------------------------
  // AS loops
  // ---------------------------------------------------------------------------

  /** Python's `s[i]` for `-|s| <= i < |s|`: a negative index counts from the end. */
  function PyIndex<T>(s: seq<T>, i: int): T
    requires -|s| <= i < |s|
  {
    if i >= 0 then s[i] else s[|s| + i]
  }

  /** The index of the first TR_TO_SRC_REV_SEGMENT_BETWEEN hop. */
  function FirstBetween(hops: seq<Hop>): (r: Option<nat>)
    ensures r.Some? ==> r.value < |hops| && hops[r.value].hoptype == TrToSrcRevSegmentBetween
    ensures r.Some? ==> forall j :: 0 <= j < r.value ==> hops[j].hoptype != TrToSrcRevSegmentBetween
    ensures r.None? ==> forall j :: 0 <= j < |hops| ==> hops[j].hoptype != TrToSrcRevSegmentBetween
  {
    if |hops| == 0 then None
    else if hops[0].hoptype == TrToSrcRevSegmentBetween then Some(0)
    else
      var rest := FirstBetween(hops[1..]);
      assert forall j :: 1 <= j < |hops| ==> hops[j] == hops[1..][j - 1];
      if rest.None? then None else Some(rest.value + 1)
  }

  /** The least index `i >= from` whose hop has ASN `asn`. */
  function FirstAsnFrom(hops: seq<Hop>, from: nat, asn: nat): (r: Option<nat>)
    ensures r.Some? ==> from <= r.value < |hops| && hops[r.value].asn == Some(asn)
    ensures r.Some? ==> forall j :: from <= j < r.value ==> hops[j].asn != Some(asn)
    ensures r.None? ==> forall j :: from <= j < |hops| ==> hops[j].asn != Some(asn)
    decreases |hops| - from
  {
    if from >= |hops| then None
    else if hops[from].asn == Some(asn) then Some(from)
    else FirstAsnFrom(hops, from + 1, asn)
  }

  /** `remove_as_loop_from_revtr_path` with its two assertions, which fail with AssertionError. */
  function RemoveAsLoopChecked(hops: seq<Hop>): Result<seq<Hop>> {
    match FirstBetween(hops)
    case None => Ok(hops)
    case Some(first) =>
      var beforeIdx := first - 1;
      var beforeAsn := PyIndex(hops, beforeIdx).asn;
      if beforeAsn.None? then Ok(hops)
      else
        // `i > before_idx` over indices `i >= 0`: every index when `before_idx` is -1
        match FirstAsnFrom(hops, if beforeIdx < 0 then 0 else beforeIdx + 1, beforeAsn.value)
        case None => Ok(hops)
        case Some(loop) =>
          var res := hops[..first] + hops[loop..];
          if !(first < |res| && res[first] == hops[loop]) then Err(AssertionError("hops[first_idx] == self.orig_hops[loop_index]"))
          else if !(-|res| <= beforeIdx && PyIndex(res, beforeIdx).asn == res[first].asn) then
            Err(AssertionError("hops[before_idx].asn == hops[first_idx].asn"))
          else Ok(res)
  }

  /** Neither assertion of `remove_as_loop_from_revtr_path` can fail, whatever the hops. */
  lemma RemoveAsLoopAssertionsHold(hops: seq<Hop>)
    ensures RemoveAsLoopChecked(hops).Ok?
  {
    match FirstBetween(hops)
    case None =>
    case Some(first) =>
      var beforeIdx := first - 1;
      var beforeAsn := PyIndex(hops, beforeIdx).asn;
      if beforeAsn.Some? {
        var from := if beforeIdx < 0 then 0 else beforeIdx + 1;
        match FirstAsnFrom(hops, from, beforeAsn.value)
        case None =>
        case Some(loop) =>
          var res := hops[..first] + hops[loop..];
          assert res[first] == hops[loop];
          if first == 0 {
            // the wrapped predecessor is the last hop, which has the ASN, so the loop ends there at the latest
            assert hops[|hops| - 1].asn == beforeAsn;
            assert loop <= |hops| - 1;
            assert res == hops[loop..];
            assert PyIndex(res, beforeIdx) == hops[|hops| - 1];
          } else {
            assert PyIndex(res, beforeIdx) == hops[first - 1];
          }
      }
  }

  /** `remove_as_loop_from_revtr_path`, whose assertions always hold. */
  function RemoveAsLoop(hops: seq<Hop>): seq<Hop> {
    var r := RemoveAsLoopChecked(hops);
    if r.Ok? then r.value else hops
  }

  /** The index the loop search starts from: after the predecessor, or 0 when the predecessor wrapped. */
  function LoopSearchStart(first: nat): nat {
    if first == 0 then 0 else first
  }

  /**
   * When the hops are left alone: no TR_TO_SRC_REV_SEGMENT_BETWEEN hop, a
   * predecessor of the first one (the last hop when it is first) with no
   * ASN, or no later hop with the predecessor's ASN.
   */
  lemma RemoveAsLoopUnchanged(hops: seq<Hop>)
    ensures FirstBetween(hops).None? ==> RemoveAsLoop(hops) == hops
    ensures FirstBetween(hops).Some? && PyIndex(hops, FirstBetween(hops).value - 1).asn.None? ==> RemoveAsLoop(hops) == hops
    ensures var first := FirstBetween(hops);
      var before := if first.Some? then PyIndex(hops, first.value - 1).asn else None;
      first.Some? && before.Some?
      && (forall j :: LoopSearchStart(first.value) <= j < |hops| ==> hops[j].asn != before)
      ==> RemoveAsLoop(hops) == hops
  {
    var first := FirstBetween(hops);
    if first.Some? {
      var before := PyIndex(hops, first.value as int - 1).asn;
      if before.Some? && forall j :: LoopSearchStart(first.value) <= j < |hops| ==> hops[j].asn != before {
        NoLoopUnchanged(hops, first.value, before.value);
      }
    }
  }

  /** No hop from the search start on has the predecessor's ASN, so nothing is cut. */
  lemma NoLoopUnchanged(hops: seq<Hop>, first: nat, asn: nat)
    requires FirstBetween(hops) == Some(first) && PyIndex(hops, first - 1).asn == Some(asn)
    requires forall j :: LoopSearchStart(first) <= j < |hops| ==> hops[j].asn != Some(asn)
    ensures RemoveAsLoop(hops) == hops
  {
    var from := if first - 1 < 0 then 0 else first;
    assert from == LoopSearchStart(first);
    assert FirstAsnFrom(hops, from, asn).None?;
  }

  /**
   * Otherwise the hops from the first TR_TO_SRC_REV_SEGMENT_BETWEEN hop up
   * to the least later hop with the predecessor's ASN are cut out: the
   * result is never longer, keeps the prefix, and puts the loop's end hop,
   * which has the predecessor's ASN, right after the predecessor.
   */
  lemma RemoveAsLoopCut(hops: seq<Hop>, first: nat, loop: nat)
    requires FirstBetween(hops) == Some(first)
    requires PyIndex(hops, first - 1).asn.Some?
    requires FirstAsnFrom(hops, LoopSearchStart(first), PyIndex(hops, first - 1).asn.value) == Some(loop)
    ensures var res := RemoveAsLoop(hops);
      && res == hops[..first] + hops[loop..]
      && first <= loop && |res| <= |hops|
      && res[..first] == hops[..first]
      && first < |res| && res[first] == hops[loop]
      && PyIndex(res, first - 1).asn == res[first].asn == PyIndex(hops, first - 1).asn
  {
    RemoveAsLoopAssertionsHold(hops);
    assert RemoveAsLoop(hops) == hops[..first] + hops[loop..];
    CutShape(hops, first, loop);
  }

  /** The sequence facts behind `RemoveAsLoopCut`, for a cut that ends at a hop with the predecessor's ASN. */
  lemma CutShape(hops: seq<Hop>, first: nat, loop: nat)
    requires first <= loop < |hops| && -|hops| <= first - 1
    requires hops[loop].asn == PyIndex(hops, first - 1).asn
    ensures var res := hops[..first] + hops[loop..];
      && |res| <= |hops|
      && res[..first] == hops[..first]
      && first < |res| && res[first] == hops[loop]
      && PyIndex(res, first - 1).asn == res[first].asn == PyIndex(hops, first - 1).asn
  {
    var res := hops[..first] + hops[loop..];
    assert res[first] == hops[loop];
    if first == 0 {
      assert res == hops[loop..];
      assert PyIndex(res, first - 1) == hops[|hops| - 1] == PyIndex(hops, first - 1);
    } else {
      assert PyIndex(res, first - 1) == hops[first - 1];
    }
  }
}
