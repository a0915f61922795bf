/**
 * The city-pair hijack experiment: `generate_configurations` builds one
 * update per ordered pair of distinct cities and hijack-provider index, each
 * announcing the prefix from the origin city with do-not-announce
 * communities for one of the hijacker's providers and from the hijacker with
 * announce-to-upstreams communities for the same provider. The main loop then
 * deals the configurations out, one per prefix of `PFX2MUX`, appending an
 * RPF-avoiding announcement at the prefix's egress mux when no announcement
 * reaches it. Withdrawing, deploying, measuring and sleeping are outside the
 * model.
 */
module CityPairs {
  import opened Wrappers
  import opened Text
  import opened Peering
  import opened Dicts

  const LabelBase: string := "pythia_sigcomm24_hijacks_r9"
  const HijackProviderStart: nat := 1
  const HijackProviderEnd: nat := 2

  /** `PFX2MUX`: each experiment prefix and its egress mux, in dictionary order. */
  const Pfx2Mux: seq<(string, string)> := [
    ("184.164.224.0/24", "vtramsterdam"),
    ("184.164.225.0/24", "vtrnewyork"),
    ("184.164.231.0/24", "vtrsaopaulo"),
    ("184.164.233.0/24", "vtrsingapore"),
    ("184.164.234.0/24", "vtrsydney"),
    ("184.164.235.0/24", "vtrtokyo")]

  /** The keys of `MUX2PFX`, which inverts `PFX2MUX`: its muxes, in the same order. */
  const Cities: seq<string> := ["vtramsterdam", "vtrnewyork", "vtrsaopaulo", "vtrsingapore", "vtrsydney", "vtrtokyo"]

  /** `MUX2PROVS`: the transit providers of each city. */
  const Mux2Provs: map<string, seq<nat>> := map[
    "vtramsterdam" := [2914, 3257, 1299, 3356],
    "vtrnewyork" := [2914, 3257, 1299, 3356, 174],
    "vtrsaopaulo" := [2914, 3257, 174],
    "vtrsingapore" := [2914, 3257, 1299],
    "vtrsydney" := [2914, 3257],
    "vtrtokyo" := [2914, 1299]]

  // ---------------------------------------------------------------------------
  // Generating the configurations
  // ---------------------------------------------------------------------------

  /** One labelled update. */
  datatype Config = Config(name: string, update: Update)

  /** `f"{LABEL_BASE}_{ocity}_{hcity}_as{hprov}_idx{hprovidx}"`. */
  function Label(o: string, h: string, prov: nat, idx: nat): string {
    LabelBase + "_" + o + "_" + h + "_as" + NatToString(prov) + "_idx" + NatToString(idx)
  }

  /**
   * `MUX2PROVS[hcity][hprovidx % len(MUX2PROVS[hcity])]`: KeyError for a city
   * with no provider list, ZeroDivisionError for an empty one.
   */
  function HijackProvider(provs: map<string, seq<nat>>, h: string, idx: nat): (r: Result<nat>)
    ensures r.Ok? <==> h in provs && |provs[h]| > 0
    ensures r.Ok? ==> exists k :: 0 <= k < |provs[h]| && r.value == provs[h][k]
    ensures r.Err? ==> (if h in provs then r.error == ZeroDivisionError else r.error.KeyError?)
  {
    if h !in provs then Err(KeyError(h))
    else if |provs[h]| == 0 then Err(ZeroDivisionError)
    else Ok(provs[h][idx % |provs[h]|])
  }

  /** The update of one (origin, hijacker, provider index) triple. */
  function Configuration(o: string, h: string, idx: nat, provs: map<string, seq<nat>>): (r: Result<Config>)
    ensures r.Ok? <==> HijackProvider(provs, h, idx).Ok?
    ensures r.Ok? ==> var prov := HijackProvider(provs, h, idx).value;
      && r.value.name == Label(o, h, prov, idx)
      && r.value.update.withdraw == {}
      && |r.value.update.announce| == 2
      && r.value.update.announce[0] == Announcement({o}, [], CommunitiesDoNotAnnounce([prov]), [])
      && r.value.update.announce[1] == Announcement({h}, [], CommunitiesAnnounceToUpstreams([prov]), [])
  {
    var prov :- HijackProvider(provs, h, idx);
    var hann := Announcement({h}, [], CommunitiesAnnounceToUpstreams([prov]), []);
    var oann := Announcement({o}, [], CommunitiesDoNotAnnounce([prov]), []);
    Ok(Config(Label(o, h, prov, idx), Update({}, [oann, hann], None)))
  }

  /** The innermost loop: provider indices `idx` up to `HIJACK_PROVIDER_END`. */
  function IdxAttempts(o: string, h: string, provs: map<string, seq<nat>>, idx: nat): (rs: seq<Result<Config>>)
    ensures |rs| == if idx < HijackProviderEnd then HijackProviderEnd - idx else 0
    decreases HijackProviderEnd - idx
  {
    if idx >= HijackProviderEnd then [] else [Configuration(o, h, idx, provs)] + IdxAttempts(o, h, provs, idx + 1)
  }

  /** The middle loop's hijackers for origin `o`: every city but `o`, in order. */
  function Others(o: string, hs: seq<string>): (r: seq<string>)
    ensures forall h :: h in r <==> h in hs && h != o
  {
    if |hs| == 0 then [] else (if hs[0] == o then [] else [hs[0]]) + Others(o, hs[1..])
  }

  /** The (origin, hijacker) pairs of the two outer loops, in loop order. */
  function Pairs(os: seq<string>, cities: seq<string>): (ps: seq<(string, string)>)
    ensures forall p :: p in ps <==> p.0 in os && p.1 in cities && p.0 != p.1
  {
    if |os| == 0 then [] else Block(os[0], cities) + Pairs(os[1..], cities)
  }

  /** The pairs of one origin: `o` with each of its hijackers. */
  function Block(o: string, cities: seq<string>): (b: seq<(string, string)>)
    ensures |b| == |Others(o, cities)|
    ensures forall k :: 0 <= k < |b| ==> b[k] == (o, Others(o, cities)[k])
    ensures forall p :: p in b <==> p.0 == o && p.1 in cities && p.0 != p.1
  {
    var hs := Others(o, cities);
    var b := seq(|hs|, k requires 0 <= k < |hs| => (o, hs[k]));
    assert forall p :: p in b ==> p.1 in hs;
    assert forall h :: h in hs ==> (o, h) in b by {
      forall h | h in hs ensures (o, h) in b {
        var k :| 0 <= k < |hs| && hs[k] == h;
        assert b[k] == (o, h);
      }
    }
    b
  }

  /** The attempts of the loop nest, pair by pair. */
  function PairAttempts(ps: seq<(string, string)>, provs: map<string, seq<nat>>): seq<Result<Config>> {
    if |ps| == 0 then [] else IdxAttempts(ps[0].0, ps[0].1, provs, HijackProviderStart) + PairAttempts(ps[1..], provs)
  }

  /** The assignments `label2update[label] = update`. */
  function Items(cs: seq<Config>): seq<(string, Update)> {
    seq(|cs|, k requires 0 <= k < |cs| => (cs[k].name, cs[k].update))
  }

  /** The dictionary the configurations end up in, as configurations again. */
  function ToDict(cs: seq<Config>): seq<Config> {
    var d := FromItems(Items(cs));
    seq(|d|, k requires 0 <= k < |d| => Config(d[k].0, d[k].1))
  }

  /** `generate_configurations(cities, MUX2PROVS)`, cities in the order of `MUX2PFX`. */
  function GenerateConfigurations(cities: seq<string>, provs: map<string, seq<nat>>): Result<seq<Config>> {
    var cs :- Collect(PairAttempts(Pairs(cities, cities), provs));
    Ok(ToDict(cs))
  }

  /** The labels of a list of configurations. */
  function Labels(cs: seq<Config>): seq<string> {
    seq(|cs|, k requires 0 <= k < |cs| => cs[k].name)
  }

  predicate Distinct<T(==)>(xs: seq<T>) {
    forall i, j :: 0 <= i < j < |xs| ==> xs[i] != xs[j]
  }

  /** With distinct labels, the dictionary keeps every configuration, in order. */
  lemma ToDictDistinct(cs: seq<Config>)
    requires Distinct(Labels(cs))
    ensures ToDict(cs) == cs
  {
    var items := Items(cs);
    assert UniqueKeys(items) by {
      forall i, j | 0 <= i < j < |items| ensures items[i].0 != items[j].0 {
        assert items[i].0 == Labels(cs)[i] && items[j].0 == Labels(cs)[j];
      }
    }
    FromItemsUnique(items);
  }


  // ---------------------------------------------------------------------------
  // Which triples are generated
  // ---------------------------------------------------------------------------

  /**
   * As `HIJACK_PROVIDER_END - HIJACK_PROVIDER_START` is 1, the loop nest makes
   * exactly one attempt per pair, with provider index 1.
   */
  lemma {:induction false} PairAttemptsAre(ps: seq<(string, string)>, provs: map<string, seq<nat>>)
    ensures |PairAttempts(ps, provs)| == |ps|
    ensures forall k :: 0 <= k < |ps| ==> PairAttempts(ps, provs)[k] == Configuration(ps[k].0, ps[k].1, HijackProviderStart, provs)
  {
    if |ps| > 0 {
      PairAttemptsAre(ps[1..], provs);
      assert IdxAttempts(ps[0].0, ps[0].1, provs, HijackProviderStart) == [Configuration(ps[0].0, ps[0].1, HijackProviderStart, provs)];
    }
  }

  /** Without repeated cities, the hijackers of `o` are the other cities, each once. */
  lemma {:induction false} OthersCount(o: string, hs: seq<string>)
    requires Distinct(hs)
    ensures Distinct(Others(o, hs))
    ensures |Others(o, hs)| == if o in hs then |hs| - 1 else |hs|
  {
    if |hs| > 0 {
      assert Distinct(hs[1..]) by {
        forall i, j | 0 <= i < j < |hs[1..]| ensures hs[1..][i] != hs[1..][j] {
          assert hs[1..][i] == hs[i + 1] && hs[1..][j] == hs[j + 1];
        }
      }
      OthersCount(o, hs[1..]);
      assert hs[0] !in hs[1..] by {
        forall k | 0 <= k < |hs[1..]| ensures hs[1..][k] != hs[0] {
          assert hs[1..][k] == hs[k + 1];
        }
      }
      assert o in hs && o != hs[0] ==> o in hs[1..];
    }
  }

  /** A concatenation of two repetition-free, disjoint sequences is repetition-free. */
  lemma DistinctConcat<T>(a: seq<T>, b: seq<T>)
    requires Distinct(a) && Distinct(b) && forall x :: x in a ==> x !in b
    ensures Distinct(a + b)
  {
    forall i, j | 0 <= i < j < |a + b| ensures (a + b)[i] != (a + b)[j] {
      if i < |a| && j >= |a| {
        assert (a + b)[i] in a && (a + b)[j] == b[j - |a|];
      }
    }
  }

  /** One origin's block has no repeated pair and one pair per other city. */
  lemma BlockDistinct(o: string, cities: seq<string>)
    requires Distinct(cities)
    ensures Distinct(Block(o, cities))
    ensures |Block(o, cities)| == if o in cities then |cities| - 1 else |cities|
  {
    OthersCount(o, cities);
  }

  /**
   * Without repeated cities, the loop nest visits each ordered pair of
   * distinct cities once: n - 1 hijackers for each of the origins.
   */
  lemma PairsDistinct(os: seq<string>, cities: seq<string>)
    requires Distinct(os) && Distinct(cities) && forall k :: 0 <= k < |os| ==> os[k] in cities
    ensures Distinct(Pairs(os, cities))
    ensures |Pairs(os, cities)| == |os| * (|cities| - 1)
  {
    PairsNoRepeat(os, cities);
    PairsCount(os, cities);
  }

  /** Without repeated cities or origins, no pair is visited twice. */
  lemma {:induction false} PairsNoRepeat(os: seq<string>, cities: seq<string>)
    requires Distinct(os) && Distinct(cities)
    ensures Distinct(Pairs(os, cities))
  {
    if |os| > 0 {
      var block := Block(os[0], cities);
      assert forall k :: 0 <= k < |os[1..]| ==> os[1..][k] == os[k + 1];
      assert os[0] !in os[1..];
      PairsNoRepeat(os[1..], cities);
      OthersCount(os[0], cities);
      DistinctConcat(block, Pairs(os[1..], cities));
    }
  }

  /** Each origin taken from the cities has one pair per other city. */
  lemma {:induction false} PairsCount(os: seq<string>, cities: seq<string>)
    requires Distinct(cities) && forall k :: 0 <= k < |os| ==> os[k] in cities
    ensures |Pairs(os, cities)| == |os| * (|cities| - 1)
  {
    if |os| > 0 {
      var rest := os[1..];
      assert forall k :: 0 <= k < |rest| ==> rest[k] == os[k + 1];
      PairsCount(rest, cities);
      OthersCount(os[0], cities);
      PairsLength(os, cities);
      MulStep(|rest|, |os|, |cities| - 1);
    }
  }

  /** The first origin contributes one pair per hijacker. */
  lemma PairsLength(os: seq<string>, cities: seq<string>)
    requires |os| > 0
    ensures |Pairs(os, cities)| == |Others(os[0], cities)| + |Pairs(os[1..], cities)|
  {
  }

  /** One more row of `n`. */
  lemma MulStep(a: nat, b: nat, n: int)
    requires b == a + 1
    ensures b * n == a * n + n
  {
  }

  // ---------------------------------------------------------------------------
  // Labels are distinct
  // ---------------------------------------------------------------------------

  /** The label, as the base and the four `_`-separated fields after it. */
  lemma LabelFields(o: string, h: string, prov: nat, idx: nat)
    ensures Label(o, h, prov, idx) ==
      LabelBase + "_" + Join("_", [o, h, "as" + NatToString(prov), "idx" + NatToString(idx)])
  {
    var a, i := "as" + NatToString(prov), "idx" + NatToString(idx);
    assert Join("_", [i]) == i;
    assert Join("_", [a, i]) == a + "_" + i;
    assert Join("_", [h, a, i]) == h + "_" + Join("_", [a, i]);
    assert Join("_", [o, h, a, i]) == o + "_" + Join("_", [h, a, i]);
  }

  /** A field made of a word and a number has no underscore. */
  lemma NumberField(w: string, n: nat)
    requires Lacks(w, '_')
    ensures Lacks(w + NatToString(n), '_')
  {
    var d := NatToString(n);
    assert forall k :: 0 <= k < |d| ==> IsDigit(d[k]);
  }

  /** The fields of a label, with origin, hijacker, provider and index in order. */
  function Fields(o: string, h: string, prov: nat, idx: nat): seq<string> {
    [o, h, "as" + NatToString(prov), "idx" + NatToString(idx)]
  }

  /** Equal labels have equal field lists, when the cities have no underscore. */
  lemma SameFields(o: string, h: string, prov: nat, idx: nat, o': string, h': string, prov': nat, idx': nat)
    requires Lacks(o, '_') && Lacks(h, '_') && Lacks(o', '_') && Lacks(h', '_')
    requires Label(o, h, prov, idx) == Label(o', h', prov', idx')
    ensures Fields(o, h, prov, idx) == Fields(o', h', prov', idx')
  {
    var parts, parts' := Fields(o, h, prov, idx), Fields(o', h', prov', idx');
    LabelFields(o, h, prov, idx);
    LabelFields(o', h', prov', idx');
    var n := |LabelBase + "_"|;
    assert Join("_", parts) == Label(o, h, prov, idx)[n..];
    assert Join("_", parts') == Label(o', h', prov', idx')[n..];
    NumberField("as", prov);
    NumberField("idx", idx);
    NumberField("as", prov');
    NumberField("idx", idx');
    SplitOnJoin(parts, '_');
    SplitOnJoin(parts', '_');
  }

  /** `str` is injective on naturals, also behind a fixed word. */
  lemma NumberFieldInjective(w: string, n: nat, n': nat)
    requires w + NatToString(n) == w + NatToString(n')
    ensures n == n'
  {
    assert NatToString(n) == (w + NatToString(n))[|w|..];
    assert NatToString(n') == (w + NatToString(n'))[|w|..];
    DigitsValueOfNatToString(n);
    DigitsValueOfNatToString(n');
  }

  /**
   * Two labels over cities without underscores are equal only when origin,
   * hijacker, provider and index all agree.
   */
  lemma LabelInjective(o: string, h: string, prov: nat, idx: nat, o': string, h': string, prov': nat, idx': nat)
    requires Lacks(o, '_') && Lacks(h, '_') && Lacks(o', '_') && Lacks(h', '_')
    requires Label(o, h, prov, idx) == Label(o', h', prov', idx')
    ensures o == o' && h == h' && prov == prov' && idx == idx'
  {
    SameFields(o, h, prov, idx, o', h', prov', idx');
    assert Fields(o, h, prov, idx)[2] == Fields(o', h', prov', idx')[2];
    assert Fields(o, h, prov, idx)[3] == Fields(o', h', prov', idx')[3];
    NumberFieldInjective("as", prov, prov');
    NumberFieldInjective("idx", idx, idx');
  }

  // ---------------------------------------------------------------------------
  // The deployed configuration set
  // ---------------------------------------------------------------------------

  /** `MUX2PFX` inverts `PFX2MUX`: its keys are the egress muxes, in the same order. */
  lemma CitiesArePfx2MuxMuxes()
    ensures |Cities| == |Pfx2Mux| && forall k :: 0 <= k < |Cities| ==> Cities[k] == Pfx2Mux[k].1
  {
  }

  /** The deployed cities are distinct, free of underscores and all have providers. */
  lemma DeployedCities()
    ensures Distinct(Cities)
    ensures forall k :: 0 <= k < |Cities| ==> Lacks(Cities[k], '_') && Cities[k] in Mux2Provs && |Mux2Provs[Cities[k]]| > 0
  {
  }

  /** Cities fit for the generator: no repeats, no underscores, every one with providers. */
  predicate GoodCities(cities: seq<string>, provs: map<string, seq<nat>>) {
    Distinct(cities)
    && forall k :: 0 <= k < |cities| ==> Lacks(cities[k], '_') && cities[k] in provs && |provs[cities[k]]| > 0
  }

  /**
   * Over good cities, `generate_configurations` succeeds with n(n-1)
   * configurations under distinct labels, one per ordered pair of distinct
   * cities, in loop order, each hijacking through the provider at index 1 of
   * the hijacker's list.
   */
  lemma {:induction false} GenerateSpec(cities: seq<string>, provs: map<string, seq<nat>>)
    requires GoodCities(cities, provs)
    ensures var r := GenerateConfigurations(cities, provs);
      var ps := Pairs(cities, cities);
      && r.Ok? && |r.value| == |ps| == |cities| * (|cities| - 1) && Distinct(Labels(r.value))
      && (forall k :: 0 <= k < |ps| ==>
            (ps[k].0 != ps[k].1 && Ok(r.value[k]) == Configuration(ps[k].0, ps[k].1, HijackProviderStart, provs)))
  {
    var ps := Pairs(cities, cities);
    PairsDistinct(cities, cities);
    PairAttemptsAre(ps, provs);
    var rs := PairAttempts(ps, provs);
    forall k | 0 <= k < |rs| ensures rs[k].Ok? {
      assert ps[k] in ps;
    }
    var cs := Collect(rs).value;
    forall k | 0 <= k < |ps| ensures ps[k].0 != ps[k].1 && Ok(cs[k]) == Configuration(ps[k].0, ps[k].1, HijackProviderStart, provs) {
      assert ps[k] in ps;
    }
    ConfigurationLabelsDistinct(cities, provs, cs);
    ToDictDistinct(cs);
  }

  /** One configuration per pair of distinct good cities gives distinct labels. */
  lemma ConfigurationLabelsDistinct(cities: seq<string>, provs: map<string, seq<nat>>, cs: seq<Config>)
    requires GoodCities(cities, provs)
    requires |cs| == |Pairs(cities, cities)|
    requires forall k :: 0 <= k < |cs| ==>
      var ps := Pairs(cities, cities);
      ps[k].0 != ps[k].1 && Ok(cs[k]) == Configuration(ps[k].0, ps[k].1, HijackProviderStart, provs)
    ensures Distinct(Labels(cs))
  {
    var ps := Pairs(cities, cities);
    PairsDistinct(cities, cities);
    forall i, j | 0 <= i < j < |cs| ensures Labels(cs)[i] != Labels(cs)[j] {
      assert ps[i] in ps && ps[j] in ps;
      var h, h' := ps[i].1, ps[j].1;
      var p := HijackProvider(provs, h, HijackProviderStart).value;
      var p' := HijackProvider(provs, h', HijackProviderStart).value;
      if Labels(cs)[i] == Labels(cs)[j] {
        LabelInjective(ps[i].0, h, p, HijackProviderStart, ps[j].0, h', p', HijackProviderStart);
      }
    }
  }

  /** With the deployed constants there are 6 * 5 = 30 configurations. */
  lemma DeployedConfigurations()
    ensures var r := GenerateConfigurations(Cities, Mux2Provs);
      r.Ok? && |r.value| == 30 && Distinct(Labels(r.value))
  {
    DeployedCities();
    GenerateSpec(Cities, Mux2Provs);
  }

  // ---------------------------------------------------------------------------
  // Dealing configurations to prefixes
  // ---------------------------------------------------------------------------

  /** The announcement that keeps reverse-path filtering from dropping replies at the egress. */
  function AvoidRpfAnnouncement(egress: string): Announcement {
    Announcement({egress}, [], [(VultrAsn, 6000)], [])
  }

  /** Some announcement of the update includes the mux. */
  predicate HasEgressRoute(u: Update, egress: string) {
    exists k :: 0 <= k < |u.announce| && egress in u.announce[k].muxes
  }

  /**
   * The RPF guard: an update that reaches the egress mux is untouched;
   * otherwise one announcement to the egress with (20473, 6000) is appended.
   * Afterwards every update reaches its egress.
   */
  function AvoidRpf(u: Update, egress: string): (v: Update)
    ensures HasEgressRoute(v, egress)
    ensures HasEgressRoute(u, egress) ==> v == u
    ensures v.withdraw == u.withdraw && v.description == u.description
    ensures |v.announce| == |u.announce| + (if HasEgressRoute(u, egress) then 0 else 1)
    ensures v.announce[..|u.announce|] == u.announce
    ensures !HasEgressRoute(u, egress) ==>
      v.announce[|u.announce|] == Announcement({egress}, [], [(VultrAsn, 6000)], [])
  {
    if HasEgressRoute(u, egress) then u
    else
      var v := u.(announce := u.announce + [AvoidRpfAnnouncement(egress)]);
      assert egress in v.announce[|u.announce|].muxes;
      v
  }

  /** Applying the guard twice changes nothing more. */
  lemma AvoidRpfIdempotent(u: Update, egress: string)
    ensures AvoidRpf(AvoidRpf(u, egress), egress) == AvoidRpf(u, egress)
  {
  }

  /**
   * A generated configuration reaches the egress exactly when the egress is
   * its origin or its hijacker, so the guard appends only for other egresses.
   */
  lemma GeneratedEgress(o: string, h: string, idx: nat, provs: map<string, seq<nat>>, egress: string)
    requires Configuration(o, h, idx, provs).Ok?
    ensures HasEgressRoute(Configuration(o, h, idx, provs).value.update, egress) <==> egress == o || egress == h
  {
    var u := Configuration(o, h, idx, provs).value.update;
    if egress == o {
      assert egress in u.announce[0].muxes;
    } else if egress == h {
      assert egress in u.announce[1].muxes;
    }
  }

  /** A prefix with its label and its (guarded) update. */
  datatype Slot = Slot(prefix: string, name: string, update: Update)

  /** One round: the configurations given out to the first prefixes of `pfx2mux`, in order. */
  function Round(pfx2mux: seq<(string, string)>, cs: seq<Config>): (r: seq<Slot>)
    requires |cs| <= |pfx2mux|
    ensures |r| == |cs|
    ensures forall j :: 0 <= j < |r| ==>
      r[j] == Slot(pfx2mux[j].0, cs[j].name, AvoidRpf(cs[j].update, pfx2mux[j].1))
  {
    seq(|cs|, j requires 0 <= j < |cs| => Slot(pfx2mux[j].0, cs[j].name, AvoidRpf(cs[j].update, pfx2mux[j].1)))
  }

  /**
   * The main loop's rounds: each takes the next configurations, one per
   * prefix, and the loop stops after the round in which they run out, so the
   * last round is partial, and empty when the count is a multiple of the
   * number of prefixes.
   */
  function Rounds(pfx2mux: seq<(string, string)>, cs: seq<Config>): (rs: seq<seq<Slot>>)
    requires |pfx2mux| > 0
    ensures |rs| > 0
    decreases |cs|
  {
    if |cs| < |pfx2mux| then [Round(pfx2mux, cs)]
    else [Round(pfx2mux, cs[..|pfx2mux|])] + Rounds(pfx2mux, cs[|pfx2mux|..])
  }

  /** The slots of all rounds, in order. */
  function Flatten(rs: seq<seq<Slot>>): seq<Slot> {
    if |rs| == 0 then [] else rs[0] + Flatten(rs[1..])
  }

  /**
   * Every configuration is deployed exactly once, in order: the labels of all
   * rounds are the configuration labels. Every round but the last is full and
   * the last is not.
   */
  lemma {:induction false} RoundsDeal(pfx2mux: seq<(string, string)>, cs: seq<Config>)
    requires |pfx2mux| > 0
    ensures var rs := Rounds(pfx2mux, cs);
      && Labels'(Flatten(rs)) == Labels(cs)
      && (forall r :: 0 <= r < |rs| - 1 ==> |rs[r]| == |pfx2mux|)
      && |rs[|rs| - 1]| < |pfx2mux|
    decreases |cs|
  {
    var rs := Rounds(pfx2mux, cs);
    if |cs| < |pfx2mux| {
      assert Flatten(rs) == rs[0] + Flatten([]);
    } else {
      var rest := cs[|pfx2mux|..];
      RoundsDeal(pfx2mux, rest);
      assert rs[1..] == Rounds(pfx2mux, rest);
      assert Labels(cs) == Labels(cs[..|pfx2mux|]) + Labels(rest);
      LabelsAppend(rs[0], Flatten(rs[1..]));
    }
  }

  /**
   * With q * |pfx2mux| + m configurations (m < |pfx2mux|) the loop runs q + 1
   * rounds and the last holds m of them: an empty round when m is 0.
   */
  lemma {:induction false} RoundsCount(pfx2mux: seq<(string, string)>, cs: seq<Config>, q: nat, m: nat)
    requires |pfx2mux| > 0 && m < |pfx2mux| && |cs| == q * |pfx2mux| + m
    ensures |Rounds(pfx2mux, cs)| == q + 1
    ensures |Rounds(pfx2mux, cs)[q]| == m
  {
    if q > 0 {
      assert |cs[|pfx2mux|..]| == (q - 1) * |pfx2mux| + m;
      RoundsCount(pfx2mux, cs[|pfx2mux|..], q - 1, m);
    }
  }

  /** Thirty configurations over the six prefixes fill five rounds, and a sixth, empty round follows. */
  lemma ThirtyRounds(cs: seq<Config>)
    requires |cs| == 30
    ensures |Rounds(Pfx2Mux, cs)| == 6 && Rounds(Pfx2Mux, cs)[5] == []
  {
    assert |Pfx2Mux| == 6;
    RoundsCount(Pfx2Mux, cs, 5, 0);
  }

  /** The deployed configurations therefore end with an empty round. */
  lemma DeployedRounds()
    ensures var r := GenerateConfigurations(Cities, Mux2Provs);
      r.Ok? && |Rounds(Pfx2Mux, r.value)| == 6 && Rounds(Pfx2Mux, r.value)[5] == []
  {
    DeployedConfigurations();
    ThirtyRounds(GenerateConfigurations(Cities, Mux2Provs).value);
  }

  /** The labels of slots. */
  function Labels'(ss: seq<Slot>): seq<string> {
    seq(|ss|, k requires 0 <= k < |ss| => ss[k].name)
  }

  lemma LabelsAppend(a: seq<Slot>, b: seq<Slot>)
    ensures Labels'(a + b) == Labels'(a) + Labels'(b)
  {
  }

  // ---------------------------------------------------------------------------
  // Reverse traceroutes after each round
  // ---------------------------------------------------------------------------

  /** One `revtr.multibatch` call: the mux, the label of its prefix and the prefix's third octet. */
  datatype Batch = Batch(mux: string, name: string, octet: nat)

  /** `f"{pfx2label[MUX2PFX[mux]]}_{octet}"`, the label the batch is submitted under. */
  function BatchLabel(b: Batch): string {
    b.name + "_" + NatToString(b.octet)
  }

  /** `pfx2label` after a round: `pfx2label[prefix] = label` for each slot in turn. */
  function Pfx2Label(round: seq<Slot>): map<string, string>
    decreases |round|
  {
    if |round| == 0 then map[]
    else Pfx2Label(round[..|round| - 1])[round[|round| - 1].prefix := round[|round| - 1].name]
  }

  /** The batches submitted after a round, and the exception that ended the loop, if any. */
  datatype RevtrRun = RevtrRun(batches: seq<Batch>, failure: Option<Error>)

  /**
   * The revtr loop as written, from the `j`-th mux of `MUX2VPIP` on. Its muxes
   * are the egress muxes of `PFX2MUX` in order, and `MUX2PFX` maps each back
   * to its prefix. The label of that prefix is looked up in `pfx2label`; the
   * first prefix the round left unlabelled raises KeyError, after the batches
   * of the muxes before it were submitted. `octet` is the third byte of the
   * prefix's network address.
   */
  function RevtrLoop(pfx2mux: seq<(string, string)>, pfx2label: map<string, string>, octet: string -> nat, j: nat): RevtrRun
    requires j <= |pfx2mux|
    decreases |pfx2mux| - j
  {
    if j == |pfx2mux| then RevtrRun([], None)
    else
      var prefix := pfx2mux[j].0;
      if prefix !in pfx2label then RevtrRun([], Some(KeyError(prefix)))
      else
        var rest := RevtrLoop(pfx2mux, pfx2label, octet, j + 1);
        RevtrRun([Batch(pfx2mux[j].1, pfx2label[prefix], octet(prefix))] + rest.batches, rest.failure)
  }

  /** The revtr loop with the lookup guarded: a mux whose prefix got no configuration is skipped. */
  function RevtrIntended(pfx2mux: seq<(string, string)>, pfx2label: map<string, string>, octet: string -> nat, j: nat): seq<Batch>
    requires j <= |pfx2mux|
    decreases |pfx2mux| - j
  {
    if j == |pfx2mux| then []
    else
      var prefix := pfx2mux[j].0;
      (if prefix in pfx2label then [Batch(pfx2mux[j].1, pfx2label[prefix], octet(prefix))] else [])
      + RevtrIntended(pfx2mux, pfx2label, octet, j + 1)
  }

  predicate PrefixesDistinct(pfx2mux: seq<(string, string)>) {
    forall i, j :: 0 <= i < j < |pfx2mux| ==> pfx2mux[i].0 != pfx2mux[j].0
  }

  /** A round's slots carry the first prefixes of `pfx2mux`, in order. */
  predicate RoundOf(pfx2mux: seq<(string, string)>, round: seq<Slot>) {
    |round| <= |pfx2mux| && forall j :: 0 <= j < |round| ==> round[j].prefix == pfx2mux[j].0
  }

  /** After a round, exactly the prefixes it handed out are labelled, each with its configuration's label. */
  lemma {:induction false} Pfx2LabelOfRound(pfx2mux: seq<(string, string)>, round: seq<Slot>)
    requires PrefixesDistinct(pfx2mux) && RoundOf(pfx2mux, round)
    ensures forall j :: 0 <= j < |pfx2mux| ==> (pfx2mux[j].0 in Pfx2Label(round) <==> j < |round|)
    ensures forall j :: 0 <= j < |round| ==> Pfx2Label(round)[pfx2mux[j].0] == round[j].name
    decreases |round|
  {
    if |round| > 0 {
      Pfx2LabelOfRound(pfx2mux, round[..|round| - 1]);
    }
  }

  /**
   * From mux `j` on, the loop as written submits one batch per labelled prefix
   * up to the round's length, then fails on the first unlabelled prefix, if
   * the round left one.
   */
  lemma {:induction false} RevtrLoopFrom(pfx2mux: seq<(string, string)>, round: seq<Slot>, octet: string -> nat, j: nat)
    requires PrefixesDistinct(pfx2mux) && RoundOf(pfx2mux, round) && j <= |round|
    ensures var run := RevtrLoop(pfx2mux, Pfx2Label(round), octet, j);
      && |run.batches| == |round| - j
      && (forall i :: j <= i < |round| ==> run.batches[i - j] == Batch(pfx2mux[i].1, round[i].name, octet(pfx2mux[i].0)))
      && run.failure == if |round| < |pfx2mux| then Some(KeyError(pfx2mux[|round|].0)) else None
    decreases |round| - j
  {
    Pfx2LabelOfRound(pfx2mux, round);
    if j < |round| {
      RevtrLoopFrom(pfx2mux, round, octet, j + 1);
    }
  }

  /**
   * After a round of the main loop, the revtr loop as written submits one
   * batch per configuration of the round, under its label, and then raises
   * KeyError exactly when the round was not full, at the first prefix the
   * round did not reach.
   */
  lemma RevtrAfterRound(pfx2mux: seq<(string, string)>, cs: seq<Config>, octet: string -> nat)
    requires PrefixesDistinct(pfx2mux) && |cs| <= |pfx2mux|
    ensures var run := RevtrLoop(pfx2mux, Pfx2Label(Round(pfx2mux, cs)), octet, 0);
      && |run.batches| == |cs|
      && (forall j :: 0 <= j < |cs| ==> run.batches[j] == Batch(pfx2mux[j].1, cs[j].name, octet(pfx2mux[j].0)))
      && (run.failure.None? <==> |cs| == |pfx2mux|)
      && (|cs| < |pfx2mux| ==> run.failure == Some(KeyError(pfx2mux[|cs|].0)))
  {
    var round := Round(pfx2mux, cs);
    assert RoundOf(pfx2mux, round);
    RevtrLoopFrom(pfx2mux, round, octet, 0);
    var run := RevtrLoop(pfx2mux, Pfx2Label(round), octet, 0);
    forall j | 0 <= j < |cs| ensures run.batches[j] == Batch(pfx2mux[j].1, cs[j].name, octet(pfx2mux[j].0)) {
      assert run.batches[j - 0] == Batch(pfx2mux[j].1, round[j].name, octet(pfx2mux[j].0));
    }
  }

  /** Every round the main loop deals carries the first prefixes of `pfx2mux`. */
  lemma {:induction false} RoundsAreRounds(pfx2mux: seq<(string, string)>, cs: seq<Config>)
    requires |pfx2mux| > 0
    ensures forall i :: 0 <= i < |Rounds(pfx2mux, cs)| ==> RoundOf(pfx2mux, Rounds(pfx2mux, cs)[i])
    decreases |cs|
  {
    if |cs| >= |pfx2mux| {
      RoundsAreRounds(pfx2mux, cs[|pfx2mux|..]);
    }
  }

  /**
   * The main loop always ends in KeyError: its last round is never full
   * (RoundsDeal), so the revtr loop after it looks up a prefix that round did
   * not label, whatever the configurations.
   */
  lemma EveryRunEndsInKeyError(pfx2mux: seq<(string, string)>, cs: seq<Config>, octet: string -> nat)
    requires |pfx2mux| > 0 && PrefixesDistinct(pfx2mux)
    ensures var rs := Rounds(pfx2mux, cs); var last := rs[|rs| - 1];
      |last| < |pfx2mux| && RevtrLoop(pfx2mux, Pfx2Label(last), octet, 0).failure == Some(KeyError(pfx2mux[|last|].0))
  {
    var rs := Rounds(pfx2mux, cs);
    RoundsDeal(pfx2mux, cs);
    RoundsAreRounds(pfx2mux, cs);
    RevtrLoopFrom(pfx2mux, rs[|rs| - 1], octet, 0);
  }

  /** With the deployed constants the sixth round is empty: no batch is submitted and the first prefix raises KeyError. */
  lemma DeployedRevtrFails(octet: string -> nat)
    ensures var r := GenerateConfigurations(Cities, Mux2Provs);
      && r.Ok?
      && |Rounds(Pfx2Mux, r.value)| == 6
      && RevtrLoop(Pfx2Mux, Pfx2Label(Rounds(Pfx2Mux, r.value)[5]), octet, 0) == RevtrRun([], Some(KeyError(Pfx2Mux[0].0)))
  {
    DeployedRounds();
    EmptyRoundFails(Pfx2Mux, octet);
  }

  /** After an empty round no prefix is labelled: the first lookup fails. */
  lemma EmptyRoundFails(pfx2mux: seq<(string, string)>, octet: string -> nat)
    requires |pfx2mux| > 0
    ensures RevtrLoop(pfx2mux, Pfx2Label([]), octet, 0) == RevtrRun([], Some(KeyError(pfx2mux[0].0)))
  {
  }

  /** From mux `j` on, the guarded loop submits exactly one batch per slot of the round, in order. */
  lemma {:induction false} RevtrIntendedFrom(pfx2mux: seq<(string, string)>, round: seq<Slot>, octet: string -> nat, j: nat)
    requires PrefixesDistinct(pfx2mux) && RoundOf(pfx2mux, round) && j <= |pfx2mux|
    ensures var bs := RevtrIntended(pfx2mux, Pfx2Label(round), octet, j);
      && |bs| == (if j <= |round| then |round| - j else 0)
      && (forall i :: j <= i < |round| ==> bs[i - j] == Batch(pfx2mux[i].1, round[i].name, octet(pfx2mux[i].0)))
    decreases |pfx2mux| - j
  {
    Pfx2LabelOfRound(pfx2mux, round);
    if j < |pfx2mux| {
      RevtrIntendedFrom(pfx2mux, round, octet, j + 1);
    }
  }

  /** The batches of the guarded loop after each round, concatenated. */
  function AllIntended(pfx2mux: seq<(string, string)>, rs: seq<seq<Slot>>, octet: string -> nat): seq<Batch> {
    if |rs| == 0 then [] else RevtrIntended(pfx2mux, Pfx2Label(rs[0]), octet, 0) + AllIntended(pfx2mux, rs[1..], octet)
  }

  function Names(bs: seq<Batch>): seq<string> {
    seq(|bs|, k requires 0 <= k < |bs| => bs[k].name)
  }

  lemma {:induction false} AllIntendedNames(pfx2mux: seq<(string, string)>, rs: seq<seq<Slot>>, octet: string -> nat)
    requires PrefixesDistinct(pfx2mux)
    requires forall i :: 0 <= i < |rs| ==> RoundOf(pfx2mux, rs[i])
    ensures Names(AllIntended(pfx2mux, rs, octet)) == Labels'(Flatten(rs))
  {
    if |rs| > 0 {
      AllIntendedNames(pfx2mux, rs[1..], octet);
      RevtrIntendedFrom(pfx2mux, rs[0], octet, 0);
      var bs := RevtrIntended(pfx2mux, Pfx2Label(rs[0]), octet, 0);
      assert Names(bs) == Labels'(rs[0]);
      assert Names(bs + AllIntended(pfx2mux, rs[1..], octet)) == Names(bs) + Names(AllIntended(pfx2mux, rs[1..], octet));
      LabelsAppend(rs[0], Flatten(rs[1..]));
    }
  }

  /**
   * With the lookup guarded, the loop never fails and, over all rounds, every
   * configuration is measured exactly once, in order.
   */
  lemma RevtrIntendedCovers(pfx2mux: seq<(string, string)>, cs: seq<Config>, octet: string -> nat)
    requires |pfx2mux| > 0 && PrefixesDistinct(pfx2mux)
    ensures Names(AllIntended(pfx2mux, Rounds(pfx2mux, cs), octet)) == Labels(cs)
  {
    RoundsDeal(pfx2mux, cs);
    RoundsAreRounds(pfx2mux, cs);
    AllIntendedNames(pfx2mux, Rounds(pfx2mux, cs), octet);
  }
}
