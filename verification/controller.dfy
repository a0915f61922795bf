/**
 * The pure decisions of the large-scale experiment controller: which
 * mux a prefix egresses through, the rule priority and source address
 * derived from the prefix, and how the generated updates are dealt out
 * to the prefixes round by round. Deploying, sleeping, measuring and
 * writing the round directories are outside the model.
 */
module Controller {
  import opened Wrappers
  import opened Text
  import opened Peering
  import opened Phases

  /** An IPv4 network: a 32-bit address and a prefix length. */
  datatype Network = Network(addr: nat, len: nat)

  function Pow2(n: nat): (p: nat)
    ensures p >= 1
  {
    if n == 0 then 1 else 2 * Pow2(n - 1)
  }

  /** What `IPv4Network` accepts with its default strict check: no host bits set. */
  predicate ValidNetwork(n: Network) {
    n.len <= 32 && n.addr < 4294967296 && n.addr % Pow2(32 - n.len) == 0
  }

  /** The four bytes of an address, most significant first (`packed`). */
  function Octets(addr: nat): (o: seq<nat>)
    ensures |o| == 4 && forall i :: 0 <= i < 4 ==> o[i] < 256
  {
    [(addr / 16777216) % 256, (addr / 65536) % 256, (addr / 256) % 256, addr % 256]
  }

  /** The address a.b.c.d. */
  function Quad(a: nat, b: nat, c: nat, d: nat): nat {
    a * 16777216 + b * 65536 + c * 256 + d
  }

  /** The bytes of a.b.c.d are a, b, c and d. */
  lemma OctetsOfQuad(a: nat, b: nat, c: nat, d: nat)
    requires a < 256 && b < 256 && c < 256 && d < 256
    ensures Octets(Quad(a, b, c, d)) == [a, b, c, d]
  {
    var x := Quad(a, b, c, d);
    assert x / 256 == a * 65536 + b * 256 + c;
    assert x / 65536 == a * 256 + b;
    assert x / 16777216 == a;
  }

  /** `list(network.hosts())[-1]`: the broadcast address minus one, or the broadcast itself for a /31 and the address for a /32. */
  function LastHost(n: Network): (h: nat)
    requires ValidNetwork(n)
    ensures n.addr <= h < n.addr + Pow2(32 - n.len)
    ensures n.len <= 30 ==> h == n.addr + Pow2(32 - n.len) - 2
  {
    if n.len == 32 then n.addr
    else if n.len == 31 then n.addr + 1
    else
      assert Pow2(32 - n.len) >= 4 by { Pow2Grows(32 - n.len); }
      n.addr + Pow2(32 - n.len) - 2
  }

  lemma {:induction false} Pow2Grows(k: nat)
    requires k >= 2
    ensures Pow2(k) >= 4
  {
    if k > 2 { Pow2Grows(k - 1); }
  }

  /** The /24 at 184.164.c.0. */
  function Slash24(c: nat): Network {
    Network(Quad(184, 164, c, 0), 24)
  }

  /** The third bytes of `defs.PREFIXES`, all of them /24s under 184.164.0.0/16. */
  const ThirdOctets: seq<nat> := [224, 225, 226, 227, 232, 233, 238, 239, 246, 247, 248, 249, 250, 251]

  /** `defs.PREFIXES`. */
  const Prefixes: seq<Network> := [
    Network(3097812992, 24), Network(3097813248, 24), Network(3097813504, 24), Network(3097813760, 24), Network(3097815040, 24),
    Network(3097815296, 24), Network(3097816576, 24), Network(3097816832, 24), Network(3097818624, 24), Network(3097818880, 24),
    Network(3097819136, 24), Network(3097819392, 24), Network(3097819648, 24), Network(3097819904, 24)]

  /** `defs.PREFIX_ID_BASE`. */
  const PrefixIdBase: nat := 14000

  /** `defs.EGRESS_PREFS`, best first. */
  const EgressPrefs: seq<string> := ["ufmg01", "uw01", "clemson01"]

  /** The rule priority (and ICMP id) of a prefix: the base plus the third byte. */
  function PrefixId(n: Network): nat {
    PrefixIdBase + Octets(n.addr)[2]
  }

  /** The source address of a prefix, as text. */
  function SourceIp(n: Network): string
    requires ValidNetwork(n)
  {
    Dotted(Octets(LastHost(n)))
  }

  /** For the deployed /24s, the priority is 14000 + c and the source is 184.164.c.254. */
  lemma Slash24Addresses(c: nat)
    requires c < 256
    ensures ValidNetwork(Slash24(c))
    ensures PrefixId(Slash24(c)) == 14000 + c
    ensures Octets(LastHost(Slash24(c))) == [184, 164, c, 254]
  {
    OctetsOfQuad(184, 164, c, 0);
    assert Pow2(8) == 256 by {
      assert Pow2(2) == 4;
      assert Pow2(4) == 2 * 2 * Pow2(2);
      assert Pow2(6) == 2 * 2 * Pow2(4);
    }
    assert LastHost(Slash24(c)) == Quad(184, 164, c, 254);
    OctetsOfQuad(184, 164, c, 254);
  }

  /** A round has one deployed prefix per update slot. */
  lemma PrefixCount()
    ensures |Prefixes| == RoundSize
  {
  }

  lemma PrefixesAre()
    ensures |Prefixes| == |ThirdOctets| == 14
    ensures forall i :: 0 <= i < |Prefixes| ==> Prefixes[i] == Slash24(ThirdOctets[i])
  {
  }

  lemma ThirdOctetsIncrease()
    ensures forall i, j :: 0 <= i < j < |ThirdOctets| ==> ThirdOctets[i] < ThirdOctets[j] < 256
  {
  }

  lemma PrefixIdsDistinct()
    ensures forall i :: 0 <= i < |Prefixes| ==> ValidNetwork(Prefixes[i]) && PrefixId(Prefixes[i]) < 30000
    ensures forall i, j :: 0 <= i < j < |Prefixes| ==> PrefixId(Prefixes[i]) != PrefixId(Prefixes[j])
  {
    PrefixesAre();
    ThirdOctetsIncrease();
    forall i | 0 <= i < |Prefixes|
      ensures ValidNetwork(Prefixes[i]) && PrefixId(Prefixes[i]) == 14000 + ThirdOctets[i]
    {
      Slash24Addresses(ThirdOctets[i]);
    }
  }

  // ---------------------------------------------------------------------------
  // Egress choice
  // ---------------------------------------------------------------------------

  /** The muxes of the announcements that carry neither peer ids nor communities. */
  function PlainMuxes(anns: seq<Announcement>): set<string> {
    if |anns| == 0 then {}
    else (if anns[0].peerIds == [] && anns[0].communities == [] then anns[0].muxes else {}) + PlainMuxes(anns[1..])
  }

  /** A mux the prefix may egress through: announced to everyone there and not withdrawn. */
  predicate Eligible(u: Update, m: string) {
    m in PlainMuxes(u.announce) && m !in u.withdraw
  }

  /** The position of the first eligible preference at or after `from`. */
  function FirstEligible(u: Update, prefs: seq<string>, from: nat): (r: Option<nat>)
    requires from <= |prefs|
    ensures r.Some? ==> from <= r.value < |prefs| && Eligible(u, prefs[r.value])
    ensures r.Some? ==> forall i :: from <= i < r.value ==> !Eligible(u, prefs[i])
    ensures r.None? ==> forall i :: from <= i < |prefs| ==> !Eligible(u, prefs[i])
    decreases |prefs| - from
  {
    if from == |prefs| then None
    else if Eligible(u, prefs[from]) then Some(from)
    else FirstEligible(u, prefs, from + 1)
  }

  /** The egress of one prefix in `set_egresses`: the first eligible preference, or the failed `assert muxes`. */
  function Egress(u: Update): (r: Result<string>)
    ensures r.Ok? ==> r.value in EgressPrefs && Eligible(u, r.value)
    ensures r.Ok? <==> exists i :: 0 <= i < |EgressPrefs| && Eligible(u, EgressPrefs[i])
    ensures r.Err? ==> r.error == AssertionError("muxes")
    ensures r.Ok? && r.value != EgressPrefs[0] ==> !Eligible(u, EgressPrefs[0])
    ensures r.Ok? && r.value == EgressPrefs[2] ==> !Eligible(u, EgressPrefs[1])
  {
    match FirstEligible(u, EgressPrefs, 0)
    case Some(i) => Ok(EgressPrefs[i])
    case None => Err(AssertionError("muxes"))
  }

  /** One `set_egress` call: priority, source address and mux. */
  datatype EgressRule = EgressRule(prio: nat, src: string, mux: string)

  /** `set_egresses` over a round's prefix assignment: one rule per prefix, or the first failed assertion. */
  function SetEgresses(pfx2upd: seq<(Network, Update)>): (r: Result<seq<EgressRule>>)
    requires forall k :: 0 <= k < |pfx2upd| ==> ValidNetwork(pfx2upd[k].0)
    ensures r.Ok? <==> forall k :: 0 <= k < |pfx2upd| ==> Egress(pfx2upd[k].1).Ok?
    ensures r.Ok? ==> |r.value| == |pfx2upd|
    ensures r.Ok? ==> forall k :: 0 <= k < |pfx2upd| ==>
      r.value[k] == EgressRule(PrefixId(pfx2upd[k].0), SourceIp(pfx2upd[k].0), Egress(pfx2upd[k].1).value)
  {
    if |pfx2upd| == 0 then Ok([])
    else
      var head := pfx2upd[0];
      match Egress(head.1)
      case Err(err) => Err(err)
      case Ok(mux) =>
        match SetEgresses(pfx2upd[1..])
        case Err(err) => Err(err)
        case Ok(rest) => Ok([EgressRule(PrefixId(head.0), SourceIp(head.0), mux)] + rest)
  }

  /** `src2mux`: the source address of each prefix mapped to its egress mux. */
  function SourceToMux(rules: seq<EgressRule>): (m: map<string, string>)
    ensures forall k :: 0 <= k < |rules| ==> rules[k].src in m
    ensures forall s :: s in m ==> exists k :: 0 <= k < |rules| && rules[k].src == s && m[s] == rules[k].mux
  {
    if |rules| == 0 then map[]
    else
      var last := rules[|rules| - 1];
      var m := SourceToMux(rules[..|rules| - 1]);
      assert forall k :: 0 <= k < |rules| - 1 ==> rules[..|rules| - 1][k] == rules[k];
      m[last.src := last.mux]
  }

  /** The anycast baseline egresses through ufmg01, the first preference, whenever ufmg01 is a mux. */
  lemma AnycastEgress(e: Env)
    requires "ufmg01" in e.muxes
    ensures Egress(Anycast(e)) == Ok("ufmg01")
  {
    var u := Anycast(e);
    assert u.announce[1..] == [];
    assert PlainMuxes(u.announce) == AllMuxes(e) + PlainMuxes([]);
    assert Eligible(u, EgressPrefs[0]);
  }

  /** A phase1a update egresses through the first preference it does not withdraw. */
  lemma WithdrawOneEgress(e: Env, m: string)
    requires forall i :: 0 <= i < |EgressPrefs| ==> EgressPrefs[i] in e.muxes
    ensures Egress(WithdrawOne(e, m)).Ok?
    ensures Egress(WithdrawOne(e, m)).value != m
    ensures m != "ufmg01" ==> Egress(WithdrawOne(e, m)) == Ok("ufmg01")
    ensures m == "ufmg01" ==> Egress(WithdrawOne(e, m)) == Ok("uw01")
  {
    var u := WithdrawOne(e, m);
    assert u.announce[1..] == [];
    assert PlainMuxes(u.announce) == (AllMuxes(e) - {m}) + PlainMuxes([]);
    assert EgressPrefs[0] in e.muxes && EgressPrefs[1] in e.muxes;
    assert Eligible(u, EgressPrefs[0]) || Eligible(u, EgressPrefs[1]);
  }

  /** A phase9 update unicast from a mux outside the preferences fails the egress assertion. */
  lemma UnicastEgressFails(m: string)
    requires m !in EgressPrefs
    ensures Egress(UnicastOne(m)) == Err(AssertionError("muxes"))
  {
    var u := UnicastOne(m);
    assert u.announce[1..] == [];
    assert PlainMuxes(u.announce) == {m} + PlainMuxes([]);
    assert forall i :: 0 <= i < |EgressPrefs| ==> !Eligible(u, EgressPrefs[i]);
  }

  /** Every phase10 update announces from the Vultr muxes only, with communities, so its egress assertion fails. */
  lemma VtrOnlyEgressFails(e: Env, provider: nat)
    ensures Egress(VtrOnly(e, provider)) == Err(AssertionError("muxes"))
  {
    var u := VtrOnly(e, provider);
    assert u.announce[1..] == [];
    assert u.announce[0].communities != [];
    assert PlainMuxes(u.announce) == {} + PlainMuxes([]);
  }

  // ---------------------------------------------------------------------------
  // Rounds
  // ---------------------------------------------------------------------------

  /** The number of prefixes, and so of updates in a full round. */
  const RoundSize: nat := 14

  /** One round: its index and the updates dealt to the prefixes, in prefix order. */
  datatype Round = Round(index: nat, pfx2upd: seq<(Network, Update)>)

  /** The first `|updates|` prefixes paired with the updates. */
  function Deal(ps: seq<Network>, updates: seq<Update>): (r: seq<(Network, Update)>)
    requires |updates| <= |ps|
    ensures |r| == |updates|
    ensures forall k :: 0 <= k < |r| ==> r[k] == (ps[k], updates[k])
  {
    seq(|updates|, k requires 0 <= k < |updates| => (ps[k], updates[k]))
  }

  /** The updates of the rounds, in order. */
  function DeployedUpdates(rounds: seq<Round>): seq<Update> {
    if |rounds| == 0 then []
    else
      var d := rounds[0].pfx2upd;
      seq(|d|, k requires 0 <= k < |d| => d[k].1) + DeployedUpdates(rounds[1..])
  }

  /** `itertools.islice(updates, start, None)`. */
  function Skip(updates: seq<Update>, start: nat): (r: seq<Update>)
    ensures |r| == if start <= |updates| then |updates| - start else 0
    ensures start <= |updates| ==> r == updates[start..]
  {
    if start <= |updates| then updates[start..] else []
  }

  /**
   * The rounds of `run_loop` over the updates left after skipping, with
   * prefixes `ps`: each round takes up to one update per prefix, and the
   * loop only stops on a round in which `next` runs dry — so a count
   * that is a multiple of the prefix count ends with an empty round.
   */
  function RoundsFrom(ps: seq<Network>, rest: seq<Update>, index: nat): (r: seq<Round>)
    requires |ps| == RoundSize
    ensures |r| == |rest| / |ps| + 1
    decreases |rest|
  {
    if |rest| < |ps| then
      [Round(index, Deal(ps, rest))]
    else
      [Round(index, Deal(ps, rest[..|ps|]))] + RoundsFrom(ps, rest[|ps|..], index + 1)
  }

  /** The updates of a round followed by further rounds. */
  lemma DeployedCons(first: Round, rounds: seq<Round>)
    ensures DeployedUpdates([first] + rounds)
      == seq(|first.pfx2upd|, k requires 0 <= k < |first.pfx2upd| => first.pfx2upd[k].1) + DeployedUpdates(rounds)
  {
    assert ([first] + rounds)[1..] == rounds;
  }

  /** The updates a dealt round carries are the dealt updates. */
  lemma DealtUpdates(ps: seq<Network>, updates: seq<Update>)
    requires |updates| <= |ps|
    ensures var d := Deal(ps, updates); seq(|d|, k requires 0 <= k < |d| => d[k].1) == updates
  {
  }

  /** `run_loop` deploys every remaining update exactly once, in order. */
  lemma {:induction false} RoundsFromDeploys(ps: seq<Network>, rest: seq<Update>, index: nat)
    requires |ps| == RoundSize
    ensures DeployedUpdates(RoundsFrom(ps, rest, index)) == rest
    decreases |rest|
  {
    if |rest| < RoundSize {
      DeployedCons(Round(index, Deal(ps, rest)), []);
      DealtUpdates(ps, rest);
    } else {
      RoundsFromDeploys(ps, rest[RoundSize..], index + 1);
      FromCons(ps, rest, index);
      DeployedCons(Round(index, Deal(ps, rest[..RoundSize])), RoundsFrom(ps, rest[RoundSize..], index + 1));
      DealtUpdates(ps, rest[..RoundSize]);
      assert rest == rest[..RoundSize] + rest[RoundSize..];
    }
  }

  /** The rounds of `run_loop` are numbered on from `index`. */
  lemma {:induction false} RoundsFromIndices(ps: seq<Network>, rest: seq<Update>, index: nat)
    requires |ps| == RoundSize
    ensures var r := RoundsFrom(ps, rest, index); forall i :: 0 <= i < |r| ==> r[i].index == index + i
    decreases |rest|
  {
    if |rest| >= RoundSize {
      RoundsFromIndices(ps, rest[RoundSize..], index + 1);
      FromCons(ps, rest, index);
    }
  }

  /** Every round of `run_loop` but the last is full. */
  lemma {:induction false} RoundsFromFull(ps: seq<Network>, rest: seq<Update>, index: nat)
    requires |ps| == RoundSize
    ensures var r := RoundsFrom(ps, rest, index); forall i :: 0 <= i < |r| - 1 ==> |r[i].pfx2upd| == RoundSize
    decreases |rest|
  {
    if |rest| >= RoundSize {
      RoundsFromFull(ps, rest[RoundSize..], index + 1);
      FromCons(ps, rest, index);
    }
  }

  /** The last round of `run_loop` holds the remainder, possibly none. */
  lemma {:induction false} RoundsFromLast(ps: seq<Network>, rest: seq<Update>, index: nat)
    requires |ps| == RoundSize
    ensures var r := RoundsFrom(ps, rest, index); |r[|r| - 1].pfx2upd| == |rest| % RoundSize
    decreases |rest|
  {
    if |rest| >= RoundSize {
      RoundsFromLast(ps, rest[RoundSize..], index + 1);
      RoundsFromTail(ps, rest, index);
      assert (|rest| - RoundSize) % RoundSize == |rest| % RoundSize;
    }
  }

  /** The k-th update of every round of `run_loop` goes to the k-th prefix. */
  lemma {:induction false} RoundsFromPrefixes(ps: seq<Network>, rest: seq<Update>, index: nat)
    requires |ps| == RoundSize
    ensures var r := RoundsFrom(ps, rest, index);
      && (forall i :: 0 <= i < |r| ==> |r[i].pfx2upd| <= |ps|)
      && (forall i, k :: 0 <= i < |r| && 0 <= k < |r[i].pfx2upd| ==> r[i].pfx2upd[k].0 == ps[k])
    decreases |rest|
  {
    if |rest| >= RoundSize {
      RoundsFromPrefixes(ps, rest[RoundSize..], index + 1);
      FromCons(ps, rest, index);
    }
  }

  /**
   * The rounds of `run_loop` are numbered on from `index`; every round
   * but the last is full, the last holds the remainder (possibly none),
   * and the k-th update of a round goes to the k-th prefix.
   */
  lemma RoundsFromSizes(ps: seq<Network>, rest: seq<Update>, index: nat)
    requires |ps| == RoundSize
    ensures var r := RoundsFrom(ps, rest, index);
      && (forall i :: 0 <= i < |r| ==> r[i].index == index + i)
      && (forall i :: 0 <= i < |r| - 1 ==> |r[i].pfx2upd| == RoundSize)
      && |r[|r| - 1].pfx2upd| == |rest| % RoundSize
      && (forall i, k :: 0 <= i < |r| && 0 <= k < |r[i].pfx2upd| ==> r[i].pfx2upd[k].0 == ps[k])
  {
    RoundsFromIndices(ps, rest, index);
    RoundsFromFull(ps, rest, index);
    RoundsFromLast(ps, rest, index);
    RoundsFromPrefixes(ps, rest, index);
  }

  /** `run_loop(updates, first_round, ...)`, as the rounds it deploys. */
  function RunLoop(updates: seq<Update>, firstRound: nat): seq<Round> {
    PrefixCount();
    RoundsFrom(Prefixes, Skip(updates, firstRound * RoundSize), firstRound)
  }

  /** After a full round, the loop goes on as if started on the remaining updates with the next index. */
  lemma RoundsFromTail(ps: seq<Network>, rest: seq<Update>, index: nat)
    requires |ps| == RoundSize <= |rest|
    ensures RoundsFrom(ps, rest, index)[1..] == RoundsFrom(ps, rest[|ps|..], index + 1)
  {
    var first := Round(index, Deal(ps, rest[..|ps|]));
    assert RoundsFrom(ps, rest, index) == [first] + RoundsFrom(ps, rest[|ps|..], index + 1);
  }

  /** Restarting at round `f` deploys the same rounds as the uninterrupted loop from its `f`-th round on. */
  lemma {:induction false} ResumeAt(ps: seq<Network>, updates: seq<Update>, f: nat)
    requires |ps| == RoundSize && f * |ps| <= |updates|
    ensures RoundsFrom(ps, updates[f * |ps|..], f) == RoundsFrom(ps, updates, 0)[f..]
    decreases f
  {
    if f == 0 {
      assert updates[0..] == updates;
    } else {
      var p := |ps|;
      assert (f - 1) * p + p == f * p;
      ResumeAt(ps, updates, f - 1);
      var rest := updates[(f - 1) * p..];
      assert rest[p..] == updates[f * p..];
      RoundsFromTail(ps, rest, f - 1);
      assert RoundsFrom(ps, updates, 0)[f..] == RoundsFrom(ps, updates, 0)[f - 1..][1..];
    }
  }

  /** `run_loop` restarted at round `f` (within the updates) deploys the rounds of a run from round 0, from the `f`-th on. */
  lemma RunLoopResume(updates: seq<Update>, f: nat)
    requires f * RoundSize <= |updates|
    ensures f < |RunLoop(updates, 0)| && RunLoop(updates, f) == RunLoop(updates, 0)[f..]
  {
    PrefixCount();
    ResumeAt(Prefixes, updates, f);
    assert Skip(updates, 0) == updates;
  }

  /** The round count the phase scripts log: ceil(n / |ps|). */
  function IntendedRoundCount(n: nat, p: nat): nat
    requires p > 0
  {
    (n + p - 1) / p
  }

  /** When the update count is a positive multiple of the prefix count, `run_loop` deploys one round more than the scripts announce, and that round is empty. */
  lemma ExtraEmptyRound(updates: seq<Update>)
    requires |updates| > 0 && |updates| % RoundSize == 0
    ensures |RunLoop(updates, 0)| == IntendedRoundCount(|updates|, RoundSize) + 1
    ensures RunLoop(updates, 0)[|RunLoop(updates, 0)| - 1].pfx2upd == []
  {
    PrefixCount();
    assert Skip(updates, 0) == updates;
    RoundsFromSizes(Prefixes, updates, 0);
  }

  /** `run_loop` stopping as soon as the updates run out: ceil(n / |ps|) rounds, never an empty one. */
  function RoundsUntilDone(ps: seq<Network>, rest: seq<Update>, index: nat): (r: seq<Round>)
    requires |ps| == RoundSize
    ensures |r| == IntendedRoundCount(|rest|, |ps|)
    decreases |rest|
  {
    if |rest| == 0 then []
    else if |rest| <= |ps| then
      [Round(index, Deal(ps, rest))]
    else
      [Round(index, Deal(ps, rest[..|ps|]))] + RoundsUntilDone(ps, rest[|ps|..], index + 1)
  }

  /** The two loops agree on a tail shorter than a round, and on one exactly a round long up to the empty round. */
  lemma RoundsAgreeShort(ps: seq<Network>, rest: seq<Update>, index: nat)
    requires |ps| == RoundSize && |rest| <= RoundSize
    ensures 0 < |rest| < RoundSize ==> RoundsFrom(ps, rest, index) == RoundsUntilDone(ps, rest, index)
    ensures |rest| == 0 ==> RoundsFrom(ps, rest, index) == [Round(index, [])]
    ensures |rest| == RoundSize ==> RoundsFrom(ps, rest, index) == RoundsUntilDone(ps, rest, index) + [Round(index + 1, [])]
  {
    if |rest| == RoundSize {
      assert rest[RoundSize..] == [] && rest[..RoundSize] == rest;
      assert RoundsFrom(ps, rest[RoundSize..], index + 1) == [Round(index + 1, Deal(ps, []))];
    } else if |rest| == 0 {
      assert Deal(ps, rest) == [];
    }
  }

  /** A round of the stopping loop followed by the rest, when more than a round is left. */
  lemma UntilDoneCons(ps: seq<Network>, rest: seq<Update>, index: nat)
    requires |ps| == RoundSize < |rest|
    ensures RoundsUntilDone(ps, rest, index)
      == [Round(index, Deal(ps, rest[..RoundSize]))] + RoundsUntilDone(ps, rest[RoundSize..], index + 1)
  {
  }

  /** A round of `run_loop` followed by the rest, when at least a round is left. */
  lemma FromCons(ps: seq<Network>, rest: seq<Update>, index: nat)
    requires |ps| == RoundSize <= |rest|
    ensures RoundsFrom(ps, rest, index)
      == [Round(index, Deal(ps, rest[..RoundSize]))] + RoundsFrom(ps, rest[RoundSize..], index + 1)
  {
  }

  /** The empty round `run_loop` adds after a tail of `n` updates starting at round `index`, if any. */
  function EmptyTail(n: nat, index: nat): seq<Round> {
    if n % RoundSize == 0 then [Round(index + n / RoundSize, [])] else []
  }

  lemma EmptyTailStep(n: nat, index: nat)
    requires n >= RoundSize
    ensures EmptyTail(n - RoundSize, index + 1) == EmptyTail(n, index)
  {
    assert (n - RoundSize) % RoundSize == n % RoundSize;
    assert (n - RoundSize) / RoundSize + 1 == n / RoundSize;
  }

  lemma ConsAppend<T>(x: T, a: seq<T>, b: seq<T>, c: seq<T>)
    requires a == b + c
    ensures [x] + a == ([x] + b) + c
  {
  }

  /** The stopping loop deploys every remaining update exactly once, in order. */
  lemma {:induction false} RoundsUntilDoneDeploys(ps: seq<Network>, rest: seq<Update>, index: nat)
    requires |ps| == RoundSize
    ensures DeployedUpdates(RoundsUntilDone(ps, rest, index)) == rest
    decreases |rest|
  {
    if |rest| == 0 {
    } else if |rest| <= RoundSize {
      DeployedCons(Round(index, Deal(ps, rest)), []);
      DealtUpdates(ps, rest);
    } else {
      RoundsUntilDoneDeploys(ps, rest[RoundSize..], index + 1);
      UntilDoneCons(ps, rest, index);
      DeployedCons(Round(index, Deal(ps, rest[..RoundSize])), RoundsUntilDone(ps, rest[RoundSize..], index + 1));
      DealtUpdates(ps, rest[..RoundSize]);
      assert rest == rest[..RoundSize] + rest[RoundSize..];
    }
  }

  /** The stopping loop never deploys an empty round. */
  lemma {:induction false} RoundsUntilDoneNonEmpty(ps: seq<Network>, rest: seq<Update>, index: nat)
    requires |ps| == RoundSize
    ensures var r := RoundsUntilDone(ps, rest, index);
      forall i :: 0 <= i < |r| ==> r[i].index == index + i && 0 < |r[i].pfx2upd| <= RoundSize
    decreases |rest|
  {
    if |rest| > RoundSize {
      RoundsUntilDoneNonEmpty(ps, rest[RoundSize..], index + 1);
      UntilDoneCons(ps, rest, index);
    }
  }

  /** The two loops agree on every round but the empty final one. */
  lemma {:induction false} RoundsAgree(ps: seq<Network>, rest: seq<Update>, index: nat)
    requires |ps| == RoundSize
    ensures RoundsFrom(ps, rest, index) == RoundsUntilDone(ps, rest, index) + EmptyTail(|rest|, index)
    decreases |rest|
  {
    if |rest| <= RoundSize {
      RoundsAgreeShort(ps, rest, index);
    } else {
      var tail := rest[RoundSize..];
      RoundsAgree(ps, tail, index + 1);
      FromCons(ps, rest, index);
      UntilDoneCons(ps, rest, index);
      EmptyTailStep(|rest|, index);
      ConsAppend(Round(index, Deal(ps, rest[..RoundSize])), RoundsFrom(ps, tail, index + 1),
        RoundsUntilDone(ps, tail, index + 1), EmptyTail(|rest|, index));
    }
  }
}
