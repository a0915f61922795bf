/**
 * The update generators of the large-scale catchment experiments
 * (`phase1a` ... `phase10`). Each returns the anycast baseline followed
 * by one update per configuration; most updates split the muxes into a
 * withdrawn part and announced parts, which the model states as a
 * partition: every mux is withdrawn or announced exactly once.
 *
 * The names the generators import from `peering` but which that module
 * does not define (`PeeringCommunities.announce_to`, `MUX_SETS`,
 * `Vultr.communities_prepend_thrice`) are parameters, gathered in `Env`
 * together with the mux enumeration, the IXP peer table and the Vultr
 * providers.
 */
module Phases {
  import opened Wrappers
  import opened Text
  import opened Peering

  /** `AS_PATH_PREPEND_LIST`: three copies of the PEERING ASN. */
  const AsPathPrependList: seq<nat> := [47065, 47065, 47065]

  /** `defs.VULTR_PROVIDERS`. */
  const VultrProviders: seq<nat> := [174, 1299, 2914, 3257, 3356, 3491, 4755, 7922, 9498]

  /** One IXP peer group: mux, ASN and the peer ids to announce to. */
  type IxpPeer = (string, nat, seq<nat>)

  /** A named mux set of `MUX_SETS`: description and muxes. */
  type MuxSet = (string, seq<string>)

  /** What the generators read from their environment. */
  datatype Env = Env(
    muxes: seq<string>,
    ixp: seq<IxpPeer>,
    providers: seq<nat>,
    muxSets: seq<MuxSet>,
    announceTo: nat -> (nat, nat),
    prependThrice: seq<nat> -> seq<(nat, nat)>)

  /** The environment the deployed generators run in, up to the parameters `peering` does not define. */
  predicate Deployed(e: Env) {
    e.muxes == MuxNames && e.ixp == IxpSpecialPeersV4 && e.providers == VultrProviders
  }

  // ---------------------------------------------------------------------------
  // Coverage of the muxes by an update
  // ---------------------------------------------------------------------------

  /** How many of the announcements include mux `m`. */
  function Covering(anns: seq<Announcement>, m: string): nat {
    if |anns| == 0 then 0 else (if m in anns[0].muxes then 1 else 0) + Covering(anns[1..], m)
  }

  /** How many times the update withdraws or announces mux `m`. */
  function Cover(u: Update, m: string): nat {
    (if m in u.withdraw then 1 else 0) + Covering(u.announce, m)
  }

  /** The muxes some announcement of the update includes. */
  function Announced(anns: seq<Announcement>): set<string> {
    if |anns| == 0 then {} else anns[0].muxes + Announced(anns[1..])
  }

  /** Every mux of `all` is withdrawn or announced exactly once, and no other mux appears. */
  ghost predicate Partitions(u: Update, all: set<string>) {
    forall m :: Cover(u, m) == if m in all then 1 else 0
  }

  /** The elements of a list, as a set. */
  function Elems(ms: seq<string>): set<string> {
    set m | m in ms
  }

  function AllMuxes(e: Env): set<string> {
    Elems(e.muxes)
  }

  predicate IsVtr(m: string) {
    StartsWith(m, "vtr")
  }

  function VtrMuxes(e: Env): set<string> {
    set m | m in e.muxes && IsVtr(m)
  }

  function NonVtrMuxes(e: Env): set<string> {
    set m | m in e.muxes && !IsVtr(m)
  }

  /**
   * `nonvtr_muxes`: the non-Vultr muxes, one each. The source builds it from
   * `set(MuxName)`, whose iteration order is not fixed; here it is the order of `ms`.
   */
  function NonVtrList(ms: seq<string>): (r: seq<string>)
    ensures forall m :: m in r <==> m in ms && !IsVtr(m)
    ensures |r| <= |ms|
  {
    if |ms| == 0 then []
    else (if IsVtr(ms[0]) then [] else [ms[0]]) + NonVtrList(ms[1..])
  }

  // ---------------------------------------------------------------------------
  // Iteration shapes: nested loops and pairs
  // ---------------------------------------------------------------------------

  /** A loop over `xs` with a loop over `ys` inside it. */
  function Product<A, B>(xs: seq<A>, ys: seq<B>): (r: seq<(A, B)>)
    ensures |r| == |xs| * |ys|
    ensures forall k :: 0 <= k < |r| ==> r[k].0 in xs && r[k].1 in ys
    ensures forall x, y :: x in xs && y in ys ==> (x, y) in r
  {
    if |xs| == 0 then []
    else
      var head := seq(|ys|, j requires 0 <= j < |ys| => (xs[0], ys[j]));
      var tail := Product(xs[1..], ys);
      assert forall y :: y in ys ==> (xs[0], y) in head by {
        forall y | y in ys ensures (xs[0], y) in head {
          var j :| 0 <= j < |ys| && ys[j] == y;
          assert head[j] == (xs[0], y);
        }
      }
      assert forall x :: x in xs ==> x == xs[0] || x in xs[1..] by {
        forall x | x in xs ensures x == xs[0] || x in xs[1..] {
          var i :| 0 <= i < |xs| && xs[i] == x;
          if i > 0 { assert xs[1..][i - 1] == x; }
        }
      }
      assert |xs| * |ys| == |ys| + (|xs| - 1) * |ys|;
      head + tail
  }

  /** How many pairs `Pairs` draws from `n` items: n - 1 with the first, then those of the rest. */
  function PairCount(n: nat): nat {
    if n == 0 then 0 else (n - 1) + PairCount(n - 1)
  }

  /** The number of 2-combinations of `n` items is n(n-1)/2. */
  lemma {:induction false} PairCountClosed(n: nat)
    ensures 2 * PairCount(n) == n * (n - 1)
  {
    if n > 0 {
      PairCountClosed(n - 1);
      assert 2 * (n - 1) + (n - 1) * (n - 2) == n * (n - 1);
    }
  }

  /** Where a nested loop visits `(xs[i], ys[j])`. */
  lemma {:induction false} ProductAt<A, B>(xs: seq<A>, ys: seq<B>, i: nat, j: nat) returns (n: nat)
    requires i < |xs| && j < |ys|
    ensures n < |Product(xs, ys)| && Product(xs, ys)[n] == (xs[i], ys[j])
  {
    var head := seq(|ys|, k requires 0 <= k < |ys| => (xs[0], ys[k]));
    assert Product(xs, ys) == head + Product(xs[1..], ys);
    if i == 0 {
      n := j;
    } else {
      var m := ProductAt(xs[1..], ys, i - 1, j);
      n := |ys| + m;
    }
  }

  /** `itertools.combinations(xs, 2)`: every (xs[i], xs[j]) with i < j, in lexicographic order of (i, j). */
  function Pairs<T>(xs: seq<T>): (r: seq<(T, T)>)
    ensures |r| == PairCount(|xs|)
    ensures forall k :: 0 <= k < |r| ==> r[k].0 in xs && r[k].1 in xs
  {
    if |xs| == 0 then []
    else
      var head := seq(|xs| - 1, j requires 0 <= j < |xs| - 1 => (xs[0], xs[j + 1]));
      var tail := Pairs(xs[1..]);
      assert forall k :: 0 <= k < |tail| ==> tail[k].0 in xs && tail[k].1 in xs by {
        assert forall x :: x in xs[1..] ==> x in xs;
      }
      head + tail
  }

  /** Every pair of distinct positions appears in `Pairs`, earlier position first. */
  lemma {:induction false} PairsHas<T>(xs: seq<T>, i: nat, j: nat) returns (n: nat)
    requires i < j < |xs|
    ensures n < |Pairs(xs)| && Pairs(xs)[n] == (xs[i], xs[j])
    decreases i
  {
    var head := seq(|xs| - 1, k requires 0 <= k < |xs| - 1 => (xs[0], xs[k + 1]));
    assert Pairs(xs) == head + Pairs(xs[1..]);
    if i == 0 {
      n := j - 1;
      assert head[j - 1] == (xs[0], xs[j]);
    } else {
      var m := PairsHas(xs[1..], i - 1, j - 1);
      n := |head| + m;
    }
  }

  /** Of a list without repetitions, `Pairs` holds two different elements in each pair. */
  lemma {:induction false} PairsDistinct<T>(xs: seq<T>)
    requires forall i, j :: 0 <= i < j < |xs| ==> xs[i] != xs[j]
    ensures forall k :: 0 <= k < |Pairs(xs)| ==> Pairs(xs)[k].0 != Pairs(xs)[k].1
  {
    if |xs| > 0 {
      var head := seq(|xs| - 1, k requires 0 <= k < |xs| - 1 => (xs[0], xs[k + 1]));
      assert Pairs(xs) == head + Pairs(xs[1..]);
      PairsDistinct(xs[1..]);
      forall k | 0 <= k < |head| ensures head[k].0 != head[k].1 {
        assert head[k] == (xs[0], xs[k + 1]);
      }
    }
  }

  /** The (mux, mux set) pairs a `continue` on `mux1 in muxes` lets through, in loop order. */
  function Uncovered(ps: seq<(string, MuxSet)>): (r: seq<(string, MuxSet)>)
    ensures |r| <= |ps|
    ensures forall p :: p in r <==> p in ps && p.0 !in p.1.1
  {
    if |ps| == 0 then []
    else (if ps[0].0 in ps[0].1.1 then [] else [ps[0]]) + Uncovered(ps[1..])
  }

  // ---------------------------------------------------------------------------
  // Announcement pieces
  // ---------------------------------------------------------------------------

  /** `[PeeringCommunities.announce_to(pid) for pid in peerids]`. */
  function PeerCommunities(e: Env, pids: seq<nat>): seq<(nat, nat)> {
    seq(|pids|, i requires 0 <= i < |pids| => e.announceTo(pids[i]))
  }

  /** The announcement at an IXP mux restricted to the group's peers. */
  function ViaPeers(e: Env, p: IxpPeer, prepend: seq<nat>): Announcement {
    Announcement({p.0}, [], PeerCommunities(e, p.2), prepend)
  }

  /** The announcement at every Vultr mux with the given communities. */
  function VtrAnnouncement(e: Env, communities: seq<(nat, nat)>): Announcement {
    Announcement(VtrMuxes(e), [], communities, [])
  }

  /** `','.join(str(p) for p in peerids)`. */
  function PeerIdsText(pids: seq<nat>): string {
    Join(",", seq(|pids|, i requires 0 <= i < |pids| => NatToString(pids[i])))
  }

  /** The first update of every phase: anycast from every mux. */
  function Anycast(e: Env): (u: Update)
    ensures u.withdraw == {} && Announced(u.announce) == AllMuxes(e)
    ensures Partitions(u, AllMuxes(e))
  {
    var u := Update({}, [Plain(AllMuxes(e))], Some("anycast"));
    Partition1(u.withdraw, u.announce[0], u.description, AllMuxes(e));
    u
  }

  /** Coverage of a two-announcement update, spelled out. */
  lemma Cover2(w: set<string>, a: Announcement, b: Announcement, d: Option<string>, m: string)
    ensures Cover(Update(w, [a, b], d), m)
      == (if m in w then 1 else 0) + (if m in a.muxes then 1 else 0) + (if m in b.muxes then 1 else 0)
    ensures Announced([a, b]) == a.muxes + b.muxes
  {
    assert [a, b][1..] == [b];
    Cover1(w, b, d, m);
    assert Covering([a, b], m) == (if m in a.muxes then 1 else 0) + Covering([b], m);
  }

  /** Coverage of a one-announcement update, spelled out. */
  lemma Cover1(w: set<string>, a: Announcement, d: Option<string>, m: string)
    ensures Cover(Update(w, [a], d), m) == (if m in w then 1 else 0) + (if m in a.muxes then 1 else 0)
    ensures Announced([a]) == a.muxes
  {
    assert [a][1..] == [];
    assert Covering([a], m) == (if m in a.muxes then 1 else 0) + Covering([], m);
    assert Announced([a]) == a.muxes + Announced([]);
  }

  /** Coverage of a three-announcement update, spelled out. */
  lemma Cover3(w: set<string>, a: Announcement, b: Announcement, c: Announcement, d: Option<string>, m: string)
    ensures Cover(Update(w, [a, b, c], d), m)
      == (if m in w then 1 else 0) + (if m in a.muxes then 1 else 0) + (if m in b.muxes then 1 else 0)
         + (if m in c.muxes then 1 else 0)
    ensures Announced([a, b, c]) == a.muxes + b.muxes + c.muxes
  {
    assert [a, b, c][1..] == [b, c];
    Cover2(w, b, c, d, m);
    assert Covering([a, b, c], m) == (if m in a.muxes then 1 else 0) + Covering([b, c], m);
  }

  /** A withdrawn set and one announced set that are disjoint and together make up `all` partition it. */
  lemma Partition1(w: set<string>, a: Announcement, d: Option<string>, all: set<string>)
    requires w !! a.muxes && w + a.muxes == all
    ensures Partitions(Update(w, [a], d), all)
  {
    forall x ensures Cover(Update(w, [a], d), x) == if x in all then 1 else 0 {
      Cover1(w, a, d, x);
    }
  }

  /** Withdrawn and announced sets that are pairwise disjoint and together make up `all` partition it. */
  lemma Partition2(w: set<string>, a: Announcement, b: Announcement, d: Option<string>, all: set<string>)
    requires w !! a.muxes && w !! b.muxes && a.muxes !! b.muxes && w + a.muxes + b.muxes == all
    ensures Partitions(Update(w, [a, b], d), all)
  {
    forall x ensures Cover(Update(w, [a, b], d), x) == if x in all then 1 else 0 {
      Cover2(w, a, b, d, x);
    }
  }

  /** Withdrawn and announced sets that are pairwise disjoint and together make up `all` partition it. */
  lemma Partition3(w: set<string>, a: Announcement, b: Announcement, c: Announcement, d: Option<string>,
                   all: set<string>)
    requires w !! a.muxes && w !! b.muxes && w !! c.muxes
    requires a.muxes !! b.muxes && a.muxes !! c.muxes && b.muxes !! c.muxes
    requires w + a.muxes + b.muxes + c.muxes == all
    ensures Partitions(Update(w, [a, b, c], d), all)
  {
    forall x ensures Cover(Update(w, [a, b, c], d), x) == if x in all then 1 else 0 {
      Cover3(w, a, b, c, d, x);
    }
  }

  /** Every mux is a Vultr mux or a non-Vultr mux, never both. */
  lemma VtrOrNot(e: Env)
    ensures VtrMuxes(e) + NonVtrMuxes(e) == AllMuxes(e) && VtrMuxes(e) !! NonVtrMuxes(e)
  {
  }

  // ---------------------------------------------------------------------------
  // One update per configuration
  // ---------------------------------------------------------------------------

  /** phase1a: withdraw one mux, anycast from the rest. */
  function WithdrawOne(e: Env, m: string): (u: Update)
    ensures |u.announce| == 1
    ensures u.withdraw == {m}
    ensures m in AllMuxes(e) ==> Partitions(u, AllMuxes(e))
  {
    var u := Update({m}, [Plain(AllMuxes(e) - {m})], Some("anycast+withdraw:" + m));
    if m in AllMuxes(e) then
      Partition1(u.withdraw, u.announce[0], u.description, AllMuxes(e));
      u
    else u
  }

  /** phase1b: at one IXP mux announce only to one peer group, anycast from the other muxes. */
  function RestrictToPeers(e: Env, p: IxpPeer): (u: Update)
    ensures |u.announce| == 2
    ensures u.withdraw == {}
    ensures p.0 in AllMuxes(e) ==> Partitions(u, AllMuxes(e))
    ensures u.announce[0].muxes == {p.0} && u.announce[0].communities == PeerCommunities(e, p.2)
  {
    var u := Update({}, [ViaPeers(e, p, []), Plain(AllMuxes(e) - {p.0})],
      Some("anycast+withdraw:" + p.0 + "+announce:" + PeerIdsText(p.2)));
    if p.0 in AllMuxes(e) then
      Partition2(u.withdraw, u.announce[0], u.announce[1], u.description, AllMuxes(e));
      u
    else u
  }

  /** phase1_muxsets: withdraw a named mux set, anycast from the rest. */
  function WithdrawSet(e: Env, s: MuxSet): (u: Update)
    ensures |u.announce| == 1
    ensures u.withdraw == Elems(s.1)
    ensures Elems(s.1) <= AllMuxes(e) ==> Partitions(u, AllMuxes(e))
  {
    var u := Update(Elems(s.1), [Plain(AllMuxes(e) - Elems(s.1))], Some("anycast+withdraw:" + s.0));
    if Elems(s.1) <= AllMuxes(e) then
      Partition1(u.withdraw, u.announce[0], u.description, AllMuxes(e));
      u
    else u
  }

  /** phase2a: prepend at one mux, plain anycast from the rest. */
  function PrependOne(e: Env, m: string): (u: Update)
    ensures |u.announce| == 2
    ensures u.withdraw == {}
    ensures m in AllMuxes(e) ==> Partitions(u, AllMuxes(e))
    ensures u.announce[0].muxes == {m} && u.announce[0].prepend == AsPathPrependList
    ensures u.announce[1].prepend == []
  {
    var u := Update({}, [Announcement({m}, [], [], AsPathPrependList), Plain(AllMuxes(e) - {m})],
      Some("anycast+prepend:" + m));
    if m in AllMuxes(e) then
      Partition2(u.withdraw, u.announce[0], u.announce[1], u.description, AllMuxes(e));
      u
    else u
  }

  /** phase2b: prepend towards one peer group of an IXP mux, anycast from the other muxes. */
  function PrependToPeers(e: Env, p: IxpPeer): (u: Update)
    ensures |u.announce| == 2
    ensures u.withdraw == {}
    ensures p.0 in AllMuxes(e) ==> Partitions(u, AllMuxes(e))
    ensures u.announce[0].muxes == {p.0} && u.announce[0].prepend == AsPathPrependList
    ensures u.announce[0].communities == PeerCommunities(e, p.2)
  {
    var u := Update({}, [ViaPeers(e, p, AsPathPrependList), Plain(AllMuxes(e) - {p.0})],
      Some("anycast+withdraw:" + p.0 + "+prepend:" + PeerIdsText(p.2)));
    if p.0 in AllMuxes(e) then
      Partition2(u.withdraw, u.announce[0], u.announce[1], u.description, AllMuxes(e));
      u
    else u
  }

  /** phase2_muxsets: plain anycast from the muxes outside a named set, prepended from the set. */
  function PrependSet(e: Env, s: MuxSet): (u: Update)
    ensures |u.announce| == 2
    ensures u.withdraw == {}
    ensures Elems(s.1) <= AllMuxes(e) ==> Partitions(u, AllMuxes(e))
    ensures u.announce[1].muxes == Elems(s.1) && u.announce[1].prepend == AsPathPrependList
  {
    var u := Update({}, [Plain(AllMuxes(e) - Elems(s.1)), Announcement(Elems(s.1), [], [], AsPathPrependList)],
      Some("anycast+prepend:" + s.0));
    if Elems(s.1) <= AllMuxes(e) then
      Partition2(u.withdraw, u.announce[0], u.announce[1], u.description, AllMuxes(e));
      u
    else u
  }

  /** phases 3 and 4: plain anycast from the non-Vultr muxes, Vultr muxes with communities. */
  function VtrSplit(e: Env, communities: seq<(nat, nat)>, description: string): (u: Update)
    ensures |u.announce| == 2
    ensures u.withdraw == {} && Partitions(u, AllMuxes(e))
    ensures u.announce[0].muxes == NonVtrMuxes(e) && u.announce[1].muxes == VtrMuxes(e)
    ensures u.announce[1].communities == communities
  {
    var u := Update({}, [Plain(NonVtrMuxes(e)), VtrAnnouncement(e, communities)], Some(description));
    Partition2(u.withdraw, u.announce[0], u.announce[1], u.description, AllMuxes(e));
    u
  }

  /** phase3: Vultr does not announce to one provider. */
  function VtrNoAnnounce(e: Env, provider: nat): (u: Update)
    ensures |u.announce| == 2
    ensures u.withdraw == {} && Partitions(u, AllMuxes(e))
    ensures u.announce[1].muxes == VtrMuxes(e)
    ensures Targets(u.announce[1].communities, 64600) == [provider]
  {
    CommunitiesNameUpstreams([provider]);
    VtrSplit(e, CommunitiesDoNotAnnounce([provider]), "anycast+withdraw:vtr" + NatToString(provider))
  }

  /** phase4: Vultr prepends three times towards one provider. */
  function VtrPrepend(e: Env, provider: nat): (u: Update)
    ensures |u.announce| == 2
    ensures u.withdraw == {} && Partitions(u, AllMuxes(e))
    ensures u.announce[1].muxes == VtrMuxes(e)
    ensures u.announce[1].communities == e.prependThrice([provider])
  {
    VtrSplit(e, e.prependThrice([provider]), "anycast+prepend:vtr" + NatToString(provider))
  }

  /** phase5a: withdraw two muxes, anycast from the rest. */
  function WithdrawPair(e: Env, m1: string, m2: string): (u: Update)
    ensures |u.announce| == 1
    ensures u.withdraw == {m1, m2}
    ensures m1 in AllMuxes(e) && m2 in AllMuxes(e) ==> Partitions(u, AllMuxes(e))
  {
    var u := Update({m1, m2}, [Plain(AllMuxes(e) - {m1, m2})], Some("anycast+withdraw:" + m1 + "," + m2));
    if m1 in AllMuxes(e) && m2 in AllMuxes(e) then
      Partition1(u.withdraw, u.announce[0], u.description, AllMuxes(e));
      u
    else u
  }

  /**
   * phase5b as written: withdraw `m1`, announce at the IXP mux only to
   * the peer group, and anycast from every mux but `m1` — which includes
   * the IXP mux again.
   */
  function WithdrawThenPeers(e: Env, m1: string, p: IxpPeer): (u: Update)
    ensures |u.announce| == 2
    ensures u.withdraw == {m1}
    ensures u.announce[0] == ViaPeers(e, p, [])
    ensures u.announce[1].muxes == AllMuxes(e) - {m1}
  {
    Update({m1}, [ViaPeers(e, p, []), Plain(AllMuxes(e) - {m1})],
      Some("anycast+withdraw:" + m1 + "," + p.0 + "+announce:" + PeerIdsText(p.2)))
  }

  /** As written, the IXP mux of a phase5b update is announced twice: once to its peer group and once to everyone. */
  lemma WithdrawThenPeersDoubles(e: Env, m1: string, p: IxpPeer)
    requires p.0 in AllMuxes(e) && p.0 != m1
    ensures Cover(WithdrawThenPeers(e, m1, p), p.0) == 2
    ensures !Partitions(WithdrawThenPeers(e, m1, p), AllMuxes(e))
  {
    var u := WithdrawThenPeers(e, m1, p);
    Cover2(u.withdraw, u.announce[0], u.announce[1], u.description, p.0);
  }

  /**
   * phase5b as its description says: withdraw `m1` and the IXP mux,
   * except towards the peer group, and anycast from the rest.
   */
  function WithdrawBothThenPeers(e: Env, m1: string, p: IxpPeer): (u: Update)
    ensures |u.announce| == 2
    ensures u.withdraw == {m1}
    ensures u.announce[0] == ViaPeers(e, p, [])
    ensures m1 in AllMuxes(e) && p.0 in AllMuxes(e) && m1 != p.0 ==> Partitions(u, AllMuxes(e))
  {
    var u := Update({m1}, [ViaPeers(e, p, []), Plain(AllMuxes(e) - {m1, p.0})],
      Some("anycast+withdraw:" + m1 + "," + p.0 + "+announce:" + PeerIdsText(p.2)));
    if m1 in AllMuxes(e) && p.0 in AllMuxes(e) && m1 != p.0 then
      Partition2(u.withdraw, u.announce[0], u.announce[1], u.description, AllMuxes(e));
      u
    else u
  }

  /** phase5_muxsets: withdraw one mux and a named set that does not contain it, anycast from the rest. */
  function WithdrawOneAndSet(e: Env, m1: string, s: MuxSet): (u: Update)
    ensures |u.announce| == 1
    ensures u.withdraw == {m1} + Elems(s.1)
    ensures m1 in AllMuxes(e) && Elems(s.1) <= AllMuxes(e) ==> Partitions(u, AllMuxes(e))
  {
    var w := {m1} + Elems(s.1);
    var u := Update(w, [Plain(AllMuxes(e) - w)], Some("anycast+withdraw:" + m1 + "," + s.0));
    if w <= AllMuxes(e) then
      Partition1(u.withdraw, u.announce[0], u.description, AllMuxes(e));
      u
    else u
  }

  /** phase6a: withdraw one non-Vultr mux; Vultr does not announce to one provider. */
  function WithdrawNonVtr(e: Env, provider: nat, m: string): (u: Update)
    ensures |u.announce| == 2
    ensures u.withdraw == {m}
    ensures m in NonVtrMuxes(e) ==> Partitions(u, AllMuxes(e))
    ensures u.announce[1].muxes == VtrMuxes(e)
    ensures Targets(u.announce[1].communities, 64600) == [provider]
  {
    CommunitiesNameUpstreams([provider]);
    var u := Update({m}, [Plain(NonVtrMuxes(e) - {m}), VtrAnnouncement(e, CommunitiesDoNotAnnounce([provider]))],
      Some("anycast+withdraw:" + m + ",vtr" + NatToString(provider)));
    if m in NonVtrMuxes(e) then
      VtrOrNot(e);
      Partition2(u.withdraw, u.announce[0], u.announce[1], u.description, AllMuxes(e));
      u
    else u
  }

  /** The description of a phase6b update. */
  function NonVtrViaPeersText(provider: nat, p: IxpPeer): string {
    "anycast+withdraw:" + p.0 + ",vtr" + NatToString(provider) + "+announce:" + PeerIdsText(p.2)
  }

  /** phase6b: one IXP mux announces only to a peer group; Vultr does not announce to one provider. */
  function NonVtrViaPeers(e: Env, provider: nat, p: IxpPeer): (u: Update)
    ensures |u.announce| == 3
    ensures u.withdraw == {}
    ensures p.0 in NonVtrMuxes(e) ==> Partitions(u, AllMuxes(e))
    ensures u.announce[0].muxes == VtrMuxes(e)
    ensures Targets(u.announce[0].communities, 64600) == [provider]
    ensures u.announce[2] == ViaPeers(e, p, [])
  {
    CommunitiesNameUpstreams([provider]);
    var u := Update({}, [VtrAnnouncement(e, CommunitiesDoNotAnnounce([provider])), Plain(NonVtrMuxes(e) - {p.0}),
        ViaPeers(e, p, [])],
      Some(NonVtrViaPeersText(provider, p)));
    if p.0 in NonVtrMuxes(e) then
      VtrOrNot(e);
      Partition3(u.withdraw, u.announce[0], u.announce[1], u.announce[2], u.description, AllMuxes(e));
      u
    else u
  }

  /** phase7a: unicast from two muxes. */
  function UnicastPair(m1: string, m2: string): (u: Update)
    ensures |u.announce| == 1
    ensures u.withdraw == {} && Announced(u.announce) == {m1, m2}
  {
    var u := Update({}, [Plain({m1, m2})], Some("unicast:" + m1 + "," + m2));
    Cover1(u.withdraw, u.announce[0], u.description, m1);
    u
  }

  /** phase7b: unicast from one mux and from an IXP mux towards one peer group. */
  function UnicastViaPeers(e: Env, m1: string, p: IxpPeer): (u: Update)
    ensures |u.announce| == 2
    ensures u.withdraw == {} && Announced(u.announce) == {p.0, m1}
    ensures u.announce[0] == ViaPeers(e, p, [])
  {
    var u := Update({}, [ViaPeers(e, p, []), Plain({m1})], Some("unicast:" + m1 + "," + p.0 + "+" + PeerIdsText(p.2)));
    Cover2(u.withdraw, u.announce[0], u.announce[1], u.description, m1);
    u
  }

  /** phase7_muxsets: unicast from a named set. */
  function UnicastSet(s: MuxSet): (u: Update)
    ensures |u.announce| == 1
    ensures u.withdraw == {} && Announced(u.announce) == Elems(s.1)
  {
    var u := Update({}, [Plain(Elems(s.1))], Some("unicast:" + s.0));
    Cover1(u.withdraw, u.announce[0], u.description, s.0);
    u
  }

  /** phase7_muxsets_unicast: unicast from one mux and, separately, from a named set without it. */
  function UnicastOneAndSet(m1: string, s: MuxSet): (u: Update)
    ensures |u.announce| == 2
    ensures u.withdraw == {} && Announced(u.announce) == {m1} + Elems(s.1)
    ensures m1 !in s.1 ==> u.announce[0].muxes !! u.announce[1].muxes
  {
    var u := Update({}, [Plain({m1}), Plain(Elems(s.1))], Some("unicast:" + m1 + "," + s.0));
    Cover2(u.withdraw, u.announce[0], u.announce[1], u.description, m1);
    u
  }

  /** phase8a: unicast from one non-Vultr mux; Vultr announces only to one provider. */
  function UnicastWithVtr(e: Env, provider: nat, m: string): (u: Update)
    ensures |u.announce| == 2
    ensures u.withdraw == {} && Announced(u.announce) == {m} + VtrMuxes(e)
    ensures Targets(u.announce[1].communities, 64699) == [provider]
    ensures u.announce[1].communities[0] == (VultrAsn, 6000)
  {
    CommunitiesNameUpstreams([provider]);
    var u := Update({}, [Plain({m}), VtrAnnouncement(e, CommunitiesAnnounceToUpstreams([provider]))],
      Some("unicast:" + m + "+vtr" + NatToString(provider)));
    Cover2(u.withdraw, u.announce[0], u.announce[1], u.description, m);
    u
  }

  /** phase8b: an IXP mux towards one peer group; Vultr announces only to one provider. */
  function PeersWithVtr(e: Env, provider: nat, p: IxpPeer): (u: Update)
    ensures |u.announce| == 2
    ensures u.withdraw == {} && Announced(u.announce) == VtrMuxes(e) + {p.0}
    ensures Targets(u.announce[0].communities, 64699) == [provider]
    ensures u.announce[1] == ViaPeers(e, p, [])
  {
    CommunitiesNameUpstreams([provider]);
    var u := Update({}, [VtrAnnouncement(e, CommunitiesAnnounceToUpstreams([provider])), ViaPeers(e, p, [])],
      Some("unicast:" + p.0 + "+announce:" + PeerIdsText(p.2)));
    Cover2(u.withdraw, u.announce[0], u.announce[1], u.description, p.0);
    u
  }

  /** phase9: unicast from one mux. */
  function UnicastOne(m: string): (u: Update)
    ensures |u.announce| == 1
    ensures u.withdraw == {} && Announced(u.announce) == {m}
    ensures Partitions(u, {m})
  {
    var u := Update({}, [Plain({m})], Some("unicast:" + m));
    Partition1(u.withdraw, u.announce[0], u.description, {m});
    u
  }

  /** phase10: the Vultr muxes alone, announcing only to one provider. */
  function VtrOnly(e: Env, provider: nat): (u: Update)
    ensures |u.announce| == 1
    ensures u.withdraw == {} && Announced(u.announce) == VtrMuxes(e)
    ensures Targets(u.announce[0].communities, 64699) == [provider]
  {
    CommunitiesNameUpstreams([provider]);
    var u := Update({}, [VtrAnnouncement(e, CommunitiesAnnounceToUpstreams([provider]))],
      Some("unicast:vtr" + NatToString(provider)));
    Cover1(u.withdraw, u.announce[0], u.description, "");
    u
  }

  // ---------------------------------------------------------------------------
  // The generators
  // ---------------------------------------------------------------------------

  /** `phase1a`: one update per mux, withdrawing exactly that mux. */
  function Phase1a(e: Env): (r: seq<Update>)
    ensures |r| == 1 + |e.muxes| && r[0] == Anycast(e)
    ensures forall k :: 1 <= k < |r| ==> r[k].withdraw == {e.muxes[k - 1]} && Partitions(r[k], AllMuxes(e))
  {
    [Anycast(e)] + seq(|e.muxes|, i requires 0 <= i < |e.muxes| => WithdrawOne(e, e.muxes[i]))
  }

  /** `phase1b`: one update per IXP peer group. */
  function Phase1b(e: Env): (r: seq<Update>)
    ensures |r| == 1 + |e.ixp| && r[0] == Anycast(e)
    ensures forall k :: 1 <= k < |r| ==> |r[k].announce| == 2 && r[k].withdraw == {} && r[k].announce[0].muxes == {e.ixp[k - 1].0}
    ensures forall k :: 1 <= k < |r| && e.ixp[k - 1].0 in e.muxes ==> Partitions(r[k], AllMuxes(e))
    ensures forall k :: 1 <= k < |r| ==> r[k].announce[0].communities == PeerCommunities(e, e.ixp[k - 1].2)
    ensures forall k :: 1 <= k < |r| ==> r[k] == RestrictToPeers(e, e.ixp[k - 1])
  {
    var tail := seq(|e.ixp|, i requires 0 <= i < |e.ixp| => RestrictToPeers(e, e.ixp[i]));
    var r := [Anycast(e)] + tail;
    assert forall k :: 1 <= k < |r| ==> r[k] == RestrictToPeers(e, e.ixp[k - 1]) by {
      forall k | 1 <= k < |r| ensures r[k] == RestrictToPeers(e, e.ixp[k - 1]) {
        assert r[k] == tail[k - 1];
      }
    }
    r
  }

  /** `phase1_muxsets`: one update per named mux set, withdrawing that set. */
  function Phase1MuxSets(e: Env): (r: seq<Update>)
    ensures |r| == 1 + |e.muxSets| && r[0] == Anycast(e)
    ensures forall k :: 1 <= k < |r| ==> r[k].withdraw == Elems(e.muxSets[k - 1].1)
    ensures forall k :: 1 <= k < |r| && Elems(e.muxSets[k - 1].1) <= AllMuxes(e) ==> Partitions(r[k], AllMuxes(e))
  {
    [Anycast(e)] + seq(|e.muxSets|, i requires 0 <= i < |e.muxSets| => WithdrawSet(e, e.muxSets[i]))
  }

  /** `phase2a`: one update per mux, prepending at that mux. */
  function Phase2a(e: Env): (r: seq<Update>)
    ensures |r| == 1 + |e.muxes| && r[0] == Anycast(e)
    ensures forall k :: 1 <= k < |r| ==> r[k].withdraw == {} && Partitions(r[k], AllMuxes(e))
    ensures forall k :: 1 <= k < |r| ==> |r[k].announce| == 2 && r[k].announce[0].muxes == {e.muxes[k - 1]}
  {
    [Anycast(e)] + seq(|e.muxes|, i requires 0 <= i < |e.muxes| => PrependOne(e, e.muxes[i]))
  }

  /** `phase2b`: one update per IXP peer group, prepending towards it. */
  function Phase2b(e: Env): (r: seq<Update>)
    ensures |r| == 1 + |e.ixp| && r[0] == Anycast(e)
    ensures forall k :: 1 <= k < |r| ==> |r[k].announce| == 2 && r[k].withdraw == {} && r[k].announce[0].prepend == AsPathPrependList
    ensures forall k :: 1 <= k < |r| && e.ixp[k - 1].0 in e.muxes ==> Partitions(r[k], AllMuxes(e))
    ensures forall k :: 1 <= k < |r| ==>
      r[k].announce[0].muxes == {e.ixp[k - 1].0} && r[k].announce[0].communities == PeerCommunities(e, e.ixp[k - 1].2)
    ensures forall k :: 1 <= k < |r| ==> r[k] == PrependToPeers(e, e.ixp[k - 1])
  {
    var tail := seq(|e.ixp|, i requires 0 <= i < |e.ixp| => PrependToPeers(e, e.ixp[i]));
    var r := [Anycast(e)] + tail;
    assert forall k :: 1 <= k < |r| ==> r[k] == PrependToPeers(e, e.ixp[k - 1]) by {
      forall k | 1 <= k < |r| ensures r[k] == PrependToPeers(e, e.ixp[k - 1]) {
        assert r[k] == tail[k - 1];
      }
    }
    r
  }

  /** `phase2_muxsets`: one update per named mux set, prepending at that set. */
  function Phase2MuxSets(e: Env): (r: seq<Update>)
    ensures |r| == 1 + |e.muxSets| && r[0] == Anycast(e)
    ensures forall k :: 1 <= k < |r| ==> |r[k].announce| == 2 && r[k].withdraw == {} && r[k].announce[1].muxes == Elems(e.muxSets[k - 1].1)
    ensures forall k :: 1 <= k < |r| && Elems(e.muxSets[k - 1].1) <= AllMuxes(e) ==> Partitions(r[k], AllMuxes(e))
  {
    [Anycast(e)] + seq(|e.muxSets|, i requires 0 <= i < |e.muxSets| => PrependSet(e, e.muxSets[i]))
  }

  /** `phase3`: one update per Vultr provider, which Vultr stops announcing to. */
  function Phase3(e: Env): (r: seq<Update>)
    ensures |r| == 1 + |e.providers| && r[0] == Anycast(e)
    ensures forall k :: 1 <= k < |r| ==> Partitions(r[k], AllMuxes(e))
    ensures forall k :: 1 <= k < |r| ==> |r[k].announce| == 2 && Targets(r[k].announce[1].communities, 64600) == [e.providers[k - 1]]
  {
    [Anycast(e)] + seq(|e.providers|, i requires 0 <= i < |e.providers| => VtrNoAnnounce(e, e.providers[i]))
  }

  /** `phase4`: one update per Vultr provider, which Vultr prepends towards. */
  function Phase4(e: Env): (r: seq<Update>)
    ensures |r| == 1 + |e.providers| && r[0] == Anycast(e)
    ensures forall k :: 1 <= k < |r| ==> Partitions(r[k], AllMuxes(e))
    ensures forall k :: 1 <= k < |r| ==> |r[k].announce| == 2 && r[k].announce[1].communities == e.prependThrice([e.providers[k - 1]])
  {
    [Anycast(e)] + seq(|e.providers|, i requires 0 <= i < |e.providers| => VtrPrepend(e, e.providers[i]))
  }

  /** `phase5a`: one update per unordered pair of muxes, withdrawing both. */
  function Phase5a(e: Env): (r: seq<Update>)
    ensures |r| == 1 + PairCount(|e.muxes|) && r[0] == Anycast(e)
  {
    var ps := Pairs(e.muxes);
    [Anycast(e)] + seq(|ps|, i requires 0 <= i < |ps| => WithdrawPair(e, ps[i].0, ps[i].1))
  }

  /** Each phase5a update withdraws two muxes and anycasts from all the others. */
  lemma Phase5aWithdraws(e: Env, k: nat)
    requires 1 <= k < |Phase5a(e)|
    ensures exists m1, m2 :: m1 in e.muxes && m2 in e.muxes && Phase5a(e)[k].withdraw == {m1, m2}
    ensures Partitions(Phase5a(e)[k], AllMuxes(e))
  {
    var ps := Pairs(e.muxes);
    var tail := seq(|ps|, i requires 0 <= i < |ps| => WithdrawPair(e, ps[i].0, ps[i].1));
    assert Phase5a(e)[k] == tail[k - 1];
    assert ps[k - 1].0 in e.muxes && ps[k - 1].1 in e.muxes;
  }

  /** `phase5b` as written: one update per mux and IXP peer group. */
  function Phase5b(e: Env): (r: seq<Update>)
    ensures |r| == 1 + |e.muxes| * |e.ixp| && r[0] == Anycast(e)
    ensures forall k :: 1 <= k < |r| ==> |r[k].withdraw| == 1 && r[k].withdraw <= AllMuxes(e)
    ensures var ps := Product(e.muxes, e.ixp);
      forall k :: 1 <= k < |r| ==> r[k] == WithdrawThenPeers(e, ps[k - 1].0, ps[k - 1].1)
  {
    var ps := Product(e.muxes, e.ixp);
    var tail := seq(|ps|, i requires 0 <= i < |ps| => WithdrawThenPeers(e, ps[i].0, ps[i].1));
    var r := [Anycast(e)] + tail;
    assert forall k :: 1 <= k < |r| ==> r[k] == WithdrawThenPeers(e, ps[k - 1].0, ps[k - 1].1) by {
      forall k | 1 <= k < |r| ensures r[k] == WithdrawThenPeers(e, ps[k - 1].0, ps[k - 1].1) {
        assert r[k] == tail[k - 1];
      }
    }
    r
  }

  /** `phase5b` with the IXP mux left out of the anycast announcement. */
  function Phase5bIntended(e: Env): (r: seq<Update>)
    ensures |r| == 1 + |e.muxes| * |e.ixp| && r[0] == Anycast(e)
    ensures forall k :: 1 <= k < |r| ==> |r[k].withdraw| == 1 && r[k].withdraw <= AllMuxes(e)
    ensures var ps := Product(e.muxes, e.ixp);
      forall k :: 1 <= k < |r| ==> r[k] == WithdrawBothThenPeers(e, ps[k - 1].0, ps[k - 1].1)
  {
    var ps := Product(e.muxes, e.ixp);
    var tail := seq(|ps|, i requires 0 <= i < |ps| => WithdrawBothThenPeers(e, ps[i].0, ps[i].1));
    var r := [Anycast(e)] + tail;
    assert forall k :: 1 <= k < |r| ==> r[k] == WithdrawBothThenPeers(e, ps[k - 1].0, ps[k - 1].1) by {
      forall k | 1 <= k < |r| ensures r[k] == WithdrawBothThenPeers(e, ps[k - 1].0, ps[k - 1].1) {
        assert r[k] == tail[k - 1];
      }
    }
    r
  }

  /** Every intended phase5b update for a mux other than the group's IXP mux partitions the muxes. */
  lemma Phase5bIntendedPartitions(e: Env, k: nat)
    requires 1 <= k < |Phase5bIntended(e)|
    requires forall p :: p in e.ixp ==> p.0 in e.muxes
    ensures var p := Product(e.muxes, e.ixp)[k - 1];
      p.0 != p.1.0 ==> Partitions(Phase5bIntended(e)[k], AllMuxes(e))
  {
    var p := Product(e.muxes, e.ixp)[k - 1];
    assert p.1 in e.ixp;
  }

  /** `phase5_muxsets`: one update per mux and named set not containing it, withdrawing both. */
  function Phase5MuxSets(e: Env): (r: seq<Update>)
    ensures 1 <= |r| <= 1 + |e.muxes| * |e.muxSets| && r[0] == Anycast(e)
    ensures var ps := Uncovered(Product(e.muxes, e.muxSets));
      |r| == 1 + |ps| && forall k :: 1 <= k < |r| ==> r[k] == WithdrawOneAndSet(e, ps[k - 1].0, ps[k - 1].1)
    ensures forall k :: 1 <= k < |r| ==> exists m :: m in e.muxes && m in r[k].withdraw
    ensures (forall s :: s in e.muxSets ==> Elems(s.1) <= AllMuxes(e)) ==>
      forall k :: 1 <= k < |r| ==> Partitions(r[k], AllMuxes(e))
  {
    var ps := Uncovered(Product(e.muxes, e.muxSets));
    assert forall i :: 0 <= i < |ps| ==> ps[i] in Product(e.muxes, e.muxSets);
    var tail := seq(|ps|, i requires 0 <= i < |ps| => WithdrawOneAndSet(e, ps[i].0, ps[i].1));
    var r := [Anycast(e)] + tail;
    assert forall k :: 1 <= k < |r| ==> r[k] == WithdrawOneAndSet(e, ps[k - 1].0, ps[k - 1].1) by {
      forall k | 1 <= k < |r| ensures r[k] == WithdrawOneAndSet(e, ps[k - 1].0, ps[k - 1].1) {
        assert r[k] == tail[k - 1];
      }
    }
    r
  }

  /** `phase6a`: one update per Vultr provider and non-Vultr mux. */
  function Phase6a(e: Env): (r: seq<Update>)
    ensures |r| == 1 + |e.providers| * |NonVtrList(e.muxes)| && r[0] == Anycast(e)
  {
    var ps := Product(e.providers, NonVtrList(e.muxes));
    [Anycast(e)] + seq(|ps|, i requires 0 <= i < |ps| => WithdrawNonVtr(e, ps[i].0, ps[i].1))
  }

  /** Each phase6a update withdraws one non-Vultr mux and covers every mux once. */
  lemma Phase6aWithdraws(e: Env, k: nat)
    requires 1 <= k < |Phase6a(e)|
    ensures exists m :: m in NonVtrMuxes(e) && Phase6a(e)[k].withdraw == {m}
    ensures Partitions(Phase6a(e)[k], AllMuxes(e))
  {
    var ps := Product(e.providers, NonVtrList(e.muxes));
    var tail := seq(|ps|, i requires 0 <= i < |ps| => WithdrawNonVtr(e, ps[i].0, ps[i].1));
    assert Phase6a(e)[k] == tail[k - 1];
    assert ps[k - 1].1 in NonVtrList(e.muxes);
  }

  /** `phase6b`: one update per Vultr provider and IXP peer group. */
  function Phase6b(e: Env): (r: seq<Update>)
    ensures |r| == 1 + |e.providers| * |e.ixp| && r[0] == Anycast(e)
    ensures forall k :: 1 <= k < |r| ==> |r[k].announce| == 3 && r[k].withdraw == {} && r[k].announce[0].muxes == VtrMuxes(e)
    ensures (forall p :: p in e.ixp ==> p.0 in NonVtrMuxes(e)) ==>
      forall k :: 1 <= k < |r| ==> Partitions(r[k], AllMuxes(e))
    ensures var ps := Product(e.providers, e.ixp);
      forall k :: 1 <= k < |r| ==> r[k] == NonVtrViaPeers(e, ps[k - 1].0, ps[k - 1].1)
  {
    var ps := Product(e.providers, e.ixp);
    var tail := seq(|ps|, i requires 0 <= i < |ps| => NonVtrViaPeers(e, ps[i].0, ps[i].1));
    var r := [Anycast(e)] + tail;
    assert forall k :: 1 <= k < |r| ==> r[k] == NonVtrViaPeers(e, ps[k - 1].0, ps[k - 1].1) by {
      forall k | 1 <= k < |r| ensures r[k] == NonVtrViaPeers(e, ps[k - 1].0, ps[k - 1].1) {
        assert r[k] == tail[k - 1];
      }
    }
    r
  }

  /** `phase7a`: one update per unordered pair of muxes, announced from those two only. */
  function Phase7a(e: Env): (r: seq<Update>)
    ensures |r| == 1 + PairCount(|e.muxes|) && r[0] == Anycast(e)
    ensures forall k :: 1 <= k < |r| ==> r[k].withdraw == {}
  {
    var ps := Pairs(e.muxes);
    [Anycast(e)] + seq(|ps|, i requires 0 <= i < |ps| => UnicastPair(ps[i].0, ps[i].1))
  }

  /** Each phase7a update announces from two muxes and no other. */
  lemma Phase7aAnnounces(e: Env, k: nat)
    requires 1 <= k < |Phase7a(e)|
    ensures exists m1, m2 :: m1 in e.muxes && m2 in e.muxes && Announced(Phase7a(e)[k].announce) == {m1, m2}
  {
    var ps := Pairs(e.muxes);
    var tail := seq(|ps|, i requires 0 <= i < |ps| => UnicastPair(ps[i].0, ps[i].1));
    assert Phase7a(e)[k] == tail[k - 1];
    assert ps[k - 1].0 in e.muxes && ps[k - 1].1 in e.muxes;
  }

  /** `phase7b`: one update per mux and IXP peer group. */
  function Phase7b(e: Env): (r: seq<Update>)
    ensures |r| == 1 + |e.muxes| * |e.ixp| && r[0] == Anycast(e)
    ensures forall k :: 1 <= k < |r| ==> |r[k].announce| == 2 && r[k].withdraw == {} && r[k].announce[0].muxes <= IxpMuxes(e)
    ensures var ps := Product(e.muxes, e.ixp);
      forall k :: 1 <= k < |r| ==> r[k] == UnicastViaPeers(e, ps[k - 1].0, ps[k - 1].1)
  {
    var ps := Product(e.muxes, e.ixp);
    var tail := seq(|ps|, i requires 0 <= i < |ps| => UnicastViaPeers(e, ps[i].0, ps[i].1));
    var r := [Anycast(e)] + tail;
    assert forall k :: 1 <= k < |r| ==> r[k] == UnicastViaPeers(e, ps[k - 1].0, ps[k - 1].1) by {
      forall k | 1 <= k < |r| ensures r[k] == UnicastViaPeers(e, ps[k - 1].0, ps[k - 1].1) {
        assert r[k] == tail[k - 1];
      }
    }
    r
  }

  /** The muxes of the IXP peer groups. */
  function IxpMuxes(e: Env): set<string> {
    set p | p in e.ixp :: p.0
  }

  /** `phase7_muxsets`: one update per named set, announced from that set only. */
  function Phase7MuxSets(e: Env): (r: seq<Update>)
    ensures |r| == 1 + |e.muxSets| && r[0] == Anycast(e)
    ensures forall k :: 1 <= k < |r| ==> r[k].withdraw == {} && Announced(r[k].announce) == Elems(e.muxSets[k - 1].1)
  {
    [Anycast(e)] + seq(|e.muxSets|, i requires 0 <= i < |e.muxSets| => UnicastSet(e.muxSets[i]))
  }

  /** `phase7_muxsets_unicast`: one update per mux and named set not containing it. */
  function Phase7MuxSetsUnicast(e: Env): (r: seq<Update>)
    ensures 1 <= |r| <= 1 + |e.muxes| * |e.muxSets| && r[0] == Anycast(e)
    ensures forall k :: 1 <= k < |r| ==> r[k].withdraw == {} && |r[k].announce| == 2 && r[k].announce[0].muxes !! r[k].announce[1].muxes
    ensures var ps := Uncovered(Product(e.muxes, e.muxSets));
      |r| == 1 + |ps| && forall k :: 1 <= k < |r| ==> r[k] == UnicastOneAndSet(ps[k - 1].0, ps[k - 1].1)
  {
    var ps := Uncovered(Product(e.muxes, e.muxSets));
    assert forall i :: 0 <= i < |ps| ==> ps[i] in ps;
    var tail := seq(|ps|, i requires 0 <= i < |ps| => UnicastOneAndSet(ps[i].0, ps[i].1));
    var r := [Anycast(e)] + tail;
    assert forall k :: 1 <= k < |r| ==> r[k] == UnicastOneAndSet(ps[k - 1].0, ps[k - 1].1) by {
      forall k | 1 <= k < |r| ensures r[k] == UnicastOneAndSet(ps[k - 1].0, ps[k - 1].1) {
        assert r[k] == tail[k - 1];
      }
    }
    r
  }

  /** `phase8a`: one update per Vultr provider and non-Vultr mux. */
  function Phase8a(e: Env): (r: seq<Update>)
    ensures |r| == 1 + |e.providers| * |NonVtrList(e.muxes)| && r[0] == Anycast(e)
    ensures forall k :: 1 <= k < |r| ==> r[k].withdraw == {}
    ensures var ps := Product(e.providers, NonVtrList(e.muxes));
      forall k :: 1 <= k < |r| ==> r[k] == UnicastWithVtr(e, ps[k - 1].0, ps[k - 1].1)
  {
    var ps := Product(e.providers, NonVtrList(e.muxes));
    var tail := seq(|ps|, i requires 0 <= i < |ps| => UnicastWithVtr(e, ps[i].0, ps[i].1));
    var r := [Anycast(e)] + tail;
    assert forall k :: 1 <= k < |r| ==> r[k] == UnicastWithVtr(e, ps[k - 1].0, ps[k - 1].1) by {
      forall k | 1 <= k < |r| ensures r[k] == UnicastWithVtr(e, ps[k - 1].0, ps[k - 1].1) {
        assert r[k] == tail[k - 1];
      }
    }
    r
  }

  /** Each phase8a update announces from the Vultr muxes and from exactly one non-Vultr mux. */
  lemma Phase8aAnnounces(e: Env, k: nat)
    requires 1 <= k < |Phase8a(e)|
    ensures exists m :: m in NonVtrMuxes(e) && Announced(Phase8a(e)[k].announce) == {m} + VtrMuxes(e)
  {
    var ps := Product(e.providers, NonVtrList(e.muxes));
    var tail := seq(|ps|, i requires 0 <= i < |ps| => UnicastWithVtr(e, ps[i].0, ps[i].1));
    assert Phase8a(e)[k] == tail[k - 1];
    assert ps[k - 1].1 in NonVtrList(e.muxes);
  }

  /** `phase8b`: one update per Vultr provider and IXP peer group. */
  function Phase8b(e: Env): (r: seq<Update>)
    ensures |r| == 1 + |e.providers| * |e.ixp| && r[0] == Anycast(e)
    ensures forall k :: 1 <= k < |r| ==> r[k].withdraw == {} && VtrMuxes(e) <= Announced(r[k].announce)
    ensures forall k :: 1 <= k < |r| ==> Announced(r[k].announce) - VtrMuxes(e) <= IxpMuxes(e)
    ensures var ps := Product(e.providers, e.ixp);
      forall k :: 1 <= k < |r| ==> r[k] == PeersWithVtr(e, ps[k - 1].0, ps[k - 1].1)
  {
    var ps := Product(e.providers, e.ixp);
    var tail := seq(|ps|, i requires 0 <= i < |ps| => PeersWithVtr(e, ps[i].0, ps[i].1));
    var r := [Anycast(e)] + tail;
    assert forall k :: 1 <= k < |r| ==> r[k] == PeersWithVtr(e, ps[k - 1].0, ps[k - 1].1) by {
      forall k | 1 <= k < |r| ensures r[k] == PeersWithVtr(e, ps[k - 1].0, ps[k - 1].1) {
        assert r[k] == tail[k - 1];
      }
    }
    r
  }

  /** `phase9`: one update per mux, announced from that mux only. */
  function Phase9(e: Env): (r: seq<Update>)
    ensures |r| == 1 + |e.muxes| && r[0] == Anycast(e)
    ensures forall k :: 1 <= k < |r| ==> r[k].withdraw == {} && Partitions(r[k], {e.muxes[k - 1]})
  {
    [Anycast(e)] + seq(|e.muxes|, i requires 0 <= i < |e.muxes| => UnicastOne(e.muxes[i]))
  }

  /** `phase10`: one update per Vultr provider, announced from the Vultr muxes only. */
  function Phase10(e: Env): (r: seq<Update>)
    ensures |r| == 1 + |e.providers| && r[0] == Anycast(e)
    ensures forall k :: 1 <= k < |r| ==> r[k].withdraw == {} && Announced(r[k].announce) == VtrMuxes(e)
    ensures forall k :: 1 <= k < |r| ==> |r[k].announce| == 1 && Targets(r[k].announce[0].communities, 64699) == [e.providers[k - 1]]
  {
    [Anycast(e)] + seq(|e.providers|, i requires 0 <= i < |e.providers| => VtrOnly(e, e.providers[i]))
  }

  // ---------------------------------------------------------------------------
  // Completeness and the deployed sizes
  // ---------------------------------------------------------------------------

  /** phase5a withdraws every pair of muxes, earlier mux first. */
  lemma Phase5aComplete(e: Env, i: nat, j: nat)
    requires i < j < |e.muxes|
    ensures exists k :: 1 <= k < |Phase5a(e)| && Phase5a(e)[k].withdraw == {e.muxes[i], e.muxes[j]}
  {
    var n := PairsHas(e.muxes, i, j);
    var ps := Pairs(e.muxes);
    var withdrawn := seq(|ps|, q requires 0 <= q < |ps| => WithdrawPair(e, ps[q].0, ps[q].1));
    assert withdrawn[n] == WithdrawPair(e, e.muxes[i], e.muxes[j]);
    assert Phase5a(e)[n + 1] == withdrawn[n];
  }

  /** phase7a announces from every pair of muxes, earlier mux first. */
  lemma Phase7aComplete(e: Env, i: nat, j: nat)
    requires i < j < |e.muxes|
    ensures exists k :: 1 <= k < |Phase7a(e)| && Announced(Phase7a(e)[k].announce) == {e.muxes[i], e.muxes[j]}
  {
    var n := PairsHas(e.muxes, i, j);
    var ps := Pairs(e.muxes);
    var unicast := seq(|ps|, q requires 0 <= q < |ps| => UnicastPair(ps[q].0, ps[q].1));
    assert unicast[n] == UnicastPair(e.muxes[i], e.muxes[j]);
    assert Phase7a(e)[n + 1] == unicast[n];
  }

  /** phase6a has an update for every provider and non-Vultr mux. */
  lemma Phase6aComplete(e: Env, provider: nat, m: string)
    requires provider in e.providers && m in NonVtrMuxes(e)
    ensures exists k :: 1 <= k < |Phase6a(e)| && Phase6a(e)[k] == WithdrawNonVtr(e, provider, m)
  {
    var ms := NonVtrList(e.muxes);
    var i :| 0 <= i < |e.providers| && e.providers[i] == provider;
    var j :| 0 <= j < |ms| && ms[j] == m;
    var n := ProductAt(e.providers, ms, i, j);
    var ps := Product(e.providers, ms);
    var tail := seq(|ps|, i requires 0 <= i < |ps| => WithdrawNonVtr(e, ps[i].0, ps[i].1));
    assert tail[n] == WithdrawNonVtr(e, provider, m);
    assert Phase6a(e)[n + 1] == tail[n];
  }

  /** phase5b has an update for every mux and IXP peer group. */
  lemma Phase5bComplete(e: Env, m: string, p: IxpPeer)
    requires m in e.muxes && p in e.ixp
    ensures exists k :: 1 <= k < |Phase5b(e)| && Phase5b(e)[k] == WithdrawThenPeers(e, m, p)
  {
    var i :| 0 <= i < |e.muxes| && e.muxes[i] == m;
    var j :| 0 <= j < |e.ixp| && e.ixp[j] == p;
    var n := ProductAt(e.muxes, e.ixp, i, j);
    assert Phase5b(e)[n + 1] == WithdrawThenPeers(e, m, p);
  }

  /** The corrected phase5b has an update for every mux and IXP peer group. */
  lemma Phase5bIntendedComplete(e: Env, m: string, p: IxpPeer)
    requires m in e.muxes && p in e.ixp
    ensures exists k :: 1 <= k < |Phase5bIntended(e)| && Phase5bIntended(e)[k] == WithdrawBothThenPeers(e, m, p)
  {
    var i :| 0 <= i < |e.muxes| && e.muxes[i] == m;
    var j :| 0 <= j < |e.ixp| && e.ixp[j] == p;
    var n := ProductAt(e.muxes, e.ixp, i, j);
    assert Phase5bIntended(e)[n + 1] == WithdrawBothThenPeers(e, m, p);
  }

  /** phase6b has an update for every Vultr provider and IXP peer group. */
  lemma Phase6bComplete(e: Env, provider: nat, p: IxpPeer)
    requires provider in e.providers && p in e.ixp
    ensures exists k :: 1 <= k < |Phase6b(e)| && Phase6b(e)[k] == NonVtrViaPeers(e, provider, p)
  {
    var i :| 0 <= i < |e.providers| && e.providers[i] == provider;
    var j :| 0 <= j < |e.ixp| && e.ixp[j] == p;
    var n := ProductAt(e.providers, e.ixp, i, j);
    assert Phase6b(e)[n + 1] == NonVtrViaPeers(e, provider, p);
  }

  /** phase7b has an update for every mux and IXP peer group. */
  lemma Phase7bComplete(e: Env, m: string, p: IxpPeer)
    requires m in e.muxes && p in e.ixp
    ensures exists k :: 1 <= k < |Phase7b(e)| && Phase7b(e)[k] == UnicastViaPeers(e, m, p)
  {
    var i :| 0 <= i < |e.muxes| && e.muxes[i] == m;
    var j :| 0 <= j < |e.ixp| && e.ixp[j] == p;
    var n := ProductAt(e.muxes, e.ixp, i, j);
    assert Phase7b(e)[n + 1] == UnicastViaPeers(e, m, p);
  }

  /** phase8a has an update for every Vultr provider and non-Vultr mux. */
  lemma Phase8aComplete(e: Env, provider: nat, m: string)
    requires provider in e.providers && m in NonVtrMuxes(e)
    ensures exists k :: 1 <= k < |Phase8a(e)| && Phase8a(e)[k] == UnicastWithVtr(e, provider, m)
  {
    var i :| 0 <= i < |e.providers| && e.providers[i] == provider;
    var j :| 0 <= j < |NonVtrList(e.muxes)| && NonVtrList(e.muxes)[j] == m;
    var n := ProductAt(e.providers, NonVtrList(e.muxes), i, j);
    assert Phase8a(e)[n + 1] == UnicastWithVtr(e, provider, m);
  }

  /** phase8b has an update for every Vultr provider and IXP peer group. */
  lemma Phase8bComplete(e: Env, provider: nat, p: IxpPeer)
    requires provider in e.providers && p in e.ixp
    ensures exists k :: 1 <= k < |Phase8b(e)| && Phase8b(e)[k] == PeersWithVtr(e, provider, p)
  {
    var i :| 0 <= i < |e.providers| && e.providers[i] == provider;
    var j :| 0 <= j < |e.ixp| && e.ixp[j] == p;
    var n := ProductAt(e.providers, e.ixp, i, j);
    assert Phase8b(e)[n + 1] == PeersWithVtr(e, provider, p);
  }

  /** phase5_muxsets has an update for every mux and named set without it. */
  lemma Phase5MuxSetsComplete(e: Env, m: string, s: MuxSet)
    requires m in e.muxes && s in e.muxSets && m !in s.1
    ensures exists k :: 1 <= k < |Phase5MuxSets(e)| && Phase5MuxSets(e)[k] == WithdrawOneAndSet(e, m, s)
  {
    var ps := Uncovered(Product(e.muxes, e.muxSets));
    assert (m, s) in ps;
    var n :| 0 <= n < |ps| && ps[n] == (m, s);
    assert Phase5MuxSets(e)[n + 1] == WithdrawOneAndSet(e, m, s);
  }

  /** Every phase5_muxsets update after the baseline is for a mux and a named set not containing it. */
  lemma Phase5MuxSetsSkips(e: Env, k: nat)
    requires 1 <= k < |Phase5MuxSets(e)|
    ensures exists m, s :: m in e.muxes && s in e.muxSets && m !in s.1 && Phase5MuxSets(e)[k] == WithdrawOneAndSet(e, m, s)
  {
    var ps := Uncovered(Product(e.muxes, e.muxSets));
    assert ps[k - 1] in ps;
    var m, s := ps[k - 1].0, ps[k - 1].1;
    assert Phase5MuxSets(e)[k] == WithdrawOneAndSet(e, m, s);
  }

  /** phase7_muxsets_unicast has an update for every mux and named set without it. */
  lemma Phase7MuxSetsUnicastComplete(e: Env, m: string, s: MuxSet)
    requires m in e.muxes && s in e.muxSets && m !in s.1
    ensures exists k :: 1 <= k < |Phase7MuxSetsUnicast(e)| && Phase7MuxSetsUnicast(e)[k] == UnicastOneAndSet(m, s)
  {
    var ps := Uncovered(Product(e.muxes, e.muxSets));
    assert (m, s) in ps;
    var n :| 0 <= n < |ps| && ps[n] == (m, s);
    assert Phase7MuxSetsUnicast(e)[n + 1] == UnicastOneAndSet(m, s);
  }

  /** Every phase7_muxsets_unicast update after the baseline is for a mux and a named set not containing it. */
  lemma Phase7MuxSetsUnicastSkips(e: Env, k: nat)
    requires 1 <= k < |Phase7MuxSetsUnicast(e)|
    ensures exists m, s :: m in e.muxes && s in e.muxSets && m !in s.1 && Phase7MuxSetsUnicast(e)[k] == UnicastOneAndSet(m, s)
  {
    var ps := Uncovered(Product(e.muxes, e.muxSets));
    assert ps[k - 1] in ps;
    var m, s := ps[k - 1].0, ps[k - 1].1;
    assert Phase7MuxSetsUnicast(e)[k] == UnicastOneAndSet(m, s);
  }

  /** The sizes of the deployed phases: 43 muxes, 5 IXP peer groups, 9 Vultr providers. */
  lemma DeployedSizes(e: Env)
    requires Deployed(e)
    ensures |Phase1a(e)| == 44 && |Phase1b(e)| == 6 && |Phase9(e)| == 44
    ensures |Phase3(e)| == 10 && |Phase10(e)| == 10
    ensures |Phase5a(e)| == 904 && |Phase7a(e)| == 904
    ensures |Phase5b(e)| == 216 && |Phase6b(e)| == 46
  {
    assert |e.muxes| == 43 && |e.ixp| == 5 && |e.providers| == 9;
    LoopSizes(e);
    PairSizes(e);
  }

  /** The phases with one update per mux, peer group or provider. */
  lemma LoopSizes(e: Env)
    requires |e.muxes| == 43 && |e.ixp| == 5 && |e.providers| == 9
    ensures |Phase1a(e)| == 44 && |Phase1b(e)| == 6 && |Phase9(e)| == 44
    ensures |Phase3(e)| == 10 && |Phase10(e)| == 10
  {
  }

  /** The phases with one update per pair or combination. */
  lemma PairSizes(e: Env)
    requires |e.muxes| == 43 && |e.ixp| == 5 && |e.providers| == 9
    ensures |Phase5a(e)| == 904 && |Phase7a(e)| == 904
    ensures |Phase5b(e)| == 216 && |Phase6b(e)| == 46
  {
    PairCountClosed(43);
  }
}
