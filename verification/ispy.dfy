/**
 * `ispy-exp-announcements.py`: the announcement configurations of the iSpy
 * experiment. Each mux of `mux2octet` owns the prefix 184.164.<octet>.0/24.
 * Three configurations exist: legit (each prefix announced from its own
 * mux), hijacks (each prefix announced from one other mux, chosen by the
 * round number from the mux's sorted list of other muxes) and withdraws
 * (each prefix withdrawn from every mux of `mux2id`). The argument parser
 * and the JSON file writing are outside the model.
 */
module Ispy {
  import opened Wrappers
  import opened Text
  import opened Dicts

  // ---------------------------------------------------------------------------
  // Configuration
  // ---------------------------------------------------------------------------

  /** The three dictionaries of the `config` module the script reads, in insertion order. */
  datatype Config = Config(
    mux2octet: seq<(string, int)>,
    mux2peers: seq<(string, seq<nat>)>,
    mux2id: seq<(string, nat)>)

  /** `mux2peers` of the production configuration: the peers each mux may announce to. */
  const ProdMux2Peers: seq<(string, seq<nat>)> := [
    ("amsterdam01", [60, 61]),
    ("seattle01", [101]),
    ("ufmg01", [16])]

  /** `mux2id` of the production configuration. */
  const ProdMux2Id: seq<(string, nat)> := [
    ("amsterdam01", 5),
    ("clemson01", 16),
    ("gatech01", 6),
    ("grnet01", 9),
    ("neu01", 14),
    ("seattle01", 1),
    ("utah01", 17),
    ("uw01", 10),
    ("wisc01", 11)]

  /** The muxes of `mux2octet`, in its order. */
  function Muxes(c: Config): seq<string> {
    Keys(c.mux2octet)
  }

  /** Every octet is a valid address byte. */
  predicate OctetsValid(c: Config) {
    forall k :: 0 <= k < |c.mux2octet| ==> 0 <= c.mux2octet[k].1 <= 255
  }

  /** No two muxes share an octet. */
  predicate OctetsDistinct(c: Config) {
    forall i, j :: 0 <= i < j < |c.mux2octet| ==> c.mux2octet[i].1 != c.mux2octet[j].1
  }

  // ---------------------------------------------------------------------------
  // Sorting
  // ---------------------------------------------------------------------------

  /** No element is smaller than one before it. */
  predicate Sorted(xs: seq<string>) {
    forall i, j :: 0 <= i < j < |xs| ==> !LexLess(xs[j], xs[i])
  }

  /** Strictly increasing. */
  predicate Ascending(xs: seq<string>) {
    forall i, j :: 0 <= i < j < |xs| ==> LexLess(xs[i], xs[j])
  }

  /** Places `x` before the first element that is not smaller than it. */
  function InsertSorted(x: string, xs: seq<string>): seq<string> {
    if |xs| == 0 then [x]
    else if LexLess(xs[0], x) then [xs[0]] + InsertSorted(x, xs[1..])
    else [x] + xs
  }

  /** `list.sort()` on strings. */
  function Sort(xs: seq<string>): seq<string> {
    if |xs| == 0 then [] else InsertSorted(xs[0], Sort(xs[1..]))
  }

  /** No element of `xs` is smaller than `a`. */
  predicate NoneBelow(xs: seq<string>, a: string) {
    forall j :: 0 <= j < |xs| ==> !LexLess(xs[j], a)
  }

  /** A list is sorted when its head is a lower bound of a sorted tail. */
  lemma SortedCons(a: string, t: seq<string>)
    requires NoneBelow(t, a) && Sorted(t)
    ensures Sorted([a] + t)
  {
    var r := [a] + t;
    forall i, j | 0 <= i < j < |r| ensures !LexLess(r[j], r[i]) {
      assert r[j] == t[j - 1];
      if i > 0 {
        assert r[i] == t[i - 1];
      }
    }
  }

  /** Inserting an element no smaller than `a` keeps `a` a lower bound. */
  lemma {:induction false} InsertSortedBound(x: string, xs: seq<string>, a: string)
    requires NoneBelow(xs, a) && !LexLess(x, a)
    ensures NoneBelow(InsertSorted(x, xs), a)
  {
    if |xs| > 0 && LexLess(xs[0], x) {
      InsertSortedBound(x, xs[1..], a);
      var t := InsertSorted(x, xs[1..]);
      assert InsertSorted(x, xs) == [xs[0]] + t;
    }
  }

  /** Inserting into a sorted list keeps it sorted. */
  lemma {:induction false} InsertSortedSorted(x: string, xs: seq<string>)
    requires Sorted(xs)
    ensures Sorted(InsertSorted(x, xs))
  {
    if |xs| == 0 {
    } else if LexLess(xs[0], x) {
      var t := InsertSorted(x, xs[1..]);
      assert Sorted(xs[1..]) && NoneBelow(xs[1..], xs[0]) by {
        forall j | 0 <= j < |xs[1..]| ensures !LexLess(xs[1..][j], xs[0]) {
          assert xs[1..][j] == xs[j + 1];
        }
        forall i, j | 0 <= i < j < |xs[1..]| ensures !LexLess(xs[1..][j], xs[1..][i]) {
          assert xs[1..][i] == xs[i + 1] && xs[1..][j] == xs[j + 1];
        }
      }
      InsertSortedSorted(x, xs[1..]);
      LexLessAsymmetric(xs[0], x);
      InsertSortedBound(x, xs[1..], xs[0]);
      SortedCons(xs[0], t);
    } else {
      forall j | 0 <= j < |xs| ensures !LexLess(xs[j], x) {
        if j > 0 {
          NotLessStep(xs[0], xs[j], x);
        }
      }
      SortedCons(x, xs);
    }
  }

  /** Inserting adds exactly the one element. */
  lemma {:induction false} InsertSortedElements(x: string, xs: seq<string>)
    ensures multiset(InsertSorted(x, xs)) == multiset(xs) + multiset{x}
  {
    if |xs| > 0 {
      assert xs == [xs[0]] + xs[1..];
      if LexLess(xs[0], x) {
        InsertSortedElements(x, xs[1..]);
      }
    }
  }

  lemma LexLessAsymmetric(a: string, b: string)
    requires LexLess(a, b)
    ensures !LexLess(b, a)
  {
    if LexLess(b, a) {
      LexLessTransitive(a, b, a);
      LexLessIrreflexive(a);
    }
  }

  /** `b` is not below `a` and `c` is not above `a`, so `b` is not below `c`. */
  lemma NotLessStep(a: string, b: string, c: string)
    requires !LexLess(b, a) && !LexLess(a, c)
    ensures !LexLess(b, c)
  {
    if LexLess(b, c) {
      if a == b {
      } else if a == c {
      } else {
        LexLessTotal(a, b);
        LexLessTotal(a, c);
        LexLessTransitive(a, b, c);
      }
    }
  }

  /** Sorting yields a sorted permutation of its input. */
  lemma {:induction false} SortSpec(xs: seq<string>)
    ensures Sorted(Sort(xs))
    ensures multiset(Sort(xs)) == multiset(xs)
  {
    if |xs| > 0 {
      SortSpec(xs[1..]);
      InsertSortedSorted(xs[0], Sort(xs[1..]));
      InsertSortedElements(xs[0], Sort(xs[1..]));
      assert xs == [xs[0]] + xs[1..];
    }
  }

  /** Sorting an already sorted list changes nothing. */
  lemma {:induction false} SortOfSorted(xs: seq<string>)
    requires Sorted(xs)
    ensures Sort(xs) == xs
  {
    if |xs| > 0 {
      assert Sorted(xs[1..]) by {
        forall i, j | 0 <= i < j < |xs[1..]| ensures !LexLess(xs[1..][j], xs[1..][i]) {
          assert xs[1..][i] == xs[i + 1] && xs[1..][j] == xs[j + 1];
        }
      }
      SortOfSorted(xs[1..]);
      if |xs| > 1 {
        assert !LexLess(xs[1], xs[0]);
        assert xs[1..][0] == xs[1];
      }
      assert [xs[0]] + xs[1..] == xs;
    }
  }

  /** A sorted list without repeats is strictly increasing. */
  lemma SortedDistinctAscending(xs: seq<string>)
    requires Sorted(xs)
    requires forall i, j :: 0 <= i < j < |xs| ==> xs[i] != xs[j]
    ensures Ascending(xs)
  {
    forall i, j | 0 <= i < j < |xs| ensures LexLess(xs[i], xs[j]) {
      LexLessTotal(xs[i], xs[j]);
    }
  }

  /** The position of the first occurrence of `x`, or the length when there is none. */
  function Position(xs: seq<string>, x: string): (i: nat)
    ensures i <= |xs| && (i < |xs| <==> x in xs)
    ensures i < |xs| ==> xs[i] == x
    ensures forall j :: 0 <= j < i ==> xs[j] != x
  {
    if |xs| == 0 then 0 else if xs[0] == x then 0 else 1 + Position(xs[1..], x)
  }

  /** `list.remove(x)`: drops the first occurrence, or raises `ValueError` when there is none. */
  function Remove(xs: seq<string>, x: string): (r: Result<seq<string>>)
    ensures r.Err? <==> x !in xs
    ensures r.Err? ==> r.error == ValueError("list.remove(x): x not in list")
    ensures r.Ok? ==>
      exists i :: (0 <= i < |xs| && xs[i] == x && x !in xs[..i] && r.value == xs[..i] + xs[i + 1..])
  {
    var i := Position(xs, x);
    if i == |xs| then Err(ValueError("list.remove(x): x not in list"))
    else Ok(xs[..i] + xs[i + 1..])
  }

  // ---------------------------------------------------------------------------
  // make_mux2hijackers
  // ---------------------------------------------------------------------------

  /** The sorted muxes. */
  function SortedMuxes(c: Config): seq<string> {
    Sort(Muxes(c))
  }

  /** One turn of the loop: `hijackers.remove(mux); hijackers.sort()` on a copy of the sorted muxes. */
  function HijackersOf(muxes: seq<string>, m: string): Result<seq<string>> {
    var hs :- Remove(muxes, m);
    Ok(Sort(hs))
  }

  /** `make_mux2hijackers()`: each sorted mux with its list of hijackers. */
  function MakeMux2Hijackers(c: Config): Result<seq<(string, seq<string>)>> {
    var muxes := SortedMuxes(c);
    var lists :- Collect(seq(|muxes|, k requires 0 <= k < |muxes| => HijackersOf(muxes, muxes[k])));
    Ok(seq(|muxes|, k requires 0 <= k < |muxes| && |lists| == |muxes| => (muxes[k], lists[k])))
  }

  /** With distinct muxes, the sorted muxes are the muxes in strictly increasing order. */
  lemma SortedMuxesSpec(c: Config)
    requires UniqueKeys(c.mux2octet)
    ensures var ms := SortedMuxes(c);
      && Ascending(ms)
      && |ms| == |c.mux2octet|
      && forall x :: x in ms <==> x in Muxes(c)
  {
    var ms := SortedMuxes(c);
    SortSpec(Muxes(c));
    assert |ms| == |multiset(ms)| == |multiset(Muxes(c))| == |Muxes(c)|;
    forall x ensures x in ms <==> x in Muxes(c) {
      assert x in ms <==> x in multiset(ms);
      assert x in Muxes(c) <==> x in multiset(Muxes(c));
    }
    forall i, j | 0 <= i < j < |ms| ensures ms[i] != ms[j] {
      if ms[i] == ms[j] {
        MultisetCountTwo(ms, i, j);
        UniqueCountOne(c.mux2octet, ms[i]);
      }
    }
    SortedDistinctAscending(ms);
  }

  /** An element at two positions occurs at least twice. */
  lemma MultisetCountTwo(xs: seq<string>, i: nat, j: nat)
    requires i < j < |xs| && xs[i] == xs[j]
    ensures multiset(xs)[xs[i]] >= 2
  {
    assert xs == xs[..i] + [xs[i]] + xs[i + 1..j] + [xs[j]] + xs[j + 1..];
  }

  /** A key of a dictionary occurs once among its keys. */
  lemma {:induction false} UniqueCountOne<V>(d: seq<(string, V)>, k: string)
    requires UniqueKeys(d)
    ensures multiset(Keys(d))[k] <= 1
  {
    if |d| > 0 {
      assert UniqueKeys(d[1..]) by {
        forall i, j | 0 <= i < j < |d[1..]| ensures d[1..][i].0 != d[1..][j].0 {
          assert d[1..][i] == d[i + 1] && d[1..][j] == d[j + 1];
        }
      }
      UniqueCountOne(d[1..], k);
      assert Keys(d) == [d[0].0] + Keys(d[1..]);
      if d[0].0 == k {
        assert k !in Keys(d[1..]) by {
          forall i | 0 <= i < |d[1..]| ensures Keys(d[1..])[i] != k {
            assert d[1..][i] == d[i + 1];
          }
        }
      }
    }
  }

  /** Dropping one element of a strictly increasing list keeps it so and loses only that element. */
  lemma DropAt(ms: seq<string>, i: nat)
    requires Ascending(ms) && i < |ms|
    ensures var hs := ms[..i] + ms[i + 1..];
      && |hs| == |ms| - 1
      && Ascending(hs)
      && forall x :: x in hs <==> x in ms && x != ms[i]
  {
    var hs := ms[..i] + ms[i + 1..];
    forall a, b | 0 <= a < b < |hs| ensures LexLess(hs[a], hs[b]) {
      var a' := if a < i then a else a + 1;
      var b' := if b < i then b else b + 1;
      assert hs[a] == ms[a'] && hs[b] == ms[b'];
    }
    forall x ensures x in hs <==> x in ms && x != ms[i] {
      if x in ms && x != ms[i] {
        var k :| 0 <= k < |ms| && ms[k] == x;
        if k < i {
          assert hs[k] == x;
        } else {
          assert hs[k - 1] == x;
        }
      }
      if x in hs {
        var k :| 0 <= k < |hs| && hs[k] == x;
        var k' := if k < i then k else k + 1;
        assert ms[k'] == x;
        if x == ms[i] {
          LexLessIrreflexive(x);
        }
      }
    }
  }

  /**
   * The hijackers of a mux are the other muxes in increasing order: one fewer
   * than all muxes, never the mux itself.
   */
  lemma HijackersOfSpec(ms: seq<string>, m: string)
    requires Ascending(ms) && m in ms
    ensures var r := HijackersOf(ms, m);
      && r.Ok?
      && |r.value| == |ms| - 1
      && Ascending(r.value)
      && forall x :: x in r.value <==> x in ms && x != m
  {
    var i := Position(ms, m);
    var hs := ms[..i] + ms[i + 1..];
    assert Remove(ms, m) == Ok(hs);
    DropAt(ms, i);
    assert Sorted(hs) by {
      forall a, b | 0 <= a < b < |hs| ensures !LexLess(hs[b], hs[a]) {
        LexLessAsymmetric(hs[a], hs[b]);
      }
    }
    SortOfSorted(hs);
  }

  /**
   * `make_mux2hijackers` succeeds, keys the sorted muxes, and maps each to
   * the ascending list of all other muxes.
   */
  lemma MakeMux2HijackersSpec(c: Config)
    requires UniqueKeys(c.mux2octet)
    ensures var r := MakeMux2Hijackers(c);
      && r.Ok?
      && Keys(r.value) == SortedMuxes(c)
      && forall k :: 0 <= k < |r.value| ==>
           var hs := r.value[k].1;
           && |hs| == |c.mux2octet| - 1
           && Ascending(hs)
           && forall x :: x in hs <==> x in Muxes(c) && x != r.value[k].0
  {
    var ms := SortedMuxes(c);
    SortedMuxesSpec(c);
    var rs := seq(|ms|, k requires 0 <= k < |ms| => HijackersOf(ms, ms[k]));
    forall k | 0 <= k < |ms| ensures rs[k].Ok? {
      HijackersOfSpec(ms, ms[k]);
    }
    var lists := Collect(rs).value;
    var r := MakeMux2Hijackers(c);
    assert r.value == seq(|ms|, k requires 0 <= k < |ms| && |lists| == |ms| => (ms[k], lists[k]));
    forall k | 0 <= k < |r.value|
      ensures var hs := r.value[k].1;
        && |hs| == |c.mux2octet| - 1
        && Ascending(hs)
        && forall x :: x in hs <==> x in Muxes(c) && x != r.value[k].0
    {
      HijackersOfSpec(ms, ms[k]);
      assert rs[k] == Ok(lists[k]);
    }
  }

  // ---------------------------------------------------------------------------
  // Prefixes
  // ---------------------------------------------------------------------------

  /**
   * `str(ipaddress.IPv4Network(f"184.164.{octet}.0/24"))`: the network prints
   * back as the text it was built from, and an octet outside 0..255 makes the
   * constructor raise `ValueError`.
   */
  function PrefixOf(octet: int): (r: Result<string>) {
    if 0 <= octet <= 255 then Ok("184.164." + NatToString(octet) + ".0/24")
    else Err(ValueError("octet not permitted"))
  }

  /** The prefix of a valid octet has the octet as its third dotted field; others are rejected. */
  lemma PrefixFields(octet: int)
    ensures PrefixOf(octet).Ok? <==> 0 <= octet <= 255
    ensures PrefixOf(octet).Ok? ==>
      var fields := SplitOn(PrefixOf(octet).value, '.');
      && fields == ["184", "164", NatToString(octet), "0/24"]
      && AllDigits(fields[2])
      && DigitsValue(fields[2]) == octet
  {
    if 0 <= octet <= 255 {
      var s := NatToString(octet);
      var parts := ["184", "164", s, "0/24"];
      assert Lacks(s, '.') by {
        forall i | 0 <= i < |s| ensures s[i] != '.' {
          assert IsDigit(s[i]);
        }
      }
      assert Join(".", parts) == "184.164." + s + ".0/24" by {
        assert Join(".", parts[3..]) == "0/24";
        assert Join(".", parts[2..]) == s + "." + "0/24";
        assert parts[2..][1..] == parts[3..];
        assert parts[1..][1..] == parts[2..];
        assert Join(".", parts[1..]) == "164" + "." + Join(".", parts[2..]);
      }
      SplitOnJoin(parts, '.');
      DigitsValueOfNatToString(octet);
    }
  }

  /** Different octets give different prefixes. */
  lemma PrefixInjective(o1: int, o2: int)
    requires PrefixOf(o1).Ok? && PrefixOf(o2).Ok? && PrefixOf(o1) == PrefixOf(o2)
    ensures o1 == o2
  {
    PrefixFields(o1);
    PrefixFields(o2);
  }

  /** `get_mux_prefix_v4net(mux)`: the prefix of the mux's octet, `KeyError` for a mux without one. */
  function MuxPrefix(c: Config, mux: string): (r: Result<string>)
    ensures mux !in Muxes(c) ==> r == Err(KeyError(mux))
    ensures UniqueKeys(c.mux2octet) ==>
      forall k :: 0 <= k < |c.mux2octet| && c.mux2octet[k].0 == mux ==> r == PrefixOf(c.mux2octet[k].1)
  {
    GetSpec(c.mux2octet, mux);
    match Get(c.mux2octet, mux)
    case None => Err(KeyError(mux))
    case Some(octet) => PrefixOf(octet)
  }

  // ---------------------------------------------------------------------------
  // Announcement configurations
  // ---------------------------------------------------------------------------

  /** `{"muxes": [...], "peers": [...]}`, the peers present only when configured. */
  datatype Announce = Announce(muxes: seq<string>, peers: Option<seq<nat>>)

  /** One prefix's entry: `{"announce": [...]}` or `{"withdraw": [...]}`. */
  datatype Entry = Announcing(announce: seq<Announce>) | Withdrawing(withdraw: seq<string>)

  /** An announcement from one mux, with its peers when `mux2peers` has it. */
  function AnnounceFrom(c: Config, mux: string): Announce {
    Announce([mux], Get(c.mux2peers, mux))
  }

  /** One turn of a builder loop: the mux's prefix first, then its entry. */
  function Turn(c: Config, mux: string, entry: string -> Result<Entry>): Result<(string, Entry)> {
    var prefix :- MuxPrefix(c, mux);
    var e :- entry(mux);
    Ok((prefix, e))
  }

  /** The turns of a builder loop, one per mux of `mux2octet`. */
  function Turns(c: Config, entry: string -> Result<Entry>): (rs: seq<Result<(string, Entry)>>)
    ensures |rs| == |c.mux2octet|
  {
    var muxes := Muxes(c);
    seq(|muxes|, k requires 0 <= k < |muxes| => Turn(c, muxes[k], entry))
  }

  /** `announcement[str(v4net)] = entry(mux)` for each mux of `mux2octet`, stopping at the first error. */
  function Build(c: Config, entry: string -> Result<Entry>): Result<seq<(string, Entry)>> {
    var items :- Collect(Turns(c, entry));
    Ok(FromItems(items))
  }

  /** `build_legit`: each prefix announced from its own mux. */
  function BuildLegit(c: Config): Result<seq<(string, Entry)>> {
    Build(c, mux => Ok(Announcing([AnnounceFrom(c, mux)])))
  }

  /** `list[i]` with Python's negative indices counting from the end. */
  function PyIndex(xs: seq<string>, i: int): (r: Result<string>)
    ensures r.Ok? <==> -|xs| <= i < |xs|
  {
    if 0 <= i < |xs| then Ok(xs[i])
    else if -|xs| <= i < 0 then Ok(xs[|xs| + i])
    else Err(IndexError("list index out of range"))
  }

  /** `mux2hijackers[mux][round - 1]`. */
  function Hijacker(m2h: seq<(string, seq<string>)>, mux: string, round: int): Result<string> {
    match Get(m2h, mux)
    case None => Err(KeyError(mux))
    case Some(hs) => PyIndex(hs, round - 1)
  }

  /** `build_hijacks`: each prefix announced from the hijacker the round picks. */
  function BuildHijacks(c: Config, round: int): Result<seq<(string, Entry)>> {
    var m2h :- MakeMux2Hijackers(c);
    Build(c, HijackEntries(c, m2h, round))
  }

  /** The entry of one mux's prefix in hijack mode. */
  function HijackEntry(c: Config, m2h: seq<(string, seq<string>)>, round: int, mux: string): Result<Entry> {
    var h :- Hijacker(m2h, mux, round);
    Ok(Announcing([AnnounceFrom(c, h)]))
  }

  function HijackEntries(c: Config, m2h: seq<(string, seq<string>)>, round: int): string -> Result<Entry> {
    mux => HijackEntry(c, m2h, round, mux)
  }

  /** `build_withdraws`: each prefix withdrawn from every mux of `mux2id`. */
  function BuildWithdraws(c: Config): Result<seq<(string, Entry)>> {
    Build(c, mux => Ok(Withdrawing(Keys(c.mux2id))))
  }

  // ---------------------------------------------------------------------------
  // Properties of the builders
  // ---------------------------------------------------------------------------

  /**
   * A builder succeeds exactly when every octet is valid and every entry can
   * be made, and then, with distinct octets, holds one item per mux, in the
   * order of `mux2octet`: the mux's prefix and the mux's entry.
   */
  lemma BuildSpec(c: Config, entry: string -> Result<Entry>)
    requires UniqueKeys(c.mux2octet)
    ensures Build(c, entry).Ok? <==> OctetsValid(c) && forall k :: 0 <= k < |c.mux2octet| ==> entry(c.mux2octet[k].0).Ok?
    ensures Build(c, entry).Ok? && OctetsDistinct(c) ==>
      var d := Build(c, entry).value;
      && |d| == |c.mux2octet|
      && forall k :: 0 <= k < |d| ==>
           d[k] == (PrefixOf(c.mux2octet[k].1).value, entry(c.mux2octet[k].0).value)
  {
    var rs := Turns(c, entry);
    TurnsSpec(c, entry);
    if Build(c, entry).Ok? && OctetsDistinct(c) {
      var items := Collect(rs).value;
      assert forall k :: 0 <= k < |items| ==> rs[k] == Ok(items[k]);
      assert UniqueKeys(items) by {
        forall i, j | 0 <= i < j < |items| ensures items[i].0 != items[j].0 {
          if items[i].0 == items[j].0 {
            PrefixInjective(c.mux2octet[i].1, c.mux2octet[j].1);
          }
        }
      }
      FromItemsUnique(items);
    }
  }

  /** Turn `k` yields the mux's prefix and entry, failing when either fails. */
  lemma TurnsSpec(c: Config, entry: string -> Result<Entry>)
    requires UniqueKeys(c.mux2octet)
    ensures forall k :: 0 <= k < |c.mux2octet| ==>
      && (Turns(c, entry)[k].Ok? <==> 0 <= c.mux2octet[k].1 <= 255 && entry(c.mux2octet[k].0).Ok?)
      && (Turns(c, entry)[k].Ok? ==>
            Turns(c, entry)[k].value == (PrefixOf(c.mux2octet[k].1).value, entry(c.mux2octet[k].0).value))
  {
    forall k | 0 <= k < |c.mux2octet| ensures MuxPrefix(c, c.mux2octet[k].0) == PrefixOf(c.mux2octet[k].1) {
    }
  }

  /** Legit mode: each mux's prefix is announced from that mux alone, with its configured peers. */
  lemma LegitSpec(c: Config)
    requires UniqueKeys(c.mux2octet)
    ensures BuildLegit(c).Ok? <==> OctetsValid(c)
    ensures BuildLegit(c).Ok? && OctetsDistinct(c) ==>
      var d := BuildLegit(c).value;
      && |d| == |c.mux2octet|
      && forall k :: 0 <= k < |d| ==>
           var mux := c.mux2octet[k].0;
           d[k] == (PrefixOf(c.mux2octet[k].1).value, Announcing([Announce([mux], Get(c.mux2peers, mux))]))
  {
    BuildSpec(c, mux => Ok(Announcing([AnnounceFrom(c, mux)])));
  }

  /** Withdraw mode: each mux's prefix is withdrawn from every mux of `mux2id`, in its order. */
  lemma WithdrawsSpec(c: Config)
    requires UniqueKeys(c.mux2octet)
    ensures BuildWithdraws(c).Ok? <==> OctetsValid(c)
    ensures BuildWithdraws(c).Ok? && OctetsDistinct(c) ==>
      var d := BuildWithdraws(c).value;
      && |d| == |c.mux2octet|
      && forall k :: 0 <= k < |d| ==>
           && d[k].0 == PrefixOf(c.mux2octet[k].1).value
           && d[k].1 == Withdrawing(Keys(c.mux2id))
           && forall m :: m in d[k].1.withdraw <==> m in Keys(c.mux2id)
  {
    BuildSpec(c, mux => Ok(Withdrawing(Keys(c.mux2id))));
  }

  /** Peers accompany an announcement exactly when the announcing mux is in `mux2peers`, and are its list. */
  lemma PeersSpec(c: Config, mux: string)
    requires UniqueKeys(c.mux2peers)
    ensures AnnounceFrom(c, mux).muxes == [mux]
    ensures AnnounceFrom(c, mux).peers.Some? <==> mux in Keys(c.mux2peers)
    ensures forall k :: 0 <= k < |c.mux2peers| && c.mux2peers[k].0 == mux ==>
      AnnounceFrom(c, mux).peers == Some(c.mux2peers[k].1)
  {
    GetSpec(c.mux2peers, mux);
  }

  /** The valid rounds of hijack mode: `round - 1` must index a list of `n - 1` hijackers. */
  predicate RoundValid(n: nat, round: int) {
    n == 0 || -(n - 1) <= round - 1 < n - 1
  }

  /** The position `round - 1` picks in a list of `len` hijackers. */
  function PickedIndex(len: nat, round: int): int {
    if round - 1 >= 0 then round - 1 else len + round - 1
  }

  /**
   * Hijack mode: with valid, distinct octets the configuration exists exactly
   * for the valid rounds; each mux's prefix is then announced from the
   * hijacker at position `round - 1` of its ascending list of other muxes,
   * never from the mux itself, with the hijacker's configured peers.
   */
  lemma HijacksSpec(c: Config, round: int)
    requires UniqueKeys(c.mux2octet) && OctetsValid(c)
    ensures MakeMux2Hijackers(c).Ok?
    ensures BuildHijacks(c, round).Ok? <==> RoundValid(|c.mux2octet|, round)
    ensures BuildHijacks(c, round).Ok? && OctetsDistinct(c) ==>
      var d := BuildHijacks(c, round).value;
      var m2h := MakeMux2Hijackers(c).value;
      && |d| == |c.mux2octet|
      && forall k :: 0 <= k < |d| ==>
           var mux := c.mux2octet[k].0;
           && Get(m2h, mux).Some?
           && var hs := Get(m2h, mux).value;
              && 0 <= PickedIndex(|hs|, round) < |hs|
              && hs[PickedIndex(|hs|, round)] != mux
              && hs[PickedIndex(|hs|, round)] in Muxes(c)
              && d[k] == (PrefixOf(c.mux2octet[k].1).value, Announcing([AnnounceFrom(c, hs[PickedIndex(|hs|, round)])]))
  {
    HijacksExist(c, round);
    if BuildHijacks(c, round).Ok? && OctetsDistinct(c) {
      HijacksContent(c, round);
      HijackersOthers(c, round);
    }
  }

  /** The existence half of `HijacksSpec`. */
  lemma HijacksExist(c: Config, round: int)
    requires UniqueKeys(c.mux2octet) && OctetsValid(c)
    ensures MakeMux2Hijackers(c).Ok?
    ensures BuildHijacks(c, round).Ok? <==> RoundValid(|c.mux2octet|, round)
  {
    HijackListsSpec(c);
    var m2h := MakeMux2Hijackers(c).value;
    var n := |c.mux2octet|;
    var entries := HijackEntries(c, m2h, round);
    assert BuildHijacks(c, round) == Build(c, entries);
    BuildSpec(c, entries);
    forall k | 0 <= k < n
      ensures entries(c.mux2octet[k].0).Ok? <==> RoundValid(n, round)
    {
      HijackEntrySpec(c, m2h, round, c.mux2octet[k].0, n);
    }
  }

  /** The hijacker picked for a mux is another configured mux. */
  lemma HijackersOthers(c: Config, round: int)
    requires UniqueKeys(c.mux2octet)
    ensures MakeMux2Hijackers(c).Ok?
    ensures var m2h := MakeMux2Hijackers(c).value;
      forall k :: 0 <= k < |c.mux2octet| ==>
        var mux := c.mux2octet[k].0;
        && Get(m2h, mux).Some?
        && var hs := Get(m2h, mux).value;
           0 <= PickedIndex(|hs|, round) < |hs| ==>
             hs[PickedIndex(|hs|, round)] != mux && hs[PickedIndex(|hs|, round)] in Muxes(c)
  {
    HijackListsSpec(c);
    var m2h := MakeMux2Hijackers(c).value;
    forall k | 0 <= k < |c.mux2octet|
      ensures var hs := Get(m2h, c.mux2octet[k].0).value;
        0 <= PickedIndex(|hs|, round) < |hs| ==>
          hs[PickedIndex(|hs|, round)] != c.mux2octet[k].0 && hs[PickedIndex(|hs|, round)] in Muxes(c)
    {
      var hs := Get(m2h, c.mux2octet[k].0).value;
      var p := PickedIndex(|hs|, round);
      if 0 <= p < |hs| {
        assert hs[p] in hs;
      }
    }
  }

  /** The content half of `HijacksSpec`. */
  lemma HijacksContent(c: Config, round: int)
    requires UniqueKeys(c.mux2octet) && OctetsValid(c) && OctetsDistinct(c)
    requires MakeMux2Hijackers(c).Ok?
    requires Build(c, HijackEntries(c, MakeMux2Hijackers(c).value, round)).Ok?
    ensures var d := Build(c, HijackEntries(c, MakeMux2Hijackers(c).value, round)).value;
      var m2h := MakeMux2Hijackers(c).value;
      && |d| == |c.mux2octet|
      && forall k :: 0 <= k < |d| ==>
           var mux := c.mux2octet[k].0;
           && Get(m2h, mux).Some?
           && var hs := Get(m2h, mux).value;
              && 0 <= PickedIndex(|hs|, round) < |hs|
              && d[k] == (PrefixOf(c.mux2octet[k].1).value, Announcing([AnnounceFrom(c, hs[PickedIndex(|hs|, round)])]))
  {
    var m2h := MakeMux2Hijackers(c).value;
    var entries := HijackEntries(c, m2h, round);
    HijackListsSpec(c);
    BuildSpec(c, entries);
    var d := Build(c, entries).value;
    forall k | 0 <= k < |d|
      ensures var mux := c.mux2octet[k].0;
        var hs := Get(m2h, mux).value;
        && 0 <= PickedIndex(|hs|, round) < |hs|
        && d[k] == (PrefixOf(c.mux2octet[k].1).value, Announcing([AnnounceFrom(c, hs[PickedIndex(|hs|, round)])]))
    {
      var mux := c.mux2octet[k].0;
      HijackEntrySpec(c, m2h, round, mux, |c.mux2octet|);
    }
  }

  /** Every mux of `mux2octet` has its list of hijackers: all the other muxes, ascending. */
  lemma HijackListsSpec(c: Config)
    requires UniqueKeys(c.mux2octet)
    ensures MakeMux2Hijackers(c).Ok?
    ensures var m2h := MakeMux2Hijackers(c).value;
      forall k :: 0 <= k < |c.mux2octet| ==>
        var mux := c.mux2octet[k].0;
        && Get(m2h, mux).Some?
        && |Get(m2h, mux).value| == |c.mux2octet| - 1
        && Ascending(Get(m2h, mux).value)
        && forall x :: x in Get(m2h, mux).value <==> x in Muxes(c) && x != mux
  {
    MakeMux2HijackersSpec(c);
    SortedMuxesSpec(c);
    var m2h := MakeMux2Hijackers(c).value;
    UniqueAscending(m2h, SortedMuxes(c));
    forall k | 0 <= k < |c.mux2octet|
      ensures var mux := c.mux2octet[k].0;
        && Get(m2h, mux).Some?
        && |Get(m2h, mux).value| == |c.mux2octet| - 1
        && Ascending(Get(m2h, mux).value)
        && forall x :: x in Get(m2h, mux).value <==> x in Muxes(c) && x != mux
    {
      var mux := c.mux2octet[k].0;
      assert mux == Muxes(c)[k];
      assert mux in Keys(m2h);
      var a :| 0 <= a < |m2h| && Keys(m2h)[a] == mux;
      GetSpec(m2h, mux);
    }
  }

  /**
   * One mux's hijack entry exists exactly for the valid rounds and announces
   * from the hijacker at the picked position, with its configured peers.
   */
  lemma HijackEntrySpec(c: Config, m2h: seq<(string, seq<string>)>, round: int, mux: string, n: nat)
    requires n >= 1 && Get(m2h, mux).Some? && |Get(m2h, mux).value| == n - 1
    ensures HijackEntry(c, m2h, round, mux).Ok? <==> RoundValid(n, round)
    ensures HijackEntry(c, m2h, round, mux).Ok? ==>
      var hs := Get(m2h, mux).value;
      && 0 <= PickedIndex(|hs|, round) < |hs|
      && HijackEntry(c, m2h, round, mux).value ==
           Announcing([Announce([hs[PickedIndex(|hs|, round)]], Get(c.mux2peers, hs[PickedIndex(|hs|, round)]))])
  {
  }

  /** Keys listed in strictly increasing order are unique. */
  lemma UniqueAscending<V>(d: seq<(string, V)>, ks: seq<string>)
    requires Keys(d) == ks && Ascending(ks)
    ensures UniqueKeys(d)
  {
    forall i, j | 0 <= i < j < |d| ensures d[i].0 != d[j].0 {
      assert ks[i] == d[i].0 && ks[j] == d[j].0;
      if d[i].0 == d[j].0 {
        LexLessIrreflexive(ks[i]);
      }
    }
  }

  /** Round 0 wraps around: the hijacker is the greatest other mux. */
  lemma RoundZeroPicksGreatest(hs: seq<string>)
    requires |hs| > 0 && Ascending(hs)
    ensures PyIndex(hs, 0 - 1) == Ok(hs[|hs| - 1])
    ensures forall x :: x in hs && x != hs[|hs| - 1] ==> LexLess(x, hs[|hs| - 1])
  {
  }

  /** Rounds from `n` on (one hijacker fewer than muxes) raise `IndexError`. */
  lemma LateRoundFails(m2h: seq<(string, seq<string>)>, mux: string, round: int)
    requires Get(m2h, mux).Some? && round >= |Get(m2h, mux).value| + 1
    ensures Hijacker(m2h, mux, round) == Err(IndexError("list index out of range"))
  {
  }

  /** With the production `mux2peers`, only amsterdam01, seattle01 and ufmg01 restrict their peers. */
  lemma ProdPeers(mux2octet: seq<(string, int)>, mux: string)
    ensures var c := Config(mux2octet, ProdMux2Peers, ProdMux2Id);
      && AnnounceFrom(c, "amsterdam01").peers == Some([60, 61])
      && AnnounceFrom(c, "seattle01").peers == Some([101])
      && AnnounceFrom(c, "ufmg01").peers == Some([16])
      && (mux !in {"amsterdam01", "seattle01", "ufmg01"} ==> AnnounceFrom(c, mux).peers == None)
  {
  }
}
