/**
 * Catchment inference from tcpdump text. Both catchment scripts share the
 * response filter `check_response`. build-catchments.py records, for every
 * vantage point (VP) and each of its targets, the tap on which the target's
 * echo reply was last seen. build-catchments-te-exp.py instead collects the
 * accepted (VP, target) pairs per tap and the VPs per target and tap, and
 * derives hitlists and an anycast count from them.
 *
 * Running tcpdump and reading files are outside the model: each tap's dump
 * arrives as the sequence of lines tcpdump prints. `IPv4Address(text)` is an
 * opaque partial parser, passed in as a parameter.
 */
module Catchments {
  import opened Wrappers
  import opened Text

  /** An IPv4 address, as the integer an `IPv4Address` wraps. */
  type Addr = nat

  /** A tap interface name, such as "tap3". */
  type Tap = string

  /** A mux name. */
  type Mux = string

  /** `IPv4Address(text)`: `None` where the constructor raises ValueError. */
  type AddrParser = string -> Option<Addr>

  /** `src2remotes`: the targets each VP (source address) probes. */
  type Targets = map<Addr, set<Addr>>

  // ---------------------------------------------------------------------------
  // The response filter
  // ---------------------------------------------------------------------------

  /** The whitespace-separated tokens of a stripped tcpdump line. */
  function Tokens(line: string): seq<string> {
    Split(Strip(line))
  }

  /**
   * The line is an ICMP echo reply from `remote` to `vp`: it has at least ten
   * tokens, token 2 parses as `remote`, token 4 stripped of ':' as `vp`,
   * token 7 stripped of ',' reads "reply", and token 9 stripped of ',' is an
   * integer.
   */
  predicate IsReply(line: string, parse: AddrParser, vp: Addr, remote: Addr) {
    var t := Tokens(line);
    |t| >= 10
    && parse(t[2]) == Some(remote)
    && parse(StripChar(t[4], ':')) == Some(vp)
    && StripChar(t[7], ',') == "reply"
    && PyInt(StripChar(t[9], ',')).Some?
  }

  /** The reply comes from a target of a known VP. */
  predicate Expected(targets: Targets, vp: Addr, remote: Addr) {
    vp in targets && remote in targets[vp]
  }

  /**
   * `check_response`: the (VP, target) pair of an expected echo reply, or
   * `None` for a short line, a field that fails to parse, a mode other than
   * "reply", an unknown VP or a target the VP does not probe.
   */
  function CheckResponse(line: string, targets: Targets, parse: AddrParser): (r: Option<(Addr, Addr)>)
    ensures |Tokens(line)| < 10 ==> r == None
    ensures r.Some? ==> IsReply(line, parse, r.value.0, r.value.1) && Expected(targets, r.value.0, r.value.1)
    ensures forall vp: Addr, remote: Addr :: IsReply(line, parse, vp, remote) && Expected(targets, vp, remote) ==> r == Some((vp, remote))
  {
    var t := Tokens(line);
    if |t| < 10 then None
    else
      match (parse(t[2]), parse(StripChar(t[4], ':')), PyInt(StripChar(t[9], ',')))
      case (Some(remote), Some(vp), Some(_)) =>
        // The source tests the mode twice in a row; one test has the same effect.
        if StripChar(t[7], ',') != "reply" then None
        else if vp !in targets then None
        else if remote !in targets[vp] then None
        else Some((vp, remote))
      case _ => None
  }

  /** A response filter: `check_response` with its VP table and address parser fixed. */
  type Checker = string -> Option<(Addr, Addr)>

  /** Every pair the filter accepts is an expected (VP, target) pair. */
  ghost predicate Sound(check: Checker, targets: Targets) {
    forall line :: check(line).Some? ==> Expected(targets, check(line).value.0, check(line).value.1)
  }

  /** `check_response(line, src2remotes)` as a filter over lines. */
  function Filter(targets: Targets, parse: AddrParser): (check: Checker)
    ensures Sound(check, targets)
    ensures forall line :: check(line) == CheckResponse(line, targets, parse)
  {
    line => CheckResponse(line, targets, parse)
  }

  /** The pairs a dump's lines are accepted as, as a set. */
  function Accepted(lines: seq<string>, check: Checker): (a: set<(Addr, Addr)>)
    decreases |lines|
  {
    if |lines| == 0 then {}
    else
      var here := match check(lines[0]) case None => {} case Some(p) => {p};
      here + Accepted(lines[1..], check)
  }

  /** Unfolds `Accepted` by one line. */
  lemma AcceptedStep(lines: seq<string>, check: Checker)
    requires |lines| > 0
    ensures Accepted(lines, check) ==
      (match check(lines[0]) case None => {} case Some(p) => {p}) + Accepted(lines[1..], check)
  {
  }

  /** A pair is accepted from a dump exactly when some line of it yields that pair. */
  lemma {:induction false} AcceptedLines(lines: seq<string>, check: Checker, p: (Addr, Addr))
    ensures p in Accepted(lines, check) <==>
      exists i :: 0 <= i < |lines| && check(lines[i]) == Some(p)
    decreases |lines|
  {
    if |lines| > 0 {
      AcceptedLines(lines[1..], check, p);
      if p in Accepted(lines[1..], check) {
        var i :| 0 <= i < |lines[1..]| && check(lines[1..][i]) == Some(p);
        assert check(lines[i + 1]) == Some(p);
      }
      if exists i :: 0 <= i < |lines| && check(lines[i]) == Some(p) {
        var i :| 0 <= i < |lines| && check(lines[i]) == Some(p);
        if i > 0 {
          assert check(lines[1..][i - 1]) == Some(p);
        }
      }
    }
  }

  // ---------------------------------------------------------------------------
  // build-catchments.py: the tap each reply was last seen on
  // ---------------------------------------------------------------------------

  /** `src2remote2tap`: for each VP and target, the tap that saw the reply, if any. */
  type TapTable = map<Addr, map<Addr, Option<Tap>>>

  /** The table has exactly one entry per (VP, target) pair. */
  predicate Shaped(t: TapTable, targets: Targets) {
    t.Keys == targets.Keys && forall s :: s in t ==> t[s].Keys == targets[s]
  }

  /** The starting table: no reply seen for any pair. */
  function InitTable(targets: Targets): (t: TapTable)
    ensures Shaped(t, targets)
    ensures forall s, r :: s in t && r in t[s] ==> t[s][r] == None
  {
    map s | s in targets :: map r | r in targets[s] :: None
  }

  /** One line of a tap's dump: an accepted reply records the tap. */
  function RecordLine(t: TapTable, targets: Targets, check: Checker, tap: Tap, line: string): (t': TapTable)
    requires Shaped(t, targets) && Sound(check, targets)
    ensures Shaped(t', targets)
  {
    match check(line)
    case None => t
    case Some(p) =>
      var row: map<Addr, Option<Tap>> := t[p.0][p.1 := Some(tap)];
      t[p.0 := row]
  }

  /** The scan of one tap's dump, line by line. */
  function ScanDump(t: TapTable, targets: Targets, check: Checker, tap: Tap, lines: seq<string>): (t': TapTable)
    requires Shaped(t, targets) && Sound(check, targets)
    ensures Shaped(t', targets)
    decreases |lines|
  {
    if |lines| == 0 then t
    else ScanDump(RecordLine(t, targets, check, tap, lines[0]), targets, check, tap, lines[1..])
  }

  /** The whole table: the dumps of `tap2dump` scanned in dictionary order. */
  function TapTableOf(targets: Targets, check: Checker, dumps: seq<(Tap, seq<string>)>): (t: TapTable)
    requires Sound(check, targets)
    ensures Shaped(t, targets)
  {
    if |dumps| == 0 then InitTable(targets)
    else
      var last := dumps[|dumps| - 1];
      ScanDump(TapTableOf(targets, check, dumps[..|dumps| - 1]), targets, check, last.0, last.1)
  }

  /** Reference: the tap of the last dump that accepted the pair (s, r). */
  function LastTap(check: Checker, dumps: seq<(Tap, seq<string>)>, s: Addr, r: Addr): Option<Tap> {
    if |dumps| == 0 then None
    else
      var last := dumps[|dumps| - 1];
      if (s, r) in Accepted(last.1, check) then Some(last.0)
      else LastTap(check, dumps[..|dumps| - 1], s, r)
  }

  /** Within one dump, an entry becomes the tap exactly when the dump accepts its pair. */
  lemma {:induction false} ScanDumpEntry(t: TapTable, targets: Targets, check: Checker, tap: Tap, lines: seq<string>, s: Addr, r: Addr)
    requires Shaped(t, targets) && Sound(check, targets) && s in t && r in t[s]
    ensures ScanDump(t, targets, check, tap, lines)[s][r] ==
      if (s, r) in Accepted(lines, check) then Some(tap) else t[s][r]
    decreases |lines|
  {
    if |lines| > 0 {
      var t1 := RecordLine(t, targets, check, tap, lines[0]);
      ScanDumpEntry(t1, targets, check, tap, lines[1..], s, r);
      AcceptedStep(lines, check);
      match check(lines[0])
      case None =>
      case Some(p) =>
        assert t1[s][r] == if p == (s, r) then Some(tap) else t[s][r];
    }
  }

  /**
   * Every (VP, target) entry of `src2remote2tap` is the tap of the last dump
   * that accepted a reply for that pair, and None when no dump did.
   */
  lemma {:induction false} TapTableEntry(targets: Targets, check: Checker, dumps: seq<(Tap, seq<string>)>, s: Addr, r: Addr)
    requires Sound(check, targets) && Expected(targets, s, r)
    ensures TapTableOf(targets, check, dumps)[s][r] == LastTap(check, dumps, s, r)
  {
    if |dumps| > 0 {
      var last := dumps[|dumps| - 1];
      TapTableEntry(targets, check, dumps[..|dumps| - 1], s, r);
      ScanDumpEntry(TapTableOf(targets, check, dumps[..|dumps| - 1]), targets, check, last.0, last.1, s, r);
    }
  }

  /**
   * `src2remote2tap` after every dump: one entry per (VP, target) pair, holding
   * the tap of the last dump with an accepted reply for it, or None.
   */
  function SrcRemote2Tap(targets: Targets, parse: AddrParser, dumps: seq<(Tap, seq<string>)>): (t: TapTable)
    ensures Shaped(t, targets)
    ensures forall s, r :: Expected(targets, s, r) ==> t[s][r] == LastTap(Filter(targets, parse), dumps, s, r)
  {
    var check := Filter(targets, parse);
    assert forall s, r :: Expected(targets, s, r) ==> TapTableOf(targets, check, dumps)[s][r] == LastTap(check, dumps, s, r) by {
      forall s, r | Expected(targets, s, r) ensures TapTableOf(targets, check, dumps)[s][r] == LastTap(check, dumps, s, r) {
        TapTableEntry(targets, check, dumps, s, r);
      }
    }
    TapTableOf(targets, check, dumps)
  }

  /** LastTap is None exactly when no dump accepted the pair. */
  lemma {:induction false} LastTapNone(check: Checker, dumps: seq<(Tap, seq<string>)>, s: Addr, r: Addr)
    ensures LastTap(check, dumps, s, r) == None <==>
      forall i :: 0 <= i < |dumps| ==> (s, r) !in Accepted(dumps[i].1, check)
  {
    if |dumps| > 0 {
      var init := dumps[..|dumps| - 1];
      LastTapNone(check, init, s, r);
      if LastTap(check, dumps, s, r) == None {
        forall i | 0 <= i < |dumps| ensures (s, r) !in Accepted(dumps[i].1, check) {
          if i < |init| {
            assert init[i] == dumps[i];
          }
        }
      } else {
        var i := |dumps| - 1;
        if (s, r) !in Accepted(dumps[i].1, check) {
          var k :| 0 <= k < |init| && (s, r) in Accepted(init[k].1, check);
          assert init[k] == dumps[k];
        }
      }
    }
  }

  /** Later dumps win: the dump at `i` decides when no later dump accepted the pair. */
  lemma {:induction false} LastTapAt(check: Checker, dumps: seq<(Tap, seq<string>)>, s: Addr, r: Addr, i: nat)
    requires i < |dumps| && (s, r) in Accepted(dumps[i].1, check)
    requires forall j :: i < j < |dumps| ==> (s, r) !in Accepted(dumps[j].1, check)
    ensures LastTap(check, dumps, s, r) == Some(dumps[i].0)
  {
    if i < |dumps| - 1 {
      var init := dumps[..|dumps| - 1];
      assert init[i] == dumps[i];
      forall j | i < j < |init| ensures (s, r) !in Accepted(init[j].1, check) {
        assert init[j] == dumps[j];
      }
      LastTapAt(check, init, s, r, i);
    }
  }

  // ---------------------------------------------------------------------------
  // build-catchments-te-exp.py: per-tap pairs and per-target taps
  // ---------------------------------------------------------------------------

  /** The state of the te-exp scan: `tap2addr` and `addr2tap2vps`. */
  datatype Catchment = Catchment(tap2addr: map<Tap, set<(Addr, Addr)>>, addr2tap2vps: map<Addr, map<Tap, set<Addr>>>)

  /** `addr2tap2vps[remote][tap]`, with the default-dict's empty set for a missing entry. */
  function Vps(m: map<Addr, map<Tap, set<Addr>>>, remote: Addr, tap: Tap): set<Addr> {
    if remote in m && tap in m[remote] then m[remote][tap] else {}
  }

  /** The default-dicts only ever create an entry to add to it, so no stored set is empty. */
  predicate NoEmpty(m: map<Addr, map<Tap, set<Addr>>>) {
    forall remote, tap :: remote in m && tap in m[remote] ==> m[remote][tap] != {}
  }

  /** `addr2tap2vps[remote][tap].add(vp)`, creating the entries on demand. */
  function AddVp(m: map<Addr, map<Tap, set<Addr>>>, remote: Addr, tap: Tap, vp: Addr): (m': map<Addr, map<Tap, set<Addr>>>)
    ensures forall a, t :: Vps(m', a, t) == if a == remote && t == tap then Vps(m, a, t) + {vp} else Vps(m, a, t)
    ensures NoEmpty(m) ==> NoEmpty(m')
  {
    var inner := if remote in m then m[remote] else map[];
    var vps := if tap in inner then inner[tap] else {};
    m[remote := inner[tap := vps + {vp}]]
  }

  /** The VPs of the pairs in `pairs` whose target is `remote`. */
  function VpsOf(pairs: set<(Addr, Addr)>, remote: Addr): set<Addr> {
    set p | p in pairs && p.1 == remote :: p.0
  }

  /** The targets of the pairs in `pairs` whose VP is `vp`: a hitlist. */
  function RemotesOf(pairs: set<(Addr, Addr)>, vp: Addr): set<Addr> {
    set p | p in pairs && p.0 == vp :: p.1
  }

  /** The scan of one tap's dump, line by line. */
  function ScanTe(c: Catchment, check: Checker, tap: Tap, lines: seq<string>): (c': Catchment)
    requires tap in c.tap2addr
    ensures c'.tap2addr.Keys == c.tap2addr.Keys
    decreases |lines|
  {
    if |lines| == 0 then c
    else
      match check(lines[0])
      case None => ScanTe(c, check, tap, lines[1..])
      case Some(p) =>
        var c1 := Catchment(c.tap2addr[tap := c.tap2addr[tap] + {p}], AddVp(c.addr2tap2vps, p.1, tap, p.0));
        ScanTe(c1, check, tap, lines[1..])
  }

  /** The te-exp scan over the dumps of `tap2dump` in dictionary order. */
  function CatchmentOf(check: Checker, dumps: seq<(Tap, seq<string>)>): (c: Catchment)
    ensures c.tap2addr.Keys == set i | 0 <= i < |dumps| :: dumps[i].0
  {
    if |dumps| == 0 then Catchment(map[], map[])
    else
      var init := dumps[..|dumps| - 1];
      var last := dumps[|dumps| - 1];
      var c := CatchmentOf(check, init);
      assert forall i :: 0 <= i < |init| ==> init[i] == dumps[i];
      ScanTe(Catchment(c.tap2addr[last.0 := {}], c.addr2tap2vps), check, last.0, last.1)
  }

  /** The taps of `tap2dump` are distinct, as dictionary keys are. */
  predicate DistinctTaps(dumps: seq<(Tap, seq<string>)>) {
    forall i, j :: 0 <= i < j < |dumps| ==> dumps[i].0 != dumps[j].0
  }

  /** Both maps agree: a VP is listed for (remote, tap) exactly when tap2addr[tap] holds the pair. */
  ghost predicate Agree(c: Catchment) {
    NoEmpty(c.addr2tap2vps)
    && (forall remote, tap :: Vps(c.addr2tap2vps, remote, tap) ==
          if tap in c.tap2addr then VpsOf(c.tap2addr[tap], remote) else {})
  }

  /** One dump adds its accepted pairs to its tap, in both maps. */
  lemma {:induction false} ScanTeAdds(c: Catchment, check: Checker, tap: Tap, lines: seq<string>)
    requires tap in c.tap2addr && Agree(c)
    ensures var c' := ScanTe(c, check, tap, lines);
      c'.tap2addr == c.tap2addr[tap := c.tap2addr[tap] + Accepted(lines, check)] && Agree(c')
    decreases |lines|
  {
    if |lines| > 0 {
      AcceptedStep(lines, check);
      match check(lines[0])
      case None =>
        ScanTeAdds(c, check, tap, lines[1..]);
        assert Accepted(lines, check) == Accepted(lines[1..], check);
        assert ScanTe(c, check, tap, lines) == ScanTe(c, check, tap, lines[1..]);
      case Some(p) =>
        var c1 := Catchment(c.tap2addr[tap := c.tap2addr[tap] + {p}], AddVp(c.addr2tap2vps, p.1, tap, p.0));
        forall a, t ensures Vps(c1.addr2tap2vps, a, t) == if t in c1.tap2addr then VpsOf(c1.tap2addr[t], a) else {} {
          if t == tap && a == p.1 {
            assert VpsOf(c1.tap2addr[t], a) == VpsOf(c.tap2addr[t], a) + {p.0};
          } else if t == tap {
            assert VpsOf(c1.tap2addr[t], a) == VpsOf(c.tap2addr[t], a);
          }
        }
        ScanTeAdds(c1, check, tap, lines[1..]);
        assert ScanTe(c, check, tap, lines) == ScanTe(c1, check, tap, lines[1..]);
        assert Accepted(lines, check) == {p} + Accepted(lines[1..], check);
        assert c1.tap2addr[tap] + Accepted(lines[1..], check) == c.tap2addr[tap] + Accepted(lines, check);
        assert c1.tap2addr[tap := c1.tap2addr[tap] + Accepted(lines[1..], check)]
          == c.tap2addr[tap := c.tap2addr[tap] + Accepted(lines, check)];
    } else {
      assert Accepted(lines, check) == {};
      assert c.tap2addr[tap] + {} == c.tap2addr[tap];
      assert c.tap2addr[tap := c.tap2addr[tap]] == c.tap2addr;
    }
  }

  /**
   * With distinct taps, `tap2addr[tap]` is exactly the set of pairs accepted
   * from that tap's dump, and `addr2tap2vps[remote][tap]` exists exactly when
   * some VP's reply from `remote` was accepted on `tap`, holding those VPs.
   */
  lemma {:induction false} CatchmentSpec(check: Checker, dumps: seq<(Tap, seq<string>)>)
    requires DistinctTaps(dumps)
    ensures var c := CatchmentOf(check, dumps);
      Agree(c) && forall i :: 0 <= i < |dumps| ==> c.tap2addr[dumps[i].0] == Accepted(dumps[i].1, check)
  {
    if |dumps| > 0 {
      var init := dumps[..|dumps| - 1];
      var last := dumps[|dumps| - 1];
      assert forall i :: 0 <= i < |init| ==> init[i] == dumps[i];
      CatchmentSpec(check, init);
      var c := CatchmentOf(check, init);
      assert last.0 !in c.tap2addr;
      var c0 := Catchment(c.tap2addr[last.0 := {}], c.addr2tap2vps);
      forall a, t ensures Vps(c0.addr2tap2vps, a, t) == if t in c0.tap2addr then VpsOf(c0.tap2addr[t], a) else {} {
        if t == last.0 {
          assert VpsOf(c0.tap2addr[t], a) == {};
        }
      }
      ScanTeAdds(c0, check, last.0, last.1);
    }
  }

  /** A mux's hitlist: the targets its source's replies were seen for on the mux's tap. */
  function Hitlist(mux: Mux, src: Addr, mux2tap: map<Mux, Tap>, tap2addr: map<Tap, set<(Addr, Addr)>>): (r: Result<set<Addr>>)
    ensures r.Err? <==> mux !in mux2tap || mux2tap[mux] !in tap2addr
    ensures r.Err? ==> r.error.KeyError?
    ensures r.Ok? ==> forall a :: a in r.value <==> (src, a) in tap2addr[mux2tap[mux]]
  {
    if mux !in mux2tap then Err(KeyError(mux))
    else if mux2tap[mux] !in tap2addr then Err(KeyError(mux2tap[mux]))
    else Ok(RemotesOf(tap2addr[mux2tap[mux]], src))
  }

  /**
   * The hitlists of every mux of `emux2src`, or the KeyError that stops the
   * loop when some mux has no tap or its tap no dump.
   */
  function Hitlists(emux2src: map<Mux, Addr>, mux2tap: map<Mux, Tap>, tap2addr: map<Tap, set<(Addr, Addr)>>): (r: Result<map<Mux, set<Addr>>>)
    ensures r.Ok? <==> forall mux :: mux in emux2src ==> Hitlist(mux, emux2src[mux], mux2tap, tap2addr).Ok?
    ensures r.Ok? ==> r.value.Keys == emux2src.Keys
    ensures r.Ok? ==> forall mux :: mux in r.value ==> Hitlist(mux, emux2src[mux], mux2tap, tap2addr) == Ok(r.value[mux])
  {
    if forall mux :: mux in emux2src ==> mux in mux2tap && mux2tap[mux] in tap2addr then
      Ok(map mux | mux in emux2src :: RemotesOf(tap2addr[mux2tap[mux]], emux2src[mux]))
    else
      // Which key fails first depends on the dictionary's order, so the error
      // names the lookup rather than the key.
      Err(KeyError("tap2addr[mux2tap[mux]]"))
  }

  /** A hitlist built from the scan lists exactly the targets whose reply to the source a line of that tap's dump shows. */
  lemma HitlistSeen(check: Checker, dumps: seq<(Tap, seq<string>)>, mux2tap: map<Mux, Tap>, mux: Mux, src: Addr, i: nat, a: Addr)
    requires DistinctTaps(dumps) && i < |dumps| && mux in mux2tap && mux2tap[mux] == dumps[i].0
    ensures var r := Hitlist(mux, src, mux2tap, CatchmentOf(check, dumps).tap2addr);
      r.Ok? && (a in r.value <==> exists k :: 0 <= k < |dumps[i].1| && check(dumps[i].1[k]) == Some((src, a)))
  {
    CatchmentSpec(check, dumps);
    AcceptedLines(dumps[i].1, check, (src, a));
  }

  /** The targets seen on more than one tap. */
  function AnycastTargets(m: map<Addr, map<Tap, set<Addr>>>): set<Addr> {
    set a | a in m && |m[a]| > 1
  }

  /** `inferred_anycast`: the number of targets seen on more than one tap. */
  function AnycastCount(m: map<Addr, map<Tap, set<Addr>>>): (n: nat)
    ensures n <= |m|
  {
    assert AnycastTargets(m) <= m.Keys;
    SubsetSize(AnycastTargets(m), m.Keys);
    |AnycastTargets(m)|
  }

  lemma SubsetSize<T>(a: set<T>, b: set<T>)
    requires a <= b
    ensures |a| <= |b|
  {
    assert b == a + (b - a);
  }

  /** A set has more than one element exactly when it holds two different ones. */
  lemma {:induction false} TwoElements<T>(s: set<T>)
    ensures |s| > 1 <==> exists x, y :: x in s && y in s && x != y
  {
    if |s| > 1 {
      var x :| x in s;
      assert |s - {x}| == |s| - 1;
      var y :| y in s - {x};
    }
    if exists x, y :: x in s && y in s && x != y {
      var x, y :| x in s && y in s && x != y;
      assert {x, y} <= s;
      SubsetSize({x, y}, s);
    }
  }

  /** The pair set of a tap includes a reply from `remote`. */
  predicate SeenOn(c: Catchment, remote: Addr, tap: Tap) {
    tap in c.tap2addr && VpsOf(c.tap2addr[tap], remote) != {}
  }

  /**
   * A target counts as anycast exactly when replies from it were accepted on
   * two different taps.
   */
  lemma AnycastSpec(check: Checker, dumps: seq<(Tap, seq<string>)>, remote: Addr)
    requires DistinctTaps(dumps)
    ensures var c := CatchmentOf(check, dumps);
      remote in AnycastTargets(c.addr2tap2vps) <==>
        exists t1, t2 :: t1 != t2 && SeenOn(c, remote, t1) && SeenOn(c, remote, t2)
  {
    var c := CatchmentOf(check, dumps);
    CatchmentSpec(check, dumps);
    var m := c.addr2tap2vps;
    if remote in m {
      TwoElements(m[remote].Keys);
      forall t ensures t in m[remote] <==> SeenOn(c, remote, t) {
        assert Vps(m, remote, t) == if t in c.tap2addr then VpsOf(c.tap2addr[t], remote) else {};
      }
    } else {
      forall t ensures !SeenOn(c, remote, t) {
        assert Vps(m, remote, t) == if t in c.tap2addr then VpsOf(c.tap2addr[t], remote) else {};
      }
    }
  }

  // ---------------------------------------------------------------------------
  // The mux of each source, inverted
  // ---------------------------------------------------------------------------

  /** `{m: s for s, m in src2emux.items()}`, over the items in dictionary order. */
  function Invert(items: seq<(Addr, Mux)>): (m: map<Mux, Addr>)
    ensures m.Keys == set i | 0 <= i < |items| :: items[i].1
  {
    if |items| == 0 then map[]
    else
      var init := items[..|items| - 1];
      assert forall i :: 0 <= i < |init| ==> init[i] == items[i];
      Invert(init)[items[|items| - 1].1 := items[|items| - 1].0]
  }

  /**
   * For a mux listed more than once, the later source wins: the source of the
   * item at `i` stays when no later item names the same mux.
   */
  lemma {:induction false} InvertLastWins(items: seq<(Addr, Mux)>, i: nat)
    requires i < |items|
    requires forall j :: i < j < |items| ==> items[j].1 != items[i].1
    ensures Invert(items)[items[i].1] == items[i].0
  {
    if i < |items| - 1 {
      var init := items[..|items| - 1];
      assert init[i] == items[i];
      forall j | i < j < |init| ensures init[j].1 != init[i].1 {
        assert init[j] == items[j];
      }
      InvertLastWins(init, i);
    }
  }

  /** Every inverted entry goes back: the source it names maps to that mux. */
  lemma {:induction false} InvertSound(items: seq<(Addr, Mux)>, mux: Mux)
    requires mux in Invert(items)
    ensures (Invert(items)[mux], mux) in items
  {
    var init := items[..|items| - 1];
    if items[|items| - 1].1 != mux {
      InvertSound(init, mux);
    }
  }
}
