/**
 * `add_line` and `parse_by_indentation`: a block of `key: value` lines is
 * turned into nested dicts by indentation. The source keeps a stack of
 * (indent, dict) pairs whose dicts are shared with their parents; here each
 * frame owns its map and remembers the key it hangs under, and a frame's
 * map is written back into its parent when the frame is popped.
 */
module BirdTree {
  import opened Wrappers
  import opened Text
  import opened LineReader
  import opened BirdValue

  // ---------------------------------------------------------------------------
  // add_line
  // ---------------------------------------------------------------------------

  /** `int(value)` when it parses, otherwise the string itself. */
  function ScalarOf(v: string): (x: Value)
    ensures x.Int? || x.Str?
    ensures x.Str? ==> x.s == v && PyInt(v).None?
  {
    match PyInt(v)
    case Some(i) => Int(i)
    case None => Str(v)
  }

  /**
   * `add_line`: a line with a colon is split at its first colon, both sides
   * stripped, and the key set to the scalar value; a line without a colon
   * is a key of its own with value `None`. Returns the map and the key.
   */
  function AddLine(d: map<string, Value>, line: string): (res: (map<string, Value>, string))
    ensures res.1 in res.0 && res.0 == d[res.1 := res.0[res.1]]
    ensures Lacks(line, ':') <==> res.0[res.1] == Null && res.1 == line && Lacks(res.1, ':')
  {
    match IndexOf(line, ':')
    case None => (d[line := Null], line)
    case Some(c) =>
      var key := Strip(line[..c]);
      assert Lacks(line[..c], ':') by {
        assert forall i :: 0 <= i < c ==> line[..c][i] == line[i];
      }
      LacksStrip(line[..c], ':');
      (d[key := ScalarOf(Strip(line[c + 1..]))], key)
  }

  /** Stripping keeps a character out. */
  lemma LacksStrip(s: string, c: char)
    requires Lacks(s, c)
    ensures Lacks(Strip(s), c)
  {
    var l := LStripBy(s, IsSpace);
    LacksSlice(s, |s| - |l|, |s|, c);
    LacksSlice(l, 0, |RStripBy(l, IsSpace)|, c);
  }

  lemma LacksSlice(s: string, i: nat, j: nat, c: char)
    requires i <= j <= |s| && Lacks(s, c)
    ensures Lacks(s[i..j], c)
  {
    assert forall k :: 0 <= k < j - i ==> s[i..j][k] == s[i + k];
  }

  /** A rendered `key: <int>` entry is read back as that integer under that key. */
  lemma AddLineInt(d: map<string, Value>, key: string, i: int)
    requires Stripped(key) && Lacks(key, ':')
    ensures AddLine(d, key + ": " + IntToString(i)) == (d[key := Int(i)], key)
  {
    var v := IntToString(i);
    IntToStringRoundTrip(i);
    IntToStringStripped(i);
    EntrySplit(key, v);
  }

  /** A rendered `key: <text>` entry whose text is not an integer is read back as that text. */
  lemma AddLineText(d: map<string, Value>, key: string, v: string)
    requires Stripped(key) && Lacks(key, ':') && Stripped(v) && PyInt(v).None?
    ensures AddLine(d, key + ": " + v) == (d[key := Str(v)], key)
  {
    EntrySplit(key, v);
  }

  /** A line without a colon is stored as a key with value `None`. */
  lemma AddLineBare(d: map<string, Value>, line: string)
    requires Lacks(line, ':')
    ensures AddLine(d, line) == (d[line := Null], line)
  {
  }

  /** `key: value` splits at the colon after the key, and both sides strip back. */
  lemma EntrySplit(key: string, v: string)
    requires Stripped(key) && Lacks(key, ':') && Stripped(v)
    ensures var line := key + ": " + v;
      && IndexOf(line, ':') == Some(|key|)
      && Strip(line[..|key|]) == key && Strip(line[|key| + 1..]) == v
  {
    var line := key + ": " + v;
    assert line == key + [':'] + (" " + v);
    IndexOfConcat(key, ':', " " + v);
    assert line[..|key|] == key;
    StripNoOp(key);
    assert line[|key| + 1..] == " " + v + "";
    StripPadded(" ", v, "");
  }

  /** `str(i)` has no blanks at either end. */
  lemma IntToStringStripped(i: int)
    ensures Stripped(IntToString(i))
  {
    var d := NatToString(if i < 0 then -i else i);
    DigitNotSpace(d[0]);
    DigitNotSpace(d[|d| - 1]);
    if i < 0 {
      MinusPrefixed(d);
      DigitNotSpace('-');
    }
  }

  // ---------------------------------------------------------------------------
  // The stack of open dicts
  // ---------------------------------------------------------------------------

  /** An open dict: its indentation, its entries, and the key it hangs under in its parent. */
  datatype Frame = Frame(width: nat, m: map<string, Value>, key: string)

  /** The builder's state: the stack (root first) and `lastkey`. */
  datatype Tree = Tree(stack: seq<Frame>, lastkey: string)

  /** The stack always holds the root at width 0, and widths increase towards the top. */
  predicate ValidStack(st: seq<Frame>) {
    && |st| >= 1 && st[0].width == 0
    && forall i, j :: 0 <= i < j < |st| ==> st[i].width < st[j].width
  }

  /** The initial state: the root `{"details": {}}` with `lastkey = "details"`. */
  function Start(): (tr: Tree)
    ensures ValidStack(tr.stack) && |tr.stack| == 1
  {
    Tree([Frame(0, map["details" := Dict(map[])], "")], "details")
  }

  function Top(st: seq<Frame>): Frame
    requires |st| >= 1
  {
    st[|st| - 1]
  }

  /** Pops the top frame, storing its dict in its parent under its key. */
  function Pop(st: seq<Frame>): (st': seq<Frame>)
    requires ValidStack(st) && |st| >= 2
    ensures ValidStack(st') && |st'| == |st| - 1
    ensures st'[..|st'| - 1] == st[..|st| - 2]
    ensures Top(st').width == st[|st| - 2].width
  {
    var p := st[|st| - 2];
    st[..|st| - 2] + [p.(m := p.m[Top(st).key := Dict(Top(st).m)])]
  }

  /** The dict the whole stack denotes: every open frame written back into its parent. */
  function Close(st: seq<Frame>): map<string, Value>
    requires ValidStack(st)
    decreases |st|
  {
    if |st| == 1 then st[0].m else Close(Pop(st))
  }

  /**
   * `while stack and indent < stack[-1][0]: stack.pop()`. The root is never
   * popped, the dict the stack denotes does not change, and afterwards the
   * top is no deeper than the line, so the `unreachable` branch is indeed
   * unreachable.
   */
  function PopTo(st: seq<Frame>, w: nat): (st': seq<Frame>)
    requires ValidStack(st)
    ensures ValidStack(st') && |st'| <= |st| && Top(st').width <= w
    ensures Close(st') == Close(st)
    ensures forall i :: 0 <= i < |st'| - 1 ==> st'[i] == st[i]
    ensures Top(st).width <= w ==> st' == st
    decreases |st|
  {
    if Top(st).width <= w then st
    else PopTo(Pop(st), w)
  }

  /**
   * One stripped non-empty line at indentation `w`: pop to its level; at
   * the top's width it is added to the top dict; deeper, the value under
   * `lastkey` in the top dict becomes a new dict (keeping a truthy old value
   * under its own key) and the line is added to it. `lastkey` missing from
   * the top dict is the source's KeyError.
   */
  function Step(tr: Tree, w: nat, t: string): (res: Result<Tree>)
    requires ValidStack(tr.stack)
    ensures res.Ok? ==> ValidStack(res.value.stack) && |res.value.stack| <= |tr.stack| + 1
    ensures res.Err? ==> res == Err(KeyError(tr.lastkey))
  {
    var st := PopTo(tr.stack, w);
    var top := Top(st);
    if w == top.width then
      var (m, k) := AddLine(top.m, t);
      Ok(Tree(SetTop(st, m), k))
    else if tr.lastkey !in top.m then Err(KeyError(tr.lastkey))
    else
      var v := top.m[tr.lastkey];
      var nested := if Truthy(v) then map[tr.lastkey := v] else map[];
      var (m, k) := AddLine(nested, t);
      Ok(Tree(Push(SetTop(st, top.m[tr.lastkey := Dict(nested)]), Frame(w, m, tr.lastkey)), k))
  }

  /** Replaces the top dict. */
  function SetTop(st: seq<Frame>, m: map<string, Value>): (st': seq<Frame>)
    requires ValidStack(st)
    ensures ValidStack(st') && |st'| == |st| && Top(st') == Top(st).(m := m)
    ensures forall i :: 0 <= i < |st| - 1 ==> st'[i] == st[i]
  {
    st[..|st| - 1] + [Top(st).(m := m)]
  }

  /** Opens a deeper frame. */
  function Push(st: seq<Frame>, f: Frame): (st': seq<Frame>)
    requires ValidStack(st) && Top(st).width < f.width
    ensures ValidStack(st') && |st'| == |st| + 1 && Top(st') == f
    ensures forall i :: 0 <= i < |st| ==> st'[i] == st[i]
  {
    st + [f]
  }

  /** `len(line) - len(line.lstrip())`. */
  function Indent(line: string): nat {
    |line| - |LStrip(line)|
  }

  /**
   * `parse_by_indentation`: reads lines until the end of the input or a
   * blank line (which is consumed, not pushed back) and returns the root.
   */
  function ParseByIndentation(r: Reader): (res: Result<(map<string, Value>, Reader)>)
    ensures ReadLine(r).Err? ==> res.Err?
    ensures res.Ok? ==> res.value.1.read && res.value.1.lines == r.lines
  {
    var first :- ReadLine(r);
    IndentLoop(first.0, first.1, Start())
  }

  function IndentLoop(l: string, r: Reader, tr: Tree): (res: Result<(map<string, Value>, Reader)>)
    requires r.read && ValidStack(tr.stack)
    ensures res.Ok? ==> res.value.1.read && res.value.1.lines == r.lines
    ensures res.Err? ==> res.error.KeyError?
    decreases Measure(r) + (if l != "" then 1 else 0)
  {
    if l == "" || Strip(l) == "" then Ok((Close(tr.stack), r))
    else
      var tr' :- Step(tr, Indent(l), Strip(l));
      var (l1, r1) := ReadLine(r).value;
      IndentLoop(l1, r1, tr')
  }

  // ---------------------------------------------------------------------------
  // Properties
  // ---------------------------------------------------------------------------

  /** With nothing to read, the result is the initial root `{"details": {}}`. */
  lemma EmptyBlock(r: Reader)
    requires ReadLine(r).Ok? && ReadLine(r).value.0 == ""
    ensures ParseByIndentation(r) == Ok((map["details" := Dict(map[])], ReadLine(r).value.1))
  {
  }

  /** A blank line ends the block and is consumed: the reader is left after it, with nothing pushed back. */
  lemma BlankLineEnds(l: string, r: Reader, tr: Tree)
    requires r.read && ValidStack(tr.stack) && l != "" && AllSpace(l)
    ensures IndentLoop(l, r, tr) == Ok((Close(tr.stack), r))
  {
    StripAllSpace(l);
  }

  lemma StripAllSpace(s: string)
    requires AllSpace(s)
    ensures Strip(s) == ""
  {
  }

  /** A line at the top's width is added to the top dict and becomes `lastkey`. */
  lemma SameLevel(tr: Tree, t: string)
    requires ValidStack(tr.stack)
    ensures var top := Top(tr.stack); var (m, k) := AddLine(top.m, t);
      && Step(tr, top.width, t).Ok? && Step(tr, top.width, t).value.lastkey == k
      && Step(tr, top.width, t).value.stack == SetTop(tr.stack, m)
  {
  }

  /**
   * A deeper line after key `k` whose value `v` is truthy turns `v` into
   * `{k: v, ...}`: the new top dict holds `k: v` and the line, and hangs
   * under `k`.
   */
  lemma PromoteTruthy(tr: Tree, w: nat, t: string)
    requires ValidStack(tr.stack)
    requires Top(tr.stack).width < w
    requires tr.lastkey in Top(tr.stack).m && Truthy(Top(tr.stack).m[tr.lastkey])
    ensures var k := tr.lastkey; var v := Top(tr.stack).m[k]; var (m, key) := AddLine(map[k := v], t);
      && Step(tr, w, t).Ok?
      && Step(tr, w, t).value.lastkey == key
      && Top(Step(tr, w, t).value.stack) == Frame(w, m, k)
      && |Step(tr, w, t).value.stack| == |tr.stack| + 1
  {
  }

  /** A deeper line after a key whose value is falsy (None, 0, "", {}) starts a fresh dict. */
  lemma PromoteFalsy(tr: Tree, w: nat, t: string)
    requires ValidStack(tr.stack)
    requires Top(tr.stack).width < w
    requires tr.lastkey in Top(tr.stack).m && !Truthy(Top(tr.stack).m[tr.lastkey])
    ensures var (m, key) := AddLine(map[], t);
      && Step(tr, w, t).Ok?
      && Top(Step(tr, w, t).value.stack) == Frame(w, m, tr.lastkey)
  {
  }

  /**
   * A line whose width falls strictly between two levels pops to the lower
   * one and then looks up `lastkey` (the popped frame's last key) there:
   * a KeyError when the lower dict does not have it.
   */
  lemma BetweenLevels(tr: Tree, w: nat, t: string)
    requires ValidStack(tr.stack)
    requires Top(PopTo(tr.stack, w)).width < w
    requires tr.lastkey !in Top(PopTo(tr.stack, w)).m
    ensures Step(tr, w, t) == Err(KeyError(tr.lastkey))
  {
  }

  // ---------------------------------------------------------------------------
  // A flat block
  // ---------------------------------------------------------------------------

  /** `add_line` applied to each of `lines[a..q]`, stripped, in turn. */
  function AddLines(d: map<string, Value>, lines: seq<string>, a: nat, q: nat): map<string, Value>
    requires a <= q <= |lines|
    decreases q - a
  {
    if a == q then d else AddLines(AddLine(d, Strip(lines[a])).0, lines, a + 1, q)
  }

  /** A line at indentation 0 with something on it. */
  predicate FlatLine(line: string) {
    line != "" && Strip(line) != "" && Indent(line) == 0
  }

  /**
   * The lines from `a` to `q` are flat, and the block ends at `q`: at the
   * end of the input or at a blank line.
   */
  predicate FlatUntil(lines: seq<string>, a: nat, q: nat) {
    && a <= q <= |lines|
    && (forall k :: a <= k < q ==> FlatLine(lines[k]))
    && (q < |lines| ==> Strip(lines[q]) == "")
  }

  /** Where the reader is left once the block ending at `q` is read: after the blank line, or at the end. */
  function AfterBlock(lines: seq<string>, q: nat): Reader
    requires q <= |lines|
  {
    if q < |lines| then Reader(lines, q + 1, Some(lines[q]), true) else Reader(lines, q, Some(""), true)
  }

  /** A flat line on a one-frame stack is added to the root. */
  lemma FlatStep(tr: Tree, line: string)
    requires ValidStack(tr.stack) && |tr.stack| == 1 && FlatLine(line)
    ensures Step(tr, Indent(line), Strip(line)).Ok?
    ensures var tr' := Step(tr, Indent(line), Strip(line)).value;
      ValidStack(tr'.stack) && tr'.stack == [tr.stack[0].(m := AddLine(tr.stack[0].m, Strip(line)).0)]
  {
  }

  /** At the end of the block the loop returns the root as it stands. */
  lemma FlatEnd(r: Reader, tr: Tree, q: nat)
    requires r.read && ValidStack(tr.stack) && |tr.stack| == 1 && FlatUntil(r.lines, r.pos, q) && r.pos == q
    ensures IndentLoop(ReadLine(r).value.0, ReadLine(r).value.1, tr)
      == Ok((AddLines(tr.stack[0].m, r.lines, r.pos, q), AfterBlock(r.lines, q)))
  {
    if q < |r.lines| {
      ReadNext(r);
    }
  }

  /** A flat line is added to the root and the loop goes on with the next line. */
  lemma FlatNext(r: Reader, tr: Tree, q: nat) returns (tr': Tree)
    requires r.read && ValidStack(tr.stack) && |tr.stack| == 1 && FlatUntil(r.lines, r.pos, q) && r.pos < q
    ensures ValidStack(tr'.stack) && |tr'.stack| == 1 && tr'.stack[0].m == AddLine(tr.stack[0].m, Strip(r.lines[r.pos])).0
    ensures ReadLine(r).value.1.read && FlatUntil(r.lines, ReadLine(r).value.1.pos, q) && ReadLine(r).value.1.pos == r.pos + 1
    ensures ReadLine(r).value.1.lines == r.lines
    ensures IndentLoop(ReadLine(r).value.0, ReadLine(r).value.1, tr)
      == IndentLoop(ReadLine(ReadLine(r).value.1).value.0, ReadLine(ReadLine(r).value.1).value.1, tr')
  {
    ReadNext(r);
    var l := r.lines[r.pos];
    FlatStep(tr, l);
    tr' := Step(tr, Indent(l), Strip(l)).value;
  }

  /** On a flat block every line is added to the root in turn, and the reader is left after the block. */
  lemma {:induction false} FlatLoop(r: Reader, tr: Tree, q: nat)
    requires r.read && ValidStack(tr.stack) && |tr.stack| == 1 && FlatUntil(r.lines, r.pos, q)
    ensures IndentLoop(ReadLine(r).value.0, ReadLine(r).value.1, tr)
      == Ok((AddLines(tr.stack[0].m, r.lines, r.pos, q), AfterBlock(r.lines, q)))
    decreases q - r.pos
  {
    if r.pos == q {
      FlatEnd(r, tr, q);
    } else {
      var tr' := FlatNext(r, tr, q);
      var r1 := ReadLine(r).value.1;
      FlatLoop(r1, tr', q);
      FlatJoin(r, tr, tr', q);
    }
  }

  /** The result after the first line, with that line added first, is the result of the whole block. */
  lemma FlatJoin(r: Reader, tr: Tree, tr': Tree, q: nat)
    requires r.read && ValidStack(tr.stack) && |tr.stack| == 1 && FlatUntil(r.lines, r.pos, q) && r.pos < q
    requires ReadLine(r).value.1.lines == r.lines && ReadLine(r).value.1.pos == r.pos + 1
    requires |tr'.stack| == 1 && tr'.stack[0].m == AddLine(tr.stack[0].m, Strip(r.lines[r.pos])).0
    ensures AddLines(tr'.stack[0].m, ReadLine(r).value.1.lines, ReadLine(r).value.1.pos, q) == AddLines(tr.stack[0].m, r.lines, r.pos, q)
    ensures AfterBlock(ReadLine(r).value.1.lines, q) == AfterBlock(r.lines, q)
  {
  }

  /**
   * `parse_by_indentation` on a block with no indentation returns the root
   * `{"details": {}}` with `add_line` applied to each line in turn, and
   * consumes the blank line that ends the block.
   */
  lemma FlatBlock(r: Reader, q: nat)
    requires r.read && FlatUntil(r.lines, r.pos, q)
    ensures ParseByIndentation(r) == Ok((AddLines(map["details" := Dict(map[])], r.lines, r.pos, q), AfterBlock(r.lines, q)))
  {
    FlatLoop(r, Start(), q);
  }
}
