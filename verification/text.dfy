/**
 * String helpers with the semantics of the Python and Rust standard-library
 * operations the modelled code calls (`str.strip`, `str.split`, `int`, ...).
 * Strings are sequences of code points.
 */
module Text {
  import opened Wrappers

  // ---------------------------------------------------------------------------
  // Character classes
  // ---------------------------------------------------------------------------

  /** Python's `str.isspace`, which is also what `\s` matches in a `re` pattern. */
  predicate IsSpace(c: char) {
    var n := c as int;
    c == ' ' || 9 <= n <= 13 || 28 <= n <= 31 || n == 0x85 || n == 0xA0 || n == 0x1680
    || 0x2000 <= n <= 0x200A || n == 0x2028 || n == 0x2029 || n == 0x202F || n == 0x205F
    || n == 0x3000
  }

  /** Rust's `char::is_whitespace` (Unicode White_Space), used by `str::trim`. */
  predicate IsRustSpace(c: char) {
    var n := c as int;
    c == ' ' || 9 <= n <= 13 || n == 0x85 || n == 0xA0 || n == 0x1680
    || 0x2000 <= n <= 0x200A || n == 0x2028 || n == 0x2029 || n == 0x202F || n == 0x205F
    || n == 0x3000
  }

  predicate IsDigit(c: char) { '0' <= c <= '9' }

  /** `\w` restricted to ASCII: letters, digits and the underscore. */
  predicate IsWord(c: char) {
    IsDigit(c) || 'a' <= c <= 'z' || 'A' <= c <= 'Z' || c == '_'
  }

  predicate AllDigits(s: string) {
    forall i :: 0 <= i < |s| ==> IsDigit(s[i])
  }

  predicate NonSpace(c: char) { !IsSpace(c) }
  /** `c not in s`, stated position by position. */
  predicate Lacks(s: string, c: char) { forall i :: 0 <= i < |s| ==> s[i] != c }
  /** Non-empty with no blank at either end, so that `strip` leaves it alone. */
  predicate Stripped(s: string) { |s| > 0 && !IsSpace(s[0]) && !IsSpace(s[|s| - 1]) }
  predicate AllSpace(s: string) { forall i :: 0 <= i < |s| ==> IsSpace(s[i]) }
  predicate AllWord(s: string) { forall i :: 0 <= i < |s| ==> IsWord(s[i]) }
  predicate NoSpace(s: string) { forall i :: 0 <= i < |s| ==> !IsSpace(s[i]) }

  // ---------------------------------------------------------------------------
  // Prefixes, suffixes, runs
  // ---------------------------------------------------------------------------

  predicate StartsWith(s: string, p: string) {
    |p| <= |s| && s[..|p|] == p
  }

  predicate EndsWith(s: string, p: string) {
    |p| <= |s| && s[|s| - |p|..] == p
  }

  /** Dropping twice is dropping the sum. */
  lemma DropDrop(s: string, i: nat, j: nat)
    requires i + j <= |s|
    ensures s[i..][j..] == s[i + j..]
  {
  }

  /** Every suffix ends its string. */
  lemma SuffixEnds(s: string, k: nat)
    requires k <= |s|
    ensures EndsWith(s, s[k..])
  {
    assert |s| - |s[k..]| == k;
  }

  /** Length of the longest prefix of `s` made of characters satisfying `p`. */
  function RunLength(s: string, p: char -> bool): (n: nat)
    ensures n <= |s|
    ensures forall i :: 0 <= i < n ==> p(s[i])
    ensures n < |s| ==> !p(s[n])
  {
    if |s| == 0 || !p(s[0]) then 0 else 1 + RunLength(s[1..], p)
  }

  /** The run of `p` at the front of `a + b` is exactly `a` when `b` does not start with `p`. */
  lemma {:induction false} RunLengthConcat(a: string, b: string, p: char -> bool)
    requires forall i :: 0 <= i < |a| ==> p(a[i])
    requires |b| > 0 ==> !p(b[0])
    ensures RunLength(a + b, p) == |a|
  {
    if |a| > 0 {
      assert (a + b)[1..] == a[1..] + b;
      RunLengthConcat(a[1..], b, p);
    } else {
      assert a + b == b;
    }
  }

  /** Index of the first occurrence of `c` in `s`, if any. */
  function IndexOf(s: string, c: char): (r: Option<nat>)
    ensures r.Some? ==> r.value < |s| && s[r.value] == c
    ensures r.Some? ==> forall i :: 0 <= i < r.value ==> s[i] != c
    ensures r.None? ==> Lacks(s, c)
  {
    if |s| == 0 then None
    else if s[0] == c then Some(0)
    else match IndexOf(s[1..], c)
      case None => None
      case Some(k) => Some(k + 1)
  }

  /** The first `c` in `a + [c] + b` is the one after `a` when `a` has none. */
  lemma {:induction false} IndexOfConcat(a: string, c: char, b: string)
    requires Lacks(a, c)
    ensures IndexOf(a + [c] + b, c) == Some(|a|)
  {
    if |a| > 0 {
      assert (a + [c] + b)[1..] == a[1..] + [c] + b;
      IndexOfConcat(a[1..], c, b);
    } else {
      assert (a + [c] + b)[0] == c;
    }
  }

  // ---------------------------------------------------------------------------
  // Stripping
  // ---------------------------------------------------------------------------

  function LStripBy(s: string, p: char -> bool): (r: string)
    ensures |r| <= |s| && r == s[|s| - |r|..]
    ensures |r| > 0 ==> !p(r[0])
    ensures forall i :: 0 <= i < |s| - |r| ==> p(s[i])
  {
    s[RunLength(s, p)..]
  }

  function RStripBy(s: string, p: char -> bool): (r: string)
    ensures |r| <= |s| && r == s[..|r|]
    ensures |r| > 0 ==> !p(r[|r| - 1])
    ensures forall i :: |r| <= i < |s| ==> p(s[i])
  {
    if |s| == 0 || !p(s[|s| - 1]) then s else RStripBy(s[..|s| - 1], p)
  }

  function StripBy(s: string, p: char -> bool): string {
    RStripBy(LStripBy(s, p), p)
  }

  /** Python's `str.strip()`. */
  function Strip(s: string): string { StripBy(s, IsSpace) }
  /** Python's `str.lstrip()`. */
  function LStrip(s: string): string { LStripBy(s, IsSpace) }
  /** Python's `str.rstrip()`. */
  function RStrip(s: string): string { RStripBy(s, IsSpace) }
  /** Python's `str.strip(chars)` for a one-character argument. */
  function StripChar(s: string, c: char): string { StripBy(s, x => x == c) }
  /** Rust's `str::trim`. */
  function Trim(s: string): string { StripBy(s, IsRustSpace) }

  /** `strip` removes exactly a leading and a trailing run of the stripped class. */
  lemma StripShape(s: string, p: char -> bool)
    ensures var r := StripBy(s, p);
      exists a, b :: 0 <= a <= b <= |s| && r == s[a..b]
        && (forall i :: 0 <= i < a ==> p(s[i])) && (forall i :: b <= i < |s| ==> p(s[i]))
        && (|r| > 0 ==> !p(r[0]) && !p(r[|r| - 1]))
  {
    var l := LStripBy(s, p);
    var r := RStripBy(l, p);
    var a := |s| - |l|;
    var b := a + |r|;
    assert r == s[a..b];
  }

  /** Stripping twice is stripping once. */
  lemma StripIdempotent(s: string)
    ensures Strip(Strip(s)) == Strip(s)
  {
    var r := Strip(s);
    StripShape(s, IsSpace);
    if |r| > 0 {
      assert RunLength(r, IsSpace) == 0;
      assert LStripBy(r, IsSpace) == r;
    } else {
      assert LStripBy(r, IsSpace) == r;
    }
  }

  // ---------------------------------------------------------------------------
  // Splitting and joining
  // ---------------------------------------------------------------------------

  /** Python's `str.split()` with no argument: maximal runs of non-space characters. */
  function Split(s: string): (r: seq<string>)
    ensures forall i :: 0 <= i < |r| ==> |r[i]| > 0 && NoSpace(r[i])
    decreases |s|
  {
    var t := LStrip(s);
    if |t| == 0 then []
    else
      var n := RunLength(t, NonSpace);
      var w := t[..n];
      assert |w| > 0 && NoSpace(w);
      var rest := Split(t[n..]);
      assert forall i :: 0 < i < 1 + |rest| ==> ([w] + rest)[i] == rest[i - 1];
      [w] + rest
  }

  /** A string made only of whitespace splits into nothing. */
  lemma SplitBlank(s: string)
    requires forall i :: 0 <= i < |s| ==> IsSpace(s[i])
    ensures Split(s) == []
  {
    assert RunLength(s, IsSpace) == |s|;
  }

  /** Leading blanks do not change how a string splits. */
  lemma SplitAfterBlanks(gap: string, s: string)
    requires AllSpace(gap)
    ensures Split(gap + s) == Split(s)
  {
    LStripAfterBlanks(gap, s);
  }

  /** Trailing blanks (a line's newline) do not change how it splits. */
  lemma {:induction false} SplitTrailingBlanks(s: string, ws: string)
    requires AllSpace(ws)
    ensures Split(s + ws) == Split(s)
    decreases |s|
  {
    var t := LStrip(s);
    if |t| == 0 {
      BlankTrailing(s, ws);
    } else {
      LStripTrailing(s, ws);
      var n := RunLength(t, NonSpace);
      NonSpaceRunTrailing(t, ws);
      assert (t + ws)[..n] == t[..n];
      assert (t + ws)[n..] == t[n..] + ws;
      SplitTrailingBlanks(t[n..], ws);
    }
  }

  lemma BlankTrailing(s: string, ws: string)
    requires AllSpace(ws) && |LStrip(s)| == 0
    ensures Split(s + ws) == [] && Split(s) == []
  {
    SplitBlank(s + ws);
  }

  lemma LStripTrailing(s: string, ws: string)
    requires AllSpace(ws) && |LStrip(s)| > 0
    ensures LStrip(s + ws) == LStrip(s) + ws
  {
    var k := RunLength(s, IsSpace);
    RunLengthConcat(s[..k], s[k..] + ws, IsSpace);
    assert s[..k] + (s[k..] + ws) == s + ws;
  }

  lemma NonSpaceRunTrailing(t: string, ws: string)
    requires AllSpace(ws)
    ensures RunLength(t + ws, NonSpace) == RunLength(t, NonSpace)
  {
    var n := RunLength(t, NonSpace);
    RunLengthConcat(t[..n], t[n..] + ws, NonSpace);
    assert t[..n] + (t[n..] + ws) == t + ws;
  }

  lemma {:induction false} LStripAfterBlanks(gap: string, s: string)
    requires AllSpace(gap)
    ensures LStrip(gap + s) == LStrip(s)
  {
    if |gap| > 0 {
      var x := gap + s;
      assert x[1..] == gap[1..] + s;
      assert RunLength(x, IsSpace) == 1 + RunLength(x[1..], IsSpace);
      assert LStrip(x) == LStrip(x[1..]);
      LStripAfterBlanks(gap[1..], s);
    } else {
      assert gap + s == s;
    }
  }

  /** The last character of a join is the last character of its last part. */
  lemma {:induction false} JoinLast(sep: string, parts: seq<string>)
    requires |parts| > 0 && |parts[|parts| - 1]| > 0
    ensures var j := Join(sep, parts); |j| > 0 && j[|j| - 1] == parts[|parts| - 1][|parts[|parts| - 1]| - 1]
  {
    if |parts| >= 2 {
      JoinCons(sep, parts);
      JoinLast(sep, parts[1..]);
    }
  }

  /** A join holds only characters of the separator and of the parts. */
  lemma {:induction false} JoinChars(sep: string, parts: seq<string>, p: char -> bool)
    requires forall i :: 0 <= i < |sep| ==> p(sep[i])
    requires forall k, i :: 0 <= k < |parts| && 0 <= i < |parts[k]| ==> p(parts[k][i])
    ensures forall i :: 0 <= i < |Join(sep, parts)| ==> p(Join(sep, parts)[i])
  {
    if |parts| >= 2 {
      JoinCons(sep, parts);
      JoinChars(sep, parts[1..], p);
      var rest := Join(sep, parts[1..]);
      assert forall i :: 0 <= i < |rest| ==> p(rest[i]);
      assert forall i :: 0 <= i < |parts[0]| ==> p(parts[0][i]);
    }
  }

  /** A word followed by nothing or by a blank splits off as the first token. */
  lemma SplitWordThen(p: string, rest: string)
    requires |p| > 0 && NoSpace(p) && (|rest| > 0 ==> IsSpace(rest[0]))
    ensures Split(p + rest) == [p] + Split(rest)
  {
    var s := p + rest;
    assert RunLength(s, IsSpace) == 0;
    assert LStrip(s) == s;
    RunLengthConcat(p, rest, NonSpace);
    assert s[..|p|] == p && s[|p|..] == rest;
  }

  /** A non-empty string with no blank in it: what `str.split()` yields. */
  predicate IsToken(w: string) { |w| > 0 && NoSpace(w) }

  /** Every element is a token, stated element by element from the front. */
  predicate AllTokens(parts: seq<string>)
    decreases |parts|
  {
    |parts| == 0 || (IsToken(parts[0]) && AllTokens(parts[1..]))
  }

  lemma {:induction false} TokensOf(parts: seq<string>)
    requires forall i :: 0 <= i < |parts| ==> IsToken(parts[i])
    ensures AllTokens(parts)
    decreases |parts|
  {
    if |parts| > 0 {
      assert forall i :: 0 <= i < |parts[1..]| ==> parts[1..][i] == parts[i + 1];
      TokensOf(parts[1..]);
    }
  }

  /** A sequence is its head followed by its tail. */
  lemma ConsTail<T>(xs: seq<T>)
    requires |xs| > 0
    ensures [xs[0]] + xs[1..] == xs
  {
  }

  /** Splitting words joined by single spaces gives the words back. */
  lemma SplitJoin(parts: seq<string>)
    requires forall i :: 0 <= i < |parts| ==> |parts[i]| > 0 && NoSpace(parts[i])
    ensures Split(Join(" ", parts)) == parts
  {
    TokensOf(parts);
    SplitJoinTokens(parts);
  }

  lemma {:induction false} SplitJoinTokens(parts: seq<string>)
    requires AllTokens(parts)
    ensures Split(Join(" ", parts)) == parts
    decreases |parts|
  {
    if |parts| == 1 {
      SplitToken(parts[0]);
    } else if |parts| > 1 {
      ConsTail(parts);
      SplitJoinTokens(parts[1..]);
      SplitJoinStep(parts[0], parts[1..]);
    }
  }

  lemma SplitToken(w: string)
    requires IsToken(w)
    ensures Split(w) == [w]
  {
    SplitWordThen(w, "");
    assert w + "" == w;
  }

  lemma SplitJoinStep(w: string, tail: seq<string>)
    requires |tail| >= 1 && IsToken(w)
    requires Split(Join(" ", tail)) == tail
    ensures Split(Join(" ", [w] + tail)) == [w] + tail
  {
    JoinConsOf(" ", w, tail);
    SplitWordSpace(w, Join(" ", tail));
  }

  lemma JoinConsOf(sep: string, w: string, tail: seq<string>)
    requires |tail| >= 1
    ensures Join(sep, [w] + tail) == w + (sep + Join(sep, tail))
  {
    var parts := [w] + tail;
    assert parts[0] == w && parts[1..] == tail;
    JoinCons(sep, parts);
  }

  lemma SplitWordSpace(w: string, rest: string)
    requires |w| > 0 && NoSpace(w)
    ensures Split(w + (" " + rest)) == [w] + Split(rest)
  {
    LeadingSpace(rest);
    SplitWordThen(w, " " + rest);
    SplitAfterBlanks(" ", rest);
  }

  lemma LeadingSpace(rest: string)
    ensures AllSpace(" ") && IsSpace((" " + rest)[0])
  {
  }

  lemma JoinCons(sep: string, parts: seq<string>)
    requires |parts| >= 2
    ensures Join(sep, parts) == parts[0] + (sep + Join(sep, parts[1..]))
  {
  }

  /** Python's `str.split(sep)` for a one-character separator: every piece, empty ones included. */
  function SplitOn(s: string, sep: char): (r: seq<string>)
    ensures |r| >= 1
    ensures forall i :: 0 <= i < |r| ==> Lacks(r[i], sep)
    decreases |s|
  {
    match IndexOf(s, sep)
    case None => [s]
    case Some(k) => [s[..k]] + SplitOn(s[k + 1..], sep)
  }

  function Join(sep: string, parts: seq<string>): string {
    if |parts| == 0 then ""
    else if |parts| == 1 then parts[0]
    else parts[0] + sep + Join(sep, parts[1..])
  }

  /** Splitting a join on a separator the parts do not contain gives the parts back. */
  lemma {:induction false} SplitOnJoin(parts: seq<string>, sep: char)
    requires |parts| >= 1
    requires forall i :: 0 <= i < |parts| ==> Lacks(parts[i], sep)
    ensures SplitOn(Join([sep], parts), sep) == parts
  {
    if |parts| == 1 {
      assert IndexOf(parts[0], sep).None?;
    } else {
      JoinCons([sep], parts);
      SplitOnStep(parts[0], sep, Join([sep], parts[1..]));
      assert forall i :: 0 <= i < |parts[1..]| ==> parts[1..][i] == parts[i + 1];
      SplitOnJoin(parts[1..], sep);
      assert [parts[0]] + parts[1..] == parts;
    }
  }

  /** A piece free of the separator splits off as the first piece. */
  lemma SplitOnStep(a: string, c: char, b: string)
    requires Lacks(a, c)
    ensures SplitOn(a + ([c] + b), c) == [a] + SplitOn(b, c)
  {
    ConcatSlices(a, c, b);
    IndexOfConcat(a, c, b);
  }

  lemma ConcatSlices(a: string, c: char, b: string)
    ensures var s := a + ([c] + b);
      s == a + [c] + b && |s| == |a| + 1 + |b| && s[..|a|] == a && s[|a| + 1..] == b
  {
    var s := a + ([c] + b);
    assert s[..|a|] == a;
    assert s[|a| + 1..] == b;
  }

  /** `s.replace(c, r)` for a one-character pattern. */
  function ReplaceChar(s: string, c: char, r: string): (t: string)
    ensures Lacks(r, c) ==> Lacks(t, c)
  {
    if |s| == 0 then ""
    else (if s[0] == c then r else [s[0]]) + ReplaceChar(s[1..], c, r)
  }

  // ---------------------------------------------------------------------------
  // Integers
  // ---------------------------------------------------------------------------

  function DigitValue(c: char): nat
    requires IsDigit(c)
  {
    (c as int - '0' as int) as nat
  }

  function DigitChar(d: nat): (c: char)
    requires d < 10
    ensures IsDigit(c) && DigitValue(c) == d
  {
    ('0' as int + d) as char
  }

  /** The value of a string of ASCII digits (empty string gives 0). */
  function DigitsValue(s: string): nat
    requires AllDigits(s)
  {
    if |s| == 0 then 0 else 10 * DigitsValue(s[..|s| - 1]) + DigitValue(s[|s| - 1])
  }

  /** Decimal rendering of a natural number, as `str(n)` prints it. */
  function NatToString(n: nat): (s: string)
    ensures |s| > 0 && AllDigits(s)
    ensures |s| > 1 ==> s[0] != '0'
  {
    if n < 10 then [DigitChar(n)] else NatToString(n / 10) + [DigitChar(n % 10)]
  }

  /** `str(i)` for an integer of either sign. */
  function IntToString(i: int): string {
    if i < 0 then "-" + NatToString(-i) else NatToString(i)
  }

  lemma {:induction false} DigitsValueOfNatToString(n: nat)
    ensures DigitsValue(NatToString(n)) == n
  {
    if n >= 10 {
      var s := NatToString(n);
      assert s[..|s| - 1] == NatToString(n / 10);
      DigitsValueOfNatToString(n / 10);
    }
  }

  /** Python's base-10 digit body: digits, single underscores allowed between digits. */
  predicate PyDigitBody(s: string) {
    |s| > 0 && IsDigit(s[0]) && IsDigit(s[|s| - 1])
    && (forall i :: 0 <= i < |s| ==> IsDigit(s[i]) || s[i] == '_')
    && NoDoubleUnderscore(s)
  }

  /** No two underscores stand next to each other. */
  predicate NoDoubleUnderscore(s: string)
    decreases |s|
  {
    |s| < 2 || (!(s[0] == '_' && s[1] == '_') && NoDoubleUnderscore(s[1..]))
  }

  lemma {:induction false} DigitsNoDoubleUnderscore(d: string)
    requires AllDigits(d)
    ensures NoDoubleUnderscore(d)
    decreases |d|
  {
    if |d| >= 2 {
      assert AllDigits(d[1..]) by {
        assert forall i :: 0 <= i < |d[1..]| ==> d[1..][i] == d[i + 1];
      }
      DigitsNoDoubleUnderscore(d[1..]);
    }
  }

  function DropUnderscores(s: string): (r: string)
    requires forall i :: 0 <= i < |s| ==> IsDigit(s[i]) || s[i] == '_'
    ensures AllDigits(r)
  {
    if |s| == 0 then "" else (if s[0] == '_' then "" else [s[0]]) + DropUnderscores(s[1..])
  }

  /** Python's `int(s)` on a string: `None` where Python raises ValueError. */
  function PyInt(s: string): (r: Option<int>)
  {
    SignedDecimal(Strip(s))
  }

  /** An optionally signed decimal literal with no surrounding whitespace. */
  function SignedDecimal(t: string): (r: Option<int>)
  {
    if |t| == 0 then None
    else if t[0] == '-' then
      match Magnitude(t[1..])
      case None => None
      case Some(v) => Some(-(v as int))
    else if t[0] == '+' then
      match Magnitude(t[1..])
      case None => None
      case Some(v) => Some(v)
    else
      match Magnitude(t)
      case None => None
      case Some(v) => Some(v)
  }

  /** The value of an unsigned digit body, if it is one. */
  function Magnitude(body: string): (r: Option<nat>)
    ensures r.Some? ==> |body| > 0 && IsDigit(body[0])
  {
    if PyDigitBody(body) then Some(DigitsValue(DropUnderscores(body))) else None
  }

  lemma DropUnderscoresDigits(s: string)
    requires AllDigits(s)
    ensures DropUnderscores(s) == s
  {
    if |s| > 0 {
      DropUnderscoresDigits(s[1..]);
    }
  }

  /** A string that neither starts nor ends with whitespace is its own strip. */
  lemma StripNoOp(s: string)
    requires Stripped(s)
    ensures Strip(s) == s
  {
    assert RunLength(s, IsSpace) == 0;
    assert LStrip(s) == s;
  }

  /** Trailing whitespace after a string that ends in a non-blank is exactly what `rstrip` removes. */
  lemma {:induction false} RStripPadded(p: string, b: string)
    requires |p| > 0 && !IsSpace(p[|p| - 1]) && AllSpace(b)
    ensures RStrip(p + b) == p
  {
    if |b| == 0 {
      assert p + b == p;
    } else {
      assert (p + b)[..|p + b| - 1] == p + b[..|b| - 1];
      RStripPadded(p, b[..|b| - 1]);
    }
  }

  /** `strip` of a stripped string with blanks around it gives the string back. */
  lemma StripPadded(a: string, p: string, b: string)
    requires AllSpace(a) && Stripped(p) && AllSpace(b)
    ensures Strip(a + p + b) == p
  {
    assert a + p + b == a + (p + b);
    RunLengthConcat(a, p + b, IsSpace);
    assert LStrip(a + p + b) == p + b;
    RStripPadded(p, b);
  }

  lemma DigitsArePyBody(d: string)
    requires |d| > 0 && AllDigits(d)
    ensures PyDigitBody(d)
  {
    DigitsNoDoubleUnderscore(d);
  }

  lemma MagnitudeOfDigits(d: string)
    requires |d| > 0 && AllDigits(d)
    ensures Magnitude(d) == Some(DigitsValue(d))
  {
    DropUnderscoresDigits(d);
    DigitsArePyBody(d);
  }

  /** A magnitude with no sign reads as itself. */
  lemma SignedDecimalPlain(t: string, v: nat)
    requires |t| > 0 && IsDigit(t[0]) && Magnitude(t) == Some(v)
    ensures SignedDecimal(t) == Some(v as int)
  {
  }

  /** A minus sign followed by a magnitude reads as its negation. */
  lemma SignedDecimalNeg(t: string, body: string, v: nat)
    requires |t| > 0 && t[0] == '-' && t[1..] == body && Magnitude(body) == Some(v)
    ensures SignedDecimal(t) == Some(-(v as int))
  {
  }

  lemma MinusPrefixed(d: string)
    ensures var t := "-" + d; |t| == |d| + 1 && t[0] == '-' && t[1..] == d && t[|t| - 1] == (if |d| == 0 then '-' else d[|d| - 1])
  {
  }

  lemma DigitNotSpace(c: char)
    requires IsDigit(c) || c == '-'
    ensures !IsSpace(c)
  {
  }

  /** `str(n)` reads back as `n`. */
  lemma MagnitudeOfNatToString(n: nat)
    ensures Magnitude(NatToString(n)) == Some(n)
  {
    DigitsValueOfNatToString(n);
    MagnitudeOfDigits(NatToString(n));
  }

  /** A digit string, with or without a leading minus sign, has no blanks to strip. */
  lemma StripSignedDigits(d: string, neg: bool)
    requires |d| > 0 && AllDigits(d)
    ensures Strip(if neg then "-" + d else d) == (if neg then "-" + d else d)
  {
    DigitNotSpace(d[0]);
    DigitNotSpace(d[|d| - 1]);
    if neg {
      MinusPrefixed(d);
      DigitNotSpace('-');
      StripNoOp("-" + d);
    } else {
      StripNoOp(d);
    }
  }

  /** `int(str(i)) == i`: rendering an integer and parsing it back is the identity. */
  lemma IntToStringRoundTrip(i: int)
    ensures PyInt(IntToString(i)) == Some(i)
  {
    var n: nat := if i < 0 then -i else i;
    var d := NatToString(n);
    MagnitudeOfNatToString(n);
    StripSignedDigits(d, i < 0);
    if i < 0 {
      MinusPrefixed(d);
      SignedDecimalNeg("-" + d, d, n);
    } else {
      SignedDecimalPlain(d, n);
    }
  }

  // ---------------------------------------------------------------------------
  // Ordering
  // ---------------------------------------------------------------------------

  /** Python's `<` on strings: code-point lexicographic order. */
  predicate LexLess(a: string, b: string) {
    if |a| == 0 then |b| > 0
    else if |b| == 0 then false
    else if a[0] != b[0] then a[0] < b[0]
    else LexLess(a[1..], b[1..])
  }

  lemma {:induction false} LexLessIrreflexive(a: string)
    ensures !LexLess(a, a)
  {
    if |a| > 0 {
      LexLessIrreflexive(a[1..]);
    }
  }

  lemma {:induction false} LexLessTransitive(a: string, b: string, c: string)
    requires LexLess(a, b) && LexLess(b, c)
    ensures LexLess(a, c)
  {
    if |a| > 0 && |b| > 0 && |c| > 0 && a[0] == b[0] && b[0] == c[0] {
      LexLessTransitive(a[1..], b[1..], c[1..]);
    }
  }

  lemma {:induction false} LexLessTotal(a: string, b: string)
    requires a != b
    ensures LexLess(a, b) || LexLess(b, a)
  {
    if |a| > 0 && |b| > 0 && a[0] == b[0] {
      assert a == [a[0]] + a[1..];
      assert b == [b[0]] + b[1..];
      LexLessTotal(a[1..], b[1..]);
    }
  }
}
