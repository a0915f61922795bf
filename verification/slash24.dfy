/**
 * `get-one-per-slash24.py`: reads IPv4 addresses one per line and prints one
 * address per /24, namely the last one read, with the /24s in the order they
 * first appeared. A line's /24 is the tuple of its first three dot-separated
 * fields; the lines are not parsed as addresses.
 */
module Slash24 {
  import opened Wrappers
  import opened Text
  import opened Dicts

  /** `tuple(line.split(".")[0:3])`; the slice stops early on lines with fewer fields. */
  function Key(line: string): seq<string> {
    var fs := SplitOn(line, '.');
    fs[..if |fs| < 3 then |fs| else 3]
  }

  /** The input lines as `line.strip()` gives them. */
  function Stripped(lines: seq<string>): seq<string> {
    seq(|lines|, i requires 0 <= i < |lines| => Strip(lines[i]))
  }

  /** `prefix2ip.values()` after `prefix2ip[prefix] = line` for each stripped line. */
  function LastPerSlash24(ss: seq<string>): seq<string> {
    Values(FromItems(KeyedBy(Key, ss)))
  }

  /** The printed lines. */
  function OnePerSlash24(lines: seq<string>): seq<string> {
    LastPerSlash24(Stripped(lines))
  }

  /** No /24 is printed twice, and they come in the order of their first line. */
  lemma Slash24sDistinct(ss: seq<string>)
    ensures var out := LastPerSlash24(ss);
      && (forall a, b :: 0 <= a < b < |out| ==> Key(out[a]) != Key(out[b]))
      && (forall a, b :: 0 <= a < b < |out| ==>
            FirstIndex(KeyedBy(Key, ss), Key(out[a])) < FirstIndex(KeyedBy(Key, ss), Key(out[b])))
  {
    assert LastPerSlash24(ss) == Values(FromItems(KeyedBy(Key, ss)));
    KeyedDistinct(Key, ss);
  }

  /** Every /24 of the input is printed. */
  lemma Slash24sCovered(ss: seq<string>)
    ensures var out := LastPerSlash24(ss);
      forall i :: 0 <= i < |ss| ==> exists a :: 0 <= a < |out| && Key(out[a]) == Key(ss[i])
  {
    assert LastPerSlash24(ss) == Values(FromItems(KeyedBy(Key, ss)));
    KeyedCovers(Key, ss);
  }

  /** The printed lines are exactly the last lines of their /24. */
  lemma Slash24sLast(ss: seq<string>)
    ensures var out := LastPerSlash24(ss);
      && (forall a :: 0 <= a < |out| ==> exists i :: 0 <= i < |ss| && out[a] == ss[i] && LastOfKey(Key, ss, i))
      && (forall i :: 0 <= i < |ss| && LastOfKey(Key, ss, i) ==> ss[i] in out)
  {
    assert LastPerSlash24(ss) == Values(FromItems(KeyedBy(Key, ss)));
    KeyedFromLast(Key, ss);
    KeyedKeepsLast(Key, ss);
  }

  /**
   * The script end to end on its raw input lines: one printed line per /24
   * of the stripped lines, each the stripped last line of its /24.
   */
  lemma OnePerSlash24Printed(lines: seq<string>)
    ensures var out := OnePerSlash24(lines);
      forall a, b :: 0 <= a < b < |out| ==> Key(out[a]) != Key(out[b])
    ensures var out := OnePerSlash24(lines);
      forall i :: 0 <= i < |lines| ==> exists a :: 0 <= a < |out| && Key(out[a]) == Key(Strip(lines[i]))
    ensures var out := OnePerSlash24(lines);
      forall a :: 0 <= a < |out| ==>
        exists i :: 0 <= i < |lines| && out[a] == Strip(lines[i]) && LastOfKey(Key, Stripped(lines), i)
  {
    Slash24sDistinct(Stripped(lines));
    PrintedCovers(lines);
    PrintedLast(lines);
  }

  /** Every stripped input line has its /24 printed. */
  lemma PrintedCovers(lines: seq<string>)
    ensures var out := OnePerSlash24(lines);
      forall i :: 0 <= i < |lines| ==> exists a :: 0 <= a < |out| && Key(out[a]) == Key(Strip(lines[i]))
  {
    var ss := Stripped(lines);
    var out := LastPerSlash24(ss);
    assert out == OnePerSlash24(lines);
    Slash24sCovered(ss);
    forall i | 0 <= i < |lines| ensures exists a :: 0 <= a < |out| && Key(out[a]) == Key(Strip(lines[i])) {
      assert ss[i] == Strip(lines[i]);
      var a :| 0 <= a < |out| && Key(out[a]) == Key(ss[i]);
    }
  }

  /** Each printed line is a stripped input line that is last of its /24. */
  lemma PrintedLast(lines: seq<string>)
    ensures var out := OnePerSlash24(lines);
      forall a :: 0 <= a < |out| ==>
        exists i :: 0 <= i < |lines| && out[a] == Strip(lines[i]) && LastOfKey(Key, Stripped(lines), i)
  {
    var ss := Stripped(lines);
    var out := LastPerSlash24(ss);
    Slash24sLast(ss);
    forall a | 0 <= a < |out| ensures exists i :: 0 <= i < |lines| && out[a] == Strip(lines[i]) && LastOfKey(Key, ss, i) {
      var i :| 0 <= i < |ss| && out[a] == ss[i] && LastOfKey(Key, ss, i);
      assert ss[i] == Strip(lines[i]);
    }
  }
}
