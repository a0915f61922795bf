/**
 * A protocol or BGP detail block read as a whole: a run of `key: value`
 * entries, as BIRD prints them, up to the end of the input is read into
 * the table holding each key's value, the last entry for a key winning.
 */
module BirdEntries {
  import opened Wrappers
  import opened Text
  import opened LineReader
  import opened BirdGrammar
  import opened BirdValue
  import opened BirdDetails
  import opened BirdBlocks
  import opened BirdDecoding

  /** The blanks before a detail line of the protocol block (two) and of the BGP block (four). */
  function Indent(b: Block): (ws: string)
    ensures |ws| > 0 && AllSpace(ws)
  {
    if b == ProtocolBlock then "  " else "    "
  }

  /** A key the block decodes as `key: value` text. */
  predicate TextKey(b: Block, key: string) {
    b != RouteBlock && PlainDesc(key) && DecoderFor(b, key) == Some(ColonStrDecoder)
  }

  /** The values of text entries. */
  function Texts(vals: seq<string>): (vs: seq<Value>)
    ensures |vs| == |vals| && forall k :: 0 <= k < |vals| ==> vs[k] == Str(vals[k])
  {
    seq(|vals|, k requires 0 <= k < |vals| => Str(vals[k]))
  }

  /**
   * From line `pos` on, the input is `|keys|` text entries of the block as
   * BIRD prints them (indent, key, colon, one blank, value), and nothing
   * after them.
   */
  predicate EntryLines(lines: seq<string>, pos: nat, b: Block, keys: seq<string>, vals: seq<string>) {
    && b != RouteBlock && |keys| == |vals| && pos + |keys| == |lines|
    && forall k :: 0 <= k < |keys| ==>
         TextKey(b, keys[k]) && Stripped(vals[k]) && lines[pos + k] == DetailLine(Indent(b), keys[k], " ", vals[k])
  }

  /** An entry line is a detail line of its block, described by its key. */
  lemma EntryDesc(b: Block, key: string, v: string)
    requires b != RouteBlock && PlainDesc(key)
    ensures DetailDesc(b, DetailLine(Indent(b), key, " ", v)) == Some(key)
  {
    var line := DetailLine(Indent(b), key, " ", v);
    BodyOfLine(Indent(b) + key + ":" + (" " + v));
    IndentedDetailComplete(line, Indent(b), key, " " + v);
  }

  /** With the next line not a continuation line, the continuation reader takes nothing and reads just that line. */
  lemma NoContinuations(r: Reader)
    requires r.read && (r.pos < |r.lines| ==> NotContinuation(r.lines[r.pos]))
    ensures Continuations(r) == ([], ReadLine(r).value.0, ReadLine(r).value.1)
  {
  }

  /** The entries after the first one follow the first one's line. */
  lemma EntryLinesTail(lines: seq<string>, pos: nat, b: Block, keys: seq<string>, vals: seq<string>)
    requires EntryLines(lines, pos, b, keys, vals) && |keys| > 0
    ensures EntryLines(lines, pos + 1, b, keys[1..], vals[1..])
    ensures pos + 1 < |lines| ==> NotContinuation(lines[pos + 1])
  {
    if pos + 1 < |lines| {
      assert lines[pos + 1] == DetailLine(Indent(b), keys[1], " ", vals[1]);
      assert lines[pos + 1][0] == Indent(b)[0];
    }
  }

  /** The text decoder, rewound onto an entry line with no continuation lines, reads back its key and value and just that line. */
  lemma EntryDecodes(r1: Reader, b: Block, key: string, v: string)
    requires b != RouteBlock && PlainDesc(key) && Stripped(v)
    requires r1.read && r1.line == Some(DetailLine(Indent(b), key, " ", v)) && r1.pos <= |r1.lines|
    requires r1.pos < |r1.lines| ==> NotContinuation(r1.lines[r1.pos])
    ensures RunDecoder(ColonStrDecoder, Rewind(r1)) == Ok(Decoded(key, Str(v), Rewind(ReadLine(r1).value.1)))
  {
    NoContinuations(r1);
    assert ContinuationLines(r1, []);
    assert v + Join("", []) == v;
    ColonStrRoundTrip(Rewind(r1), Indent(b), key, v, []);
  }

  /** Reading the first entry line: what it holds, and that the line after it is not a continuation line. */
  lemma EntryFirst(r: Reader, b: Block, keys: seq<string>, vals: seq<string>) returns (r1: Reader)
    requires r.read && EntryLines(r.lines, r.pos, b, keys, vals) && |keys| > 0
    ensures ReadLine(r) == Ok((DetailLine(Indent(b), keys[0], " ", vals[0]), r1))
    ensures r1.read && r1.line == Some(DetailLine(Indent(b), keys[0], " ", vals[0])) && r1.pos <= |r1.lines|
    ensures r1.pos < |r1.lines| ==> NotContinuation(r1.lines[r1.pos])
    ensures TextKey(b, keys[0]) && PlainDesc(keys[0]) && Stripped(vals[0])
  {
    ReadNext(r);
    r1 := ReadLine(r).value.1;
    assert TextKey(b, keys[0]) && Stripped(vals[0]) && r.lines[r.pos + 0] == DetailLine(Indent(b), keys[0], " ", vals[0]);
    EntryLinesTail(r.lines, r.pos, b, keys, vals);
  }

  /** The first entry is stored under its key, and the loop goes on with the line after it. */
  lemma EntryStep(r: Reader, b: Block, keys: seq<string>, vals: seq<string>, acc: map<string, Value>)
    requires r.read && EntryLines(r.lines, r.pos, b, keys, vals) && |keys| > 0
    ensures var (l, r1) := ReadLine(r).value; var (l2, r2) := ReadLine(r1).value;
      DescLoop(l, r1, b, acc) == DescLoop(l2, r2, b, acc[keys[0] := Str(vals[0])])
  {
    var r1 := EntryFirst(r, b, keys, vals);
    var l := DetailLine(Indent(b), keys[0], " ", vals[0]);
    EntryDesc(b, keys[0], vals[0]);
    EntryDecodes(r1, b, keys[0], vals[0]);
    OnlyRoutesStop(b, l);
    DescLoopStores(l, r1, b, acc, keys[0], ColonStrDecoder, Decoded(keys[0], Str(vals[0]), Rewind(ReadLine(r1).value.1)));
  }

  /** Storing entries is storing the first one and then the rest. */
  lemma StoreTextsStep(acc: map<string, Value>, keys: seq<string>, vals: seq<string>)
    requires |keys| == |vals| > 0
    ensures Store(acc, keys, Texts(vals)) == Store(acc[keys[0] := Str(vals[0])], keys[1..], Texts(vals[1..]))
  {
    assert Texts(vals)[1..] == Texts(vals[1..]);
  }

  /**
   * The detail loop over a run of text entries that ends the input stores
   * every entry in order, so the table is the entries stored one after
   * another, and the loop ends at the end of the input.
   */
  lemma {:induction false} EntriesStored(r: Reader, b: Block, keys: seq<string>, vals: seq<string>, acc: map<string, Value>)
    requires r.read && EntryLines(r.lines, r.pos, b, keys, vals)
    ensures var (l, r1) := ReadLine(r).value;
      DescLoop(l, r1, b, acc) == Ok((Store(acc, keys, Texts(vals)), Reader(r.lines, |r.lines|, Some(""), false)))
    decreases |keys|
  {
    if |keys| == 0 {
      assert ReadLine(r).value == ("", Reader(r.lines, |r.lines|, Some(""), true));
    } else {
      var r1 := EntriesStep(r, b, keys, vals, acc);
      EntriesStored(r1, b, keys[1..], vals[1..], acc[keys[0] := Str(vals[0])]);
    }
  }

  /** One turn of the loop over the entries: the first is stored, and the rest follow the reader it leaves. */
  lemma EntriesStep(r: Reader, b: Block, keys: seq<string>, vals: seq<string>, acc: map<string, Value>) returns (r1: Reader)
    requires r.read && EntryLines(r.lines, r.pos, b, keys, vals) && |keys| > 0
    ensures r1 == ReadLine(r).value.1 && r1.read && r1.lines == r.lines
    ensures EntryLines(r1.lines, r1.pos, b, keys[1..], vals[1..])
    ensures DescLoop(ReadLine(r).value.0, r1, b, acc)
      == DescLoop(ReadLine(r1).value.0, ReadLine(r1).value.1, b, acc[keys[0] := Str(vals[0])])
    ensures Store(acc, keys, Texts(vals)) == Store(acc[keys[0] := Str(vals[0])], keys[1..], Texts(vals[1..]))
  {
    EntryStep(r, b, keys, vals, acc);
    EntryLinesTail(r.lines, r.pos, b, keys, vals);
    ReadNext(r);
    r1 := ReadLine(r).value.1;
    StoreTextsStep(acc, keys, vals);
  }

  /**
   * `parse_desc_lines` on a block of text entries up to the end of the
   * input returns the entries stored one after another (a later entry for
   * a key replacing an earlier one) and leaves the final empty read to be
   * read again.
   */
  lemma BlockOfEntries(r: Reader, b: Block, keys: seq<string>, vals: seq<string>)
    requires r.read && EntryLines(r.lines, r.pos, b, keys, vals)
    ensures ParseDescLines(r, b) == Ok((Store(map[], keys, Texts(vals)), Reader(r.lines, |r.lines|, Some(""), false)))
  {
    EntriesStored(r, b, keys, vals, map[]);
  }

  /** After storing, a key holds the value of its last entry. */
  lemma {:induction false} StoreLast(acc: map<string, Value>, keys: seq<string>, vals: seq<Value>, j: nat)
    requires |keys| == |vals| && j < |keys|
    requires forall i :: j < i < |keys| ==> keys[i] != keys[j]
    ensures keys[j] in Store(acc, keys, vals) && Store(acc, keys, vals)[keys[j]] == vals[j]
    decreases |keys|
  {
    var acc' := acc[keys[0] := vals[0]];
    if j == 0 {
      assert keys[0] !in Labels(keys[1..]) by {
        forall i | 0 <= i < |keys[1..]| ensures keys[1..][i] != keys[0] {
          assert keys[1..][i] == keys[i + 1];
        }
      }
      StoreKeeps(acc', keys[1..], vals[1..], keys[0]);
    } else {
      forall i | j - 1 < i < |keys[1..]| ensures keys[1..][i] != keys[1..][j - 1] {
        assert keys[1..][i] == keys[i + 1];
      }
      StoreLast(acc', keys[1..], vals[1..], j - 1);
    }
  }

  /**
   * In a block of text entries, every key is read back with the value of
   * the last entry printed for it, and the table holds exactly the keys
   * printed.
   */
  lemma BlockKeepsLastValue(r: Reader, b: Block, keys: seq<string>, vals: seq<string>, j: nat)
    requires r.read && EntryLines(r.lines, r.pos, b, keys, vals) && j < |keys|
    requires forall i :: j < i < |keys| ==> keys[i] != keys[j]
    ensures ParseDescLines(r, b).Ok?
    ensures ParseDescLines(r, b).value.0.Keys == Labels(keys)
    ensures keys[j] in ParseDescLines(r, b).value.0 && ParseDescLines(r, b).value.0[keys[j]] == Str(vals[j])
  {
    BlockOfEntries(r, b, keys, vals);
    StoredTexts(keys, vals, j);
  }

  /** Text entries stored into an empty table: exactly their keys, each with its last value. */
  lemma StoredTexts(keys: seq<string>, vals: seq<string>, j: nat)
    requires |keys| == |vals| && j < |keys|
    requires forall i :: j < i < |keys| ==> keys[i] != keys[j]
    ensures Store(map[], keys, Texts(vals)).Keys == Labels(keys)
    ensures keys[j] in Store(map[], keys, Texts(vals)) && Store(map[], keys, Texts(vals))[keys[j]] == Str(vals[j])
  {
    StoreKeys(map[], keys, Texts(vals));
    StoreLast(map[], keys, Texts(vals), j);
  }

  /** Storing twice under one key keeps that key alone, with the second value. */
  lemma StoreTwice(key: string, v1: Value, v2: Value)
    ensures Store(map[], [key, key], [v1, v2]) == map[key := v2]
  {
    assert [key, key][1..] == [key] && [v1, v2][1..] == [v2];
    assert Store(map[][key := v1], [key], [v2]) == map[][key := v1][key := v2];
  }

  /** Two entries with the same key: the block holds that key alone, with the later value. */
  lemma LaterLineWins(r: Reader, b: Block, key: string, v1: string, v2: string)
    requires r.read && EntryLines(r.lines, r.pos, b, [key, key], [v1, v2])
    ensures ParseDescLines(r, b).Ok? && ParseDescLines(r, b).value.0 == map[key := Str(v2)]
  {
    BlockOfEntries(r, b, [key, key], [v1, v2]);
    assert Texts([v1, v2]) == [Str(v1), Str(v2)];
    StoreTwice(key, Str(v1), Str(v2));
  }
}
