/**
 * What `parse_desc_lines` does with each kind of line it meets: where it
 * stops, what it skips, which table it consults and what it stores.
 */
module BirdBlocks {
  import opened Wrappers
  import opened Text
  import opened LineReader
  import opened BirdGrammar
  import opened BirdValue
  import opened BirdDetails

  // ---------------------------------------------------------------------------
  // Where the loop stops
  // ---------------------------------------------------------------------------

  /** At the end of the input the block is empty and the final "" is pushed back. */
  lemma DescLinesAtEnd(r: Reader, b: Block)
    requires ReadLine(r).Ok? && ReadLine(r).value.0 == ""
    ensures ParseDescLines(r, b) == Ok((map[], Rewind(ReadLine(r).value.1)))
    ensures ReadLine(ParseDescLines(r, b).value.1) == ReadLine(r)
  {
    var (l, r1) := ReadLine(r).value;
    RewindReplays(r);
  }

  /** A line that ends the block stops the loop and is pushed back, so the next read yields it. */
  lemma DescLoopStops(l: string, r: Reader, b: Block, acc: map<string, Value>)
    requires r.read && r.line == Some(l) && l != "" && EndsBlock(b, l)
    ensures DescLoop(l, r, b, acc) == Ok((acc, Rewind(r)))
    ensures ReadLine(DescLoop(l, r, b, acc).value.1) == Ok((l, r))
  {
  }

  /** Only the route block has a stop pattern: a protocol or BGP block runs to the end of the input. */
  lemma OnlyRoutesStop(b: Block, line: string)
    requires b != RouteBlock
    ensures !EndsBlock(b, line)
  {
  }

  // ---------------------------------------------------------------------------
  // What it does with a line
  // ---------------------------------------------------------------------------

  /** A line that is not a detail line is skipped: the loop goes on with the next line and stores nothing. */
  lemma DescLoopSkips(l: string, r: Reader, b: Block, acc: map<string, Value>)
    requires r.read && r.line == Some(l) && l != "" && !EndsBlock(b, l)
    requires DetailDesc(b, l).None?
    ensures var (l1, r1) := ReadLine(r).value; DescLoop(l, r, b, acc) == DescLoop(l1, r1, b, acc)
  {
  }

  /** A detail line whose raw description has no decoder is the source's KeyError. */
  lemma DescLoopKeyError(l: string, r: Reader, b: Block, acc: map<string, Value>, desc: string)
    requires r.read && r.line == Some(l) && l != "" && !EndsBlock(b, l)
    requires DetailDesc(b, l) == Some(desc)
    requires (b == ProtocolBlock && desc !in ProtocolDecoders) || (b == BgpBlock && desc !in BgpDecoders)
    ensures DescLoop(l, r, b, acc) == Err(KeyError(desc))
  {
  }

  /**
   * A detail line with a decoder: the decoder runs on the line pushed back,
   * its key is set to its value over whatever was stored before (a later
   * entry with the same key wins), and the loop goes on after what the
   * decoder read.
   */
  lemma DescLoopStores(l: string, r: Reader, b: Block, acc: map<string, Value>, desc: string, d: Decoder, dec: Decoded)
    requires r.read && r.line == Some(l) && l != "" && !EndsBlock(b, l)
    requires DetailDesc(b, l) == Some(desc) && DecoderFor(b, desc) == Some(d)
    requires RunDecoder(d, Rewind(r)) == Ok(dec)
    ensures var (l1, r1) := ReadLine(dec.rest).value;
      DescLoop(l, r, b, acc) == DescLoop(l1, r1, b, acc[dec.key := dec.value])
  {
  }

  /** A failing decoder fails the whole block. */
  lemma DescLoopDecoderFails(l: string, r: Reader, b: Block, acc: map<string, Value>, desc: string, d: Decoder)
    requires r.read && r.line == Some(l) && l != "" && !EndsBlock(b, l)
    requires DetailDesc(b, l) == Some(desc) && DecoderFor(b, desc) == Some(d)
    requires RunDecoder(d, Rewind(r)).Err?
    ensures DescLoop(l, r, b, acc) == Err(RunDecoder(d, Rewind(r)).error)
  {
  }

  // ---------------------------------------------------------------------------
  // The decoder tables
  // ---------------------------------------------------------------------------

  /** The lookup uses the raw description: a description with a trailing blank has no decoder. */
  lemma RawDescriptionLookup()
    ensures DecoderFor(ProtocolBlock, "Preference") == Some(ColonIntDecoder)
    ensures DecoderFor(ProtocolBlock, "Preference ") == None
  {
    assert "Preference " !in ProtocolDecoders;
  }

  /** In a BGP block only `Neighbor AS` decodes to an integer; the other known keys decode to strings. */
  lemma BgpDecoderKinds(desc: string)
    requires desc in BgpDecoders
    ensures BgpDecoders[desc] == ColonIntDecoder <==> desc == "Neighbor AS"
    ensures BgpDecoders[desc] != ColonIntDecoder ==> BgpDecoders[desc] == ColonStrDecoder
  {
  }

  /** The route table: the AS path is an integer list, MED and local preference are integers, anything else a string. */
  lemma RouteDecoderKinds(desc: string)
    ensures DecoderFor(RouteBlock, desc).Some?
    ensures desc == "BGP.as_path" ==> DecoderFor(RouteBlock, desc) == Some(IntListDecoder)
    ensures desc == "BGP.med" || desc == "BGP.local_pref" ==> DecoderFor(RouteBlock, desc) == Some(ColonIntDecoder)
    ensures desc !in {"BGP.as_path", "BGP.med", "BGP.local_pref"} ==> DecoderFor(RouteBlock, desc) == Some(ColonStrDecoder)
  {
  }
}
