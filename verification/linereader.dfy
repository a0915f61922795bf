/**
 * The caching line reader that every BIRD output parser reads through
 * (`CachingBufferedLineReader`): it remembers the last line it returned and
 * can be told to hand that line out once more, which gives the parsers one
 * line of look-ahead.
 */
module LineReader {
  import opened Wrappers

  /**
   * `lines` is the underlying file, each element a line as the file's own
   * `readline` returns it (normally ending in a newline); `pos` is how many
   * of them the file has handed out; `line` is the cached last line (`None`
   * before the first read) and `read` is false while a rewind is pending.
   */
  datatype Reader = Reader(lines: seq<string>, pos: nat, line: Option<string>, read: bool)

  /** A reader over a freshly opened file. */
  function Open(lines: seq<string>): (r: Reader)
    ensures r.read && r.line.None? && Remaining(r) == |lines|
  {
    Reader(lines, 0, None, true)
  }

  /** Lines the file has not handed out yet. */
  function Remaining(r: Reader): nat {
    if r.pos <= |r.lines| then |r.lines| - r.pos else 0
  }

  /** The file's own `readline`: the next line, or "" once the file is exhausted. */
  function FileReadLine(r: Reader): (string, nat) {
    if r.pos < |r.lines| then (r.lines[r.pos], r.pos + 1) else ("", r.pos)
  }

  /**
   * Work left in the reader: the lines not yet read from the file, plus one
   * if a non-empty line is waiting to be replayed. Every parser that
   * consumes a non-empty line makes this smaller.
   */
  function Measure(r: Reader): nat {
    Remaining(r) + (if !r.read && r.line.Some? && r.line.value != "" then 1 else 0)
  }

  /**
   * `readline`: replays the cached line after a rewind (failing the source's
   * assertion if nothing has been read yet), otherwise reads the next line
   * of the file and caches it.
   */
  function ReadLine(r: Reader): (res: Result<(string, Reader)>)
    ensures res.Err? <==> !r.read && r.line.None?
    ensures res.Ok? ==> var (l, r') := res.value;
      && r'.lines == r.lines && r'.read && r'.line == Some(l)
      && r.pos <= r'.pos
      && (!r.read ==> l == r.line.value && r'.pos == r.pos)
      && (r.read && r.pos < |r.lines| ==> l == r.lines[r.pos] && r'.pos == r.pos + 1)
      && (r.read && r.pos >= |r.lines| ==> l == "" && r'.pos == r.pos)
    ensures res.Ok? ==> Measure(res.value.1) <= Measure(r)
    ensures res.Ok? && res.value.0 != "" ==> Measure(res.value.1) + 1 == Measure(r)
  {
    if r.read then
      var (l, p) := FileReadLine(r);
      Ok((l, r.(pos := p, line := Some(l))))
    else if r.line.None? then
      Err(AssertionError("self.line is not None"))
    else
      Ok((r.line.value, r.(read := true)))
  }

  /** `rewind_line`: the next `readline` returns the cached line again. */
  function Rewind(r: Reader): (r': Reader)
    ensures r'.lines == r.lines && r'.pos == r.pos && r'.line == r.line && !r'.read
    ensures Measure(r') <= Measure(r) + 1
    ensures r.read && r.line.Some? ==> Measure(r') == Measure(r) + (if r.line.value != "" then 1 else 0)
  {
    r.(read := false)
  }

  /** Reading with no rewind pending takes the next line of the file. */
  lemma ReadNext(r: Reader)
    requires r.read && r.pos < |r.lines|
    ensures ReadLine(r) == Ok((r.lines[r.pos], Reader(r.lines, r.pos + 1, Some(r.lines[r.pos]), true)))
  {
  }

  /** Reading after a rewind returns the line just read and leaves the reader where it was. */
  lemma RewindReplays(r: Reader)
    requires ReadLine(r).Ok?
    ensures var (l, r1) := ReadLine(r).value; ReadLine(Rewind(r1)) == Ok((l, r1))
  {
  }

  /** A rewound reader that has read a non-empty line holds exactly one unit of extra work. */
  lemma RewindAfterRead(r: Reader)
    requires ReadLine(r).Ok? && ReadLine(r).value.0 != ""
    ensures Measure(Rewind(ReadLine(r).value.1)) == Measure(r)
  {
  }

  /** Rewinding twice is the same as rewinding once. */
  lemma RewindIdempotent(r: Reader)
    ensures Rewind(Rewind(r)) == Rewind(r)
  {
  }

  /** A replay is used once: the read after a replaying read takes the next line of the file. */
  lemma ReplayUsedOnce(r: Reader)
    requires !r.read && r.line.Some?
    ensures var (_, r1) := ReadLine(r).value;
      r1.read && ReadLine(r1) == Ok((FileReadLine(r).0, r.(pos := FileReadLine(r).1, line := Some(FileReadLine(r).0), read := true)))
  {
  }

  /** Rewinding a reader that has not read anything makes the next read fail the source's assertion. */
  lemma RewindBeforeRead(lines: seq<string>)
    ensures ReadLine(Rewind(Open(lines))).Err?
  {
  }

  /** Once the file is exhausted, `readline` keeps returning "" and nothing changes. */
  lemma ExhaustedStaysEmpty(r: Reader)
    requires r.pos >= |r.lines|
    requires r.read || r.line == Some("")
    ensures ReadLine(r) == Ok(("", r.(line := Some(""), read := true)))
  {
  }
}
