# PEERING testbed client utilities, modelled in Dafny

This project models the pure cores of the PEERING testbed client's helper
tools and proves properties about them:

- the BIRD CLI output parser (`utils/bird-route-parser`): the caching line
  reader with one line of push-back, the field decoders, the dispatch-table
  detail reader, the indentation-tree builder and the two drivers
  `show_protocols` and `show_route` (files `linereader`, `value`,
  `bird_grammar`, `bird_details`, `bird_decoding`, `bird_blocks`,
  `bird_tree`, `bird_parse`), with whole-input readings of the drivers
  and of the block readers (`bird_listing`, `bird_protocols`,
  `bird_entries`);
- the Vultr provider-matrix classifier (`utils/vultr-provider-matrix/src`):
  community parsing, peer types, AS-path neighbour extraction, the per-route
  checks, the per-file fold and the provider/site aggregation (files
  `vultr_routes`, `vultr_checks`, `vultr_lib`, `vultr_inout`);
- reverse-traceroute path post-processing (`revtr`);
- the announcement builders: the helpers of `peering.py` (`peering`), the
  large-scale experiment phases (`phases`) and its controller (`controller`),
  the city-pair hijack generator (`citypairs`) and the iSpy announcement
  configurations (`ispy`);
- catchment inference from tcpdump text (`catchments`) and the
  one-address-per-/24 filter (`slash24`).

Shared pieces: `wrappers` (Option, Result, the exceptions the programs raise,
and `Collect`, which stops at the first failure), `text` (Python string
operations: `strip`, `split`, `int`, decimal rendering, string order) and
`dicts` (a Python dictionary as its items in insertion order).

Within the modelled functions, every Python exception or failed assertion
the code can raise is a `Result` error, so a crash of the original is a
visible `Err` in the model rather than a precondition. A few failures lie
outside the modelled functions and are listed under "Left out": the
`opts.basedir` AttributeError of the te-exp catchment script and the
undefined `config.mux2octet` of the iSpy script (a parameter here). Regular expressions are modelled as hand-written
recognisers of the fixed patterns, each proved to accept the lines it should
(and, where it matters, to reject the ones it should not).

## Model

| member | source | states |
|---|---|---|
| LineReader.Open | utils/bird-route-parser/cblr.py:2-5 | A fresh reader caches no line, has no rewind pending and has the whole file left to read. |
| LineReader.ReadLine | utils/bird-route-parser/cblr.py:7-13 | Without a pending rewind the next file line (or "" at the end) is returned and cached; after a rewind the cached line is returned without touching the file; a rewind before any read is the assertion failure; every successful read leaves a non-empty line one unit less work. |
| LineReader.Rewind | utils/bird-route-parser/cblr.py:15-16 | Rewinding only clears the read flag: file position and cached line stay. |
| LineReader.ReadNext | utils/bird-route-parser/cblr.py:8-9 | With no rewind pending, a read consumes exactly one file line and caches it. |
| LineReader.RewindReplays | utils/bird-route-parser/cblr.py:10-16 | After a rewind the next read returns the same string as the previous read and leaves the reader exactly as that read did. |
| LineReader.RewindAfterRead | utils/bird-route-parser/cblr.py:7-16 | Reading a non-empty line and pushing it back leaves the amount of remaining work unchanged. |
| LineReader.RewindIdempotent | utils/bird-route-parser/cblr.py:15-16 | Two rewinds in a row equal one rewind. |
| LineReader.ReplayUsedOnce | utils/bird-route-parser/cblr.py:10-11 | The read after a replaying read takes the next line from the file. |
| LineReader.RewindBeforeRead | utils/bird-route-parser/cblr.py:4-12 | Rewinding before any read makes the next read fail the `self.line is not None` assertion. |
| LineReader.ExhaustedStaysEmpty | utils/bird-route-parser/cblr.py:9-13 | At the end of the file every read returns "" and nothing but the cache changes, replayed or fresh. |
| BirdGrammar.IndentedDetail | utils/bird-route-parser/parsers/protocols.py:7-8 | The detail pattern with exactly n leading blanks: a match has n blanks, then a colon-free description, then a colon and non-empty data. |
| BirdGrammar.IndentedDetailComplete | utils/bird-route-parser/parsers/protocols.py:7-8 | Every line `<n spaces><desc>:<data>` with colon-free, non-blank-led description and non-empty data is recognised with exactly those groups. |
| BirdGrammar.LeadingDescSound | utils/bird-route-parser/parsers/util.py:16-34 | What the common head `^\s+(?P<desc>[^:]+):` finds is blanks, a colon-free description and the first colon. |
| BirdGrammar.LeadingDescComplete | utils/bird-route-parser/parsers/util.py:16-34 | A line `<blanks><desc>:<rest>` is recognised at that colon, with that description when it starts with a non-blank. |
| BirdGrammar.ProtoSummaryComplete | utils/bird-route-parser/parsers/protocols.py:6 | Every protocol row written as four words, blank gaps, a `since` stamp and an info text is recognised with exactly those six groups. |
| BirdGrammar.RouteSummaryComplete | utils/bird-route-parser/parsers/route.py:8 | Rendering the groups of a well-formed route row (optional network, type, protocol, stamp, optional `from`, optional primary marker, info) and matching it gives the same groups back. |
| BirdGrammar.MarkerAndInfo | utils/bird-route-parser/parsers/route.py:8 | The primary marker is taken only when the text after it still starts with a blank; otherwise the group is absent and the text is the info. |
| BirdGrammar.AttributeIsNotRoute | utils/bird-route-parser/parsers/route.py:8-12 | An attribute line such as `\tType: BGP univ` is never a route summary row, because the type word must be followed by ` [`. |
| BirdGrammar.RoutesComplete | utils/bird-route-parser/parsers/protocols.py:12 | A `Routes:` line rendered from a description and two or three counts reads back as the same groups, the preferred count absent when not printed. |
| BirdGrammar.StatsRowComplete | utils/bird-route-parser/parsers/protocols.py:24-25 | A statistics row rendered from a label and five digit-or-dash cells reads back as that label and those cells. |
| BirdGrammar.StatsHeaderComplete | utils/bird-route-parser/parsers/protocols.py:23 | The `Route change stats:` header with its five column names is accepted. |
| BirdDetails.ParseColonInt | utils/bird-route-parser/parsers/util.py:26-30 | One line is consumed; the key is the stripped description and the value the integer of the trailing digit run; a line that does not match is the `None.group` failure. |
| BirdDetails.Continuations | utils/bird-route-parser/parsers/util.py:37-41 | The lines after an entry that start with two tabs are collected stripped; the first other line is pushed back. |
| BirdDetails.ParseColonStr | utils/bird-route-parser/parsers/util.py:33-45 | The entry and its continuation lines are glued without separator; the value is the stripped text after the first colon; the line after the block is pushed back. |
| BirdDetails.ParseIntList | utils/bird-route-parser/parsers/util.py:15-23 | The value is `None` whenever the data contains `{`, otherwise the whitespace-split tokens as integers in order (a non-integer token is a ValueError); the key is the stripped description. |
| BirdDetails.ParseRoutes | utils/bird-route-parser/parsers/protocols.py:11-18 | The key is the stripped description and the value the integer imported, exported and preferred counts; a line without the preferred count fails on `int(None)`. |
| BirdDetails.StatsRows | utils/bird-route-parser/parsers/protocols.py:32-46 | Each statistics row is stored under its stripped label with its five cells as strings, a later row with the same label replacing the earlier one. |
| BirdDetails.ParseRouteStats | utils/bird-route-parser/parsers/protocols.py:22-48 | The header must be present (an assertion), then exactly four rows are read and stored; the key is `route_change_stats`. |
| BirdDetails.ParseDescLines | utils/bird-route-parser/parsers/util.py:48-70 | A failing first read fails the block; a block read to the end leaves the reader on its stopping line (the final "" or a line matching the stop pattern) with a rewind pending, on the same file and with no more work left than before. |
| BirdDetails.DescLoop | utils/bird-route-parser/parsers/util.py:51-68 | Each turn consumes at least one non-empty line, so the loop ends; the reader is left with the stopping line pushed back. |
| BirdDetails.RunDecoder | utils/bird-route-parser/parsers/protocols.py:52-58 | Every decoder consumes at least the line it was started on; `parse_bgp_state` returns key `bgp` holding `BGP state` and the 4-space details block. |
| BirdDecoding.ColonIntRoundTrip | utils/bird-route-parser/parsers/util.py:26-30 | A `key: <digits>` line decodes to the key and the number printed. |
| BirdDecoding.ColonIntRejectsText | utils/bird-route-parser/parsers/util.py:27-30 | A line whose data is not all digits fails the number decoder. |
| BirdDecoding.ContinuationsRead | utils/bird-route-parser/parsers/util.py:37-41 | The continuation reader collects exactly the continuation lines, stripped, and stops at the first other line. |
| BirdDecoding.ColonStrRoundTrip | utils/bird-route-parser/parsers/util.py:33-45 | A `key: value` entry followed by continuation lines decodes to the key and the value with the continuation parts appended without separator, and the next line is pushed back. |
| BirdDecoding.IntListRoundTrip | utils/bird-route-parser/parsers/util.py:15-23 | A list of integers printed with single spaces decodes back to that list. |
| BirdDecoding.IntListAsSet | utils/bird-route-parser/parsers/util.py:19-21 | An AS path holding an AS set (`{`) is stored as `None`. |
| BirdDecoding.RoutesRoundTrip | utils/bird-route-parser/parsers/protocols.py:11-18 | A `Routes:` line with three counts decodes back to those counts. |
| BirdDecoding.RoutesWithoutPreferred | utils/bird-route-parser/parsers/protocols.py:12-17 | A `Routes:` line without the preferred count fails on `int(None)`. |
| BirdDecoding.RouteStatsRoundTrip | utils/bird-route-parser/parsers/protocols.py:22-48 | The header and four rows with distinct labels decode to exactly those rows, each row's cells (as matched strings, `---` included) under its label. |
| BirdDecoding.RouteStatsOfRows | utils/bird-route-parser/parsers/protocols.py:32-46 | Four parsed rows are stored one after another, so a repeated label keeps the later row. |
| BirdDecoding.RouteStatsNeedHeader | utils/bird-route-parser/parsers/protocols.py:28-30 | A missing header fails the decoder's assertion. |
| BirdDecoding.StoreValues | utils/bird-route-parser/parsers/util.py:9-12 | Storing under distinct keys puts each value under its own key. |
| BirdBlocks.DescLinesAtEnd | utils/bird-route-parser/parsers/util.py:50-69 | At end of input the block is empty and the final "" is pushed back. |
| BirdBlocks.DescLoopStops | utils/bird-route-parser/parsers/util.py:52-69 | A line matching the stop pattern ends the block and is pushed back, so the next read yields it. |
| BirdBlocks.OnlyRoutesStop | utils/bird-route-parser/parse.py:33-55 | Only the route block has a stop pattern; protocol and BGP blocks run to the end of input or to a fatal error. |
| BirdBlocks.DescLoopSkips | utils/bird-route-parser/parsers/util.py:54-58 | A line that is not a detail line is skipped and nothing is stored. |
| BirdBlocks.DescLoopKeyError | utils/bird-route-parser/parsers/util.py:59-67 | A detail line whose raw description has no decoder re-raises KeyError. |
| BirdBlocks.DescLoopStores | utils/bird-route-parser/parsers/util.py:59-68 | A detail line with a decoder is pushed back, decoded, and its key set to its value over whatever was stored before. |
| BirdBlocks.DescLoopDecoderFails | utils/bird-route-parser/parsers/util.py:62-67 | A failing decoder fails the whole block. |
| BirdBlocks.RawDescriptionLookup | utils/bird-route-parser/parsers/util.py:59-63 | The decoder is looked up by the raw description: a description with a trailing blank has no decoder. |
| BirdBlocks.BgpDecoderKinds | utils/bird-route-parser/parsers/protocols.py:72-82 | In a BGP block only `Neighbor AS` decodes to an integer; the other known keys decode to strings; unknown keys have no decoder. |
| BirdBlocks.RouteDecoderKinds | utils/bird-route-parser/parsers/route.py:14-20 | The AS path is an integer list, MED and local preference are integers, and every other attribute falls back to the string decoder. |
| BirdTree.ScalarOf | utils/bird-route-parser/parsers/util.py:78-81 | The value is the integer when the text parses as a Python `int`, otherwise the text itself. |
| BirdTree.AddLine | utils/bird-route-parser/parsers/util.py:73-84 | A line with a colon is split at its first colon, both sides stripped, and the key set to the scalar value; a line without one is stored with `None`; the key is returned. |
| BirdTree.AddLineInt | utils/bird-route-parser/parsers/util.py:76-79 | A `key: <int>` entry is read back as that integer under that key. |
| BirdTree.AddLineText | utils/bird-route-parser/parsers/util.py:76-81 | A `key: <text>` entry whose text is not an integer is read back as that text. |
| BirdTree.AddLineBare | utils/bird-route-parser/parsers/util.py:83-84 | A line without a colon is stored as a key with value `None`. |
| BirdTree.Start | utils/bird-route-parser/parsers/util.py:88-91 | The builder starts from root `{"details": {}}` with `lastkey` = "details" and a stack holding only the root at width 0. |
| BirdTree.PopTo | utils/bird-route-parser/parsers/util.py:104-105 | Popping never removes the width-0 root, never changes the dict the stack denotes, and leaves a top no wider than the line, so the `unreachable` branch cannot be taken. |
| BirdTree.Step | utils/bird-route-parser/parsers/util.py:100-118 | One line keeps the stack valid: at the top's width it is added to the top dict, deeper it opens a frame under `lastkey`, and a missing `lastkey` is a KeyError. |
| BirdTree.ParseByIndentation | utils/bird-route-parser/parsers/util.py:87-121 | A failing first read fails the block; a finished block leaves the reader on the same file with no rewind pending, the line that ended it consumed. |
| BirdTree.EmptyBlock | utils/bird-route-parser/parsers/util.py:88-121 | With nothing to read the result is `{"details": {}}`. |
| BirdTree.BlankLineEnds | utils/bird-route-parser/parsers/util.py:96-98 | A blank line ends the block and is consumed, nothing pushed back. |
| BirdTree.SameLevel | utils/bird-route-parser/parsers/util.py:107-108 | A line at the top's width is added to the top dict and becomes `lastkey`. |
| BirdTree.PromoteTruthy | utils/bird-route-parser/parsers/util.py:109-116 | After key k with truthy value v, a deeper line turns v into `{k: v, ...}` holding the line too. |
| BirdTree.PromoteFalsy | utils/bird-route-parser/parsers/util.py:109-116 | After a key with a falsy value, a deeper line starts a fresh dict. |
| BirdTree.BetweenLevels | utils/bird-route-parser/parsers/util.py:104-115 | A width strictly between two levels pops to the lower one and reuses the popped frame's last key there, a KeyError when the lower dict lacks it. |
| BirdParse.ShowProtocols | utils/bird-route-parser/parse.py:17-38 | As written: a header that does not split into exactly name, proto, table, state, since, info fails the assertion; every record returned is of a supported (BGP) protocol. |
| BirdParse.ProtoTurnAt | utils/bird-route-parser/parse.py:22-36 | A non-summary line is skipped; for a summary row the next line is read first, a non-BGP row continues with it, and a BGP row's details are read with no stop pattern. |
| BirdParse.ProtoLoopAppends | utils/bird-route-parser/parse.py:20-36 | The scan only appends, and only records of supported protocols. |
| BirdParse.BgpRowTurn | utils/bird-route-parser/parse.py:28-36 | A BGP row's details start after an extra read, and the scan resumes with the line read first. |
| BirdParse.HeaderAccepted | utils/bird-route-parser/parse.py:18-19 | The header line `birdc` prints is accepted. |
| BirdParse.NoBgpRows | utils/bird-route-parser/parse.py:22-36 | Lines that are not BGP summary rows yield no records. |
| BirdParse.HeaderThenNoBgp | utils/bird-route-parser/parse.py:17-38 | A header followed only by non-BGP lines, or alone, yields the empty list. |
| BirdParse.Inherit | utils/bird-route-parser/parse.py:49-50 | A row's network is its own when present, otherwise the last one seen. |
| BirdParse.RouteFields | utils/bird-route-parser/parse.py:51-53 | The record holds the groups with the network replaced, absent ones dropped and present ones stripped. |
| BirdParse.ShowRoute | utils/bird-route-parser/parse.py:42-63 | Every line reaching the loop must be a route summary row (an assertion); the list is built only when `return_json` is set. |
| BirdParse.RouteTurnAt | utils/bird-route-parser/parse.py:46-57 | A row's attributes are read up to the next summary row, which is replayed as the next row. |
| BirdParse.RouteLoopAppends | utils/bird-route-parser/parse.py:43-62 | The loop only appends, and appends nothing unless the list is asked for. |
| BirdParse.RouteLoopRow | utils/bird-route-parser/parse.py:46-62 | A row appends its record when asked and the loop goes on with the next row and the inherited network. |
| BirdParse.NetworkOfRecord | utils/bird-route-parser/parse.py:44-53 | Each record's network is its own row's, or else the nearest earlier row's; before any, the key is absent. |
| BirdListing.ContinuationsSpan | utils/bird-route-parser/parsers/util.py:37-41 | The continuation reader passes over no route summary row: it stops on the first line that does not start with two tabs, which it leaves cached. |
| BirdListing.DescLoopSpan | utils/bird-route-parser/parsers/util.py:51-68 | The route attribute loop stops on a summary row or at the end of input, pushed back, and every line it passed over is not a row. |
| BirdListing.RouteBlockSpan | utils/bird-route-parser/parse.py:54-55 | A route's attribute block runs from the line after its row to the next summary row, or to the end of input, and holds no row. |
| BirdListing.RouteLoopLists | utils/bird-route-parser/parse.py:46-62 | From any row on, the loop appends one record per summary row that follows in the file, in order, each with that row's fields and the network it inherits. |
| BirdListing.ShowRouteLists | utils/bird-route-parser/parse.py:42-63 | Over a listing `birdc show route all` prints, `show_route` with `return_json` returns exactly one record per summary row, in file order, each holding that row's fields with its inherited network. |
| BirdListing.ShowRouteRecordAt | utils/bird-route-parser/parse.py:44-53 | The k-th record holds the k-th summary row, with the network of the last row up to it that names one, and no network key before any. |
| BirdEntries.BlockOfEntries | utils/bird-route-parser/parsers/util.py:48-70 | A protocol or BGP block of `key: value` text entries up to the end of input is read into the entries stored one after another, and the final "" is left to be read again. |
| BirdEntries.BlockKeepsLastValue | utils/bird-route-parser/parsers/util.py:59-68 | Such a block holds exactly the keys printed, each with the value of the last entry printed for it. |
| BirdEntries.LaterLineWins | utils/bird-route-parser/parsers/util.py:64 | Two entries with the same key leave that key alone in the block, holding the later value. |
| BirdTree.FlatLoop | utils/bird-route-parser/parsers/util.py:93-119 | On lines at width 0 up to a blank line or the end of input, the loop adds each line to the root in turn and stops after the blank line. |
| BirdTree.FlatBlock | utils/bird-route-parser/parsers/util.py:87-121 | A block of lines at width 0 is read into `{"details": {}}` with each line added to the root in order, as `add_line` stores it, and the reader is left after the blank line that ended it, or at the end of input. |
| BirdProtocols.BgpDetailsRunToEnd | utils/bird-route-parser/parse.py:33-34 | As written, a BGP row's details are read to the end of the input: after its record the reader holds "" with a rewind pending, whatever followed the row. |
| BirdProtocols.ScanAfterEnd | utils/bird-route-parser/parse.py:22-36 | Once the input is exhausted the scan adds at most one more record. |
| BirdProtocols.ShowProtocolsDropsRow | utils/bird-route-parser/parse.py:17-38 | As written, a table whose BGP rows are separated by a blank line yields a record for the first BGP row only. |
| BirdProtocols.ScanRows | utils/bird-route-parser/parse.py:22-36 | Corrected: the scan returns one record per BGP summary row from its start on, in table order, each holding that row. |
| BirdProtocols.IntendedOneRecordPerBgpRow | utils/bird-route-parser/parse.py:17-38 | Corrected: `show_protocols` returns one record per BGP row of the table, in order. |
| BirdProtocols.IntendedKeepsRow | utils/bird-route-parser/parse.py:17-38 | Corrected: the same two-row table yields a record for each BGP row. |
| VultrRoutes.PeerTypeOf | utils/vultr-provider-matrix/src/routes.rs:173-183 | Codes 100, 200, 300, 4000 and 500 name transit, public peer, private peer, customer and Vultr origin; every other value is unknown. |
| VultrRoutes.PeerTypeCodes | utils/vultr-provider-matrix/src/routes.rs:173-183 | Each known peer type has exactly one community code, and that code maps back to it. |
| VultrRoutes.PeerTypeNamesDistinct | utils/vultr-provider-matrix/src/routes.rs:160-171 | The six peer types print as six distinct names. |
| VultrRoutes.ParseU32 | utils/vultr-provider-matrix/src/routes.rs:92-93 | A digit run parses to its decimal value exactly when that value is below 2^32. |
| VultrRoutes.ScanTuples | utils/vultr-provider-matrix/src/routes.rs:88-109 | The scan yields only tuples of the right arity whose numbers all fit a `u32`, each taken from the text left to right. |
| VultrRoutes.EmptyText | utils/vultr-provider-matrix/src/routes.rs:88-97 | Empty community text yields no communities. |
| VultrRoutes.NoTupleHere | utils/vultr-provider-matrix/src/routes.rs:89-90 | Text that does not open a tuple is skipped one character at a time. |
| VultrRoutes.OverflowDropped | utils/vultr-provider-matrix/src/routes.rs:91-95 | A matched tuple with a number of 2^32 or more is dropped and the scan resumes after it. |
| VultrRoutes.ScanTuplesText | utils/vultr-provider-matrix/src/routes.rs:88-109 | Rendering any list of `u32` pairs or triples the way BIRD prints them, with any blanks after the commas, and scanning the text gives the same list back. |
| VultrRoutes.CommunitiesRoundTrip | utils/vultr-provider-matrix/src/routes.rs:88-97 | `parse_communities` reads back every list of `u32` pairs BIRD prints, in order. |
| VultrRoutes.LargeCommunitiesRoundTrip | utils/vultr-provider-matrix/src/routes.rs:99-109 | `parse_large_communities` reads back every list of `u32` triples BIRD prints, in order. |
| VultrRoutes.KnownTypesEmpty | utils/vultr-provider-matrix/src/routes.rs:131-143 | No known type is detected exactly when every Vultr community carries an unknown code. |
| VultrRoutes.DetectFromCommunities | utils/vultr-provider-matrix/src/routes.rs:131-143 | The result holds exactly the known types named by communities of AS 20473, or is exactly `{Unknown}` when there are none; it is never empty. |
| VultrRoutes.KnownLargeEmpty | utils/vultr-provider-matrix/src/routes.rs:145-157 | No known pair is detected exactly when every Vultr large community carries an unknown code. |
| VultrRoutes.DetectFromLarge | utils/vultr-provider-matrix/src/routes.rs:145-157 | The result holds exactly the known (type, neighbour) pairs of large communities of AS 20473, or is exactly `{(Unknown, 0)}` when there are none. |
| VultrRoutes.VultrNeighbor | utils/vultr-provider-matrix/src/routes.rs:67-75 | The neighbour is present exactly when 20473 occurs in the path and not only last, and it is the AS right after the first 20473. |
| VultrChecks.Name | utils/vultr-provider-matrix/src/checks.rs:43-53 | Each finding is counted under its variant's name. |
| VultrChecks.NameIsKind | utils/vultr-provider-matrix/src/checks.rs:43-53 | Two findings are counted under the same name exactly when they are of the same variant. |
| VultrChecks.Run | utils/vultr-provider-matrix/src/checks.rs:103-172 | `run` emits at most one finding of each of four kinds, in a fixed order, each stamped with the line index. |
| VultrChecks.RunTypesFinding | utils/vultr-provider-matrix/src/checks.rs:112-134 | RouteInconsistentPeerTypes is emitted, with both known-type sets, exactly when both are non-empty and differ. |
| VultrChecks.RunCustomerFinding | utils/vultr-provider-matrix/src/checks.rs:136-140 | CustomerWithLargeCommunity is emitted exactly when the known standard types are `{Customer}` and some large type is known. |
| VultrChecks.RunNeighborsFinding | utils/vultr-provider-matrix/src/checks.rs:118-153 | InconsistentLargeCommPeerAsns is emitted, with the neighbour set, exactly when the known large entries name two or more neighbours. |
| VultrChecks.RunMismatchFinding | utils/vultr-provider-matrix/src/checks.rs:142-169 | NeighborAsnInconsistency is emitted exactly when the single known large neighbour is nonzero, differs from the AS path's, and no known large type is a public peer. |
| VultrChecks.RunIgnoresUnknown | utils/vultr-provider-matrix/src/checks.rs:112-125 | Adding or removing `Unknown` entries on either side does not change the findings. |
| VultrChecks.ConsistentTransitPasses | utils/vultr-provider-matrix/src/checks.rs:267-279 | Agreeing transit communities whose neighbour is the AS path's raise nothing. |
| VultrChecks.CustomerFlagged | utils/vultr-provider-matrix/src/checks.rs:213-246 | A customer route carrying a transit large community is flagged both as inconsistent types and as customer-with-large. |
| VultrChecks.OtherNeighborFlagged | utils/vultr-provider-matrix/src/checks.rs:248-265 | A transit large community naming another neighbour than the AS path is flagged as a neighbour inconsistency. |
| VultrLib.FileStem | utils/vultr-provider-matrix/src/lib.rs:66 | The stem is a prefix of the name; it is the whole name exactly when the name has no dot or its only dot leads it, and otherwise it ends right before a dot with no dot after it, that is, the last dot. |
| VultrLib.GetMuxProtocol | utils/vultr-provider-matrix/src/lib.rs:65-77 | A name is accepted exactly when its stem ends in `.table.jsonl`, and then the result followed by `.table.jsonl` is exactly the stem. |
| VultrLib.DumpNamesMux | utils/vultr-provider-matrix/src/lib.rs:65-77 | A dump named `<mux>.table.jsonl.bz2` yields exactly `<mux>`, whatever the mux is called. |
| VultrLib.Upsert | utils/vultr-provider-matrix/src/lib.rs:127 | After storing, the ASN maps to the new info, every other ASN to what it mapped to before, and ASNs stay distinct. |
| VultrLib.UpsertSums | utils/vultr-provider-matrix/src/lib.rs:127-153 | Storing a peer replaces its old contribution to the route and finding sums by its new one. |
| VultrLib.BlankSkipped | utils/vultr-provider-matrix/src/lib.rs:91-94 | A line that is blank after trimming changes nothing. |
| VultrLib.UndecodableCounted | utils/vultr-provider-matrix/src/lib.rs:96-106 | An undecodable line adds one to the parse-failure count and changes nothing else. |
| VultrLib.NoMissingFromRun | utils/vultr-provider-matrix/src/lib.rs:114-148 | `run` never emits a finding counted as a missing neighbour, so that count only grows for routes without one. |
| VultrLib.StepConsistent | utils/vultr-provider-matrix/src/lib.rs:89-154 | One line keeps the fold's invariant: routes counted equal missing-neighbour findings plus the peers' routes, peer ASNs are distinct, and no peer counts a finding more often than the file. |
| VultrLib.AddPeerRouteSums | utils/vultr-provider-matrix/src/lib.rs:127-148 | A route filed under a peer adds one to the peers' routes and as much to each peer finding sum as to the file's count. |
| VultrLib.FoldConsistent | utils/vultr-provider-matrix/src/lib.rs:89-154 | The invariant holds after any sequence of lines. |
| VultrLib.FoldIpVersion | utils/vultr-provider-matrix/src/lib.rs:109-111 | The IP version is fixed by the first decoded route, 6 when its network has a colon and 4 otherwise, and stays 0 when no line decodes. |
| VultrLib.FinalSums | utils/vultr-provider-matrix/src/lib.rs:157-168 | Finalisation adds one AsInconsistentPeerTypes finding per peer with two or more known types, to the peer and to the file, and leaves every other count alone. |
| VultrLib.Finalise | utils/vultr-provider-matrix/src/lib.rs:157-168 | Every peer ends typed `{Unknown}` or with known types only, and the peers' ASNs are unchanged. |
| VultrLib.ProcessFileVersion | utils/vultr-provider-matrix/src/lib.rs:79-175 | A file's IP version is that of its first decoded route, 0 when none decodes. |
| VultrLib.ProcessFilePeers | utils/vultr-provider-matrix/src/lib.rs:79-175 | Each peer appears once and is typed `{Unknown}` or only with known types. |
| VultrLib.ProcessFileCounts | utils/vultr-provider-matrix/src/lib.rs:139-168 | No finding is counted over the peers more often than for the file. |
| VultrLib.ProcessFileRoutes | utils/vultr-provider-matrix/src/lib.rs:113-128 | Every decoded route is counted once: as missing its neighbour, or in exactly one peer's routes. |
| VultrInout.FindTableDumpFiles | utils/vultr-provider-matrix/src/inout.rs:10-27 | One path per kept entry, the kept entries being exactly the regular files whose valid-Unicode name starts with `vtr` and ends with `.table.jsonl.bz2`; the i-th entry's path sits at the position counting the kept entries before it. |
| VultrInout.DumpFilesInWalkOrder | utils/vultr-provider-matrix/src/inout.rs:10-27 | Of two kept entries, the earlier one's path comes first: the paths are in walk order and no entry is listed twice. |
| VultrInout.DumpFileMux | utils/vultr-provider-matrix/src/inout.rs:18 | Every kept dump file names a mux: the part before `.table.jsonl.bz2`, which starts with `vtr`. |
| VultrInout.CountResultsSites | utils/vultr-provider-matrix/src/inout.rs:103-119 | After all files, each ASN's counts are the numbers of IPv4 and of other files that see it as a transit provider. |
| VultrInout.CountSitesPerProvider | utils/vultr-provider-matrix/src/inout.rs:103-119 | An ASN has counts exactly when some file sees it as a transit provider, and they are its IPv4 and other site counts. |
| VultrInout.SiteCountPositive | utils/vultr-provider-matrix/src/inout.rs:108-114 | A file that sees an ASN as transit counts as one site of its IP version. |
| VultrInout.ProviderPeers | utils/vultr-provider-matrix/src/inout.rs:48-78 | Each mux keeps its IP version and findings, and keeps exactly the transit peers whose site count for its IP version is at least the minimum. |
| VultrInout.ProviderMuxes | utils/vultr-provider-matrix/src/inout.rs:80-85 | A provider lists exactly the muxes that kept it. |
| VultrInout.WriteProviders | utils/vultr-provider-matrix/src/inout.rs:41-90 | Without a provider path nothing is produced; otherwise the provider output of the results. |
| Revtr.Batch | utils/reverse-traceroute/revtr.py:70-82 | More than 1000 pairs is a ValueError; otherwise one request per pair, in order, each carrying the batch's label. |
| Revtr.Multibatch | utils/reverse-traceroute/revtr.py:103-108 | The batches are ceil(n/1000) consecutive non-empty slices of at most 1000 pairs whose concatenation is the input, the `i`th labelled `<label>_<i>`, and none is refused by `batch`; no pairs means no submission. |
| Revtr.HopTypeNamed | utils/reverse-traceroute/revtr.py:118-159 | A hop-type name is found exactly when it is one of the eleven member names, and the member found carries that name; any other name is a KeyError naming it. |
| Revtr.NamesDistinct | utils/reverse-traceroute/revtr.py:118-129 | No two hop types share a name. |
| Revtr.HopTypeNameRoundTrip | utils/reverse-traceroute/revtr.py:118-129 | Every hop type is found under its own name. |
| Revtr.DecodeHops | utils/reverse-traceroute/revtr.py:156-166 | A path decodes exactly when every hop's type name is known, to one hop per entry in order with its type, address and ASN; a hop without an ASN has no name or country, any other keeps its looked-up name and country; otherwise the error is the KeyError of the first unknown type name. |
| Revtr.NewMeasurement | utils/reverse-traceroute/revtr.py:145-169 | A `FAILED` stop reason is a ValueError before the path is read; otherwise the measurement is made exactly when the path decodes, failing with the path's error, and it keeps the status, stop reason, endpoints and decoded hops, is trustworthy exactly when no symmetric hop changes AS, and its hops are the loop-free path. |
| Revtr.ContainsInterdomainAssumeSymmetry | utils/reverse-traceroute/revtr.py:176-183 | True exactly when some hop after the first is of type DST_SYM_REV_SEGMENT and its ASN differs from its predecessor's (absent ASNs compared as values). |
| Revtr.FirstBetween | utils/reverse-traceroute/revtr.py:186-195 | The index found is the first TR_TO_SRC_REV_SEGMENT_BETWEEN hop; none is found exactly when there is no such hop. |
| Revtr.RemoveAsLoopAssertionsHold | utils/reverse-traceroute/revtr.py:211-215 | Neither assertion of the loop removal can fail, on any hops. |
| Revtr.RemoveAsLoopUnchanged | utils/reverse-traceroute/revtr.py:191-209 | The hops are returned unchanged when there is no between-segment hop, when its predecessor (the last hop, by Python's `-1`, when it is first) has no ASN, or when no later hop has that ASN. |
| Revtr.RemoveAsLoopCut | utils/reverse-traceroute/revtr.py:202-216 | Otherwise the hops from the first between-segment hop up to the first later hop with the predecessor's ASN are cut out, and the hop at the cut has that ASN. |
| Peering.CommunitiesDoNotAnnounce | peering.py:134-135 | One community (64600, u) per upstream, in order. |
| Peering.CommunitiesAnnounceToUpstreams | peering.py:138-141 | (20473, 6000) first, then one (64699, u) per upstream, in order. |
| Peering.CommunitiesNameUpstreams | peering.py:132-141 | Reading the upstreams back from either list gives exactly the upstreams given, in order, and nothing else is announced to by the second. |
| Peering.MangledPrefix | peering.py:176-177 | The mangled prefix has the prefix's length and differs only where the prefix had '/' (now '-') or ':' (now 'i'). |
| Peering.ConfigFile | peering.py:174-179 | A prefix that is not a network fails; otherwise the name is `export_<mux>_<mangled prefix>.conf`. |
| Peering.ConfigFileName | peering.py:174-179 | The name contains the mangled prefix position by position, so it holds no '/' or ':' taken from the prefix. |
| Peering.GatewayOctets | peering.py:238-241 | The gateway is `100.<64+id>.128.1` without a peer, and `100.<64+id>.<hi>.<lo>` with hi*256+lo the peer id and both below 256 for a 16-bit peer id. |
| Peering.Gateway | peering.py:235-241 | A mux without a tap is a KeyError naming it; otherwise the gateway is the dotted form of those octets. |
| Peering.ProtocolToPeeridAsn | peering.py:264-273 | Every rejected name is rejected with a ValueError. |
| Peering.ProtocolAccepted | peering.py:264-273 | An accepted name starts with `up<digits>_<digits>` and yields exactly those two numbers. |
| Peering.ProtocolNameRoundTrip | peering.py:264-273 | `up<peerid>_<asn>` followed by any text that does not start with a digit parses back to that peer id and ASN. |
| Peering.ParseTapFields | peering.py:163-165 | A line must split into exactly two fields (ValueError otherwise), the second starting with `tap` (AssertionError otherwise) and followed by an integer; the result is the mux and that integer. |
| Peering.TapLineRoundTrip | peering.py:161-165 | A line `<mux> tap<id>` parses back to the mux and the id. |
| Peering.Mux2Id | peering.py:160-165 | The map is built exactly when every line parses, and its muxes are exactly those named by some line. |
| Peering.Mux2IdLastWins | peering.py:162-165 | A mux's tap id is the one on the last line naming it. |
| Peering.ParseMux2TapLines | peering.py:160-165 | A file of `<mux> tap<id>` lines is read successfully, maps exactly the muxes it names, and gives each the id on the last line naming it. |
| Phases.NonVtrList | utils/large-scale/phases.py:183 | The list holds exactly the muxes whose name does not start with `vtr`. |
| Phases.Product | utils/large-scale/phases.py:149-151 | A nested loop visits every (x, y) pair, |xs|·|ys| of them. |
| Phases.Pairs | utils/large-scale/phases.py:136 | `itertools.combinations(xs, 2)` yields one pair per 2-combination of positions, drawn from the list. |
| Phases.PairCountClosed | utils/large-scale/phases.py:136 | There are n(n-1)/2 such combinations. |
| Phases.PairsHas | utils/large-scale/phases.py:136 | Every pair of positions i < j appears, the earlier element first. |
| Phases.PairsDistinct | utils/large-scale/phases.py:136 | For a list without repetitions no pair repeats an element. |
| Phases.Uncovered | utils/large-scale/phases.py:167-170 | Exactly the (mux, mux set) combinations whose set does not contain the mux survive the `continue`. |
| Phases.Anycast | utils/large-scale/phases.py:19 | The baseline update withdraws nothing and announces every mux exactly once. |
| Phases.WithdrawOne | utils/large-scale/phases.py:20-26 | Withdraw exactly the mux and announce the rest, so every mux is withdrawn or announced exactly once. |
| Phases.RestrictToPeers | utils/large-scale/phases.py:32-44 | The IXP mux announces only with its peer group's communities and the others plainly; each mux covered once. |
| Phases.WithdrawSet | utils/large-scale/phases.py:50-55 | The named set is withdrawn and exactly the rest announced. |
| Phases.PrependOne | utils/large-scale/phases.py:61-69 | The mux is announced with the three-fold prepend, every other mux plainly; each mux covered once. |
| Phases.PrependToPeers | utils/large-scale/phases.py:75-89 | The IXP mux is announced with prepend and its peer group's communities, the others plainly. |
| Phases.PrependSet | utils/large-scale/phases.py:95-102 | The named set is announced with prepend and the rest plainly; each mux covered once. |
| Phases.VtrNoAnnounce | utils/large-scale/phases.py:108-116 | The non-Vultr muxes announce plainly and the Vultr muxes carry a do-not-announce community naming exactly the provider. |
| Phases.VtrPrepend | utils/large-scale/phases.py:122-130 | The Vultr muxes carry the prepend-thrice communities for the provider, the others announce plainly. |
| Phases.WithdrawPair | utils/large-scale/phases.py:136-143 | Both muxes are withdrawn and exactly the rest announced. |
| Phases.WithdrawThenPeers | utils/large-scale/phases.py:149-161 | As written: withdraw `mux1`, the IXP mux towards its peer group, and every mux but `mux1` plainly. |
| Phases.WithdrawThenPeersDoubles | utils/large-scale/phases.py:153-161 | As written, the IXP mux is announced twice in one update, so the update does not cover each mux once. |
| Phases.WithdrawBothThenPeers | utils/large-scale/phases.py:153 | As the description `withdraw:{mux1},{mux2}` says: the IXP mux only towards its peer group, `mux1` withdrawn, the rest plainly; each mux covered once. |
| Phases.WithdrawOneAndSet | utils/large-scale/phases.py:171-176 | The mux and the named set are withdrawn and exactly the rest announced. |
| Phases.WithdrawNonVtr | utils/large-scale/phases.py:185-194 | One non-Vultr mux is withdrawn, the other non-Vultr muxes announce plainly, and Vultr does not announce to the provider. |
| Phases.NonVtrViaPeers | utils/large-scale/phases.py:203-216 | Vultr does not announce to the provider, the non-Vultr muxes but the IXP mux announce plainly, and the IXP mux only towards the peer group. |
| Phases.UnicastPair | utils/large-scale/phases.py:222-225 | Exactly the two muxes announce. |
| Phases.UnicastViaPeers | utils/large-scale/phases.py:231-241 | Exactly the IXP mux (towards its peer group) and `mux1` announce. |
| Phases.UnicastSet | utils/large-scale/phases.py:247-249 | Exactly the named set announces. |
| Phases.UnicastOneAndSet | utils/large-scale/phases.py:255-263 | Exactly the mux and the set announce, in two disjoint announcements when the set lacks the mux. |
| Phases.UnicastWithVtr | utils/large-scale/phases.py:272-279 | One non-Vultr mux and the Vultr muxes announce; the Vultr communities are (20473, 6000) and announce-to for exactly the provider. |
| Phases.PeersWithVtr | utils/large-scale/phases.py:287-297 | The Vultr muxes announce only to the provider and the IXP mux only towards the peer group. |
| Phases.UnicastOne | utils/large-scale/phases.py:303-306 | Exactly that mux announces. |
| Phases.VtrOnly | utils/large-scale/phases.py:312-317 | Only the Vultr muxes announce, to exactly the provider. |
| Phases.Phase1a | utils/large-scale/phases.py:18-27 | The anycast baseline, then one update per mux withdrawing exactly that mux and covering every mux once. |
| Phases.Phase1b | utils/large-scale/phases.py:30-45 | The baseline, then update k restricts the k-th IXP peer group's mux to that group: its first announcement is from that mux alone with the group's communities, and it is `RestrictToPeers` of that group. |
| Phases.Phase1MuxSets | utils/large-scale/phases.py:48-56 | The baseline, then one update per named set withdrawing exactly that set. |
| Phases.Phase2a | utils/large-scale/phases.py:59-70 | The baseline, then one update per mux prepending at that mux and covering every mux once. |
| Phases.Phase2b | utils/large-scale/phases.py:73-90 | The baseline, then update k prepends at the k-th IXP peer group's mux towards that group, with the group's communities, and it is `PrependToPeers` of that group. |
| Phases.Phase2MuxSets | utils/large-scale/phases.py:93-103 | The baseline, then one update per named set prepending at that set. |
| Phases.Phase3 | utils/large-scale/phases.py:106-117 | The baseline, then one update per Vultr provider, in order, telling Vultr not to announce to it. |
| Phases.Phase4 | utils/large-scale/phases.py:120-131 | The baseline, then one update per Vultr provider prepending towards it. |
| Phases.Phase5a | utils/large-scale/phases.py:134-144 | The baseline, then one update per 2-combination of muxes. |
| Phases.Phase5aWithdraws | utils/large-scale/phases.py:136-143 | Each phase5a update withdraws two muxes of the list and covers every mux once. |
| Phases.Phase5b | utils/large-scale/phases.py:147-162 | The baseline, then update k is `WithdrawThenPeers` of the k-th (mux, IXP peer group) combination in loop order, each withdrawing one mux. |
| Phases.Phase5bComplete | utils/large-scale/phases.py:147-162 | Every (mux, IXP peer group) combination has its phase5b update. |
| Phases.Phase5bIntended | utils/large-scale/phases.py:147-162 | The same combinations, update k being `WithdrawBothThenPeers` of the k-th, which leaves the IXP mux out of the plain announcement. |
| Phases.Phase5bIntendedComplete | utils/large-scale/phases.py:147-162 | Every (mux, IXP peer group) combination has its corrected update. |
| Phases.Phase5bIntendedPartitions | utils/large-scale/phases.py:147-162 | Every corrected update for a mux other than the group's IXP mux covers each mux exactly once. |
| Phases.Phase5MuxSets | utils/large-scale/phases.py:165-177 | The baseline, then exactly one update per (mux, named set) combination the loop does not skip, in loop order, each `WithdrawOneAndSet` of its combination and covering every mux once. |
| Phases.Phase5MuxSetsComplete | utils/large-scale/phases.py:165-177 | Every mux and named set not containing it has its update. |
| Phases.Phase5MuxSetsSkips | utils/large-scale/phases.py:165-177 | Every update after the baseline is for a mux and a named set not containing it: the skipped combinations get none. |
| Phases.Phase6a | utils/large-scale/phases.py:180-195 | The baseline, then one update per provider and non-Vultr mux. |
| Phases.Phase6aWithdraws | utils/large-scale/phases.py:185-194 | Each phase6a update withdraws exactly one non-Vultr mux and covers every mux once. |
| Phases.Phase6aComplete | utils/large-scale/phases.py:185-194 | Every (provider, non-Vultr mux) combination has its update. |
| Phases.Phase6b | utils/large-scale/phases.py:198-217 | The baseline, then update k is `NonVtrViaPeers` of the k-th (provider, IXP peer group) combination: three announcements, the Vultr one telling Vultr not to announce to that provider. |
| Phases.Phase6bComplete | utils/large-scale/phases.py:198-217 | Every (provider, IXP peer group) combination has its phase6b update. |
| Phases.Phase7a | utils/large-scale/phases.py:220-226 | The baseline, then one update per 2-combination of muxes, none withdrawing anything. |
| Phases.Phase7aAnnounces | utils/large-scale/phases.py:222-225 | Each phase7a update announces from two muxes of the list. |
| Phases.Phase5aComplete | utils/large-scale/phases.py:134-144 | Every pair of muxes has a phase5a update withdrawing exactly those two. |
| Phases.Phase7aComplete | utils/large-scale/phases.py:220-226 | Every pair of muxes has a phase7a update announcing from exactly those two. |
| Phases.Phase7b | utils/large-scale/phases.py:229-242 | The baseline, then update k is `UnicastViaPeers` of the k-th (mux, IXP peer group) combination: the group's mux towards that group, and the mux. |
| Phases.Phase7bComplete | utils/large-scale/phases.py:229-242 | Every (mux, IXP peer group) combination has its phase7b update. |
| Phases.Phase7MuxSets | utils/large-scale/phases.py:245-250 | The baseline, then one update per named set announcing from exactly that set. |
| Phases.Phase7MuxSetsUnicast | utils/large-scale/phases.py:253-264 | The baseline, then exactly one update per (mux, named set) combination the loop does not skip, in loop order, each `UnicastOneAndSet` of its combination, announcing the mux and the set separately. |
| Phases.Phase7MuxSetsUnicastComplete | utils/large-scale/phases.py:253-264 | Every mux and named set not containing it has its update. |
| Phases.Phase7MuxSetsUnicastSkips | utils/large-scale/phases.py:253-264 | Every update after the baseline is for a mux and a named set not containing it. |
| Phases.Phase8a | utils/large-scale/phases.py:267-280 | The baseline, then update k is `UnicastWithVtr` of the k-th (provider, non-Vultr mux) combination: the mux, and Vultr announcing only to that provider. |
| Phases.Phase8aAnnounces | utils/large-scale/phases.py:267-280 | Each phase8a update announces from the Vultr muxes and from exactly one non-Vultr mux. |
| Phases.Phase8aComplete | utils/large-scale/phases.py:267-280 | Every (provider, non-Vultr mux) combination has its phase8a update. |
| Phases.Phase8b | utils/large-scale/phases.py:283-298 | The baseline, then update k is `PeersWithVtr` of the k-th (provider, IXP peer group) combination: Vultr announcing only to that provider, and the group's mux towards that group. |
| Phases.Phase8bComplete | utils/large-scale/phases.py:283-298 | Every (provider, IXP peer group) combination has its phase8b update. |
| Phases.Phase9 | utils/large-scale/phases.py:301-307 | The baseline, then one update per mux announcing from that mux alone. |
| Phases.Phase10 | utils/large-scale/phases.py:310-318 | The baseline, then one update per provider announcing from the Vultr muxes alone, to that provider. |
| Phases.DeployedSizes | utils/large-scale/phases.py:18-318 | With the deployed 43 muxes, 5 IXP peer groups and 9 providers the phases have 44, 6, 10, 904, 216 and 46 updates. |
| Controller.Octets | utils/large-scale/controller.py:106 | An address has four bytes, each below 256. |
| Controller.OctetsOfQuad | utils/large-scale/controller.py:106 | The bytes of a.b.c.d are a, b, c and d. |
| Controller.LastHost | utils/large-scale/controller.py:107 | The last host lies in the network and is the broadcast address minus one for prefixes up to /30. |
| Controller.Slash24Addresses | utils/large-scale/controller.py:106-118 | For 184.164.c.0/24 the rule priority is 14000 + c and the source is 184.164.c.254. |
| Controller.PrefixIdsDistinct | utils/large-scale/defs.py:17-42 | The fourteen deployed prefixes give distinct priorities, all below the default rules at 30000. |
| Controller.FirstEligible | utils/large-scale/controller.py:112-114 | The first preference from a position on that some plain announcement covers and the update does not withdraw. |
| Controller.Egress | utils/large-scale/controller.py:108-115 | The egress is the first of ufmg01, uw01, clemson01 announced without peers or communities and not withdrawn; with none, the `assert muxes` fails. |
| Controller.SetEgresses | utils/large-scale/controller.py:101-119 | One rule per prefix exactly when every update has an egress, each with priority 14000 + third byte, the last host as source and the update's egress. |
| Controller.SourceToMux | utils/large-scale/controller.py:104-117 | Every rule's source is mapped, and only to the mux of a rule with that source. |
| Controller.AnycastEgress | utils/large-scale/controller.py:108-117 | The anycast baseline egresses through ufmg01. |
| Controller.WithdrawOneEgress | utils/large-scale/controller.py:108-117 | A phase1a update egresses through ufmg01, or uw01 when ufmg01 is withdrawn, never through the withdrawn mux. |
| Controller.UnicastEgressFails | utils/large-scale/controller.py:112-115 | A unicast from a mux outside the preferences fails the egress assertion. |
| Controller.VtrOnlyEgressFails | utils/large-scale/controller.py:110-115 | A Vultr-only update carries communities, so its egress assertion fails. |
| Controller.Skip | utils/large-scale/controller.py:34 | `islice(updates, start, None)` is the updates from position start on, or nothing past the end. |
| Controller.Deal | utils/large-scale/controller.py:42-46 | The updates of a round are paired with the prefixes in order. |
| Controller.RoundsFrom | utils/large-scale/controller.py:31-80 | As written: `run_loop` makes floor(n / 14) + 1 rounds. |
| Controller.RoundsFromDeploys | utils/large-scale/controller.py:34-52 | The rounds deploy every remaining update exactly once, in order. |
| Controller.RoundsFromSizes | utils/large-scale/controller.py:33-80 | Rounds are numbered on from the first round; every round but the last holds 14 updates and the last the remainder, possibly none. |
| Controller.RoundsFromIndices | utils/large-scale/controller.py:35-80 | The rounds carry consecutive indices from the first round on. |
| Controller.RoundsFromFull | utils/large-scale/controller.py:42-48 | Every round but the last takes one update per prefix. |
| Controller.RoundsFromLast | utils/large-scale/controller.py:35-48 | The last round holds the leftover updates, none when the count is a multiple of the prefix count. |
| Controller.RoundsFromPrefixes | utils/large-scale/controller.py:42-45 | The k-th update of a round is deployed to the k-th prefix. |
| Controller.RoundsFromTail | utils/large-scale/controller.py:35-80 | After a full round the loop continues as if started on the remaining updates with the next index. |
| Controller.ResumeAt | utils/large-scale/controller.py:33-34 | Restarting at round f deploys the same rounds as an uninterrupted run from its f-th round on. |
| Controller.RunLoopResume | utils/large-scale/controller.py:25-34 | `run_loop(updates, f)` with f full rounds available deploys the rounds of `run_loop(updates, 0)` from the f-th on. |
| Controller.ExtraEmptyRound | utils/large-scale/controller.py:43-49 | When the update count is a positive multiple of 14 the loop runs one extra, empty, round. |
| Controller.RoundsUntilDone | utils/large-scale/controller.py:35-49 | Corrected: the loop stops when the updates run out, making ceil(n / 14) rounds. |
| Controller.RoundsUntilDoneDeploys | utils/large-scale/controller.py:34-52 | The corrected loop deploys every remaining update exactly once, in order. |
| Controller.RoundsUntilDoneNonEmpty | utils/large-scale/controller.py:42-49 | The corrected loop never deploys an empty round. |
| Controller.RoundsAgree | utils/large-scale/controller.py:35-80 | The as-written loop is the corrected loop followed by at most one empty round. |
| Catchments.CheckResponse | utils/reverse-traceroute/catchments/build-catchments.py:82-122 | A line with fewer than ten tokens gives None; a pair is returned only for an echo reply whose fields parse and whose VP and target are known, and every such reply is returned. |
| Catchments.Filter | utils/reverse-traceroute/catchments/filed/build-catchments-te-exp.py:83-123 | The te-exp copy of the check behaves exactly as `check_response` and returns only expected pairs. |
| Catchments.AcceptedLines | utils/reverse-traceroute/catchments/build-catchments.py:148-153 | A pair is accepted from a dump exactly when some line of it yields that pair. |
| Catchments.InitTable | utils/reverse-traceroute/catchments/build-catchments.py:140-142 | The table starts with one None entry for every (VP, target) pair. |
| Catchments.RecordLine | utils/reverse-traceroute/catchments/build-catchments.py:150-154 | Recording one line never adds or removes keys. |
| Catchments.ScanDumpEntry | utils/reverse-traceroute/catchments/build-catchments.py:148-155 | Within one dump an entry becomes the tap exactly when the dump accepts its pair, and is otherwise unchanged. |
| Catchments.TapTableEntry | utils/reverse-traceroute/catchments/build-catchments.py:140-155 | Every entry is the tap of the last dump that accepted a reply for the pair, or None. |
| Catchments.SrcRemote2Tap | utils/reverse-traceroute/catchments/build-catchments.py:138-155 | After every dump the table keeps its shape and each entry holds the tap of the last dump with an accepted reply for it. |
| Catchments.LastTapNone | utils/reverse-traceroute/catchments/build-catchments.py:140-155 | An entry stays None exactly when no dump accepted the pair. |
| Catchments.LastTapAt | utils/reverse-traceroute/catchments/build-catchments.py:143-154 | Later dumps win: dump i decides when no later dump accepted the pair. |
| Catchments.AddVp | utils/reverse-traceroute/catchments/filed/build-catchments-te-exp.py:140-154 | Adding a VP changes only the (remote, tap) set, by exactly that VP, and never leaves an empty set behind. |
| Catchments.ScanTeAdds | utils/reverse-traceroute/catchments/filed/build-catchments-te-exp.py:141-155 | Scanning one dump adds exactly its accepted pairs to its tap in `tap2addr` and the matching VPs in `addr2tap2vps`. |
| Catchments.CatchmentSpec | utils/reverse-traceroute/catchments/filed/build-catchments-te-exp.py:139-155 | With distinct taps, `tap2addr[tap]` is exactly the set of pairs accepted from that tap's dump, and `addr2tap2vps[remote][tap]` is exactly the VPs whose reply from that remote it accepted. |
| Catchments.Hitlist | utils/reverse-traceroute/catchments/filed/build-catchments-te-exp.py:161 | A mux without a tap, or whose tap has no dump, is a KeyError; otherwise the hitlist is exactly the targets paired with the mux's source on its tap. |
| Catchments.Hitlists | utils/reverse-traceroute/catchments/filed/build-catchments-te-exp.py:160-166 | The hitlists exist exactly when every mux's does, one per mux of `emux2src`. |
| Catchments.HitlistSeen | utils/reverse-traceroute/catchments/filed/build-catchments-te-exp.py:153-161 | A target is in a mux's hitlist exactly when some line of its tap's dump shows the source's reply from it. |
| Catchments.AnycastCount | utils/reverse-traceroute/catchments/filed/build-catchments-te-exp.py:176 | The count never exceeds the number of targets seen. |
| Catchments.AnycastSpec | utils/reverse-traceroute/catchments/filed/build-catchments-te-exp.py:154-176 | A target counts as anycast exactly when its replies were accepted on two different taps. |
| Catchments.Invert | utils/reverse-traceroute/catchments/build-catchments.py:78 | The inverted map's muxes are exactly the muxes listed. |
| Catchments.InvertLastWins | utils/reverse-traceroute/catchments/build-catchments.py:78 | For a repeated mux the later source wins. |
| Catchments.InvertSound | utils/reverse-traceroute/catchments/build-catchments.py:78 | Every inverted entry names a source that maps to that mux. |
| CityPairs.HijackProvider | utils/reverse-traceroute/experiments/metascritic/run-citypairs.py:29 | The provider is an element of the hijacker's list; a city without a list is a KeyError and an empty list a ZeroDivisionError. |
| CityPairs.Configuration | utils/reverse-traceroute/experiments/metascritic/run-citypairs.py:29-35 | The update announces from the origin with do-not-announce and from the hijacker with announce-to, both naming the hijack provider, and withdraws nothing. |
| CityPairs.Others | utils/reverse-traceroute/experiments/metascritic/run-citypairs.py:25-27 | The hijackers of an origin are exactly the other cities. |
| CityPairs.Pairs | utils/reverse-traceroute/experiments/metascritic/run-citypairs.py:24-27 | The loop nest visits exactly the ordered pairs of distinct cities. |
| CityPairs.PairAttemptsAre | utils/reverse-traceroute/experiments/metascritic/run-citypairs.py:18-28 | The provider-index loop makes exactly one attempt per pair, with index 1. |
| CityPairs.PairsDistinct | utils/reverse-traceroute/experiments/metascritic/run-citypairs.py:24-27 | Without repeated cities each ordered pair is visited once: n - 1 hijackers for each of n origins. |
| CityPairs.LabelInjective | utils/reverse-traceroute/experiments/metascritic/run-citypairs.py:35 | Over cities without underscores two labels are equal only when origin, hijacker, provider and index all agree. |
| CityPairs.ToDictDistinct | utils/reverse-traceroute/experiments/metascritic/run-citypairs.py:23-36 | With distinct labels the dictionary keeps every configuration, in order. |
| CityPairs.CitiesArePfx2MuxMuxes | utils/reverse-traceroute/experiments/metascritic/defs.py:12-20 | `MUX2PFX` inverts `PFX2MUX`: its keys are the egress muxes in the same order. |
| CityPairs.DeployedCities | utils/reverse-traceroute/experiments/metascritic/defs.py:12-31 | The deployed cities are distinct, free of underscores and all have a non-empty provider list. |
| CityPairs.GenerateSpec | utils/reverse-traceroute/experiments/metascritic/run-citypairs.py:22-40 | Over such cities `generate_configurations` succeeds with n(n-1) configurations under distinct labels, one per ordered pair of distinct cities, in loop order. |
| CityPairs.DeployedConfigurations | utils/reverse-traceroute/experiments/metascritic/run-citypairs.py:22-40 | With the deployed constants there are 30 configurations. |
| CityPairs.AvoidRpf | utils/reverse-traceroute/experiments/metascritic/run-citypairs.py:83-86 | An update already reaching the egress is untouched; otherwise exactly the announcement from the egress alone with the one community (20473, 6000) is appended and nothing else changes. |
| CityPairs.AvoidRpfIdempotent | utils/reverse-traceroute/experiments/metascritic/run-citypairs.py:83-86 | Applying the guard twice changes nothing more. |
| CityPairs.GeneratedEgress | utils/reverse-traceroute/experiments/metascritic/run-citypairs.py:32-83 | A generated update reaches the egress exactly when the egress is its origin or its hijacker. |
| CityPairs.Round | utils/reverse-traceroute/experiments/metascritic/run-citypairs.py:79-87 | One round hands the next configurations to the prefixes in `PFX2MUX` order, each guarded against RPF for its egress. |
| CityPairs.RoundsDeal | utils/reverse-traceroute/experiments/metascritic/run-citypairs.py:71-90 | Every configuration is deployed exactly once, in order; every round but the last is full. |
| CityPairs.RoundsCount | utils/reverse-traceroute/experiments/metascritic/run-citypairs.py:72-90 | With q·p + m configurations over p prefixes (m < p) the loop runs q + 1 rounds and the last holds m: an empty round when m is 0. |
| CityPairs.DeployedRounds | utils/reverse-traceroute/experiments/metascritic/run-citypairs.py:71-90 | The 30 deployed configurations over six prefixes fill five rounds and a sixth, empty round follows. |
| CityPairs.ThirtyRounds | utils/reverse-traceroute/experiments/metascritic/run-citypairs.py:71-90 | Thirty configurations over six prefixes fill five rounds and leave a sixth, empty one. |
| CityPairs.Pfx2LabelOfRound | utils/reverse-traceroute/experiments/metascritic/run-citypairs.py:77-82 | After a round exactly the prefixes it handed out are labelled, each with its configuration's label. |
| CityPairs.RevtrLoopFrom | utils/reverse-traceroute/experiments/metascritic/run-citypairs.py:106-111 | From any mux on, the revtr loop as written submits one batch per labelled prefix, then raises KeyError at the first prefix the round did not reach, if any. |
| CityPairs.RevtrAfterRound | utils/reverse-traceroute/experiments/metascritic/run-citypairs.py:79-111 | After a round, one batch per configuration of the round is submitted under its label, and KeyError is raised exactly when the round was not full. |
| CityPairs.RoundsAreRounds | utils/reverse-traceroute/experiments/metascritic/run-citypairs.py:79-90 | Every round carries the first prefixes of `PFX2MUX`, in order. |
| CityPairs.EveryRunEndsInKeyError | utils/reverse-traceroute/experiments/metascritic/run-citypairs.py:71-111 | As written, every run ends in KeyError: the last round is never full, so the revtr loop after it looks up a prefix with no label. |
| CityPairs.DeployedRevtrFails | utils/reverse-traceroute/experiments/metascritic/run-citypairs.py:106-109 | With the deployed constants the sixth round is empty and its revtr loop fails on the first prefix before submitting anything. |
| CityPairs.EmptyRoundFails | utils/reverse-traceroute/experiments/metascritic/run-citypairs.py:106-109 | After an empty round the first lookup fails. |
| CityPairs.RevtrIntendedFrom | utils/reverse-traceroute/experiments/metascritic/run-citypairs.py:106-111 | Corrected, with the lookup guarded: from any mux on, exactly one batch per slot of the round, in order. |
| CityPairs.RevtrIntendedCovers | utils/reverse-traceroute/experiments/metascritic/run-citypairs.py:71-111 | Corrected: the loop never fails and, over all rounds, measures every configuration exactly once, in order. |
| Dicts.GetSpec | utils/reverse-traceroute/filed/get-one-per-slash24.py:9 | A lookup finds exactly the keys present, with each entry's own value. |
| Dicts.PutSpec | utils/reverse-traceroute/filed/get-one-per-slash24.py:9 | An assignment keeps keys unique, sets the value of its key only, keeps an existing key in place and appends a new one. |
| Dicts.FromItemsSpec | utils/reverse-traceroute/filed/get-one-per-slash24.py:9 | Building a dictionary by assignments gives unique keys, exactly the assigned ones, in the order of first assignment, each with its last assigned value. |
| Dicts.ValuesKeyedBy | utils/reverse-traceroute/filed/get-one-per-slash24.py:6-12 | Keeping the last value per key keeps every key exactly once, by the last value that has it, keys in the order of their first value. |
| Slash24.Slash24sDistinct | utils/reverse-traceroute/filed/get-one-per-slash24.py:6-12 | No /24 is printed twice, and the /24s come out in the order of their first line. |
| Slash24.Slash24sCovered | utils/reverse-traceroute/filed/get-one-per-slash24.py:6-12 | Every /24 that occurs in the input is printed. |
| Slash24.Slash24sLast | utils/reverse-traceroute/filed/get-one-per-slash24.py:6-12 | Each printed line is the last input line of its /24, and every such last line is printed. |
| Slash24.OnePerSlash24Printed | utils/reverse-traceroute/filed/get-one-per-slash24.py:6-12 | On the raw input lines: no /24 is printed twice, every /24 of a stripped line is printed, and each printed line is the stripped last line of its /24. |
| Ispy.SortSpec | utils/reverse-traceroute/filed/ispy-exp-announcements.py:51-55 | `list.sort` gives a sorted permutation of its input. |
| Ispy.SortOfSorted | utils/reverse-traceroute/filed/ispy-exp-announcements.py:55 | Sorting a sorted list changes nothing. |
| Ispy.Remove | utils/reverse-traceroute/filed/ispy-exp-announcements.py:54 | `list.remove` raises ValueError exactly when the item is absent; otherwise the result is the list without the item's first occurrence. |
| Ispy.SortedMuxesSpec | utils/reverse-traceroute/filed/ispy-exp-announcements.py:50-51 | With distinct muxes the sorted muxes are the muxes in strictly increasing order. |
| Ispy.HijackersOfSpec | utils/reverse-traceroute/filed/ispy-exp-announcements.py:52-55 | Each mux's hijackers are the other muxes in increasing order, one fewer than all muxes, never the mux itself. |
| Ispy.MakeMux2HijackersSpec | utils/reverse-traceroute/filed/ispy-exp-announcements.py:48-56 | `make_mux2hijackers` succeeds, keys the sorted muxes, and maps each to the ascending list of all other muxes. |
| Ispy.PrefixFields | utils/reverse-traceroute/filed/ispy-exp-announcements.py:59-60 | The prefix of an octet in 0..255 is `184.164.<octet>.0/24`, whose third field reads back as the octet; other octets are rejected. |
| Ispy.PrefixInjective | utils/reverse-traceroute/filed/ispy-exp-announcements.py:59-60 | Different octets give different prefixes. |
| Ispy.MuxPrefix | utils/reverse-traceroute/filed/ispy-exp-announcements.py:59-60 | A mux without an octet is a KeyError; otherwise the prefix of its octet. |
| Ispy.PyIndex | utils/reverse-traceroute/filed/ispy-exp-announcements.py:80 | Python indexing: negative indices count from the end and anything out of range is an IndexError. |
| Ispy.BuildSpec | utils/reverse-traceroute/filed/ispy-exp-announcements.py:63-96 | A builder succeeds exactly when every prefix and entry can be made, and then, with distinct octets, holds one item per mux in `mux2octet` order. |
| Ispy.LegitSpec | utils/reverse-traceroute/filed/ispy-exp-announcements.py:63-72 | Legit mode announces each mux's prefix from that mux alone, with its configured peers. |
| Ispy.PeersSpec | utils/reverse-traceroute/filed/ispy-exp-announcements.py:68-83 | Peers accompany an announcement exactly when the announcing mux is in `mux2peers`, and are its list. |
| Ispy.HijacksExist | utils/reverse-traceroute/filed/ispy-exp-announcements.py:75-86 | The hijack configuration exists exactly for the rounds whose index `round - 1` is in range. |
| Ispy.HijackersOthers | utils/reverse-traceroute/filed/ispy-exp-announcements.py:52-55 | The hijacker picked for a mux is always another configured mux. |
| Ispy.HijacksSpec | utils/reverse-traceroute/filed/ispy-exp-announcements.py:75-86 | With valid, distinct octets the hijack configuration exists exactly for the rounds whose index `round - 1` is in range; each prefix is then announced from the picked hijacker, a mux other than its own. |
| Ispy.HijackEntrySpec | utils/reverse-traceroute/filed/ispy-exp-announcements.py:80-84 | One mux's entry exists exactly for the valid rounds and announces from the hijacker at the picked position, with its configured peers. |
| Ispy.RoundZeroPicksGreatest | utils/reverse-traceroute/filed/ispy-exp-announcements.py:80 | Round 0 wraps around to index -1: the hijacker is the greatest other mux. |
| Ispy.LateRoundFails | utils/reverse-traceroute/filed/ispy-exp-announcements.py:80 | Rounds from n on, with n - 1 hijackers per mux, raise IndexError. |
| Ispy.WithdrawsSpec | utils/reverse-traceroute/filed/ispy-exp-announcements.py:89-96 | Withdraw mode withdraws each mux's prefix from every mux of `mux2id`, in its order. |
| Ispy.ProdPeers | utils/reverse-traceroute/config-prod.py:14-18 | With the production `mux2peers` only amsterdam01, seattle01 and ufmg01 restrict their peers. |

## Left out

- Regular expressions: no regex engine; each fixed pattern is a hand-written recogniser, proved to accept the lines it should. `VIA_RE` (utils/bird-route-parser/parsers/route.py:10) is never used and is not modelled.
- BIRD parser I/O: argparse, gzip, resource limits and the JSON writes of `parse.py` are left out; the drivers return the lists they build. Lines are strings as `readline` returns them, `""` marking the end of input.
- `unittests.py`: the Python 2 unittest harness (`cStringIO`, `assertEquals`) is not modelled. Its `show_protocols` fixtures are tables the summary pattern accepts; BirdProtocols.ShowProtocolsDropsRow and IntendedKeepsRow restate the shape of test_ParseSimpleProtocols2 (utils/bird-route-parser/unittests.py:39-55), a header, a BGP row, a blank line and a BGP row, with single-space columns and without its non-BGP rows. Its decoder-level facts are restated in BirdDecoding.
- Vultr I/O: file opening, bz2, walkdir, serde JSON decoding and encoding, logging and the rayon parallelism are left out. Routes arrive already decoded (`None` for a line serde rejects) and directory entries as given records.
- `Check::message`: Debug formatting of findings; only `name`, which is what the counts are keyed by, is modelled.
- `ProviderOutput`: utils/vultr-provider-matrix/src/inout.rs:87-90 fills two of the four fields declared at utils/vultr-provider-matrix/src/lib.rs:34-39, so the crate as shown does not build; the model keeps the two fields that are filled, `mux2peers` and `peer2muxes`.
- Rust `HashMap`s and `BTreeSet`s are association lists and sets. The order of muxes in a `peer2muxes` list, which follows `HashMap` iteration in the source, is the order of the results list here.
- Reverse traceroute: the `RevTrApi` HTTP calls, timeouts and JSON errors are left out, as are the constructor's IPv4, ip2asn and AS-name lookups: hops arrive with those lookups done.
- peering.py side effects: configuration rendering and writing, `birdc` reloads, `ip rule`/`ip route` subprocesses, `ExperimentController` and the CLI. `withdraw()` relies on `MUXES`, which the file does not define. The mux-to-tap file is given as its lines. `ipaddress.ip_network` and `ipaddress.ip_address` are parameters.
- Phase generators: `PeeringCommunities.announce_to`, `MUX_SETS` and `Vultr.communities_prepend_thrice` are imported but defined in no file of the repository, so they are parameters of the environment. The announcement mux lists come from iterating over Python sets, so they are sets here and their order is not modelled; likewise the order of the updates of `phase6a` and `phase8a`, which follows the iteration of `set(MuxName)`, is modelled as the order of the given mux list. The duplicated generators in phase1.py to phase10.py and their `main` functions are left out.
- controller.py orchestration: withdrawals, deployment, tcpdump and pinger scripts, sleeps, time stamps and JSON dumps. The `AnnouncementController` calls in `set_egresses` are reduced to the rules they would install.
- Catchment scripts: tcpdump subprocesses, file reads and writes, resource limits and logging. IPv4 address parsing is a parameter. The te-exp script writes to `opts.basedir`, which its argument parser never defines; the hitlists are modelled without the write.
- city-pair experiment: the revtr atlas rebuilds, catchment measurements, tcpdump dumps and sleeps of the main loop, and the `RevTrApi` calls; the loop is modelled as the rounds of (prefix, label, update) it deploys and, after each round, the batches whose labels the revtr loop looks up (`octet` is a parameter standing for the third byte of the prefix).
- BirdDetails.ParseDescLines: its own contract states only where the reader is left. The entries it stores are stated block-wide only for protocol and BGP blocks of `key: value` text entries running to the end of input (BirdEntries.BlockOfEntries, BlockKeepsLastValue, LaterLineWins); for integer, list, `Routes:` and statistics entries, and for blocks ended by a stop line, they are stated one line at a time (the BirdBlocks rows).
- BirdTree.ParseByIndentation: its own contract states only where the reader is left. The tree it builds is stated block-wide only for blocks whose lines are all at width 0 (BirdTree.FlatBlock); nested blocks are stated one line at a time (BirdTree.Step, SameLevel, PromoteTruthy, PromoteFalsy, BetweenLevels, BlankLineEnds).
- BirdParse.ShowProtocols: one record per BGP row, in table order, is not stated of the code as written because it does not hold there (see "## Findings"); it is proved of the corrected reading BirdProtocols.ShowProtocolsIntended (BirdProtocols.IntendedOneRecordPerBgpRow).
- Ispy.BuildSpec: `config.mux2octet`, which the ispy script reads, is not defined in config-prod.py or config-test.py (only `_deprecated_mux2octet` is), so it is a parameter. `ipaddress.IPv4Network` is reduced to the 0..255 check on the octet. The argparse front end and the JSON writes are left out.
- Ispy.HijacksSpec: the content half is stated only for distinct octets; with two muxes sharing an octet, the later mux's entry replaces the earlier one under the same prefix, which the model computes but no lemma describes.
- Slash24.Slash24sLast: stated over the stripped lines; reading standard input and printing are left out.
- Text: `\d`, `\w` and the digits `int()` accepts are ASCII only; Python also accepts other Unicode decimal digits there, which are not modelled. Whitespace follows Python's `str.isspace` and Rust's `char::is_whitespace` in full.

## Findings

| source | as written | input that shows it | evidently intended | confidence | as-written member | corrected member |
|---|---|---|---|---|---|---|
| utils/large-scale/phases.py:147-162 | `phase5b` withdraws only `mux1` and announces plainly from every mux but `mux1`, so the IXP mux `mux2` is announced both to its peer group and to everyone | `mux1` = clemson01, `mux2` = amsterdam01 with peer group [60, 61]: amsterdam01 appears in both announcements | as the description `anycast+withdraw:{mux1},{mux2}` says, `mux2` is announced only towards its peer group, so every mux is covered once | not executed | Phases.WithdrawThenPeersDoubles | Phases.Phase5bIntendedPartitions |
| utils/large-scale/controller.py:35-49 | `run_loop` sets `done` only when `next` fails inside a round, so when the updates divide evenly into rounds of 14 it runs one more round that deploys nothing and still measures catchments | 14 updates starting at round 0: round 0 deploys all 14, round 1 deploys none | stop when the updates run out: ceil(n / 14) rounds, none empty | not executed | Controller.ExtraEmptyRound | Controller.RoundsAgree |
| utils/bird-route-parser/parse.py:28-36 | `show_protocols` reads a BGP row's details with `parse_desc_lines` and no stop pattern, and the protocol detail pattern wants two leading blanks, so every later line that is not a detail line is skipped until the end of input and the scan never sees the rows after the first BGP row | a header, a BGP row `p2`, a blank line and a BGP row `p1`: one record, for `p2` | one record per BGP row, each with the detail lines up to the next summary row, as the unit test at utils/bird-route-parser/unittests.py:20-36 expects (two records) | not executed | BirdProtocols.ShowProtocolsDropsRow | BirdProtocols.IntendedOneRecordPerBgpRow |
| utils/reverse-traceroute/experiments/metascritic/run-citypairs.py:106-109 | after each round the revtr loop reads `pfx2label[MUX2PFX[mux]]` for every mux of `MUX2VPIP`, but the last round of the main loop is never full, so a prefix it did not label raises KeyError and the run ends there | the 30 deployed configurations over six prefixes: the sixth round is empty and the first lookup fails before any batch | measure only the prefixes the round labelled: every configuration measured exactly once and no failure | not executed | CityPairs.EveryRunEndsInKeyError | CityPairs.RevtrIntendedCovers |
