# Verification of the Veri control system

This project models the parts of the repository in which a mistake would stay
unnoticed longest, and proves what they promise. The repository turns
function charts into structured text, runs compiled modules on a small stack
machine, replaces them while a plant is running, and keeps a standby station in
step. Six areas are covered.

* **From chart to program text.** `Validator`, `ExecutionOrder`, `Generator`,
  `LoopGraph` and `LoopFinder` are the ordering passes, the printer and the
  cross-page loop finder, with the loops and shared variables they have;
  `LoopChecker`, `HiddenLoops` and `WireOrders` say what the finder finds and what
  it does not. `Digraphs` and `Kahn` hold the theory of dependency orders; `ChartMeaning` proves that the emitted
  statements compute the only solution of the chart; `StParser` reads the text
  back and `ChartRoundTrip` proves that nothing is lost on the way. `SourceTexts`
  says what the printed constants, ports and pins mean, `LinePatterns` what the
  parser's patterns match.
* **Download transport.** `Sha256` and `Hmac` are the streaming hash and the
  authentication code, `ShaStandard` what the standard asks of the constants and
  functions of the hash; `Crc32` is the table-driven checksum against the checksum
  taken bit by bit; `DownloadFrames` says what one byte does to a receiver,
  `DownloadTheory` proves the round trip and what holds on arbitrary bytes, and
  `DownloadWire` refines both senders and the incremental receiver to it.
* **Versions and the agent.** `Slots` is the two-slot manager as a value,
  `SlotManager` the class that changes in place, `Agent` the scan loop with its
  one download, one switch and one rollback.
* **SafeASM.** `SasmFormat` and `SasmLoader` are the image format, the loader and
  the validator, `SasmEncoder` the compiler's encoder; `Machine` and
  `MachineTheory` are the instruction set and what every scan keeps, `Instructions`
  and `StackEffects` the laws of the single instructions, `ScanFaults` what a scan
  does not report; `Interpreter` is the machine that runs in place.
* **Hot standby.** `DirtyPages`, `Snapshot` and `HotStandby` are the bitmap, the
  snapshot format and the two nodes with the mailbox between them; `DeltaSync`
  proves what stays equal over whole runs, `SyncRuns` what does when the two
  stations do not keep step.
* **Simulation.** `Force` is the stimulus table with its cursors, `Plant` the
  plant that is stepped in place, `PlantLaws` how far each kind of channel moves.

`Orders`, `Results`, `Bytes`, `Bits`, `Word32`, `Strings`, `Charts` and `StText` hold
what several areas share. Where a class changes state, a specification on values
says what it must do, the methods are proved against it, and the theorems are
about the specification.

## What turned out differently

* `_check_cycles` can miss a delay-free loop when a delayed ring is met first
  (`HiddenLoops.DelayHidesLoop`). It still reports, for every loop, some ring
  that overlaps it (`LoopChecker.EveryLoopTouched`), and an error if no simple
  delayed loop overlaps it (`LoopChecker.ErrorsComplete`). For loops of two blocks
  that condition is exact (`WireOrders.TwoBlockLoop`).
* `topological_sort` also fails on duplicate block ids and on a block named like
  the interface sentinel; the two cycle checks agree exactly on the charts
  without these (`Validator.TopologicalSort`).
* `_execution_order` refuses charts that read a page variable nobody writes,
  cyclic or not (`ExecutionOrder.Order`).
* A rollback restores the former image only while nothing has been offered for
  staging since the switch, accepted or not (`Slots.RollbackRestores`).
* The comment at veri-stc/src/encoder.v:383 says that the loader treats a wrong
  checksum as harmless. The loader refuses it (veri-runtime/core/loader.c:303-314),
  and it refuses a stored checksum of zero as well, so a module whose sections
  happen to have checksum zero cannot be loaded at all (`SasmEncoder.RoundTrip`,
  where the encoder's placeholder is taken to be filled in with the checksum).
* Popping an empty value stack, or pushing onto a full one, is noted but does not
  fail the scan; `ScanFaults.ReportedExactly` says when a successful scan is a
  clean one. The value stack survives from one scan to the next.
* The bounds check adds in 32 bits, so an access at the very end of the address
  space passes it: `ScanFaults.StoreLeavesMemory` is a validated program that writes
  outside linear memory, `ScanFaults.StraysExactly` the exact condition.
* The comment above `vm_get_result` announces the top of the value stack; the
  code returns its bottom (`Interpreter.Vm.Result`).
* A snapshot with less than four bytes behind its header is refused by the
  standby although the master has cleared its marks (`Snapshot.ApplyImage`).
  In general a snapshot that is made and lost, or written over before it was read,
  leaves every difference it alone carried unrepaired until the page is written
  again (`DeltaSync.LostExactly`, `DeltaSync.LostStaysDifferent`,
  `SyncRuns.EventExactly`).
* `hs_dirty_mark` of an empty range marks a page it has no byte in, and at address 0
  all pages; `DirtyPages.MarksExactly` is the exact condition.
* The header of the plant (veri-runtime/sim/plant.h:70) says that states are
  accumulated in double precision and cut when read. The code cuts at every
  step, so a lag that moves away from zero stops short of its target as soon as
  gain times distance falls below one (`Plant.LagStep`).

## Model

| member | source | states |
|---|---|---|
| Validator.CycleSearch.Dfs | veri-ide/src/veri_ide/backend/gen/validator.py:79-90 | one recursive search over the shared `visited` and `rec_stack`: a positive answer is a directed cycle, a negative one leaves the stack as it was and the block finished after all its successors |
| Validator.CheckNoCycles | veri-ide/src/veri_ide/backend/gen/validator.py:59-96 | no error exactly when the wires between blocks contain no directed cycle |
| Validator.TopologicalSort | veri-ide/src/veri_ide/backend/gen/validator.py:99-140 | succeeds exactly when block ids are distinct, none is the interface sentinel and there is no directed cycle, so on such ids it agrees with `CheckNoCycles`; on success the result is the lexicographically least dependency order of the blocks |
| Digraphs.KahnVerdict | veri-ide/src/veri_ide/backend/gen/validator.py:122-139 | a Kahn loop that has emptied its queue holds either the least dependency order of an acyclic graph or proof that no order exists |
| Digraphs.GreedyIsLeast | veri-ide/src/veri_ide/backend/gen/graph_to_st.py:352-366 | taking the least ready node each time yields an order below every other dependency order |
| ExecutionOrder.BuildEdges | veri-ide/src/veri_ide/backend/gen/graph_to_st.py:333-350 | the edge and in-degree tables count exactly the dependencies the wires draw between blocks and page variables, each once |
| ExecutionOrder.Order | veri-ide/src/veri_ide/backend/gen/graph_to_st.py:319-366 | refuses exactly when the dependencies are cyclic or some page variable is read that nothing writes; otherwise returns the lexicographically least dependency order of blocks and page variables |
| ChartMeaning.OrderIsCanonical | veri-ide/src/veri_ide/backend/gen/graph_to_st.py:341-366 | charts with the same sets of blocks, page variables and wires get the same order, whatever the order of their lists |
| Generator.CallLine | veri-ide/src/veri_ide/backend/gen/graph_to_st.py:181-193 | the printed call of a block passes the source of every wire into it, in wire order, and then its parameters |
| Generator.BodyLines | veri-ide/src/veri_ide/backend/gen/graph_to_st.py:159-207 | the printed body is the rendering of the abstract statement list: system values, then the nodes in order, then the outputs |
| Generator.GenerateSt | veri-ide/src/veri_ide/backend/gen/graph_to_st.py:95-209 | a chart is refused exactly when one of the two ordering passes refuses it; otherwise the text is the program for its least execution order |
| StraightLine.UniqueSolution | veri-ide/src/veri_ide/backend/gen/graph_to_st.py:159-207 | running a single-assignment program in dependency order gives the one store that satisfies all its statements read as equations |
| ChartMeaning.BodyOrdered | veri-ide/src/veri_ide/backend/gen/graph_to_st.py:319-366 | the emitted statements assign every location once and read only what is final by then |
| ChartMeaning.Meaning | veri-ide/src/veri_ide/backend/gen/graph_to_st.py:159-207 | meaning preservation: running the emitted statements in order computes the unique solution of the wire equations of the chart, with blocks as arbitrary stateful functions |
| ChartMeaning.CalledOnce | veri-ide/src/veri_ide/backend/gen/graph_to_st.py:181-193 | each block is called by exactly one statement |
| ChartMeaning.PinSeesWire | veri-ide/src/veri_ide/backend/gen/graph_to_st.py:369-383 | a pin driven by one wire and no parameter is called with the value the source of the wire has in this cycle |
| Generator.SourceText | veri-ide/src/veri_ide/backend/gen/graph_to_st.py:369-383 | what a wire carries, worked out case by case as the code does it, is the rendering of the abstract source |
| Generator.HeaderLines | veri-ide/src/veri_ide/backend/gen/graph_to_st.py:116-158 | the header printed section by section is the header of the program |
| SourceTexts.LiteralBack | veri-ide/src/veri_ide/backend/gen/graph_to_st.py:32-39 | a printed truth value, whole number, quoted text or decimal reads back as the same literal, whatever its declared type as long as that is not a text type for a number |
| SourceTexts.NumberAsText | veri-ide/src/veri_ide/backend/gen/graph_to_st.py:36-39 | a number of type STRING is printed as a quoted text |
| SourceTexts.ParameterReads | veri-ide/src/veri_ide/backend/gen/graph_to_st.py:386-391 | the same for the value of a block parameter |
| SourceTexts.ConstantOnPin | veri-ide/src/veri_ide/backend/gen/graph_to_st.py:181-193 | a pin wired to a constant is called with a text that reads as the value of the last constant of that name |
| SourceTexts.PortRead | veri-ide/src/veri_ide/backend/gen/graph_to_st.py:369-378 | a read of a port names the station variable associated with it if there is one, and the port itself otherwise |
| SourceTexts.PageVariable | veri-ide/src/veri_ide/backend/gen/graph_to_st.py:60-74 | the page variables are exactly the intermediate and local ports that no station variable is associated with and the runtime does not supply |
| SourceTexts.PinRead | veri-ide/src/veri_ide/backend/gen/graph_to_st.py:379-383 | a read of a block pin is printed as a field of the block and read as that pin again |
| SourceTexts.BlockFound | veri-ide/src/veri_ide/backend/gen/graph_to_st.py:181-193 | of several blocks of one name the last one is the one that is called |
| LoopGraph.Adjacencies | veri-ide/src/veri_ide/backend/graph/checker.py:399-420 | the adjacency lists in the very order of the code; together they draw exactly the direct block wires and the writer-to-reader pairs over page ports of distinct blocks |
| LoopGraph.AdjacencyIs | veri-ide/src/veri_ide/backend/graph/checker.py:399-420 | the same of the lists as a function of blocks and wires |
| LoopFinder.Finder.VisitNode | veri-ide/src/veri_ide/backend/graph/checker.py:431-475 | the recursive walk over shared state does what the walk on values does |
| LoopFinder.CheckCycles | veri-ide/src/veri_ide/backend/graph/checker.py:390-481 | the findings are those of the walk over the sorted blocks and these lists: none exactly when the graph is acyclic; without the wires inside reported rings nothing cyclic is left; a loop that no simple delayed loop overlaps leads to an error; every reported ring is a real cycle, starts with its alphabetically first block, is an information exactly if a delay block is on it, and no two findings name the same blocks |
| LoopChecker.EveryLoopTouched | veri-ide/src/veri_ide/backend/graph/checker.py:431-475 | whatever cycle there is, one of its wires has both ends on a reported ring |
| LoopChecker.ErrorsComplete | veri-ide/src/veri_ide/backend/graph/checker.py:426-475 | a loop that shares the two ends of no wire with a simple loop through a delay block leads to an error on a ring that overlaps it |
| HiddenLoops.DelayHidesLoop | veri-ide/src/veri_ide/backend/graph/checker.py:426-475 | a chart of three blocks and four wires, each pin driven once, with a cycle free of delays for which only the information about another ring is reported |
| HiddenLoops.CheckHidingChart | veri-ide/src/veri_ide/backend/graph/checker.py:390-481 | the checker called on that chart gives that one finding |
| WireOrders.TwoBlockLoop | veri-ide/src/veri_ide/backend/graph/checker.py:399-481 | for two blocks that feed each other: an error on them is certain in every order of wires and blocks if and only if no simple loop through a delay block goes through both |
| WireOrders.HidingOrder | veri-ide/src/veri_ide/backend/graph/checker.py:431-481 | any two blocks, no delays themselves, on a simple delayed loop have an order of wires and blocks in which no error names both |
| WireOrders.OverlapNotEnough | veri-ide/src/veri_ide/backend/graph/checker.py:431-481 | a loop of three blocks that a delayed loop overlaps and on which an error is certain all the same |
| StParser.SplitArgs | veri-ide/src/veri_ide/backend/gen/st_to_graph.py:130-153 | the character loop with its bracket depth splits at the commas of depth 0, each argument stripped, an empty last one dropped |
| StParser.Enter | veri-ide/src/veri_ide/backend/gen/st_to_graph.py:154-161 | an entry takes the place of the first one of the same key, or goes behind the others |
| StParser.ParseArgs | veri-ide/src/veri_ide/backend/gen/st_to_graph.py:130-161 | the argument loop with its bracket depth splits at the commas of depth 0 and keeps the last value of a repeated key |
| StParser.ParseSt | veri-ide/src/veri_ide/backend/gen/st_to_graph.py:11-127 | the line loop is the fold of the single-line reading over the lines up to END_PROGRAM |
| StParser.ReadLine | veri-ide/src/veri_ide/backend/gen/st_to_graph.py:33-118 | one line, tested case after case in the order of the code, has the effect the specification gives it |
| LinePatterns.StripExactly | veri-ide/src/veri_ide/backend/gen/st_to_graph.py:35-35 | stripping gives the text without the space at its two ends, and that alone determines it |
| LinePatterns.FindExactly | veri-ide/src/veri_ide/backend/gen/st_to_graph.py:106-112 | a search gives the first place, so a reference is split at its first dot |
| LinePatterns.SplitExactly | veri-ide/src/veri_ide/backend/gen/st_to_graph.py:27-35 | splitting at a character gives the only pieces that are free of it and joined by it give the text back |
| LinePatterns.DeclarationExactly | veri-ide/src/veri_ide/backend/gen/st_to_graph.py:58-60 | a line matches as a declaration exactly if it is a name, space, a colon, space, a name, a semicolon and anything; the match gives the two names |
| LinePatterns.CallExactly | veri-ide/src/veri_ide/backend/gen/st_to_graph.py:80-83 | a line matches as a call exactly if it is a name, a bracket, the arguments, a closing bracket with a semicolon and anything; the arguments reach to the last such closing |
| LinePatterns.AssignExactly | veri-ide/src/veri_ide/backend/gen/st_to_graph.py:100-104 | a line matches as an assignment exactly if it is a name, space, the assignment sign, something, a semicolon and anything without one; the match gives the name and the stripped value |
| LinePatterns.TokenExactly | veri-ide/src/veri_ide/backend/gen/st_to_graph.py:37-39 | the name of the program is what stands before the next space |
| LinePatterns.ReferenceExactly | veri-ide/src/veri_ide/backend/gen/st_to_graph.py:195-201 | a reference is taken apart at its first dot, and one without a dot names a port of the chart |
| LinePatterns.IntTextExactly | veri-ide/src/veri_ide/backend/gen/st_to_graph.py:176-192 | the texts taken as whole numbers are an optional sign and digits, with single underscores between them and space around |
| LinePatterns.DecimalExactly | veri-ide/src/veri_ide/backend/gen/st_to_graph.py:164-192 | the texts taken as decimals are grouped digits with a point before, between or behind them or none, and an optional exponent |
| StParser.HoldsLiteral | veri-ide/src/veri_ide/backend/gen/st_to_graph.py:164-175 | the tests in the order of the code accept exactly the literals of the specification |
| StParser.LiteralOf | veri-ide/src/veri_ide/backend/gen/st_to_graph.py:178-192 | the cases in the order of the code give the literal of the specification |
| TextRoundTrip.IntBack | veri-ide/src/veri_ide/backend/gen/st_to_graph.py:164-192 | the text of a whole number is read as that number |
| TextRoundTrip.ReferenceBack | veri-ide/src/veri_ide/backend/gen/st_to_graph.py:195-201 | a printed pin reference is read as that pin |
| TextRoundTrip.ArgsBack | veri-ide/src/veri_ide/backend/gen/st_to_graph.py:130-161 | a printed argument list is read back pair by pair |
| ChartRoundTrip.TakeWholeCall | veri-ide/src/veri_ide/backend/gen/st_to_graph.py:80-98 | reading the call line of a block records its wires and its parameters and nothing else |
| ChartRoundTrip.RoundTrip | veri-ide/src/veri_ide/backend/gen/st_to_graph.py:204-245 | parsing the text of a plain chart gives the same normalised graph: name, ports, blocks with parameters, and every wire exactly once |
| ChartRoundTrip.PrintAndParse | veri-ide/src/veri_ide/backend/gen/graph_to_st.py:95-209 | generator and parser run one after the other: a plain chart is printed exactly if it has an order, and comes back the same |
| Sha256.CompressBlock | veri-runtime/hotstandby/hmac_sha256.c:39-75 | the schedule array and eight rotating variables compute the compression function of FIPS 180-4, section 6.2 |
| Sha256.Schedule | veri-runtime/hotstandby/hmac_sha256.c:45-56 | the schedule array, filled in order from four bytes each and then from earlier words, holds the message schedule |
| Sha256.RoundStep | veri-runtime/hotstandby/hmac_sha256.c:61-71 | one turn of the loop, with the words reduced after every sum, is the round of the specification |
| ShaStandard.RoundConstant | veri-runtime/hotstandby/hmac_sha256.c:15-32 | round constant i is the first 32 bits of the fraction of the cube root of the prime that has exactly i primes below it |
| ShaStandard.InitialWord | veri-runtime/hotstandby/hmac_sha256.c:34-37 | word i of the initial value is the same with the square root |
| ShaStandard.ChoiceBit | veri-runtime/hotstandby/hmac_sha256.c:63-63 | each bit of the choice term is the bit of the second word where the first has a one, of the third where it has a zero |
| ShaStandard.MajorityBit | veri-runtime/hotstandby/hmac_sha256.c:66-66 | each bit of the majority term is the one that at least two of the three words have |
| ShaStandard.SigmaBits | veri-runtime/hotstandby/hmac_sha256.c:51-65 | each bit of the four sigma terms is the parity of three bits of the word, turned or shifted by the amounts of section 4.1.2 of FIPS 180-4 |
| Word32.SameBits | veri-runtime/hotstandby/hmac_sha256.c:51-70 | words with the same 32 bits are equal, so the laws bit by bit determine the terms of a round |
| Word32.RotrBit | veri-runtime/hotstandby/hmac_sha256.c:13-13 | the rotation by two shifts takes each bit from n places above, around the end |
| Word32.FourBytes | veri-runtime/hotstandby/hmac_sha256.c:45-49 | four bytes shifted into place and combined make the big-endian word |
| Word32.LowByte | veri-runtime/hotstandby/hmac_sha256.c:127-132 | shifting down and masking gives the four bytes of a word |
| Sha256.Padded | veri-runtime/hotstandby/hmac_sha256.c:106-126 | the message padded as in section 5.1.1 of FIPS 180-4 fills whole 64-byte blocks |
| Sha256.PaddedInjective | veri-runtime/hotstandby/hmac_sha256.c:106-126 | below 2^61 bytes different messages never pad to the same blocks |
| Sha256.Sha256Ctx.Update | veri-runtime/hotstandby/hmac_sha256.c:87-104 | whatever is already buffered, the context afterwards stands for the message so far followed by the new bytes |
| Sha256.Sha256Ctx.Final | veri-runtime/hotstandby/hmac_sha256.c:106-134 | the digest is the compression folded over the padded message, and the context is wiped |
| Sha256.HashParts | veri-runtime/hotstandby/hmac_sha256.c:77-134 | any split of a message into updates gives the digest of the whole message |
| Sha256.HashBuffer | veri-runtime/hotstandby/hmac_sha256.c:136-143 | one-shot hashing is hashing |
| Hmac.XorSwitch | veri-runtime/hotstandby/hmac_sha256.c:173-182 | going from the inner to the outer pad by one more exclusive or is the same as starting from the key |
| Hmac.PrepareKey | veri-runtime/hotstandby/hmac_sha256.c:146-158 | refuses an empty or over-long key; otherwise the block is the key of section 2 of RFC 2104, hashed first if longer than a block |
| Hmac.HmacSha256 | veri-runtime/hotstandby/hmac_sha256.c:160-188 | the code on one block, changed in place, is H(K xor opad, H(K xor ipad, text)) of RFC 2104 for short and long keys |
| Hmac.DigestsEqual | veri-runtime/hotstandby/hmac_sha256.c:190-201 | the accumulating comparison answers 1 exactly for equal digests |
| Crc32.Compute | veri-runtime/hotstandby/download_wire.c:19-29 | the byte loop computes the checksum function the formats refer to |
| Crc32.LookupIsShifts | veri-runtime/hotstandby/download_wire.c:22-27 | one lookup in the table stands for shifting the register eight times bit by bit |
| Crc32.TableXor | veri-runtime/hotstandby/snapshot.c:16-81 | the entry of an exclusive or is the exclusive or of the entries, so the entries at the powers of two give the whole table |
| Crc32.TableBasis | veri-runtime/hotstandby/snapshot.c:16-81 | those eight entries have the values the table holds |
| Crc32.PresetCancelled | veri-runtime/hotstandby/snapshot.c:83-91 | four bytes 0xFF, which cancel the preset register, have the checksum 0xFFFFFFFF |
| Crc32.OneByteNoticed | veri-runtime/hotstandby/download_wire.c:19-29 | a change confined to one byte, in data of any length, changes the checksum |
| DownloadFrames.FrameFields | veri-runtime/hotstandby/download_wire.c:60-92 | a built frame is authentic and reads back field by field |
| DownloadFrames.FrameLayout | veri-runtime/hotstandby/download_wire.c:60-92 | where each field of a frame stands: DLF1, version 1, the kind, little-endian words, the checksum of the payload, and the authentication code over everything behind the magic |
| DownloadFrames.FeedConcat | veri-runtime/hotstandby/download_wire.c:226-265 | receiving two runs of bytes is receiving their concatenation |
| DownloadFrames.FeedFailed | veri-runtime/hotstandby/download_wire.c:136-141 | a refusal is permanent |
| DownloadWire.FrameBuild | veri-runtime/hotstandby/download_wire.c:60-92 | writes exactly the frame, or refuses with the code for a long payload (nothing written) or a short buffer |
| DownloadWire.TxImage | veri-runtime/hotstandby/download_wire.c:94-124 | refuses an empty or oversize image; otherwise sends the frames of the image, and a link that refuses one has seen only a prefix of the stream |
| DownloadWire.SameFrame | integration/dl_frames.py:36-45 | the frame of the second sender is byte for byte the same |
| DownloadWire.PythonSend | integration/dl_frames.py:73-84 | the slicing loop of the second sender puts out the same stream |
| DownloadWire.Receiver.Fill | veri-runtime/hotstandby/download_wire.c:209-224 | appends what the link gives until enough is there, the link breaks, or it has nothing |
| DownloadWire.Receiver.Absorb | veri-runtime/hotstandby/download_wire.c:143-206 | checks and takes in the frame in the scratch buffer as the frame-level specification says, image bytes stored in place |
| DownloadWire.Receiver.Pump | veri-runtime/hotstandby/download_wire.c:226-265 | however the link slices the stream, the receiver ends where the byte-by-byte fold over the consumed bytes ends; a refused frame moves neither the image nor the counters; a taken frame consumes at least 56 bytes |
| DownloadWire.Receiver.Finish | veri-runtime/hotstandby/download_wire.c:267-278 | gives the image exactly when its announced length has fully arrived with the last flag and nothing was refused |
| DownloadWire.Receiver.Progress | veri-runtime/hotstandby/download_wire.c:280-285 | a percentage that is 100 exactly when all announced bytes are in |
| DownloadTheory.RoundTrip | veri-runtime/hotstandby/download_wire.c:94-124 | the stream of every image of 1 to 1048576 bytes leaves the receiver complete with exactly that image |
| DownloadTheory.ShortImage | veri-runtime/hotstandby/download_wire.c:226-278 | no proper prefix of the stream is complete |
| DownloadTheory.OversizeRefused | veri-runtime/hotstandby/download_wire.c:176-187 | a stream announcing more than the maximum is refused at its first frame |
| DownloadTheory.Safety | veri-runtime/hotstandby/download_wire.c:143-278 | after any bytes whatever, the image is the payloads of authentic DATA frames accepted in sequence order, all announcing the same length |
| DownloadTheory.CompleteStays | veri-runtime/hotstandby/download_wire.c:226-265 | once the announced image is there, no further bytes change it; they may still be refused |
| DownloadTheory.FinishAfter | veri-runtime/hotstandby/download_wire.c:267-278 | finishing after that gives exactly the image if and only if nothing that arrived behind it was refused |
| DownloadWire.Transfer | veri-runtime/hotstandby/download_wire.c:94-124 | sender, arbitrary slicing link and receiver together: pumping until complete ends and returns exactly the image |
| Slots.RunInv | veri-runtime/hotstandby/download.c:510-589 | over every sequence of stage, switch and rollback the two roles differ, the active slot holds an image that passed loader and validator, and valid slots carry distinct versions |
| Slots.RefusedStage | veri-runtime/hotstandby/download.c:510-533 | a refused stage leaves the active slot alone and says which gate refused |
| Slots.StagedSwitches | veri-runtime/hotstandby/download.c:343-376 | an accepted image always switches, becomes active, and the former one is the landing place |
| Slots.RollbackLands | veri-runtime/hotstandby/download.c:568-589 | a rollback lands on what the pending slot holds, and there is no second one |
| Slots.RollbackRestores | veri-runtime/hotstandby/download.c:568-589 | a rollback restores the image from before the switch if and only if nothing was offered for staging since |
| SlotManager.DownloadManager.LoadRaw | veri-runtime/hotstandby/download.c:440-471 | the slot is void at once and valid again only after loader and validator |
| SlotManager.DownloadManager.LoadImage | veri-runtime/hotstandby/download.c:482-502 | the cold start as the slot specification describes it, from any state |
| SlotManager.DownloadManager.StageImage | veri-runtime/hotstandby/download.c:510-533 | staging as specified, busy and refused images included |
| SlotManager.DownloadManager.CommitSwitch | veri-runtime/hotstandby/download.c:343-376 | the roles are exchanged, or the switch is refused |
| SlotManager.DownloadManager.ApplySwitch | veri-runtime/hotstandby/download.c:543-558 | a switch that goes through leaves the machine cleared and bound to the active module, any other leaves the machine untouched |
| SlotManager.DownloadManager.Rollback | veri-runtime/hotstandby/download.c:568-589 | a rollback that lands leaves the machine cleared and bound to the active module, any other leaves the machine untouched |
| SlotManager.DownloadManager.ActiveVersion | veri-runtime/hotstandby/download.c:594-598 | the version in the active slot, 0 if it holds none |
| SlotManager.DownloadManager.PendingVersion | veri-runtime/hotstandby/download.c:603-610 | the version waiting for a switch, 0 if none waits |
| Agent.ServeDownload | veri-runtime/agent/agent_main.c:269-318 | the pump loop ends before its limit, and its verdict follows from what the whole stream amounts to: staged or refused by the manager exactly if the stream completes an image |
| Agent.SwitchOver | veri-runtime/agent/agent_main.c:467-483 | with an image waiting, the switch at the cycle boundary always succeeds |
| Agent.ScanOnce | veri-runtime/agent/agent_main.c:485-515 | one scan, and the rollback of a failed one inside the health window, which always lands |
| Agent.Loop | veri-runtime/agent/agent_main.c:462-536 | over a whole run: at most one switch, which comes exactly if the stream delivers an acceptable image and the run gets that far, and takes place right after the scan at which the stream was served; at most one rollback, which answers a failed scan; every scan ran the image active at that time from the state the one before left, or from a cleared machine after a change of program |
| Agent.Run | veri-runtime/agent/agent_main.c:406-536 | the exit codes: image refused, stream refused, failed scan with no window open, or success, which means all planned scans ran and every failed one was inside the health window and rolled back |
| SasmLoader.Reader.Section | veri-runtime/core/loader.c:135-301 | the cursor reads a section as the format function does, read and remaining bytes always adding up to the buffer |
| SasmLoader.SasmLoad | veri-runtime/core/loader.c:110-320 | the loader accepts, refuses and fills the module as the format function says |
| SasmFormat.AcceptedIsConsumed | veri-runtime/core/loader.c:110-320 | an accepted image was read to exactly its last four bytes, which are the nonzero checksum of bytes 6 to length minus 4, and its code bodies tile the pool |
| SasmFormat.SectionForward | veri-runtime/core/loader.c:135-301 | reading a section never leaves the buffer and keeps tables and code pool within their capacity |
| SasmFormat.FiniteExactly | veri-runtime/core/loader.c:62-80 | the float reader accepts exactly the doubles whose 64-bit word, without its sign, lies below that of infinity |
| SasmEncoder.RoundTrip | veri-stc/src/encoder.v:368-384 | loading an encoded module gives exactly that module, unless the checksum of its sections is zero, in which case the loader refuses it |
| SasmLoader.Validate | veri-runtime/core/loader.c:327-367 | accepts exactly the modules within the limits whose bodies serve pairwise different declared functions |
| SasmLoader.OneBodyEach | veri-runtime/core/loader.c:349-364 | in a validated module every declared function has exactly one body |
| MachineTheory.PushFrameExact | veri-runtime/core/safeasm_interp.c:66-128 | in a validated module a frame is pushed exactly when the function is declared and there is depth left; a body is never missing |
| MachineTheory.StepKept | veri-runtime/core/safeasm_interp.c:259-1096 | one instruction keeps value stack, frames, labels and locals within their limits, leaves the frames below the top one alone, and writes only memory the module may write |
| MachineTheory.StoreTouches | veri-runtime/core/safeasm_interp.c:167-181 | a store that passes the bounds check inside memory changes only bytes of declared writable ranges |
| MachineTheory.ScanBounded | veri-runtime/core/safeasm_interp.c:1164-1182 | every scan of a validated module ends within the cycle limit, stays within all bounds, and reports as deepest frame count exactly the deepest frame stack reached |
| MachineTheory.TraceRuns | veri-runtime/core/safeasm_interp.c:259-280 | consecutive states of a scan are one instruction apart, and their number is within the budget |
| MachineTheory.CallEffect | veri-runtime/core/safeasm_interp.c:330-361 | a call that goes through gives the callee its parameters from the stack top in push order, zero for its other locals, and leaves the caller right after the instruction |
| MachineTheory.CallReturns | veri-runtime/core/safeasm_interp.c:281-286 | from a CALL to its matching RETURN every lower frame is unchanged, and the caller resumes right after the CALL |
| MachineTheory.Undisturbed | veri-runtime/core/safeasm_interp.c:281-361 | while the frame stack stays deeper than n, the n lowest frames do not change |
| ScanFaults.StepNotes | veri-runtime/core/safeasm_interp.c:32-50 | an instruction that goes on leaves an error noted exactly if one was noted or it pops more than there is or pushes onto a full stack |
| ScanFaults.ReportedExactly | veri-runtime/core/safeasm_interp.c:259-1096 | a scan that ends with success has a clean error field if and only if no instruction of it misused the value stack |
| ScanFaults.UnderflowUnreported | veri-runtime/core/safeasm_interp.c:44-50 | a one-instruction program that pops an empty stack ends its scan with success, although the error was noted |
| ScanFaults.StraysExactly | veri-runtime/core/safeasm_interp.c:167-181 | an access passes the bounds check and leaves linear memory if and only if its end reaches 2^32, the wrapped end lies in memory, and there are no ranges or one admits address and wrapped end |
| ScanFaults.ScanStrays | veri-runtime/core/safeasm_interp.c:167-203 | a scan leaves memory exactly if one of its accesses wraps around like that; at every state up to there all bounds hold and only permitted bytes have been written |
| ScanFaults.StaysInside | veri-runtime/core/safeasm_interp.c:167-203 | a scan whose accesses all end below 2^32 stays inside memory and ends with a code |
| ScanFaults.StoreLeavesMemory | veri-runtime/core/safeasm_interp.c:167-203 | a validated program whose first scan stores at address 0xFFFFFFFF |
| Interpreter.Vm.PushFrame | veri-runtime/core/safeasm_interp.c:66-128 | pushes as specified, with the search for the body |
| Interpreter.Vm.CheckBounds | veri-runtime/core/safeasm_interp.c:167-181 | the bounds check, with its 32-bit sum |
| Interpreter.Vm.DoCall | veri-runtime/core/safeasm_interp.c:330-361 | the in-place call is the specified one |
| Interpreter.Vm.Dispatch | veri-runtime/core/safeasm_interp.c:270-1096 | the in-place dispatch is the specified step, so it obeys the laws of the instructions in the rows below |
| Instructions.ArithmeticLaw | veri-runtime/core/safeasm_interp.c:454-474 | ADD, SUB and MUL replace the two operands by the sum, the difference (which with the top operand gives the lower one) and the product, modulo 2^32 |
| Instructions.ComparisonLaw | veri-runtime/core/safeasm_interp.c:412-453 | each of the six comparisons leaves 1 exactly when its relation holds between lower and top operand, otherwise 0 |
| Instructions.ZeroLaw | veri-runtime/core/safeasm_interp.c:406-411 | EQZ leaves 1 exactly for 0 |
| Instructions.DivisionLaw | veri-runtime/core/safeasm_interp.c:475-490 | DIV and REM leave quotient and remainder cut towards zero, the remainder with the sign of the dividend; a zero divisor stops the scan |
| Instructions.BitLaw | veri-runtime/core/safeasm_interp.c:491-511 | each bit of AND, OR and XOR from the two bits in its place |
| Instructions.ShiftLaw | veri-runtime/core/safeasm_interp.c:651-664 | SHL multiplies by a power of two modulo 2^32; SHR_S divides and rounds down; only the low five bits of the count matter |
| Instructions.RotateLaw | veri-runtime/core/safeasm_interp.c:665-682 | ROTL and ROTR move each bit by the count, around the end |
| StackEffects.NopLaw | veri-runtime/core/safeasm_interp.c:275-280 | NOP does nothing, UNREACHABLE stops the scan |
| StackEffects.DropLaw | veri-runtime/core/safeasm_interp.c:363-366 | DROP takes the top away |
| StackEffects.SelectLaw | veri-runtime/core/safeasm_interp.c:367-374 | SELECT takes condition and two values and leaves the value pushed last for a nonzero condition, the other for 0 |
| StackEffects.ConstLaw | veri-runtime/core/safeasm_interp.c:400-405 | CONST pushes the four bytes behind it as a little-endian number |
| StackEffects.LocalLaw | veri-runtime/core/safeasm_interp.c:375-399 | reading, setting and copying into a local change that local and the stack alone; a number that no local has does nothing |
| StackEffects.LabelLaw | veri-runtime/core/safeasm_interp.c:288-305 | BLOCK and LOOP open a label, at the end of the block or at the loop instruction; the seventeenth is not kept |
| StackEffects.BranchLaw | veri-runtime/core/safeasm_interp.c:306-329 | a branch goes on at the label of its depth and closes it and those inside; without such a label, or with condition 0, it only moves on |
| StackEffects.LoadLaw | veri-runtime/core/safeasm_interp.c:512-531 | an allowed load replaces the address by the bytes found there, least significant first; any other that ends below 2^32 stops the scan |
| StackEffects.StoreLaw | veri-runtime/core/safeasm_interp.c:532-629 | an allowed store changes the addressed bytes to those of the value and nothing else; a store to a print address changes nothing |
| StackEffects.LoadsBack | veri-runtime/core/safeasm_interp.c:512-576 | the four bytes a store leaves make up the stored word again |
| StackEffects.MarkLaw | veri-runtime/core/safeasm_interp.c:630-650 | the assertion marker is passed over; the bounds marker lets an index in its range through and stops the scan otherwise |
| StackEffects.WideLaw | veri-runtime/core/safeasm_interp.c:684-1084 | an instruction on 64-bit or floating-point values takes as many stack words and immediate words as its operand types have, in push order, and puts its results in their place |
| StackEffects.UnknownLaw | veri-runtime/core/safeasm_interp.c:1086-1088 | every other opcode stops the scan |
| Interpreter.Vm.ExecuteCycle | veri-runtime/core/safeasm_interp.c:259-1096 | the dispatch loop runs to the last state of the specified trace and returns its code |
| Interpreter.Vm.Rebind | veri-runtime/core/safeasm_interp.c:1136-1157 | nothing of the former program is left: stacks, counters and memory are cleared |
| Interpreter.Vm.Result | veri-runtime/core/safeasm_interp.c:1184-1190 | the bottom of the value stack, which is its top exactly when the stack holds at most one value or its two ends are equal |
| Interpreter.Vm.Run | veri-runtime/core/safeasm_interp.c:1164-1182 | a scan in place is the specified scan; the value stack is not reset |
| DirtyPages.Tracker.Mark | veri-runtime/hotstandby/snapshot.c:129-147 | adds exactly the pages of the byte range to the bitmap |
| DirtyPages.MarksItsBytes | veri-runtime/hotstandby/snapshot.c:129-147 | a range inside memory marks exactly the pages its bytes lie in |
| DirtyPages.MarksExactly | veri-runtime/hotstandby/snapshot.c:129-147 | a range in memory marks exactly the pages of its bytes if and only if it is not empty or begins at a page behind the first |
| DirtyPages.EmptyMarks | veri-runtime/hotstandby/snapshot.c:129-147 | an empty range inside a page marks that page |
| DirtyPages.EmptyMarksAll | veri-runtime/hotstandby/snapshot.c:129-147 | marking no bytes at address 0 marks every page |
| DirtyPages.ListedExactly | veri-runtime/hotstandby/snapshot.c:174-186 | the page list has the dirty pages, each once, in ascending order |
| DeltaSync.IncludedExact | veri-runtime/hotstandby/snapshot.c:229-259 | a snapshot lists exactly the dirty pages and the pages of GLOBAL and FB_DATA segments, each once, and never more than there are |
| DeltaSync.SizeExact | veri-runtime/hotstandby/snapshot.c:262-272 | the size that decides whether a snapshot fits is that of its image, or up to one page more: only the last page can be short |
| Snapshot.OverlayAt | veri-runtime/hotstandby/snapshot.c:343-354 | applying pages takes over exactly the bytes of the listed pages |
| Snapshot.ApplyImage | veri-runtime/hotstandby/snapshot.c:324-377 | applying a snapshot gives the standby the pages, stacks and counters of the master; it is refused exactly if less than four bytes follow the header |
| DeltaSync.ArrivedExactly | veri-runtime/hotstandby/snapshot.c:207-377 | after an arrived snapshot the memories are equal if and only if every byte that differed lay in a listed page |
| DeltaSync.TurnCovered | veri-runtime/hotstandby/sync.c:253-269 | a cycle keeps every difference covered by a mark, unless its snapshot is made and does not arrive |
| DeltaSync.LostExactly | veri-runtime/hotstandby/snapshot.c:300-318 | a snapshot that is made and does not arrive leaves all differences covered if and only if every byte that differs lies in a segment that always travels |
| DeltaSync.TurnExactly | veri-runtime/hotstandby/sync.c:253-269 | from covered differences, exactly the cycles whose snapshot arrives, is not made or would not be missed leave them covered |
| DeltaSync.RunInSync | veri-runtime/hotstandby/sync.c:253-269 | over whole runs of such cycles, with marked writes, each arriving snapshot makes memory, value stack and frames equal |
| DeltaSync.StaysDifferent | veri-runtime/hotstandby/snapshot.c:309-318 | a difference whose mark is gone never heals while its page stays untouched and outside the global segments |
| DeltaSync.LostStaysDifferent | veri-runtime/hotstandby/snapshot.c:300-318 | that is where a lost snapshot leaves the pair: each differing byte outside the global segments stays wrong through all later cycles until its page is touched |
| SyncRuns.EventExactly | veri-runtime/hotstandby/sync.c:92-152 | each station at its own pace: exactly the harmless cycles leave every difference covered; replacing unread mail is harmless if and only if the new snapshot carries all the standby still lacks |
| SyncRuns.AnyPace | veri-runtime/hotstandby/sync.c:253-269 | over every interleaving of harmless cycles, with failed scans and mail written over, whatever the standby reads makes it the same as the master was when it sent it |
| SyncRuns.EmptyBoxHarmless | veri-runtime/hotstandby/sync.c:92-117 | a snapshot that finds the mailbox empty is always harmless |
| HotStandby.Mailbox.Send | veri-runtime/hotstandby/sync.c:92-117 | the mailbox holds the data afterwards, whether or not the last were read; empty and oversize data are refused |
| HotStandby.Mailbox.Recv | veri-runtime/hotstandby/sync.c:119-152 | at most one receiver gets the data, cut to its limit |
| HotStandby.Node.Create | veri-runtime/hotstandby/snapshot.c:207-318 | the buffer holds the image of the machine and the marks are cleared, or it does not fit and the marks stay; a snapshot is made whenever its image and one more page fit the buffer, and only if the image fits; the number counts either way |
| HotStandby.Node.Apply | veri-runtime/hotstandby/snapshot.c:324-377 | memory and stacks are overwritten as specified, refusals half way included |
| HotStandby.Node.SyncSend | veri-runtime/hotstandby/sync.c:205-228 | creating and sending: what is in the mailbox and which marks are left, in every case; something is sent whenever the image and one more page fit |
| HotStandby.Node.SyncReceive | veri-runtime/hotstandby/sync.c:230-251 | receiving and applying |
| HotStandby.MasterTurn | veri-runtime/hotstandby/sync.c:253-263 | the cycle of a real master, its scan failed or not and the mailbox empty or not, is the master cycle of that specification |
| HotStandby.StandbyTurn | veri-runtime/hotstandby/sync.c:264-268 | the cycle of a real standby is the standby cycle of that specification |
| HotStandby.Exchange | veri-runtime/hotstandby/sync.c:253-269 | in lockstep, one cycle on two real nodes and an empty mailbox is one cycle of the specification `DeltaSync.After` |
| Force.ForceTable.Add | veri-runtime/sim/force.c:207-274 | a record is taken exactly if its name resolves, is declared once and by one source, its value fits type and physical range, its cycle is new for the name, and there is room; a refused one leaves the records alone, though it may have entered its name |
| Force.SortedKeeps | veri-runtime/sim/force.c:474-488 | sorting permutes the records, and distinct ones come out strictly ascending |
| Force.ForceTable.Sort | veri-runtime/sim/force.c:474-500 | the in-place insertion sort is that sorting, and each name then has its records side by side where the table says |
| Force.ForceTable.BeginCycle | veri-runtime/sim/force.c:535-550 | every cursor moves to the records due, forward only, so each record is passed once |
| Force.ForceTable.Play | veri-runtime/sim/force.c:535-550 | after any sequence of cycles the cursors stand at the highest one |
| Force.ForceTable.InForce | veri-runtime/sim/force.c:535-550 | the active record is the one a scan of the unsorted list finds: the latest cycle not above the current one, or none |
| Force.LatestIs | veri-runtime/sim/force.c:535-550 | that scan yields a record with the largest cycle not above the given one |
| Plant.StepValidated | veri-runtime/sim/plant.c:337-345 | a step keeps the table validated, every state whole and in its range |
| Plant.StepCommutes | veri-runtime/sim/plant.c:380-413 | the order of the rows does not matter: stepping commutes with every permutation |
| PlantLaws.ClampLaw | veri-runtime/sim/plant.c:337-345 | a value outside the range becomes the nearer limit, one inside is cut towards zero |
| PlantLaws.StillLaw | veri-runtime/sim/plant.c:380-413 | an output and a constant input stand still |
| PlantLaws.RampLaw | veri-runtime/sim/plant.c:380-413 | a ramp moves by its gain until it meets a limit |
| PlantLaws.LagLaw | veri-runtime/sim/plant.c:396-405 | a lag moves by gain times distance towards the state of its driver, or 0, plus the offset, into the range and cut towards zero |
| PlantLaws.LagPoint | veri-runtime/sim/plant.c:396-405 | between whole numbers a lag lands less than 1 from the exact point, on the side of zero |
| PlantLaws.LagCloser | veri-runtime/sim/plant.c:396-405 | while gain times distance is at least 1, every step gets strictly closer |
| Plant.LagStep | veri-runtime/sim/plant.c:396-405 | a lag never passes its target, and stands still exactly at it, or when it moves away from zero by less than one |
| Plant.LagSettles | veri-runtime/sim/plant.c:396-405 | after as many steps as the distance a lag has come to rest between start and target |
| Plant.ChannelSettles | veri-runtime/sim/plant.c:380-413 | the same in a whole table, with the driver and all other channels stepping along |
| Plant.PlantTable.AddRow | veri-runtime/sim/plant.c:150-193 | a row is taken exactly if it passes the checks and its number is new |
| Plant.PlantTable.CheckRow | veri-runtime/sim/plant.c:150-192 | the checks one after the other accept exactly the rows that meet all of them |
| Plant.PlantTable.CheckDrives | veri-runtime/sim/plant.c:195-214 | accepts exactly if every declared driver exists and is an output |
| Plant.PlantTable.ReadRaw | veri-runtime/sim/plant.c:347-356 | the clamped state of the channel, if there is one |
| Plant.PlantTable.SetRaw | veri-runtime/sim/plant.c:358-378 | writes one channel of the right direction, clamped, and no other |
| Plant.PlantTable.Step | veri-runtime/sim/plant.c:380-413 | the step in place, row by row, equals the simultaneous step |

## Left out

- LoopChecker.ErrorsComplete: one direction only for loops of more than two blocks. The converse attempted, that a delayed loop which overlaps a delay-free one can always hide it, fails there: `WireOrders.OverlapNotEnough` is a loop of three blocks, overlapped by a delayed one, that holds a loop of two which no order hides.
- ChartRoundTrip.RoundTrip: for charts with plain names and whole or truth-valued parameters, every pin given once, and no constants, page variables, bound or system ports. The text does not carry the rest: a constant is printed as its value and read back as a parameter, a page variable is declared like a block, a bound port appears under the name of its station variable.
- ChartRoundTrip.PrintAndParse: for the same charts.
- ChartRoundTrip.TakeWholeCall: for the call lines of the same charts.
- ChartMeaning.Meaning: asks for one driver per variable and no external port that is both written and read; without these the wire equations have no unique solution.
- MachineTheory.ScanBounded: the 64-bit and floating-point instructions are an arbitrary function of their operands, PRINT and port addresses have no effect, and 32-bit arithmetic wraps around where C leaves signed overflow undefined. A scan that leaves memory ends there with the outcome `Stray`; `ScanFaults.ScanStrays` says when, and what holds up to there.
- Instructions.DivisionLaw: the quotient of the least number by -1, which C leaves undefined, wraps around.
- StackEffects.ConstLaw: like the other laws of instructions, for an instruction whose immediate lies inside the body and whose operands are on the stack, with room for its result. Where they are missing the code reads 0, and so does the specification; `ScanFaults.StepNotes` says when an error is noted.
- StackEffects.LoadLaw: for accesses that end below 2^32; `ScanFaults.StraysExactly` has the others.
- StackEffects.StoreLaw: for the same accesses.
- SourceTexts.LiteralBack: a float is the text that `str` gives it, with a decimal point; texts with an exponent and no point are read back as text.
- Crc32.TableBasis: the table is computed entry by entry instead of being written out; the source holds it twice, as numbers.
- MachineTheory.StoreTouches: for accesses inside memory; the others are those of `ScanFaults.StraysExactly`, and what they do to the memory of the process is not modelled.
- HotStandby.Node.Apply: a snapshot that passes its checksum and lists a page outside memory is reported as such, and what the code then overwrites is not modelled; no snapshot the other node makes is of this kind (`Snapshot.ApplyImage`).
- HotStandby.Exchange: lockstep with an empty mailbox; the other cases are `HotStandby.MasterTurn` and `HotStandby.StandbyTurn`.
- DeltaSync.RunInSync: that every changed byte lies in a marked page is a hypothesis, because the interpreter's stores mark nothing; both nodes run the `hs_sync_cycle` path with their mailbox offsets crossed.
- Slots.RunInv: distinct versions are claimed as long as the 32-bit version counter has not wrapped.
- Plant.ChannelSettles: real numbers stand for doubles, so rounding is not modelled.
- Force.ForceTable.Add: what the symbol table, the value parser and the plant answer for a name is passed in.
- DownloadWire.PythonSend: the options that spoil a stream on purpose, and the refusal of an empty image by the surrounding script, are not modelled.
- Agent.Run: files, signals, sleeping and status lines; the stop signal is a cycle number, and the image and the stream are given as bytes.
- The bitmap of dirty pages keeps each 64-bit word as the set of its bit positions.
- The checks of the code for null pointers, and refusals that cannot happen (a full page list, a failed rebind), have no counterpart.
- The heartbeat and `hs_master_cycle`, which share one mailbox header, and the state machine of a node.
- `compute_diff` and `apply_patch`, which the code keeps outside the live chain.
- Applying forced values to memory and plant, and reading stimulus and plant files.
- Constants in the chart's own units, device files, web interface, services and the user-facing tools.
- Text is a sequence of characters: Unicode classes beyond ASCII are not modelled in the parser.
- Collision resistance of the hash and unforgeability of the authentication code.
