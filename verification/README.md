# A verified model of the DBN ingest stack

The repository reads market-by-order files in Databento Binary Encoding (DBN), version 1.
It has two readers over the same byte format. `DbnReader` streams: a byte source with short
reads fills a scratch buffer, a record assembler stitches together the records that a read
cut in two, and the reader pulls whole records from it. `MmapDbnReader` maps the file and
walks a cursor over it. The benchmark drains the same bytes a third way. The central claim
is that all of them agree, on every file, for every chunk size, however the source cuts its
reads short.

The project states what a file means as one recursive parse (`Stream.dfy`), proves that
this parse is the only way to cut a byte string into records, and proves that each reader
computes it. Parity between the readers follows for whole runs, call by call. The laws of
the format (truncation, inserted skips, corruption, round trips) are proved once, about the
parse, and so hold of every reader.

| file | what it holds |
|---|---|
| `Bytes.dfy` | bytes, machine integers, the little-endian and two's-complement codec for any width |
| `Events.dfy` | the engine's event, the action and side alphabets |
| `Wire.dfy` | the 56-byte record as a codec, validate-and-convert |
| `Framing.dfy` | the framing decision and the routing decision |
| `Stream.dfy` | the parse, the laws of the format, one pull, a reader's progress through a stream |
| `Stats.dfy` | the ingest counters and the counting step |
| `Assembler.dfy` | the record assembler: growable array, compaction loop, views into its memory |
| `Source.dfy` | the byte source: fixed contents, any short read |
| `Prologue.dfy` | magic, version, metadata block; reasons for refusing a file |
| `StreamingReader.dfy`, `MmapReader.dfy` | the two readers |
| `Parity.dfy` | both readers side by side over whole runs |
| `Drain.dfy` | what a whole file means, and that reading all of it through either reader gives that |
| `Bench.dfy` | the three benchmark modes and the parity gate |
| `RoundTrip.dfy` | writing a whole file and reading it back; truncation, skips and corruption of whole files |
| `MappedFile.dfy` | ownership of mapped regions over any program |
| `Wrappers.dfy` | optional values, results and failures |
| `Sequences.dfy` | facts about sequences that the proofs call by name |

Conventions. A C++ constructor that throws is a static `Open` method that returns a
`Result`. A span is a `Span`: an array with bounds, no copy. `size_t` and the counters are
64 bits wide; the counters are modelled with their wrap-around, and the readers' invariants
show that it never happens. Where a loop body of the source has several branches, each long
branch is a method of its own. Ghost fields record a run's history: the bytes fed to the
assembler, the records and views it handed out, the events a reader returned.

## Where the code differs from what is written about it

The model follows the code.

- The comments in `dbn.hpp:54-66` and `event.hpp:11-14` call publisher, instrument,
  channel and `ts_in_delta` validated. No code checks them: `RoutesToEventIffEncoded` shows
  that a record routes to its event for every value of the four.
- The benchmark's `record_start` says that it mirrors the readers' prologue check. It checks
  neither the version nor that the metadata lies inside the file: it passes exactly when the
  header is whole and the magic is right (`ModeBRunsIff`, for every file). So it also passes
  on two kinds of file that both readers refuse: those of another version, which Mode B
  counts when their metadata fits (`ModeBRunsOnVersionTwo`), and those whose stated metadata
  runs past the end, where the span of records it goes on to take does not exist
  (`ModeBPassesTruncatedMetadata`). On accepted files it starts where the readers start, and
  the three-way agreement holds (`CompareModes`). `main` never gets to Mode B with a refused
  file because Mode A runs first.
- ADR 0019 has Mode B duplicate the record type constant and the routing; the code calls
  `route_record`, and so does the model.

A file whose records end in a single zero byte ends cleanly, in both readers: the framer
needs two bytes before it can call a frame corrupt (`LeftoverShape`, `EndsCorruptIff`).

## Model

| member | source | states |
|---|---|---|
| Bytes.LePlus | core/include/trading_sim/dbn.hpp:20-33 | little-endian order at any length: the bytes behind `a` are worth 256 to the length of `a` times as much |
| Bytes.PlaceValues | core/include/trading_sim/dbn_reader.hpp:409-410 | the value of 2, 4 and 8 bytes written out byte by byte, least significant first |
| Bytes.SignBit | core/include/trading_sim/dbn.hpp:59-66 | two's complement at any width: the bytes' unsigned value, less the whole range when the top bit of the last byte is set; always in range |
| Bytes.LeRoundTrip | core/include/trading_sim/dbn.hpp:23-33 | for any width, every number that fits survives little-endian encode then decode |
| Bytes.LeRoundTripBytes | core/include/trading_sim/dbn.hpp:23-33 | for any width, every byte string survives decode then encode |
| Bytes.LeSignedRoundTrip | core/include/trading_sim/dbn.hpp:59-66 | for any width, every signed number that fits survives the two's-complement little-endian round trip |
| Bytes.LeSignedRoundTripBytes | core/include/trading_sim/dbn.hpp:59-66 | for any width, every byte string read as two's complement is written back unchanged |
| Events.AlphabetsAreTheEnumerators | core/include/trading_sim/event.hpp:27-57 | the checked bytes are exactly the enumerators' wire bytes, and the cast is the inverse of taking the wire byte |
| Wire.EncodeFields | core/include/trading_sim/dbn.hpp:70-94 | a record written field after field has every field at its pinned offset |
| Wire.DecodeEncode | core/include/trading_sim/dbn.hpp:52-94 | every wire record survives encode then decode |
| Wire.EncodeDecode | core/include/trading_sim/dbn.hpp:52-94 | every 56-byte string survives decode then encode: no padding, no lost byte |
| Wire.ToEventFromEvent | core/include/trading_sim/dbn.hpp:108-131 | every event has wire records that convert back to it, whatever publisher, instrument, channel and `ts_in_delta` hold |
| Wire.RejectionReasons | core/include/trading_sim/dbn.hpp:117-118 | a record is rejected for its action exactly when no action has its byte, and for its side exactly when its action is good and no side has its byte |
| Framing.FrameOneStable | core/include/trading_sim/dbn_reader.hpp:45-83 | an Ok or Corrupt answer never changes as more bytes arrive |
| Framing.NeedMoreIffUndecided | core/include/trading_sim/dbn_reader.hpp:53-63 | NeedMore is exactly the answer that some continuation changes |
| Framing.RoutingByOffsets | core/include/trading_sim/dbn_reader.hpp:244-263 | when each routing outcome happens, on the raw bytes, and the event's nine fields at their offsets; the price is the unsigned value, less 2^64 when the top bit of byte 31 is set |
| Framing.RoutesToEventIffEncoded | core/include/trading_sim/dbn_reader.hpp:250-263 | any record routes to an event exactly when it is an encoding of that event, for some publisher, instrument, channel, `ts_in_delta` and length byte |
| Framing.FrameRoutesToEventIffEncoded | core/include/trading_sim/dbn_reader.hpp:244-263 | a framed record routes to an event exactly when it is an encoding of that event with its own length byte |
| Stats.Tally | core/include/trading_sim/dbn_reader.hpp:265-282 | the event handed on and each of the four u64 counters, wrap-around included |
| Stats.TallyFrame | core/include/trading_sim/dbn_reader.hpp:234-242 | counting one more frame keeps the counters equal to what the frames passed amount to; no wrap below 2^64 - 1 frames |
| Stream.ParseIsTheFraming | core/include/trading_sim/dbn_reader.hpp:45-83 | every byte string has exactly one cut into whole records and an unframable tail, and the parse finds it |
| Stream.ParseBehindFrames | core/include/trading_sim/dbn_reader.hpp:461-474 | whole records in front of any bytes are framed one by one and the parse goes on behind them |
| Stream.LeftoverShape | core/include/trading_sim/dbn_reader.hpp:443-447 | what a stream leaves over: corrupt iff two bytes with a zero length, clean iff shorter than two bytes or than its stated size |
| Stream.CountersAddUp | core/include/trading_sim/dbn_reader.hpp:234-242 | records = events + non-MBO skips + malformed skips |
| Stream.FourBytesPerRecord | core/include/trading_sim/dbn_reader.hpp:45-63 | n bytes hold at most n / 4 records |
| Stream.TruncationMonotone | core/include/trading_sim/dbn_reader.hpp:461-486 | the frames, events and counters of a prefix carry over to the whole stream, and so does corruption |
| Stream.SkipNonInterference | core/include/trading_sim/dbn_reader.hpp:295-299 | inserting or deleting a skipped record at any frame boundary changes only `records` and its own skip counter, by one |
| Stream.CorruptionAbsorbs | core/include/trading_sim/dbn_reader.hpp:346-350 | nothing behind the two-byte prefix of the first corrupt frame has any effect |
| Stream.EndsCorruptIff | core/include/trading_sim/dbn_reader.hpp:358-361 | a stream fails exactly when whole records are followed by a zero length byte and one more byte |
| Stream.PullMeaning | core/include/trading_sim/dbn_reader.hpp:288-293 | one pull consumes exactly the frames it passes, returns the first event with only skips before it, or consumes all frames and tells how the stream ends |
| Stream.EndIsStable | core/include/trading_sim/dbn_reader.hpp:475-482 | once a pull returns nothing, pulling again changes nothing |
| Stream.ProgressIsTheParse | core/include/trading_sim/dbn_reader.hpp:461-486 | where a reader stands determines everything it has done, whatever way it got there |
| Stream.NextIsTheFollowingEvent | core/include/trading_sim/dbn_reader.hpp:288-293 | wherever a reader stands, its next pull returns the event following those it has emitted |
| Stream.FlagTellsTheEnd | core/include/trading_sim/dbn_reader.hpp:358-361 | after a pull the failure flag is set exactly when it found nothing and the stream ends corrupt |
| Stream.NextPassesThrough | core/include/trading_sim/dbn_reader.hpp:288-293 | wherever a reader stands, its next pull passes exactly the frames through the following event, or all of them |
| Assembler.RecordAssembler.Compact | core/include/trading_sim/dbn_reader.hpp:113-117 | the compaction loop moves the unconsumed bytes to the front and changes none of them |
| Assembler.RecordAssembler.Append | core/include/trading_sim/dbn_reader.hpp:107-119 | after an append the unconsumed bytes are the old ones and the chunk, consumed bytes are reclaimed, no view survives |
| Assembler.RecordAssembler.Next | core/include/trading_sim/dbn_reader.hpp:121-145 | hands out the whole record at the front as a view and consumes it, or changes nothing; earlier views stay intact |
| Assembler.RecordAssembler.Load | core/include/trading_sim/dbn_reader.hpp:121-124 | only a view issued since the last append may be read, and it reads as the record it was issued for |
| Assembler.ViewHolds | core/include/trading_sim/dbn_reader.hpp:121-124 | a view issued since the last append still holds the record it was issued for |
| Assembler.ViewsAreDisjoint | core/include/trading_sim/dbn_reader.hpp:121-137 | the views issued since the last append are disjoint and in order |
| Assembler.HandedIsThePrefixOfTheParse | core/include/trading_sim/dbn_reader.hpp:96-145 | the records handed out are the first frames of the bytes fed, and all of them once it runs dry |
| Assembler.ChunkingIndependence | core/include/trading_sim/dbn_reader.hpp:96-104 | two assemblers fed the same bytes in any two ways hand out the same records and keep the same tail |
| Assembler.FedByPlus | core/include/trading_sim/dbn_reader.hpp:105-119 | the bytes fed by a script are those of its parts, one behind the other |
| Assembler.Interleave | core/include/trading_sim/dbn_reader.hpp:105-157 | over any interleaving of appends and pulls, records and leftover are the bytes fed, the records are a prefix of their frames, and how many is exactly the least, over the script's points, of the frames fed by then and the pulls after it: all that was there to pull comes out |
| Source.ByteSource.Read | core/include/trading_sim/dbn_reader.hpp:187-198 | delivers the next bytes, any number up to the request, and none only when it has to |
| Prologue.RefusalReasons | core/include/trading_sim/dbn_reader.hpp:500-522 | each of the four refusals in terms of the file's single bytes, first failing check first, and where records start otherwise: 8 and the four length bytes by place value |
| Prologue.PrologueRoundTrip | core/include/trading_sim/dbn_reader.hpp:383-422 | a written prologue is accepted and the records start right behind its metadata |
| Prologue.AcceptedIffWritten | core/include/trading_sim/dbn_reader.hpp:383-422 | a file is accepted exactly when it is a written prologue followed by anything |
| StreamingReader.DbnReader.ReadFully | core/include/trading_sim/dbn_reader.hpp:368-381 | reads as much as was asked for or as there is, in order, however the source cuts its reads short |
| StreamingReader.DbnReader.SkipPrologue | core/include/trading_sim/dbn_reader.hpp:383-422 | succeeds or refuses as the prologue says, and on success stands exactly at the first record |
| StreamingReader.DbnReader.Open | core/include/trading_sim/dbn_reader.hpp:305-309 | opens exactly the accepted files, with all records ahead, and otherwise gives the reason |
| StreamingReader.DbnReader.Next | core/include/trading_sim/dbn_reader.hpp:321-356 | returns what one pull of the bytes ahead returns and leaves what it leaves, for any chunk size and any short reads; at a clean end nothing is unread; always terminates |
| StreamingReader.StreamingAccounts | core/include/trading_sim/dbn_reader.hpp:321-365 | in every state every byte of the file is accounted for, the counters agree with frames and events, and none wrapped |
| StreamingReader.StreamingIsBounded | core/include/trading_sim/dbn_reader.hpp:107-119 | in every state the buffer holds at most 1019 bytes and a chunk, and compaction has slid at most 1019 bytes per append |
| MmapReader.MmapDbnReader.SkipPrologue | core/include/trading_sim/dbn_reader.hpp:496-522 | succeeds or refuses as the prologue says, and on success stands exactly at the first record |
| MmapReader.MmapDbnReader.Open | core/include/trading_sim/dbn_reader.hpp:453-455 | opens exactly the accepted files, and on refusal the mapping is released again |
| MmapReader.MmapDbnReader.Next | core/include/trading_sim/dbn_reader.hpp:461-486 | returns what one pull of the bytes ahead of the cursor returns and leaves what it leaves; always terminates |
| MmapReader.MappedAccounts | core/include/trading_sim/dbn_reader.hpp:461-493 | in every state the cursor is at the sum of the frames passed, the counters agree, and none wrapped |
| Parity.LockstepMeansIndistinguishable | core/include/trading_sim/dbn_reader.hpp:432-447 | in the simulation relation the readers' flags, versions and counters are equal |
| Parity.OpenBoth | core/include/trading_sim/dbn_reader.hpp:496-499 | both constructors accept, in lockstep, or both refuse for the same reason |
| Parity.NextOnBoth | core/include/trading_sim/dbn_reader.hpp:432-447 | one call on each returns the event its pull finds, passes that pull's frames, sets the flag alike and keeps the simulation |
| Parity.Lockstep | core/include/trading_sim/dbn_reader.hpp:321-486 | for every file, chunk size and k, each of the first k calls shows the same on both readers: call i shows event i of the file with the four counters of the frames through it, and from the end on nothing, the counters of all frames and the flag saying how the file ends |
| Drain.ReadAllStreaming | core/include/trading_sim/dbn_reader.hpp:300-430 | opening and draining the streaming reader, for every file, chunk size and short-read schedule, comes to the file's meaning: the parse's events, counters and end, or the refusal with its reason |
| Drain.ReadAllMapped | core/include/trading_sim/dbn_reader.hpp:451-529 | opening and draining the mapped reader comes to the same meaning, or refusal, for every file |
| Drain.StreamingIsDone | core/include/trading_sim/dbn_reader.hpp:288-293 | with nothing left to pull, the streaming reader has passed every frame and emitted every event of the file |
| Drain.MappedIsDone | core/include/trading_sim/dbn_reader.hpp:443-447 | with nothing left to pull, the mapped reader has passed every frame and emitted every event of the file |
| Bench.ModeBRunsIff | bench/bench_dbn.cpp:79-90 | for every file: Mode B's check passes exactly when the header is whole and the magic right; the readers accept exactly if the version is 1 and the metadata lies inside the file besides, and then start at the same offset; which refusals slip through, each as an iff; where it starts, by place value, and that it only ever fails as a bad magic |
| Bench.ModeBRunsOnVersionTwo | bench/bench_dbn.cpp:79-90 | a file both readers refuse and Mode B counts |
| Bench.ModeBPassesTruncatedMetadata | bench/bench_dbn.cpp:82-90 | a file both readers refuse as cut short, on which Mode B's check passes with an offset behind the end |
| Bench.InMemoryPass | bench/bench_dbn.cpp:148-176 | one pass counts the events of the parse and the bytes of its whole records, which with the tail are all the bytes, for every slice size |
| Bench.BenchInMemory | bench/bench_dbn.cpp:138-184 | Mode B fails on a bad magic, and otherwise reports the last pass, whose counts are those of the parse |
| Bench.BenchEndToEnd | bench/bench_dbn.cpp:119-136 | Mode A counts the events of the parse, or fails with the reader's refusal |
| Bench.BenchMmap | bench/bench_dbn.cpp:186-206 | Mode C counts the events of the parse, or fails with the reader's refusal, and leaves no mapping behind |
| Bench.CompareModes | bench/bench_dbn.cpp:240-265 | the three modes count the events of the parse on every accepted file, so the parity gate never trips; payload and tail together are the records |
| RoundTrip.ItemRoutes | core/include/trading_sim/dbn_reader.hpp:222-263 | good, malformed and foreign records are each routed as what they are |
| RoundTrip.FileRoundTrip | core/include/trading_sim/dbn_reader.hpp:250-529 | a file written from any metadata, any good, malformed and foreign records and any start of a record means exactly the good events in order, the exact count of each kind, and a clean end |
| RoundTrip.ReadsCleanlyIffWritten | core/include/trading_sim/dbn_reader.hpp:250-529 | a file is accepted and ends cleanly exactly when it is a written prologue, written items and the start of a record |
| RoundTrip.FileTruncation | core/include/trading_sim/dbn_reader.hpp:461-522 | cutting an accepted file short behind its prologue only loses a suffix of its events; counters shrink; a corrupt prefix already says it all |
| RoundTrip.FileSkip | core/include/trading_sim/dbn_reader.hpp:295-299 | inserting a skipped record at a frame boundary of a file changes `records` and one skip counter, by one, and nothing else |
| RoundTrip.FileCorruption | core/include/trading_sim/dbn_reader.hpp:346-350 | whatever stands behind the two-byte prefix of a file's first corrupt frame, the file means the same |
| MappedFile.MemoryMappedFile.Release | core/src/memory_mapped_file.cpp:102-110 | unmaps what is held, with its own size, once |
| MappedFile.MemoryMappedFile.Move | core/src/memory_mapped_file.cpp:118-122 | takes the view over and leaves the source empty |
| MappedFile.MemoryMappedFile.MoveAssign | core/src/memory_mapped_file.cpp:124-133 | releases its own view before taking the other's; self-assignment changes nothing |
| MappedFile.Do | core/src/memory_mapped_file.cpp:71-133 | one operation on objects and regions: what each slot then views, what is mapped and live, and exactly which region is unmapped with which length; nothing happens when an object it names does not exist |
| MappedFile.OneMoreOp | core/src/memory_mapped_file.cpp:112-133 | over any program, what one more operation does to every slot's file and to the lengths unmapped, whether the objects it names exist being read off the program |
| MappedFile.LifeOfASlot | core/src/memory_mapped_file.cpp:116 | over any program, a slot is empty exactly when its object was destroyed after it was made |
| MappedFile.Run | core/src/memory_mapped_file.cpp:71-133 | any program of constructions, moves and destructions keeps one owner per mapped region, gives every slot the file it should hold, and leaves empty exactly the slots it destroyed |
| MappedFile.AllDestroyed | core/include/trading_sim/memory_mapped_file.hpp:16-20 | a program that destroys every object it made ends with nothing mapped, every region unmapped, and lengths unmapped that add up to the lengths mapped |
| MappedFile.RunToTheEnd | core/src/memory_mapped_file.cpp:102-116 | any program followed by the end of its objects unmaps everything it mapped |
| MappedFile.EachRegionHasOneFate | core/include/trading_sim/memory_mapped_file.hpp:16-20 | every region is either mapped with exactly one owner, or unmapped exactly once with its own size |
| MappedFile.NoLeak | core/include/trading_sim/memory_mapped_file.hpp:16-20 | when every object is gone nothing is mapped and every region was unmapped |
| MappedFile.MappingsAreConserved | core/src/memory_mapped_file.cpp:102-133 | over any program, bytes mapped = bytes still held + bytes unmapped |

## Left out

- The operating system and library side of I/O: opening, sizing and failing to map a file, page faults, SIGBUS. The source is fixed contents with arbitrary short reads; a mapping always succeeds and shows the file as it was; a region is identified by its array, so a reused address is a new region.
- Vector capacity policy: how much a growing buffer reserves is left arbitrary.
- Files of 2^64 bytes and more, a chunk size of 0 (the metadata loop would not end), and use of a moved-from reader: excluded by preconditions, as the source excludes them.
- Bench.BenchInMemory: does not cover a file whose stated metadata runs past its end, because the span the source takes there is undefined.
- Aliasing of the assembler's own buffer as an appended chunk, which is undefined in the source.
- Exception texts; only the kind of refusal is kept.
- Struct size, alignment and endianness facts that the C++ compiler already settles; the layout is stated as the codec.
- Timing, warm-up passes, statistics and printing of the benchmark, the replay example's output, the Python bindings and the build.
- Order book, matching, queue-aware fills and replay ordering: the repository describes them but has no code for them.
