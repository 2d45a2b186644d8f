# libpqwire, verified

libpqwire is a PostgreSQL wire-protocol state machine without I/O: the caller
feeds bytes, takes events, and drains output. This project models its frame
engine, its serializers and parsers, the two Bind rewriters of the identity
proxy, pipeline recovery, the man-in-the-middle relay and the hash stack under
SCRAM, and proves what they promise over all inputs and all runs.

The byte layouts are those of section 55.7 of the PostgreSQL 16 manual, padding
and block layout of the hash follow section 5.1.1 of FIPS 180-4, HMAC section 2
of RFC 2104, PBKDF2 section 5.2 of RFC 8018.

## How it is built

| module | what it holds |
|---|---|
| Wire, Messages | big-endian words, C strings, counted lists, the layout of every message written |
| Parsers | what each body means to its receiver, and the round trips with the layouts |
| Engine | the context as a value, one turn of the feed loop, chunk independence, the fold over frames |
| Runs | invariants over every run of feeds, dequeues, sends, drains and resets |
| BindRewrite | what the two rewriters write, exactly when they agree, what the result means |
| Buffers, ParserLoops, BindRewriters | the loops over byte arrays and running offsets |
| Contexts | the context as a class whose ring, buffers, arena and scratch are updated in place |
| Senders | the functions that append a message to the output, with their exact success conditions |
| Streams, Replies | whole messages through the engine, in both directions |
| Relay | the relay step in place, conservation and delivery over any interleaving |
| Pipelines | observing and feeding backend messages until ReadyForQuery |
| Frames | one frame of each type in literal bytes, the event logged for it, all sizes |
| Scram | streaming hash, HMAC and PBKDF2 for an arbitrary block function |

Code that updates fields or arrays is a class or a method with loops. Each such
method is proved equal to a function on values (`Context.Abs` gives the value of
a context), and the theorems are about those functions. A ghost `log` records
every event ever queued with the payload parsed for it; the queue itself holds
only what the C queue holds (references into scratch areas and arena slices).

Results that show where the code falls short of what its documentation or its
callers expect, with the exact condition and an input where one is not plain:

- The feed loop can hang. `Engine.HaltsIff` reads off the buffered bytes whether it
  ends, for buffers of any length; up to 4 GiB it hangs exactly on the header whose
  32-bit skip length wraps to 0 (`Engine.HaltsBelowIff`), and one frame of 4 GiB is
  such an input (`Engine.FullFrameHangs`, `Pipelines.FrameHaltsIff`). A loop that
  hangs queues protocol errors without end (`Engine.StuckSpins`).
- Where a stream is cut can matter. `Engine.CutIsInvisibleIff`: a cut is invisible
  exactly when no length word up to it makes the loop throw away the buffer (a
  startup length out of range, a zero length, an oversized length whose body is
  not there yet); `Engine.ZeroLengthIsNotChunkIndependent` is such an input.
- include/pqwire.h:134 promises copies of all parameters, but the copying rewriter
  cuts text at its first zero byte and turns any format code other than 1 into 0.
  `BindRewrite.RewritersAgreeIff` says exactly when it agrees with the slice-based
  one; `BindRewrite.ZeroByteIsCut` and `BindRewrite.OtherFormatIsLost` are inputs
  on which they differ.
- Queued payloads in a scratch area are overwritten. `Runs.QueuedEventIsRead`: a
  Startup, Query or CommandComplete reads as the newest of its kind, so as parsed
  exactly when that is the same. `Runs.QueuedColumnsAreReadIff`: a RowDescription
  reads as parsed exactly when the later writes left each of its entries as it
  was; after a shorter description it is a mixture of both, neither the parsed
  one nor the newest (`Runs.OlderColumnsAreMixed`).
- Rows lose values silently. `Streams.DataRowRoundTripIff`: a row arrives whole
  exactly when it fits the free part of the arena; otherwise each value that does not
  fit behind those kept before it turns into NULL (`Parsers.PlaceKeepsIff`). Taking the
  last queued event frees the arena (`Streams.RowAfterEmptying`), so a relay client that
  takes its events before each step loses nothing that fits step by step
  (`Relay.RelayAnswersPerMove`).
- A reset does not free the arena. `Streams.RowAfterResetIff`: after it a row arrives
  exactly when it fits what was free before; everything else is as in a new context
  (`Runs.ResetIsFresh`).
- The row writer writes the length of a value that is not given but no bytes for
  it, so the value takes the bytes behind it (`Senders.MissingValueSwallows`). The
  columns arrive with their lengths exactly when every value is given
  (`Senders.RowArrivesIff`).
- The startup writer does not check the room for its second key.
  `Senders.SecondKeyFitsIff`: it stays within the 512 bytes exactly when the user
  name has fewer than 490 bytes or is refused (498 and more);
  `Senders.SecondKeyOverruns`: 490 bytes lead one byte past the end.
- The key derivation copies the salt and a block index into 64 bytes without a check,
  and the salt field is scanned up to 63 bytes. `Scram.ScannedSaltFitsIff`: the index
  stays within the buffer exactly when the field has at most 60 bytes before its end
  or a comma; `Scram.LongSaltOverruns`: 61 bytes lead one byte past it.
- The Bind and row writers refuse some messages that are valid. They do so exactly
  when a length word does not fit the buffer as it has grown until then
  (`Senders.SendBind`, `Senders.SendDataRowMulti`), never when the whole body fits
  64 bytes and 256 for each value (`Senders.SmallBindFits`, `Senders.SmallRowFits`);
  `Senders.FullBufferIsRefused` is a Bind of 579 bytes that is refused.
- README.md:18 of the library announces detection of protocol violations. Only
  lengths are looked at: `Engine.ProtocolErrorIff` says so for every turn,
  `Engine.PhaseIsIgnored` that events do not depend on the phase, and
  `Engine.QueryWhileAuthenticating` is a query accepted before authentication.

## Model

| member | source | states |
|---|---|---|
| Engine.CutIsInvisibleIff | src/pqwire.c:832-910 | feeding `a` then `b` equals feeding `a + b` for every `b` on which the loop ends, if and only if no length word up to the end of `a`, read off the bytes alone, makes the loop throw the buffer away |
| Engine.ZeroLengthIsNotChunkIndependent | src/pqwire.c:886-897 | a zero length swallows the next byte when it is fed together with it and keeps it when it is fed later |
| Engine.ChunkIndependence | src/pqwire.c:832-910 | any split of a stream into chunks leaves the whole state (log, ring, arena, phase, residual bytes) that feeding it at once leaves, when startup lengths are in range and typed lengths are non-zero and not oversized |
| Engine.DrainIsFold | src/pqwire.c:853-907 | the feed loop equals folding the handlers over the stream cut into frames by its length words alone, and keeps exactly the uncut rest |
| Engine.TurnIsFrame | src/pqwire.c:853-907 | one turn handles the first frame of the split and leaves the split of the others |
| Engine.TurnIsLocal | src/pqwire.c:853-907 | a turn that does not throw the buffer away commutes with appending more input |
| Engine.DrainAppend | src/pqwire.c:840-907 | draining before more input arrives changes nothing |
| Engine.FlushShows | src/pqwire.c:860-866 | a header that throws the buffer away is always observable: one more byte later leaves a different buffer |
| Engine.TurnShrinksIff | src/pqwire.c:886-905 | a non-breaking turn makes the buffer strictly shorter if and only if the 32-bit skip does not wrap |
| Engine.HaltsIff | src/pqwire.c:853-907 | whether the loop ends is told by a walk over the bytes, for buffers of any length |
| Engine.HaltsIffNeverStuck | src/pqwire.c:853-907 | the loop ends if and only if no turn on its way leaves the buffer as it is |
| Engine.FinalIsDrain | src/pqwire.c:853-907 | when no turn wraps, the loop ends in the drained state and nowhere else |
| Engine.HaltsBelowIff | src/pqwire.c:886-897 | up to 4 GiB the loop ends if and only if the header in front is not the one whose 32-bit skip wraps |
| Engine.FullFrameHangs | src/pqwire.c:886-897 | a frame of 4 GiB at a client with a smaller limit never gets through the loop |
| Engine.StuckSpins | src/pqwire.c:886-897 | from a turn that changes nothing on, n turns later the buffer is the same and n protocol errors were queued |
| Engine.DrainIsLoop | src/pqwire.c:853-907 | when no turn wraps, the loop ends after finitely many turns, in the drained state |
| Engine.SmallNeverWraps | src/pqwire.c:853-907 | that is so whenever fewer than 2^32 bytes are buffered |
| Engine.ProtocolErrorIff | src/pqwire.c:853-906 | a turn logs a protocol error if and only if the length is out of range |
| Engine.PhaseIsIgnored | src/pqwire.c:741-830 | the event of a message is the same in every phase |
| Engine.QueryWhileAuthenticating | src/pqwire.c:746-750 | a query sent while a server authenticates is logged as a query and moves it to QUERYING |
| Engine.PhaseAfter | src/pqwire.c:535-830 | of all type bytes only Q at a server and Z and C at a client change the phase, only R the authentication |
| Engine.OtherTypesAreIgnored | src/pqwire.c:741-830 | a byte that is none of the nine frontend or fourteen backend types, told by their codes, changes nothing |
| Engine.BareTypesAre | src/pqwire.c:782-830 | the event of each backend type without a payload of its own, ParameterStatus with its raw body, by its code and for any body |
| Engine.BareFrontendTypesAre | src/pqwire.c:746-770 | the same for Sync, Flush and Terminate |
| Engine.AuthenticationIs | src/pqwire.c:773-781 | only a whole code word of zero ends the authentication |
| Engine.UnterminatedIsEmpty | src/pqwire.c:676-689 | a tag or query without a terminator is reported as empty, not dropped |
| Engine.FlushFreeIff | src/pqwire.c:853-907 | a walk over the length words tells whether the loop throws the buffer away |
| Engine.LengthsInRangeIff | src/pqwire.c:853-907 | a walk over the length words tells whether all headers met are in range |
| Engine.Retention | src/pqwire.c:853-907 | below 4 GiB the loop ends waiting for one incomplete frame, with at most max(4, max_message_size) bytes kept |
| Runs.RunKeepsInv | src/pqwire.c:83-107 | over every run: queue entries match the end of the log; queued rows are in-bounds, pairwise disjoint slices below the used part that still hold the bytes parsed; scratch holds the newest event of each kind; the column area is the outcome of all writes to it; phases are in order |
| Runs.TurnsKeepInv | src/pqwire.c:853-907 | the same for every state the feed loop passes through, also when it never ends |
| Runs.PhasesInOrder | src/pqwire.c:741-875 | between resets: only protocol errors precede a startup (so at most one startup), AUTHENTICATING and QUERYING only in a server that saw startup, a client only in STARTUP or READY |
| Runs.QueuedEventIsRead | src/pqwire.c:56-70 | an event that owns its payload, rows in the arena included, reads as parsed; a Startup, Query or CommandComplete reads as the newest of its kind, and as parsed if and only if that is the same |
| Runs.QueuedColumnsAreReadIff | src/pqwire.c:606-625 | a queued RowDescription reads as parsed if and only if the writes to the column area since then left each of its entries as it was |
| Runs.OlderColumnsAreMixed | src/pqwire.c:606-625 | columns [a, b] followed by a description [c] read as [c, b] |
| Runs.DequeuedRowStays | src/pqwire.c:64-70 | a dequeued row reads the same after every run without a feed, and after runs with feeds while no dequeue has emptied the queue before a feed |
| Runs.FeedKeepsUsedArena | src/pqwire.c:655-665 | a feed of any bytes never writes the used part of the arena |
| Runs.DeliveredInOrder | src/pqwire.c:83-107 | over every run the dequeued events are a subsequence of the log, in order, none twice, each read with its own payload unless it shares scratch |
| Runs.DeliveredCompletelyIff | src/pqwire.c:83-92 | every event is delivered or still queued if and only if no feed queues more than there is room for and no reset finds something queued; the delivered positions are consecutive then |
| Runs.DrainGrowsLog | src/pqwire.c:83-92 | after a feed the queue holds min(old + new, capacity) entries and the log only grew: only oldest entries were given up |
| Runs.PlaceIsGood | src/pqwire.c:650-666 | a placed row leaves the used part of the arena as it was, its slices are disjoint and above it, and each holds its value |
| Runs.MessageEffectIsGood | src/pqwire.c:741-830 | every handler, for every body, stores its payload where its event refers to and writes no other event's payload |
| Runs.TurnKeepsInv | src/pqwire.c:853-907 | one turn on any buffer, malformed ones included, keeps the run invariant |
| Runs.ResetKeepsInv | src/pqwire.c:254-266 | a reset keeps it although the used part of the arena survives |
| Runs.ResetIsFresh | src/pqwire.c:254-266 | after a reset every run logs the same events and leaves the same queue, buffers and phase as in a new context; a client needs a free arena for that |
| Runs.DequeueKeepsInv | src/pqwire.c:94-107 | freeing the arena when the queue runs empty keeps it |
| BindRewrite.RewritersAgreeIff | src/pqwire.c:1641-1831 | injecting into owned copies and sending them writes the same body as the slice-based rewrite if and only if every other parameter is copied faithfully (its format is the listed one, 1 or 0, and text holds no zero byte) |
| BindRewrite.ReceivedRewritersAgreeIff | src/pqwire.c:393-478 | the same for the Bind parsed from any body whatever, malformed ones included, with a condition read off its fields |
| BindRewrite.ZeroByteIsCut | src/pqwire.c:1678-1691 | a received Bind with a text value of one zero byte is rewritten differently by the two ways |
| BindRewrite.OtherFormatIsLost | src/pqwire.c:1674-1691 | so is one with format code 2 |
| BindRewrite.ReceivedIsSound | src/pqwire.c:418-475 | every parsed Bind is within the limits, holds a value for each positive length, and has the listed formats except where the body ended early |
| BindRewrite.CopiedIsForwardedIff | src/pqwire.c:1670-1692 | per parameter: when the copy is what the direct rewrite forwards |
| BindRewrite.CopySpelledOut | src/pqwire.c:1670-1692 | the owned copy: binary data whole with format 1, other data up to its first zero byte with format 0, NULL with its format |
| BindRewrite.ParamsBodyInjective | src/pqwire.c:1697-1720 | equal bodies carry equal format codes and values, so the bytes decide the agreement |
| BindRewrite.RewriteMeaning | src/pqwire.c:1722-1831 | reparsing the rewritten Bind yields the forced names, the same parameters with all NULLs as -1 and formats resolved one per parameter, the same result formats, and only the slot replaced by the identity with its format |
| BindRewrite.RewriteSpelledOut | src/pqwire.c:1722-1831 | the same field by field: the slot has the identity and format 1 or 0; any other parameter keeps its value (NULL has length -1) and has format 0 without codes, the one code, or its own and 0 behind them |
| BindRewrite.RewriteTwice | src/pqwire.c:1722-1831 | rewriting, reparsing and rewriting the same slot gives byte for byte the single rewrite with the last identity |
| BindRewrite.RewritesCommute | src/pqwire.c:1722-1831 | rewrites of two different slots give the same bytes in either order |
| BindRewrite.RewriteAgain | src/pqwire.c:1722-1831 | a rewrite of a reparsed rewrite writes both identities and the rest of the original |
| BindRewrite.ForwardsReparsed | src/pqwire.c:1801-1816 | what a second rewrite forwards of a reparsed one is the first identity in its slot and the original elsewhere |
| Senders.SameFramesIff | src/pqwire.c:1697-1850 | the frames appended by both ways are equal if and only if every other parameter is copied faithfully |
| BindRewriters.InjectIdentity | src/pqwire.c:1641-1695 | fails exactly when there is no such slot and then touches nothing; else fills exactly the first n entries with copies and the identity |
| BindRewriters.RewriteZerocopy | src/pqwire.c:1722-1831 | succeeds exactly when the slot exists and the frame fits the buffer, and then the output is that one Bind frame |
| BindRewriters.PutBody | src/pqwire.c:1781-1821 | the bounded writes fail exactly when the whole body does not fit |
| BindRewriters.ResolveFormats | src/pqwire.c:1784-1796 | one format per parameter by the 0/1/n rule, that of the identity forced |
| BindRewriters.FinishHeader | src/pqwire.c:1823-1826 | type byte and length go into the five bytes left for them without touching the body |
| Parsers.BindRoundTrip | src/pqwire.c:1028-1125 | a Bind body with at most 32 entries per array parses back to its names, formats, values (NULL apart from empty), per-parameter formats and result formats |
| Parsers.BindFormatsAre | src/pqwire.c:454-461 | the formats received: 0 for all without codes, the one code for all, else one each and 0 behind them |
| Parsers.BindValuesAre | src/pqwire.c:393-478 | names cut to 63 bytes, both code lists as sent, and for each parameter its length and bytes, NULL apart from empty |
| Parsers.BindArraysFormats | src/pqwire.c:418-440 | in any body, where the code list is, that a cut-off one is refused, and that counts above 32 are taken as 32 |
| Parsers.ParseBindStrings | src/pqwire.c:404-416 | a Bind without two terminated strings is refused |
| Parsers.ParseBindIs | src/pqwire.c:404-416 | with two terminated strings the bytes behind them decide |
| Parsers.MissingParamsAreCleared | src/pqwire.c:441-462 | parameters that are counted but not there are empty, in text, without data |
| Parsers.ParseResultFormatsAre | src/pqwire.c:464-475 | at most 32 result codes at their places, 0 where the body ends before them |
| Parsers.ParseRoundTrip | src/pqwire.c:355-391 | a Parse body parses back to its names and first 16 type OIDs |
| Parsers.ParseParseIff | src/pqwire.c:363-375 | any body is accepted if and only if it starts with two terminated strings |
| Parsers.ParseParseIs | src/pqwire.c:363-375 | and these are the statement and the query then, cut to their fields |
| Parsers.ParseOidsAre | src/pqwire.c:377-389 | at most 16 type OIDs at their places, 0 where the body ends before them |
| Parsers.NamedRoundTrip | src/pqwire.c:1127-1184 | Describe and Close bodies parse back to target and name |
| Parsers.ParseNamedEdges | src/pqwire.c:486-494 | an empty body is refused, a name without a terminator is empty |
| Parsers.ExecuteRoundTrip | src/pqwire.c:1146-1165 | an Execute body parses back to portal and row limit |
| Parsers.ParseExecuteEdges | src/pqwire.c:505-513 | a portal without a terminator is refused, a cut-off row limit is 0 |
| Parsers.ErrorRoundTrip | src/pqwire.c:552-590 | severity, code and message come back, cut to 31, 7 and 255 bytes |
| Parsers.ErrorFieldsRoundTrip | src/pqwire.c:558-588 | any list of fields: S, C, M, D and H give severity, code, message, detail and hint, the last of each kind cut to its size, and other fields are skipped |
| Parsers.UnterminatedFieldEnds | src/pqwire.c:561-564 | a field without a terminator ends the reading and keeps what came before |
| Parsers.StartupRoundTrip | src/pqwire.c:317-353 | user and database come back, cut to 127 bytes |
| Parsers.StartupEnds | src/pqwire.c:327-338 | an empty key, a missing terminator and a last single byte end the reading |
| Parsers.NotificationRoundTrip | src/pqwire.c:693-738 | process number, channel cut to 63 bytes and payload cut to 8000 come back, whatever follows |
| Parsers.NotificationEdges | src/pqwire.c:707-723 | a short body or an unterminated channel is dropped, an unterminated payload is empty |
| Parsers.TakePutColumns | src/pqwire.c:592-627 | written columns are read back as the same names, OIDs and formats |
| Parsers.TakePutSomeColumns | src/pqwire.c:603-622 | of the written columns exactly the first n are read, with names cut to 63 bytes |
| Parsers.TakeColumnsEdges | src/pqwire.c:607-617 | a column whose name has no terminator is not read; one with fewer than 18 bytes behind it leaves only its name |
| Parsers.TakePutValues | src/pqwire.c:629-674 | written row values are read back, NULL apart from empty |
| Parsers.TakePutSomeValues | src/pqwire.c:640-668 | of the written values exactly the first n are read |
| Parsers.PlaceKeepsAllIff | src/pqwire.c:650-666 | every value is kept if and only if all together fit the free arena |
| Parsers.PlaceKeepsIff | src/pqwire.c:650-666 | each single value is kept if and only if it fits behind those kept before it, also after others were dropped |
| Parsers.PlaceSpends | src/pqwire.c:656-663 | the arena use grows by the size of the kept values alone |
| Wire.RdWr32 | src/pqwire.c:133-156 | a word written big-endian is read back |
| Wire.WordsAreBigEndian | src/pqwire.c:133-156 | the bytes of 16- and 32-bit words, most significant first |
| Wire.TakePutI16s | src/pqwire.c:427-430 | a list of 16-bit codes is read back entry for entry, signs included |
| Wire.TakeI16sIs | src/pqwire.c:427-430 | of any bytes: as many codes as asked for or as are whole, at their places, and what is left |
| Wire.TakePutU32s | src/pqwire.c:385-388 | a list of 32-bit OIDs is read back entry for entry |
| Wire.TakeU32sIs | src/pqwire.c:385-388 | of any bytes: as many OIDs as asked for or as are whole, at their places, and what is left |
| Wire.TakePutCstr | src/pqwire.c:304-315 | a C string is read up to its terminator and no further |
| Wire.TakeCstrIff | src/pqwire.c:304-315 | of any bytes: the string before the first zero byte and the rest behind it, or none if there is no zero byte |
| Wire.Truncated | src/pqwire.c:172-183 | a bounded copy keeps a prefix that leaves room for the terminator, all of it when it fits |
| ParserLoops.ReadCstr | src/pqwire.c:304-315 | the scan finds the first terminator within the body or none |
| ParserLoops.ReadParse | src/pqwire.c:355-391 | the offset-driven reader computes the meaning of any Parse body |
| ParserLoops.ReadParams | src/pqwire.c:441-462 | the loop gives each value its format at once and rejects a value that runs past the body |
| ParserLoops.ReadBind | src/pqwire.c:393-478 | the offset-driven reader computes the meaning of any Bind body, early ends included |
| ParserLoops.ReadErrorResponse | src/pqwire.c:552-590 | the loop of the context computes the fields of any ErrorResponse body |
| ParserLoops.ReadErrorFields | src/pqwire.c:1460-1498 | the loop of the pipeline status computes the same fields for every body |
| ParserLoops.ReadStartup | src/pqwire.c:317-344 | the key and value loop computes user and database of any startup body |
| Contexts.Context.constructor | src/pqwire.c:198-237 | a new context is empty, unstarted and uses the default limit when none is given |
| Contexts.Context.EnqueueEvent | src/pqwire.c:83-92 | the ring refines a sequence that drops its oldest entry when full |
| Contexts.Context.DequeueEvent | src/pqwire.c:94-107 | the oldest entry is taken; the arena is freed when none is left |
| Contexts.RingPush | src/pqwire.c:89-91 | writing behind the last entry modulo the size appends to the sequence |
| Contexts.RingPop | src/pqwire.c:99-101 | advancing the head modulo the size removes the first of the sequence |
| Contexts.Context.Reset | src/pqwire.c:254-266 | queue, buffers and phases are cleared, arena and scratch are not |
| Contexts.Context.HandleStartup | src/pqwire.c:317-353 | the startup handler in place equals its effect on values |
| Contexts.Context.HandleQuery | src/pqwire.c:535-550 | text goes to scratch, the phase to QUERYING |
| Contexts.FillIsOverwriting | src/pqwire.c:606-622 | filling the column scratch entry by entry leaves the complete columns in front, the name of a cut-off one behind them, old entries after that |
| Contexts.Context.HandleRowDescription | src/pqwire.c:592-627 | the column loop over the scratch array equals its effect on values |
| Contexts.Context.CopyRow | src/pqwire.c:643-672 | parsing and copying in one pass equals taking all values first and placing them then |
| Contexts.Context.HandleDataRow | src/pqwire.c:629-674 | the row handler in place equals its effect on values |
| Contexts.Context.HandleMessage | src/pqwire.c:741-830 | role-dependent dispatch equals the handler on values |
| Contexts.Context.SkipInput | src/pqwire.c:890-893 | the move behind a bad header with its 32-bit length, wrapping included |
| Contexts.Context.Turn | src/pqwire.c:853-906 | one pass of the loop body takes exactly one turn or leaves the state alone, and says whether the loop goes on |
| Contexts.TurnedFinishes | src/pqwire.c:853-907 | leaving the loop at any of its exits is where the turns that are left lead |
| Contexts.Context.DrainInput | src/pqwire.c:853-907 | on every buffer on which the loop ends, the loop in place reaches the state where it ends |
| Contexts.Context.FeedInput | src/pqwire.c:832-910 | growing, appending and looping in place reaches the state where the loop ends, and all bytes are consumed; it is the fed state on values when no turn wraps |
| Contexts.Context.EnsureInput | src/pqwire.c:840-848 | growing the input buffer keeps what is buffered |
| Contexts.Context.EmitMsg | src/pqwire.c:159-170 | exactly one frame is appended to the output |
| Contexts.Context.EnsureOutput | src/pqwire.c:109-122 | growing the output buffer keeps what is buffered |
| Contexts.Context.GetOutput | src/pqwire.c:912-922 | the first bytes go out, the others stay in order, the rest of the caller's buffer is untouched |
| Senders.SendStartup | src/pqwire.c:934-969 | appends the startup packet exactly when the context is a client's and it fits 512 bytes |
| Senders.SecondKeyFitsIff | src/pqwire.c:947-958 | the copy of the second key stays within the buffer if and only if the user name has fewer than 490 or at least 498 bytes |
| Senders.SecondKeyOverruns | src/pqwire.c:951-958 | a user name of 490 bytes leads the copy one byte past the buffer |
| Senders.SendQuery | src/pqwire.c:971-978 | appends one Query frame of any length |
| Senders.SendNamed | src/pqwire.c:1127-1184 | appends a Describe or Close frame exactly when the name fits |
| Senders.SendExecute | src/pqwire.c:1146-1165 | appends an Execute frame exactly when the portal fits |
| Senders.SendReadyForQuery | src/pqwire.c:1234-1242 | appends ReadyForQuery and moves to READY |
| Senders.SendParse | src/pqwire.c:998-1026 | appends a Parse frame exactly when it fits the buffer, else nothing |
| Senders.SendBind | src/pqwire.c:1028-1125 | succeeds exactly when the writer never stands within 4 bytes of its current capacity before a length word, across all reallocations; then appends the Bind frame with everything given and some bytes for values that were not, else nothing |
| Senders.SmallBindFits | src/pqwire.c:1035-1114 | a Bind whose body fits the first buffer is never refused |
| Senders.FullBufferIsRefused | src/pqwire.c:1085-1090 | a first value that leaves three bytes of the buffer makes the writer refuse the second |
| Senders.LeftoverIsRefused | src/pqwire.c:1085-1090 | every Bind whose first value leaves fewer than 4 bytes of the first buffer is refused when it has another parameter |
| Senders.GrownBufferHolds | src/pqwire.c:1093-1103 | a value that outgrows the buffer leaves room for exactly 1024 bytes behind it |
| Senders.BuildParams | src/pqwire.c:1085-1109 | the reallocating loop keeps everything written so far and ends at the predicted position and capacity |
| Senders.RoomOfPrefix | src/pqwire.c:1085-1109 | position and capacity after some parameters determine success on the others |
| Senders.SendBindParams | src/pqwire.c:1697-1720 | sends owned parameters with one format each, at most 32 |
| Senders.SendBindRewriteIdentity | src/pqwire.c:1833-1850 | appends the rewritten frame exactly when the slot exists and it fits 8192 bytes, else nothing |
| Senders.SendUnnamedPipeline | src/pqwire.c:1202-1222 | success appends exactly P, B, E, S; failure leaves nothing or the P frame alone, and which of them is told exactly |
| Senders.SendRowDescription | src/pqwire.c:1244-1279 | appends at most 16 columns exactly when they fit 2048 bytes |
| Senders.SendDataRowMulti | src/pqwire.c:1308-1352 | appends the row across all reallocations, with the exact success condition; the layout is that of Bind parameters when every value is given |
| Senders.BuildRow | src/pqwire.c:1324-1348 | the loop writes every length word but bytes only for values that are given |
| Senders.SmallRowFits | src/pqwire.c:1312-1348 | a row whose body fits the first buffer is never refused |
| Senders.RowArrivesIff | src/pqwire.c:1324-1348 | the columns of a written row are all read back with the lengths declared if and only if every value of positive length was given |
| Senders.MissingValueSwallows | src/pqwire.c:1332-1347 | a missing value of length 4 before a NULL is read as the four bytes of the NULL |
| Senders.SendErrorResponse | src/pqwire.c:1362-1395 | appends the error exactly when it is shorter than 512 bytes, else nothing |
| Senders.SendCommandComplete | src/pqwire.c:1354-1360 | appends one CommandComplete frame |
| Streams.FrontendRoundTrip | src/pqwire.c:746-770 | every frontend message within the limits is handled as the event with its fields |
| Streams.DataRowRoundTripIff | src/pqwire.c:629-674 | a row of at most 16 columns arrives whole if and only if it fits the free arena, and takes exactly its size then |
| Streams.FedRowIff | src/pqwire.c:629-674 | fed as bytes to a client with nothing buffered, a row is logged as sent if and only if it fits the free arena |
| Streams.RowAfterEmptying | src/pqwire.c:94-107 | after the last queued event was taken, in whatever state, a row of up to 65536 bytes is logged as sent |
| Streams.RowAfterResetIff | src/pqwire.c:254-266 | after a reset, a row is logged as sent if and only if it fits what of the arena was free before the reset |
| Streams.LongRowIsCut | src/pqwire.c:638-642 | of more than 16 values the first 16 arrive |
| Streams.RowDescriptionRoundTrip | src/pqwire.c:592-627 | up to 16 columns with names up to 63 bytes arrive as sent |
| Streams.LongRowDescriptionIsCut | src/pqwire.c:601-605 | of more than 16 columns the first 16 arrive, with names cut to 63 bytes |
| Streams.ErrorResponseRoundTrip | src/pqwire.c:552-590 | a sent error arrives with its fields, cut to 31, 7 and 255 bytes |
| Streams.FrameIsTaken | src/pqwire.c:876-906 | a whole frame in front is handled once and its bytes are gone, whatever follows |
| Streams.StreamIsRead | src/pqwire.c:832-910 | a started server reads a stream of messages as their events, one for one |
| Streams.SessionIsRead | src/pqwire.c:832-910 | a new server reads the startup packet, with user and database cut to 127 bytes, and then the messages |
| Streams.UnnamedPipelineIsRead | src/pqwire.c:1202-1222 | a started server reads the pipeline as PARSE, BIND, EXECUTE, SYNC with the fields sent |
| Streams.PreparedKeepsParsed | src/pqwire.c:1852-1868 | a cache entry made from any received Parse keeps all its fields |
| Replies.ReplyRoundTripIff | src/pqwire.c:773-830 | every backend message within the limits is handled as its event if and only if its row, if it has one, fits the free arena |
| Replies.RepliesAreReadIff | src/pqwire.c:853-907 | from any partial buffer, the client reads the whole messages that are there and waits for the others; those read are logged as sent if and only if their rows fit the free arena |
| Replies.AwaitingHasRead | src/pqwire.c:853-907 | the number of bytes that reached a waiting client tells how many messages it has read |
| Relay.Mitm.Step | src/mitm.c:31-52 | one step moves at most 4096 bytes each way, first up, then down |
| Relay.RelayConserves | src/mitm.c:31-52 | over any interleaving of sends, dequeues and steps, bytes moved followed by bytes buffered are the bytes sent, in both directions |
| Relay.RelayDelivers | src/mitm.c:31-52 | the server's log is at all times a prefix of the events of what the client sent, and all of them once the client's output is moved |
| Relay.RelayDeliversAtLast | src/mitm.c:31-52 | after any run, as many steps as the client's output has runs of 4096 bytes deliver everything to the server |
| Relay.RelayAnswersIff | src/mitm.c:31-52 | the client's log is a prefix of the events of the server's replies if and only if the rows that each step moved, told by the byte counts, fitted the arena free at that step, whatever was dequeued in between; every reply is read once the server's output is moved |
| Relay.RelayAnswersAtLast | src/mitm.c:31-52 | after any run, as many steps as the server's output has runs of 4096 bytes make the client read every reply, as sent if and only if the rows of each step fitted |
| Relay.RelayAnswersPerMove | src/mitm.c:31-52 | a client that takes its events before each step gets every row as sent when the rows of each step, not of the run, fit the arena |
| Relay.MovesMove | src/mitm.c:31-52 | k steps move, in order, the first 4096 * k bytes of either output or all there are |
| Relay.MovedIsRead | src/mitm.c:44-49 | the messages whose last bytes a step moves down are those the client reads in it |
| Relay.RelayAnswers | src/mitm.c:31-52 | rows that fit the arena all together arrive as sent in every run |
| Relay.TakenIsKept | src/pqwire.c:912-922 | draining the output in pieces loses and reorders nothing |
| Relay.TakesAllItCan | src/pqwire.c:912-922 | a drain gives as many bytes as asked for or all there are |
| Pipelines.ObserveMsg | src/pqwire.c:1500-1521 | rejects anything but one whole frame and leaves the status then; else counts it and notes errors and ReadyForQuery |
| Pipelines.WholeFrameIff | src/pqwire.c:1431-1450 | the messages accepted are exactly the frames that a sender writes, of any type and body |
| Pipelines.PeekIff | src/pqwire.c:1431-1450 | type and size are reported if and only if the buffer starts with such a frame |
| Pipelines.RepliesAreWhole | src/pqwire.c:1500-1506 | every message of a server is accepted, those without a body too |
| Pipelines.StatusIsFold | src/pqwire.c:1500-1521 | after any list of frames: error iff some 'E', complete iff some 'Z', the last error is that of the last 'E', the count is the length |
| Pipelines.NewStatusTells | src/pqwire.c:1452-1458 | from a new status on: error iff some 'E', complete iff some 'Z', no error recorded without one |
| Pipelines.FrameHaltsIff | src/pqwire.c:886-897 | the feed of one whole frame ends if and only if it is below 4 GiB or within the client's limit |
| Pipelines.FeedBackendMsg | src/pqwire.c:1531-1554 | observes, feeds and drains one frame, or rejects it and changes nothing |
| Pipelines.DrainEvents | src/pqwire.c:1546-1549 | dequeues until nothing is queued |
| Pipelines.FrameIsUsedUp | src/pqwire.c:886-906 | one whole frame, oversized or not, leaves nothing buffered |
| Pipelines.PipelineRecovers | src/pqwire.c:1531-1554 | any list of frames that get through the loop leaves input and queue empty, output untouched, authentication kept, and the client READY after any 'Z' |
| Scram.Hash.Update | src/scram.c:63-72 | appends the bytes to the message hashed so far, whatever the splits |
| Scram.Hash.PadTail | src/scram.c:77-85 | pads to 56 bytes of the last block, through a second block when 56 to 63 bytes remain |
| Scram.Hash.Final | src/scram.c:74-108 | the digest is that of the one-shot definition over the whole padded message, for any length |
| Scram.LengthIsExactIff | src/scram.c:87-95 | the length field is the bit length exactly for messages below 2^61 bytes |
| Scram.PadLayout | src/scram.c:74-96 | every byte of a padded message: the message, 0x80, zeros, the bit length as two big-endian words |
| Scram.Wr64IsBigEndian | src/scram.c:87-95 | both halves of the length are big-endian words, the upper one first |
| Scram.DigestIsBigEndian | src/scram.c:98-107 | the digest is the eight chaining words, big-endian |
| Scram.BlocksFromFront | src/scram.c:50-72 | the initial words, and that blocks are compressed first to last |
| Scram.PaddingIsShortest | src/scram.c:77-85 | no shorter run of zeros ends a block |
| Scram.HmacSha256 | src/scram.c:112-142 | equals HMAC over that hash, also when the output array is the data array, for keys of any length |
| Scram.EmptyKeyHmac | src/scram.c:126-141 | with an empty key: 64 bytes 0x5c before the hash of 64 bytes 0x36 and the text |
| Scram.PadsDiffer | src/scram.c:126-131 | keys whose block keys differ, as those of different keys of one length up to 64 do, give different pads |
| Scram.XorIff | src/scram.c:128-131 | a bit of the result, by its weight, is zero if and only if it is the same in both bytes |
| Scram.XorBitsAdd | src/scram.c:128-131 | each bit is the sum of both bits without carry, for any width |
| Scram.XorBitsTwice | src/scram.c:128-131 | adding the same bits twice gives back the first ones |
| Scram.ScannedSaltFitsIff | src/scram.c:197-201 | the block index behind a scanned salt stays within the buffer if and only if the field ends or has a comma within its first 61 bytes |
| Scram.LongSaltOverruns | src/scram.c:151-152 | a salt field of 61 bytes leads one byte past the buffer |
| Scram.SumBlocks | src/scram.c:146-162 | the in-place loop computes U_1 xor ... xor U_c |
| Scram.SumIsParity | src/scram.c:157-160 | each bit of the derived block is the parity of that bit over U_1 to U_c |
| Scram.Pbkdf2Sha256 | src/scram.c:146-162 | at most 32 bytes of that block are written, the rest of the output untouched |
| Frames.StartupBytes | src/pqwire.c:941-968 | the startup packet of user "u" and database "d" byte for byte, version 3.0 first |
| Frames.QueryBytes | src/pqwire.c:971-978 | a Query frame byte for byte |
| Frames.ParseBytes | src/pqwire.c:998-1026 | a Parse frame with two type OIDs byte for byte |
| Frames.BindBytes | src/pqwire.c:1028-1125 | a Bind frame with two codes, a value and a NULL byte for byte |
| Frames.NamedBytes | src/pqwire.c:1127-1184 | Describe, Close and Execute frames byte for byte |
| Frames.BareBytes | src/pqwire.c:990-1200 | Sync, Flush and Terminate frames byte for byte |
| Frames.BareReplyBytes | src/pqwire.c:1224-1427 | AuthenticationOk, ReadyForQuery and the replies without a body byte for byte |
| Frames.DataRowBytes | src/pqwire.c:1308-1352 | a row of a value and a NULL byte for byte |
| Frames.DescriptionBytes | src/pqwire.c:1244-1279 | a description of one column byte for byte |
| Frames.TagBytes | src/pqwire.c:1354-1360 | a CommandComplete frame byte for byte |
| Frames.ErrorBytes | src/pqwire.c:1362-1395 | an ErrorResponse frame byte for byte |
| Frames.ServerEvents | src/pqwire.c:746-770 | the event a server logs for a literal body of each frontend type with one |
| Frames.ClientTag | src/pqwire.c:676-691 | the tag a client logs for a literal CommandComplete body |
| Frames.ClientError | src/pqwire.c:552-590 | the error a client logs for a literal ErrorResponse body |
| Frames.ClientRows | src/pqwire.c:629-674 | the row a client logs for a literal DataRow body |

## Left out

- The compression function (src/scram.c:28-48) is a parameter: the hash stack is proved for any block function, so nothing here says that the digest is standard SHA-256 (the message schedule adds a constant of its own at src/scram.c:34).
- The SCRAM exchange and `pqwire_start_auth` (src/scram.c:166-231, src/pqwire.c:278-300): random nonces and stubbed steps; the `scram_ctx`, `password` and `use_scram` fields go with them.
- Allocation failure, magic numbers and null contexts: allocation succeeds and contexts are valid. A queue size below 1 makes creation fail in C; here the constructor requires a size above 0.
- Null pointers for strings stand for the empty string (or the default text of an error), null arrays for zeros or NULLs; the caller of the model passes those values.
- Bind and ParameterStatus payloads point into the framing buffer, which the loop shifts in the same feed; they are values taken at parse time here. The `raw_body` pointer is not modelled.
- The parallel arrays of lengths and values are one sequence of parameters; ownership and freeing of owned parameters are not modelled.
- Identities and values of 2 GiB and more, whose length does not fit the signed length word.
- `pqwire_send_call` (`snprintf`), `pqwire_send_data_row` (one column of the multi-column form), `pqwire_send_auth_ok` and the backend messages without payload (each is one frame with a constant body), `pqwire_pipeline_filter_backend_type`, and a sender for NotificationResponse, which the library does not have.
- The attack list of the relay, whose mutations are not implemented (src/mitm.c:40, 47).
- Exact round trips of Bind and Parse arrays beyond the fixed limits: the Bind parser clamps a count without skipping the entries, so what follows is read from the wrong place. The parser itself is modelled on all bodies (`ParserLoops.ReadBind`).
- Engine.Drain: stands for the feed loop as long as no turn wraps (`Engine.DrainIsLoop`), which fewer than 2^32 buffered bytes guarantee. On a feed on which the loop hangs it is the state after the first turn that shortens nothing, and so it is on a buffer above 4 GiB whose loop wraps and goes on; results over runs (`Runs.RunKeepsInv`, `Runs.DeliveredInOrder`, `Runs.DeliveredCompletelyIff`) say nothing about the code after such a feed. `Runs.TurnsKeepInv` holds of every state on the way.
- Contexts.Context.FeedInput: requires that the loop ends on the bytes, without which the code does not return; `Engine.HaltsIff` is the exact condition.
- Contexts.Context.DrainInput: the same.
- Relay.Mitm.Step: requires that no turn wraps at either receiver (`Relay.SmallIsAccepted`: fewer than 2^32 buffered bytes are enough).
- Pipelines.FeedBackendMsg: requires that no turn wraps.
- Pipelines.PipelineRecovers: excludes the frame of exactly 4 GiB above the client's limit, on which the feed hangs (`Pipelines.FrameHaltsIff`).
- Senders.SendStartup: requires that the second key fits the buffer, because the code writes past it otherwise; `Senders.SecondKeyFitsIff` is the exact condition.
- Senders.SendBind: does not say which bytes stand for a value that is missing although its length is positive (the C buffer is not initialised there).
- ParserLoops.ReadBind: does not return the pointer to the raw body, which dangles once the buffer is shifted.
- ParserLoops.ReadErrorFields: does not model the position field, because `atoi` is undefined for numbers that do not fit.
- ParserLoops.ReadErrorResponse: does not model the position field either.
- Scram.Pbkdf2Sha256: requires that the block index behind the salt fits the buffer, because the code writes past it otherwise; `Scram.ScannedSaltFitsIff` is the exact condition for a salt that was received. Zero iterations count as one, as in the loop.
- Scram.SumBlocks: requires the same.
