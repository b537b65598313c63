# The QPDL driver's cores, verified

A driver for the Samsung M2020 series turns pages into a job of PJL lines and QPDL records. This
project models the parts of it that carry the risk, and proves what they promise.

* **The 0x11 band codec.** A payload announces 64 distances, then codes a band as raw bytes, literal
  runs and matches that may overlap themselves. `Codec11Format` gives the format a meaning of its
  own; `Codec11Decode`, `Codec11Match`, `Codec11Encode`, `Codec11Table` and `Codec11TableSpec` hold the
  loops and the functions they refine. What those functions mean is said without them:
  `Codec11DecodeMeaning` describes every result of a decode, `Codec11EncodeTheory` and
  `Codec11PayloadTheory` the payload byte by byte, `Codec11TableTheory` the chosen table.
* **The job encoder and the walker.** `JobEncoder` is the encoder object: rows in, bytes out, with
  white bands left out. `Walk` is the parser of the same byte language; `WalkTheory` and `WalkMeaning`
  describe what it accepts and reports. `Raster` and `Job` say what a page and a job are as bytes;
  `JobText` and `JobRoundTrip` lead to the end-to-end law, `JobMeaning` to the settings on the wire.
* **Halftoning.** `Halftoner` is the halftoner object, and `HalftonerTheory` says which pixels it
  prints. `ErrorDiffusion` states Floyd-Steinberg diffusion as a recurrence and bounds it;
  `ErrorDiffusionMeaning` is the same as one system of equations. `Screens` builds the Bayer and
  clustered screens, `ScreensTheory` says what their ranks are, `DotCounts` counts their dots.
* **The blue-noise generator.** `BlueNoise` runs the void-and-cluster method on an incremental
  energy map, and `BlueNoiseEnergy` is the energy it stands for.

Bytes are integers 0..255 and every mask, shift and wrap of the source is written out with division.
A function that returns an error code returns a `Status`; a pointer that may be null is an `Option`
or a nullable array. A method is proved against a function of its inputs or of its old state, and
lemmas say what that function means. The sink of the encoder is the sequence of bytes it was given;
the callbacks of the walker are a sequence of events.

What is not true of the code as its documentation describes it:

* The result code list (`include/m2022/qpdl.h:51`) gives ERANGE for a page taller than 255 bands.
  The code numbers bands from 0 and accepts 256 of them; ERANGE comes with the 257th
  (`JobEncoder.Encoder.WriteLine`).
* ERANGE does not end the page. A row that completes a band after the 256th is refused, yet the
  page can be ended afterwards, exactly when it consists of full bands, and then goes out with its
  first 32768 rows only (`JobEncoder.Encoder.EndPage`, `JobEncoder.OfferPage`).
* The halftoner's reset is offered for the start of a new page (`include/m2022/halftone.h:52`). It
  clears two rows from the current error row on, and that is the second row of the buffer after an
  odd number of lines: in a buffer of the size asked for it then runs a row past the end
  (`Halftoner.ResetStaysInsideWhen`, `Halftoner.ResetAfterOneLine`). The repository itself calls it
  from init only, where it is in place.
* A producer or a paper type may hold the phrase "ENTER LANGUAGE". Such a job is accepted by the
  encoder and refused by the walker; the law of the round trip holds exactly when neither does
  (`JobRoundTrip.JobArrives`, `JobRoundTrip.PhraseStopsJob`).
* A text line of 4096 bytes is cut there, and the byte after it is dropped (`WalkTheory.LineExact`).
* The size bound of the band encoder is one byte larger than any non-empty band needs
  (`Codec11EncodeTheory.BoundIsSound`, `Codec11EncodeTheory.BoundIsReached`).
* With screens of 128 cells or more the top threshold is 255, so solid black is not all black
  (`DotCounts.SolidBlack`).
* The format notes (`docs/spl-qpdl.md:130`) first let the checksum begin at the band record header and
  correct it further down (line 156); the model follows the code, which sums the payload only.

## Model

| member | source | states |
|---|---|---|
| Bytes.GetPut16 | src/qpdl/codec11.c:24-27 | a 16-bit value written in either byte order, anywhere, is read back |
| Bytes.GetPut32 | src/qpdl/codec11.c:18-22 | the same for 32 bits |
| Bytes.PutGet32 | src/qpdl/codec11.c:154-160 | writing a value that was read gives its bytes back |
| Codec11Format.HeadOfToken | src/qpdl/codec11.c:81-127 | the first token read from a stream that begins with an encoded token is that token, whatever follows |
| Codec11Format.CopyBackMeaning | src/qpdl/codec11.c:108-111 | the byte-by-byte overlapping copy is the one continuation of the output whose every new byte equals the byte `offset` before it (iff) |
| Codec11Format.ParseSerialize | src/qpdl/codec11.c:81-131 | the token encoding is unambiguous: a stream parses into exactly the tokens it was written from |
| Codec11Format.MatchTokenExact | src/qpdl/codec11.c:83-95 | the bytes of a match token, written out: the first token of a stream is a match of this length and slot if and only if its two bytes hold the flag, nine bits of length and six of slot in their places |
| Codec11Format.LiteralTokenExact | src/qpdl/codec11.c:112-130 | the same for literals: a count byte below 128, one less than the number of bytes, then the bytes |
| Codec11Format.SumLoop | src/qpdl/codec11.c:67-70 | the wrapping 32-bit accumulation is the true sum modulo 2^32 |
| Codec11Decode.Decode | src/qpdl/codec11.c:29-135 | status, output length, every info field and the buffer are those of the byte semantics `Decoded`, for any bytes and any capacity; bytes past the reported length are untouched; null pointers are EINVAL; `Decoded` is described in full by Codec11DecodeMeaning.DecodedMeaning |
| Codec11Decode.DecodeStream | src/qpdl/codec11.c:81-131 | the token loop does what the recursive stream semantics says, from any position |
| Codec11Decode.CopyLoop | src/qpdl/codec11.c:108-111 | the copy loop appends `CopyBack` and touches nothing beyond |
| Codec11Decode.MatchStep | src/qpdl/codec11.c:83-111 | a match token of two bytes: EOFFSET for a zero or too large distance, else EOVERFLOW for lack of room, else the copy |
| Codec11Decode.LiteralStep | src/qpdl/codec11.c:112-130 | a literal token: EOVERFLOW for lack of room, else its bytes |
| Codec11DecodeTheory.StreamMeaning | src/qpdl/codec11.c:81-134 | a stream decodes with Ok exactly when it parses into tokens whose meaning exists and fits; the output is that meaning and the statistics are those of the tokens |
| Codec11DecodeTheory.StopsAtFirstObstacle | src/qpdl/codec11.c:81-134 | on arbitrary bytes the decoder runs the longest executable list of tokens, and its status names what stands at the first byte after it |
| Codec11DecodeTheory.CapacityExact | src/qpdl/codec11.c:74-130 | a smaller buffer gives the identical outcome if the output fits, and otherwise EOVERFLOW with a proper prefix of the output |
| Codec11DecodeTheory.ByteOrderIndependence | src/qpdl/codec11.c:48-69 | reversing the bytes of the magic, the raw length and all 64 entries of any payload changes neither status nor output nor any info field but the byte order |
| Codec11DecodeTheory.SumOfOtherOrder | src/qpdl/codec11.c:67-70 | the checksum is invariant under that permutation of the header |
| Codec11DecodeTheory.HeaderOfOtherOrder | src/qpdl/codec11.c:48-58 | the permuted header read in the other byte order holds the same values |
| Codec11DecodeTheory.FrameDecodes | src/qpdl/codec11.c:48-134 | a well-formed payload, in either byte order, decodes to the meaning of its raw bytes and tokens |
| Codec11DecodeTheory.OnlyFramesDecode | src/qpdl/codec11.c:48-134 | conversely, every payload that decodes with Ok is byte for byte the frame of the table, raw prefix and tokens it was read as |
| Codec11DecodeMeaning.StopMeaning | src/qpdl/codec11.c:82-130 | the status in front of a token that cannot be taken, from its bytes alone: ETRUNCATED, EOFFSET or EOVERFLOW, in that order of tests |
| Codec11DecodeMeaning.SplitIsUnique | src/qpdl/codec11.c:81-131 | a stream splits in one way only into tokens that are executed within the buffer and a rest whose first token cannot be |
| Codec11DecodeMeaning.TallyMeaning | src/qpdl/codec11.c:90-121 | the statistics count the tokens begun, the one that stopped the decoding included, and each maximum is the greatest value that occurred, or 0 |
| Codec11DecodeMeaning.DecodedMeaning | src/qpdl/codec11.c:29-135 | the whole result of decoding any bytes into any buffer, if and only if: which error comes first, the output of the tokens before it, every info field, and ECHECKSUM only for a band that decoded whole and whose byte sum modulo 2^32 is not the one stored |
| Codec11Match.MatchLenLoop | src/qpdl/codec11.c:171-179 | the loop computes the match length |
| Codec11Match.MatchLenIsGreatest | src/qpdl/codec11.c:171-179 | `n` bytes repeat at distance `d` exactly when `n` is at most the match length |
| Codec11Match.LongestMatch | src/qpdl/codec11.c:185-218 | the pruned search with its one-byte rejection and early break returns the result of the plain scan; without a match the slot is left as it was |
| Codec11Match.TryDistance | src/qpdl/codec11.c:203-215 | a rejected candidate could not have won |
| Codec11Match.RejectionIsSound | src/qpdl/codec11.c:204-207 | a candidate that differs where the best one stopped is not longer than it |
| Codec11Match.BestIsArgmax | src/qpdl/codec11.c:197-217 | the plain scan yields the greatest length of at least 3 over the usable distances, at the first slot that reaches it, and 0 exactly when none does |
| Codec11Match.BestMeaning | src/qpdl/codec11.c:181-218 | a choice is the one made if and only if it is the longest match of 3 to 514 bytes that a usable table distance offers within the band, from the first slot that offers it, or none where nothing repeats three bytes |
| Codec11Match.RoomIsFull | src/qpdl/codec11.c:212-214 | once a match fills the room left, no later slot changes the result |
| Codec11Encode.Encode | src/qpdl/codec11.c:220-313 | Ok exactly when the payload fits, with the whole payload written; otherwise EOVERFLOW with a proper prefix; bytes beyond untouched; null pointers are EINVAL; that payload is described in full by Codec11PayloadTheory.PayloadMeaning |
| Codec11Encode.EmitTokens | src/qpdl/codec11.c:265-300 | the nested token loops write the greedy parse, or a prefix of it up to the first token that does not fit |
| Codec11Encode.RawLoop | src/qpdl/codec11.c:243-247 | the raw-prefix loop ends at the raw length, which Codec11EncodeTheory.RawEndMeaning describes |
| Codec11Encode.WriteTable | src/qpdl/codec11.c:254-257 | the table loop writes the 64 entries little-endian |
| Codec11EncodeTheory.RoundTrip | src/qpdl/codec11.c:220-313 | for every band and every table (zeros, duplicates and distances out of reach included) the payload decodes, in a buffer of exactly the band's length or larger, with Ok and to the band |
| Codec11EncodeTheory.GreedyExec | src/qpdl/codec11.c:265-300 | the greedy parse from any point rebuilds the rest of the band |
| Codec11EncodeTheory.MatchExec | src/qpdl/codec11.c:268-288 | the best match, overlapping or not, executed on the band before it gives the band after it |
| Codec11EncodeTheory.GreedySize | src/qpdl/codec11.c:265-300 | the amortised bound: what the parse writes from a point on costs no more than literals alone would, because each match saves the byte that rounding its literal run may cost |
| Codec11EncodeTheory.BoundIsSound | src/qpdl/codec11.c:162-168 | no payload is longer than the bound; for a non-empty band the bound is at least one byte too large |
| Codec11EncodeTheory.BoundIsReached | src/qpdl/codec11.c:162-168 | a band without any match reaches the bound exactly, less that byte |
| Codec11EncodeTheory.RawFromStops | src/qpdl/codec11.c:243-247 | the raw prefix ends at the first match from its lower limit on, or at its upper limit |
| Codec11EncodeTheory.RawEndMeaning | src/qpdl/codec11.c:240-247 | a length is the raw length if and only if it lies between 64 and 128 (or the band), no usable table distance repeats three bytes at any position from 64 up to it, and one does at it if it is below the limit |
| Codec11EncodeTheory.GreedyIsGreedy | src/qpdl/codec11.c:265-300 | the tokens tile the band without gap or overlap; a byte is a literal only where no match exists, a match is the longest one, and a literal run is cut only at 128 bytes |
| Codec11EncodeTheory.GreedyParseIsUnique | src/qpdl/codec11.c:265-300 | only one token list has that property |
| Codec11EncodeTheory.TokensAreTheGreedyParse | src/qpdl/codec11.c:240-300 | a token list is the encoder's output if and only if it is the greedy parse after the raw prefix |
| Codec11PayloadTheory.RawLenIsStored | src/qpdl/codec11.c:243-253 | the raw length that the decoder reads from the payload, in a buffer of any size, is that length and no other |
| Codec11PayloadTheory.PayloadMeaning | src/qpdl/codec11.c:220-313 | a byte string is the payload of a band if and only if it is laid out so, byte by byte: magic, raw length, 64 distances, the raw bytes up to the first match, the greedy tokens, the byte sum high byte first |
| Codec11TableSpec.RecentIsMostRecent | src/qpdl/codec11.c:344-351 | no earlier position with the same hash is missing from the slots unless four later ones are there |
| Codec11TableSpec.RecentDescends | src/qpdl/codec11.c:344-351 | the slots are ordered from the latest position to the earliest |
| Codec11TableSpec.PickIsSound | src/qpdl/codec11.c:364-390 | the distance picked at a position is in 1..4096 and at least 3 bytes, the claimed number, really repeat at it |
| Codec11TableSpec.PickIsBest | src/qpdl/codec11.c:369-390 | no distance to a recent position and no column distance in reach would have matched more bytes |
| Codec11TableTheory.HashMeaning | src/qpdl/codec11.c:338-342 | the hash is the 11 bits below bit 32 of the product of the three bytes, read high byte first, with 2654435761 (iff) |
| Codec11TableTheory.ConsiderPicks | src/qpdl/codec11.c:374-389 | one more distance at the end of the list: the pick moves to it only if it matches strictly longer |
| Codec11TableTheory.PickMeaning | src/qpdl/codec11.c:364-390 | a pick is the one made if and only if it is the first of the longest matches of at least 3 bytes among the recent positions within 4096, in slot order, and then the multiples of 128 up to 2048 in reach; every distance before it matches strictly shorter |
| Codec11TableTheory.ParseIsUnique | src/qpdl/codec11.c:363-401 | only one list of picks tiles the band so that nothing matches between them |
| Codec11TableTheory.CreditMeaning | src/qpdl/codec11.c:360-401 | the credits are, distance by distance, the sums of the bytes that the picks of that list cover (iff) |
| Codec11TableSpec.CreditsAreBounded | src/qpdl/codec11.c:396-400 | the total credit never exceeds the band's length, so no 32-bit credit wraps |
| Codec11TableSpec.CreditHasWitness | src/qpdl/codec11.c:363-401 | every credited distance has a position where at least 3 bytes really repeat at it |
| Codec11TableSpec.TopFromIsTheTop | src/qpdl/codec11.c:403-418 | a list is the credited part of the table if and only if it is the top 64 credited distances, by falling credit and rising distance |
| Codec11TableSpec.DefaultTableIsDistinct | src/qpdl/codec11.c:147-152 | the 64 default distances are pairwise distinct and within 1..4096 |
| Codec11TableSpec.FillIsWellFormed | src/qpdl/codec11.c:419-432 | filling from the default table never runs short: by the pigeonhole principle 64 distinct non-zero entries result |
| Codec11TableTheory.FillMeaning | src/qpdl/codec11.c:419-432 | the gaps are filled with the first default distances that were not selected, in their order |
| Codec11TableTheory.TableMeaning | src/qpdl/codec11.c:353-433 | a list is the chosen table if and only if it is the top 64 by those credit sums followed by the first default distances that are not among them |
| Codec11TableSpec.TableIsWellFormed | src/qpdl/codec11.c:403-432 | the table has 64 entries, non-zero, distinct, at most 4096, for every band |
| Codec11Table.ChooseTable | src/qpdl/codec11.c:353-433 | the hash slots, credits, selection and filling loops produce the specified table; every slot and credit access is in range; the table is described in full by Codec11TableTheory.TableMeaning |
| Codec11Table.CreditLoop | src/qpdl/codec11.c:360-401 | the slot-array parse credits what the specification with "most recent positions" credits |
| Codec11Table.SlotInsert | src/qpdl/codec11.c:344-351 | after an insertion every slot row again holds the most recent positions of its hash |
| Codec11Table.PickLoop | src/qpdl/codec11.c:364-390 | the two candidate loops with their early exits find the specified pick, which Codec11TableTheory.PickMeaning describes |
| Codec11Table.SelectLoop | src/qpdl/codec11.c:403-418 | the selection loop yields the top distances |
| Codec11Table.FillLoop | src/qpdl/codec11.c:419-432 | the filling loop yields the specified table |
| Band.TransposeToBand | src/qpdl/band.c:13-21 | the loops store exactly the complemented column-major layout |
| Band.TransposeToRows | src/qpdl/band.c:3-11 | the loops store exactly the complemented row-major layout |
| Band.BandRoundTrip | src/qpdl/band.c:3-21 | the two layouts are inverse to each other, both ways |
| Band.BandAt | src/qpdl/band.c:13-21 | byte `line` of column `col` is the complement of byte `col` of row `line` |
| Records.PageHeaderExact | src/qpdl/records.c:29-70 | a page header parses to `h` if and only if the bytes written for `h` stand there |
| Records.BandHeaderExact | src/qpdl/records.c:72-96 | the same for band headers |
| Records.PageHeaderLayout | src/qpdl/records.c:54-70 | 17 bytes are the header if and only if each field stands at its offset, 16-bit fields high byte first |
| Records.BandHeaderLayout | src/qpdl/records.c:88-96 | the same for the 11 bytes of a band header |
| Records.EndPageLayout | src/qpdl/records.c:98-102 | the same for the 3 bytes of an end of page |
| Walk.Walk | src/qpdl/walk.c:42-115 | result code, error offset and callbacks on any bytes are those of the recursive reading `Walked`; terminates on every input; `Walked` is described in full by WalkMeaning.WalkedMeaning |
| Walk.EmitLines | src/qpdl/walk.c:12-40 | the line loop reports what `Lines` says and stops where it says |
| WalkTheory.RecordExact | src/qpdl/walk.c:62-100 | a record is reported at a position if and only if the bytes that write it stand there; a band carries exactly its declared payload |
| WalkTheory.ChainIsWalked | src/qpdl/walk.c:62-100 | every chain of records standing in the data is reported, offset by offset, and the walk continues at its end |
| WalkTheory.RecordsTile | src/qpdl/walk.c:62-114 | the callbacks are a chain, each starting where the one before it ends; it stops at the end of the job, the end of the data, or the first place where no record stands, which is the error offset |
| WalkTheory.LineExact | src/qpdl/walk.c:17-27 | the scan finds a line exactly where one stands: text up to a line feed, the end of the data or 4096 bytes; in the last case the next byte is dropped whatever it is |
| WalkTheory.LineStopMeaning | src/qpdl/walk.c:18-26 | the scan stops at the first of the end of the data, a line feed and the length limit, with text only before it |
| WalkTheory.LinesTile | src/qpdl/walk.c:12-40 | the lines reported tile the text part, none before the last enters the page language, and reading stops only after such a line or where no line stands |
| WalkTheory.StripCrMeaning | src/qpdl/walk.c:25-28 | one carriage return at the end of a line is dropped, and nothing else |
| WalkMeaning.EnterLineMeaning | src/qpdl/walk.c:32-36 | a line enters the page language if and only if it is the phrase with five bytes or more around it |
| WalkMeaning.LinesMeaning | src/qpdl/walk.c:12-40 | any list of lines that runs to where no further line stands, or to the first that enters if that is asked for, is the list reported |
| WalkMeaning.RefusedExact | src/qpdl/walk.c:62-112 | where no record stands the code is ETRUNCATED if and only if the rest of the data is a proper beginning of some record, and ERECORD otherwise |
| WalkMeaning.WalkedMeaning | src/qpdl/walk.c:42-115 | the whole result of a walk on any bytes, if and only if: lines, records, trailer, code and error offset, which is the first byte where no line or record stands |
| WalkMeaning.WalkIsOk | src/qpdl/walk.c:42-115 | a walk ends with Ok if and only if the data is lines of which only the last enters, then records to the end, or to an end of job with nothing behind it or lines that start with a UEL |
| Raster.RowPixel | src/qpdl/encode.c:243-247 | a stored pixel is black exactly where the row had a black pixel within the width: the mask keeps those and whitens the padding |
| Raster.MaskBits | src/qpdl/encode.c:245-247 | masking the low bits of a byte keeps every other bit |
| Raster.UnwrittenBandIsBlank | src/qpdl/encode.c:170 | a band of which no row has been written is white |
| Job.BandPayload | src/qpdl/encode.c:212-217 | a band payload fits the workspace, and 32 bits, for every raster width |
| JobText.ContainsAfterPrefix | src/qpdl/encode.c:115-131 | with the fixed prefixes in front of free text, a line enters the page language if and only if the text itself holds the phrase |
| JobText.HeadIsRead | src/qpdl/encode.c:104-142 | the walker reads the envelope up to the first line with the phrase, which may be the producer's or the paper type's |
| JobRoundTrip.JobIsWalked | src/qpdl/encode.c:81-282 | an encoded job walks to its end with every line and record at its offset, unless free text holds the phrase: then ERECORD at the PJL line that follows |
| JobRoundTrip.JobArrives | src/qpdl/encode.c:81-282 | the whole-job round trip, both ways: Ok if and only if neither free text holds "ENTER LANGUAGE"; then each page is drawn pixel for pixel as written, white beyond its width, below its last row and in bands not sent; otherwise no page arrives |
| JobRoundTrip.PhraseStopsJob | src/qpdl/encode.c:81-98 | every valid job has a valid sibling with the phrase as producer, and one with it as paper type, of which no page arrives |
| JobRoundTrip.BandRecordDecodes | src/qpdl/encode.c:212-226 | the payload of a band record decodes with Ok to exactly the padded rows, with a header of the right geometry |
| JobRoundTrip.PageIsDrawn | src/qpdl/encode.c:145-267 | one page, any width to 65280 and up to 256 bands, drawn from its records |
| JobRoundTrip.BandNumbersIncrease | src/qpdl/encode.c:192-231 | record numbers rise strictly, and a number is missing exactly when its band is white |
| JobMeaning.HeaderMeaning | src/qpdl/encode.c:174-187 | a header is the job's if and only if each field holds the job's own setting and the others their constants |
| JobMeaning.PaperDotsMeaning | src/qpdl/encode.c:26-32 | paper sizes are rounded half up to dots of 1/300 inch, or 1/150 at 1200 dpi, and stop at 65535 (iff) |
| JobMeaning.BandPayloadMeaning | src/qpdl/encode.c:212-217 | a band is sent as the payload that goes with the table chosen for that very band, and as nothing else (iff) |
| JobMeaning.SheetsCarryTheJob | src/qpdl/encode.c:145-267 | every sheet a walker delivers is a page header with the job's settings, bands 128 lines high and as wide as the next multiple of 256, and an end of page with the copies |
| JobMeaning.SettingsArrive | src/qpdl/encode.c:104-142 | what the walker reports says every setting of the job under its own name, with its value and no other; optional lines exactly when the job has them |
| JobMeaning.LinesAreInPlace | src/qpdl/encode.c:104-142 | the lines come in one order, none twice |
| JobMeaning.JobIsFramed | src/qpdl/encode.c:104-282 | a job starts with the UEL and ends with the end-of-job record and the UEL |
| JobEncoder.Encoder.constructor | src/qpdl/encode.c:98 | a zeroed encoder is in no job and no page |
| JobEncoder.Encoder.BeginJob | src/qpdl/encode.c:81-143 | EINVAL exactly for an invalid job, with nothing changed; otherwise the sink has received the whole envelope |
| JobEncoder.Encoder.EmitEnvelope | src/qpdl/encode.c:104-142 | the lines are sent in their order, and none exceeds the text buffer |
| JobEncoder.Encoder.BeginPage | src/qpdl/encode.c:145-189 | ESTATE, ERANGE or EINVAL exactly when the call is out of order, the width out of range or the workspace too small, with nothing changed; otherwise the page starts on white rows |
| JobEncoder.Encoder.WriteLine | src/qpdl/encode.c:233-250 | in every state: a row is taken into the page, and answered with ERANGE exactly when it completes a band after the 256th, and then nothing is sent; a row that completes no band sends nothing; rejected calls change nothing |
| JobEncoder.Encoder.FlushBand | src/qpdl/encode.c:192-231 | in every state: the record of the band in the workspace is sent, or the band counted as white, and the workspace is white again; ERANGE exactly beyond number 255, with nothing changed |
| JobEncoder.Encoder.EndPage | src/qpdl/encode.c:252-267 | in every state: ERANGE exactly for a page of more than 256 bands that ends in a partial one, with nothing changed; otherwise the page goes out with the rows that 256 bands hold, in ceil(rows / 128) bands written or white |
| JobEncoder.Encoder.EndJob | src/qpdl/encode.c:269-282 | whatever calls were refused before, the sink holds exactly the bytes of the job made of the pages that went out |
| JobEncoder.EncodeBand | src/qpdl/encode.c:212-217 | transpose, table and encoder leave the specified payload; encoding cannot overflow the workspace |
| JobEncoder.WorkspaceIsExact | src/qpdl/encode.c:34-39 | the workspace asked for a page is exactly what its three buffers take |
| JobEncoder.StoredLineIsNextRow | src/qpdl/encode.c:243-247 | a masked row stored at lines % 128 leaves the workspace equal to the rows given, padded with white |
| JobEncoder.RowKeepsSent | src/qpdl/encode.c:243-249 | a row of the band being filled changes nothing that was sent or counted |
| JobEncoder.BandIsSent | src/qpdl/encode.c:204-229 | sending a band, or counting it as white, keeps bytes and counters in step with the rows given |
| JobEncoder.PageEnds | src/qpdl/encode.c:263-266 | ending a page keeps bytes and counters in step with the pages given |
| JobEncoder.CutBandsAreFixed | src/qpdl/encode.c:243-249 | rows to come never change a band already cut |
| JobEncoder.OfferPage | src/qpdl/encode.c:233-267 | a page of any height, written whatever the answers: it can be ended exactly when it has at most 256 bands or full bands only, and what goes out is the rows that 256 bands hold, which is all of them exactly when there are at most 32768 |
| ErrorDiffusion.ErrorIsBounded | src/halftone/halftone.c:169-186 | on a line entered with carried cells within 69, the error of every pixel stays within 127 and what its neighbours add to its ink within 124 |
| ErrorDiffusion.CellsStayBounded | src/halftone/halftone.c:163-187 | over any run of lines of any width from a reset, every carried cell stays within 69 |
| ErrorDiffusion.ExtremesAreExact | src/halftone/halftone.c:173-178 | ink of 252 or more always prints and ink of 3 or less never does, whatever surrounds it |
| ErrorDiffusion.RunBalance | src/halftone/halftone.c:169-186 | ink, dots and carried errors balance over any run up to 3 per pixel and 85 per line |
| ErrorDiffusion.InkIsConserved | src/halftone/halftone.c:169-186 | 255 times the black dots differs from the ink by at most 3 per pixel, 85 per line and 69 per column |
| ErrorDiffusionMeaning.TruncMeaning | src/halftone/halftone.c:180-183 | a share is the division by 16 truncated toward zero (iff) |
| ErrorDiffusionMeaning.DiffusionMeaning | src/halftone/halftone.c:163-187 | the errors of a run of lines are the one solution of Floyd and Steinberg's equations in page columns: 7/16 to the next pixel of the scan, 3/16, 5/16 and 1/16 to the line below, against, under and along the direction of the line |
| ErrorDiffusionMeaning.DotMeaning | src/halftone/halftone.c:172-179 | a pixel prints if and only if its value in those equations is at least 128 |
| Halftoner.ScatterGathers | src/halftone/halftone.c:180-183 | scattering each error over four cells leaves in every cell of the next row what gathering from three pixels says |
| Halftoner.ScatteredIsBounded | src/halftone/halftone.c:180-183 | no partial sum in a cell exceeds the bound either, so no 16-bit store loses a value |
| Halftoner.Halftoner.DiffuseLine | src/halftone/halftone.c:163-187 | the in-place serpentine scan over two rows of one buffer paints the specified dots, carries the specified cells, exchanges the rows and writes nothing past them or past the packed row |
| Halftoner.ScatterPixel | src/halftone/halftone.c:180-183 | the four stores of one pixel, with the cast to 16 bits |
| Halftoner.Halftoner.HalftoneLine | src/halftone/halftone.c:189-226 | every method paints exactly the dots of its rule into the packed row; error diffusion adds the line to those its cells stand for, and the other methods change no state; the rules are ThresholdDot, OrderedDot, BlueNoiseDot and DiffusedDot of HalftonerTheory |
| Halftoner.Halftoner.Init | src/halftone/halftone.c:114-149 | fails exactly when error diffusion gets no buffer or too small a one; otherwise the screen is the Bayer or clustered one of the right cell size, or the two error rows lie one after the other in the buffer, cleared |
| Halftoner.Halftoner.Reset | src/halftone/halftone.c:151-156 | one memset of two rows from the current row on: those cells are zero, all others as before, and the carried errors forgotten |
| Halftoner.ResetStaysInsideWhen | src/halftone/halftone.c:140-156 | that memset lies inside the buffer exactly when the rows have been exchanged an even number of times since init, or the buffer has room for a third row; in a buffer of the size asked for, exactly after an even number of diffused lines |
| Halftoner.ResetAfterOneLine | src/halftone/halftone.c:140-187 | init with the size asked for, one line, and the memset would run a whole row past the end |
| Halftoner.DiffusionKeeps | src/halftone/halftone.c:163-187 | in every state of the halftoner: the extremes of the next line print as they must, and the ink of the lines since the reset is conserved |
| Halftoner.PrintedDots | src/halftone/halftone.c:158-187 | the dots counted for a line are the black pixels of the row it was printed to |
| Halftoner.ScreenLine | src/halftone/halftone.c:195-221 | the threshold loops paint a pixel exactly when its ink exceeds the threshold under it |
| HalftonerTheory.ThresholdDot | src/halftone/halftone.c:195-201 | the plain method prints a pixel exactly when its ink exceeds the threshold parameter |
| HalftonerTheory.OrderedDot | src/halftone/halftone.c:202-212 | an ordered screen compares a pixel with the entry in row y and column x, each modulo the cell |
| HalftonerTheory.BlueNoiseDot | src/halftone/halftone.c:213-221 | blue noise compares it with the mask entry in row y mod 64 and column x mod 64 |
| HalftonerTheory.DiffusedDot | src/halftone/halftone.c:163-187 | in every state of the object, error diffusion prints a pixel exactly when its value in the equations of the lines since the reset is at least 128 |
| HalftonerTheory.OrderedWindow | src/halftone/halftone.c:202-212 | lines of constant ink, printed by the object with an ordered screen, have exactly the dot count in every window of the size of the cell |
| HalftonerTheory.BlueNoiseWindow | src/halftone/halftone.c:213-221 | with a generated mask they have exactly ceil(4096 v / 255) dots in every 64 by 64 window |
| Bits.SetBlack | src/halftone/halftone.c:158-161 | one pixel of the packed row turns black and no other changes |
| Screens.Bayer | src/halftone/halftone.c:9-23 | in-place doubling fills the matrix with the recursively defined ranks, and nothing beyond it |
| Screens.BayerInjective | src/halftone/halftone.c:8-22 | different cells have different ranks |
| Screens.BayerIsPermutation | src/halftone/halftone.c:8-23 | the ranks of size 2^k hold each of 0..n*n-1 exactly once, for every k |
| Screens.BayerMatrixIsPermutation | src/halftone/halftone.c:9-23 | so does the matrix of bytes that the doubling builds |
| Screens.BytesHoldBayerUpTo16 | src/halftone/halftone.c:9-23 | the byte cells are what limits that matrix to 16 by 16 |
| ScreensTheory.BayerBits | src/halftone/halftone.c:8-23 | the rank of a cell in closed form: its bits are those of y and of x xor y in turn, in reverse order, for every k |
| Screens.Clustered | src/halftone/halftone.c:30-71 | the ranks follow a greedy order: each rank goes to a free cell with the least key for its dot, the first on ties |
| Screens.FirstFree | src/halftone/halftone.c:38-67 | the scan over free cells finds that cell; one always exists |
| Screens.GreedyOrderIsUnique | src/halftone/halftone.c:36-70 | only one greedy order exists |
| ScreensTheory.OffsetIsShortest | src/halftone/halftone.c:46-60 | the wrapped coordinate difference is the shortest way round the torus |
| ScreensTheory.NearerComesFirst | src/halftone/halftone.c:61-66 | for each dot the nearer cell on the torus comes first; only cells at the same distance are told apart by slant and then by index (iff) |
| ScreensTheory.DotsAreHalfACellApart | src/halftone/halftone.c:34 | in a cell of even size the two dots are half a cell apart both ways, so the cells around them lie alike |
| Screens.OrderedRanksArePermutation | src/halftone/halftone.c:36-70 | each of 0..c*c-1 occurs exactly once, for every cell size |
| DotCounts.ScaleMatrix | src/halftone/halftone.c:74-79 | every rank becomes its threshold |
| DotCounts.CutIsExact | src/halftone/halftone.c:73-79 | ink v exceeds the threshold of a rank if and only if 2 v levels > (2 rank + 1) 256: no rounding is left over |
| DotCounts.CountCuts | src/halftone/halftone.c:74-79 | constant ink exceeds the threshold of a rank exactly when the rank is below the dot count |
| DotCounts.CountIsFair | src/halftone/halftone.c:74-79 | the dot count is within half a dot of the ideal share |
| DotCounts.SolidBlack | src/halftone/halftone.c:73-79 | solid black is all black exactly when the screen has fewer than 128 cells |
| DotCounts.WindowHasExactCount | src/halftone/halftone.c:202-211 | on constant ink every c by c window, wherever it lies, has exactly that count of dots, for any permutation of ranks |
| DotCounts.WindowCount | src/halftone/halftone.c:202-221 | ink that exceeds the thresholds of so many ranks prints so many dots in every window |
| BlueNoise.Bump | scripts/gen-bluenoise.py:34-37 | the loop over the kernel adds the closed-form contribution to every cell |
| BlueNoiseEnergy.BumpIsKernel | scripts/gen-bluenoise.py:34-37 | that contribution is the kernel weight at the wrapped distance on the torus, and nothing outside the radius |
| BlueNoiseEnergy.BumpIsSymmetric | scripts/gen-bluenoise.py:34-37 | contributions are symmetric and within 0..1 |
| BlueNoiseEnergy.EnergyIsBounded | scripts/gen-bluenoise.py:39-51 | every energy is within the range the two selectors start from |
| BlueNoise.MakeEnergy | scripts/gen-bluenoise.py:27-32 | the initial energy map is the kernel sum over the set cells |
| BlueNoise.Flip | scripts/gen-bluenoise.py:61-69 | a flip and its bump keep the incremental map equal to the recomputed one |
| BlueNoise.TightestCluster | scripts/gen-bluenoise.py:39-44 | the first set cell of greatest true energy; -1 only when no cell is set |
| BlueNoise.LargestVoid | scripts/gen-bluenoise.py:46-51 | the first clear cell of least true energy; -1 only when all are set |
| BlueNoise.Relax | scripts/gen-bluenoise.py:59-69 | in exact arithmetic the relax loop ends; it is a run of moves, each of the tightest cluster to the largest void, until that void is its own place; the number of ones is preserved and the map agrees |
| BlueNoiseEnergy.RelaxingLowers | scripts/gen-bluenoise.py:59-69 | every turn of the loop lowers the total energy, or keeps it and lowers the sum of the indices |
| BlueNoise.RelaxingIsUnique | scripts/gen-bluenoise.py:59-69 | there is only one such run from a pattern |
| BlueNoise.RankClusters | scripts/gen-bluenoise.py:72-79 | phase 1 removes the tightest clusters one by one and ranks them downwards from ones-1 to 0 |
| BlueNoise.RankVoids | scripts/gen-bluenoise.py:80-87 | phases 2 and 3 fill the largest voids and rank them upwards to the last cell |
| BlueNoise.Generate | scripts/gen-bluenoise.py:53-90 | the ranks are a permutation that is a void-and-cluster order around a relaxed pattern, and the thresholds are those of the ranks |
| BlueNoise.MaskIsDetermined | scripts/gen-bluenoise.py:53-90 | whatever meets what the generator promises of an initial pattern is the same mask |
| BlueNoise.ThresholdsAreEven | scripts/gen-bluenoise.py:89-90 | each threshold 0..254 occurs 16 or 17 times in the mask |
| BlueNoise.MaskWindowHasExactCount | scripts/gen-bluenoise.py:89-90 | on constant ink v every 64 by 64 window of the mask, wherever it lies, has exactly ceil(4096 v / 255) dots |
| Counting.Pigeonhole | src/qpdl/codec11.c:419-432 | a list of distinct elements is no longer than a list that holds them all |

## Left out

- JobEncoder.Encoder.Emit: a sink that fails is not modelled, so no error of the sink is passed on.
- JobEncoder.Encoder.BeginPage: the caller's one workspace, cut into three slices, is three separate buffers whose old contents are arbitrary except for the cleared rows; the model does not capture that they are adjacent.
- JobEncoder.Encoder.BeginJob: null pointers for the encoder itself or the sink are not modelled; a string that would contain a zero byte cannot occur in the source and counts as not plain text.
- JobEncoder.Encoder.EndPage: the page, band and byte counters are unbounded, where the source has 32-bit and size_t counters.
- JobEncoder.Encoder.EmitLine: printf formatting is replaced by the bytes it produces; the buffer limit of 256 is kept and shown never to be hit.
- Halftoner.Halftoner.Init: the caller's scratch buffer is counted in whole 16-bit cells; an odd byte at its end and its alignment are not modelled.
- Halftoner.Halftoner.HalftoneLine: the blue-noise mask is any 64 by 64 table of bytes given to the constructor; the table in src/halftone/bluenoise64.c is not part of this model.
- Screens.Clustered: the keys are exact reals, where the source has doubles, so ScreensTheory.NearerComesFirst orders the cells without rounding.
- BlueNoise.Relax: energies are exact reals; with rounded sums the agreement with recomputation is only approximate and termination is not claimed.
- BlueNoise.Generate: the seeded random choice of the first pattern is any pattern with the right number of ones; the kernel is any symmetric one with positive weights of at most 1, and the file output is left out.
- Records.PageHeaderExact: the record writers are functions that return the bytes, where the source stores them one by one into the caller's buffer; the order of those stores is not captured.
- Codec11Table.ChooseTable: bands of 2^32 bytes or more are excluded, as the interface does (`include/m2022/qpdl.h:154-155`: positions fit 32 bits); Codec11Table.CreditLoop and Codec11Table.SlotInsert likewise.
- Name tables for papers, feeders, methods and presets, the error strings and the parameter defaults: lookups without structure.
- Tone curves and colour conversion (src/raster): floating point whose rounding is the point.
- USB, CUPS and PAPPL glue, service discovery, status bits, JSON and image headers: input and output around the modelled cores.
