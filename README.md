# A verified model of an MPEG-TS / SCTE-35 stream analyzer

This project models, in Dafny, the core of a Go analyzer for MPEG transport
streams carried over RTP, UDP and pcap captures, plus the Python helper that
estimates the pre-roll of SCTE-35 splices. Modelled are:

- the bit-level reader and writer that every parser uses (`BitReader`, `BitWriter`);
- the 4-byte transport-stream header, the adaptation field, the PES header, the
  PSI section header, PAT and PMT tables and the SCTE-35 splice commands;
- splitting a buffer into 188-byte packets, the RTP header and the protocol
  parser chain;
- the per-PID continuity-counter monitor and the program clock (PCR)
  interpolation;
- SMPTE time codes (drop frame and non-drop frame) and RTP-to-UTC conversion;
- the pcap file reader with its Ethernet, IPv4 and UDP headers and buffer queue;
- the hidden-field buffer `simpleBuf`;
- the script controller that builds plugin parameters from a script and
  command-line options;
- the video data processor that matches splice points with IDR frames;
- the pre-roll estimator.

Byte-level formats are datatypes decoded by functions over sequences of bytes,
where a byte is an integer from 0 to 255.
Round-trip lemmas connect each decoder to an encoder or to a bit layout.
Objects that the program updates in place are classes, with methods proved
against specification functions: the bit reader and writer, the clock, the
continuity monitor, the buffer, the pcap reader, the controller and the
processor.

## Model

| member | source | states |
|---|---|---|
| BitReader.GetMask | analyzers/src/common/bsReader.go:115-126 | 0 gives -1 (all bits kept) and 1..8 give a mask one less than 2^n |
| BitReader.BsReader.constructor | analyzers/src/common/bsReader.go:18-20 | a fresh reader starts at byte 0, offset 8, bit position 0 over the buffer's bits |
| BitReader.BsReader.GetRemainedBuffer | analyzers/src/common/bsReader.go:22-25 | returns the bytes from the current byte position on |
| BitReader.BsReader.RemainedBits | analyzers/src/common/bsReader.go:22-25 | on a byte boundary the remaining bytes' bits are exactly the unread bits |
| BitReader.BsReader.ReadBits | analyzers/src/common/bsReader.go:64-83 | n > 0 bits are the big-endian value of the next n bits and advance the cursor by n; n <= 0 reads 0 and moves nothing |
| BitReader.BsReader.PeekBits | analyzers/src/common/bsReader.go:85-93 | returns the value ReadBits would return and leaves byte position and offset unchanged |
| BitReader.BsReader.ReadLIBytes | analyzers/src/common/bsReader.go:56-62 | the little-endian value of the next n bytes (0 when n <= 0), cursor advanced by 8n |
| BitReader.BsReader.ReadExpGolomb | analyzers/src/common/bsReader.go:103-113 | Ok exactly when the Exp-Golomb code at the cursor is complete; the value is 2^z + next z bits - 1 and the cursor is after the code |
| BitReader.BsReader.ReadZeroRun | analyzers/src/common/bsReader.go:105-111 | counts the zero bits before the first 1 and consumes that 1 when present |
| BitReader.ExpGolombRead | analyzers/src/common/bsReader.go:103-113 | z leading zeros followed by a 1 and z bits decode to 2^z + rest - 1, ending 2z + 1 bits on |
| BitReader.LeadingZerosExact | analyzers/src/common/bsReader.go:105-111 | a run of k zeros ended by a 1 or the buffer's end is exactly the leading-zero count |
| BitReader.ReadHex | analyzers/src/common/bsReader.go:39-45 | the next n bytes as two-digit lowercase hex joined by single spaces, cursor advanced by 8n |
| BitReader.HexBytesStep | analyzers/src/common/bsReader.go:41-43 | reading one more byte appends its two hex digits to the list |
| BitReader.ReadAcross | analyzers/src/common/bsReader.go:66-75 | the masked rest of the current byte shifted left plus the recursive read equal the n-bit field |
| BitReader.ReadLowBits | analyzers/src/common/bsReader.go:67-68 | the current byte masked with getMask(offset) is the field of its offset low bits |
| BitReader.ReadMiddleBits | analyzers/src/common/bsReader.go:76-80 | the within-byte mask and shift give the n-bit field at the cursor |
| BitReader.LittleEndianStep | analyzers/src/common/bsReader.go:58-60 | adding byte i shifted by 8i extends the little-endian value of i bytes to i + 1 |
| BitWriter.BsWriter.constructor | analyzers/src/common/io/bsWriter.go:63-65 | a zeroed buffer of the given size with the cursor at byte 0, offset 8 |
| BitWriter.WriteBitsTo | analyzers/src/common/io/bsWriter.go:10-40 | pure mirror of writeBits: buffer length kept and the bit cursor advanced by exactly n |
| BitWriter.BsWriter.WriteBits | analyzers/src/common/io/bsWriter.go:10-40 | the new buffer and cursor are WriteBitsTo of the old ones, earlier bytes untouched |
| BitWriter.WriteBitsToBits | analyzers/src/common/io/bsWriter.go:10-40 | on a buffer blank after the cursor, a value that fits (or any value at a byte boundary) lands as its n-bit pattern at the cursor |
| BitWriter.WriteBitsToBlank | analyzers/src/common/io/bsWriter.go:10-40 | writing keeps every bit after the new cursor zero |
| BitWriter.AcrossChain | analyzers/src/common/io/bsWriter.go:26-33 | writing the high part into the current byte and the masked low part after it splices the whole n-bit pattern |
| BitWriter.BsWriter.Write | analyzers/src/common/io/bsWriter.go:43-45 | appends the n-bit pattern of x to the written bits when x fits or the cursor is on a byte boundary; otherwise the state is WriteBitsTo's |
| BitWriter.BsWriter.WriteByte | analyzers/src/common/io/bsWriter.go:47-49 | Write with 8 bits; from a byte boundary it fills exactly one byte |
| BitWriter.BsWriter.WriteShort | analyzers/src/common/io/bsWriter.go:51-53 | Write with 16 bits |
| BitWriter.BsWriter.WriteInt | analyzers/src/common/io/bsWriter.go:55-57 | Write with 32 bits |
| StreamExamples.ReadPcrExample | analyzers/src/common/common_test.go:57-73 | reading 33, 6, 9 bits of 0e 26 e0 33 7e 11 gives 474857574, 63, 17, with position 4, offset 7 and 2 bytes remaining after the first read |
| StreamExamples.ReadExpGolombExample | analyzers/src/plugins/common/common_test.go:153-159 | three Exp-Golomb reads of 00010000 11001010 give 7, 2, 4 |
| StreamExamples.WriteExample | analyzers/src/common/common_test.go:75-88 | the writes 0x47, 0, 0, 0, 33/13, 500/16, 100000/32 into 9 bytes give 47 00 21 01 f4 00 01 86 a0 |
| TsHeaders.ReadTsHeader | analyzers/src/plugins/avContainer/model/tsHeader.go:18-31 | the result is DecodeTsHeader: a wrong sync byte or short buffer is an error, otherwise the 1/1/1/13/2/2/4-bit fields, all in range |
| TsHeaders.ReadHeaderFields | analyzers/src/plugins/avContainer/model/tsHeader.go:23-30 | the seven fields are read from bits 8..31 in order |
| TsHeaders.Serialize | analyzers/src/plugins/avContainer/model/tsHeader.go:34-59 | always 4 bytes starting with 0x47; when the fields fit, the bytes are the header's packed bits |
| TsHeaders.ReadAfterSerialize | analyzers/src/plugins/avContainer/model/tsHeader.go:18-59 | decoding the serialized bytes gives the header back |
| TsHeaders.SerializeAfterRead | analyzers/src/plugins/avContainer/model/tsHeader.go:18-59 | serializing a decoded header gives the original 4 bytes back |
| TsHeaders.HeaderFits | analyzers/src/plugins/avContainer/model/tsHeader.go:53-56 | a header fits exactly when every field fits its bit width |
| TsHeaders.HeaderExample | analyzers/src/plugins/avContainer/model/avContainerModel_test.go:147-153 | 47 03 8f 1f decodes to pid 911, afc 1, cc 15 and clear flags |
| TsHeaders.DecodeTsHeader | analyzers/src/plugins/avContainer/model/tsHeader.go:18-31 | the header as a function of the bytes: a missing or wrong sync byte and fewer than 4 bytes are errors, otherwise the seven fields at their bit positions; ReadTsHeader equals it, and ReadAfterSerialize/SerializeAfterRead make it the inverse of Serialize |
| TsSplit.TsParse | analyzers/src/plugins/common/protocol/ts.go:16-28 | floor(len/188) results, the i-th being bytes 188i..188(i+1), fewer than 188 bytes left over |
| TsSplit.PacketsJoin | analyzers/src/plugins/common/protocol/ts.go:16-28 | the packets are 188 bytes each and concatenate to the buffer's prefix |
| Rtp.RtpParse | analyzers/src/common/protocol/rtp.go:12-48 | the result is DecodeRtp: bad version, extension or short buffer are errors, otherwise the payload after the 12 + 4*CSRC header less the padding, with the five header fields |
| Rtp.ReadFixedRest | analyzers/src/common/protocol/rtp.go:20-27 | reads the rest of the 96-bit fixed header as FixedHeader |
| Rtp.SkipAndStrip | analyzers/src/common/protocol/rtp.go:29-47 | skips the CSRCs and strips the padding as DecodeBody does |
| Rtp.DecodePacket | analyzers/src/common/protocol/rtp.go:12-48 | a packet built from a header, CSRCs, payload and padding decodes back to that payload and those fields |
| Rtp.VersionChecked | analyzers/src/common/protocol/rtp.go:19 | a version other than 2 is rejected |
| Rtp.DecodeRtp | analyzers/src/common/protocol/rtp.go:12-48 | the parse as a function of the bytes, in the code's error order (an empty buffer, the version, fewer than 12 bytes, the CSRC list past the end, the extension bit, a padding count past the payload); RtpParse equals it and DecodePacket proves that a built packet decodes back to its header and payload |
| ProtocolParser.ParseWithParsersIsStages | analyzers/src/plugins/common/protocol/parser.go:7-23 | the recursive chain equals running every parser in turn over all outputs of the previous one |
| ProtocolParser.ChainEachIsStages | analyzers/src/plugins/common/protocol/parser.go:16-22 | the per-item loop over the first parser's outputs equals running the stages |
| ProtocolParser.StageConcat | analyzers/src/plugins/common/protocol/parser.go:18-21 | a stage over a concatenation is the concatenation of the stages |
| ProtocolParser.RunStagesConcat | analyzers/src/plugins/common/protocol/parser.go:18-21 | running all stages distributes over concatenation |
| ProtocolParser.TwoParsers | analyzers/src/plugins/common/protocol/parser.go:16-22 | two parsers give the second applied to each output of the first |
| ProtocolParser.ParseWithParsers | analyzers/src/plugins/common/protocol/parser.go:7-23 | no parser gives the input back, one parser its output, more parsers feed each output of the first through the rest in order; ParseWithParsersIsStages proves it equal to running the stages one after another |
| InputMonitor.Monitor.constructor | analyzers/src/plugins/avContainer/tsdemux/inputMonitor.go:31-35 | starts with an empty continuity-counter map and no errors |
| InputMonitor.Monitor.CheckTsHeader | analyzers/src/plugins/avContainer/tsdemux/inputMonitor.go:19-29 | records the packet's counter for its pid and logs one error, with the expected (prev + 1) mod 16, exactly when a known non-null pid's counter does not follow (same counter when afc is 2) |
| InputMonitor.FirstPacketNoError | analyzers/src/plugins/avContainer/tsdemux/inputMonitor.go:21 | the first packet of a pid never raises an error |
| InputMonitor.NullPidNoError | analyzers/src/plugins/avContainer/tsdemux/inputMonitor.go:23 | the null pid 8191 never raises an error |
| InputMonitor.CheckAllLookup | analyzers/src/plugins/avContainer/tsdemux/inputMonitor.go:28 | after a run, each pid maps to its last packet's counter, or keeps its old entry |
| InputMonitor.NoErrorsIffContinuous | analyzers/src/plugins/avContainer/tsdemux/inputMonitor.go:19-29 | a run from an empty map logs no error exactly when every pid's counters are continuous |
| InputMonitor.CheckOneMore | analyzers/src/plugins/avContainer/tsdemux/inputMonitor.go:19-29 | one more packet updates the map and adds one error exactly on a discontinuity |
| InputMonitor.HasCcError | analyzers/src/plugins/avContainer/tsdemux/inputMonitor.go:21-23 | a PID seen before, other than the null PID 8191, breaks continuity when a packet that is not adaptation-only does not carry the previous counter plus one modulo 16, or an adaptation-only packet changes the counter; CheckTsHeader logs exactly these and NoErrorsIffContinuous ties them to continuity |
| ProgramSrcClk.Clock.constructor | analyzers/src/plugins/avContainer/tsdemux/programSrcClk.go:12-14 | empty records, no extrapolation, empty stream counts |
| ProgramSrcClk.Clock.UpdatePcrRecord | analyzers/src/plugins/avContainer/tsdemux/programSrcClk.go:16-26 | -1 changes nothing; any other value is appended with its packet count, which becomes curMaxLoc |
| ProgramSrcClk.Clock.RequestPcr | analyzers/src/plugins/avContainer/tsdemux/programSrcClk.go:28-71 | records the stream's count for pid != -1, answers Request and sets the extrapolation flag as the source does; records unchanged |
| ProgramSrcClk.FirstAtOrAfter | analyzers/src/plugins/avContainer/tsdemux/programSrcClk.go:46-52 | the first record index at or after the packet count, or none |
| ProgramSrcClk.FindId0 | analyzers/src/plugins/avContainer/tsdemux/programSrcClk.go:45-52 | the loop finds that first index, or 0 |
| ProgramSrcClk.FirstIndex | analyzers/src/plugins/avContainer/tsdemux/programSrcClk.go:46-52 | any index with all earlier records before the count and itself at or after it is the first index |
| ProgramSrcClk.AtSingleRecord | analyzers/src/plugins/avContainer/tsdemux/programSrcClk.go:36-38 | one record at exactly this packet gives its PCR and 0 |
| ProgramSrcClk.TooFewRecords | analyzers/src/plugins/avContainer/tsdemux/programSrcClk.go:41-43 | otherwise fewer than two records give (-1, 1) |
| ProgramSrcClk.BeforeFirstRecord | analyzers/src/plugins/avContainer/tsdemux/programSrcClk.go:53-67 | a packet at or before the first record is not ready: (-1, 1) |
| ProgramSrcClk.InsideBracket | analyzers/src/plugins/avContainer/tsdemux/programSrcClk.go:69-71 | a packet between two records is interpolated with truncating division, lies between their PCRs when they increase, and ends extrapolation |
| ProgramSrcClk.Extrapolation | analyzers/src/plugins/avContainer/tsdemux/programSrcClk.go:53-63 | pid -1 or a packet after every record extrapolates from the last two records at constant rate, giving the last PCR at the last record |
| ProgramSrcClk.ExtrapolatedStart | analyzers/src/plugins/avContainer/tsdemux/programSrcClk.go:58-62 | extrapolating for a real pid switches the extrapolation flag on |
| ProgramSrcClk.Request | analyzers/src/plugins/avContainer/tsdemux/programSrcClk.go:28-71 | requestPcr's answer for given records: the single matching record, not ready, extrapolated or interpolated, with the last two records at one packet count a division error; RequestPcr equals it and AtSingleRecord, TooFewRecords, BeforeFirstRecord, InsideBracket and Extrapolation give its cases |
| ProgramSrcClk.Interpolate | analyzers/src/plugins/avContainer/tsdemux/programSrcClk.go:68 | the PCR on the line between the bracketing records, the product divided with truncation; InsideBracket proves it lies between their PCRs |
| ProgramSrcClk.Extrapolate | analyzers/src/plugins/avContainer/tsdemux/programSrcClk.go:54-56 | the last PCR plus the packets since the last record times the truncated step of the last two records; Extrapolation states it |
| AdaptationFields.ParseAdaptationField | analyzers/src/plugins/avContainer/model/adaptationField.go:19-70 | the result is DecodeAf: length 0 gives the empty field; otherwise the flags, PCR/OPCR as base*300 + extension, splice point, private bytes and the stuffing left over, or an error when the buffer ends early |
| AdaptationFields.ParseAfFields | analyzers/src/plugins/avContainer/model/adaptationField.go:33-69 | reads the flag byte and the optional groups as DecodeAfFields |
| AdaptationFields.ReadOptional | analyzers/src/plugins/avContainer/model/adaptationField.go:43-65 | reads the groups whose flags are set, in order, and stops after them |
| AdaptationFields.ReadClock | analyzers/src/plugins/avContainer/model/adaptationField.go:44-46 | 33 bits of base, 6 reserved bits and 9 bits of extension give base*300 + extension |
| AdaptationFields.ReadPrivate | analyzers/src/plugins/avContainer/model/adaptationField.go:59-65 | a length byte followed by that many bytes, each kept as one character |
| AdaptationFields.ReadRunes | analyzers/src/plugins/avContainer/model/adaptationField.go:61-63 | the loop reads n bytes as n characters below 0x100 |
| AdaptationFields.Serialize | analyzers/src/plugins/avContainer/model/adaptationField.go:73-144 | length 0 gives the single byte 0; otherwise a buffer of the computed size holding length, flags, clocks, splice point, private data and 0xff stuffing, zero after the bytes actually written |
| AdaptationFields.ComputeSize | analyzers/src/plugins/avContainer/model/adaptationField.go:78-103 | 2 plus 6 per clock, 1 for the splice point, the private data's UTF-8 length plus 1, and the stuffing |
| AdaptationFields.WriteFields | analyzers/src/plugins/avContainer/model/adaptationField.go:105-141 | the writes lay down exactly the field's slots in order |
| AdaptationFields.WriteStuffing | analyzers/src/plugins/avContainer/model/adaptationField.go:137-141 | n bytes of 0xff are appended |
| AdaptationFields.RoundTrip | analyzers/src/plugins/avContainer/model/adaptationField.go:19-144 | parsing the field's layout (one byte per private character) gives the field back |
| AdaptationFields.RoundTripAscii | analyzers/src/plugins/avContainer/model/adaptationField.go:19-144 | with private data below 0x80, parsing what Serialize writes gives the field back |
| AdaptationFields.AsciiSlots | analyzers/src/plugins/avContainer/model/adaptationField.go:96-98 | for ASCII private data the UTF-8 and byte layouts coincide |
| AdaptationFields.DecodedLength | analyzers/src/plugins/avContainer/model/adaptationField.go:27-32 | a decoded field's length is the first byte |
| AdaptationFields.WideDataNotRead | analyzers/src/plugins/avContainer/model/adaptationField.go:96-98 | private data with a character of 0x80 or more is written with a byte length and UTF-8 length that do not parse back to the same field |
| AdaptationFields.DecodeAf | analyzers/src/plugins/avContainer/model/adaptationField.go:19-70 | the adaptation field as a function of the bits; RoundTrip proves it the inverse of the field's byte layout and DecodedLength gives its length |
| PesHeaders.ParseOptionalHeader | analyzers/src/plugins/avContainer/model/pesHeader.go:37-119 | the result is DecodeOptionalHeader: marker bits other than 10, a forbidden flag 1, a PTS/DTS prefix mismatch or a short buffer are errors, otherwise scrambling, alignment, length headerLen + 3 and the timestamps |
| PesHeaders.ReadTimestamps | analyzers/src/plugins/avContainer/model/pesHeader.go:66-113 | flag 3 reads a PTS with prefix 3 and a DTS with prefix 1, flag 2 a PTS with prefix 2 copied to the DTS, flag 0 none |
| PesHeaders.ReadTimestamp | analyzers/src/plugins/avContainer/model/pesHeader.go:68-80 | a 4-bit prefix that must match, then the 33-bit timestamp in 40 bits |
| PesHeaders.ReadTimestampBits | analyzers/src/plugins/avContainer/model/pesHeader.go:74-79 | 3, 15 and 15 value bits with marker bits between them make the timestamp |
| PesHeaders.TimestampOfParts | analyzers/src/plugins/avContainer/model/pesHeader.go:74-78 | the shifted sum of the three parts is the 33-bit timestamp |
| PesHeaders.TimestampFieldRead | analyzers/src/plugins/avContainer/model/pesHeader.go:68-86 | a prefix mismatch names the PTS or DTS error with the prefix read and the flag |
| PesHeaders.OptionalHeaderRead | analyzers/src/plugins/avContainer/model/pesHeader.go:44-118 | with the marker right and the timestamps read, the header is scrambled/aligned/headerLen + 3 and the timestamps |
| PesHeaders.MarkerRejected | analyzers/src/plugins/avContainer/model/pesHeader.go:44-47 | the marker error occurs exactly when the first two bits are not 10 |
| PesHeaders.ForbiddenFlagRejected | analyzers/src/plugins/avContainer/model/pesHeader.go:109-112 | flag 1 is rejected |
| PesHeaders.OptionalHeaderParsed | analyzers/src/plugins/avContainer/model/pesHeader.go:37-119 | every accepted header has the right marker, a flag other than 1, length between 3 and 258, and the timestamps at bits 28 and 68 as the flag says |
| PesHeaders.TimestampsInRange | analyzers/src/plugins/avContainer/model/pesHeader.go:74-91 | parsed timestamps are -1 together or both 33-bit values |
| PesHeaders.TimestampRoundTrip | analyzers/src/plugins/avContainer/model/pesHeader.go:68-79 | a prefix and a 33-bit timestamp laid out with marker bits read back as the same prefix and timestamp |
| PesHeaders.ParsePESHeader | analyzers/src/plugins/avContainer/model/pesHeader.go:121-154 | the result is DecodePes: a start code other than 000001 or an optional-header error is an error; otherwise stream id, section length (PES length less the optional header, or the remaining bytes when it is 0) and header length 6 + optional length |
| PesHeaders.PesPrefix | analyzers/src/plugins/avContainer/model/pesHeader.go:127-131 | a wrong start code is StartCodeMismatch |
| PesHeaders.StartCodeRejected | analyzers/src/plugins/avContainer/model/pesHeader.go:127-131 | the start-code error occurs exactly when the first three bytes are not 00 00 01 |
| PesHeaders.PesOptionalFails | analyzers/src/plugins/avContainer/model/pesHeader.go:138-144 | an optional-header error is passed on |
| PesHeaders.PesRead | analyzers/src/plugins/avContainer/model/pesHeader.go:132-153 | the successful result in terms of the fields read |
| PesHeaders.PesParsed | analyzers/src/plugins/avContainer/model/pesHeader.go:121-154 | every accepted PES header has the start code, and its header length is 9 + the header-length byte |
| PesHeaders.DecodeOptionalHeader | analyzers/src/plugins/avContainer/model/pesHeader.go:37-119 | the optional header as a function of the bits; MarkerRejected, ForbiddenFlagRejected, OptionalHeaderParsed and TimestampsInRange give its errors and results |
| PesHeaders.DecodePes | analyzers/src/plugins/avContainer/model/pesHeader.go:121-154 | the PES header as a function of the bits; StartCodeRejected, PesOptionalFails and PesParsed give its errors and results |
| PesExample.AlignedHeader | analyzers/src/plugins/avContainer/model/pesHeader.go:160-162 | CreateOptionalPESHeader: not scrambled and data aligned |
| PesExample.NoTimestampExample | analyzers/src/plugins/avContainer/model/avContainerModel_test.go:87-93 | 00 00 01 ea 17 b2 8f 00 00 parses to stream 234, section length 6063, optional length 3, no timestamps |
| PesExample.EqualTimestampExample | analyzers/src/plugins/avContainer/model/avContainerModel_test.go:88-94 | the PTS-only vector gives 6058 and PTS = DTS = 698077 |
| PesExample.DiffTimestampExample | analyzers/src/plugins/avContainer/model/avContainerModel_test.go:89-95 | the PTS/DTS vector gives 32165, PTS 705277 and DTS 694477 |
| PesExample.ZeroLengthExample | analyzers/src/plugins/avContainer/model/avContainerModel_test.go:90-96 | PES length 0 takes the section length from the remaining bytes: 5 |
| PesExample.ParsePesExamples | analyzers/src/plugins/avContainer/model/avContainerModel_test.go:79-109 | ParsePESHeader on the four vectors gives the four expected headers |
| SpliceCommands.ReadSpliceTime | analyzers/src/plugins/avContainer/model/scte35SpliceCommand.go:171-184 | for a splice time: flag 1 gives the 33-bit time after 6 reserved bits (40 bits), flag 0 gives -1 after 8 bits; for UTC time the 32-bit value; an error when bits run out |
| SpliceCommands.SpliceTimeRead | analyzers/src/plugins/avContainer/model/scte35SpliceCommand.go:171-184 | the read succeeds exactly when the bits it needs are there; -1 exactly when the flag is clear; times are below 2^33 (or 2^32 for UTC) |
| SpliceCommands.SpliceTimeRoundTrip | analyzers/src/plugins/avContainer/model/scte35SpliceCommand.go:171-184 | a time laid out as splice_time() reads back as the same time and width |
| SpliceCommands.ReadBreakDuration | analyzers/src/plugins/avContainer/model/scte35SpliceCommand.go:186-191 | auto_return, 6 reserved bits and the 33-bit duration |
| SpliceCommands.BreakDurationRead | analyzers/src/plugins/avContainer/model/scte35SpliceCommand.go:186-191 | succeeds exactly when 40 bits remain, with the auto-return bit and a 33-bit duration |
| SpliceCommands.BreakDurationRoundTrip | analyzers/src/plugins/avContainer/model/scte35SpliceCommand.go:186-191 | a break duration laid out as bits reads back unchanged |
| SpliceCommands.ReadSpliceEvent | analyzers/src/plugins/avContainer/model/scte35SpliceCommand.go:104-158 | the result is EventAt: id and cancel flag, then for a live event the four flags, the time or the components, the optional break duration and the three trailing fields |
| SpliceCommands.ReadEventId | analyzers/src/plugins/avContainer/model/scte35SpliceCommand.go:105-108 | the 32-bit id, the cancel flag and 7 reserved bits |
| SpliceCommands.EventAtSplits | analyzers/src/plugins/avContainer/model/scte35SpliceCommand.go:110-157 | a cancelled event carries only its id after 40 bits; otherwise the body follows |
| SpliceCommands.CancelledEventRead | analyzers/src/plugins/avContainer/model/scte35SpliceCommand.go:155-157 | a parsed cancelled event is exactly the id with everything else empty |
| SpliceCommands.ReadEventBody | analyzers/src/plugins/avContainer/model/scte35SpliceCommand.go:111-154 | reads the flags, the timing, the tail as EventBody |
| SpliceCommands.ReadEventFlags | analyzers/src/plugins/avContainer/model/scte35SpliceCommand.go:111-116 | out-of-network, program-splice, duration and immediate flags, then 4 reserved bits |
| SpliceCommands.EventBodyShape | analyzers/src/plugins/avContainer/model/scte35SpliceCommand.go:111-154 | a parsed live event has the id, a clear cancel flag and the four flags as read |
| SpliceCommands.ReadEventTiming | analyzers/src/plugins/avContainer/model/scte35SpliceCommand.go:121-140 | only-time (program splice, not immediate for an insert) reads one splice time; otherwise a count and that many components |
| SpliceCommands.EventTimingShape | analyzers/src/plugins/avContainer/model/scte35SpliceCommand.go:121-140 | only-time gives no components; otherwise time -1 and as many components as the count byte; an immediate insert's components have no time |
| SpliceCommands.ReadComponents | analyzers/src/plugins/avContainer/model/scte35SpliceCommand.go:131-139 | the loop reads the counted components in order, as ComponentsFrom |
| SpliceCommands.ReadComponent | analyzers/src/plugins/avContainer/model/scte35SpliceCommand.go:133-138 | an 8-bit tag, then a splice time unless it is an immediate insert |
| SpliceCommands.ComponentsFromShape | analyzers/src/plugins/avContainer/model/scte35SpliceCommand.go:131-139 | the list grows by exactly the count, keeping the earlier ones |
| SpliceCommands.ImmediateInsertPts | analyzers/src/plugins/avContainer/model/scte35SpliceCommand.go:135-137 | an immediate splice_insert yields no real splice time |
| SpliceCommands.ReadEventEnd | analyzers/src/plugins/avContainer/model/scte35SpliceCommand.go:142-149 | the break duration when its flag is set, then unique program id, avail number and avails expected |
| SpliceCommands.ReadEventTail | analyzers/src/plugins/avContainer/model/scte35SpliceCommand.go:147-149 | the 16/8/8-bit trailing fields |
| SpliceCommands.EventEndKeeps | analyzers/src/plugins/avContainer/model/scte35SpliceCommand.go:142-154 | reading the tail keeps the fields read so far and leaves the break empty without the flag |
| SpliceCommands.ReadSpliceSchedule | analyzers/src/plugins/avContainer/model/scte35SpliceCommand.go:92-102 | a count byte and that many events read as in a schedule, in order |
| SpliceCommands.ReadSpliceEvents | analyzers/src/plugins/avContainer/model/scte35SpliceCommand.go:96-99 | the loop reads the counted events in order, as EventsFrom |
| SpliceCommands.EventsFromStep | analyzers/src/plugins/avContainer/model/scte35SpliceCommand.go:96-99 | one more event read extends the list by that event |
| SpliceCommands.EventsFromStops | analyzers/src/plugins/avContainer/model/scte35SpliceCommand.go:96-99 | a failed event read fails the whole schedule |
| SpliceCommands.ReadTimeSignal | analyzers/src/plugins/avContainer/model/scte35SpliceCommand.go:160-163 | a time_signal is one splice time |
| SpliceCommands.GetSplicePts | analyzers/src/plugins/avContainer/model/scte35SpliceCommand.go:17-85 | null and private give [], an insert its event's times, a time signal its time, a schedule every event's times in order |
| SpliceCommands.ScheduleSplicePts | analyzers/src/plugins/avContainer/model/scte35SpliceCommand.go:27-34 | the loop concatenates each event's times |
| SpliceCommands.EventSplicePts | analyzers/src/plugins/avContainer/model/scte35SpliceCommand.go:51-61 | the event's splice time alone, or every component's time in order |
| SpliceCommands.EventPtsShape | analyzers/src/plugins/avContainer/model/scte35SpliceCommand.go:51-61 | a set splice time gives one time; otherwise one time per component, in order |
| SpliceCommands.EventsPtsConcat | analyzers/src/plugins/avContainer/model/scte35SpliceCommand.go:27-34 | the schedule's times distribute over concatenated event lists |
| SpliceCommands.EventsPtsMembers | analyzers/src/plugins/avContainer/model/scte35SpliceCommand.go:27-34 | a time is in the schedule's list exactly when it belongs to one of its events |
| SpliceCommands.InsertExample | analyzers/src/plugins/avContainer/model/avContainerModel_test.go:118-134 | the test's splice_insert command bytes parse to event 2, out of network, time 3059760, auto-return break 1350000, program id 1, avails 0/1, and its PTS list is [3059760] |
| SpliceCommands.EventAt | analyzers/src/plugins/avContainer/model/scte35SpliceCommand.go:104-158 | a splice event as a function of the bits; EventAtSplits, CancelledEventRead and EventBodyShape give its shape |
| SpliceCommands.CommandPts | analyzers/src/plugins/avContainer/model/scte35SpliceCommand.go:17-85 | the splice times a command announces; GetSplicePts equals it and EventsPtsMembers says which times a schedule lists |
| PsiSections.ReadSectionHeader | src/avContainer/model/PAT.go:40-70 | skips the pointer field, then checks syntax indicator 1, private bit 0, reserved 11, unused 00 and reserved 11 in that order, each mismatch its own error, and reads table id, section length, extension, version and current/next |
| PsiSections.ReadHeaderAt | src/avContainer/model/PAT.go:44-70 | the same header read from any position, as HeaderAt |
| PsiSections.Expect | src/avContainer/model/PAT.go:45-60 | reads n bits and fails with the given error unless they are the expected value |
| PsiSections.HeaderAtStops | src/avContainer/model/PAT.go:44-67 | the first failing check decides the error; a short buffer is a truncation |
| PsiSections.HeaderAtOk | src/avContainer/model/PAT.go:44-70 | when every check passes the header is the five fields read, and 64 bits are consumed |
| PsiSections.ReadyForParse | src/avContainer/model/PAT.go:23-37 | the result is ReadyOf: false with fewer than 2 bytes after the pointer byte, otherwise pointer + 3 + section length <= buffer size |
| PsiSections.ReadyOf | src/avContainer/model/PAT.go:23-37 | PATReadyForParse as written: it counts 3 bytes after the pointer field but not the pointer byte itself |
| PsiSections.ReadyAt | src/avContainer/model/PAT.go:31-36 | with the length readable, ready exactly when pointer + 3 + section length fits in the buffer |
| PsiSections.ReadyIntended | src/avContainer/model/PAT.go:23-37 | the intended check that also counts the pointer byte |
| PsiSections.ReadyOneByteShort | src/avContainer/model/PAT.go:33-36 | the two checks disagree exactly when the section ends one byte past the buffer |
| PatTables.ParsePat | src/avContainer/model/PAT.go:39-93 | the result is PatAt with a 4-bit CRC, as the code reads it: header checks, then one pid-to-program entry per 4 bytes with reserved bits 111, a length that is not a multiple of 4 an error |
| PatTables.ParsePatIntended | src/avContainer/model/PAT.go:39-93 | the same parse with the 32-bit CRC the table carries |
| PatTables.ReadEntries | src/avContainer/model/PAT.go:72-90 | the loop reads entries until the length is used up, as EntriesFrom |
| PatTables.ReadEntry | src/avContainer/model/PAT.go:78-84 | 16-bit program number, reserved 111, 13-bit pid |
| PatTables.EntriesFromOk | src/avContainer/model/PAT.go:74-90 | the entries parse exactly when the length is a non-negative multiple of 4 and every entry has its reserved bits, ending 8n bits on |
| PatTables.EntriesFromMap | src/avContainer/model/PAT.go:84 | the resulting map is the old one updated by each entry in order |
| PatTables.ProgramsOfKeys | src/avContainer/model/PAT.go:84 | the map's keys are exactly the pids read |
| PatTables.ProgramsOfLast | src/avContainer/model/PAT.go:84 | a pid read more than once maps to its last program number |
| PatTables.PatPrograms | src/avContainer/model/PAT.go:39-93 | a parsed PAT maps exactly the pids in its entries, each to its last program number |
| PatTables.CreatePat | src/avContainer/model/PAT.go:95-97 | the table as given, with packet count 0 |
| PatTables.ReadySuffices | src/avContainer/model/PAT.go:23-93 | a buffer reported ready never makes the as-written parse run short |
| PatTables.ReadyIntendedSuffices | src/avContainer/model/PAT.go:23-93 | with the intended check, the parse with the full 32-bit CRC never runs short |
| PatTables.PatExampleParsed | src/avContainer/avContainerTest.go:13-43 | the test's table parses to table id 0, extension 4369, version 0, program 10 on pid 258, CRC 10 as written and 0xAA4AE2D2 as intended |
| PatTables.ExampleOneByteShort | src/avContainer/model/PAT.go:23-37 | the test table less its last byte is reported ready, parses with the 4-bit CRC, and runs short with the 32-bit one |
| PatTables.PatAt | src/avContainer/model/PAT.go:39-93 | the table as a function of the bits and the CRC width; PatPrograms gives its program map and ReadySuffices/ReadyIntendedSuffices say when the bytes suffice |
| PatTables.EntriesFrom | src/avContainer/model/PAT.go:72-90 | the program loop with n bytes left; EntriesFromOk says when it succeeds and EntriesFromMap how it fills the map |
| PmtTables.ParsePmt | src/avContainer/model/PMT.go:46-128 | the result is PmtAt: the section header checks, reserved PCR pid bits, the program descriptors, then streams until the section length is used up, with -1 as CRC; every reserved-bit mismatch or short buffer is an error |
| PmtTables.ReadBody | src/avContainer/model/PMT.go:75-125 | program info then the streams, as BodyAt |
| PmtTables.BodyStep | src/avContainer/model/PMT.go:86-98 | the stream loop is given section length - 9 - 4 - program info length bytes |
| PmtTables.ReadProgram | src/avContainer/model/PMT.go:76-95 | reserved bits, PCR pid, program info length and its descriptors |
| PmtTables.ReadReservedPid | src/avContainer/model/PMT.go:76-80 | reserved 111 and a 13-bit pid |
| PmtTables.ReadProgramInfo | src/avContainer/model/PMT.go:81-85 | reserved 1111, unused 00, 10-bit length |
| PmtTables.ReadDescriptors | src/avContainer/model/PMT.go:89-95 | the loop reads descriptors while the counter is positive, in order, as DescriptorsFrom |
| PmtTables.DescriptorsStep | src/avContainer/model/PMT.go:89-95 | one descriptor read reduces the counter by its length + 2 and appends it |
| PmtTables.ReadDescriptor | src/avContainer/model/PMT.go:130-136 | 8-bit tag, 8-bit length and that many bytes as hex text |
| PmtTables.DescriptorRead | src/avContainer/model/PMT.go:130-136 | the descriptor is the tag and the hex text of the bytes after it |
| PmtTables.ReadHex | src/common/bsReader.go:61-67 | each byte appended as a space and its unpadded lowercase hex digits |
| PmtTables.HexTextBytes | src/common/bsReader.go:61-67 | the text read from the bits is FormatHex of the bytes |
| PmtTables.ReadStreams | src/avContainer/model/PMT.go:97-125 | the loop reads streams until the remaining length is 0, as StreamsFrom |
| PmtTables.StreamsStep | src/avContainer/model/PMT.go:98-125 | one stream read reduces the length by 5 + its ES info length and appends it |
| PmtTables.ReadStream | src/avContainer/model/PMT.go:102-124 | stream type, reserved bits, pid, reserved and unused bits, ES info length, then its descriptors |
| PmtTables.ReadStreamHead | src/avContainer/model/PMT.go:102-113 | the 40-bit stream head with its reserved and unused bit checks |
| PmtTables.CreatePmt | src/avContainer/model/PMT.go:138-140 | the table as given, with packet count 0 and CRC -1 whatever crc32 is passed |
| PmtTables.PmtAt | src/avContainer/model/PMT.go:46-128 | the table as a function of the bits: the section header, the program descriptors and the streams, CRC -1; ParsePmt equals it and PmtExample.ParsePmtExample gives the test's table |
| PmtTables.StreamsFrom | src/avContainer/model/PMT.go:97-125 | the stream loop: it stops only when the bytes left are exactly 0, taking 5 + ES_info_length off for each stream; ReadStreams equals it and StreamsStep states the step |
| PmtExample.PmtExampleParsed | analyzers/src/avContainer/avContainerTest.go:37-55 | the test's section parses to program 10, version 0, no program descriptors, stream pid 32 type 2 and stream pid 33 type 4 with the language descriptor (tag 10) |
| PmtExample.ParsePmtExample | analyzers/src/avContainer/avContainerTest.go:33-59 | ParsePmt on the test's bytes returns that table |
| PmtExample.LanguageText | src/common/bsReader.go:61-67 | bytes 65 6e 67 00 format as " 65 6e 67 0" |
| Buffers.SimpleBuf.constructor | analyzers/src/common/buffer.go:112-115 | no fields and the given bytes |
| Buffers.SimpleBuf.ResetBuf | analyzers/src/common/buffer.go:34-36 | replaces the bytes and keeps the fields |
| Buffers.SimpleBuf.FindField | analyzers/src/common/buffer.go:74-80 | the loop finds the first index holding the name, or -1 |
| Buffers.IndexOf | analyzers/src/common/buffer.go:74-80 | -1 exactly when the name is absent; otherwise the first index holding it |
| Buffers.SimpleBuf.SetField | analyzers/src/common/buffer.go:71-89 | afterwards the name maps to the datum with the given ignore flag and every other name is unchanged; a new name is appended to all three lists, an existing one is overwritten in place |
| Buffers.SimpleBuf.GetField | analyzers/src/common/buffer.go:91-98 | the stored datum and true when the name is present, otherwise none and false |
| Buffers.SimpleBuf.Get | analyzers/src/common/buffer.go:91-98 | a datum exactly when the name is among the keys |
| Buffers.SimpleBuf.ToString | analyzers/src/common/buffer.go:38-56 | the shown (not ignored) values, ints in decimal, joined by commas, then a newline |
| Buffers.SimpleBuf.GetFieldAsString | analyzers/src/common/buffer.go:58-69 | the shown keys joined by commas, then a newline |
| Buffers.ShownAppend | analyzers/src/common/buffer.go:38-69 | a newly appended field adds its text to the shown lists exactly when it is not ignored |
| Buffers.GetBufFieldAsInt | analyzers/src/common/buffer.go:100-104 | ok exactly when the field is present and an int; the int or 0 |
| Buffers.GetBufFieldAsString | analyzers/src/common/buffer.go:106-110 | ok exactly when the field is present and a string; the string or "" |
| Buffers.OtherIndex | analyzers/src/common/buffer.go:81-88 | setting one name never moves another name's index |
| Buffers.AppendNew | analyzers/src/common/buffer.go:81-84 | appending an absent name keeps the keys distinct |
| Buffers.HiddenFieldExample | analyzers/src/common/common_test.go:10-44 | an ignored field and a shown field give "dummy\n" and "100\n", the bytes 1 2 3, the value 100 and no field "hi" |
| Timestamps.GetNextTimeCode | analyzers/src/plugins/common/timestampHelper.go:16-41 | the result keeps the drop-frame and field flags, and in drop-frame mode never names frame 0 or 1 of a minute that is not a multiple of ten |
| Timestamps.NextNonDrop | analyzers/src/plugins/common/timestampHelper.go:16-41 | non-drop-frame: a timecode within the day steps to the next frame index of the day, and the last frame of the day wraps to 00:00:00:00 |
| Timestamps.NextDrop | analyzers/src/plugins/common/timestampHelper.go:16-41 | drop-frame: a valid drop-frame timecode steps to the valid drop-frame timecode whose count is one more, and the last frame of the day wraps to 00:00:00:00 |
| Timestamps.NextTimeCodeWraps | analyzers/src/plugins/common/common_test.go:71-88 | 23:59:59:29 at 29.97 drop-frame and 23:59:59:24 at 25 Hz both step to 00:00:00:00 |
| Timestamps.NDFParts | analyzers/src/plugins/common/timestampHelper.go:65-85 | hour, minute and second are those of the time of day; the frame is the time within the second over the frame duration, halved in field mode with the field flag set for odd frames |
| Timestamps.NDFTimeCodeSplits | analyzers/src/plugins/common/timestampHelper.go:65-85 | the fields are in range, recompose the time of day, and the frame (or frame pair in field mode) is the one whose interval holds the time within the second |
| Timestamps.DropFrameCounts | analyzers/src/plugins/common/timestampHelper.go:87-131 | for a non-negative frame count the drop-frame conversion gives a valid drop-frame timecode whose count is that number modulo the frames of a day |
| Timestamps.FromNFramesWhole | analyzers/src/plugins/common/timestampHelper.go:97-131 | without fields the conversion counts at the nominal whole rate num/den + 1 |
| Timestamps.DropFrameExample | analyzers/src/plugins/common/common_test.go:59-63 | frame 517759 at 30 nominal frames per second is 04:47:55:27 |
| Timestamps.LastSyncTimeTwoDaysEarly | analyzers/src/plugins/common/timestampHelper.go:133-148 | at 05:00 of day 1 with a 01:00 sync, computeLastSyncTime as written returns 01:00 of day -1 where the last sync was 01:00 of day 1 |
| Timestamps.AsWrittenSyncNotLater | analyzers/src/plugins/common/timestampHelper.go:133-148 | the as-written sync point is never after the clock value |
| Timestamps.LastSyncTimeIsLast | analyzers/src/plugins/common/timestampHelper.go:133-148 | the intended sync point is the last time of day at the sync hour not after the clock value: within one day before it |
| Timestamps.DFHourShiftLost | analyzers/src/plugins/common/timestampHelper.go:160 | adding the sync time in ticks modulo 24 leaves the hour unchanged for every whole sync hour |
| Timestamps.DFTimeCodeCounts | analyzers/src/plugins/common/timestampHelper.go:150-163 | for every whole sync hour the as-written drop-frame timecode is valid and counts the frames since the as-written sync point, modulo a day |
| Timestamps.AsWrittenFromFrames | analyzers/src/plugins/common/timestampHelper.go:150-163 | the as-written timecode is the frame-count conversion with only its hour shifted |
| Timestamps.DFTimeCodeIntendedCounts | analyzers/src/plugins/common/timestampHelper.go:150-163 | the intended drop-frame timecode is valid and, with the sync hour taken back off, counts the frames since the last sync point, modulo a day |
| Timestamps.DFTimeCodeAtSync | analyzers/src/plugins/common/timestampHelper.go:150-163 | at the sync instant the intended timecode reads the sync hour, 00:00:00 |
| Timestamps.HourShiftBack | analyzers/src/plugins/common/timestampHelper.go:160 | adding the sync hour modulo 24 is undone by taking it off again |
| Timestamps.UtcTimestampToTimeCode | analyzers/src/plugins/common/timestampHelper.go:165-170 | drop-frame exactly when the rate denominator is not 1 |
| Timestamps.NDFExamples | analyzers/src/plugins/common/common_test.go:47-57 | 04:47:55.880 at 25 Hz and 04:47:55.900 at 50 Hz in fields both read 04:47:55:22 |
| Timestamps.DFExamples | analyzers/src/plugins/common/common_test.go:59-69 | 04:47:55.900 at 29.97 Hz and at 59.94 Hz in fields both read 04:47:55:27 |
| Timestamps.SyncAtMidnightExample | analyzers/src/plugins/common/timestampHelper.go:133-148 | with sync at midnight the sync point is the start of the day |
| Timestamps.FramesSinceExample | analyzers/src/plugins/common/timestampHelper.go:150-156 | the example time is 517759 frames of 900900 ticks and 1035518 fields of 450450 ticks after midnight |
| Timestamps.RatesExample | analyzers/src/plugins/common/timestampHelper.go:97-110 | the 29.97 and 59.94 frame durations and the halving of fields give the 30 fps conversion of frame 517759 |
| Timestamps.RtpTimestampToUtc | analyzers/src/plugins/common/timestampHelper.go:43-63 | the error flag is set exactly when the recovered time is more than a minute from the current time |
| Timestamps.RtpUtcCongruent | analyzers/src/plugins/common/timestampHelper.go:43-63 | the recovered time plus the leap seconds equals the RTP time modulo the RTP loop point |
| Timestamps.RtpUtcNearest | analyzers/src/plugins/common/timestampHelper.go:43-63 | when the RTP time is within a minute of the current loop position, measured around the wrap, the recovered time is within a minute of now |
| Timestamps.RtpUtcExample | analyzers/src/plugins/common/common_test.go:17-25 | RTP 666100238 at UTC 1695612755 s is 1695612730 s with no error |
| Timestamps.RtpUtcLoopExamples | analyzers/src/plugins/common/common_test.go:27-45 | an RTP time just past the wrap and a current time just past the wrap each pick the neighbouring loop |
| Timestamps.RtpTimestampToTimeCode | analyzers/src/plugins/common/timestampHelper.go:172-176 | the error is the recovered time's distance from now over a minute; the timecode is drop-frame exactly for a fractional rate |
| Timestamps.MaxFrame | analyzers/src/plugins/common/timestampHelper.go:17 | the last frame number of a second, the rate rounded to the nearest integer; NextNonDrop and NextDrop use it as the carry point |
| Timestamps.GetNDFTimeCode | analyzers/src/plugins/common/timestampHelper.go:65-85 | getNDFTimeCode: hours, minutes and seconds of the time of day and the frame within the second, halved in field mode; NDFParts and NDFTimeCodeSplits prove the fields are in range and recompose the time of day |
| Timestamps.GetDFTimeCodeFromNFrames | analyzers/src/plugins/common/timestampHelper.go:97-131 | the drop-frame timecode of the n-th frame, halved in field mode; DropFrameCounts proves it the valid drop-frame code counting n modulo a day |
| Timestamps.ComputeLastSyncTime | analyzers/src/plugins/common/timestampHelper.go:133-148 | computeLastSyncTime as written; AsWrittenSyncNotLater bounds it and LastSyncTimeTwoDaysEarly exhibits the day taken off twice |
| Timestamps.LastSyncTime | analyzers/src/plugins/common/timestampHelper.go:133-148 | the sync point that passed last, as computeLastSyncTime is meant to give; LastSyncTimeIsLast proves it at or before the time, less than a day before, on the sync hour |
| Timestamps.GetDFTimeCode | analyzers/src/plugins/common/timestampHelper.go:150-163 | getDFTimeCode as written: the frames since the as-written sync point, with the sync ticks added to the hour modulo 24; DFTimeCodeCounts and DFHourShiftLost state what it counts |
| Timestamps.GetDFTimeCodeIntended | analyzers/src/plugins/common/timestampHelper.go:150-163 | the intended getDFTimeCode, counting from the last sync point and adding the sync hour; DFTimeCodeIntendedCounts and DFTimeCodeAtSync state it |
| VideoDataProcessor.Uint64 | analyzers/src/plugins/dataHandler/videoDataProcessor.go:69 | Go's uint64 conversion: in range it is the identity, a negative value wraps by 2^64 |
| VideoDataProcessor.InsertByPts | analyzers/src/plugins/dataHandler/videoDataProcessor.go:52 | inserting into a PTS-sorted list keeps it sorted and adds exactly that frame |
| VideoDataProcessor.SortByPts | analyzers/src/plugins/dataHandler/videoDataProcessor.go:52 | the result is sorted by PTS and a permutation of the frames |
| VideoDataProcessor.Processor.constructor | analyzers/src/plugins/dataHandler/videoDataProcessor.go:111-119 | no buffered frames, no splice times, the empty timecode, no discontinuities, nothing written |
| VideoDataProcessor.Processor.Process | analyzers/src/plugins/dataHandler/videoDataProcessor.go:36-72 | an I or IDR slice flushes the buffered frames sorted by PTS and checked in that order, then buffers itself with the given PTS and DTS; other slices are appended; SCTE-35 data appends its splice time as uint64; other data changes nothing |
| VideoDataProcessor.Processor.Flush | analyzers/src/plugins/dataHandler/videoDataProcessor.go:50-59 | writes a PTS-sorted permutation of the buffer, runs both checks over it in order, and empties the buffer |
| VideoDataProcessor.Processor.WriteAll | analyzers/src/plugins/dataHandler/videoDataProcessor.go:53-58 | each frame is written and checked in turn |
| VideoDataProcessor.Processor.WriteAndCheck | analyzers/src/plugins/dataHandler/videoDataProcessor.go:54-57 | one frame is written, then its timecode and splice checks run |
| VideoDataProcessor.Processor.ValidateTimeCode | analyzers/src/plugins/dataHandler/videoDataProcessor.go:74-83 | a non-empty timecode that is not one 29.97 drop-frame step after the last counts a discontinuity and becomes the last; an empty one changes nothing |
| VideoDataProcessor.Processor.ValidateSpliceIdr | analyzers/src/plugins/dataHandler/videoDataProcessor.go:85-101 | an I slice keeps only the splice times after its PTS, in order; any other slice type changes nothing |
| VideoDataProcessor.Processor.PrintInfo | analyzers/src/plugins/dataHandler/videoDataProcessor.go:103-109 | the header line, plus the discontinuity count (then reset) when a timecode was seen |
| VideoDataProcessor.PendingExact | analyzers/src/plugins/dataHandler/videoDataProcessor.go:90-100 | a splice time stays pending exactly when it was pending and lies after the PTS |
| VideoDataProcessor.PendingConcat | analyzers/src/plugins/dataHandler/videoDataProcessor.go:90-100 | settling distributes over concatenation, so order is kept |
| VideoDataProcessor.PendingTwice | analyzers/src/plugins/dataHandler/videoDataProcessor.go:90-100 | settling at two PTS values is settling once at the later |
| VideoDataProcessor.DiscontinuitiesBounded | analyzers/src/plugins/dataHandler/videoDataProcessor.go:74-83 | checking n frames adds between 0 and n discontinuities |
| VideoDataProcessor.RunCountsNothing | analyzers/src/plugins/dataHandler/videoDataProcessor.go:74-83 | frames whose timecodes each follow the last count no discontinuity, and the last timecode is the last non-empty one |
| VideoDataProcessor.BreakCounted | analyzers/src/plugins/dataHandler/videoDataProcessor.go:74-83 | a non-empty timecode that does not follow the last adds exactly one discontinuity and becomes the last |
| VideoDataProcessor.SpliceBeforeAll | analyzers/src/plugins/dataHandler/dataHandler_test.go:19-42 | splice times 2233567 and 3344567, each twice, all stay pending at PTS 1234567 |
| VideoDataProcessor.SpliceSettlesEarly | analyzers/src/plugins/dataHandler/dataHandler_test.go:19-42 | PTS 2233567 settles both copies of 2233567 and leaves 3344567 twice |
| VideoDataProcessor.SpliceSettlesLate | analyzers/src/plugins/dataHandler/dataHandler_test.go:19-42 | PTS 3344577 settles the rest |
| VideoDataProcessor.PendingAllAfter | analyzers/src/plugins/dataHandler/videoDataProcessor.go:90-100 | splice times all after the PTS all stay |
| VideoDataProcessor.PendingNoneAfter | analyzers/src/plugins/dataHandler/videoDataProcessor.go:90-100 | splice times none after the PTS all go |
| VideoDataProcessor.Pending | analyzers/src/plugins/dataHandler/videoDataProcessor.go:90-100 | the splice times still pending after an I slice at a PTS; PendingExact, PendingConcat and PendingTwice state which stay |
| PcapFile.ParseUdp | analyzers/src/plugins/ioUtils/fileReader/pcapFile.go:34-45 | the reader's result is the UDP header of four 16-bit fields and the rest of the buffer as payload, or ReadPastEnd when fewer than 8 bytes |
| PcapFile.ParseIpv4 | analyzers/src/plugins/ioUtils/fileReader/pcapFile.go:64-86 | the reader's result is the IPv4 header (version, header length in bytes, total length, checksum, dotted source and destination) with the options skipped and the rest parsed as UDP |
| PcapFile.ReadIpv4Fixed | analyzers/src/plugins/ioUtils/fileReader/pcapFile.go:65-78 | the 20 fixed bytes are read as those fields, from their bit positions |
| PcapFile.SkipOptions | analyzers/src/plugins/ioUtils/fileReader/pcapFile.go:79-80 | skipping headerLength - 20 option bytes, then UDP; a header length that reaches past the buffer is an error |
| PcapFile.ReadDotted | analyzers/src/plugins/ioUtils/fileReader/pcapFile.go:75-78 | four bytes as decimal texts joined by dots |
| PcapFile.ReadHexByte | analyzers/src/plugins/ioUtils/fileReader/pcapFile.go:105-106 | one byte as two lower-case hex digits |
| PcapFile.ReadMac | analyzers/src/plugins/ioUtils/fileReader/pcapFile.go:105-106 | six bytes as hex texts joined by colons |
| PcapFile.ReadHexTriple | analyzers/src/plugins/ioUtils/fileReader/pcapFile.go:105-106 | three bytes as hex texts |
| PcapFile.ParseEthernet | analyzers/src/plugins/ioUtils/fileReader/pcapFile.go:103-118 | the reader's result is destination and source MAC, the EtherType, and for 0x0800 the IPv4 packet; any other EtherType is UnsupportedEtherType |
| PcapFile.ReadEthernetFixed | analyzers/src/plugins/ioUtils/fileReader/pcapFile.go:104-107 | the two MACs and the EtherType from the first 14 bytes |
| PcapFile.ParseRecord | analyzers/src/plugins/ioUtils/fileReader/pcapFile.go:137-150 | the reader's result is the four 32-bit record fields, big-endian or little-endian as the file header said |
| PcapFile.ReadBigEndianRecord | analyzers/src/plugins/ioUtils/fileReader/pcapFile.go:139-143 | four 32-bit fields, most significant byte first |
| PcapFile.ReadLittleEndianRecord | analyzers/src/plugins/ioUtils/fileReader/pcapFile.go:144-149 | four 32-bit fields, least significant byte first |
| PcapFile.DecodeFileHeader | analyzers/src/plugins/ioUtils/fileReader/pcapFile.go:176-205 | the reader's result is the magic's byte order and precision and the link-layer type at bytes 20-23, or UnknownMagic for any other first byte |
| PcapFile.Padded | analyzers/src/plugins/ioUtils/fileReader/pcapFile.go:177-178 | a read of n bytes yields exactly n bytes, zero-filled past the end of the file |
| PcapFile.NextBuffer | analyzers/src/plugins/ioUtils/fileReader/pcapFile.go:207-267 | the file and the reader invariant are kept |
| PcapFile.Pop | analyzers/src/plugins/ioUtils/fileReader/pcapFile.go:256-266 | the head of the queue is returned and the queue loses exactly that head |
| PcapFile.PcapReader.constructor | analyzers/src/plugins/ioUtils/fileReader/pcapFile.go:294-302 | the file at its start, an empty queue, not initialised |
| PcapFile.PcapReader.ReadInto | analyzers/src/plugins/ioUtils/fileReader/pcapFile.go:177-178 | returns the padded n bytes and moves the cursor by n, or to the end |
| PcapFile.PcapReader.AdvanceCursor | analyzers/src/plugins/ioUtils/fileReader/pcapFile.go:269-292 | n bytes and the cursor moved by n when they are all there; otherwise no bytes and the cursor back where it was |
| PcapFile.PcapReader.ParseHeader | analyzers/src/plugins/ioUtils/fileReader/pcapFile.go:176-205 | consumes 24 bytes; on a known magic sets byte order, precision and link-layer type, otherwise reports the first byte and keeps them |
| PcapFile.PcapReader.GetBuffer | analyzers/src/plugins/ioUtils/fileReader/pcapFile.go:207-267 | the result and the new state are those of one NextBuffer step on the old state |
| PcapFile.PcapReader.FetchRecord | analyzers/src/plugins/ioUtils/fileReader/pcapFile.go:218-266 | a new record when the queue is empty, then a pop |
| PcapFile.PcapReader.FetchNewRecord | analyzers/src/plugins/ioUtils/fileReader/pcapFile.go:218-254 | reads a record header and its body, or returns an empty buffer |
| PcapFile.PcapReader.PopQueue | analyzers/src/plugins/ioUtils/fileReader/pcapFile.go:256-266 | the queue's head, removed |
| PcapFile.PcapReader.FetchBody | analyzers/src/plugins/ioUtils/fileReader/pcapFile.go:227-253 | the body parsed down to the UDP payload and queued, or an empty buffer when the body is not all there |
| PcapFile.Fetches | analyzers/src/plugins/ioUtils/fileReader/pcapFile.go:207-267 | k calls give k results |
| PcapFile.QueueFirstInFirstOut | analyzers/src/plugins/ioUtils/fileReader/pcapFile.go:256-266 | queued buffers come out in the order they were queued |
| PcapFile.EndOfInput | analyzers/src/plugins/ioUtils/fileReader/pcapFile.go:218-223 | with no whole record header left, the result is an empty buffer and nothing changes |
| PcapFile.UnknownMagicReported | analyzers/src/plugins/ioUtils/fileReader/pcapFile.go:195-214 | an unknown first magic byte is reported and the reader stays uninitialised |
| PcapFile.RecordGivesPayload | analyzers/src/plugins/ioUtils/fileReader/pcapFile.go:218-266 | a whole record whose body parses gives its UDP payload, and the cursor moves past header and body |
| PcapFile.RecordHeaderRead | analyzers/src/plugins/ioUtils/fileReader/pcapFile.go:220-227 | a whole record header is consumed and its length decides the body read |
| PcapFile.BodyRead | analyzers/src/plugins/ioUtils/fileReader/pcapFile.go:227-231 | a whole body is consumed and parsed |
| PcapFile.Delivered | analyzers/src/plugins/ioUtils/fileReader/pcapFile.go:233-265 | a parsed frame delivers its transport payload and leaves the queue empty |
| PcapFile.IncompleteBodyDropsHeader | analyzers/src/plugins/ioUtils/fileReader/pcapFile.go:220-229 | as written: when the body is not all there the record header is still consumed and an empty buffer is returned |
| PcapFile.NextHeaderFromBody | analyzers/src/plugins/ioUtils/fileReader/pcapFile.go:220-229 | as written: once more data arrives, the next call reads the 16 bytes after the dropped header as a record header |
| PcapFile.NextRecordIntended | analyzers/src/plugins/ioUtils/fileReader/pcapFile.go:218-254 | the intended step keeps the file and the reader invariant |
| PcapFile.IntendedWaits | analyzers/src/plugins/ioUtils/fileReader/pcapFile.go:218-254 | the intended step leaves the state untouched while the body is incomplete |
| PcapExamples.RecordExample | analyzers/src/plugins/ioUtils/fileReader/fileReader_test.go:20-39 | the test's little-endian record header reads 1671173949, 526356, 1358, 1358 |
| PcapExamples.EthernetExample | analyzers/src/plugins/ioUtils/fileReader/fileReader_test.go:20-48 | the test's Ethernet header reads 01:00:5e:01:01:01, 00:1e:67:d1:1c:e4 and EtherType 0x0800 |
| PcapExamples.Ipv4Example | analyzers/src/plugins/ioUtils/fileReader/fileReader_test.go:20-57 | the test's IPv4 header reads header length 20, length 30, 172.18.15.13 and 226.1.1.1 |
| PcapExamples.UdpExample | analyzers/src/plugins/ioUtils/fileReader/fileReader_test.go:20-66 | the test's UDP header reads ports 46150 and 12322, length 10 and payload 01 02 |
| PcapExamples.ExampleRecordDropped | analyzers/src/plugins/ioUtils/fileReader/fileReader_test.go:20-30 | in a file of the test's 60 bytes, the 1358-byte record is incomplete, so as written its header is consumed and an empty buffer returned |
| PcapExamples.ExampleRecordKept | analyzers/src/plugins/ioUtils/fileReader/fileReader_test.go:20-30 | the intended reader leaves that file untouched |
| Preroll.LastBelow | analyzers/cmd/tools/scte35Helper.py:31 | the last row whose packet count is below the SCTE-35 packet's, or none when there is no such row |
| Preroll.FirstAbove | analyzers/cmd/tools/scte35Helper.py:32 | the first row whose packet count is above the SCTE-35 packet's, or none when there is no such row |
| Preroll.FirstWithPts | analyzers/cmd/tools/scte35Helper.py:38 | the first row whose PTS is the splice time, or none |
| Preroll.InterpolateEnds | analyzers/cmd/tools/scte35Helper.py:34-35 | the regressed PCR passes through both bracketing rows |
| Preroll.InterpolateBetween | analyzers/cmd/tools/scte35Helper.py:34-35 | between the two rows, with PCR not decreasing, the regressed PCR lies between their PCRs |
| Preroll.NoSpliceCommand | analyzers/cmd/tools/scte35Helper.py:23-26 | a record without a splice command is the splice-time-not-found error |
| Preroll.PrerollValue | analyzers/cmd/tools/scte35Helper.py:31-43 | with both bracketing rows present: an immediate splice gives the upper row's PCR less the regressed PCR; otherwise a result exists exactly when some row has the splice PTS, and it is the first such row's PCR less the regressed PCR |
| Preroll.PrerollNeedsBracket | analyzers/cmd/tools/scte35Helper.py:31-32 | no row before the packet, or rows before but none after, is an error (where pandas would raise on an empty selection) |
| Preroll.ImmediateExample | analyzers/cmd/tools/scte35Helper.py:39-41 | an immediate splice sent at packet 150, halfway between rows with PTS 9000 and 12000 and PCR 1000 and 2000, has a pre-roll of 2000 - 1500 = 500 |
| Preroll.InterpolationExample | analyzers/cmd/tools/scte35Helper.py:31-43 | packet 15 between rows 10 and 20 regresses to PCR 1500, so an immediate splice has a pre-roll of 500 |
| Preroll.Interpolate | analyzers/cmd/tools/scte35Helper.py:34-35 | the PCR regressed on the line through the two bracketing rows; InterpolateEnds and InterpolateBetween state it |
| Preroll.GetPreroll | analyzers/cmd/tools/scte35Helper.py:13-43 | get_preroll: no splice command or no bracketing rows is an error; otherwise the splice point's PCR less the regressed PCR; PrerollValue, NoSpliceCommand and PrerollNeedsBracket give its value and errors |
| AppController.ObjectOfAttributes | analyzers/src/controller/app.go:29-35 | a variable with attributes, or a plugin, renders as a brace-delimited object, "{}" when it has no attributes |
| AppController.LeafQuoting | analyzers/src/controller/app.go:36-43 | a leaf value renders bare when it is an integer, "true" or "false", and in double quotes otherwise |
| AppController.IntegerLeafBare | analyzers/src/controller/app.go:37-41 | the decimal text of any 64-bit integer renders bare |
| AppController.LastMatch | analyzers/src/controller/app.go:273-279 | the last child with the name, or none when no child has it |
| AppController.FirstMatch | analyzers/src/controller/app.go:309-316 | the first variable with the name, or none when no variable has it |
| AppController.ResolvedRHS | analyzers/src/controller/app.go:318-326 | a right-hand side naming a variable with a non-empty value is that value; anything else is the text itself |
| AppController.ResolveNamesPath | analyzers/src/controller/app.go:265-291 | a found path leads through nodes named by the components, in order |
| AppController.ResolveCreates | analyzers/src/controller/app.go:280-288 | with creation a path is always found; without it the variables are unchanged |
| AppController.ExistingNotCreated | analyzers/src/controller/app.go:280-288 | when every component already exists, creating changes nothing and finds the same node |
| AppController.CreatedFound | analyzers/src/controller/app.go:265-291 | after creating a path, looking it up without creation finds the same node in the same variables |
| AppController.FirstSelected | analyzers/src/controller/app.go:293-307 | the value after the first option that names opt (after alias lookup), when every earlier argument passes |
| AppController.NoneSelected | analyzers/src/controller/app.go:293-307 | the default when no argument selects opt |
| AppController.EmptyArgumentPanics | analyzers/src/controller/app.go:295 | an empty argument reached before any match is an error (Go indexes its first rune and panics) |
| AppController.SkippedIfThenEnd | analyzers/src/controller/app.go:176-195 | an "if" under a false top pushes nothing, so the following "end" pops the enclosing entry |
| AppController.NonEmptyTokens | analyzers/src/controller/app.go:144-151 | the tokens kept after trimming are never empty |
| AppController.LinesRead | analyzers/src/controller/app.go:124-134 | at most lim lines are run, 99999 for a negative lim |
| AppController.Controller.constructor | analyzers/src/controller/app.go:92-99 | empty alias map, edge map and variables, no description |
| AppController.Controller.HandleAliasing | analyzers/src/controller/app.go:261-263 | the alias maps to the original name; nothing else changes |
| AppController.Controller.GetValueFromArgs | analyzers/src/controller/app.go:293-307 | the scan's result is the argument scan over the controller's aliases |
| AppController.Controller.GetValueFromName | analyzers/src/controller/app.go:309-316 | the loop returns the first matching variable's value, or "" |
| AppController.Controller.ResolveRHS | analyzers/src/controller/app.go:321-326 | the resolved right-hand side over the controller's variables |
| AppController.Controller.ScanChildren | analyzers/src/controller/app.go:272-279 | the loop finds the last child with the name |
| AppController.Controller.GetVariable | analyzers/src/controller/app.go:265-291 | the variables and the found path are those of the path resolution, with or without creation; the other fields are kept |
| AppController.Controller.WalkVariables | analyzers/src/controller/app.go:269-289 | the component loop computes the path resolution |
| AppController.Controller.LinkPlugins | analyzers/src/controller/app.go:160-170 | fails exactly when the link line does not have three tokens; otherwise the edge map gains the named variable's value under the first name |
| AppController.Controller.DeclareVar | analyzers/src/controller/app.go:199-251 | fails exactly when the declaration's value fails; otherwise a plugin is appended, or the dotted name is assigned |
| AppController.Controller.DeclaredValueOf | analyzers/src/controller/app.go:215-240 | an option's value with the third token as default, or the resolved right-hand side |
| AppController.Controller.AssignVar | analyzers/src/controller/app.go:216-250 | the variables become the assignment of the value along the dotted name |
| AppController.Controller.RunScriptLine | analyzers/src/controller/app.go:135-253 | one line: fails exactly when the interpreter step fails, otherwise the new fields and stack are the step's |
| AppController.Controller.TrimTokens | analyzers/src/controller/app.go:144-151 | the trimmed non-empty tokens, in order |
| AppController.Controller.RunTokens | analyzers/src/controller/app.go:153-253 | the switch on the first token agrees with the interpreter step, including the conditional stack |
| AppController.Controller.BuildParams | analyzers/src/controller/app.go:123-259 | splits the script on ';' and newlines, runs at most lim lines in order, and fails exactly when the interpreter does; otherwise the fields are the interpreter's |
| AppController.Controller.RunLinesRead | analyzers/src/controller/app.go:131-254 | the line loop agrees with the interpreter over the lines read |
| AppController.AttributeStr | analyzers/src/controller/app.go:27-45 | getAttributeStr; ObjectOfAttributes, LeafQuoting and IntegerLeafBare state its object, quoting and bare forms |
| AppController.ValueFromArgs | analyzers/src/controller/app.go:293-307 | getValueFromArgs over the arguments; FirstSelected, NoneSelected and EmptyArgumentPanics give its value, default and panic |
| AppController.Resolve | analyzers/src/controller/app.go:265-291 | getVariable from one level down; ResolveNamesPath, ResolveCreates, ExistingNotCreated and CreatedFound state the path it finds and what it creates |
| AppController.Assign | analyzers/src/controller/app.go:215-250 | a declaration's effect on the variables; AssignVar equals it |
| AppController.End | analyzers/src/controller/app.go:190-195 | "end" pops the top entry, and with one entry or none leaves the stack empty; SkippedIfThenEnd shows its effect after a skipped "if" |
| AppController.Step | analyzers/src/controller/app.go:153-253 | one line of tokens under the conditional stack; RunTokens equals it and SkippedIfThenEnd states its skipped-"if" behaviour |
| AppController.StepIntended | analyzers/src/controller/app.go:176-195 | the intended switch: a successful "if" adds exactly one entry and changes nothing else |
| AppController.IntendedIfEndRestores | analyzers/src/controller/app.go:176-195 | with the intended switch an "if" and its "end" restore the state, skipped or not |
| AppController.LineStep | analyzers/src/controller/app.go:135-253 | one script line: blank lines are skipped, others are tokenised and stepped; RunScriptLine equals it |
| AppController.RunLines | analyzers/src/controller/app.go:131-254 | the lines in order, the first panic ending the run; BuildParams and RunLinesRead equal it |
| AppExamples.DeclareVarInScript | analyzers/src/controller/controller_test.go:10-26 | "x = $x; x.a = $yes;" with -x hi --yes bye gives x = hi with child a = bye |
| AppExamples.SetAlias | analyzers/src/controller/controller_test.go:28-41 | with alias test for x, --test hi gives x = hi |
| AppExamples.RunNestedConditional | analyzers/src/controller/controller_test.go:43-56 | the nested conditional with both options gives x = bye |
| AppExamples.RunPartialNestedConditional | analyzers/src/controller/controller_test.go:58-71 | with only -x it gives x = hi |
| AppExamples.EmptyAttributeString | analyzers/src/controller/controller_test.go:73-78 | a plugin with no attributes renders as "{}" |
| AppExamples.RecursiveAttributeString | analyzers/src/controller/controller_test.go:80-92 | nested attributes render as {"x":{"a":"abc"},"y":3} |
| Text.HexRoundTrip | analyzers/src/common/bsReader.go:39-45 | the hex text of a number reads back as that number, has no leading zero, and uses only hex digits |
| Text.Hex2 | analyzers/src/plugins/ioUtils/fileReader/pcapFile.go:105-106 | a byte as exactly two hex digits that read back as the byte |
| Text.DecimalRoundTrip | analyzers/src/controller/app.go:37 | the decimal digits of a natural number read back as it, with no sign |
| Text.ItoaAtoi | analyzers/src/controller/app.go:37-41 | strconv.Atoi accepts the decimal text of any 64-bit integer and returns it |
| Text.Split | analyzers/src/controller/app.go:216 | strings.Split always yields at least one part |
| Text.SplitJoin | analyzers/src/controller/app.go:216 | joining the parts with the separator gives the text back, and no part holds the separator |
| Text.SplitAfter | analyzers/src/controller/app.go:216 | a separator followed by a separator-free tail adds that tail as the last part |
| Text.FieldsFunc | analyzers/src/controller/app.go:127 | a text not ending in a separator has at least one field |
| Text.FieldsFuncParts | analyzers/src/controller/app.go:127-142 | the fields hold no separator and together are the text with its separators removed |
| Text.FieldsFuncJoin | analyzers/src/controller/app.go:127 | a separator splits the fields of the two sides apart |
| Text.FieldsOfTerminated | analyzers/src/controller/app.go:127 | fields each followed by a separator come back as themselves |
| Text.FieldsFuncWhole | analyzers/src/controller/app.go:142 | a text with no separator is one field |
| Text.TrimLeft | analyzers/src/controller/app.go:297 | drops exactly the leading run of cut characters |
| Text.TrimRight | analyzers/src/controller/app.go:297 | drops exactly the trailing run of cut characters |
| Text.TrimBoth | analyzers/src/controller/app.go:135-147 | the result is no longer and neither starts nor ends with a cut character |
| Text.TrimTwice | analyzers/src/controller/app.go:135-147 | trimming is idempotent |
| Text.TrimNothing | analyzers/src/controller/app.go:135-147 | a text already free of cut characters at both ends is unchanged |

## Left out

- BitReader.BsReader.ReadBits: requires `n <= Remaining()`; Go indexes past the buffer and panics (analyzers/src/common/bsReader.go:68), and a panic is not modelled.
- BitReader.BsReader.PeekBits: requires `0 <= n <= Remaining()`, for the same reason.
- BitReader.BsReader.ReadLIBytes: requires `8 * n <= Remaining()`, for the same reason (bsReader.go:79).
- BitReader.BsReader.ReadExpGolomb: running out of bits is `Err(Truncated)` where Go panics on the index.
- BitReader.BsReader.ReadBits: reads wider than 64 bits and ReadLIBytes past 8 bytes do not wrap around as Go's uint64 does; the model keeps the exact value.
- BitWriter.BsWriter.WriteBits: requires `pos < buf.Length` and `0 <= n <= Remaining()`; Go panics at bsWriter.go:14 on a full buffer and accepts a negative n.
- BitWriter.BsWriter.Write: the same requires as WriteBits.
- BitWriter.BsWriter.WriteByte: the same requires as WriteBits.
- BitWriter.BsWriter.WriteShort: the same requires as WriteBits.
- BitWriter.BsWriter.WriteInt: the same requires as WriteBits.
- BitWriter.WriteBitsTo: the `actualBitSize` loop of bsWriter.go:18-24 is dropped. It only computes a bit length that is never used, and in Go it never ends for x >= 2^62, because `1<<64` is 0.
- AdaptationFields.Serialize: requires a non-negative stuffing size; Go would panic on the negative slice length.
- TsHeaders.ReadTsHeader: a wrong sync byte is an `Err` value, where Go panics.
- Rtp.RtpParse: a wrong version, a set extension bit and a short buffer are `Err` values, where Go panics.
- PatTables.ParsePat: the reserved-bit checks and a negative remaining length are `Err` values, where Go panics.
- PmtTables.ParsePmt: the reserved-bit checks and a negative remaining length are `Err` values, where Go panics.
- PmtTables.ReadHex: formats each byte with a leading space, as ReadHex does in src/common/bsReader.go:61-67, so the language text is " 65 6e 67 0". The test at analyzers/src/avContainer/avContainerTest.go:37-55 expects "65 6e 67 0"; the model follows the code.
- ProgramSrcClk.Clock.RequestPcr: two records at the same packet count give `Err(DivideByZero)` where Go divides by zero. The PCR products do not wrap around at 64 bits.
- PcapFile.ParseEthernet: a short frame is `Err(ReadPastEnd)` and an EtherType other than IPv4 is `Err(UnsupportedEtherType)`, where Go calls logger.Fatal (pcapFile.go:115).
- PcapFile.PcapReader.GetBuffer: the calls to time.Sleep (pcapFile.go:209, 288) and the os.File are left out. The file is a byte sequence the reader holds, and reaching its end is an empty result.
- PcapFile.NextRecordIntended: only the corrected reader's first step on an incomplete body is proved. That a later read completes the record is not proved.
- VideoDataProcessor.Uint64: the only place where Go's 64-bit wrap-around is written out; everywhere else integers are unbounded.
- VideoDataProcessor.SortByPts: Go's unstable sort.Slice becomes one fixed insertion sort. Only the order by PTS and the permutation are stated, not which of equal keys comes first.
- VideoDataProcessor.Processor.Process: the writer is an output sequence of lines and the logger calls are dropped. The copy of the frame type and timecode into the caller's media unit (`vmd.Type`, `vmd.Tc`, videoDataProcessor.go:61-62) is not modelled, because the processor never reads them back. The test in dataHandler_test.go uses a return value of validateSpliceIDR and an IDR_SLICE case that videoDataProcessor.go no longer has; the model follows the code.
- Timestamps.UtcTimestampToTimeCode: the clock constants (Clk90k = 300, Second = 27,000,000 ticks and the minute, hour and day multiples) are fixed in the model. The clock package is not part of this model.
- Timestamps.RtpTimestampToUtc: time.Now() becomes the parameter `now`.
- InputMonitor.Monitor.CheckTsHeader: each logger.Error becomes an entry in `ccErrors`, holding the PID and the counters but not the message text.
- Preroll.GetPreroll: pandas float64 arithmetic becomes exact `real` arithmetic, and the PTS and PCR columns are integers. The script's driver (reading the CSV files and printing, scte35Helper.py:45-69) is not modelled.
- SpliceCommands.GetSplicePts: readPrivateCommand (scte35SpliceCommand.go:165-169) is not modelled; a private command is a value built by the caller, and its splice-time list is empty as in the code.
- AppController.Controller.BuildParams: after a panic (`ScriptError`) the controller's state is left unstated, since in Go the panic ends the program. ListApp, StartApp and getApp (file I/O and starting the workers) and the version string are not modelled.

## Findings

| source | as written | input that shows it | evidently intended | confidence | as-written member | corrected member |
|---|---|---|---|---|---|---|
| src/avContainer/model/PAT.go:91 | the CRC_32 after the programs is read with `ReadBits(4)` | the PAT of src/avContainer/avContainerTest.go:13-43 gives CRC 10, the first 4 bits of its CRC bytes; the tests pin that value (analyzers/src/plugins/avContainer/model/avContainerModel_test.go:19-25 expects `crc 10`) | a 32-bit CRC read with `ReadBits(32)`: the intent rests on the field being the 32-bit CRC_32 of the section, not on the tests | not executed | PatTables.PatExampleParsed | PatTables.ParsePatIntended |
| src/avContainer/model/PAT.go:33-36 | PATReadyForParse compares pointer + 3 + section length with the buffer size, leaving out the pointer byte itself | the test's PAT less its last byte is reported ready | pointer + 4 + section length must fit, so that a ready section can be read whole | not executed | PatTables.ExampleOneByteShort | PatTables.ReadyIntendedSuffices |
| analyzers/src/plugins/common/timestampHelper.go:133-148 | computeLastSyncTime compares an hour count with a tick count, takes a day off twice, and getDFTimeCode then adds ticks to the hour modulo 24 | a time at 05:00 of day 1 with a sync hour of 1 counts frames from 01:00 of day -1; latent, because the only caller (analyzers/src/plugins/ioUtils/inputReader.go:184) passes 0 | the last sync point at or before the time, with the sync hour added in hours | not executed | Timestamps.LastSyncTimeTwoDaysEarly | Timestamps.LastSyncTimeIsLast |
| analyzers/src/plugins/avContainer/model/adaptationField.go:96-98 | Serialize writes the private data's UTF-8 bytes and their count, but ParseAdaptationField reads one byte per character | private data holding the one character U+0080, which UTF-8 writes in two bytes | private data written and read with the same encoding, so that parsing gives the field back | not executed | AdaptationFields.WideDataNotRead | AdaptationFields.RoundTrip |
| analyzers/src/plugins/ioUtils/fileReader/pcapFile.go:220-229 | when a record header is complete but its body is not, getBuffer returns an empty buffer with the header already consumed | the 60-byte file of the test, whose record header gives a length of 1358 | leave the record header unread until the whole body is there | not executed | PcapFile.IncompleteBodyDropsHeader | PcapFile.NextRecordIntended |
| analyzers/src/controller/app.go:176-195 | an "if" under a false top pushes nothing onto the conditional stack, but every "end" pops | `if $a` (false) / `if $b` / `end` / `x = 1` / `end`: the inner "end" pops the outer false entry, so `x = 1` runs although it sits inside the false block | every "if" pushes an entry (false when it is skipped), so that each "end" closes its own block | not executed | AppController.SkippedIfThenEnd | AppController.IntendedIfEndRestores |
