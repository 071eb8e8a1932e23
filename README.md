# sFlow version 5: counter records and flow-sample framing

A Dafny model of two byte-level codecs of the Go sFlow library. Every
field is an XDR big-endian value: 32-bit words as in section 4.2 of RFC
4506 and 64-bit words as in section 4.5.

- **Counter records** (`counter_record.go`). There are ten fixed-width
  record structs: generic interface, Ethernet, token ring, 100BaseVG, VLAN,
  processor, and host CPU, memory, disk and network.
  - Each struct is a list of 4-byte and 8-byte fields.
  - Its decoder makes one `Read` of `length` bytes into a scratch buffer
    and fills the fields from it with `readFields`.
  - Its `Encode` writes the type code, a size word taken from
    `unsafe.Sizeof`, then the struct through `binary.Write`.
  - The model has one generic layout codec (module `Layouts`) with its
    round trips proved once. Each of the ten structs supplies only its
    layout and its field list (module `CounterRecords`).
  - `unsafe.Sizeof` is computed from the layout by the Go compiler's
    placement rules. This shows that the size word differs from the
    length of the bytes written for five of the ten structs on 64-bit
    targets.
- **Flow samples** (`flow_sample.go`, module `FlowSamples`).
  - `decodeFlowSample` reads the fixed header, including the packed
    source id. It then loops `numRecords` times over format and length
    words, decoding records of the four known formats and seeking past
    the others.
  - `encode` encodes every record into a buffer first, then writes the
    sample type, the size, the header words, the record count and the
    buffer.
  - Both are methods proved against specification functions (`DecodeSample`,
    `EncodedSample`). Their round trip is proved for any codec of the four
    known record formats that keeps its own round trip.
- **Shared field codec** (module `Wire`).
  - The reader is a byte sequence with a cursor. `binary.Read` and
    `io.ReadFull` become functions returning a value and the new cursor, or
    `io.EOF` / `io.ErrUnexpectedEOF` as Go gives them.
  - The writer is a `Sink` object that appends what it accepts. From a
    given call number on, it refuses every write, which makes "stops at
    the first write error" observable.

`FlowSamples.DecodeFlowSample`, `FlowSamples.Encode` and `CounterRecords.CounterRecord.Encode` model
the code as it is written, including the defects listed under Findings.
The corrected behaviour lives beside them. The sample round trip
(`SampleRoundTrip`) is proved for both source-id packings.

## Model

| member | source | states |
|---|---|---|
| Wire.ReadFull | flow_sample.go:45-48 | the read succeeds exactly when `n` bytes are left and returns them with the cursor `n` further on; otherwise it gives EOF when nothing is left and UnexpectedEOF when part of them is |
| Wire.ReadU32 | flow_sample.go:45-48 | reading a uint32 succeeds exactly when 4 bytes are left; the value's big-endian bytes are the 4 input bytes and the cursor moves 4; the EOF/UnexpectedEOF split is the one ReadFull makes |
| Wire.ReadU8 | flow_sample.go:50-53 | reading a byte succeeds exactly when a byte is left, returns that byte and moves the cursor 1; otherwise EOF |
| Wire.ReadCount | flow_sample.go:94-97 | the record count is read as the number whose big-endian bytes are the next 4, with the same success and error cases as a uint32 read |
| Wire.Be32OfWord32 | flow_sample.go:45-48 | the big-endian bytes of the word read from 4 bytes are those 4 bytes (writing undoes reading) |
| Wire.Be32 | flow_sample.go:171-174 | reading back the 4 bytes written for a word gives the word (reading undoes writing) |
| Wire.Uint32 | flow_sample.go:166-169 | Go's `uint32(n)` writes the big-endian bytes of `n` modulo 2^32 |
| Wire.WordValueBeValue | flow_sample.go:208 | the bytes of a number below 2^32 read back as that number |
| Wire.Uint32Value | flow_sample.go:208 | a word written as `uint32(n)` reads back as `n` modulo 2^32 |
| Wire.Sink.Write | flow_sample.go:213 | one write call: counted; it succeeds and appends exactly when the writer still accepts calls, and otherwise appends nothing |
| Wire.Sink.WriteU32 | flow_sample.go:171-174 | `binary.Write` of a uint32 appends its 4 big-endian bytes, or nothing on an error |
| Wire.Sink.WriteFrame | counter_record.go:342-353 | a run of word writes and one final write that stops at the first error: on success all the bytes are appended; after an error only the words written before it are, the failing call is made, and no call after it |
| Layouts.ParseFields | counter_record.go:314-336 | readFields: succeeds exactly when the buffer holds the layout's packed width, and then yields one field of each width of the layout, in order |
| Layouts.ReadFields | counter_record.go:336 | the field-by-field read over the scratch array returns exactly ParseFields of the array's contents |
| Layouts.EncodedLength | counter_record.go:353 | binary.Write of a struct writes exactly its packed width (the sum of its field sizes, no padding) |
| Layouts.ParseEncodeFields | counter_record.go:306-354 | readFields gives back the fields binary.Write wrote, whatever bytes follow them |
| Layouts.EncodeParseFields | counter_record.go:306-354 | binary.Write of the fields readFields read gives back the bytes they were read from |
| Layouts.PaddedSpanCoversFields | counter_record.go:289-298 | fields placed with alignment padding span at least their packed width |
| Layouts.SizeofCoversFields | counter_record.go:289-298 | unsafe.Sizeof of a struct is never less than its packed width |
| Layouts.PaddedSpanWithoutPadding | counter_record.go:289-298 | where uint64 aligns to 4, no field is padded |
| Layouts.SizeofOn32Bit | counter_record.go:289-298 | where uint64 aligns to 4 (32-bit x86), unsafe.Sizeof equals the packed width |
| CounterRecords.CounterRecord.Encode | counter_record.go:339-355 | writes the type code, the size word, then the packed fields, each with its own write; it stops at the first failed write, and nothing after it is written |
| CounterRecords.FieldsShape | counter_record.go:12-32 | every record's field list has its struct's layout |
| CounterRecords.FieldsDetermineRecord | counter_record.go:12-32 | two records of the same struct with the same field list are equal |
| CounterRecords.FromFieldsOfFields | counter_record.go:314-336 | filling a struct from its own fields, in declaration order, gives back the record |
| CounterRecords.FieldsOfFromFields | counter_record.go:314-336 | a field list of the struct's layout is the field list of the record filled from it |
| CounterRecords.GenericInterfaceShape | counter_record.go:12-32 | the GenericInterfaceCounters fields have its 19-field layout |
| CounterRecords.GenericInterfaceFieldsOfFromFields | counter_record.go:314-336 | the decoder's field order is the declaration order: the fields it fills read back as the list given |
| CounterRecords.EthernetShape | counter_record.go:46-60 | the EthernetCounters fields have its layout |
| CounterRecords.EthernetFieldsOfFromFields | counter_record.go:369-385 | the decoder fills the EthernetCounters fields in declaration order |
| CounterRecords.TokenRingShape | counter_record.go:74-93 | the TokenRingCounters fields have its layout |
| CounterRecords.TokenRingFieldsOfFromFields | counter_record.go:418-439 | the decoder fills the TokenRingCounters fields in declaration order |
| CounterRecords.VgShape | counter_record.go:107-122 | the VgCounters fields have its layout |
| CounterRecords.VgFieldsOfFromFields | counter_record.go:472-489 | the decoder fills the VgCounters fields in declaration order |
| CounterRecords.VlanShape | counter_record.go:136-143 | the VlanCounters fields have its layout |
| CounterRecords.VlanFieldsOfFromFields | counter_record.go:522-531 | the decoder fills the VlanCounters fields in declaration order |
| CounterRecords.ProcessorShape | counter_record.go:157-163 | the ProcessorCounters fields have its layout |
| CounterRecords.ProcessorFieldsOfFromFields | counter_record.go:564-572 | the decoder fills the ProcessorCounters fields in declaration order |
| CounterRecords.HostCPUShape | counter_record.go:177-200 | the HostCPUCounters fields have its layout |
| CounterRecords.HostCPUFieldsOfFromFields | counter_record.go:605-628 | the decoder fills the HostCPUCounters fields in declaration order |
| CounterRecords.HostMemoryShape | counter_record.go:214-227 | the HostMemoryCounters fields have its layout |
| CounterRecords.HostMemoryFieldsOfFromFields | counter_record.go:661-675 | the decoder fills the HostMemoryCounters fields in declaration order |
| CounterRecords.HostDiskShape | counter_record.go:241-251 | the HostDiskCounters fields have its layout |
| CounterRecords.HostDiskFieldsOfFromFields | counter_record.go:708-720 | the decoder fills the HostDiskCounters fields in declaration order |
| CounterRecords.HostNetShape | counter_record.go:265-275 | the HostNetCounters fields have its layout |
| CounterRecords.HostNetFieldsOfFromFields | counter_record.go:753-764 | the decoder fills the HostNetCounters fields in declaration order |
| CounterRecords.GenericInterfaceWireLength | counter_record.go:12-32 | GenericInterfaceCounters packs to 88 bytes |
| CounterRecords.GenericInterfaceSizeof | counter_record.go:289 | unsafe.Sizeof(GenericInterfaceCounters{}) is 88 on 64-bit targets |
| CounterRecords.EthernetWireLength | counter_record.go:46-60 | EthernetCounters packs to 52 bytes |
| CounterRecords.EthernetSizeof | counter_record.go:290 | unsafe.Sizeof(EthernetCounters{}) is 52 on 64-bit targets |
| CounterRecords.TokenRingWireLength | counter_record.go:74-93 | TokenRingCounters packs to 72 bytes |
| CounterRecords.TokenRingSizeof | counter_record.go:291 | unsafe.Sizeof(TokenRingCounters{}) is 72 on 64-bit targets |
| CounterRecords.VgWireLength | counter_record.go:107-122 | VgCounters packs to 80 bytes |
| CounterRecords.VgSizeof | counter_record.go:292 | unsafe.Sizeof(VgCounters{}) is 96 on 64-bit targets |
| CounterRecords.VlanWireLength | counter_record.go:136-143 | VlanCounters packs to 28 bytes |
| CounterRecords.VlanSizeof | counter_record.go:293 | unsafe.Sizeof(VlanCounters{}) is 32 on 64-bit targets |
| CounterRecords.ProcessorWireLength | counter_record.go:157-163 | ProcessorCounters packs to 28 bytes |
| CounterRecords.ProcessorSizeof | counter_record.go:294 | unsafe.Sizeof(ProcessorCounters{}) is 32 on 64-bit targets |
| CounterRecords.HostCPUWireLength | counter_record.go:177-200 | HostCPUCounters packs to 80 bytes |
| CounterRecords.HostCPUSizeof | counter_record.go:295 | unsafe.Sizeof(HostCPUCounters{}) is 80 on 64-bit targets |
| CounterRecords.HostMemoryWireLength | counter_record.go:214-227 | HostMemoryCounters packs to 72 bytes |
| CounterRecords.HostMemorySizeof | counter_record.go:296 | unsafe.Sizeof(HostMemoryCounters{}) is 72 on 64-bit targets |
| CounterRecords.HostDiskWireLength | counter_record.go:241-251 | HostDiskCounters packs to 52 bytes |
| CounterRecords.HostDiskSizeof | counter_record.go:297 | unsafe.Sizeof(HostDiskCounters{}) is 56 on 64-bit targets |
| CounterRecords.HostNetWireLength | counter_record.go:265-275 | HostNetCounters packs to 40 bytes |
| CounterRecords.HostNetSizeof | counter_record.go:298 | unsafe.Sizeof(HostNetCounters{}) is 48 on 64-bit targets |
| CounterRecords.WireLengths | counter_record.go:339-355 | the packed width binary.Write emits for each of the ten structs |
| CounterRecords.GoSizes | counter_record.go:289-298 | unsafe.Sizeof of each of the ten structs on a 64-bit target; five exceed their packed width |
| CounterRecords.SizeWords | counter_record.go:289-298 | the size word Encode writes is unsafe.Sizeof of the struct; the corrected one is its packed width |
| CounterRecords.SizeofIsWireLength | counter_record.go:289-298 | unsafe.Sizeof equals the packed width exactly for GenericInterface, Ethernet, TokenRing, HostCPU and HostMemory |
| CounterRecords.SizeWordPadding | counter_record.go:347 | the size word written is never below the packed width, and equals it exactly for the unpadded structs |
| CounterRecords.RecordTypeDistinguishes | counter_record.go:302-304 | two records have the same RecordType exactly when they are of the same struct, whatever their field values |
| CounterRecords.RecordNameDistinguishes | counter_record.go:41-43 | two records have the same RecordName exactly when they are of the same struct, whatever their field values |
| CounterRecords.DecodeCounters | counter_record.go:306-337 | the cursor advances by the bytes one Read returns (at most `length`); it succeeds exactly when `length` bytes are there and they hold the packed fields; a short read is ErrDecodingRecord; any error comes with the zero record |
| CounterRecords.DecodedFields | counter_record.go:306-337 | a successful decode returns the record whose packed fields are the first bytes at the cursor |
| CounterRecords.Decode | counter_record.go:306-337 | the decoder as a method (a scratch array filled by one Read, then readFields) returns exactly what DecodeCounters says |
| CounterRecords.Frame | counter_record.go:339-355 | a record behind its type and size words is 8 bytes plus its packed width |
| CounterRecords.EncodedRecord | counter_record.go:339-355 | the bytes Encode writes are 8 bytes plus the packed width |
| CounterRecords.FieldBytesDetermineRecord | counter_record.go:353 | binary.Write is injective on each struct: equal packed bytes mean equal records |
| CounterRecords.DecodeFieldBytes | counter_record.go:306-337 | wherever a record's packed fields stand, decoding them with the packed width gives back the record and moves past them |
| CounterRecords.DecodeFrame | counter_record.go:306-355 | any successful decode of an encoded record gives that record; with the packed width as length it succeeds and ends just past the record |
| CounterRecords.DecodeEncodedRecord | counter_record.go:306-355 | decoding what Encode wrote, with the packed width as length, gives back every record of every struct |
| CounterRecords.SizeWordOverruns | counter_record.go:347 | for a padded struct, decoding with Encode's own size word asks for more bytes than the record holds. It fails when fewer follow and otherwise swallows the padding's worth of the next bytes |
| CounterRecords.SizeWordRoundTrip | counter_record.go:339-355 | what Encode writes comes back whole from its own size word exactly for the five unpadded structs |
| CounterRecords.UnpaddedRoundTrip | counter_record.go:339-355 | an unpadded struct comes back whole, the cursor just past it, from its own size word |
| CounterRecords.EncodedRecordWithWireSize | counter_record.go:339-355 | the corrected encoding is 8 bytes plus the packed width |
| CounterRecords.WireSizeRoundTrip | counter_record.go:339-355 | with the packed width as size word, every struct comes back whole from its own size word |
| FlowSamples.ShiftByte | flow_sample.go:65-67 | Go's shift of a byte keeps the byte times 2^k modulo 0x100, so a shift by 8 or more gives 0 |
| FlowSamples.SourceIndexAsWrittenKeepsLastByte | flow_sample.go:65-67 | the decoded index is the last index byte alone; it equals the intended 24-bit index exactly when the first two bytes are 0 |
| FlowSamples.SourceIndexAsWrittenCounterexample | flow_sample.go:65-67 | the index bytes 01 02 03 mean 0x010203 but decode to 3 |
| FlowSamples.SourceIdWordAsWrittenBytes | flow_sample.go:183-184 | the source-id word is written as the index's low byte, two zero bytes, then the type |
| FlowSamples.SourceIdWordCorrectedRoundTrip | flow_sample.go:15 | with the type in the top byte and the index in the low 24 bits, the type and the index modulo 2^24 read back |
| FlowSamples.SourceIdRoundTrip | flow_sample.go:183-184 | the source id after encode then decode: as written, type and index trade places; corrected, both come back (the index modulo 2^24) |
| FlowSamples.ReadSourceIndex | flow_sample.go:55-63 | the 3-byte index read succeeds exactly when 3 bytes are left; nothing left is EOF; 1 or 2 bytes is the decoding error |
| FlowSamples.DecodeHeader | flow_sample.go:45-97 | a header read that succeeds consumes exactly the 32 header bytes |
| FlowSamples.HeaderFields | flow_sample.go:45-97 | with 32 bytes available every header field is the one at its offset, and the cursor moves 32 |
| FlowSamples.HeaderTruncation | flow_sample.go:45-97 | with fewer than 32 bytes the header read fails, with the error of the field the input runs out in |
| FlowSamples.ReadEntry | flow_sample.go:101-144 | one loop pass starts at the cursor and consumes at least the format and length words; fewer than 8 bytes fail |
| FlowSamples.EntryFramed | flow_sample.go:101-144 | a successful pass read the format and length words; a known format's record is what its decoder returned, and an unknown format moves the cursor by exactly `length` and yields no record |
| FlowSamples.ReadEntries | flow_sample.go:100-147 | the loop, when it succeeds, makes exactly `numRecords` passes |
| FlowSamples.EntriesChained | flow_sample.go:100-147 | each pass starts where the previous one ended, and the loop ends where the last pass did |
| FlowSamples.EntriesFramed | flow_sample.go:100-147 | every pass of a successful loop is framed as EntryFramed says |
| FlowSamples.Known | flow_sample.go:146 | the records appended number at most the passes made |
| FlowSamples.KnownSnoc | flow_sample.go:146 | a pass appends its record, if it has one, after those already appended |
| FlowSamples.DecodedSample | flow_sample.go:40-150 | a short header fails with its field's error; a decoded sample is the 32 header bytes read by offset plus the known records of exactly `numRecords` back-to-back passes, in stream order |
| FlowSamples.DecodeFlowSample | flow_sample.go:40-150 | the decoder as a method (field reads, then a loop that appends or seeks) returns exactly DecodeSample; any error returns no sample |
| FlowSamples.EncodeRecordsSucceeds | flow_sample.go:158-163 | buffering the records fails exactly when one of them fails to encode |
| FlowSamples.EncodeRecordsLength | flow_sample.go:158-163 | under the record codec's round trip, each buffered record takes at least 8 bytes |
| FlowSamples.EncodeRecordsAppend | flow_sample.go:158-163 | the buffer holds the records' bytes in list order: encoding a list in two parts is encoding each part |
| FlowSamples.HeaderWords | flow_sample.go:171-211 | encode writes ten words before the records |
| FlowSamples.EncodedSample | flow_sample.go:152-215 | the encoded sample is 40 bytes plus the records' bytes |
| FlowSamples.EncodedLayout | flow_sample.go:166-213 | the sample type comes first; the size word that follows counts the bytes after it modulo 2^32 (32 plus the records); the count is `len(Records)` modulo 2^32; the records' bytes close the sample unchanged |
| FlowSamples.EncodedHeader | flow_sample.go:179-211 | the 32 bytes after the type and size words read back, by offset, as the sample's fields, with the count set to the list length and the source id as the packing leaves it |
| FlowSamples.Encode | flow_sample.go:152-215 | a record that fails to encode gives ErrEncodingRecord before any write; otherwise the ten words then the buffer are written, stopping at the first write error, which is returned |
| FlowSamples.EncodedEntry | flow_sample.go:101-135 | one encoded record in the input is read back by one pass as that record, ending just past its bytes |
| FlowSamples.RecordsRoundTrip | flow_sample.go:100-147 | a run of encoded records is read back by the loop as the same records in order, ending just past the run |
| FlowSamples.DecodeEncodedHeader | flow_sample.go:45-97 | decoding the header of an encoded sample gives its fields as they are reread, whatever follows |
| FlowSamples.SampleRoundTrip | flow_sample.go:40-215 | encode then decode (from after the type and size words): the size word counts exactly the bytes decoded; every scalar field and every record comes back, in order; the count read is the number of records; the source id comes back as the packing leaves it |

## Left out

- Stream plumbing. `io.Reader`, `io.ReadSeeker`, `bytes.Buffer`, `io.Copy` and the reflection inside `binary.Read`/`binary.Write` are not modelled; the reader is a byte sequence with a cursor and the writer is `Wire.Sink`.
- A `Read` returns as many bytes as are left, up to the number asked for, as an in-memory reader does. A general `io.Reader` may return fewer, and that is not modelled.
- `Seek(length, 1)` moves the cursor by `length` and never fails. A cursor past the end is allowed; every later read there gives EOF.
- `Wire.Sink` fails from a fixed call number on. It does not model a writer that fails once and then accepts writes again, or one that accepts part of a write.
- The debug `fmt.Printf` calls (flow_sample.go:99, 137) and every `String()` method print only, and are left out.
- `float32` fields are carried as their 32-bit patterns. No floating-point arithmetic is involved.
- `readFields` is defined in a file that is not part of this model. It is modelled as reading the fields in order, big-endian, failing when the buffer runs out (`Layouts.ParseFields`).
- CounterRecords.DecodeCounters: on a readFields failure the record returned is the zero record. A struct partly filled before the failure is not modelled: `return c, readFields(b, fields)` depends on an evaluation order the Go language leaves open.
- The `flow_records` package (the four record decoders, record `Encode`) is not part of this model. It is the `RecordCodec` parameter. The round-trip lemmas take as precondition `CodecRoundTrips`: every encoded record opens with one of the four formats the decoder dispatches on and decodes back to itself. A record of any other format is encoded, then skipped on decode, so no round trip holds for a sample that carries one. The declared `length` is neither passed to the known-format decoders nor checked against them, exactly as in the code.
- The sFlow type constants (`TypeFlowSample`, the flow-record formats and the counter type codes) are defined in files that are not part of this model. The model uses the sFlow version 5 values and relies only on their being distinct.
- `numRecords` is a `uint32` read as a number (`nat`). The unexported field is not written by `encode`, which writes `len(Records)` instead.
- `unsafe.Sizeof` is fixed for 64-bit targets, where uint64 aligns to 8. The 32-bit x86 case is covered only by `Layouts.SizeofOn32Bit`.
- FlowSamples.SampleRoundTrip requires the encoded sample to be shorter than 2^32 bytes, so that the size word and the count do not wrap; EncodedLayout states the wrapped values for longer samples. It also requires every record to be of one of the four known formats (`CodecRoundTrips`), because the decoder skips records of any other format.
- `SampleType`, `GetRecords`, `RecordType` and `RecordName` are plain getters with no contract of their own. Their properties are stated through `EncodedLayout`, `SampleRoundTrip`, `RecordTypeDistinguishes` and `RecordNameDistinguishes`.
- The datagram reader, counter samples and the flow-record family are outside these two files. A round trip of whole datagrams is out of scope. Within the two files, the model follows the code: it uses the unsafe.Sizeof size word and the source-id packing as written, and shows where the sample and record round trips fail because of them.

## Findings

| source | as written | input that shows it | evidently intended | confidence | as-written member | corrected member |
|---|---|---|---|---|---|---|
| counter_record.go:289-298 | the size word is `uint32(unsafe.Sizeof(X{}))`, which counts Go's alignment padding, while `binary.Write` emits the fields packed | a VgCounters record: the size word says 96 but only 80 bytes of fields follow, so a reader going by the size word takes 16 bytes of the next record (likewise Vlan 32/28, Processor 32/28, HostDisk 56/52, HostNet 48/40) | the size word is the packed width, `binary.Size` of the struct | high; not executed | CounterRecords.SizeWordOverruns | CounterRecords.WireSizeRoundTrip |
| flow_sample.go:65-67 | `srcIdIndexVal[1]<<8` and `srcIdIndexVal[0]<<16` are shifted while still bytes, so both are 0 | index bytes 01 02 03 decode to 3 | the 24-bit index 0x010203 | high; not executed | FlowSamples.SourceIndexAsWrittenCounterexample | FlowSamples.SourceIdWordCorrectedRoundTrip |
| flow_sample.go:183-184 | the type OR-ed with the index shifted left by 24 puts the type in the low byte and the index's low byte in the high byte | type 1 with index 0x010203 is written as bytes 03 00 00 01 | type in the top byte, index in the low 24 bits: 01 01 02 03 | high; not executed | FlowSamples.SourceIdWordAsWrittenBytes | FlowSamples.SourceIdRoundTrip |
