/** The flow sample of sFlow version 5 and the record framing inside it:
    a fixed header, a record count, then that many records, each a 4-byte
    format, a 4-byte length and a body. Records of the four known formats
    go to a record decoder; the others are skipped by their length. */
module FlowSamples {
  import opened Wire

  /** TypeFlowSample: the sample-type word of a flow sample. */
  const TypeFlowSample: bv32 := 1

  /** The flow record formats the sample decoder dispatches on. */
  const TypeRawPacketFlowRecord: bv32 := 1
  const TypeExtendedSwitchFlowRecord: bv32 := 1001
  const TypeExtendedRouterFlowRecord: bv32 := 1002
  const TypeExtendedGatewayFlowRecord: bv32 := 1003

  predicate IsKnownFormat(format: bv32)
  {
    format == TypeRawPacketFlowRecord || format == TypeExtendedSwitchFlowRecord ||
    format == TypeExtendedRouterFlowRecord || format == TypeExtendedGatewayFlowRecord
  }

  /** The flow records themselves are not part of this model: `decode`
      stands for the four record decoders (selected by the format) and
      `encode` for a record's Encode into a buffer. A decoder is given the
      input from just past the record's length word and returns the record
      and the number of bytes it consumed, or an error; it is not told the
      declared length. An encoder returns the record's bytes, its own
      format and length words first, or None when it fails. */
  datatype RecordCodec<!R> = RecordCodec(
    decode: (bv32, seq<bv8>) -> Result<Parsed<R>, DecodeError>,
    encode: R -> Option<seq<bv8>>)

  /** An encoded record opens with its format, one of the known ones, and
      its length word. */
  ghost predicate EncodesFramed<R>(codec: RecordCodec<R>, r: R)
  {
    codec.encode(r).Some? ==>
      |codec.encode(r).value| >= 8 && IsKnownFormat(Word32(codec.encode(r).value[..4]))
  }

  /** The body of an encoded record decodes, under the format in its first
      word and whatever follows it, to that record, consuming the whole
      body. */
  ghost predicate DecodesBack<R>(codec: RecordCodec<R>, r: R, rest: seq<bv8>)
  {
    codec.encode(r).Some? && |codec.encode(r).value| >= 8 ==>
      var b := codec.encode(r).value;
      codec.decode(Word32(b[..4]), b[8..] + rest) == Success(Parsed(r, |b| - 8))
  }

  /** The round trip the record codecs are written to keep, for every
      record. */
  ghost predicate CodecRoundTrips<R(!new)>(codec: RecordCodec<R>)
  {
    && (forall r: R :: EncodesFramed(codec, r))
    && (forall r: R, rest: seq<bv8> :: DecodesBack(codec, r, rest))
  }

  /** FlowSample. `numRecords` is the record count read by the decoder, a
      uint32 held here as its value; the encoder does not look at it. */
  datatype FlowSample<R> = FlowSample(
    SequenceNum: bv32,
    SourceIdType: bv8,
    SourceIdIndexVal: bv32,
    SamplingRate: bv32,
    SamplePool: bv32,
    Drops: bv32,
    Input: bv32,
    Output: bv32,
    numRecords: nat,
    Records: seq<R>)
  {
    function SampleType(): bv32
    {
      TypeFlowSample
    }

    function GetRecords(): seq<R>
    {
      Records
    }
  }

  // ---------------------------------------------------------------------
  // The packed source id: a 1-byte type and a 3-byte index in one
  // big-endian word, type first.

  /** How the source id is packed: as the decoder and encoder are written,
      or type in the top byte and index in the low 24 bits as the sFlow
      source_id is laid out. */
  datatype Packing = AsWritten | Corrected

  /** Go's `<<` on a byte, one bit at a time: the bits shifted past the
      top are lost, so the byte keeps its value times 2^k modulo 0x100,
      and a shift by 8 or more leaves 0. */
  function ShiftByte(b: bv8, k: nat): (r: bv8)
    ensures r as int == b as int * Pow2(k) % 0x100
    ensures k >= 8 ==> r == 0
  {
    if k == 0 then b
    else
      var c := ShiftByte(b, k - 1);
      ShiftOne(c);
      DoubleMod((c << 1) as int, c as int, b as int, Pow2(k - 1));
      Pow2Wide(k, b as int);
      c << 1
  }

  /** 2 to the power k. */
  function Pow2(k: nat): (p: nat)
    ensures p >= 1
  {
    if k == 0 then 1 else 2 * Pow2(k - 1)
  }

  /** A byte shifted left by one bit is its double modulo 0x100. */
  lemma ShiftOne(c: bv8)
    ensures (c << 1) as int == 2 * (c as int) % 0x100
  {
  }

  /** Doubling commutes with keeping the low 8 bits. */
  lemma DoubleMod(x: int, y: int, n: nat, p: nat)
    requires y == n * p % 0x100
    requires x == 2 * y % 0x100
    ensures x == n * (2 * p) % 0x100
  {
    var m := n * p;
    var q := m / 0x100;
    assert n * (2 * p) == 2 * m;
    assert 2 * m == 2 * y + (2 * q) * 0x100;
  }

  /** From 2^8 on, multiples of a power of two are multiples of 0x100. */
  lemma Pow2Wide(k: nat, n: nat)
    ensures k >= 8 ==> n * Pow2(k) % 0x100 == 0
  {
    if k >= 8 {
      var q := Pow2Multiple(k);
      assert n * Pow2(k) == (n * q) * 0x100;
    }
  }

  lemma {:induction false} Pow2Multiple(k: nat) returns (q: nat)
    requires k >= 8
    ensures Pow2(k) == q * 0x100
  {
    if k == 8 {
      q := 1;
    } else {
      var q' := Pow2Multiple(k - 1);
      q := 2 * q';
    }
  }

  /** The index the decoder makes of its three index bytes. As written,
      b[1] << 8 and b[0] << 16 are shifted while still bytes, so both are
      zero and only b[2] is kept. */
  function SourceIndex(packing: Packing, b: seq<bv8>): bv32
    requires |b| == 3
  {
    match packing
    case AsWritten => b[2] as bv32 | ShiftByte(b[1], 8) as bv32 | ShiftByte(b[0], 16) as bv32
    case Corrected => (b[0] as bv32 << 16) | (b[1] as bv32 << 8) | b[2] as bv32
  }

  /** The source-id word the encoder writes. As written, the type lands in
      the low byte and the index is shifted up into the high byte. */
  function SourceIdWord(packing: Packing, sourceType: bv8, index: bv32): bv32
  {
    match packing
    case AsWritten => sourceType as bv32 | (index << 24)
    case Corrected => (sourceType as bv32 << 24) | (index & 0xFF_FFFF)
  }

  /** As written, the decoded index is the last index byte alone. */
  lemma SourceIndexAsWrittenKeepsLastByte(b: seq<bv8>)
    requires |b| == 3
    ensures SourceIndex(AsWritten, b) == b[2] as bv32
    ensures SourceIndex(AsWritten, b) == SourceIndex(Corrected, b) <==> b[0] == 0 && b[1] == 0
  {
  }

  /** The index bytes 01 02 03 stand for 0x010203 but decode to 3. */
  lemma SourceIndexAsWrittenCounterexample()
    ensures SourceIndex(Corrected, [1, 2, 3]) == 0x01_0203
    ensures SourceIndex(AsWritten, [1, 2, 3]) == 3
  {
  }

  /** As written, the word's bytes are the index's low byte, two zero
      bytes and the type: the type is read back from the wrong byte and the
      index is lost. */
  lemma SourceIdWordAsWrittenBytes(sourceType: bv8, index: bv32)
    ensures Be32(SourceIdWord(AsWritten, sourceType, index)) == [(index & 0xFF) as bv8, 0, 0, sourceType]
  {
    var x := SourceIdWord(AsWritten, sourceType, index);
    AsWrittenWordBytes(sourceType, index, x);
  }

  lemma AsWrittenWordBytes(sourceType: bv8, index: bv32, x: bv32)
    requires x == sourceType as bv32 | (index << 24)
    ensures (x >> 24) as bv8 == (index & 0xFF) as bv8
    ensures ((x >> 16) & 0xFF) as bv8 == 0
    ensures ((x >> 8) & 0xFF) as bv8 == 0
    ensures (x & 0xFF) as bv8 == sourceType
  {
    assert x >> 24 == index & 0xFF;
    assert x & 0xFF == sourceType as bv32;
  }

  /** Corrected, the word's bytes are the type and the three low bytes of
      the index, and reading them back gives the type and the index modulo
      2^24. */
  lemma SourceIdWordCorrectedRoundTrip(sourceType: bv8, index: bv32)
    ensures var b := Be32(SourceIdWord(Corrected, sourceType, index));
      && b[0] == sourceType
      && SourceIndex(Corrected, b[1..]) == index & 0xFF_FFFF
  {
  }

  /** The source id written by the encoder and read back by the decoder,
      both with the same packing: as written, the type and the index trade
      places (the type comes back as the index's low byte and the index as
      the type); corrected, the type comes back and the index modulo 2^24. */
  function SourceIdReread(packing: Packing, sourceType: bv8, index: bv32): (bv8, bv32)
  {
    match packing
    case AsWritten => ((index & 0xFF) as bv8, sourceType as bv32)
    case Corrected => (sourceType, index & 0xFF_FFFF)
  }

  lemma SourceIdRoundTrip(packing: Packing, sourceType: bv8, index: bv32)
    ensures var b := Be32(SourceIdWord(packing, sourceType, index));
      (b[0], SourceIndex(packing, b[1..])) == SourceIdReread(packing, sourceType, index)
  {
    if packing == AsWritten {
      SourceIdWordAsWrittenBytes(sourceType, index);
      SourceIndexAsWrittenKeepsLastByte(Be32(SourceIdWord(packing, sourceType, index))[1..]);
    } else {
      SourceIdWordCorrectedRoundTrip(sourceType, index);
    }
  }

  // ---------------------------------------------------------------------
  // Decoding the header

  /** `r.Read` of three index bytes from an in-memory reader: EOF when
      nothing is left, and the "counter sample decoding error" when fewer
      than three bytes come back. */
  function ReadSourceIndex(input: seq<bv8>, pos: nat): (r: Result<Parsed<seq<bv8>>, DecodeError>)
    ensures r.Success? <==> Avail(input, pos) >= 3
    ensures Avail(input, pos) == 0 ==> r == Failure(EOF)
    ensures 0 < Avail(input, pos) < 3 ==> r == Failure(ShortSourceIndex)
    ensures r.Success? ==> r.value == Parsed(input[pos..pos + 3], pos + 3)
  {
    var avail := Avail(input, pos);
    if avail == 0 then Failure(EOF)
    else if avail < 3 then Failure(ShortSourceIndex)
    else Success(Parsed(input[pos..pos + 3], pos + 3))
  }

  /** The header of a flow sample read field by field, up to and including
      the record count; the record list is still empty. */
  function DecodeHeader<R>(packing: Packing, input: seq<bv8>, cursor: nat)
    : (r: Result<Parsed<FlowSample<R>>, DecodeError>)
    ensures r.Success? ==> Avail(input, cursor) >= HEADER_BYTES && r.value.next == cursor + HEADER_BYTES
  {
    var sequenceNum :- ReadU32(input, cursor);
    var sourceIdType :- ReadU8(input, sequenceNum.next);
    var index :- ReadSourceIndex(input, sourceIdType.next);
    var samplingRate :- ReadU32(input, index.next);
    var samplePool :- ReadU32(input, samplingRate.next);
    var drops :- ReadU32(input, samplePool.next);
    var inputIf :- ReadU32(input, drops.next);
    var outputIf :- ReadU32(input, inputIf.next);
    var numRecords :- ReadCount(input, outputIf.next);
    Success(Parsed(FlowSample(sequenceNum.value, sourceIdType.value, SourceIndex(packing, index.value),
                              samplingRate.value, samplePool.value, drops.value, inputIf.value,
                              outputIf.value, numRecords.value, []),
                   numRecords.next))
  }

  /** The header is 32 bytes: sequence number, source type, 3 index
      bytes, five more words, then the record count. */
  const HEADER_BYTES: nat := 32

  /** The header fields by their offsets in the 32 header bytes. */
  function HeaderAt<R>(packing: Packing, b: seq<bv8>): FlowSample<R>
    requires |b| == HEADER_BYTES
  {
    FlowSample(Word32(b[0..4]), b[4], SourceIndex(packing, b[5..8]), Word32(b[8..12]),
               Word32(b[12..16]), Word32(b[16..20]), Word32(b[20..24]), Word32(b[24..28]),
               WordValue(b[28..32]), [])
  }

  /** With 32 bytes available the header read succeeds and every field is
      the one at its offset. */
  lemma HeaderFields<R>(packing: Packing, input: seq<bv8>, cursor: nat)
    requires Avail(input, cursor) >= HEADER_BYTES
    ensures DecodeHeader<R>(packing, input, cursor) ==
      Success(Parsed(HeaderAt(packing, input[cursor..cursor + HEADER_BYTES]), cursor + HEADER_BYTES))
  {
    var b := input[cursor..cursor + HEADER_BYTES];
    forall i, j | 0 <= i <= j <= HEADER_BYTES
      ensures input[cursor + i..cursor + j] == b[i..j]
    {
      SliceOfSlice(input, cursor, cursor + HEADER_BYTES, i, j);
    }
    assert ReadU32(input, cursor) == Success(Parsed(Word32(b[0..4]), cursor + 4));
    assert ReadU8(input, cursor + 4) == Success(Parsed(b[4], cursor + 5)) by {
      assert [b[4]] == b[4..5];
    }
    assert ReadSourceIndex(input, cursor + 5) == Success(Parsed(b[5..8], cursor + 8));
    assert ReadU32(input, cursor + 8) == Success(Parsed(Word32(b[8..12]), cursor + 12));
    assert ReadU32(input, cursor + 12) == Success(Parsed(Word32(b[12..16]), cursor + 16));
    assert ReadU32(input, cursor + 16) == Success(Parsed(Word32(b[16..20]), cursor + 20));
    assert ReadU32(input, cursor + 20) == Success(Parsed(Word32(b[20..24]), cursor + 24));
    assert ReadU32(input, cursor + 24) == Success(Parsed(Word32(b[24..28]), cursor + 28));
    assert ReadCount(input, cursor + 28) == Success(Parsed(WordValue(b[28..32]), cursor + 32));
  }

  /** With fewer than 32 bytes available the header read stops at the
      field the input runs out in, with the error that read gives. */
  lemma HeaderTruncation<R>(packing: Packing, input: seq<bv8>, cursor: nat)
    requires Avail(input, cursor) < HEADER_BYTES
    ensures DecodeHeader<R>(packing, input, cursor) == Failure(HeaderReadError(Avail(input, cursor)))
  {
    var a := Avail(input, cursor);
    assert ReadU32(input, cursor).Success? <==> a >= 4;
    assert ReadU8(input, cursor + 4).Success? <==> a >= 5;
    assert ReadSourceIndex(input, cursor + 5).Success? <==> a >= 8;
    assert ReadU32(input, cursor + 8).Success? <==> a >= 12;
    assert ReadU32(input, cursor + 12).Success? <==> a >= 16;
    assert ReadU32(input, cursor + 16).Success? <==> a >= 20;
    assert ReadU32(input, cursor + 20).Success? <==> a >= 24;
    assert ReadU32(input, cursor + 24).Success? <==> a >= 28;
    assert ReadCount(input, cursor + 28).Failure?;
  }

  /** The error a header read stops with when only `avail` bytes are left:
      a word read that finds nothing is EOF and one that finds part of a
      word is UnexpectedEOF; the index read fails on one or two bytes. */
  function HeaderReadError(avail: nat): DecodeError
  {
    if avail == 6 || avail == 7 then ShortSourceIndex
    else if avail == 4 || avail == 5 || avail % 4 == 0 then EOF
    else UnexpectedEOF
  }

  // ---------------------------------------------------------------------
  // Decoding the records

  /** One pass of the decode loop: the record's format and length words at
      `at`, and where the cursor is after it. `record` is the decoded record
      for a known format and None for a skipped one. */
  datatype Entry<R> = Entry(format: bv32, length: bv32, at: nat, record: Option<R>, end: nat)

  /** What one pass of the loop reads: the format and length words, then
      for a known format the decoder's record and bytes, and for any other
      format exactly `length` bytes skipped. */
  ghost predicate Framed<R>(codec: RecordCodec<R>, input: seq<bv8>, e: Entry<R>)
  {
    && Avail(input, e.at) >= 8
    && input[e.at..e.at + 4] == Be32(e.format)
    && input[e.at + 4..e.at + 8] == Be32(e.length)
    && (e.record.Some? <==> IsKnownFormat(e.format))
    && (e.record.None? ==> e.end == e.at + 8 + e.length as nat)
    && (e.record.Some? ==>
          (e.end >= e.at + 8 &&
           codec.decode(e.format, Remaining(input, e.at + 8)) == Success(Parsed(e.record.value, e.end - (e.at + 8)))))
  }

  /** One pass of the decode loop, as a function. */
  function ReadEntry<R>(codec: RecordCodec<R>, input: seq<bv8>, pos: nat): (r: Result<Entry<R>, DecodeError>)
    ensures r.Success? ==> r.value.at == pos && r.value.end >= pos + 8
    ensures Avail(input, pos) < 8 ==> r.Failure?
  {
    var format :- ReadU32(input, pos);
    var length :- ReadU32(input, format.next);
    if IsKnownFormat(format.value) then
      var rec :- codec.decode(format.value, Remaining(input, length.next));
      Success(Entry(format.value, length.value, pos, Some(rec.value), length.next + rec.next))
    else
      Success(Entry(format.value, length.value, pos, None, length.next + length.value as nat))
  }

  /** A pass that succeeds reads one framed entry. */
  lemma EntryFramed<R>(codec: RecordCodec<R>, input: seq<bv8>, pos: nat)
    ensures ReadEntry(codec, input, pos).Success? ==> Framed(codec, input, ReadEntry(codec, input, pos).value)
  {
  }

  /** The entries are read back to back from `cursor`, and the last ends
      at `next`. */
  ghost predicate Chained<R>(es: seq<Entry<R>>, cursor: nat, next: nat)
  {
    && (forall i | 0 <= i < |es| :: es[i].at == if i == 0 then cursor else es[i - 1].end)
    && next == if es == [] then cursor else es[|es| - 1].end
  }

  /** The decode loop: `count` passes from `cursor`; the first error ends
      it. */
  function ReadEntries<R>(codec: RecordCodec<R>, input: seq<bv8>, cursor: nat, count: nat)
    : (r: Result<Parsed<seq<Entry<R>>>, DecodeError>)
    decreases count
    ensures r.Success? ==> |r.value.value| == count
  {
    if count == 0 then Success(Parsed([], cursor))
    else
      var e :- ReadEntry(codec, input, cursor);
      var rest :- ReadEntries(codec, input, e.end, count - 1);
      Success(Parsed([e] + rest.value, rest.next))
  }

  /** A successful loop reads its entries back to back from `cursor` and
      leaves the cursor where the last one ends. */
  lemma {:induction false} EntriesChained<R>(codec: RecordCodec<R>, input: seq<bv8>, cursor: nat, count: nat)
    ensures var r := ReadEntries(codec, input, cursor, count);
      r.Success? ==> Chained(r.value.value, cursor, r.value.next)
    decreases count
  {
    var r := ReadEntries(codec, input, cursor, count);
    if count > 0 && r.Success? {
      var e := ReadEntry(codec, input, cursor).value;
      var rest := ReadEntries(codec, input, e.end, count - 1);
      EntriesChained(codec, input, e.end, count - 1);
      var es := r.value.value;
      assert es == [e] + rest.value.value;
      forall i | 0 <= i < |es|
        ensures es[i].at == if i == 0 then cursor else es[i - 1].end
      {
        if i > 1 {
          assert es[i] == rest.value.value[i - 1] && es[i - 1] == rest.value.value[i - 2];
        }
      }
    }
  }

  /** Every entry of a successful loop is framed as one pass reads it. */
  lemma {:induction false} EntriesFramed<R>(codec: RecordCodec<R>, input: seq<bv8>, cursor: nat, count: nat)
    ensures var r := ReadEntries(codec, input, cursor, count);
      r.Success? ==> forall i | 0 <= i < |r.value.value| :: Framed(codec, input, r.value.value[i])
    decreases count
  {
    var r := ReadEntries(codec, input, cursor, count);
    if count > 0 && r.Success? {
      var e := ReadEntry(codec, input, cursor).value;
      var rest := ReadEntries(codec, input, e.end, count - 1);
      EntryFramed(codec, input, cursor);
      EntriesFramed(codec, input, e.end, count - 1);
      var es := r.value.value;
      assert es == [e] + rest.value.value;
      forall i | 0 <= i < |es|
        ensures Framed(codec, input, es[i])
      {
        if i > 0 {
          assert es[i] == rest.value.value[i - 1];
        }
      }
    }
  }

  /** The records of the entries with a known format, in stream order. */
  function Known<R>(es: seq<Entry<R>>): (rs: seq<R>)
    ensures |rs| <= |es|
  {
    if es == [] then []
    else (if es[0].record.Some? then [es[0].record.value] else []) + Known(es[1..])
  }

  lemma {:induction false} KnownSnoc<R>(es: seq<Entry<R>>, e: Entry<R>)
    ensures Known(es + [e]) == Known(es) + if e.record.Some? then [e.record.value] else []
  {
    if es != [] {
      assert (es + [e])[1..] == es[1..] + [e];
      KnownSnoc(es[1..], e);
    }
  }

  /** decodeFlowSample: the header, then the record loop. */
  function DecodeSample<R>(codec: RecordCodec<R>, packing: Packing, input: seq<bv8>, cursor: nat)
    : (r: Result<Parsed<FlowSample<R>>, DecodeError>)
  {
    var h :- DecodeHeader(packing, input, cursor);
    var es :- ReadEntries(codec, input, h.next, h.value.numRecords);
    Success(Parsed(h.value.(Records := Known(es.value)), es.next))
  }

  /** A decoded sample is its header read from the 32 bytes at the cursor
      and the known records of exactly `numRecords` framed entries read
      back to back after them; a failed header read fails with the error
      its position gives. */
  lemma DecodedSample<R>(codec: RecordCodec<R>, packing: Packing, input: seq<bv8>, cursor: nat)
    ensures var r := DecodeSample(codec, packing, input, cursor);
      && (Avail(input, cursor) < HEADER_BYTES ==> r == Failure(HeaderReadError(Avail(input, cursor))))
      && (r.Success? ==>
            && Avail(input, cursor) >= HEADER_BYTES
            && r.value.value.(Records := []) == HeaderAt(packing, input[cursor..cursor + HEADER_BYTES])
            && var es := ReadEntries(codec, input, cursor + HEADER_BYTES, r.value.value.numRecords);
               && es.Success?
               && |es.value.value| == r.value.value.numRecords
               && r.value.value.Records == Known(es.value.value)
               && r.value.next == es.value.next)
  {
    if Avail(input, cursor) < HEADER_BYTES {
      HeaderTruncation<R>(packing, input, cursor);
    } else {
      HeaderFields<R>(packing, input, cursor);
    }
  }

  /** The result of `count` further passes behind the entries already
      read; an error stays an error. */
  function Continue<R>(done: seq<Entry<R>>, r: Result<Parsed<seq<Entry<R>>>, DecodeError>)
    : Result<Parsed<seq<Entry<R>>>, DecodeError>
  {
    match r
    case Failure(e) => Failure(e)
    case Success(p) => Success(Parsed(done + p.value, p.next))
  }

  /** One more pass of the loop: its entry, then the passes after it. */
  lemma EntriesStep<R>(codec: RecordCodec<R>, input: seq<bv8>, pos: nat, count: nat)
    requires count > 0
    ensures ReadEntries(codec, input, pos, count) ==
      match ReadEntry(codec, input, pos)
      case Failure(err) => Failure(err)
      case Success(e) => Continue([e], ReadEntries(codec, input, e.end, count - 1))
  {
  }

  /** An entry followed by a successful run of passes is one more
      successful pass, and its record, if any, comes first. */
  lemma EntriesCons<R>(codec: RecordCodec<R>, input: seq<bv8>, cursor: nat, count: nat, e: Entry<R>,
                       later: Parsed<seq<Entry<R>>>)
    requires count > 0
    requires ReadEntry(codec, input, cursor) == Success(e)
    requires ReadEntries(codec, input, e.end, count - 1) == Success(later)
    ensures ReadEntries(codec, input, cursor, count) == Success(Parsed([e] + later.value, later.next))
    ensures Known([e] + later.value) == (if e.record.Some? then [e.record.value] else []) + Known(later.value)
  {
    assert ([e] + later.value)[1..] == later.value;
  }

  lemma ContinueSnoc<R>(done: seq<Entry<R>>, e: Entry<R>, r: Result<Parsed<seq<Entry<R>>>, DecodeError>)
    ensures Continue(done, Continue([e], r)) == Continue(done + [e], r)
  {
    if r.Success? {
      assert done + ([e] + r.value.value) == (done + [e]) + r.value.value;
    }
  }

  /** decodeFlowSample(r): reads the header fields one by one, then loops
      numRecords times reading a format and a length and either decoding
      the record or seeking past it. Any failed read or record decode
      returns the error and no sample. */
  method DecodeFlowSample<R>(codec: RecordCodec<R>, input: seq<bv8>, cursor: nat)
    returns (r: Result<Parsed<FlowSample<R>>, DecodeError>)
    ensures r == DecodeSample(codec, AsWritten, input, cursor)
  {
    var header :- DecodeHeader(AsWritten, input, cursor);
    var s := header.value;
    var n := s.numRecords;
    var start := header.next;
    var pos := start;
    var records: seq<R> := [];
    ghost var done: seq<Entry<R>> := [];
    var i := 0;
    ghost var r0 := ReadEntries(codec, input, start, n);
    if r0.Success? {
      assert done + r0.value.value == r0.value.value;
    }
    while i < n
      invariant i <= n
      invariant records == Known(done)
      invariant ReadEntries(codec, input, start, n) == Continue(done, ReadEntries(codec, input, pos, n - i))
    {
      EntriesStep(codec, input, pos, n - i);
      var e :- ReadEntry(codec, input, pos);
      if e.record.Some? {
        records := records + [e.record.value];
      }
      KnownSnoc(done, e);
      ContinueSnoc(done, e, ReadEntries(codec, input, e.end, n - i - 1));
      done := done + [e];
      pos := e.end;
      i := i + 1;
    }
    assert done + [] == done;
    r := Success(Parsed(s.(Records := records), pos));
  }

  // ---------------------------------------------------------------------
  // Encoding

  /** The records encoded one after another in list order; None when any
      of them fails to encode. */
  function EncodeRecords<R>(codec: RecordCodec<R>, rs: seq<R>): Option<seq<bv8>>
  {
    if rs == [] then Some([])
    else
      match codec.encode(rs[0])
      case None => None
      case Some(b) =>
        match EncodeRecords(codec, rs[1..])
        case None => None
        case Some(rest) => Some(b + rest)
  }

  /** Encoding the list fails exactly when one of its records fails to
      encode, and otherwise yields at least 8 bytes per record when the
      records keep the codec's round trip. */
  lemma {:induction false} EncodeRecordsSucceeds<R>(codec: RecordCodec<R>, rs: seq<R>)
    ensures EncodeRecords(codec, rs).Some? <==> forall i | 0 <= i < |rs| :: codec.encode(rs[i]).Some?
  {
    if rs != [] {
      EncodeRecordsSucceeds(codec, rs[1..]);
      assert forall i | 1 <= i < |rs| :: rs[i] == rs[1..][i - 1];
    }
  }

  /** Under the codec round trip every encoded record is at least its 8
      framing bytes long. */
  lemma {:induction false} EncodeRecordsLength<R(!new)>(codec: RecordCodec<R>, rs: seq<R>)
    requires CodecRoundTrips(codec)
    requires EncodeRecords(codec, rs).Some?
    ensures |EncodeRecords(codec, rs).value| >= 8 * |rs|
  {
    if rs != [] {
      assert EncodesFramed(codec, rs[0]);
      EncodeRecordsLength(codec, rs[1..]);
    }
  }

  /** Encoding a list in two parts is encoding each part. */
  lemma {:induction false} EncodeRecordsAppend<R>(codec: RecordCodec<R>, xs: seq<R>, ys: seq<R>)
    ensures EncodeRecords(codec, xs + ys) ==
      if EncodeRecords(codec, xs).Some? && EncodeRecords(codec, ys).Some?
      then Some(EncodeRecords(codec, xs).value + EncodeRecords(codec, ys).value)
      else None
  {
    if xs == [] {
      assert xs + ys == ys;
      if EncodeRecords(codec, ys).Some? {
        assert [] + EncodeRecords(codec, ys).value == EncodeRecords(codec, ys).value;
      }
    } else {
      assert (xs + ys)[0] == xs[0];
      assert (xs + ys)[1..] == xs[1..] + ys;
      EncodeRecordsAppend(codec, xs[1..], ys);
      if EncodeRecords(codec, xs).Some? && EncodeRecords(codec, ys).Some? {
        var b := codec.encode(xs[0]).value;
        var x1 := EncodeRecords(codec, xs[1..]).value;
        var y := EncodeRecords(codec, ys).value;
        assert b + (x1 + y) == (b + x1) + y;
      }
    }
  }

  /** The size word: the 32 bytes of fixed fields after it, the record
      count included, plus the encoded records. The uint32 sum wraps, so
      the word is the sum modulo 2^32. */
  function BodySize(body: seq<bv8>): bv32
  {
    Uint32(HEADER_BYTES + |body|)
  }

  /** The ten words encode writes before the records. */
  function HeaderWords<R>(packing: Packing, s: FlowSample<R>, body: seq<bv8>): (ws: seq<bv32>)
    ensures |ws| == 10
  {
    [s.SampleType(), BodySize(body), s.SequenceNum, SourceIdWord(packing, s.SourceIdType, s.SourceIdIndexVal),
     s.SamplingRate, s.SamplePool, s.Drops, s.Input, s.Output, Uint32(|s.Records|)]
  }

  /** The bytes encode writes for `s` whose records encode to `body`. */
  function EncodedSample<R>(packing: Packing, s: FlowSample<R>, body: seq<bv8>): (out: seq<bv8>)
    ensures |out| == 40 + |body|
  {
    Words(HeaderWords(packing, s, body)) + body
  }

  /** The sample type comes first, then the size word, which counts the
      bytes that follow it modulo 2^32; the record count is the length of
      the record list modulo 2^32, and the records' bytes close the sample,
      unchanged. */
  lemma EncodedLayout<R>(packing: Packing, s: FlowSample<R>, body: seq<bv8>)
    ensures var out := EncodedSample(packing, s, body);
      && out[0..4] == Be32(TypeFlowSample)
      && WordValue(out[4..8]) == (|out| - 8) % WORD32
      && WordValue(out[36..40]) == |s.Records| % WORD32
      && out[40..] == body
  {
    var ws := HeaderWords(packing, s, body);
    var w := Words(ws);
    var out := w + body;
    assert out[0..4] == Be32(TypeFlowSample) by {
      WordsAt(ws, 0);
      assert out[0..4] == w[0..4];
    }
    assert WordValue(out[4..8]) == (|out| - 8) % WORD32 by {
      WordsAt(ws, 1);
      assert out[4..8] == w[4..8];
      Uint32Value(HEADER_BYTES + |body|);
    }
    assert WordValue(out[36..40]) == |s.Records| % WORD32 by {
      WordsAt(ws, 9);
      assert out[36..40] == w[36..40];
      Uint32Value(|s.Records|);
    }
    assert out[40..] == body;
  }

  /** The header fields as the decoder reads them back from an encoded
      sample: every word as written, the record count as the list's length
      modulo 2^32, and the source id as the packing leaves it. */
  function RereadHeader<R>(packing: Packing, s: FlowSample<R>): FlowSample<R>
  {
    var (t, index) := SourceIdReread(packing, s.SourceIdType, s.SourceIdIndexVal);
    s.(SourceIdType := t, SourceIdIndexVal := index, numRecords := |s.Records| % WORD32, Records := [])
  }

  /** The 32 bytes after the type and size words decode to the header the
      sample was encoded from, as RereadHeader says. */
  lemma {:induction false} EncodedHeader<R>(packing: Packing, s: FlowSample<R>, body: seq<bv8>)
    ensures HeaderAt(packing, EncodedSample(packing, s, body)[8..40]) == RereadHeader<R>(packing, s)
  {
    var ws := HeaderWords(packing, s, body);
    var out := EncodedSample(packing, s, body);
    var hb := out[8..40];
    forall k | 2 <= k < 10
      ensures hb[4 * k - 8..4 * k - 4] == Be32(ws[k])
    {
      WordsAt(ws, k);
      assert hb[4 * k - 8..4 * k - 4] == Words(ws)[4 * k..4 * k + 4];
    }
    assert hb[0..4] == Be32(ws[2]);
    assert hb[4..8] == Be32(ws[3]);
    assert hb[4] == Be32(ws[3])[0] && hb[5..8] == Be32(ws[3])[1..];
    SourceIdRoundTrip(packing, s.SourceIdType, s.SourceIdIndexVal);
    assert hb[8..12] == Be32(ws[4]);
    assert hb[12..16] == Be32(ws[5]);
    assert hb[16..20] == Be32(ws[6]);
    assert hb[20..24] == Be32(ws[7]);
    assert hb[24..28] == Be32(ws[8]);
    assert hb[28..32] == Be32(ws[9]);
    Uint32Value(|s.Records|);
  }

  datatype EncodeError = ErrEncodingRecord | WriteFailed(cause: WriteError)

  /** (*FlowSample).encode(w): every record is encoded into a buffer first,
      and a record that fails stops encode with ErrEncodingRecord before
      anything is written to `w`. Then the ten header words are written,
      each with its own Write, and the buffer is copied; the first write
      error is returned and nothing after it is written. */
  method Encode<R>(s: FlowSample<R>, codec: RecordCodec<R>, w: Sink) returns (err: Option<EncodeError>)
    modifies w
    ensures EncodeRecords(codec, s.Records).None? ==>
      err == Some(ErrEncodingRecord) && w.bytes == old(w.bytes) && w.calls == old(w.calls)
    ensures EncodeRecords(codec, s.Records).Some? ==>
      && Emitted(w.bytes, w.calls, old(w.bytes), old(w.calls), old(w.Accepting()),
                 EncodedSample(AsWritten, s, EncodeRecords(codec, s.Records).value), 10, err.None?)
      && (err.Some? ==> err.value.WriteFailed?)
  {
    var buf: seq<bv8> := [];
    var i := 0;
    while i < |s.Records|
      invariant i <= |s.Records|
      invariant EncodeRecords(codec, s.Records[..i]) == Some(buf)
      invariant unchanged(w)
    {
      var b := codec.encode(s.Records[i]);
      EncodeRecordsAppend(codec, s.Records[..i], [s.Records[i]]);
      assert [s.Records[i]][1..] == [];
      if b.Some? {
        assert b.value + [] == b.value;
      }
      assert s.Records[..i] + [s.Records[i]] == s.Records[..i + 1];
      if b.None? {
        EncodeRecordsAppend(codec, s.Records[..i + 1], s.Records[i + 1..]);
        assert s.Records[..i + 1] + s.Records[i + 1..] == s.Records;
        return Some(ErrEncodingRecord);
      }
      buf := buf + b.value;
      i := i + 1;
    }
    assert s.Records[..i] == s.Records;
    var werr := w.WriteFrame(HeaderWords(AsWritten, s, buf), buf);
    err := if werr.Some? then Some(WriteFailed(werr.value)) else None;
  }

  // ---------------------------------------------------------------------
  // Round trip

  /** `bytes` stand in `input` from `cursor` on, one byte at a time. */
  ghost predicate StandsAt(input: seq<bv8>, cursor: nat, bytes: seq<bv8>)
    decreases |bytes|
  {
    && cursor + |bytes| <= |input|
    && (bytes != [] ==> input[cursor] == bytes[0] && StandsAt(input, cursor + 1, bytes[1..]))
  }

  lemma {:induction false} StandsAtSlice(input: seq<bv8>, cursor: nat, bytes: seq<bv8>)
    ensures StandsAt(input, cursor, bytes) <==>
      cursor + |bytes| <= |input| && input[cursor..cursor + |bytes|] == bytes
    decreases |bytes|
  {
    if bytes != [] && cursor + |bytes| <= |input| {
      StandsAtSlice(input, cursor + 1, bytes[1..]);
      assert input[cursor..cursor + |bytes|] == [input[cursor]] + input[cursor + 1..cursor + |bytes|];
    }
  }

  /** Bytes that stand at `cursor` as `x + y` hold `x` there and `y` just
      after it. */
  lemma StandsAtSplit(input: seq<bv8>, cursor: nat, x: seq<bv8>, y: seq<bv8>)
    requires StandsAt(input, cursor, x + y)
    ensures StandsAt(input, cursor, x) && StandsAt(input, cursor + |x|, y)
  {
    StandsAtSlice(input, cursor, x + y);
    StandsAtSlice(input, cursor, x);
    StandsAtSlice(input, cursor + |x|, y);
    assert input[cursor..cursor + |x|] == (x + y)[..|x|];
    assert input[cursor + |x|..cursor + |x| + |y|] == (x + y)[|x|..];
  }

  /** Passes of `step` from `cursor` read the records `rs` one after
      another, the last ending at `next`. */
  ghost predicate Laid<R>(step: nat -> Result<Entry<R>, DecodeError>, cursor: nat, rs: seq<R>, next: nat)
    decreases |rs|
  {
    if rs == [] then next == cursor
    else
      && step(cursor).Success?
      && step(cursor).value.record == Some(rs[0])
      && Laid(step, step(cursor).value.end, rs[1..], next)
  }

  /** `step` is one pass of the decode loop over `input`. */
  ghost predicate PassOver<R>(step: nat -> Result<Entry<R>, DecodeError>, codec: RecordCodec<R>, input: seq<bv8>)
  {
    forall pos: nat :: step(pos) == ReadEntry(codec, input, pos)
  }

  /** Wherever an encoded record stands in the input, `step` reads it
      back whole. */
  ghost predicate ReadsEncoded<R(!new)>(step: nat -> Result<Entry<R>, DecodeError>, codec: RecordCodec<R>, input: seq<bv8>)
  {
    forall pos: nat, r: R | codec.encode(r).Some? && StandsAt(input, pos, codec.encode(r).value) ::
      && step(pos).Success?
      && step(pos).value.record == Some(r)
      && step(pos).value.end == pos + |codec.encode(r).value|
  }

  /** Records laid out one pass after another are what the loop reads. */
  lemma {:induction false} LaidEntries<R>(codec: RecordCodec<R>, input: seq<bv8>, step: nat -> Result<Entry<R>, DecodeError>,
                                          cursor: nat, rs: seq<R>, next: nat)
    requires PassOver(step, codec, input)
    requires Laid(step, cursor, rs, next)
    ensures var es := ReadEntries(codec, input, cursor, |rs|);
      es.Success? && Known(es.value.value) == rs && es.value.next == next
    decreases |rs|
  {
    if rs != [] {
      assert step(cursor) == ReadEntry(codec, input, cursor);
      LaidEntries(codec, input, step, step(cursor).value.end, rs[1..], next);
      RecordsStep(codec, input, cursor, rs, next);
    }
  }

  /** Encoded records standing in the input are laid out one pass after
      another, ending just past them. */
  lemma {:induction false} EncodedLaid<R(!new)>(codec: RecordCodec<R>, input: seq<bv8>, step: nat -> Result<Entry<R>, DecodeError>,
                                                rs: seq<R>, cursor: nat, next: nat)
    requires ReadsEncoded(step, codec, input)
    requires EncodeRecords(codec, rs).Some?
    requires StandsAt(input, cursor, EncodeRecords(codec, rs).value)
    requires next == cursor + |EncodeRecords(codec, rs).value|
    ensures Laid(step, cursor, rs, next)
    decreases |rs|
  {
    if rs != [] {
      var b := codec.encode(rs[0]).value;
      var tail := EncodeRecords(codec, rs[1..]).value;
      assert EncodeRecords(codec, rs).value == b + tail;
      StandsAtSplit(input, cursor, b, tail);
      EncodedLaid(codec, input, step, rs[1..], cursor + |b|, next);
    }
  }

  /** A pass of the decode loop reads back whole any record that keeps the
      codec's round trip, wherever it stands in the input. */
  lemma PassReadsEncoded<R(!new)>(codec: RecordCodec<R>, input: seq<bv8>, step: nat -> Result<Entry<R>, DecodeError>)
    requires CodecRoundTrips(codec)
    requires PassOver(step, codec, input)
    ensures ReadsEncoded(step, codec, input)
  {
    forall pos: nat, r: R | codec.encode(r).Some? && StandsAt(input, pos, codec.encode(r).value)
      ensures && step(pos).Success?
              && step(pos).value.record == Some(r)
              && step(pos).value.end == pos + |codec.encode(r).value|
    {
      assert step(pos) == ReadEntry(codec, input, pos);
      StandsAtSlice(input, pos, codec.encode(r).value);
      EncodedEntry(codec, r, input, pos);
    }
  }

  /** Decoding a run of encoded records, from wherever it stands in the
      input, gives back the records in order, ending just past the run. */
  lemma RecordsRoundTrip<R(!new)>(codec: RecordCodec<R>, rs: seq<R>, input: seq<bv8>, cursor: nat)
    requires CodecRoundTrips(codec)
    requires EncodeRecords(codec, rs).Some?
    requires StandsAt(input, cursor, EncodeRecords(codec, rs).value)
    ensures var es := ReadEntries(codec, input, cursor, |rs|);
      && es.Success?
      && Known(es.value.value) == rs
      && es.value.next == cursor + |EncodeRecords(codec, rs).value|
  {
    var step := (pos: nat) => ReadEntry(codec, input, pos);
    PassReadsEncoded(codec, input, step);
    EncodedLaid(codec, input, step, rs, cursor, cursor + |EncodeRecords(codec, rs).value|);
    LaidEntries(codec, input, step, cursor, rs, cursor + |EncodeRecords(codec, rs).value|);
  }

  /** A pass that reads the first record, followed by passes that read
      the others, reads all of them. */
  lemma RecordsStep<R>(codec: RecordCodec<R>, input: seq<bv8>, cursor: nat, rs: seq<R>, next: nat)
    requires rs != []
    requires ReadEntry(codec, input, cursor).Success? && ReadEntry(codec, input, cursor).value.record == Some(rs[0])
    requires var es := ReadEntries(codec, input, ReadEntry(codec, input, cursor).value.end, |rs| - 1);
      es.Success? && Known(es.value.value) == rs[1..] && es.value.next == next
    ensures var es := ReadEntries(codec, input, cursor, |rs|);
      es.Success? && Known(es.value.value) == rs && es.value.next == next
  {
    var e := ReadEntry(codec, input, cursor).value;
    EntriesCons(codec, input, cursor, |rs|, e, ReadEntries(codec, input, e.end, |rs| - 1).value);
    assert rs == [rs[0]] + rs[1..];
  }

  /** One encoded record in the input is read back as one entry holding
      the record and ending just past its bytes. */
  lemma EncodedEntry<R(!new)>(codec: RecordCodec<R>, r: R, input: seq<bv8>, cursor: nat)
    requires CodecRoundTrips(codec)
    requires codec.encode(r).Some?
    requires var b := codec.encode(r).value;
      cursor + |b| <= |input| && input[cursor..cursor + |b|] == b
    ensures var b := codec.encode(r).value;
      && |b| >= 8
      && ReadEntry(codec, input, cursor) == Success(Entry(Word32(b[..4]), Word32(b[4..8]), cursor, Some(r), cursor + |b|))
  {
    var b := codec.encode(r).value;
    var after := Remaining(input, cursor + |b|);
    assert EncodesFramed(codec, r);
    assert DecodesBack(codec, r, after);
    assert input[cursor..cursor + 4] == b[..4] by {
      SliceOfSlice(input, cursor, cursor + |b|, 0, 4);
    }
    assert input[cursor + 4..cursor + 8] == b[4..8] by {
      SliceOfSlice(input, cursor, cursor + |b|, 4, 8);
    }
    assert Remaining(input, cursor + 8) == b[8..] + after by {
      SliceOfSlice(input, cursor, cursor + |b|, 8, |b|);
      assert input[cursor + 8..] == input[cursor + 8..cursor + |b|] + input[cursor + |b|..];
    }
    KnownEntry(codec, input, cursor, r, |b| - 8);
  }

  /** A pass over an entry of a known format whose body decodes. */
  lemma KnownEntry<R>(codec: RecordCodec<R>, input: seq<bv8>, pos: nat, rec: R, n: nat)
    requires Avail(input, pos) >= 8
    requires IsKnownFormat(Word32(input[pos..pos + 4]))
    requires codec.decode(Word32(input[pos..pos + 4]), Remaining(input, pos + 8)) == Success(Parsed(rec, n))
    ensures ReadEntry(codec, input, pos)
      == Success(Entry(Word32(input[pos..pos + 4]), Word32(input[pos + 4..pos + 8]), pos, Some(rec), pos + 8 + n))
  {
  }

  /** What one encode followed by one decode does to a sample, the decoder
      starting after the sample-type and size words: the size word counts
      the bytes the decoder reads; every scalar field and every record comes
      back, in order, and the count read is the number of records. The
      source id comes back as SourceIdReread says: as written, type and
      index trade places; corrected, the type comes back and the index
      modulo 2^24. */
  lemma {:induction false} SampleRoundTrip<R(!new)>(codec: RecordCodec<R>, packing: Packing, s: FlowSample<R>, rest: seq<bv8>)
    requires CodecRoundTrips(codec)
    requires EncodeRecords(codec, s.Records).Some?
    requires 40 + |EncodeRecords(codec, s.Records).value| < WORD32
    ensures var out := EncodedSample(packing, s, EncodeRecords(codec, s.Records).value);
      var d := DecodeSample(codec, packing, out[8..] + rest, 0);
      && d.Success?
      && d.value.next == |out| - 8 == WordValue(out[4..8])
      && d.value.value == RereadHeader(packing, s).(Records := s.Records)
      && d.value.value.numRecords == |s.Records|
      && d.value.value.GetRecords() == s.GetRecords()
  {
    var body := EncodeRecords(codec, s.Records).value;
    var out := EncodedSample(packing, s, body);
    var input := out[8..] + rest;
    var h := RereadHeader<R>(packing, s);
    assert |s.Records| < WORD32 by {
      EncodeRecordsLength(codec, s.Records);
    }
    DecodeEncodedHeader(packing, s, body, rest);
    assert h.numRecords == |s.Records| by {
      SmallWord(|s.Records|);
    }
    assert WordValue(out[4..8]) == |out| - 8 by {
      SmallWord(|out| - 8);
      EncodedLayout(packing, s, body);
    }
    var es := ReadEntries(codec, input, HEADER_BYTES, |s.Records|);
    assert es.Success? && Known(es.value.value) == s.Records && es.value.next == |out| - 8 by {
      EncodedLayout(packing, s, body);
      assert input[HEADER_BYTES..HEADER_BYTES + |body|] == body;
      StandsAtSlice(input, HEADER_BYTES, body);
      RecordsRoundTrip(codec, s.Records, input, HEADER_BYTES);
    }
    DecodeSampleOf(codec, packing, input, h, es.value);
  }

  /** The decoder reads back the header of an encoded sample as
      RereadHeader says, whatever follows it. */
  lemma DecodeEncodedHeader<R>(packing: Packing, s: FlowSample<R>, body: seq<bv8>, rest: seq<bv8>)
    ensures DecodeHeader<R>(packing, EncodedSample(packing, s, body)[8..] + rest, 0) ==
      Success(Parsed(RereadHeader<R>(packing, s), HEADER_BYTES))
  {
    var out := EncodedSample(packing, s, body);
    var input := out[8..] + rest;
    assert input[0..HEADER_BYTES] == out[8..40];
    EncodedHeader<R>(packing, s, body);
    HeaderFields<R>(packing, input, 0);
  }

  lemma DecodeSampleOf<R>(codec: RecordCodec<R>, packing: Packing, input: seq<bv8>, h: FlowSample<R>,
                          es: Parsed<seq<Entry<R>>>)
    requires DecodeHeader<R>(packing, input, 0) == Success(Parsed(h, HEADER_BYTES))
    requires ReadEntries(codec, input, HEADER_BYTES, h.numRecords) == Success(es)
    ensures DecodeSample(codec, packing, input, 0) == Success(Parsed(h.(Records := Known(es.value)), es.next))
  {
  }
}
