/** The field codec shared by every sFlow record: XDR big-endian 32-bit and
    64-bit words (sections 4.2 and 4.5 of RFC 4506), a reader that is a byte
    sequence with a cursor, and a writer that appends to a byte sequence and
    may refuse a write. */
module Wire {

  datatype Option<+T> = None | Some(value: T)

  datatype Result<+T, +E> = Success(value: T) | Failure(error: E) {
    predicate IsFailure() { Failure? }
    function PropagateFailure<U>(): Result<U, E>
      requires Failure?
    {
      Failure(error)
    }
    function Extract(): T
      requires Success?
    {
      value
    }
  }

  /** A value taken from the input and the cursor just past it. */
  datatype Parsed<+T> = Parsed(value: T, next: nat)

  /** Everything a decoder can fail with. */
  datatype DecodeError =
    | EOF                  // io.EOF: nothing left to read
    | UnexpectedEOF        // io.ErrUnexpectedEOF: a fixed-size read found only part of its bytes
    | ShortSourceIndex     // "sflow: counter sample decoding error": fewer than 3 source-index bytes
    | DecodingRecord       // records.ErrDecodingRecord: a counter record shorter than its declared length
    | ShortFieldBuffer     // a counter record's buffer holds fewer bytes than its fields need
    | FlowRecordError(code: nat)  // whatever a flow-record decoder reports

  datatype WriteError = WriteRefused

  const WORD32: nat := 0x1_0000_0000

  /** The four big-endian bytes of a 32-bit word. */
  function Be32(x: bv32): (r: seq<bv8>)
    ensures |r| == 4
    ensures Word32(r) == x
  {
    [(x >> 24) as bv8, ((x >> 16) & 0xFF) as bv8, ((x >> 8) & 0xFF) as bv8, (x & 0xFF) as bv8]
  }

  /** The 32-bit word whose big-endian bytes are `b`. */
  function Word32(b: seq<bv8>): bv32
    requires |b| == 4
  {
    (b[0] as bv32 << 24) | (b[1] as bv32 << 16) | (b[2] as bv32 << 8) | b[3] as bv32
  }

  lemma Be32OfWord32(b: seq<bv8>)
    requires |b| == 4
    ensures Be32(Word32(b)) == b
  {
  }

  /** The eight big-endian bytes of a 64-bit word. */
  function Be64(x: bv64): (r: seq<bv8>)
    ensures |r| == 8
    ensures Word64(r) == x
  {
    [(x >> 56) as bv8, ((x >> 48) & 0xFF) as bv8, ((x >> 40) & 0xFF) as bv8, ((x >> 32) & 0xFF) as bv8,
     ((x >> 24) & 0xFF) as bv8, ((x >> 16) & 0xFF) as bv8, ((x >> 8) & 0xFF) as bv8, (x & 0xFF) as bv8]
  }

  function Word64(b: seq<bv8>): bv64
    requires |b| == 8
  {
    (b[0] as bv64 << 56) | (b[1] as bv64 << 48) | (b[2] as bv64 << 40) | (b[3] as bv64 << 32) |
    (b[4] as bv64 << 24) | (b[5] as bv64 << 16) | (b[6] as bv64 << 8) | b[7] as bv64
  }

  lemma Be64OfWord64(b: seq<bv8>)
    requires |b| == 8
    ensures Be64(Word64(b)) == b
  {
  }

  /** The big-endian bytes of a uint32 value held as a number. */
  function BeValue(n: nat): (b: seq<bv8>)
    requires n < WORD32
    ensures |b| == 4
  {
    [(n / 0x100_0000) as bv8, (n / 0x1_0000 % 0x100) as bv8, (n / 0x100 % 0x100) as bv8, (n % 0x100) as bv8]
  }

  /** The value of the uint32 whose big-endian bytes are `b`. */
  function WordValue(b: seq<bv8>): (n: nat)
    requires |b| == 4
  {
    ((b[0] as nat * 0x100 + b[1] as nat) * 0x100 + b[2] as nat) * 0x100 + b[3] as nat
  }

  lemma ByteValue(k: nat)
    requires k < 0x100
    ensures (k as bv8) as nat == k
  {
    assert k % 0x100 == k;
  }

  lemma SplitByte(n: nat)
    ensures n == n / 0x100 * 0x100 + n % 0x100
    ensures n / 0x100 / 0x100 == n / 0x1_0000
    ensures n / 0x1_0000 / 0x100 == n / 0x100_0000
  {
  }

  /** Reading back the bytes of a uint32 value gives the value. */
  lemma WordValueBeValue(n: nat)
    requires n < WORD32
    ensures WordValue(BeValue(n)) == n
  {
    SplitByte(n);
    SplitByte(n / 0x100);
    SplitByte(n / 0x1_0000);
    ByteValue(n % 0x100);
    ByteValue(n / 0x100 % 0x100);
    ByteValue(n / 0x1_0000 % 0x100);
    ByteValue(n / 0x100_0000);
  }

  /** The 32-bit word Go's `uint32(n)` gives for a non-negative `n`: `n`
      modulo 2^32. */
  function Uint32(n: nat): (x: bv32)
    ensures Be32(x) == BeValue(n % WORD32)
  {
    Be32OfWord32(BeValue(n % WORD32));
    Word32(BeValue(n % WORD32))
  }

  /** A value below 2^32 is its own uint32. */
  lemma SmallWord(n: nat)
    requires n < WORD32
    ensures n % WORD32 == n
  {
  }

  /** What a uint32 written by `binary.Write` reads back as. */
  lemma Uint32Value(n: nat)
    ensures WordValue(Be32(Uint32(n))) == n % WORD32
  {
    WordValueBeValue(n % WORD32);
  }

  // ---------------------------------------------------------------------
  // Reading: the input is a byte sequence and a cursor. A cursor may run
  // past the end (a relative Seek does that); nothing is available there.

  function Avail(input: seq<bv8>, pos: nat): (n: nat)
    ensures n <= |input|
    ensures pos + n == |input| || n == 0
  {
    if pos <= |input| then |input| - pos else 0
  }

  function Remaining(input: seq<bv8>, pos: nat): (r: seq<bv8>)
    ensures |r| == Avail(input, pos)
  {
    if pos <= |input| then input[pos..] else []
  }

  /** `io.ReadFull` of `n > 0` bytes: EOF when nothing is left,
      UnexpectedEOF when only part of them is. */
  function ReadFull(input: seq<bv8>, pos: nat, n: nat): (r: Result<Parsed<seq<bv8>>, DecodeError>)
    requires n > 0
    ensures r.Success? <==> Avail(input, pos) >= n
    ensures r.Failure? ==> r.error == (if Avail(input, pos) == 0 then EOF else UnexpectedEOF)
    ensures r.Success? ==> r.value.next == pos + n && r.value.value == input[pos..pos + n]
  {
    var avail := Avail(input, pos);
    if avail == 0 then Failure(EOF)
    else if avail < n then Failure(UnexpectedEOF)
    else Success(Parsed(input[pos..pos + n], pos + n))
  }

  /** `binary.Read(r, binary.BigEndian, &x)` for a uint32 `x`. */
  function ReadU32(input: seq<bv8>, pos: nat): (r: Result<Parsed<bv32>, DecodeError>)
    ensures r.Success? <==> Avail(input, pos) >= 4
    ensures r.Success? ==> r.value.next == pos + 4 && Be32(r.value.value) == input[pos..pos + 4]
    ensures r.Success? ==> r.value.value == Word32(input[pos..pos + 4])
    ensures r.Failure? ==> r.error == (if Avail(input, pos) == 0 then EOF else UnexpectedEOF)
  {
    var b :- ReadFull(input, pos, 4);
    Be32OfWord32(b.value);
    Success(Parsed(Word32(b.value), b.next))
  }

  /** `binary.Read(r, binary.BigEndian, &x)` for a uint32 `x` that is
      used as a number: a count or a length. */
  function ReadCount(input: seq<bv8>, pos: nat): (r: Result<Parsed<nat>, DecodeError>)
    ensures r.Success? <==> Avail(input, pos) >= 4
    ensures r.Failure? ==> r.error == (if Avail(input, pos) == 0 then EOF else UnexpectedEOF)
    ensures r.Success? ==> r.value.next == pos + 4 && r.value.value == WordValue(input[pos..pos + 4])
  {
    var b :- ReadFull(input, pos, 4);
    Success(Parsed(WordValue(b.value), b.next))
  }

  /** `binary.Read(r, binary.BigEndian, &x)` for a byte `x`. */
  function ReadU8(input: seq<bv8>, pos: nat): (r: Result<Parsed<bv8>, DecodeError>)
    ensures r.Success? <==> Avail(input, pos) >= 1
    ensures r.Success? ==> r.value.next == pos + 1 && [r.value.value] == input[pos..pos + 1]
    ensures r.Failure? ==> r.error == EOF
  {
    var b :- ReadFull(input, pos, 1);
    Success(Parsed(b.value[0], b.next))
  }

  // ---------------------------------------------------------------------
  // Writing: an io.Writer that appends what it accepts to `bytes`. Write
  // calls are numbered from 0; from call number `failFrom` on, every call
  // fails and writes nothing (a closed connection, a full disk).

  class Sink {
    var bytes: seq<bv8>
    var calls: nat
    const failFrom: nat

    constructor (failFrom: nat)
      ensures bytes == [] && calls == 0 && this.failFrom == failFrom
    {
      bytes := [];
      calls := 0;
      this.failFrom := failFrom;
    }

    /** The number of further Write calls this sink accepts. */
    function Accepting(): nat
      reads this
    {
      if calls < failFrom then failFrom - calls else 0
    }

    method Write(p: seq<bv8>) returns (err: Option<WriteError>)
      modifies this
      ensures calls == old(calls) + 1
      ensures err.None? <==> old(calls) < failFrom
      ensures bytes == if err.None? then old(bytes) + p else old(bytes)
    {
      if calls < failFrom {
        bytes := bytes + p;
        err := None;
      } else {
        err := Some(WriteRefused);
      }
      calls := calls + 1;
    }

    /** `binary.Write(w, binary.BigEndian, x)` for a uint32 `x`. */
    method WriteU32(x: bv32) returns (err: Option<WriteError>)
      modifies this
      ensures calls == old(calls) + 1
      ensures err.None? <==> old(calls) < failFrom
      ensures bytes == if err.None? then old(bytes) + Be32(x) else old(bytes)
    {
      err := Write(Be32(x));
    }

    /** The encoders' shape: one binary.Write per word of `ws`, then one
        Write of `tail` unless it is empty (io.Copy from an empty
        bytes.Buffer makes no Write call); the first error is returned at
        once and nothing after it is written. */
    method WriteFrame(ws: seq<bv32>, tail: seq<bv8>) returns (err: Option<WriteError>)
      modifies this
      ensures Emitted(bytes, calls, old(bytes), old(calls), old(Accepting()),
                      Words(ws) + tail, |ws|, err.None?)
    {
      ghost var accepting := Accepting();
      err := None;
      var i := 0;
      while i < |ws|
        invariant i <= |ws| && i <= accepting && err.None?
        invariant calls == old(calls) + i
        invariant bytes == old(bytes) + Words(ws[..i])
      {
        assert ws[..i + 1][..i] == ws[..i];
        err := WriteU32(ws[i]);
        if err.Some? {
          assert accepting == i;
          WordsPrefix(ws, i, tail);
          return;
        }
        i := i + 1;
      }
      assert ws[..i] == ws;
      if tail != [] {
        err := Write(tail);
        if err.Some? {
          assert accepting == i;
          WordsPrefix(ws, i, tail);
        } else {
          assert bytes == old(bytes) + (Words(ws) + tail);
        }
      } else {
        assert Words(ws) + tail == Words(ws);
      }
    }
  }

  /** The first n bytes of the first m bytes are the first n bytes. */
  lemma PrefixOfPrefix(s: seq<bv8>, m: nat, n: nat)
    requires n <= m <= |s|
    ensures s[..m][..n] == s[..n]
  {
  }

  /** Bytes i to j of the slice from lo to hi are bytes lo + i to lo + j. */
  lemma SliceOfSlice(s: seq<bv8>, lo: nat, hi: nat, i: nat, j: nat)
    requires lo <= hi <= |s| && i <= j <= hi - lo
    ensures s[lo..hi][i..j] == s[lo + i..lo + j]
  {
    var l, r := s[lo..hi][i..j], s[lo + i..lo + j];
    assert |l| == |r|;
    forall k | 0 <= k < |l|
      ensures l[k] == r[k]
    {
      assert l[k] == s[lo..hi][i + k] == s[lo + i + k];
    }
  }

  /** The big-endian bytes of a run of 32-bit words. */
  function Words(ws: seq<bv32>): (b: seq<bv8>)
    ensures |b| == 4 * |ws|
  {
    if ws == [] then [] else Words(ws[..|ws| - 1]) + Be32(ws[|ws| - 1])
  }

  /** The first `i` words' bytes open the bytes of all of them. */
  lemma {:induction false} WordsPrefix(ws: seq<bv32>, i: nat, tail: seq<bv8>)
    requires i <= |ws|
    ensures (Words(ws) + tail)[..4 * i] == Words(ws[..i])
  {
    if i < |ws| {
      var ws' := ws[..|ws| - 1];
      WordsPrefix(ws', i, []);
      assert ws'[..i] == ws[..i];
      assert Words(ws') + [] == Words(ws');
    } else {
      assert ws[..i] == ws;
    }
  }

  /** Word `i` of a run stands big-endian in bytes 4i to 4i+4. */
  lemma {:induction false} WordsAt(ws: seq<bv32>, i: nat)
    requires i < |ws|
    ensures Words(ws)[4 * i..4 * i + 4] == Be32(ws[i])
  {
    var init := ws[..|ws| - 1];
    if i < |init| {
      WordsAt(init, i);
      assert Words(ws)[4 * i..4 * i + 4] == Words(init)[4 * i..4 * i + 4];
    } else {
      assert Words(ws)[4 * i..4 * i + 4] == Be32(ws[|ws| - 1]);
    }
  }

  /** What a writer holds after a sequence of writes that stops at the first
      error: `words` 4-byte writes followed, when `out` goes on past them, by
      one more write, together producing `out`. `accepting` is the number of
      calls the writer accepts. The first refused call is made and nothing
      after it. */
  ghost predicate Emitted(bytesNow: seq<bv8>, callsNow: nat, bytes0: seq<bv8>, calls0: nat,
                          accepting: nat, out: seq<bv8>, words: nat, ok: bool)
    requires 4 * words <= |out|
  {
    var n := words + (if |out| > 4 * words then 1 else 0);
    && (ok <==> accepting >= n)
    && callsNow == calls0 + (if accepting >= n then n else accepting + 1)
    && bytesNow == bytes0 + (if accepting >= n then out else out[..4 * accepting])
  }
}
