/** Flat Go structs of 4-byte and 8-byte fields as sFlow carries them: a
    layout is the list of field widths in declaration order; binary.Write
    packs the fields big-endian with no padding, readFields reads them back
    one after another, and unsafe.Sizeof places them as the Go compiler
    does. */
module Layouts {
  import opened Wire

  datatype Width = W32 | W64

  /** One field value of a record, as the 4 or 8 bytes it occupies. */
  datatype Field = F32(v32: bv32) | F64(v64: bv64)

  /** The field widths of a struct, in declaration order. */
  datatype Layout = End | Then(width: Width, rest: Layout)

  /** The field values of a struct, in declaration order: the list of field
      addresses a decoder hands to readFields, and the order binary.Write
      visits them in. */
  datatype FieldList = Nil | Cons(head: Field, tail: FieldList)

  function Size(w: Width): nat
  {
    match w
    case W32 => 4
    case W64 => 8
  }

  function WidthOf(f: Field): Width
  {
    if f.F32? then W32 else W64
  }

  /** `fs` holds one field of each width of `layout`, in order. */
  predicate Fits(fs: FieldList, layout: Layout)
  {
    match layout
    case End => fs.Nil?
    case Then(w, rest) => fs.Cons? && WidthOf(fs.head) == w && Fits(fs.tail, rest)
  }

  /** The list after its first field; nothing after nothing. */
  function Rest(fs: FieldList): FieldList
  {
    if fs.Cons? then fs.tail else Nil
  }

  /** The first field as a uint32; zero when it is missing or 8 bytes wide. */
  function U32Head(fs: FieldList): bv32
  {
    if fs.Cons? && fs.head.F32? then fs.head.v32 else 0
  }

  /** The first field as a uint64; zero when it is missing or 4 bytes wide. */
  function U64Head(fs: FieldList): bv64
  {
    if fs.Cons? && fs.head.F64? then fs.head.v64 else 0
  }

  /** The byte count of a layout written field after field with no padding,
      which is how binary.Write lays out a struct. */
  function PackedWidth(layout: Layout): nat
  {
    match layout
    case End => 0
    case Then(w, rest) => Size(w) + PackedWidth(rest)
  }

  function FieldBytes(f: Field): (b: seq<bv8>)
    ensures |b| == Size(WidthOf(f))
  {
    match f
    case F32(x) => Be32(x)
    case F64(x) => Be64(x)
  }

  /** The field of width `w` stored big-endian in `b`. */
  function FieldAt(w: Width, b: seq<bv8>): (f: Field)
    requires |b| == Size(w)
    ensures WidthOf(f) == w && FieldBytes(f) == b
  {
    match w
    case W32 => Be32OfWord32(b); F32(Word32(b))
    case W64 => Be64OfWord64(b); F64(Word64(b))
  }

  lemma FieldAtFieldBytes(f: Field)
    ensures FieldAt(WidthOf(f), FieldBytes(f)) == f
  {
    match f
    case F32(x) =>
    case F64(x) =>
  }

  /** binary.Write of a record struct: every field big-endian, in
      declaration order, with no padding between fields. */
  function EncodeFields(fs: FieldList): (b: seq<bv8>)
  {
    match fs
    case Nil => []
    case Cons(f, rest) => FieldBytes(f) + EncodeFields(rest)
  }

  /** The packed fields of a struct take its packed width. */
  lemma {:induction false} EncodedLength(fs: FieldList, layout: Layout)
    requires Fits(fs, layout)
    ensures |EncodeFields(fs)| == PackedWidth(layout)
  {
    if fs.Cons? {
      EncodedLength(fs.tail, layout.rest);
    }
  }

  /** readFields: the fields of `layout` read one after another, big-endian,
      from the start of `b`; None when `b` runs out first. Bytes of `b` past
      the last field are not looked at. */
  function ParseFields(layout: Layout, b: seq<bv8>): (r: Option<FieldList>)
    ensures r.Some? <==> PackedWidth(layout) <= |b|
    ensures r.Some? ==> Fits(r.value, layout)
  {
    match layout
    case End => Some(Nil)
    case Then(w, rest) =>
      var n := Size(w);
      if |b| < n then None
      else
        match ParseFields(rest, b[n..])
        case None => None
        case Some(fs) => Some(Cons(FieldAt(w, b[..n]), fs))
  }

  /** `fs` behind the fields of `acc`, in order. */
  function PrependAll(acc: seq<Field>, fs: FieldList): FieldList
  {
    if acc == [] then fs else Cons(acc[0], PrependAll(acc[1..], fs))
  }

  function Prepend(acc: seq<Field>, r: Option<FieldList>): Option<FieldList>
  {
    match r
    case None => None
    case Some(fs) => Some(PrependAll(acc, fs))
  }

  lemma {:induction false} PrependAllSnoc(acc: seq<Field>, f: Field, fs: FieldList)
    ensures PrependAll(acc + [f], fs) == PrependAll(acc, Cons(f, fs))
  {
    if acc != [] {
      assert (acc + [f])[1..] == acc[1..] + [f];
      PrependAllSnoc(acc[1..], f, fs);
    }
  }

  /** readFields over the scratch buffer: each field in turn, at the offset
      where the previous one ended; the first field that does not fit stops
      it. */
  method ReadFields(layout: Layout, b: array<bv8>) returns (fs: Option<FieldList>)
    ensures fs == ParseFields(layout, b[..])
  {
    var acc: seq<Field> := [];
    var rest, pos := layout, 0;
    assert b[..][0..] == b[..];
    while rest.Then?
      invariant pos <= b.Length
      invariant ParseFields(layout, b[..]) == Prepend(acc, ParseFields(rest, b[pos..]))
      decreases rest
    {
      var n := Size(rest.width);
      if b.Length - pos < n {
        return None;
      }
      assert b[pos..][n..] == b[pos + n..];
      assert b[pos..][..n] == b[pos..pos + n];
      var f := FieldAt(rest.width, b[pos..pos + n]);
      if ParseFields(rest.rest, b[pos + n..]).Some? {
        PrependAllSnoc(acc, f, ParseFields(rest.rest, b[pos + n..]).value);
      }
      acc := acc + [f];
      pos, rest := pos + n, rest.rest;
    }
    return Some(PrependAll(acc, Nil));
  }

  /** readFields undoes binary.Write, whatever follows the fields. */
  lemma {:induction false} ParseEncodeFields(fs: FieldList, layout: Layout, rest: seq<bv8>)
    requires Fits(fs, layout)
    ensures ParseFields(layout, EncodeFields(fs) + rest) == Some(fs)
  {
    if fs.Cons? {
      var b := EncodeFields(fs) + rest;
      var n := Size(layout.width);
      EncodedLength(fs.tail, layout.rest);
      assert b[n..] == EncodeFields(fs.tail) + rest;
      assert b[..n] == FieldBytes(fs.head);
      ParseEncodeFields(fs.tail, layout.rest, rest);
      FieldAtFieldBytes(fs.head);
    }
  }

  /** binary.Write of what readFields read gives back the bytes it read. */
  lemma {:induction false} EncodeParseFields(layout: Layout, b: seq<bv8>)
    requires PackedWidth(layout) <= |b|
    ensures EncodeFields(ParseFields(layout, b).value) == b[..PackedWidth(layout)]
  {
    if layout.Then? {
      var n := Size(layout.width);
      EncodeParseFields(layout.rest, b[n..]);
      assert b[..PackedWidth(layout)] == b[..n] + b[n..][..PackedWidth(layout.rest)];
    }
  }

  // ---------------------------------------------------------------------
  // unsafe.Sizeof: the Go compiler places each field at the next multiple
  // of its alignment and rounds the struct up to its largest alignment.
  // uint32 and float32 align to 4; uint64 aligns to `align64`, which is 8
  // on 64-bit targets and 4 on 32-bit x86. Every field is 4 or 8 bytes
  // wide, so every offset is a multiple of 4 and the only thing placement
  // depends on is whether the offset is also a multiple of 8 (`odd` when
  // it is not).

  predicate IsAlign64(align64: nat)
  {
    align64 == 4 || align64 == 8
  }

  /** The bytes the fields of `layout` take, padding included, when the
      first of them is placed at an offset that is a multiple of 8 (`odd`
      false) or 4 more than one (`odd` true): a uint64 at an odd offset is
      pushed 4 bytes on when it aligns to 8. */
  function PaddedSpan(layout: Layout, odd: bool, align64: nat): nat
    requires IsAlign64(align64)
  {
    match layout
    case End => 0
    case Then(w, rest) =>
      if w == W32 then 4 + PaddedSpan(rest, !odd, align64)
      else if align64 == 8 && odd then 4 + 8 + PaddedSpan(rest, false, align64)
      else 8 + PaddedSpan(rest, odd, align64)
  }

  function Has64(layout: Layout): bool
  {
    match layout
    case End => false
    case Then(w, rest) => w == W64 || Has64(rest)
  }

  /** unsafe.Sizeof of the struct: its fields placed from offset 0, then
      rounded up to a multiple of 8 when it holds a uint64 that aligns
      to 8. */
  function GoSizeof(layout: Layout, align64: nat): nat
    requires IsAlign64(align64)
  {
    var end := PaddedSpan(layout, false, align64);
    if align64 == 8 && Has64(layout) && end % 8 != 0 then end + 4 else end
  }

  /** Alignment of uint64 on the 64-bit targets the size word is fixed on. */
  const ALIGN64_ON_64BIT: nat := 8

  /** Padding only adds bytes: the fields span at least their packed
      width. */
  lemma {:induction false} PaddedSpanCoversFields(layout: Layout, odd: bool, align64: nat)
    requires IsAlign64(align64)
    ensures PaddedSpan(layout, odd, align64) >= PackedWidth(layout)
  {
    match layout
    case End =>
    case Then(w, rest) =>
      if w == W32 {
        PaddedSpanCoversFields(rest, !odd, align64);
      } else if align64 == 8 && odd {
        PaddedSpanCoversFields(rest, false, align64);
      } else {
        PaddedSpanCoversFields(rest, odd, align64);
      }
  }

  /** unsafe.Sizeof is never less than the wire length. */
  lemma SizeofCoversFields(layout: Layout, align64: nat)
    requires IsAlign64(align64)
    ensures GoSizeof(layout, align64) >= PackedWidth(layout)
  {
    PaddedSpanCoversFields(layout, false, align64);
  }

  /** Where uint64 aligns to 4 no field is padded. */
  lemma {:induction false} PaddedSpanWithoutPadding(layout: Layout, odd: bool)
    ensures PaddedSpan(layout, odd, 4) == PackedWidth(layout)
  {
    match layout
    case End =>
    case Then(w, rest) =>
      if w == W32 {
        PaddedSpanWithoutPadding(rest, !odd);
      } else {
        PaddedSpanWithoutPadding(rest, odd);
      }
  }

  /** Where uint64 aligns to 4 (32-bit x86) unsafe.Sizeof is the wire
      length. */
  lemma SizeofOn32Bit(layout: Layout)
    ensures GoSizeof(layout, 4) == PackedWidth(layout)
  {
    PaddedSpanWithoutPadding(layout, false);
  }

  /** The first field of `fs` read as a field of width `w`. */
  function HeadField(w: Width, fs: FieldList): Field
  {
    match w
    case W32 => F32(U32Head(fs))
    case W64 => F64(U64Head(fs))
  }

  /** The fields of `layout` read one after another from `fs`, each missing
      one zero: the list a struct of that layout holds after its fields are
      filled from `fs`. */
  function Reread(layout: Layout, fs: FieldList): FieldList
  {
    match layout
    case End => Nil
    case Then(w, l) => Cons(HeadField(w, fs), Reread(l, Rest(fs)))
  }

  /** Reading back a list that fits the layout gives the list. */
  lemma {:induction false} RereadFits(layout: Layout, fs: FieldList)
    requires Fits(fs, layout)
    ensures Reread(layout, fs) == fs
  {
    match layout
    case End =>
    case Then(w, l) =>
      RereadFits(l, fs.tail);
      assert HeadField(w, fs) == fs.head;
  }

  // ---------------------------------------------------------------------
  // One-step unfoldings without fuel. A record layout is a literal ten to
  // twenty fields deep; with these in scope the solver follows it to its
  // end.

  lemma FitsUnfold()
    ensures forall fs, w, l {:trigger Fits(fs, Then(w, l))} :: Fits(fs, Then(w, l)) <==> fs.Cons? && WidthOf(fs.head) == w && Fits(fs.tail, l)
  {
  }

  lemma RereadUnfold()
    ensures forall w, l, fs {:trigger Reread(Then(w, l), fs)} :: Reread(Then(w, l), fs) == Cons(HeadField(w, fs), Reread(l, Rest(fs)))
  {
  }

  lemma PackedWidthUnfold()
    ensures forall w, l {:trigger PackedWidth(Then(w, l))} :: PackedWidth(Then(w, l)) == Size(w) + PackedWidth(l)
  {
  }

  lemma SizeofUnfold()
    ensures forall w, l, odd, a {:trigger PaddedSpan(Then(w, l), odd, a)} | IsAlign64(a) ::
              PaddedSpan(Then(w, l), odd, a) == (if w == W32 then 4 + PaddedSpan(l, !odd, a)
                                                 else if a == 8 && odd then 12 + PaddedSpan(l, false, a)
                                                 else 8 + PaddedSpan(l, odd, a))
    ensures forall w, l {:trigger Has64(Then(w, l))} :: Has64(Then(w, l)) == (w == W64 || Has64(l))
  {
  }
}
