// The byte image of a read-attributes-response frame as a producer writes
// it, and the lemmas that tie the decoder to it: decoding the image of a
// message gives the message back, and, for the corrected decoder, every
// record it accepts is exactly the image of the record it returns.
module ZbhciWire {
  import opened Wrappers
  import opened Bytes
  import opened ZbhciConstants
  import opened Zbhci

  /** The value's constructor is the one the data type's family selects, and a string's length fits its prefix. */
  predicate ValueFits(dataType: Byte, v: AttributeValue)
  {
    match v
    case StrValue(b) =>
      (KindOf(dataType) == LongString && |b| < 0x1_0000) || (KindOf(dataType) == ShortString && |b| < 0x100)
    case Enum8Value(_) => KindOf(dataType) == Enum8
    case Uint16Value(_) => KindOf(dataType) == Uint16
    case Uint32Value(_) => KindOf(dataType) == Uint32
    case Uint48Value(_) => KindOf(dataType) == Uint48
    case Uint64Value(_) => KindOf(dataType) == Uint64
  }

  /** A record the decoder can return: success status and a value of its data type's family. */
  predicate WellFormed(a: Attribute)
  {
    a.status == SUCCESS && ValueFits(a.dataType, a.value)
  }

  /** Every record of the sequence is well-formed. */
  predicate AllWellFormed(s: seq<Attribute>)
  {
    forall i | 0 <= i < |s| :: WellFormed(s[i])
  }

  function ValueBytes(dataType: Byte, v: AttributeValue): seq<Byte>
    requires ValueFits(dataType, v)
  {
    match v
    case StrValue(b) =>
      if KindOf(dataType) == LongString then ToBigEndian(|b|, LONG_STR_LENGTH_LENGTH) + b else [|b|] + b
    case Enum8Value(x) => [x]
    case Uint16Value(x) => ToBigEndian(x, 2)
    case Uint32Value(x) => ToBigEndian(x, 4)
    case Uint48Value(x) => ToBigEndian(x, 6)
    case Uint64Value(x) => ToBigEndian(x, 8)
  }

  /** Identifier (big-endian), status, data type, then the value. */
  function AttributeBytes(a: Attribute): (s: seq<Byte>)
    requires WellFormed(a)
    ensures |s| >= 5
  {
    ToBigEndian(a.identifier, 2) + [a.status, a.dataType] + ValueBytes(a.dataType, a.value)
  }

  /** The byte strings of `parts`, one after another. */
  function Concat(parts: seq<seq<Byte>>): seq<Byte>
  {
    if |parts| == 0 then [] else Concat(parts[..|parts| - 1]) + parts[|parts| - 1]
  }

  /** The image of each record. */
  function Chunks(s: seq<Attribute>): (parts: seq<seq<Byte>>)
    requires AllWellFormed(s)
    ensures |parts| == |s|
    ensures forall i | 0 <= i < |s| :: parts[i] == AttributeBytes(s[i]) && |parts[i]| >= 5
  {
    seq(|s|, i requires 0 <= i < |s| => AttributeBytes(s[i]))
  }

  /** The records' images in order. */
  function AttributesBytes(s: seq<Attribute>): seq<Byte>
    requires AllWellFormed(s)
  {
    Concat(Chunks(s))
  }

  function CommandHeaderBytes(h: CommandHeader): seq<Byte>
  {
    ToBigEndian(h.sourceAddress, 2) + [h.sourceEndpoint, h.destinationEndpoint, h.sequenceNumber]
      + ToBigEndian(h.clusterId, 2)
  }

  /** A frame around a payload: markers, command identifier, length and CRC. */
  function FrameBytes(commandId: U16, payload: seq<Byte>): seq<Byte>
    requires |payload| < 0x1_0000
  {
    [FRAME_START] + ToBigEndian(commandId, 2) + ToBigEndian(|payload|, 2)
      + [Crc8Of(commandId, |payload|, payload)] + payload + [FRAME_END]
  }

  function ReadRspPayload(h: CommandHeader, attrs: seq<Attribute>): seq<Byte>
    requires |attrs| < 0x100 && AllWellFormed(attrs)
  {
    CommandHeaderBytes(h) + [|attrs|] + AttributesBytes(attrs)
  }

  /**
   * Where the decoder as written can read the records of `attrs` when
   * `spare` bytes follow them: a 64-bit record only last (its cursor does
   * not move), and a last 48-bit record only with two more bytes after it.
   */
  predicate Readable(build: Build, attrs: seq<Attribute>, spare: nat)
  {
    build == Corrected ||
    ((forall i | 0 <= i < |attrs| - 1 :: !attrs[i].value.Uint64Value?)
     && (|attrs| > 0 && attrs[|attrs| - 1].value.Uint48Value? ==> spare >= 2))
  }

  /** Where the cursor stands after one record. */
  function Advance(build: Build, a: Attribute): nat
    requires WellFormed(a)
  {
    if build == AsWritten && a.value.Uint64Value? then 4 else |AttributeBytes(a)|
  }

  /** The frame a producer sends for a read-attributes response. */
  function ReadRspFrame(h: CommandHeader, attrs: seq<Attribute>): seq<Byte>
    requires |attrs| < 0x100 && AllWellFormed(attrs)
    requires |ReadRspPayload(h, attrs)| < 0xFFFF
  {
    FrameBytes(ATTR_READ_RSP, ReadRspPayload(h, attrs))
  }

  // ---------------------------------------------------------------- images

  /** `x` occurs in `frame` at `offset`. */
  predicate ImageAt(frame: seq<Byte>, offset: nat, x: seq<Byte>)
  {
    offset + |x| <= |frame| && forall j | 0 <= j < |x| :: frame[offset + j] == x[j]
  }

  lemma ImageWhole(frame: seq<Byte>)
    ensures ImageAt(frame, 0, frame)
  {
  }

  lemma ImageSlice(frame: seq<Byte>, offset: nat, x: seq<Byte>)
    requires ImageAt(frame, offset, x)
    ensures frame[offset..offset + |x|] == x
  {
  }

  lemma ImageSplit(frame: seq<Byte>, offset: nat, x: seq<Byte>, y: seq<Byte>)
    requires ImageAt(frame, offset, x + y)
    ensures ImageAt(frame, offset, x) && ImageAt(frame, offset + |x|, y)
  {
    forall j | 0 <= j < |x|
      ensures frame[offset + j] == x[j]
    {
      assert (x + y)[j] == x[j];
    }
    forall j | 0 <= j < |y|
      ensures frame[offset + |x| + j] == y[j]
    {
      assert (x + y)[|x| + j] == y[j];
    }
  }

  lemma SliceJoin(frame: seq<Byte>, i: nat, j: nat, k: nat)
    requires i <= j <= k <= |frame|
    ensures frame[i..k] == frame[i..j] + frame[j..k]
  {
  }

  lemma ImageByte(frame: seq<Byte>, offset: nat, b: Byte)
    requires ImageAt(frame, offset, [b])
    ensures offset < |frame| && frame[offset] == b
  {
    assert [b][0] == b;
  }

  lemma ReadBigEndianAt(frame: seq<Byte>, offset: nat, v: nat, n: nat)
    requires v < Pow256(n) && ImageAt(frame, offset, ToBigEndian(v, n))
    ensures ReadBigEndian(frame, offset, n) == Ok((v, offset + n))
  {
    ImageSlice(frame, offset, ToBigEndian(v, n));
    BigEndianOfToBigEndian(v, n);
  }

  // ---------------------------------------------------------------- one record

  lemma LongStringAt(build: Build, dataType: Byte, frame: seq<Byte>, offset: nat, b: seq<Byte>)
    requires KindOf(dataType) == LongString && |b| < 0x1_0000
    requires ImageAt(frame, offset, ToBigEndian(|b|, 2) + b)
    ensures ValueAt(build, dataType, frame, offset) == Ok((StrValue(b), offset + 2 + |b|))
  {
    ImageSplit(frame, offset, ToBigEndian(|b|, 2), b);
    StringImage(frame, offset, b);
  }

  lemma StringImage(frame: seq<Byte>, offset: nat, b: seq<Byte>)
    requires |b| < 0x1_0000
    requires ImageAt(frame, offset, ToBigEndian(|b|, 2)) && ImageAt(frame, offset + 2, b)
    ensures ReadBigEndian(frame, offset, 2) == Ok((|b|, offset + 2))
    ensures StringAt(frame, offset + 2, |b|) == Ok((StrValue(b), offset + 2 + |b|))
  {
    Pow256Widths();
    ReadBigEndianAt(frame, offset, |b|, 2);
    ImageSlice(frame, offset + 2, b);
  }

  lemma ShortStringAt(build: Build, dataType: Byte, frame: seq<Byte>, offset: nat, b: seq<Byte>)
    requires KindOf(dataType) == ShortString && |b| < 0x100
    requires ImageAt(frame, offset, [|b|] + b)
    ensures ValueAt(build, dataType, frame, offset) == Ok((StrValue(b), offset + 1 + |b|))
  {
    ImageSplit(frame, offset, [|b|], b);
    ImageByte(frame, offset, |b|);
    ImageSlice(frame, offset + 1, b);
  }

  lemma Halves(s: seq<Byte>)
    requires |s| == 6
    ensures s == s[..4] + s[4..]
  {
  }

  lemma Uint48At(build: Build, dataType: Byte, frame: seq<Byte>, offset: nat, x: U48)
    requires KindOf(dataType) == Uint48 && ImageAt(frame, offset, ToBigEndian(x, 6))
    requires build == AsWritten ==> offset + 8 <= |frame|
    ensures ValueAt(build, dataType, frame, offset) == Ok((Uint48Value(x), offset + 6))
  {
    var s := ToBigEndian(x, 6);
    Pow256Widths();
    ReadBigEndianAt(frame, offset, x, 6);
    ImageSlice(frame, offset, s);
    if build == AsWritten {
      Uint48AsWritten(dataType, frame, offset, x);
    }
  }

  /** The as-written build's two reads of a 48-bit value: four bytes, then the two after them. */
  lemma Uint48AsWritten(dataType: Byte, frame: seq<Byte>, offset: nat, x: U48)
    requires KindOf(dataType) == Uint48 && ImageAt(frame, offset, ToBigEndian(x, 6)) && offset + 8 <= |frame|
    ensures ValueAt(AsWritten, dataType, frame, offset) == Ok((Uint48Value(x), offset + 6))
  {
    var s := ToBigEndian(x, 6);
    Pow256Widths();
    ReadBigEndianAt(frame, offset, x, 6);
    ImageSlice(frame, offset, s);
    Halves(s);
    ImageSplit(frame, offset, s[..4], s[4..]);
    ImageSlice(frame, offset, s[..4]);
    ImageSlice(frame, offset + 4, s[4..]);
    BigEndianAppend(s[..4], s[4..]);
  }

  lemma ValueImage(build: Build, dataType: Byte, v: AttributeValue, frame: seq<Byte>, offset: nat)
    requires ValueFits(dataType, v) && ImageAt(frame, offset, ValueBytes(dataType, v))
    requires build == AsWritten && v.Uint48Value? ==> offset + 8 <= |frame|
    ensures ValueAt(build, dataType, frame, offset)
         == Ok((v, offset + (if build == AsWritten && v.Uint64Value? then 0 else |ValueBytes(dataType, v)|)))
  {
    match v
    case StrValue(b) =>
      if KindOf(dataType) == LongString {
        LongStringAt(build, dataType, frame, offset, b);
      } else {
        ShortStringAt(build, dataType, frame, offset, b);
      }
    case Enum8Value(x) => Enum8At(build, dataType, frame, offset, x);
    case Uint16Value(x) => Uint16At(build, dataType, frame, offset, x);
    case Uint32Value(x) => Uint32At(build, dataType, frame, offset, x);
    case Uint48Value(x) => Uint48At(build, dataType, frame, offset, x);
    case Uint64Value(x) => Uint64At(build, dataType, frame, offset, x);
  }

  lemma Enum8At(build: Build, dataType: Byte, frame: seq<Byte>, offset: nat, x: Byte)
    requires KindOf(dataType) == Enum8 && ImageAt(frame, offset, [x])
    ensures ValueAt(build, dataType, frame, offset) == Ok((Enum8Value(x), offset + 1))
  {
    ImageByte(frame, offset, x);
  }

  lemma Uint16At(build: Build, dataType: Byte, frame: seq<Byte>, offset: nat, x: U16)
    requires KindOf(dataType) == Uint16 && ImageAt(frame, offset, ToBigEndian(x, 2))
    ensures ValueAt(build, dataType, frame, offset) == Ok((Uint16Value(x), offset + 2))
  {
    Pow256Widths();
    ReadBigEndianAt(frame, offset, x, 2);
  }

  lemma Uint32At(build: Build, dataType: Byte, frame: seq<Byte>, offset: nat, x: U32)
    requires KindOf(dataType) == Uint32 && ImageAt(frame, offset, ToBigEndian(x, 4))
    ensures ValueAt(build, dataType, frame, offset) == Ok((Uint32Value(x), offset + 4))
  {
    Pow256Widths();
    ReadBigEndianAt(frame, offset, x, 4);
  }

  lemma Uint64At(build: Build, dataType: Byte, frame: seq<Byte>, offset: nat, x: U64)
    requires KindOf(dataType) == Uint64 && ImageAt(frame, offset, ToBigEndian(x, 8))
    ensures ValueAt(build, dataType, frame, offset) == Ok((Uint64Value(x), offset + if build == AsWritten then 0 else 8))
  {
    Pow256Widths();
    ReadBigEndianAt(frame, offset, x, 8);
  }

  /** Where the image of a record puts its identifier, status, data type and value. */
  lemma AttributeLayout(frame: seq<Byte>, offset: nat, a: Attribute)
    requires WellFormed(a) && ImageAt(frame, offset, AttributeBytes(a))
    ensures ImageAt(frame, offset, ToBigEndian(a.identifier, 2))
    ensures offset + 4 <= |frame| && frame[offset + 2] == a.status && frame[offset + 3] == a.dataType
    ensures ImageAt(frame, offset + 4, ValueBytes(a.dataType, a.value))
  {
    var id := ToBigEndian(a.identifier, 2);
    ImageSplit(frame, offset, id + [a.status, a.dataType], ValueBytes(a.dataType, a.value));
    ImageSplit(frame, offset, id, [a.status, a.dataType]);
    assert [a.status, a.dataType][0] == a.status && [a.status, a.dataType][1] == a.dataType;
  }

  /** GetAttribute from the results of its steps. */
  lemma GetAttributeSteps(build: Build, frame: seq<Byte>, offset: nat, a: Attribute, next: nat)
    requires ReadU16(frame, offset) == Ok((a.identifier, offset + 2))
    requires offset + 4 <= |frame| && frame[offset + 2] == a.status == SUCCESS && frame[offset + 3] == a.dataType
    requires ValueAt(build, a.dataType, frame, offset + 4) == Ok((a.value, next))
    ensures GetAttribute(build, frame, offset) == Ok((a, next))
  {
  }

  /**
   * Decoding the image of a well-formed record returns the record; the
   * cursor moves past it, except that the decoder as written leaves it
   * after the header of a 64-bit record.
   */
  lemma GetAttributeImage(build: Build, frame: seq<Byte>, offset: nat, a: Attribute)
    requires WellFormed(a) && ImageAt(frame, offset, AttributeBytes(a))
    requires build == AsWritten && a.value.Uint48Value? ==> offset + |AttributeBytes(a)| + 2 <= |frame|
    ensures GetAttribute(build, frame, offset) == Ok((a, offset + Advance(build, a)))
  {
    AttributeLayout(frame, offset, a);
    ReadBigEndianAt(frame, offset, a.identifier, 2);
    ValueImage(build, a.dataType, a.value, frame, offset + 4);
    GetAttributeSteps(build, frame, offset, a, offset + Advance(build, a));
  }

  /** What the corrected decoder consumed for a value is the image of the value it returned. */
  predicate ValueCanonical(dataType: Byte, frame: seq<Byte>, offset: nat)
    requires ValueAt(Corrected, dataType, frame, offset).Ok?
  {
    var (v, next) := ValueAt(Corrected, dataType, frame, offset).value;
    ValueFits(dataType, v) && offset <= next <= |frame| && frame[offset..next] == ValueBytes(dataType, v)
  }

  lemma LongStringCanonical(dataType: Byte, frame: seq<Byte>, offset: nat)
    requires KindOf(dataType) == LongString && ValueAt(Corrected, dataType, frame, offset).Ok?
    ensures ValueCanonical(dataType, frame, offset)
  {
    var next := ValueAt(Corrected, dataType, frame, offset).value.1;
    ToBigEndianOfBigEndian(frame[offset..offset + 2]);
    SliceJoin(frame, offset, offset + 2, next);
  }

  lemma ShortStringCanonical(dataType: Byte, frame: seq<Byte>, offset: nat)
    requires KindOf(dataType) == ShortString && ValueAt(Corrected, dataType, frame, offset).Ok?
    ensures ValueCanonical(dataType, frame, offset)
  {
    var next := ValueAt(Corrected, dataType, frame, offset).value.1;
    SliceJoin(frame, offset, offset + 1, next);
    assert frame[offset..offset + 1] == [frame[offset]];
  }

  /** A fixed-width value: its bytes are the big-endian image of the number read. */
  lemma FixedCanonical(dataType: Byte, frame: seq<Byte>, offset: nat, width: nat)
    requires KindOf(dataType) in {Uint16, Uint32, Uint48, Uint64}
    requires width == match KindOf(dataType) case Uint16 => 2 case Uint32 => 4 case Uint48 => 6 case _ => 8
    requires ValueAt(Corrected, dataType, frame, offset).Ok?
    ensures ValueCanonical(dataType, frame, offset)
  {
    ToBigEndianOfBigEndian(frame[offset..offset + width]);
  }

  lemma ValueAtCanonical(dataType: Byte, frame: seq<Byte>, offset: nat)
    requires ValueAt(Corrected, dataType, frame, offset).Ok?
    ensures ValueCanonical(dataType, frame, offset)
  {
    match KindOf(dataType)
    case LongString => LongStringCanonical(dataType, frame, offset);
    case ShortString => ShortStringCanonical(dataType, frame, offset);
    case Enum8 =>
    case Uint16 => FixedCanonical(dataType, frame, offset, 2);
    case Uint32 => FixedCanonical(dataType, frame, offset, 4);
    case Uint48 => FixedCanonical(dataType, frame, offset, 6);
    case Uint64 => FixedCanonical(dataType, frame, offset, 8);
  }

  lemma HeaderCanonical(frame: seq<Byte>, offset: nat, a: Attribute)
    requires offset + 4 <= |frame| && a.identifier == BigEndian(frame[offset..offset + 2])
    requires a.status == frame[offset + 2] && a.dataType == frame[offset + 3]
    ensures frame[offset..offset + 4] == ToBigEndian(a.identifier, 2) + [a.status, a.dataType]
  {
    ToBigEndianOfBigEndian(frame[offset..offset + 2]);
  }

  /**
   * The corrected decoder accepts a record only if it is the image of a
   * well-formed record: the bytes it consumed are exactly AttributeBytes of
   * what it returns.
   */
  lemma GetAttributeCanonical(frame: seq<Byte>, offset: nat)
    requires GetAttribute(Corrected, frame, offset).Ok?
    ensures var (a, next) := GetAttribute(Corrected, frame, offset).value;
      && WellFormed(a) && offset + 4 <= next <= |frame|
      && frame[offset..next] == AttributeBytes(a)
  {
    var (a, next) := GetAttribute(Corrected, frame, offset).value;
    HeaderCanonical(frame, offset, a);
    ValueAtCanonical(a.dataType, frame, offset + 4);
    SliceJoin(frame, offset, offset + 4, next);
  }

  // ---------------------------------------------------------------- records and frames

  lemma NoMore(acc: seq<Attribute>, attrs: seq<Attribute>)
    requires |attrs| == 0
    ensures acc + attrs == acc
  {
  }

  lemma Snoc(acc: seq<Attribute>, attrs: seq<Attribute>, k: nat)
    requires k < |attrs|
    ensures acc + [attrs[k]] + attrs[k + 1..] == acc + attrs[k..]
  {
    assert attrs[k..] == [attrs[k]] + attrs[k + 1..];
  }

  lemma AttributesFromStep(
    build: Build, frame: seq<Byte>, offset: nat, count: nat, acc: seq<Attribute>, a: Attribute, next: nat)
    requires count > 0 && GetAttribute(build, frame, offset) == Ok((a, next))
    ensures AttributesFrom(build, frame, offset, count, acc) == AttributesFrom(build, frame, next, count - 1, acc + [a])
  {
  }

  lemma ChainStep(build: Build, frame: seq<Byte>, attrs: seq<Attribute>, starts: seq<nat>, k: nat, acc: seq<Attribute>)
    requires |starts| == |attrs| + 1 && k < |attrs|
    requires GetAttribute(build, frame, starts[k]) == Ok((attrs[k], starts[k + 1]))
    requires AttributesFrom(build, frame, starts[k + 1], |attrs| - (k + 1), acc + [attrs[k]])
          == Ok((acc + [attrs[k]] + attrs[k + 1..], starts[|attrs|]))
    ensures AttributesFrom(build, frame, starts[k], |attrs| - k, acc) == Ok((acc + attrs[k..], starts[|attrs|]))
  {
    AttributesFromStep(build, frame, starts[k], |attrs| - k, acc, attrs[k], starts[k + 1]);
    Snoc(acc, attrs, k);
  }

  /**
   * The image of record `i` lies at `starts[i]`, and `starts[i + 1]` is
   * where the decoder leaves the cursor after it.
   */
  predicate Placed(build: Build, frame: seq<Byte>, attrs: seq<Attribute>, starts: seq<nat>, i: nat)
    requires |starts| == |attrs| + 1 && i < |attrs|
  {
    && WellFormed(attrs[i]) && ImageAt(frame, starts[i], AttributeBytes(attrs[i]))
    && (build == AsWritten && attrs[i].value.Uint48Value? ==> starts[i] + |AttributeBytes(attrs[i])| + 2 <= |frame|)
    && starts[i + 1] == starts[i] + Advance(build, attrs[i])
  }

  /** The decoder reads record `i` at `starts[i]` and leaves the cursor at `starts[i + 1]`. */
  predicate Decodes(build: Build, frame: seq<Byte>, attrs: seq<Attribute>, starts: seq<nat>, i: nat)
    requires |starts| == |attrs| + 1 && i < |attrs|
  {
    GetAttribute(build, frame, starts[i]) == Ok((attrs[i], starts[i + 1]))
  }

  /** The decoder reads each placed record and leaves the cursor at the next start. */
  /** Every record is placed at its start. */
  predicate AllPlaced(build: Build, frame: seq<Byte>, attrs: seq<Attribute>, starts: seq<nat>)
    requires |starts| == |attrs| + 1
  {
    forall i | 0 <= i < |attrs| :: Placed(build, frame, attrs, starts, i)
  }

  /** Every record from the `k`-th on decodes at its start. */
  predicate DecodesFrom(build: Build, frame: seq<Byte>, attrs: seq<Attribute>, starts: seq<nat>, k: nat)
    requires |starts| == |attrs| + 1
  {
    forall i | k <= i < |attrs| :: Decodes(build, frame, attrs, starts, i)
  }

  lemma PlacedDecodes(build: Build, frame: seq<Byte>, attrs: seq<Attribute>, starts: seq<nat>)
    requires |starts| == |attrs| + 1 && AllPlaced(build, frame, attrs, starts)
    ensures DecodesFrom(build, frame, attrs, starts, 0)
  {
    forall i | 0 <= i < |attrs|
      ensures Decodes(build, frame, attrs, starts, i)
    {
      PlacedDecode(build, frame, attrs, starts, i);
    }
  }

  lemma PlacedDecode(build: Build, frame: seq<Byte>, attrs: seq<Attribute>, starts: seq<nat>, i: nat)
    requires |starts| == |attrs| + 1 && i < |attrs|
    requires Placed(build, frame, attrs, starts, i)
    ensures Decodes(build, frame, attrs, starts, i)
  {
    RecordDecodes(build, frame, attrs[i], starts[i], starts[i + 1]);
  }

  lemma RecordDecodes(build: Build, frame: seq<Byte>, a: Attribute, p: nat, q: nat)
    requires WellFormed(a) && ImageAt(frame, p, AttributeBytes(a))
    requires build == AsWritten && a.value.Uint48Value? ==> p + |AttributeBytes(a)| + 2 <= |frame|
    requires q == p + Advance(build, a)
    ensures GetAttribute(build, frame, p) == Ok((a, q))
  {
    GetAttributeImage(build, frame, p, a);
  }

  /** From record `k` on, each record is read where the previous one left the cursor. */
  predicate Chained(build: Build, frame: seq<Byte>, attrs: seq<Attribute>, starts: seq<nat>, k: nat)
    requires |starts| == |attrs| + 1 && k <= |attrs|
    decreases |attrs| - k
  {
    k == |attrs| || (Decodes(build, frame, attrs, starts, k) && Chained(build, frame, attrs, starts, k + 1))
  }

  lemma {:induction false} DecodesChained(build: Build, frame: seq<Byte>, attrs: seq<Attribute>, starts: seq<nat>, k: nat)
    requires |starts| == |attrs| + 1 && k <= |attrs| && DecodesFrom(build, frame, attrs, starts, k)
    ensures Chained(build, frame, attrs, starts, k)
    decreases |attrs| - k
  {
    if k < |attrs| {
      assert Decodes(build, frame, attrs, starts, k);
      DecodesChained(build, frame, attrs, starts, k + 1);
    }
  }

  /** The decoder reads chained records one after another. */
  lemma {:induction false} AttributesChain(
    build: Build, frame: seq<Byte>, attrs: seq<Attribute>, starts: seq<nat>, k: nat, acc: seq<Attribute>)
    requires |starts| == |attrs| + 1 && k <= |attrs| && Chained(build, frame, attrs, starts, k)
    ensures AttributesFrom(build, frame, starts[k], |attrs| - k, acc) == Ok((acc + attrs[k..], starts[|attrs|]))
    decreases |attrs| - k
  {
    if k == |attrs| {
      NoMore(acc, attrs[k..]);
    } else {
      AttributesChain(build, frame, attrs, starts, k + 1, acc + [attrs[k]]);
      ChainStep(build, frame, attrs, starts, k, acc);
    }
  }

  lemma Assoc(x: seq<Byte>, y: seq<Byte>, z: seq<Byte>)
    ensures x + (y + z) == x + y + z
  {
  }

  lemma {:induction false} ConcatAppend(p: seq<seq<Byte>>, q: seq<seq<Byte>>)
    ensures Concat(p + q) == Concat(p) + Concat(q)
    decreases |q|
  {
    if |q| == 0 {
      assert p + q == p;
    } else {
      var q' := q[..|q| - 1];
      assert (p + q)[..|p + q| - 1] == p + q';
      ConcatAppend(p, q');
      Assoc(Concat(p), Concat(q'), q[|q| - 1]);
    }
  }

  lemma ConcatPrefix(parts: seq<seq<Byte>>, i: nat)
    requires i < |parts|
    ensures Concat(parts[..i + 1]) == Concat(parts[..i]) + parts[i]
  {
    assert parts[..i + 1][..i] == parts[..i];
  }

  /** The image of everything is the image of a prefix followed by the image of the rest. */
  lemma ConcatSplit(parts: seq<seq<Byte>>, k: nat)
    requires k <= |parts|
    ensures Concat(parts) == Concat(parts[..k]) + Concat(parts[k..])
  {
    assert parts == parts[..k] + parts[k..];
    ConcatAppend(parts[..k], parts[k..]);
  }

  /** Where part `i` of an image of parts lies. */
  lemma PartAt(frame: seq<Byte>, offset: nat, parts: seq<seq<Byte>>, i: nat)
    requires i < |parts| && ImageAt(frame, offset, Concat(parts))
    ensures ImageAt(frame, offset + |Concat(parts[..i])|, parts[i])
  {
    ConcatPrefix(parts, i);
    ConcatSplit(parts, i + 1);
    ImageSplit(frame, offset, Concat(parts[..i + 1]), Concat(parts[i + 1..]));
    ImageSplit(frame, offset, Concat(parts[..i]), parts[i]);
  }

  /** Each part occurs in `frame` where the parts before it end. */
  predicate PartsPlaced(frame: seq<Byte>, offset: nat, parts: seq<seq<Byte>>)
  {
    forall i | 0 <= i < |parts| :: ImageAt(frame, offset + |Concat(parts[..i])|, parts[i])
  }

  /** Where every part of an image of parts lies. */
  lemma PartsAt(frame: seq<Byte>, offset: nat, parts: seq<seq<Byte>>)
    requires ImageAt(frame, offset, Concat(parts))
    ensures PartsPlaced(frame, offset, parts)
  {
    forall i | 0 <= i < |parts|
      ensures ImageAt(frame, offset + |Concat(parts[..i])|, parts[i])
    {
      PartAt(frame, offset, parts, i);
    }
  }

  /** Part `i` ends where the prefix through it ends, and the next part fits after it. */
  lemma PartLengths(parts: seq<seq<Byte>>, i: nat)
    requires i < |parts|
    ensures |Concat(parts[..i + 1])| == |Concat(parts[..i])| + |parts[i]| <= |Concat(parts)|
    ensures i + 1 < |parts| ==> |Concat(parts[..i + 1])| + |parts[i + 1]| <= |Concat(parts)|
  {
    ConcatPrefix(parts, i);
    ConcatSplit(parts, i + 1);
    if i + 1 < |parts| {
      ConcatPrefix(parts, i + 1);
      ConcatSplit(parts, i + 2);
    }
  }

  /** Where the decoder finds record `i`, and where it leaves the cursor after the last one. */
  function Start(build: Build, offset: nat, attrs: seq<Attribute>, i: nat): nat
    requires AllWellFormed(attrs) && i <= |attrs|
  {
    if i == 0 || i < |attrs| then offset + |Concat(Chunks(attrs)[..i])|
    else offset + |Concat(Chunks(attrs)[..i - 1])| + Advance(build, attrs[i - 1])
  }

  lemma StartZero(build: Build, offset: nat, attrs: seq<Attribute>)
    requires AllWellFormed(attrs)
    ensures Start(build, offset, attrs, 0) == offset
  {
    assert Chunks(attrs)[..0] == [];
  }

  /** Record `i` of a readable image, found at its start, with what the decoder needs after it. */
  lemma RecordPlace(build: Build, frame: seq<Byte>, offset: nat, attrs: seq<Attribute>, i: nat)
    requires AllWellFormed(attrs) && i < |attrs| && offset + |AttributesBytes(attrs)| <= |frame|
    requires ImageAt(frame, offset + |Concat(Chunks(attrs)[..i])|, Chunks(attrs)[i])
    requires Readable(build, attrs, |frame| - (offset + |AttributesBytes(attrs)|))
    ensures var p := Start(build, offset, attrs, i);
      && ImageAt(frame, p, AttributeBytes(attrs[i]))
      && (build == AsWritten && attrs[i].value.Uint48Value? ==> p + |AttributeBytes(attrs[i])| + 2 <= |frame|)
      && Start(build, offset, attrs, i + 1) == p + Advance(build, attrs[i])
  {
    PartLengths(Chunks(attrs), i);
    if build == AsWritten && i + 1 < |attrs| {
      assert !attrs[i].value.Uint64Value?;
    }
  }

  /** The cursors at which the decoder should find the records of an image at `offset`. */
  function Starts(build: Build, offset: nat, attrs: seq<Attribute>): (starts: seq<nat>)
    requires AllWellFormed(attrs)
    ensures |starts| == |attrs| + 1
    ensures forall i | 0 <= i <= |attrs| :: starts[i] == Start(build, offset, attrs, i)
  {
    seq(|attrs| + 1, i requires 0 <= i <= |attrs| => Start(build, offset, attrs, i))
  }

  /** Every record of a readable image is placed at its start. */
  lemma AttributesPlaced(build: Build, frame: seq<Byte>, offset: nat, attrs: seq<Attribute>)
    requires AllWellFormed(attrs) && offset + |AttributesBytes(attrs)| <= |frame|
    requires PartsPlaced(frame, offset, Chunks(attrs))
    requires Readable(build, attrs, |frame| - (offset + |AttributesBytes(attrs)|))
    ensures Starts(build, offset, attrs)[0] == offset
    ensures AllPlaced(build, frame, attrs, Starts(build, offset, attrs))
  {
    var starts := Starts(build, offset, attrs);
    forall i | 0 <= i < |attrs|
      ensures Placed(build, frame, attrs, starts, i)
    {
      RecordPlace(build, frame, offset, attrs, i);
    }
    StartZero(build, offset, attrs);
  }

  /** Decoding the image of well-formed records returns them, appended to `acc` in wire order. */
  lemma AttributesImage(
    build: Build, frame: seq<Byte>, offset: nat, attrs: seq<Attribute>, acc: seq<Attribute>)
    requires AllWellFormed(attrs)
    requires ImageAt(frame, offset, AttributesBytes(attrs))
    requires Readable(build, attrs, |frame| - (offset + |AttributesBytes(attrs)|))
    ensures var r := AttributesFrom(build, frame, offset, |attrs|, acc);
      r.Ok? && r.value.0 == acc + attrs
  {
    PartsAt(frame, offset, Chunks(attrs));
    PartsDecode(build, frame, offset, attrs, acc);
  }

  /** Decoding from `offset` when every record's image is in place. */
  lemma PartsDecode(
    build: Build, frame: seq<Byte>, offset: nat, attrs: seq<Attribute>, acc: seq<Attribute>)
    requires AllWellFormed(attrs) && offset + |AttributesBytes(attrs)| <= |frame|
    requires PartsPlaced(frame, offset, Chunks(attrs))
    requires Readable(build, attrs, |frame| - (offset + |AttributesBytes(attrs)|))
    ensures var r := AttributesFrom(build, frame, offset, |attrs|, acc);
      r.Ok? && r.value.0 == acc + attrs
  {
    var starts := Starts(build, offset, attrs);
    AttributesPlaced(build, frame, offset, attrs);
    PlacedDecodes(build, frame, attrs, starts);
    DecodesChained(build, frame, attrs, starts, 0);
    ChainAll(build, frame, offset, attrs, starts, acc);
  }

  lemma ChainAll(
    build: Build, frame: seq<Byte>, offset: nat, attrs: seq<Attribute>, starts: seq<nat>, acc: seq<Attribute>)
    requires |starts| == |attrs| + 1 && starts[0] == offset && Chained(build, frame, attrs, starts, 0)
    ensures AttributesFrom(build, frame, offset, |attrs|, acc) == Ok((acc + attrs, starts[|attrs|]))
  {
    AttributesChain(build, frame, attrs, starts, 0, acc);
    assert attrs[0..] == attrs;
  }

  /** Where a frame puts its markers, identifier, length, CRC and payload. */
  lemma FrameLayout(commandId: U16, payload: seq<Byte>)
    requires |payload| < 0x1_0000
    ensures var frame := FrameBytes(commandId, payload);
      && |frame| == 7 + |payload| && frame[0] == FRAME_START && frame[|frame| - 1] == FRAME_END
      && ImageAt(frame, 1, ToBigEndian(commandId, 2)) && ImageAt(frame, 3, ToBigEndian(|payload|, 2))
      && frame[5] == Crc8Of(commandId, |payload|, payload) && ImageAt(frame, 6, payload)
  {
    var frame := FrameBytes(commandId, payload);
    var crc := Crc8Of(commandId, |payload|, payload);
    var cmd, len := ToBigEndian(commandId, 2), ToBigEndian(|payload|, 2);
    ImageWhole(frame);
    ImageSplit(frame, 0, [FRAME_START] + cmd + len + [crc] + payload, [FRAME_END]);
    ImageSplit(frame, 0, [FRAME_START] + cmd + len + [crc], payload);
    ImageSplit(frame, 0, [FRAME_START] + cmd + len, [crc]);
    ImageSplit(frame, 0, [FRAME_START] + cmd, len);
    ImageSplit(frame, 0, [FRAME_START], cmd);
    ImageByte(frame, 0, FRAME_START);
    ImageByte(frame, |frame| - 1, FRAME_END);
    ImageByte(frame, 5, crc);
  }

  /** FrameHeaderOf from the results of its steps. */
  lemma FrameHeaderSteps(frame: seq<Byte>, commandId: U16, payloadLength: U16, crc: Byte)
    requires 6 <= |frame| && frame[0] == FRAME_START && frame[|frame| - 1] == FRAME_END
    requires ReadU16(frame, 1) == Ok((commandId, 3)) && ReadU16(frame, 3) == Ok((payloadLength, 5))
    requires Crc8(commandId, payloadLength, frame, 5) == Ok(crc) && frame[5] == crc
    ensures FrameHeaderOf(frame) == Ok((FrameHeader(commandId, payloadLength, crc), 6))
  {
  }

  /** The frame header of a frame around a payload shorter than 0xFFFF bytes decodes to its fields. */
  lemma FrameHeaderRoundTrip(commandId: U16, payload: seq<Byte>)
    requires |payload| < 0xFFFF
    ensures FrameHeaderOf(FrameBytes(commandId, payload))
         == Ok((FrameHeader(commandId, |payload|, Crc8Of(commandId, |payload|, payload)), 6))
  {
    var frame := FrameBytes(commandId, payload);
    FrameLayout(commandId, payload);
    ReadBigEndianAt(frame, 1, commandId, 2);
    ReadBigEndianAt(frame, 3, |payload|, 2);
    FrameHeaderSteps(frame, commandId, |payload|, Crc8Of(commandId, |payload|, payload));
  }

  lemma CommandHeaderImage(frame: seq<Byte>, offset: nat, h: CommandHeader)
    requires ImageAt(frame, offset, CommandHeaderBytes(h))
    ensures CommandHeaderOf(frame, offset) == Ok((h, offset + 7))
  {
    var address, cluster := ToBigEndian(h.sourceAddress, 2), ToBigEndian(h.clusterId, 2);
    var middle := [h.sourceEndpoint, h.destinationEndpoint, h.sequenceNumber];
    ImageSplit(frame, offset, address + middle, cluster);
    ImageSplit(frame, offset, address, middle);
    ReadBigEndianAt(frame, offset, h.sourceAddress, 2);
    ReadBigEndianAt(frame, offset + 5, h.clusterId, 2);
    assert middle[0] == h.sourceEndpoint && middle[1] == h.destinationEndpoint && middle[2] == h.sequenceNumber;
  }

  /** Where a read-attributes-response frame puts its command header, record count and records. */
  lemma ReadRspLayout(h: CommandHeader, attrs: seq<Attribute>)
    requires |attrs| < 0x100 && AllWellFormed(attrs)
    requires |ReadRspPayload(h, attrs)| < 0xFFFF
    ensures var frame := ReadRspFrame(h, attrs);
      && ImageAt(frame, 6, CommandHeaderBytes(h)) && frame[13] == |attrs|
      && ImageAt(frame, 14, AttributesBytes(attrs)) && |frame| == 14 + |AttributesBytes(attrs)| + 1
  {
    var payload := ReadRspPayload(h, attrs);
    var frame := ReadRspFrame(h, attrs);
    var head := CommandHeaderBytes(h);
    FrameLayout(ATTR_READ_RSP, payload);
    ImageSplit(frame, 6, head + [|attrs|], AttributesBytes(attrs));
    ImageSplit(frame, 6, head, [|attrs|]);
    ImageByte(frame, 13, |attrs|);
  }

  lemma OkPair(r: Parsed<seq<Attribute>>, attrs: seq<Attribute>)
    requires r.Ok? && r.value.0 == attrs
    ensures r == Ok((attrs, r.value.1))
  {
  }

  /** DecodeWire from the results of its steps. */
  lemma DecodeWireSteps(
    build: Build, frame: seq<Byte>, fh: FrameHeader, h: CommandHeader, next: nat, attrs: seq<Attribute>)
    requires FrameHeaderOf(frame) == Ok((fh, 6)) && fh.commandId == ATTR_READ_RSP
    requires CommandHeaderOf(frame, 6) == Ok((h, 13))
    requires |frame| > 13 && AttributesFrom(build, frame, 14, frame[13], []) == Ok((attrs, next))
    ensures DecodeWire(build, frame) == Ok(Message(fh, h, attrs))
  {
  }

  /** A frame whose header decodes, followed by the images of a command header, a count and records. */
  lemma DecodeImage(build: Build, frame: seq<Byte>, fh: FrameHeader, h: CommandHeader, attrs: seq<Attribute>)
    requires FrameHeaderOf(frame) == Ok((fh, 6)) && fh.commandId == ATTR_READ_RSP
    requires AllWellFormed(attrs) && Readable(build, attrs, 1)
    requires ImageAt(frame, 6, CommandHeaderBytes(h)) && |frame| > 13 && frame[13] == |attrs|
    requires ImageAt(frame, 14, AttributesBytes(attrs)) && |frame| == 14 + |AttributesBytes(attrs)| + 1
    ensures DecodeWire(build, frame) == Ok(Message(fh, h, attrs))
  {
    CommandHeaderImage(frame, 6, h);
    AttributesImage(build, frame, 14, attrs, []);
    var rs := AttributesFrom(build, frame, 14, |attrs|, []);
    OkPair(rs, attrs);
    DecodeWireSteps(build, frame, fh, h, rs.value.1, attrs);
  }

  /**
   * Decoding the frame of a well-formed response gives back its frame
   * header, its command header and its records in wire order, provided the
   * decoder can read them (always for the corrected decoder).
   */
  lemma DecodeRoundTrip(build: Build, h: CommandHeader, attrs: seq<Attribute>)
    requires |attrs| < 0x100 && AllWellFormed(attrs)
    requires |ReadRspPayload(h, attrs)| < 0xFFFF
    requires Readable(build, attrs, 1)
    ensures var payload := ReadRspPayload(h, attrs);
      DecodeWire(build, ReadRspFrame(h, attrs))
      == Ok(Message(FrameHeader(ATTR_READ_RSP, |payload|, Crc8Of(ATTR_READ_RSP, |payload|, payload)), h, attrs))
  {
    var payload := ReadRspPayload(h, attrs);
    FrameHeaderRoundTrip(ATTR_READ_RSP, payload);
    ReadRspLayout(h, attrs);
    DecodeImage(build, ReadRspFrame(h, attrs),
      FrameHeader(ATTR_READ_RSP, |payload|, Crc8Of(ATTR_READ_RSP, |payload|, payload)), h, attrs);
  }
}
