/** The BMP encoder of lib/utils.js (`bmp_img_encoder`): a 14-byte file
    header and a 40-byte BITMAPINFOHEADER (32 bits per pixel, no
    compression, negative height so that rows run top-down), followed by
    the raw pixel bytes. Multi-byte fields are little-endian, written with
    Node's `Buffer.writeUInt32LE`, `writeInt32LE` and `writeUInt16LE`,
    which throw a RangeError when the value does not fit the field. */
module Bmp {
  import opened Common

  type byte = b: int | 0 <= b < 256

  const MaxU32: int := 0xFFFF_FFFF
  const MaxI32: int := 0x7FFF_FFFF
  const MinI32: int := -0x8000_0000
  const TwoTo32: int := 0x1_0000_0000

  /** Fixed field values of the header. */
  const DataOffset: nat := 54
  const InfoHeaderSize: nat := 40
  const Planes: nat := 1
  const BitsPerPixel: nat := 32
  const BytesPerPixel: nat := 4
  const NoCompression: nat := 0

  /** Byte offsets of the header fields. */
  const SizeOffset: nat := 2
  const ReservedOffset: nat := 6
  const DataOffsetOffset: nat := 10
  const InfoSizeOffset: nat := 14
  const WidthOffset: nat := 18
  const HeightOffset: nat := 22
  const PlanesOffset: nat := 26
  const BppOffset: nat := 28
  const CompressionOffset: nat := 30
  const ImageSizeOffset: nat := 34
  const ResolutionOffset: nat := 38

  function Pow256(n: nat): (p: nat)
    ensures p > 0
  {
    if n == 0 then 1 else 256 * Pow256(n - 1)
  }

  /** `v` as `n` little-endian bytes. */
  function LE(v: nat, n: nat): (r: seq<byte>)
    requires v < Pow256(n)
    ensures |r| == n
  {
    if n == 0 then [] else [v % 256] + LE(v / 256, n - 1)
  }

  /** The unsigned value of little-endian bytes. */
  function FromLE(b: seq<byte>): nat
  {
    if |b| == 0 then 0 else b[0] + 256 * FromLE(b[1..])
  }

  /** Reading back what `LE` wrote gives the value written. */
  lemma {:induction false} FromLEOfLE(v: nat, n: nat)
    requires v < Pow256(n)
    ensures FromLE(LE(v, n)) == v
  {
    if n > 0 {
      FromLEOfLE(v / 256, n - 1);
      assert LE(v, n)[1..] == LE(v / 256, n - 1);
    }
  }

  /** Every `n` bytes are the little-endian encoding of exactly one value. */
  lemma {:induction false} LEOfFromLE(b: seq<byte>)
    ensures FromLE(b) < Pow256(|b|)
    ensures LE(FromLE(b), |b|) == b
  {
    if |b| > 0 {
      LEOfFromLE(b[1..]);
      assert FromLE(b) / 256 == FromLE(b[1..]);
      assert [b[0]] + b[1..] == b;
    }
  }

  function U16(v: nat): (r: seq<byte>)
    requires v <= 0xFFFF
    ensures |r| == 2
  {
    LE(v, 2)
  }

  function U32(v: nat): (r: seq<byte>)
    requires v <= MaxU32
    ensures |r| == 4
  {
    LE(v, 4)
  }

  /** A signed 32-bit value in two's complement. */
  function I32(v: int): (r: seq<byte>)
    requires MinI32 <= v <= MaxI32
    ensures |r| == 4
  {
    U32(if v < 0 then v + TwoTo32 else v)
  }

  function ReadU16(b: seq<byte>, off: nat): nat
    requires off + 2 <= |b|
  {
    FromLE(b[off..off + 2])
  }

  function ReadU32(b: seq<byte>, off: nat): nat
    requires off + 4 <= |b|
  {
    FromLE(b[off..off + 4])
  }

  function ReadI32(b: seq<byte>, off: nat): int
    requires off + 4 <= |b|
  {
    var u := ReadU32(b, off);
    if u > MaxI32 then u - TwoTo32 else u
  }

  /** Which write threw. */
  datatype Field = FileSize | Width | Height
  datatype RangeError = OutOfRange(field: Field, value: int)

  /** Total length of the file for a w x h image. */
  function FileLength(w: nat, h: nat): nat
  {
    DataOffset + h * (BytesPerPixel * w)
  }

  /** Every field of a w x h image fits the width it is written with. */
  predicate Encodable(w: nat, h: nat)
  {
    FileLength(w, h) <= MaxU32 && w <= MaxU32 && h <= -MinI32
  }

  /** The three writes that can throw, in the order the encoder makes them:
      the file size and the width as unsigned 32-bit values, the negated
      height as a signed 32-bit value. */
  function CheckRanges(w: nat, h: nat): (r: Option<RangeError>)
    ensures r.None? <==> FileLength(w, h) <= MaxU32 && w <= MaxU32 && -(h as int) >= MinI32
  {
    if FileLength(w, h) > MaxU32 then Some(OutOfRange(FileSize, FileLength(w, h)))
    else if w > MaxU32 then Some(OutOfRange(Width, w))
    else if -(h as int) < MinI32 then Some(OutOfRange(Height, -(h as int)))
    else None
  }

  /** `data.copy(buffer, 54)`: copies as many bytes as fit; the rest of the
      freshly allocated buffer stays zero. */
  function Pixels(data: seq<byte>, n: nat): (r: seq<byte>)
    ensures |r| == n
    ensures forall i :: 0 <= i < n ==> r[i] == (if i < |data| then data[i] else 0)
  {
    if |data| >= n then data[..n] else data + seq(n - |data|, _ => 0)
  }

  /** An unsigned little-endian field of `size` bytes: one
      `buffer.writeUIntNLE(value, pos); pos += size` of the encoder. */
  datatype Word = Word(value: nat, size: nat)

  predicate AllFit(ws: seq<Word>)
  {
    forall i :: 0 <= i < |ws| ==> ws[i].value < Pow256(ws[i].size)
  }

  /** The words written one after the other. */
  function Serialize(ws: seq<Word>): seq<byte>
    requires AllFit(ws)
  {
    if |ws| == 0 then [] else LE(ws[0].value, ws[0].size) + Serialize(ws[1..])
  }

  /** The position at which the k-th word is written. */
  function OffsetOf(ws: seq<Word>, k: nat): nat
    requires k <= |ws|
  {
    if k == 0 then 0 else OffsetOf(ws, k - 1) + ws[k - 1].size
  }

  /** The two's complement of a signed 32-bit value, as written by `writeInt32LE`. */
  function TwosComplement(v: int): (u: nat)
    requires MinI32 <= v <= MaxI32
    ensures u <= MaxU32
    ensures (if u > MaxI32 then u - TwoTo32 else u) == v
  {
    if v < 0 then v + TwoTo32 else v
  }

  /** The fields after the 'BM' signature, in the order the encoder writes
      them: file size, reserved, data offset, info-header size, width,
      height (negated), planes, bits per pixel, compression, image size,
      horizontal and vertical resolution, colours used, important colours. */
  function HeaderWords(w: nat, h: nat): (ws: seq<Word>)
    requires CheckRanges(w, h).None?
    ensures AllFit(ws)
    ensures HeaderShaped(ws)
  {
    [ Word(FileLength(w, h), 4), Word(0, 4), Word(DataOffset, 4), Word(InfoHeaderSize, 4),
      Word(w, 4), Word(TwosComplement(-(h as int)), 4),
      Word(Planes, 2), Word(BitsPerPixel, 2), Word(NoCompression, 4),
      Word(h * (BytesPerPixel * w), 4),
      Word(0, 4), Word(0, 4), Word(0, 4), Word(0, 4) ]
  }

  /** Fourteen words, all four bytes wide except planes and bits per pixel. */
  predicate HeaderShaped(ws: seq<Word>)
  {
    |ws| == 14 && forall i :: 0 <= i < 14 ==> ws[i].size == (if i == 6 || i == 7 then 2 else 4)
  }

  /** Where word k of a header-shaped list starts, after the signature. */
  function HeaderOffset(k: nat): nat
  {
    if k <= 7 then 4 * k - (if k == 7 then 2 else 0) else 4 * k - 4
  }

  lemma {:induction false} HeaderShapedOffsets(ws: seq<Word>, k: nat)
    requires HeaderShaped(ws) && k <= 14
    ensures OffsetOf(ws, k) == HeaderOffset(k)
  {
    if k > 0 {
      HeaderShapedOffsets(ws, k - 1);
    }
  }

  function Header(w: nat, h: nat): (r: seq<byte>)
    requires CheckRanges(w, h).None?
    ensures |r| == DataOffset
  {
    var ws := HeaderWords(w, h);
    SerializeLength(ws);
    HeaderShapedOffsets(ws, 14);
    [66, 77] + Serialize(ws)     // 'B', 'M'
  }

  /** `bmp_img_encoder({width: w, height: h, data})`. */
  function Encode(w: nat, h: nat, data: seq<byte>): (r: Result<seq<byte>, RangeError>)
    ensures r.Success? <==> Encodable(w, h)
    ensures r.Failure? ==> r.error == CheckRanges(w, h).value
    ensures r.Success? ==> |r.value| == DataOffset + BytesPerPixel * w * h
    ensures r.Success? ==> forall i :: DataOffset <= i < |r.value| ==>
      r.value[i] == (if i - DataOffset < |data| then data[i - DataOffset] else 0)
  {
    match CheckRanges(w, h)
    case Some(e) => Failure(e)
    case None =>
      Success(Header(w, h) + Pixels(data, h * (BytesPerPixel * w)))
  }

  lemma {:induction false} SerializeLength(ws: seq<Word>)
    requires AllFit(ws)
    ensures |Serialize(ws)| == OffsetOf(ws, |ws|)
  {
    if |ws| > 0 {
      SerializeLength(ws[1..]);
      OffsetOfTail(ws, |ws|);
    }
  }

  /** Dropping the first word moves every later word back by its size. */
  lemma {:induction false} OffsetOfTail(ws: seq<Word>, k: nat)
    requires 1 <= k <= |ws|
    ensures OffsetOf(ws, k) == ws[0].size + OffsetOf(ws[1..], k - 1)
  {
    if k > 1 {
      OffsetOfTail(ws, k - 1);
    }
  }

  /** The k-th word sits at its offset in the serialized bytes. */
  lemma {:induction false} SerializedWord(ws: seq<Word>, k: nat)
    requires AllFit(ws) && k < |ws|
    ensures OffsetOf(ws, k) + ws[k].size <= |Serialize(ws)|
    ensures Serialize(ws)[OffsetOf(ws, k)..OffsetOf(ws, k) + ws[k].size] == LE(ws[k].value, ws[k].size)
  {
    var first := LE(ws[0].value, ws[0].size);
    var rest := ws[1..];
    assert AllFit(rest) by {
      forall i | 0 <= i < |rest| ensures rest[i].value < Pow256(rest[i].size) {
        assert rest[i] == ws[i + 1];
      }
    }
    assert Serialize(ws) == first + Serialize(rest);
    if k == 0 {
      assert Serialize(ws)[..ws[0].size] == first;
    } else {
      SerializedWord(rest, k - 1);
      OffsetOfTail(ws, k);
      assert rest[k - 1] == ws[k];
      var o := OffsetOf(rest, k - 1);
      SliceOfConcat(first, Serialize(rest), o, o + ws[k].size);
    }
  }

  /** A slice of the second part of a concatenation, taken through the
      whole. */
  lemma SliceOfConcat<T>(a: seq<T>, b: seq<T>, i: nat, j: nat)
    requires i <= j <= |b|
    ensures (a + b)[|a| + i..|a| + j] == b[i..j]
  {
  }

  /** Word k of a header-shaped list reads back from the file laid out as
      signature, serialized words, then anything. */
  lemma HeaderWordAt(ws: seq<Word>, tail: seq<byte>, k: nat)
    requires AllFit(ws) && HeaderShaped(ws) && k < 14
    ensures var b := [66, 77] + Serialize(ws) + tail;
      var off := 2 + HeaderOffset(k);
      && off + ws[k].size <= |b|
      && FromLE(b[off..off + ws[k].size]) == ws[k].value
  {
    HeaderShapedOffsets(ws, k);
    var ser := Serialize(ws);
    var o := OffsetOf(ws, k);
    SerializedWord(ws, k);
    var head: seq<byte> := [66, 77];
    assert head + ser + tail == head + (ser + tail);
    SliceOfConcat(head, ser + tail, o, o + ws[k].size);
    assert (ser + tail)[o..o + ws[k].size] == ser[o..o + ws[k].size];
    FromLEOfLE(ws[k].value, ws[k].size);
  }

  /** A header word read back from an encoded file. */
  lemma EncodedWord(w: nat, h: nat, data: seq<byte>, k: nat)
    requires Encodable(w, h) && k < 14
    ensures var ws := HeaderWords(w, h);
      var off := 2 + HeaderOffset(k);
      && off + ws[k].size <= |Encode(w, h, data).value|
      && FromLE(Encode(w, h, data).value[off..off + ws[k].size]) == ws[k].value
  {
    assert CheckRanges(w, h).None?;
    var ws := HeaderWords(w, h);
    var px := Pixels(data, h * (BytesPerPixel * w));
    assert Encode(w, h, data).value == [66, 77] + Serialize(ws) + px;
    HeaderWordAt(ws, px, k);
  }

  /** The 14-byte file header: signature, total size, reserved word, offset of the pixels. */
  lemma EncodedFileHeader(w: nat, h: nat, data: seq<byte>)
    requires Encodable(w, h)
    ensures var b := Encode(w, h, data).value;
      && b[0] == 'B' as int && b[1] == 'M' as int
      && ReadU32(b, SizeOffset) == |b|
      && ReadU32(b, ReservedOffset) == 0
      && ReadU32(b, DataOffsetOffset) == DataOffset
  {
    EncodedWord(w, h, data, 0);
    EncodedWord(w, h, data, 1);
    EncodedWord(w, h, data, 2);
  }

  /** The dimensions of the info header: width as written, height negated. */
  lemma EncodedDimensions(w: nat, h: nat, data: seq<byte>)
    requires Encodable(w, h)
    ensures var b := Encode(w, h, data).value;
      && ReadU32(b, InfoSizeOffset) == InfoHeaderSize
      && ReadU32(b, WidthOffset) == w
      && ReadI32(b, HeightOffset) == -(h as int)
  {
    EncodedWord(w, h, data, 3);
    EncodedWord(w, h, data, 4);
    EncodedWord(w, h, data, 5);
  }

  /** The pixel format of the info header. */
  lemma EncodedPixelFormat(w: nat, h: nat, data: seq<byte>)
    requires Encodable(w, h)
    ensures var b := Encode(w, h, data).value;
      && ReadU16(b, PlanesOffset) == 1
      && ReadU16(b, BppOffset) == 32
      && ReadU32(b, CompressionOffset) == 0
      && ReadU32(b, ImageSizeOffset) == BytesPerPixel * w * h
  {
    EncodedWord(w, h, data, 6);
    EncodedWord(w, h, data, 7);
    EncodedWord(w, h, data, 8);
    EncodedWord(w, h, data, 9);
  }

  /** Bytes that read as zero are all zero. */
  lemma {:induction false} FromLEZero(b: seq<byte>)
    requires FromLE(b) == 0
    ensures forall i :: 0 <= i < |b| ==> b[i] == 0
  {
    if |b| > 0 {
      FromLEZero(b[1..]);
      assert forall i :: 1 <= i < |b| ==> b[i] == b[1..][i - 1];
    }
  }

  /** Word k (10 to 13) of the header is four zero bytes. */
  lemma EncodedZeroWord(w: nat, h: nat, data: seq<byte>, k: nat, o: nat)
    requires Encodable(w, h) && 10 <= k < 14 && o == 2 + HeaderOffset(k)
    ensures o + 4 <= |Encode(w, h, data).value|
    ensures forall i :: o <= i < o + 4 ==> Encode(w, h, data).value[i] == 0
  {
    var b := Encode(w, h, data).value;
    EncodedWord(w, h, data, k);
    FromLEZero(b[o..o + 4]);
    assert forall i :: o <= i < o + 4 ==> b[i] == b[o..o + 4][i - o];
  }

  /** Resolution and colour-count fields (offsets 38 to 53) are zero. */
  lemma EncodedTrailingZeros(w: nat, h: nat, data: seq<byte>)
    requires Encodable(w, h)
    ensures forall i :: ResolutionOffset <= i < DataOffset ==> Encode(w, h, data).value[i] == 0
  {
    EncodedZeroWord(w, h, data, 10, 38);
    EncodedZeroWord(w, h, data, 11, 42);
    EncodedZeroWord(w, h, data, 12, 46);
    EncodedZeroWord(w, h, data, 13, 50);
  }

  /** A decoded top-down 32-bit image. */
  datatype Image = Image(width: nat, height: nat, pixels: seq<byte>)

  /** Reads back a file of the shape the encoder produces: every fixed
      field must hold the encoder's value, the height must be stored
      negated, and the sizes must agree with the dimensions. */
  function Decode(b: seq<byte>): Option<Image>
  {
    if |b| < DataOffset then None
    else
      var w := ReadU32(b, WidthOffset);
      var storedHeight := ReadI32(b, HeightOffset);
      if && b[0] == 'B' as int && b[1] == 'M' as int
         && ReadU32(b, SizeOffset) == |b|
         && ReadU32(b, ReservedOffset) == 0
         && ReadU32(b, DataOffsetOffset) == DataOffset
         && ReadU32(b, InfoSizeOffset) == InfoHeaderSize
         && storedHeight <= 0
         && ReadU16(b, PlanesOffset) == Planes
         && ReadU16(b, BppOffset) == BitsPerPixel
         && ReadU32(b, CompressionOffset) == NoCompression
         && ReadU32(b, ImageSizeOffset) == |b| - DataOffset
         && |b| - DataOffset == BytesPerPixel * w * -storedHeight
         && (forall i :: ResolutionOffset <= i < DataOffset ==> b[i] == 0)
      then Some(Image(w, -storedHeight, b[DataOffset..]))
      else None
  }

  /** Decoding an encoded image gives back its dimensions and, when the
      pixel buffer has the length the dimensions call for, its pixels. */
  lemma EncodeDecode(w: nat, h: nat, data: seq<byte>)
    requires Encodable(w, h)
    requires |data| == BytesPerPixel * w * h
    ensures Decode(Encode(w, h, data).value) == Some(Image(w, h, data))
  {
    var b := Encode(w, h, data).value;
    EncodedFileHeader(w, h, data);
    EncodedDimensions(w, h, data);
    EncodedPixelFormat(w, h, data);
    EncodedTrailingZeros(w, h, data);
    assert b[DataOffset..] == data;
  }
}
