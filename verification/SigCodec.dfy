/** The variable-length encodings of metadata signatures (ECMA-335, section II.23.2): unsigned data,
    signed integers and tokens. Words are 32 bits wide, as in the source. */
module SigCodec {

  type Byte = bv8
  type Word = bv32

  const MAX_DATA: Word := 0x1FFF_FFFF

  // ----- encodings as byte sequences; the empty sequence stands for "cannot be compressed"

  /** The cast to a byte, which keeps the low eight bits. */
  function Low(v: Word): Byte {
    (v & 0xff) as Byte
  }

  function Medium(v: Word): seq<Byte> {
    [Low((v >> 8) | 0x80), Low(v & 0xff)]
  }

  function Large(v: Word): seq<Byte> {
    [Low((v >> 24) | 0xC0), Low((v >> 16) & 0xff), Low((v >> 8) & 0xff), Low(v & 0xff)]
  }

  function CompressData(v: Word): seq<Byte> {
    if v <= 0x7F then [Low(v)]
    else if v <= 0x3FFF then Medium(v)
    else if v <= MAX_DATA then Large(v)
    else []
  }

  predicate SmallByte(b: Byte) { b & 0x80 == 0 }
  predicate MediumByte(b: Byte) { b & 0xC0 == 0x80 }
  predicate LargeByte(b: Byte) { b & 0xE0 == 0xC0 }

  /** The number of bytes, told by the first one. */
  function UncompressedDataSize(first: Byte): nat {
    if SmallByte(first) then 1 else if MediumByte(first) then 2 else 4
  }

  function Word2(b0: Byte, b1: Byte): Word {
    ((b0 & 0x3f) as Word << 8) | (b1 as Word)
  }

  function Word4(b0: Byte, b1: Byte, b2: Byte, b3: Byte): Word {
    ((b0 & 0x1f) as Word << 24) | ((b1 as Word) << 16) | ((b2 as Word) << 8) | (b3 as Word)
  }

  datatype Data = Data(value: Word, length: nat) | BadSignature

  /** Memory holds the bytes a decoder looks at when told that `len` bytes are there: the first one
      always, the rest of the encoding if it fits in `len`. */
  predicate Readable(memory: seq<Byte>, len: nat) {
    |memory| > 0 && (UncompressedDataSize(memory[0]) <= len ==> UncompressedDataSize(memory[0]) <= |memory|)
  }

  /** The decoder that is told how many bytes there are. */
  function UncompressData(memory: seq<Byte>, len: nat): Data
    requires Readable(memory, len)
  {
    if SmallByte(memory[0]) then
      if len < 1 then BadSignature else Data(memory[0] as Word, 1)
    else if MediumByte(memory[0]) then
      if len < 2 then BadSignature else Data(Word2(memory[0], memory[1]), 2)
    else if LargeByte(memory[0]) then
      if len < 4 then BadSignature else Data(Word4(memory[0], memory[1], memory[2], memory[3]), 4)
    else BadSignature
  }

  // ----- bits

  lemma SmallBits(v: Word)
    requires v <= 0x7F
    ensures SmallByte(Low(v)) && Low(v) as Word == v
  {
  }

  lemma MediumBits(v: Word)
    requires v <= 0x3FFF
    ensures var b := Medium(v); !SmallByte(b[0]) && MediumByte(b[0]) && Word2(b[0], b[1]) == v
  {
  }

  lemma LargeBits(v: Word)
    requires v <= MAX_DATA
    ensures var b := Large(v);
            !SmallByte(b[0]) && !MediumByte(b[0]) && LargeByte(b[0]) && Word4(b[0], b[1], b[2], b[3]) == v
  {
  }

  lemma SmallBound(b: Byte)
    requires SmallByte(b)
    ensures b as Word <= 0x7F
  {
  }

  lemma MediumBound(b0: Byte, b1: Byte)
    ensures Word2(b0, b1) <= 0x3FFF
  {
  }

  lemma LargeBound(b0: Byte, b1: Byte, b2: Byte, b3: Byte)
    ensures Word4(b0, b1, b2, b3) <= MAX_DATA
  {
  }

  lemma LeadingBits(b: Byte)
    ensures b & 0xE0 != 0xE0 <==> SmallByte(b) || MediumByte(b) || LargeByte(b)
  {
  }

  // ----- unsigned data

  /** Decoding an encoding, whatever follows it, gives back the value and the length. */
  lemma DataRoundTrip(v: Word, rest: seq<Byte>, len: nat)
    requires v <= MAX_DATA && len >= |CompressData(v)|
    ensures Readable(CompressData(v) + rest, len)
    ensures UncompressData(CompressData(v) + rest, len) == Data(v, |CompressData(v)|)
  {
    if v <= 0x7F {
      SmallBits(v);
    } else if v <= 0x3FFF {
      MediumBits(v);
    } else {
      LargeBits(v);
    }
    hide Medium, Large, SmallByte, MediumByte, LargeByte, Word2, Word4;
  }

  lemma SizeFromFirstByte(v: Word)
    requires v <= MAX_DATA
    ensures |CompressData(v)| == UncompressedDataSize(CompressData(v)[0])
  {
  }

  /** What the decoder accepts, and what it then returns: never more than the largest value, and never
      from fewer bytes than the encoder would use. */
  lemma DecodedIsEncodable(memory: seq<Byte>, len: nat)
    requires Readable(memory, len)
    ensures UncompressData(memory, len).Data? <==>
            memory[0] & 0xE0 != 0xE0 && UncompressedDataSize(memory[0]) <= len
    ensures var r := UncompressData(memory, len);
            r.Data? ==>
              && r.value <= MAX_DATA && r.length == UncompressedDataSize(memory[0]) <= |memory|
              && 0 < |CompressData(r.value)| <= r.length
  {
    LeadingBits(memory[0]);
    if SmallByte(memory[0]) {
      SmallBound(memory[0]);
    } else if UncompressData(memory, len).Data? {
      if MediumByte(memory[0]) {
        MediumBound(memory[0], memory[1]);
      } else {
        LargeBound(memory[0], memory[1], memory[2], memory[3]);
      }
    }
    hide Medium, Large, SmallByte, MediumByte, LargeByte, Word2, Word4;
  }

  /** The decoder that trusts its input: the value and the number of bytes it moves past. */
  function Unchecked(memory: seq<Byte>): (Word, nat)
    requires |memory| > 0 && UncompressedDataSize(memory[0]) <= |memory|
  {
    if SmallByte(memory[0]) then (memory[0] as Word, 1)
    else if MediumByte(memory[0]) then (Word2(memory[0], memory[1]), 2)
    else (Word4(memory[0], memory[1], memory[2], memory[3]), 4)
  }

  /** Where the checked decoder succeeds the trusting one agrees; beyond that it accepts the first bytes
      the checked one refuses. */
  lemma UncheckedAgrees(memory: seq<Byte>, len: nat)
    requires Readable(memory, len) && UncompressedDataSize(memory[0]) <= |memory|
    ensures var r := UncompressData(memory, len);
            r.Data? ==> Unchecked(memory) == (r.value, r.length)
    ensures UncompressData(memory, len).BadSignature? <==>
            memory[0] & 0xE0 == 0xE0 || len < Unchecked(memory).1
  {
  }

  /** The number the bytes of an encoding spell, most significant first, without the marker of the length. */
  function BigEndian(b: seq<Byte>): Word {
    if |b| == 1 then b[0] as Word
    else if |b| == 2 then (b[0] as Word - 0x80) * 0x100 + b[1] as Word
    else if |b| == 4 then
      (b[0] as Word - 0xC0) * 0x100_0000 + b[1] as Word * 0x1_0000 + b[2] as Word * 0x100 + b[3] as Word
    else 0
  }

  lemma SmallIsBigEndian(v: Word)
    requires v <= 0x7F
    ensures BigEndian([Low(v)]) == v
  {
  }

  lemma MediumIsBigEndian(v: Word)
    requires v <= 0x3FFF
    ensures BigEndian(Medium(v)) == v
  {
  }

  lemma LargeIsBigEndian(v: Word)
    requires v <= MAX_DATA
    ensures BigEndian(Large(v)) == v
  {
  }

  /** An encoding is the value in big-endian order below the marker of the length. */
  lemma DataIsBigEndian(v: Word)
    requires v <= MAX_DATA
    ensures BigEndian(CompressData(v)) == v
  {
    hide BigEndian, Low, Medium, Large;
    if v <= 0x7F {
      SmallIsBigEndian(v);
    } else if v <= 0x3FFF {
      MediumIsBigEndian(v);
    } else {
      LargeIsBigEndian(v);
    }
  }

  function CompressAll(values: seq<Word>): seq<Byte> {
    if values == [] then [] else CompressData(values[0]) + CompressAll(values[1..])
  }

  datatype Values = Values(values: seq<Word>) | BadValues

  /** Decodes from the front until nothing is left. */
  function UncompressAll(memory: seq<Byte>): Values
    decreases |memory|
  {
    if memory == [] then Values([])
    else if !Readable(memory, |memory|) then BadValues
    else
      match UncompressData(memory, |memory|)
      case BadSignature => BadValues
      case Data(v, n) =>
        if n == 0 || n > |memory| then BadValues
        else
          match UncompressAll(memory[n..])
          case BadValues => BadValues
          case Values(vs) => Values([v] + vs)
  }

  /** A signature of encoded values decodes to the same values: no encoding runs into the next. */
  lemma {:induction false} AllRoundTrip(values: seq<Word>)
    requires forall v :: v in values ==> v <= MAX_DATA
    ensures UncompressAll(CompressAll(values)) == Values(values)
  {
    if values != [] {
      var first, rest := CompressData(values[0]), CompressAll(values[1..]);
      assert values[0] in values && forall v :: v in values[1..] ==> v in values;
      DataRoundTrip(values[0], rest, |first + rest|);
      AllRoundTrip(values[1..]);
      hide CompressData, UncompressData, Readable;
      assert (first + rest)[|first|..] == rest;
      assert values == [values[0]] + values[1..];
    }
  }

  // ----- signed integers

  /** The integer a word stands for. */
  function ToInt(w: Word): int {
    if w < 0x8000_0000 then w as int else w as int - 0x1_0000_0000
  }

  function SignBit(i: Word): Word {
    if i & 0x8000_0000 != 0 then 1 else 0
  }

  // For each length: whether all bits above the payload equal the sign, the payload moved up by one
  // with the sign below it, and the way back.

  predicate FitsOne(i: Word) {
    i & 0xFFFF_FFC0 == 0 || i & 0xFFFF_FFC0 == 0xFFFF_FFC0
  }

  function RotateOne(i: Word): Word {
    ((i & 0x3F) << 1) | SignBit(i)
  }

  function UnrotateOne(d: Word): Word {
    if d & 1 != 0 then (d >> 1) | 0xFFFF_FFC0 else d >> 1
  }

  predicate FitsTwo(i: Word) {
    i & 0xFFFF_E000 == 0 || i & 0xFFFF_E000 == 0xFFFF_E000
  }

  function RotateTwo(i: Word): Word {
    ((i & 0x1FFF) << 1) | SignBit(i)
  }

  function UnrotateTwo(d: Word): Word {
    if d & 1 != 0 then (d >> 1) | 0xFFFF_E000 else d >> 1
  }

  predicate FitsFour(i: Word) {
    i & 0xF000_0000 == 0 || i & 0xF000_0000 == 0xF000_0000
  }

  function RotateFour(i: Word): Word {
    ((i & 0x0FFF_FFFF) << 1) | SignBit(i)
  }

  function UnrotateFour(d: Word): Word {
    if d & 1 != 0 then (d >> 1) | 0xF000_0000 else d >> 1
  }

  function CompressSigned(i: Word): seq<Byte> {
    if FitsOne(i) then [Low(RotateOne(i))]
    else if FitsTwo(i) then Medium(RotateTwo(i))
    else if FitsFour(i) then Large(RotateFour(i))
    else []
  }

  /** Told that the signature is big enough; decodes the rotated payload and rotates it back. */
  function UncompressSigned(memory: seq<Byte>): Data
    requires Readable(memory, 0xff)
  {
    match UncompressData(memory, 0xff)
    case BadSignature => BadSignature
    case Data(d, n) => Data(if n == 1 then UnrotateOne(d) else if n == 2 then UnrotateTwo(d) else UnrotateFour(d), n)
  }

  lemma RotatesOne(i: Word)
    requires FitsOne(i)
    ensures RotateOne(i) <= 0x7F && UnrotateOne(RotateOne(i)) == i
  {
  }

  lemma RangeOne(i: Word)
    ensures FitsOne(i) <==> -0x40 <= ToInt(i) < 0x40
  {
    assert i & 0xFFFF_FFC0 == 0 <==> 0 <= ToInt(i) < 0x40;
    assert i & 0xFFFF_FFC0 == 0xFFFF_FFC0 <==> -0x40 <= ToInt(i) < 0;
  }

  lemma RotatesTwo(i: Word)
    requires FitsTwo(i)
    ensures RotateTwo(i) <= 0x3FFF && UnrotateTwo(RotateTwo(i)) == i
  {
    hide RotateTwo, UnrotateTwo;
    if i & 0xFFFF_E000 == 0 {
      PositiveTwo(i);
    } else {
      NegativeTwo(i);
    }
  }

  lemma PositiveTwo(i: Word)
    requires i & 0xFFFF_E000 == 0
    ensures RotateTwo(i) == (i & 0x1FFF) << 1 <= 0x3FFF && UnrotateTwo((i & 0x1FFF) << 1) == i
  {
  }

  lemma NegativeTwo(i: Word)
    requires i & 0xFFFF_E000 == 0xFFFF_E000
    ensures RotateTwo(i) == ((i & 0x1FFF) << 1) | 1 <= 0x3FFF && UnrotateTwo(((i & 0x1FFF) << 1) | 1) == i
  {
  }

  lemma RangeTwo(i: Word)
    ensures FitsTwo(i) <==> -0x2000 <= ToInt(i) < 0x2000
  {
    assert i & 0xFFFF_E000 == 0 <==> 0 <= ToInt(i) < 0x2000;
    assert i & 0xFFFF_E000 == 0xFFFF_E000 <==> -0x2000 <= ToInt(i) < 0;
  }

  lemma RotatesFour(i: Word)
    requires FitsFour(i)
    ensures RotateFour(i) <= MAX_DATA && UnrotateFour(RotateFour(i)) == i
  {
    hide RotateFour, UnrotateFour;
    if i & 0xF000_0000 == 0 {
      PositiveFour(i);
    } else {
      NegativeFour(i);
    }
  }

  lemma PositiveFour(i: Word)
    requires i & 0xF000_0000 == 0
    ensures RotateFour(i) == (i & 0x0FFF_FFFF) << 1 <= MAX_DATA && UnrotateFour((i & 0x0FFF_FFFF) << 1) == i
  {
  }

  lemma NegativeFour(i: Word)
    requires i & 0xF000_0000 == 0xF000_0000
    ensures RotateFour(i) == ((i & 0x0FFF_FFFF) << 1) | 1 <= MAX_DATA && UnrotateFour(((i & 0x0FFF_FFFF) << 1) | 1) == i
  {
  }

  lemma RangeFour(i: Word)
    ensures FitsFour(i) <==> -0x1000_0000 <= ToInt(i) < 0x1000_0000
  {
    assert i & 0xF000_0000 == 0 <==> 0 <= ToInt(i) < 0x1000_0000;
    assert i & 0xF000_0000 == 0xF000_0000 <==> -0x1000_0000 <= ToInt(i) < 0;
  }

  /** Every integer that can be compressed comes back, with the length it was given. */
  lemma SignedRoundTrip(i: Word, rest: seq<Byte>)
    requires CompressSigned(i) != []
    ensures Readable(CompressSigned(i) + rest, 0xff)
    ensures UncompressSigned(CompressSigned(i) + rest) == Data(i, |CompressSigned(i)|)
  {
    hide RotateOne, RotateTwo, RotateFour, UnrotateOne, UnrotateTwo, UnrotateFour, FitsOne, FitsTwo, FitsFour;
    if FitsOne(i) {
      RotatesOne(i);
      SmallBits(RotateOne(i));
    } else if FitsTwo(i) {
      RotatesTwo(i);
      MediumBits(RotateTwo(i));
    } else {
      RotatesFour(i);
      LargeBits(RotateFour(i));
    }
    hide SmallByte, MediumByte, LargeByte, Word2, Word4;
  }

  /** Exactly the integers from -2^28 to 2^28 - 1 can be compressed, and their size decides the length. */
  lemma SignedRange(i: Word)
    ensures CompressSigned(i) != [] <==> -0x1000_0000 <= ToInt(i) < 0x1000_0000
    ensures |CompressSigned(i)| == 1 <==> -0x40 <= ToInt(i) < 0x40
    ensures |CompressSigned(i)| == 1 || |CompressSigned(i)| == 2 <==> -0x2000 <= ToInt(i) < 0x2000
  {
    RangeOne(i);
    RangeTwo(i);
    RangeFour(i);
    hide FitsOne, FitsTwo, FitsFour, ToInt, RotateOne, RotateTwo, RotateFour;
  }

  /** The payload bits moved up by one, with the sign below them. */
  function SignBelow(i: Word, payload: Word): Word {
    if i & 0x8000_0000 == 0 then (i & payload) << 1 else ((i & payload) << 1) | 1
  }

  lemma RotateOneIs(i: Word)
    ensures RotateOne(i) == SignBelow(i, 0x3F)
  {
  }

  lemma RotateTwoIs(i: Word)
    requires FitsTwo(i)
    ensures RotateTwo(i) == SignBelow(i, 0x1FFF)
  {
    hide RotateTwo, UnrotateTwo;
    if i & 0xFFFF_E000 == 0 {
      PositiveTwo(i);
    } else {
      NegativeTwo(i);
    }
  }

  lemma RotateFourIs(i: Word)
    requires FitsFour(i)
    ensures RotateFour(i) == SignBelow(i, 0x0FFF_FFFF)
  {
    hide RotateFour, UnrotateFour;
    if i & 0xF000_0000 == 0 {
      PositiveFour(i);
    } else {
      NegativeFour(i);
    }
  }

  /** What an integer is written as: the six, thirteen or twenty-eight bits that its length has room for,
      moved up by one with the sign below them. */
  lemma SignedIsRotated(i: Word)
    requires CompressSigned(i) != []
    ensures BigEndian(CompressSigned(i)) ==
            if |CompressSigned(i)| == 1 then SignBelow(i, 0x3F)
            else if |CompressSigned(i)| == 2 then SignBelow(i, 0x1FFF)
            else SignBelow(i, 0x0FFF_FFFF)
  {
    hide RotateOne, RotateTwo, RotateFour, SignBelow, FitsOne, FitsTwo, FitsFour, BigEndian, Low;
    if FitsOne(i) {
      RotateOneIs(i);
      RotatesOne(i);
      SmallIsBigEndian(RotateOne(i));
    } else if FitsTwo(i) {
      RotateTwoIs(i);
      RotatesTwo(i);
      MediumIsBigEndian(RotateTwo(i));
    } else {
      RotateFourIs(i);
      RotatesFour(i);
      LargeIsBigEndian(RotateFour(i));
    }
  }

  /** The ends of the ranges: -64 and 63 take one byte, -65, 64 and -8192 two, 8192 four. */
  lemma SignedExamples()
    ensures CompressSigned(0xFFFF_FFC0) == [0x01] && CompressSigned(63) == [0x7E]
    ensures CompressSigned(0xFFFF_FFBF) == [0xBF, 0x7F] && CompressSigned(64) == [0x80, 0x80]
    ensures CompressSigned(8192) == [0xC0, 0x00, 0x40, 0x00]
  {
  }

  /** -8192 becomes 0x80 0x01; the comment in the source gives other bytes. */
  lemma SmallestTwoByteNumber()
    ensures ToInt(0xFFFF_E000) == -8192 && CompressSigned(0xFFFF_E000) == [0x80, 0x01]
  {
  }

  // ----- tokens

  const TYPE_DEF: Word := 0x0200_0000
  const TYPE_REF: Word := 0x0100_0000
  const TYPE_SPEC: Word := 0x1B00_0000
  const BASE_TYPE: Word := 0x7200_0000
  const TOKEN_NIL: Word := 0

  function Rid(token: Word): Word { token & 0x00FF_FFFF }

  function TypeOf(token: Word): Word { token & 0xFF00_0000 }

  function AddTag(rid: Word, tokenType: Word): Word {
    if tokenType == TYPE_REF then rid | 1
    else if tokenType == TYPE_SPEC then rid | 2
    else if tokenType == BASE_TYPE then rid | 3
    else rid
  }

  /** The record id moved up by two, with the tag of the type in the lowest bits. */
  function Tagged(token: Word): Word {
    AddTag(Rid(token) << 2, TypeOf(token))
  }

  function TypeFor(tag: Word): Word {
    if tag == 0 then TYPE_DEF else if tag == 1 then TYPE_REF else if tag == 2 then TYPE_SPEC else BASE_TYPE
  }

  function CompressToken(token: Word): seq<Byte> {
    if Rid(token) > 0x03FF_FFFF then [] else CompressData(Tagged(token))
  }

  function Untagged(d: Word): Word {
    (d >> 2) | TypeFor(d & 3)
  }

  predicate Encodable(token: Word) {
    TypeOf(token) == TYPE_DEF || TypeOf(token) == TYPE_REF || TypeOf(token) == TYPE_SPEC || TypeOf(token) == BASE_TYPE
  }

  /** The variant that is told how many bytes there are. */
  function UncompressToken(memory: seq<Byte>, len: nat): (Word, Data)
    requires Readable(memory, len)
  {
    match UncompressData(memory, len)
    case BadSignature => (TOKEN_NIL, BadSignature)
    case Data(d, n) => (Untagged(d), Data(d, n))
  }

  /** The variant that is not; on a bad signature it still makes a token, from the value 0. */
  function UncompressTokenUnsized(memory: seq<Byte>): (Word, int)
    requires Readable(memory, 0xff)
  {
    var r := UncompressData(memory, 0xff);
    var length: int := if r.Data? then r.length else -1;
    (Untagged(if r.Data? then r.value else 0), length)
  }

  lemma TaggedBound(token: Word)
    ensures Rid(token) <= 0x00FF_FFFF && Tagged(token) <= MAX_DATA
  {
  }

  lemma UntaggedTypeDef(token: Word)
    requires TypeOf(token) == TYPE_DEF
    ensures Untagged(Tagged(token)) == token
  {
  }

  lemma UntaggedTypeRef(token: Word)
    requires TypeOf(token) == TYPE_REF
    ensures Untagged(Tagged(token)) == token
  {
  }

  lemma UntaggedTypeSpec(token: Word)
    requires TypeOf(token) == TYPE_SPEC
    ensures Untagged(Tagged(token)) == token
  {
  }

  lemma UntaggedBaseType(token: Word)
    requires TypeOf(token) == BASE_TYPE
    ensures Untagged(Tagged(token)) == token
  {
  }

  lemma UntaggedOther(token: Word)
    requires !Encodable(token)
    ensures Untagged(Tagged(token)) == Rid(token) | TYPE_DEF != token
  {
  }

  lemma UntaggedToken(token: Word)
    ensures Untagged(Tagged(token)) == if Encodable(token) then token else Rid(token) | TYPE_DEF
    ensures Untagged(Tagged(token)) == token <==> Encodable(token)
  {
    hide Untagged, Tagged, Rid, TypeOf;
    if TypeOf(token) == TYPE_DEF {
      UntaggedTypeDef(token);
    } else if TypeOf(token) == TYPE_REF {
      UntaggedTypeRef(token);
    } else if TypeOf(token) == TYPE_SPEC {
      UntaggedTypeSpec(token);
    } else if TypeOf(token) == BASE_TYPE {
      UntaggedBaseType(token);
    } else {
      UntaggedOther(token);
    }
  }

  lemma TypeDefBits(token: Word)
    requires token & 0xFF00_0000 == 0x0200_0000
    ensures Tagged(token) == (token & 0x00FF_FFFF) << 2
  {
  }

  lemma TypeRefBits(token: Word)
    requires token & 0xFF00_0000 == 0x0100_0000
    ensures Tagged(token) == ((token & 0x00FF_FFFF) << 2) | 1
  {
  }

  lemma TypeSpecBits(token: Word)
    requires token & 0xFF00_0000 == 0x1B00_0000
    ensures Tagged(token) == ((token & 0x00FF_FFFF) << 2) | 2
  {
  }

  lemma BaseTypeBits(token: Word)
    requires token & 0xFF00_0000 == 0x7200_0000
    ensures Tagged(token) == ((token & 0x00FF_FFFF) << 2) | 3
  {
  }

  /** The value a token is written as: its record id above two bits that tell which of the four types it
      has. */
  lemma TokenBits(token: Word)
    ensures token & 0xFF00_0000 == 0x0200_0000 ==> BigEndian(CompressToken(token)) == (token & 0x00FF_FFFF) << 2
    ensures token & 0xFF00_0000 == 0x0100_0000 ==> BigEndian(CompressToken(token)) == ((token & 0x00FF_FFFF) << 2) | 1
    ensures token & 0xFF00_0000 == 0x1B00_0000 ==> BigEndian(CompressToken(token)) == ((token & 0x00FF_FFFF) << 2) | 2
    ensures token & 0xFF00_0000 == 0x7200_0000 ==> BigEndian(CompressToken(token)) == ((token & 0x00FF_FFFF) << 2) | 3
  {
    TaggedBound(token);
    assert CompressToken(token) == CompressData(Tagged(token));
    hide *;
    DataIsBigEndian(Tagged(token));
    if token & 0xFF00_0000 == 0x0200_0000 {
      TypeDefBits(token);
    } else if token & 0xFF00_0000 == 0x0100_0000 {
      TypeRefBits(token);
    } else if token & 0xFF00_0000 == 0x1B00_0000 {
      TypeSpecBits(token);
    } else if token & 0xFF00_0000 == 0x7200_0000 {
      BaseTypeBits(token);
    }
  }

  /** The TypeRef with record id 0x12 takes the one byte 0x49. */
  lemma TokenExample()
    ensures CompressToken(0x0100_0012) == [0x49]
  {
  }

  /** A first byte that begins no encoding: the variant that is told the size makes the nil token, the one
      that is not makes a TypeDef without a record and the length -1. */
  lemma BadToken(memory: seq<Byte>, len: nat)
    requires memory != [] && memory[0] & 0xE0 == 0xE0 && Readable(memory, len) && Readable(memory, 0xff)
    ensures UncompressToken(memory, len) == (0, BadSignature)
    ensures UncompressTokenUnsized(memory) == (0x0200_0000, -1)
  {
    var first := memory[0];
    LeadingBits(first);
    assert Untagged(0) == 0x0200_0000;
    hide Untagged, SmallByte, MediumByte, LargeByte;
  }

  lemma TokenDecoders(d: Word, rest: seq<Byte>, len: nat)
    requires d <= MAX_DATA && len >= |CompressData(d)|
    ensures var m, n := CompressData(d) + rest, |CompressData(d)|;
            && n > 0 && Readable(m, len) && Readable(m, 0xff) && UncompressedDataSize(m[0]) <= |m|
            && UncompressToken(m, len) == (Untagged(d), Data(d, n))
            && UncompressTokenUnsized(m) == (Untagged(d), n)
            && Unchecked(m) == (d, n)
  {
    hide Untagged;
    DataRoundTrip(d, rest, len);
    DataRoundTrip(d, rest, 0xff);
    SizeFromFirstByte(d);
    UncheckedAgrees(CompressData(d) + rest, len);
    hide CompressData, Unchecked;
  }

  /** Every token can be compressed; all decoders then return the same token and length, and it is the
      original exactly when its type is one of the four that have a tag. Any other token comes back
      as a TypeDef. */
  lemma TokenRoundTrip(token: Word, rest: seq<Byte>, len: nat)
    requires len >= |CompressToken(token)|
    ensures CompressToken(token) != []
    ensures var m, n := CompressToken(token) + rest, |CompressToken(token)|;
            && Readable(m, len) && Readable(m, 0xff) && UncompressedDataSize(m[0]) <= |m|
            && UncompressToken(m, len).1 == Data(Tagged(token), n)
            && UncompressTokenUnsized(m).1 == n && Unchecked(m).1 == n
            && UncompressToken(m, len).0 == UncompressTokenUnsized(m).0 == Untagged(Unchecked(m).0)
    ensures UncompressToken(CompressToken(token) + rest, len).0 == token <==> Encodable(token)
    ensures !Encodable(token) ==> UncompressToken(CompressToken(token) + rest, len).0 == Rid(token) | TYPE_DEF
  {
    UntaggedToken(token);
    TaggedBound(token);
    assert CompressToken(token) == CompressData(Tagged(token));
    hide CompressToken, Tagged, Untagged, Encodable, CompressData, UncompressToken, UncompressTokenUnsized, Unchecked;
    TokenDecoders(Tagged(token), rest, len);
  }
}
