/** The codec as it works on memory: encoders that write into a caller's buffer and decoders that move
    a pointer past what they read. */
module SigBuffers {
  import opened SigCodec

  /** Memory with `bytes` written over it from `at` on. */
  function Overwritten(memory: seq<Byte>, at: nat, bytes: seq<Byte>): seq<Byte>
    requires at + |bytes| <= |memory|
  {
    memory[..at] + bytes + memory[at + |bytes|..]
  }

  /** The byte count an encoder returns, -1 when the value cannot be compressed. */
  function CountOf(bytes: seq<Byte>): int {
    if bytes == [] then -1 else |bytes|
  }

  method WriteMedium(d: Word, pDataOut: array<Byte>, at: nat)
    requires at + 4 <= pDataOut.Length
    modifies pDataOut
    ensures pDataOut[..] == Overwritten(old(pDataOut[..]), at, Medium(d))
  {
    hide Low;
    pDataOut[at] := Low((d >> 8) | 0x80);
    pDataOut[at + 1] := Low(d & 0xff);
  }

  method WriteLarge(d: Word, pDataOut: array<Byte>, at: nat)
    requires at + 4 <= pDataOut.Length
    modifies pDataOut
    ensures pDataOut[..] == Overwritten(old(pDataOut[..]), at, Large(d))
  {
    hide Low;
    pDataOut[at] := Low((d >> 24) | 0xC0);
    pDataOut[at + 1] := Low((d >> 16) & 0xff);
    pDataOut[at + 2] := Low((d >> 8) & 0xff);
    pDataOut[at + 3] := Low(d & 0xff);
  }

  method CorSigCompressData(iLen: Word, pDataOut: array<Byte>, at: nat) returns (cb: int)
    requires at + 4 <= pDataOut.Length
    modifies pDataOut
    ensures |CompressData(iLen)| <= 4 && cb == CountOf(CompressData(iLen))
    ensures pDataOut[..] == Overwritten(old(pDataOut[..]), at, CompressData(iLen))
  {
    hide Low;
    if iLen <= 0x7F {
      pDataOut[at] := Low(iLen);
      return 1;
    }
    if iLen <= 0x3FFF {
      WriteMedium(iLen, pDataOut, at);
      return 2;
    }
    if iLen <= 0x1FFF_FFFF {
      WriteLarge(iLen, pDataOut, at);
      return 4;
    }
    return -1;
  }

  method CorSigCompressToken(tk: Word, pDataOut: array<Byte>, at: nat) returns (cb: int)
    requires at + 4 <= pDataOut.Length
    modifies pDataOut
    ensures |CompressToken(tk)| <= 4 && cb == CountOf(CompressToken(tk))
    ensures pDataOut[..] == Overwritten(old(pDataOut[..]), at, CompressToken(tk))
  {
    hide CompressData, Tagged, Rid;
    if Rid(tk) > 0x03FF_FFFF {
      return -1;
    }
    cb := CorSigCompressData(Tagged(tk), pDataOut, at);
  }

  method CorSigCompressSignedInt(iData: Word, pDataOut: array<Byte>, at: nat) returns (cb: int)
    requires at + 4 <= pDataOut.Length
    modifies pDataOut
    ensures |CompressSigned(iData)| <= 4 && cb == CountOf(CompressSigned(iData))
    ensures pDataOut[..] == Overwritten(old(pDataOut[..]), at, CompressSigned(iData))
  {
    hide FitsOne, FitsTwo, FitsFour, RotateOne, RotateTwo, RotateFour, Low;
    if FitsOne(iData) {
      pDataOut[at] := Low(RotateOne(iData));
      return 1;
    } else if FitsTwo(iData) {
      WriteMedium(RotateTwo(iData), pDataOut, at);
      return 2;
    } else if FitsFour(iData) {
      WriteLarge(RotateFour(iData), pDataOut, at);
      return 4;
    }
    return -1;
  }

  /** A pointer into a signature that decoders advance. */
  class SigPointer {
    const memory: seq<Byte>
    var pos: nat

    constructor (memory: seq<Byte>)
      ensures this.memory == memory && pos == 0
    {
      this.memory := memory;
      pos := 0;
    }

    /** The memory from the pointer on holds a whole encoding. */
    ghost predicate Ready()
      reads this
    {
      pos < |memory| && UncompressedDataSize(memory[pos]) <= |memory| - pos
    }

    method UncompressBigData() returns (res: Word)
      requires Ready() && !SmallByte(memory[pos])
      modifies this
      ensures (res, pos - old(pos)) == Unchecked(memory[old(pos)..])
    {
      if memory[pos] & 0xC0 == 0x80 {
        res := (memory[pos] & 0x3f) as Word << 8;
        pos := pos + 1;
        res := res | (memory[pos] as Word);
        pos := pos + 1;
      } else {
        res := (memory[pos] & 0x1f) as Word << 24;
        pos := pos + 1;
        res := res | (memory[pos] as Word << 16);
        pos := pos + 1;
        res := res | (memory[pos] as Word << 8);
        pos := pos + 1;
        res := res | (memory[pos] as Word);
        pos := pos + 1;
      }
    }

    method UncompressData() returns (res: Word)
      requires Ready()
      modifies this
      ensures (res, pos - old(pos)) == Unchecked(memory[old(pos)..])
    {
      if memory[pos] & 0x80 == 0 {
        res := memory[pos] as Word;
        pos := pos + 1;
      } else {
        res := UncompressBigData();
      }
    }

    method UncompressToken() returns (token: Word)
      requires Ready()
      modifies this
      ensures (token, pos - old(pos)) == (Untagged(Unchecked(memory[old(pos)..]).0), Unchecked(memory[old(pos)..]).1)
    {
      var tk := UncompressData();
      token := Untagged(tk);
    }
  }

  /** Writing a value into a buffer and reading it back through a pointer yields the value and moves the
      pointer exactly past what was written. */
  method WriteThenRead(value: Word, buffer: array<Byte>, at: nat) returns (read: Word, moved: int)
    requires at + 4 <= buffer.Length && value <= MAX_DATA
    modifies buffer
    ensures read == value && moved == |CompressData(value)| == UncompressedDataSize(buffer[at])
  {
    var cb := CorSigCompressData(value, buffer, at);
    var c, rest := CompressData(value), buffer[at + |CompressData(value)|..];
    assert buffer[at..] == c + rest;
    DataRoundTrip(value, rest, |c|);
    SizeFromFirstByte(value);
    UncheckedAgrees(c + rest, |c|);
    hide CompressData, Unchecked, UncompressData;
    var p := new SigPointer(buffer[at..]);
    assert p.memory[0] == c[0] && p.memory[0..] == p.memory;
    read := p.UncompressData();
    moved := p.pos;
  }
}
