/** The LSB-first bit reader over the sub-blocks of a GIF image. */
module GifBits {
  import opened Arith
  import opened Bits

  /** The data bytes from file position pos on, with sub bytes left in the current sub-block.
      A zero length byte ends the data, as does the end of the file. */
  function Payload(data: seq<byte>, pos: nat, sub: nat): seq<byte>
    decreases |data| - pos
  {
    if pos >= |data| then []
    else if sub > 0 then [data[pos]] + Payload(data, pos + 1, sub - 1)
    else if data[pos] == 0 then []
    else Payload(data, pos + 1, data[pos])
  }

  function ByteBits(bytes: seq<byte>): seq<bool> {
    if bytes == [] then [] else BitsOf(bytes[0], 8) + ByteBits(bytes[1..])
  }

  class BitReader {
    const data: seq<byte>
    var fpos: nat
    var bitBuf: nat
    var bitCount: nat
    var subLen: nat
    var eof: bool

    ghost predicate Valid()
      reads this
    {
      bitBuf < Pow2(bitCount) && bitCount < 8 && fpos <= |data|
    }

    /** The bits still to be read. */
    ghost function Pending(): seq<bool>
      reads this
    {
      BitsOf(bitBuf, bitCount) + ByteBits(Payload(data, fpos, subLen))
    }

    constructor (data: seq<byte>, start: nat)
      requires start <= |data|
      ensures this.data == data && Valid() && !eof
      ensures Pending() == ByteBits(Payload(data, start, 0))
    {
      this.data := data;
      fpos, bitBuf, bitCount, subLen, eof := start, 0, 0, 0, false;
    }

    // fgetc: the next byte, or -1 at the end of the file.
    method GetByte() returns (b: int)
      requires fpos <= |data|
      modifies `fpos
      ensures old(fpos) == |data| ==> b == -1 && fpos == old(fpos)
      ensures old(fpos) < |data| ==> b == data[old(fpos)] && fpos == old(fpos) + 1
    {
      if fpos == |data| {
        return -1;
      }
      b := data[fpos];
      fpos := fpos + 1;
    }

    /** The next data byte, stepping into the next sub-block when the current one is used up. */
    method NextByte() returns (b: int)
      requires fpos <= |data|
      modifies `fpos, `subLen, `eof
      ensures fpos <= |data| && fpos >= old(fpos)
      ensures b == -1 ==> eof && Payload(data, old(fpos), old(subLen)) == []
      ensures b != -1 ==> 0 <= b < 256 && eof == old(eof) && fpos > old(fpos)
      ensures b != -1 ==> Payload(data, old(fpos), old(subLen)) == [b] + Payload(data, fpos, subLen)
    {
      if subLen == 0 {
        var len := GetByte();
        if len <= 0 {
          eof := true;
          return -1;
        }
        subLen := len;
      }
      b := GetByte();
      if b == -1 {
        eof := true;
        return -1;
      }
      subLen := subLen - 1;
    }

    /** Reads numBits bits as a number, or reports the end of the data.  The buffer never
        holds more than 32 bits, so the shifts of the program lose none. */
    method ReadBits(numBits: nat) returns (code: int)
      requires Valid() && 1 <= numBits <= 24
      modifies this
      ensures numBits <= |old(Pending())| ==>
                && Valid() && eof == old(eof)
                && code == Val(old(Pending())[..numBits]) && Pending() == old(Pending())[numBits..]
      ensures numBits > |old(Pending())| ==> code == -1 && eof
    {
      hide Pow2, BitsOf, Val, Payload;
      ghost var pending := Pending();
      while bitCount < numBits
        invariant bitBuf < Pow2(bitCount) && bitCount < numBits + 8 && fpos <= |data|
        invariant Pending() == pending && eof == old(eof)
        decreases |data| - fpos
      {
        ghost var rest := Payload(data, fpos, subLen);
        var b := NextByte();
        if b == -1 {
          assert pending == BitsOf(bitBuf, bitCount);
          return -1;
        }
        assert bitCount + 8 <= 32;
        Shifted(bitBuf, b, bitCount);
        assert ByteBits(rest) == BitsOf(b, 8) + ByteBits(Payload(data, fpos, subLen));
        bitBuf := bitBuf + b * Pow2(bitCount);
        bitCount := bitCount + 8;
      }
      ghost var p := Pow2(numBits);
      DivMod(bitBuf, p);
      BitsSplit(bitBuf % p, bitBuf / p, numBits, bitCount);
      Shrunk(bitBuf, numBits, bitCount);
      assert pending[..numBits] == BitsOf(bitBuf, bitCount)[..numBits];
      code := bitBuf % Pow2(numBits);
      bitBuf := bitBuf / Pow2(numBits);
      bitCount := bitCount - numBits;
    }
  }

  lemma Shifted(buf: nat, b: byte, count: nat)
    requires buf < Pow2(count)
    ensures buf + b * Pow2(count) < Pow2(count + 8)
    ensures BitsOf(buf + b * Pow2(count), count + 8) == BitsOf(buf, count) + BitsOf(b, 8)
  {
    Pow2Add(count, 8);
    assert Pow2(8) == 256;
    MulLe(Pow2(count), b, 255);
    BitsOfSum(buf, b, count, 8);
  }

  lemma Shrunk(buf: nat, n: nat, count: nat)
    requires buf < Pow2(count) && n <= count
    ensures buf / Pow2(n) < Pow2(count - n)
  {
    Pow2Add(n, count - n);
    var q := buf / Pow2(n);
    assert Pow2(n) * q <= buf;
    if q >= Pow2(count - n) {
      MulLe(Pow2(n), Pow2(count - n), q);
    }
  }
}
