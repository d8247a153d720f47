/** The reader object: byte and bit positions and the zero counter, against the bit string of
    the unescaped payload. */
module SpsReader {
  import opened Arith
  import opened Bits
  import opened RbspBits

  class Reader {
    const data: seq<byte>
    var bytePos: nat
    var bitPos: nat
    var zeros: nat

    ghost predicate Valid()
      reads this
    {
      bitPos < 8 && bytePos <= |data|
    }

    /** The bits still to be read, escapes removed. */
    ghost function Remaining(): seq<bool>
      reads this
      requires Valid()
    {
      if bytePos >= |data| then []
      else MsbOf(data[bytePos], 8)[bitPos..] + MsbBits(Run(data[bytePos + 1..], zeros))
    }

    /** At the start the bits of the whole payload lie ahead. */
    constructor (data: seq<byte>)
      ensures this.data == data && Valid()
      ensures Remaining() == MsbBits(Unescape(data))
    {
      this.data := data;
      bytePos, bitPos := 0, 0;
      zeros := if |data| > 0 && data[0] == 0 then 1 else 0;
      new;
      RunIsUnescape(data, 0);
      assert Zeros(0) + data == data;
      assert Zeros(0) + Run(data, 0) == Run(data, 0);
    }

    /** The next bit; zero at the end. */
    method NextBit() returns (bit: nat)
      requires Valid()
      modifies this
      ensures Valid() && Read(bit, Remaining()) == GetBit(old(Remaining()))
    {
      hide MsbBits, Run, MsbOf;
      if bytePos >= |data| {
        return 0;
      }
      BitOfByte(data[bytePos], bitPos);
      bit := data[bytePos] / Pow2(7 - bitPos) % 2;
      ghost var bits := MsbOf(data[bytePos], 8);
      ghost var behind := MsbBits(Run(data[bytePos + 1..], zeros));
      assert (bits[bitPos..] + behind)[1..] == bits[bitPos + 1..] + behind;
      bitPos := bitPos + 1;
      if bitPos == 8 {
        assert bits[8..] + behind == behind;
        NextByte();
      }
    }

    /** Steps to the next byte of the payload, over an emulation prevention byte if one stands
        there. */
    method NextByte()
      requires bitPos == 8 && bytePos < |data|
      modifies this
      ensures Valid() && Remaining() == MsbBits(Run(data[old(bytePos) + 1..], old(zeros)))
    {
      hide MsbOf;
      bitPos := 0;
      bytePos := bytePos + 1;
      ghost var rest := data[bytePos..];
      if bytePos < |data| {
        if zeros >= 2 && data[bytePos] == 3 {
          assert Run(rest, zeros) == Run(data[bytePos + 1..], 0);
          bytePos := bytePos + 1;
          zeros := 0;
        }
        if bytePos < |data| {
          ghost var z := zeros;
          if data[bytePos] == 0 {
            zeros := zeros + 1;
          } else {
            zeros := 0;
          }
          FirstByte(data, bytePos, z, zeros);
        }
      }
    }

    method NextBits(n: nat) returns (v: nat)
      requires Valid()
      modifies this
      ensures Valid() && Read(v, Remaining()) == GetBits(old(Remaining()), n)
    {
      hide Valid, Remaining;
      v := 0;
      ghost var start := Remaining();
      for i := 0 to n
        invariant Valid() && GetBitsOnto(Remaining(), n - i, v) == GetBits(start, n)
      {
        var b := NextBit();
        v := 2 * v + b;
      }
    }

    method NextUe() returns (v: nat)
      requires Valid()
      modifies this
      ensures Valid() && Read(v, Remaining()) == GetUe(old(Remaining()))
    {
      hide GetBits;
      ghost var start := Remaining();
      var lz := 0;
      while true
        invariant Valid() && lz <= 31
        invariant LeadingZeros(Remaining(), lz) == LeadingZeros(start, 0)
        decreases 31 - lz
      {
        var b := NextBit();
        AtEnd();
        if !(b == 0 && lz < 31 && bytePos < |data|) {
          break;
        }
        lz := lz + 1;
      }
      if lz == 0 {
        return 0;
      }
      var suffix := NextBits(lz);
      v := Pow2(lz) - 1 + suffix;
    }

    lemma AtEnd()
      requires Valid()
      ensures Remaining() == [] <==> bytePos == |data|
    {
    }

    method NextSe() returns (v: int)
      requires Valid()
      modifies this
      ensures Valid() && Read(v, Remaining()) == GetSe(old(Remaining()))
    {
      hide Valid, Remaining, GetUe;
      var ue := NextUe();
      var half: int := ue / 2;
      v := if ue % 2 == 1 then half + 1 else -half;
    }
  }

  lemma FirstByte(data: seq<byte>, pos: nat, z: nat, zeros: nat)
    requires pos < |data| && !(z >= 2 && data[pos] == 3)
    requires zeros == if data[pos] == 0 then z + 1 else 0
    ensures MsbBits(Run(data[pos..], z)) == MsbOf(data[pos], 8)[0..] + MsbBits(Run(data[pos + 1..], zeros))
  {
    hide MsbOf;
    var rest := data[pos..];
    assert rest[1..] == data[pos + 1..];
    var tail := Run(data[pos + 1..], zeros);
    assert Run(rest, z) == [data[pos]] + tail;
    assert ([data[pos]] + tail)[1..] == tail;
  }

  /** Bit i of a byte from the top. */
  lemma BitOfByte(b: byte, i: nat)
    requires i < 8
    ensures MsbOf(b, 8)[i] <==> b / Pow2(7 - i) % 2 == 1
  {
    MsbAt(b, 8, i);
  }

  lemma {:induction false} MsbAt(v: nat, n: nat, i: nat)
    requires i < n
    ensures MsbOf(v, n)[i] <==> v / Pow2(n - 1 - i) % 2 == 1
    decreases n
  {
    if i < n - 1 {
      MsbAt(v / 2, n - 1, i);
      var p := Pow2(n - 2 - i);
      assert Pow2(n - 1 - i) == 2 * p;
      HalfThen(v, p);
    }
  }

  lemma HalfThen(v: nat, p: nat)
    requires p > 0
    ensures v / 2 / p == v / (2 * p)
  {
    var q, r := v / (2 * p), v % (2 * p);
    DivMod(v, 2 * p);
    assert q * (2 * p) == 2 * (p * q);
    Quotient(v / 2, p, q, r / 2);
  }
}
