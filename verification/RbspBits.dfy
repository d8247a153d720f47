/** The bit reader of the SPS parser: emulation prevention (ITU-T H.264, 7.3.1) and
    Exp-Golomb codes (9.1). */
module RbspBits {
  import opened Arith
  import opened Bits

  // ----- Most-significant-bit-first bit strings -----

  /** The n low bits of v, most significant first. */
  function MsbOf(v: nat, n: nat): (bits: seq<bool>)
    ensures |bits| == n
  {
    if n == 0 then [] else MsbOf(v / 2, n - 1) + [v % 2 == 1]
  }

  function Num(bits: seq<bool>): nat {
    if bits == [] then 0 else 2 * Num(bits[..|bits| - 1]) + Bit(bits[|bits| - 1])
  }

  lemma {:induction false} NumMsbOf(v: nat, n: nat)
    requires v < Pow2(n)
    ensures Num(MsbOf(v, n)) == v
  {
    if n > 0 {
      hide Num;
      NumMsbOf(v / 2, n - 1);
      NumAppend(MsbOf(v / 2, n - 1), v % 2 == 1);
    }
  }

  lemma NumAppend(bits: seq<bool>, b: bool)
    ensures Num(bits + [b]) == 2 * Num(bits) + Bit(b)
  {
    assert (bits + [b])[..|bits|] == bits;
  }

  function MsbBits(bytes: seq<byte>): seq<bool> {
    if bytes == [] then [] else MsbOf(bytes[0], 8) + MsbBits(bytes[1..])
  }

  // ----- Emulation prevention -----

  /** The payload of an escaped byte string: in every 00 00 03 the 03 is dropped. */
  function Unescape(data: seq<byte>): seq<byte> {
    if |data| >= 3 && data[0] == 0 && data[1] == 0 && data[2] == 3 then [0, 0] + Unescape(data[3..])
    else if data == [] then []
    else [data[0]] + Unescape(data[1..])
  }

  /** Escaping: a 03 is put before any byte up to 03 that follows two zeros. */
  function Escape(payload: seq<byte>, zeros: nat): seq<byte> {
    if payload == [] then []
    else if zeros >= 2 && payload[0] <= 3 then [3, payload[0]] + Escape(payload[1..], if payload[0] == 0 then 1 else 0)
    else [payload[0]] + Escape(payload[1..], if payload[0] == 0 then zeros + 1 else 0)
  }

  /** The payload of what follows a run of zeros, in one pass with a counter. */
  function Run(data: seq<byte>, zeros: nat): seq<byte> {
    if data == [] then []
    else if zeros >= 2 && data[0] == 3 then Run(data[1..], 0)
    else [data[0]] + Run(data[1..], if data[0] == 0 then zeros + 1 else 0)
  }

  function Zeros(n: nat): (z: seq<byte>)
    ensures |z| == n && forall i :: 0 <= i < n ==> z[i] == 0
  {
    seq(n, _ => 0)
  }

  lemma {:induction false} UnescapeAfterZeros(n: nat, x: byte, rest: seq<byte>)
    requires x != 0
    ensures Unescape(Zeros(n) + [x] + rest) ==
            if n >= 2 && x == 3 then Zeros(n) + Unescape(rest) else Zeros(n) + [x] + Unescape(rest)
  {
    if n == 0 {
      NoZeros([x]);
      UnescapeStep([x] + rest);
      assert ([x] + rest)[1..] == rest;
      hide *;
    } else if n == 2 && x == 3 {
      UnescapeAt003(rest);
    } else {
      UnescapeAfterZeros(n - 1, x, rest);
      UnescapeOneZero(n, x, rest);
      hide Unescape, Zeros;
      ZerosStep(n, [x] + rest);
      ZerosStep(n, [x] + Unescape(rest));
      ZerosStep(n, Unescape(rest));
      Associate(Zeros(n), [x], Unescape(rest));
      Associate(Zeros(n - 1), [x], Unescape(rest));
    }
  }

  lemma UnescapeAt003(rest: seq<byte>)
    ensures Unescape(Zeros(2) + [3] + rest) == Zeros(2) + Unescape(rest)
  {
    hide Unescape;
    var data := Zeros(2) + [3] + rest;
    UnescapeStep(data);
    assert data[3..] == rest && Zeros(2) == [0, 0];
  }

  lemma ZerosStep(n: nat, rest: seq<byte>)
    requires n > 0
    ensures Zeros(n) + rest == [0] + (Zeros(n - 1) + rest)
  {
  }

  lemma UnescapeOneZero(n: nat, x: byte, rest: seq<byte>)
    requires n > 0 && x != 0 && !(n == 2 && x == 3)
    ensures Unescape(Zeros(n) + [x] + rest) == [0] + Unescape(Zeros(n - 1) + [x] + rest)
  {
    hide Unescape;
    var data := Zeros(n) + [x] + rest;
    UnescapeStep(data);
    assert data[1..] == Zeros(n - 1) + [x] + rest;
  }

  lemma UnescapeStep(data: seq<byte>)
    requires data != []
    ensures Unescape(data) ==
            if |data| >= 3 && data[0] == 0 && data[1] == 0 && data[2] == 3 then [0, 0] + Unescape(data[3..])
            else [data[0]] + Unescape(data[1..])
  {
  }

  lemma {:induction false} UnescapeZeros(n: nat)
    ensures Unescape(Zeros(n)) == Zeros(n)
  {
    if n > 0 {
      UnescapeZeros(n - 1);
      assert Zeros(n)[1..] == Zeros(n - 1);
      assert Zeros(n) == [0] + Zeros(n - 1);
    }
  }

  /** Counting zeros on the way finds the same payload as looking ahead for 00 00 03. */
  lemma {:induction false} RunIsUnescape(data: seq<byte>, zeros: nat)
    ensures Unescape(Zeros(zeros) + data) == Zeros(zeros) + Run(data, zeros)
    decreases |data|
  {
    hide Unescape, Zeros, Run;
    if data == [] {
      UnescapeZeros(zeros);
      RunStep(data, zeros);
      assert Zeros(zeros) + data == Zeros(zeros) == Zeros(zeros) + [];
    } else {
      var x, rest := data[0], data[1..];
      assert data == [x] + rest;
      RunStep(data, zeros);
      if x == 0 {
        RunIsUnescape(rest, zeros + 1);
        OneZeroMore(zeros, rest);
        OneZeroMore(zeros, Run(rest, zeros + 1));
      } else {
        RunIsUnescape(rest, 0);
        NoZeros(rest);
        NoZeros(Run(rest, 0));
        UnescapeAfterZeros(zeros, x, rest);
        Associate(Zeros(zeros), [x], rest);
        Associate(Zeros(zeros), [x], Run(rest, 0));
      }
    }
  }

  lemma RunStep(data: seq<byte>, zeros: nat)
    ensures data == [] ==> Run(data, zeros) == []
    ensures data != [] && data[0] == 0 ==> Run(data, zeros) == [0] + Run(data[1..], zeros + 1)
    ensures data != [] && data[0] != 0 ==>
              Run(data, zeros) ==
              if zeros >= 2 && data[0] == 3 then Run(data[1..], 0) else [data[0]] + Run(data[1..], 0)
  {
  }

  lemma OneZeroMore(n: nat, rest: seq<byte>)
    ensures Zeros(n) + ([0] + rest) == Zeros(n + 1) + rest
  {
  }

  lemma NoZeros(rest: seq<byte>)
    ensures Zeros(0) + rest == rest
  {
  }

  lemma Associate(a: seq<byte>, b: seq<byte>, c: seq<byte>)
    ensures a + (b + c) == a + b + c
  {
  }

  lemma {:induction false} RunEscape(payload: seq<byte>, zeros: nat)
    ensures Run(Escape(payload, zeros), zeros) == payload
  {
    if payload != [] {
      var x := payload[0];
      var next := if x != 0 then 0 else if zeros >= 2 then 1 else zeros + 1;
      RunEscape(payload[1..], next);
      RunEscapeStep(payload, zeros, next);
      hide *;
      assert [x] + payload[1..] == payload;
    }
  }

  lemma RunEscapeStep(payload: seq<byte>, zeros: nat, next: nat)
    requires payload != []
    requires next == if payload[0] != 0 then 0 else if zeros >= 2 then 1 else zeros + 1
    ensures Run(Escape(payload, zeros), zeros) == [payload[0]] + Run(Escape(payload[1..], next), next)
  {
    hide Run;
    var x, tail := payload[0], Escape(payload[1..], next);
    if zeros >= 2 && x <= 3 {
      var body := [x] + tail;
      assert Escape(payload, zeros) == [3] + body;
      RunStep([3] + body, zeros);
      RunStep(body, 0);
      assert ([3] + body)[1..] == body && body[1..] == tail;
    } else {
      assert Escape(payload, zeros) == [x] + tail;
      RunStep([x] + tail, zeros);
      assert ([x] + tail)[1..] == tail;
    }
  }

  /** Unescaping undoes escaping. */
  lemma UnescapeEscape(payload: seq<byte>)
    ensures Unescape(Escape(payload, 0)) == payload
  {
    RunIsUnescape(Escape(payload, 0), 0);
    RunEscape(payload, 0);
    assert Zeros(0) + Escape(payload, 0) == Escape(payload, 0);
    assert Zeros(0) + payload == payload;
  }

  // ----- Reading from a bit string; past its end all bits are zero -----

  datatype Read = Read(v: int, rest: seq<bool>)

  function GetBit(bits: seq<bool>): Read {
    if bits == [] then Read(0, []) else Read(Bit(bits[0]), bits[1..])
  }

  /** The next n bits, most significant first, appended to the value v. */
  function GetBitsOnto(bits: seq<bool>, n: nat, v: nat): (r: Read)
    ensures r.v >= 0
  {
    if n == 0 then Read(v, bits)
    else
      var b := GetBit(bits);
      GetBitsOnto(b.rest, n - 1, 2 * v + b.v)
  }

  function GetBits(bits: seq<bool>, n: nat): (r: Read)
    ensures r.v >= 0
  {
    GetBitsOnto(bits, n, 0)
  }

  /** Counts zeros up to and over the first one bit; it also stops after 31 zeros or with the
      last bit. */
  function LeadingZeros(bits: seq<bool>, lz: nat): (r: Read)
    requires lz <= 31
    ensures lz <= r.v <= 31
    decreases 31 - lz
  {
    var b := GetBit(bits);
    if b.v == 0 && lz < 31 && b.rest != [] then LeadingZeros(b.rest, lz + 1) else Read(lz, b.rest)
  }

  function GetUe(bits: seq<bool>): (r: Read)
    ensures r.v >= 0
  {
    var z := LeadingZeros(bits, 0);
    if z.v == 0 then Read(0, z.rest)
    else
      var suffix := GetBits(z.rest, z.v);
      Read(Pow2(z.v) - 1 + suffix.v, suffix.rest)
  }

  function GetSe(bits: seq<bool>): Read {
    var ue := GetUe(bits);
    Read(if ue.v % 2 == 1 then (ue.v + 1) / 2 else -(ue.v / 2), ue.rest)
  }

  // ----- Exp-Golomb coding -----

  /** The number of bits of v + 1, less one. */
  function Prefix(v: nat): (k: nat)
    ensures Pow2(k) <= v + 1 < 2 * Pow2(k)
  {
    if v == 0 then 0
    else
      var k := Prefix((v - 1) / 2);
      assert Pow2(k + 1) == 2 * Pow2(k);
      k + 1
  }

  function Falses(n: nat): (s: seq<bool>)
    ensures |s| == n && forall i :: 0 <= i < n ==> !s[i]
  {
    seq(n, _ => false)
  }

  /** k zeros, a one, and the low k bits of v + 1. */
  function Ue(v: nat): seq<bool> {
    var k := Prefix(v);
    Falses(k) + [true] + MsbOf(v + 1 - Pow2(k), k)
  }

  function Se(x: int): seq<bool> {
    Ue(if x > 0 then 2 * x - 1 else -2 * x)
  }

  lemma {:induction false} GetBitsOntoMsb(bits: seq<bool>, rest: seq<bool>, v: nat)
    ensures GetBitsOnto(bits + rest, |bits|, v) == Read(v * Pow2(|bits|) + Num(bits), rest)
    decreases |bits|
  {
    if bits == [] {
      assert bits + rest == rest;
    } else {
      hide Num;
      GetBitsOntoMsb(bits[1..], rest, 2 * v + Bit(bits[0]));
      assert (bits + rest)[1..] == bits[1..] + rest;
      NumFront(bits);
      Horner(v, Bit(bits[0]), |bits| - 1);
    }
  }

  lemma Horner(v: nat, b: nat, n: nat)
    ensures (2 * v + b) * Pow2(n) == v * Pow2(n + 1) + b * Pow2(n)
  {
    var p := Pow2(n);
    assert Pow2(n + 1) == 2 * p;
    assert (2 * v + b) * p == 2 * v * p + b * p;
  }

  lemma {:induction false} NumFront(bits: seq<bool>)
    requires bits != []
    ensures Num(bits) == Bit(bits[0]) * Pow2(|bits| - 1) + Num(bits[1..])
  {
    if |bits| > 1 {
      var m := |bits| - 1;
      NumFront(bits[..m]);
      assert bits[1..][..m - 1] == bits[..m][1..];
    }
  }

  /** Reading n bits of a fixed-width number gives it back. */
  lemma GetBitsMsb(v: nat, n: nat, rest: seq<bool>)
    requires v < Pow2(n)
    ensures GetBits(MsbOf(v, n) + rest, n) == Read(v, rest)
  {
    hide GetBitsOnto, MsbOf, Num, Pow2;
    GetBitsOntoMsb(MsbOf(v, n), rest, 0);
    NumMsbOf(v, n);
    assert 0 * Pow2(n) == 0;
  }

  lemma {:induction false} LeadingZerosOf(k: nat, lz: nat, rest: seq<bool>)
    requires k + lz <= 31
    ensures LeadingZeros(Falses(k) + [true] + rest, lz) == Read(k + lz, rest)
    decreases k
  {
    var bits := Falses(k) + [true] + rest;
    if k == 0 {
      assert bits[1..] == rest;
    } else {
      LeadingZerosOf(k - 1, lz + 1, rest);
      assert bits[1..] == Falses(k - 1) + [true] + rest;
    }
  }

  const UE_MAX := 0xFFFF_FFFE
  const SE_MAX := 0x7FFF_FFFF

  /** Decoding inverts Exp-Golomb coding on the whole range of the standard. */
  lemma GetUeUe(v: nat, rest: seq<bool>)
    requires v <= UE_MAX
    ensures GetUe(Ue(v) + rest) == Read(v, rest)
  {
    hide LeadingZeros, GetBits, MsbOf;
    var k := Prefix(v);
    PrefixBound(v);
    var low := MsbOf(v + 1 - Pow2(k), k);
    assert Ue(v) + rest == Falses(k) + [true] + (low + rest);
    LeadingZerosOf(k, 0, low + rest);
    GetBitsMsb(v + 1 - Pow2(k), k, rest);
    if k == 0 {
      assert low + rest == rest;
    }
  }

  lemma PrefixBound(v: nat)
    requires v <= UE_MAX
    ensures Prefix(v) <= 31
  {
    hide Pow2;
    Pow2Of32();
    if Prefix(v) >= 32 {
      Pow2Mono(32, Prefix(v));
    }
  }

  lemma Pow2Of32()
    ensures Pow2(32) == 0x1_0000_0000
  {
    assert Pow2(8) == 256;
    Pow2Add(8, 8);
    Pow2Add(16, 16);
  }

  lemma GetSeSe(x: int, rest: seq<bool>)
    requires -SE_MAX <= x <= SE_MAX
    ensures GetSe(Se(x) + rest) == Read(x, rest)
  {
    hide Ue, GetUe;
    GetUeUe(if x > 0 then 2 * x - 1 else -2 * x, rest);
  }
}
