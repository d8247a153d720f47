/** Encoding an image (GIF89a, Appendix F) and reading it back: code widths, packing of the
    codes into bytes and sub-blocks, and the decoder's table that lags one entry behind. */
module GifStream {
  import opened Bits
  import opened GifBits
  import opened GifLzw
  import opened GifRaster
  import opened GifDecoder

  // ----- The encoder -----

  /** codes spell the pixels: each code is a clear code or names a string of the encoder's
      table the remaining pixels begin with; then that string and the pixel after it become the
      next table entry, unless the table is full.  A greedy encoder is one of many. */
  ghost predicate IsEncoding(min: nat, enc: seq<Str>, pixels: seq<byte>, codes: seq<nat>)
    decreases |codes|
  {
    if codes == [] then pixels == []
    else if codes[0] == ClearCode(min) then IsEncoding(min, InitTable(min), pixels, codes[1..])
    else
      && IsString(min, enc, codes[0])
      && enc[codes[0]] != [] && enc[codes[0]] <= pixels
      && IsEncoding(min, Grown(enc, enc[codes[0]], pixels[|enc[codes[0]]|..]), pixels[|enc[codes[0]]|..], codes[1..])
  }

  function Grown(enc: seq<Str>, s: Str, rest: seq<byte>): seq<Str> {
    if rest == [] || |enc| >= MAX_TABLE then enc else enc + [s + [rest[0]]]
  }

  /** The width of the next code after n codes since the last clear: the codes have defined n
      entries, and the width spells the highest code number so far, twelve bits at most. */
  function EncWidth(min: nat, n: nat): nat {
    WidthFrom(min + 1, EndCode(min) + n)
  }

  /** The codes at their widths, least significant bit first. */
  function Pack(min: nat, codes: seq<nat>, n: nat): seq<bool> {
    if codes == [] then []
    else BitsOf(codes[0], EncWidth(min, n)) + Pack(min, codes[1..], if codes[0] == ClearCode(min) then 0 else n + 1)
  }

  /** The decoder's table after n codes: the encoder's without its latest entry. */
  ghost predicate Lags(min: nat, enc: seq<Str>, st: Lzw, n: nat, pixels: seq<byte>) {
    && Good(min, st)
    && (n == 0 <==> st.prev == -1)
    && (n == 0 ==> enc == st.table == InitTable(min))
    && (n > 0 ==> |st.table| == if EndCode(min) + n < MAX_TABLE then EndCode(min) + n else MAX_TABLE)
    && (n > 0 && |st.table| == MAX_TABLE ==> enc == st.table)
    && (n > 0 && |st.table| < MAX_TABLE && pixels != [] ==> enc == st.table + [st.table[st.prev] + [pixels[0]]])
    && (n > 0 && pixels == [] ==> |enc| <= |st.table| + 1)
  }

  lemma LagsLength(min: nat, enc: seq<Str>, st: Lzw, n: nat, pixels: seq<byte>)
    requires 2 <= min <= 11 && Lags(min, enc, st, n, pixels)
    ensures n == 0 ==> |st.table| == EndCode(min) + 1
    ensures n > 0 ==> |st.table| == if EndCode(min) + n < MAX_TABLE then EndCode(min) + n else MAX_TABLE
  {
    MinFits(min);
  }

  /** Although the decoder's table lags, its width is the encoder's. */
  lemma WidthsAgree(min: nat, enc: seq<Str>, st: Lzw, n: nat, pixels: seq<byte>)
    requires 2 <= min <= 11 && Lags(min, enc, st, n, pixels)
    ensures Width(min, st) == EncWidth(min, n) <= MAX_WIDTH
  {
    hide WidthFrom, Lags;
    LagsLength(min, enc, st, n, pixels);
    if n == 0 {
      NarrowStart(min);
    } else if EndCode(min) + n >= MAX_TABLE {
      Widest(min + 1, |st.table|);
      Widest(min + 1, EndCode(min) + n);
    }
  }

  lemma NarrowStart(min: nat)
    requires 2 <= min <= 11
    ensures WidthFrom(min + 1, EndCode(min) + 1) == WidthFrom(min + 1, EndCode(min)) == min + 1
  {
    MinFits(min);
  }

  lemma {:induction false} Widest(w: nat, n: nat)
    requires w <= MAX_WIDTH && n >= MAX_TABLE
    ensures WidthFrom(w, n) == MAX_WIDTH
    decreases MAX_WIDTH - w
  {
    if w < MAX_WIDTH {
      Pow2Mono(w, 12);
      assert Pow2(12) == 4096;
      Widest(w + 1, n);
    }
  }

  /** The next code fits its width. */
  lemma CodeFits(min: nat, n: nat, code: nat)
    requires 2 <= min <= 11 && code <= EndCode(min) + n && code < MAX_TABLE
    ensures code < Pow2(EncWidth(min, n))
  {
    var w := EncWidth(min, n);
    if w >= MAX_WIDTH {
      Pow2Mono(12, w);
      assert Pow2(12) == 4096;
    }
  }

  /** One code of an encoding: the decoder accepts it, emits what the encoder meant, and its
      table catches up by one entry. */
  lemma StepLags(min: nat, enc: seq<Str>, st: Lzw, n: nat, pixels: seq<byte>, code: nat)
    requires 2 <= min <= 11 && Lags(min, enc, st, n, pixels)
    requires IsString(min, enc, code) && enc[code] != [] && enc[code] <= pixels
    ensures Admissible(min, st, code) && Emitted(min, st, code) == enc[code]
    ensures Lags(min, Grown(enc, enc[code], pixels[|enc[code]|..]), Next(min, st, code), n + 1, pixels[|enc[code]|..])
    ensures code <= EndCode(min) + n && code < MAX_TABLE
  {
    hide Pow2;
    MinFits(min);
    var s := enc[code];
    assert s[0] == pixels[0];
    if n > 0 && code == |st.table| {
      assert s == st.table[st.prev] + [pixels[0]];
      assert s[0] == st.table[st.prev][0];
    }
    assert Emitted(min, st, code) == s;
    NextGood(min, st, code);
  }

  lemma ClearLags(min: nat, st: Lzw, pixels: seq<byte>)
    requires 2 <= min <= 11 && Good(min, st)
    ensures Admissible(min, st, ClearCode(min)) && Next(min, st, ClearCode(min)) == Start(min)
    ensures Emitted(min, st, ClearCode(min)) == []
    ensures Lags(min, InitTable(min), Start(min), 0, pixels)
  {
    hide Pow2;
    MinFits(min);
    StartGood(min);
  }

  /** Decoding the packed codes of an encoding gives the pixels back, whatever follows the end
      code. */
  lemma {:induction false} DecodePacked(min: nat, enc: seq<Str>, st: Lzw, n: nat, pixels: seq<byte>, codes: seq<nat>,
                                        tail: seq<bool>)
    requires 2 <= min <= 11 && Lags(min, enc, st, n, pixels) && IsEncoding(min, enc, pixels, codes)
    ensures Decode(min, st, Pack(min, codes + [EndCode(min)], n) + tail) == Outcome(pixels, true)
    decreases |codes|
  {
    hide Pow2, WidthFrom, Good, Lags, InitTable, BitsOf, Val, Grown, Emitted, Next;
    var all := codes + [EndCode(min)];
    var w := EncWidth(min, n);
    var bits := Pack(min, all, n) + tail;
    WidthsAgree(min, enc, st, n, pixels);
    LagsGood(min, enc, st, n, pixels);
    var code := all[0];
    MinFits(min);
    if codes == [] {
      CodeFits(min, n, code);
      FirstCode(min, all, n, tail);
    } else if code == ClearCode(min) {
      assert all[1..] == codes[1..] + [EndCode(min)];
      CodeFits(min, n, code);
      FirstCode(min, all, n, tail);
      ClearLags(min, st, pixels);
      DecodePacked(min, InitTable(min), Start(min), 0, pixels, codes[1..], tail);
    } else {
      assert all[1..] == codes[1..] + [EndCode(min)];
      var s := enc[code];
      var rest := pixels[|s|..];
      StepLags(min, enc, st, n, pixels, code);
      CodeFits(min, n, code);
      FirstCode(min, all, n, tail);
      DecodePacked(min, Grown(enc, s, rest), Next(min, st, code), n + 1, rest, codes[1..], tail);
      assert s + rest == pixels;
    }
  }

  lemma LagsGood(min: nat, enc: seq<Str>, st: Lzw, n: nat, pixels: seq<byte>)
    requires Lags(min, enc, st, n, pixels)
    ensures Good(min, st)
  {
  }

  /** The first code of a packed stream, and the stream after it. */
  lemma FirstCode(min: nat, all: seq<nat>, n: nat, tail: seq<bool>)
    requires all != [] && all[0] < Pow2(EncWidth(min, n))
    ensures var w := EncWidth(min, n);
      var bits := Pack(min, all, n) + tail;
      |bits| >= w && Val(bits[..w]) == all[0]
      && bits[w..] == Pack(min, all[1..], if all[0] == ClearCode(min) then 0 else n + 1) + tail
  {
    hide Pow2, WidthFrom, BitsOf, Val;
    var w := EncWidth(min, n);
    ValBitsOf(all[0], w);
    assert (Pack(min, all, n) + tail)[..w] == BitsOf(all[0], w);
  }

  // ----- The greedy encoder is an encoder -----

  /** The longest string among the first k codes that the pixels begin with, -1 if none. */
  function Longest(min: nat, enc: seq<Str>, pixels: seq<byte>, k: nat): (c: int)
    requires k <= |enc|
    ensures c == -1 || (0 <= c < k && enc[c] != [] && enc[c] <= pixels)
    ensures forall j :: 0 <= j < k && enc[j] != [] && enc[j] <= pixels ==> c >= 0 && |enc[j]| <= |enc[c]|
  {
    if k == 0 then -1
    else
      var c := Longest(min, enc, pixels, k - 1);
      if enc[k - 1] != [] && enc[k - 1] <= pixels && (c == -1 || |enc[k - 1]| > |enc[c]|) then k - 1 else c
  }

  ghost predicate HasRoots(min: nat, enc: seq<Str>) {
    && EndCode(min) < |enc|
    && enc[ClearCode(min)] == enc[EndCode(min)] == []
    && forall c :: 0 <= c < ClearCode(min) ==> enc[c] == [c % 256]
  }

  function Greedy(min: nat, enc: seq<Str>, pixels: seq<byte>): seq<nat>
    decreases |pixels|
  {
    var c := Longest(min, enc, pixels, |enc|);
    if pixels == [] || c == -1 then []
    else [c] + Greedy(min, Grown(enc, enc[c], pixels[|enc[c]|..]), pixels[|enc[c]|..])
  }

  /** Every image whose pixel values are roots has a greedy encoding. */
  lemma {:induction false} GreedyEncodes(min: nat, enc: seq<Str>, pixels: seq<byte>)
    requires HasRoots(min, enc) && forall p :: p in pixels ==> p < ClearCode(min)
    ensures IsEncoding(min, enc, pixels, Greedy(min, enc, pixels))
    decreases |pixels|
  {
    hide Pow2, Longest, Grown, HasRoots;
    if pixels != [] {
      assert pixels[0] in pixels;
      LongestIsString(min, enc, pixels);
      var c := Longest(min, enc, pixels, |enc|);
      var rest := pixels[|enc[c]|..];
      RootsStay(min, enc, enc[c], rest);
      forall p | p in rest ensures p < ClearCode(min) {
        assert p in pixels;
      }
      GreedyEncodes(min, Grown(enc, enc[c], rest), rest);
    }
  }

  /** There is always a string to send: the root of the next pixel, if nothing longer. */
  lemma LongestIsString(min: nat, enc: seq<Str>, pixels: seq<byte>)
    requires HasRoots(min, enc) && pixels != [] && pixels[0] < ClearCode(min)
    ensures var c := Longest(min, enc, pixels, |enc|);
      IsString(min, enc, c) && c != ClearCode(min) && enc[c] != [] && enc[c] <= pixels
  {
    hide *;
    var r := pixels[0];
    RootAt(min, enc, r);
    assert pixels[..1] == [r];
    LongestFinds(min, enc, pixels, r);
    SpelledIsString(min, enc, Longest(min, enc, pixels, |enc|));
  }

  lemma LongestFinds(min: nat, enc: seq<Str>, pixels: seq<byte>, r: nat)
    requires r < |enc| && enc[r] != [] && enc[r] <= pixels
    ensures var c := Longest(min, enc, pixels, |enc|); 0 <= c < |enc| && enc[c] != [] && enc[c] <= pixels
  {
    hide Longest;
  }

  lemma SpelledIsString(min: nat, enc: seq<Str>, c: int)
    requires HasRoots(min, enc) && 0 <= c < |enc| && enc[c] != []
    ensures IsString(min, enc, c) && c != ClearCode(min)
  {
    hide Pow2;
  }

  lemma RootAt(min: nat, enc: seq<Str>, r: byte)
    requires HasRoots(min, enc) && r < ClearCode(min)
    ensures r < |enc| && enc[r] == [r]
  {
    hide Pow2;
  }

  lemma RootsStay(min: nat, enc: seq<Str>, s: Str, rest: seq<byte>)
    requires HasRoots(min, enc)
    ensures HasRoots(min, Grown(enc, s, rest))
  {
    hide Pow2;
  }

  // ----- Bytes and sub-blocks -----

  /** Eight bits to a byte, the last byte filled up with zeros. */
  function ToBytes(bits: seq<bool>): seq<byte>
    decreases |bits|
  {
    if bits == [] then []
    else if |bits| < 8 then [ByteOf(bits + seq(8 - |bits|, _ => false))]
    else [ByteOf(bits[..8])] + ToBytes(bits[8..])
  }

  function ByteOf(bits: seq<bool>): byte
    requires |bits| == 8
  {
    BitsOfVal(bits);
    assert Pow2(8) == 256;
    Val(bits)
  }

  lemma {:induction false} BytesCarryBits(bits: seq<bool>)
    ensures |bits| <= |ByteBits(ToBytes(bits))| && ByteBits(ToBytes(bits))[..|bits|] == bits
    decreases |bits|
  {
    hide Pow2, Val;
    if bits == [] {
    } else if |bits| < 8 {
      BitsOfVal(bits + seq(8 - |bits|, _ => false));
    } else {
      BytesCarryBits(bits[8..]);
      BitsOfVal(bits[..8]);
      var rest := ByteBits(ToBytes(bits[8..]));
      assert ByteBits(ToBytes(bits)) == bits[..8] + rest;
    }
  }

  ghost predicate ChunkSizes(chunks: seq<seq<byte>>) {
    forall i :: 0 <= i < |chunks| ==> 1 <= |chunks[i]| <= 255
  }

  function Flatten(chunks: seq<seq<byte>>): seq<byte> {
    if chunks == [] then [] else chunks[0] + Flatten(chunks[1..])
  }

  /** Length-prefixed sub-blocks and the terminator. */
  function Blocks(chunks: seq<seq<byte>>): seq<byte>
    requires ChunkSizes(chunks)
  {
    if chunks == [] then [0] else [|chunks[0]|] + chunks[0] + Blocks(chunks[1..])
  }

  lemma {:induction false} PayloadChunk(data: seq<byte>, pos: nat, sub: nat)
    requires pos + sub <= |data|
    ensures Payload(data, pos, sub) == data[pos..pos + sub] + Payload(data, pos + sub, 0)
    decreases sub
  {
    if sub > 0 {
      PayloadChunk(data, pos + 1, sub - 1);
      assert data[pos..pos + sub] == [data[pos]] + data[pos + 1..pos + sub];
    }
  }

  /** Reading sub-blocks, however the data were cut, gives the data. */
  lemma {:induction false} PayloadBlocks(front: seq<byte>, chunks: seq<seq<byte>>, back: seq<byte>)
    requires ChunkSizes(chunks)
    ensures Payload(front + Blocks(chunks) + back, |front|, 0) == Flatten(chunks)
    decreases |chunks|
  {
    hide Payload;
    var data := front + Blocks(chunks) + back;
    if chunks == [] {
      assert data[|front|] == 0;
      PayloadStart(data, |front|);
    } else {
      var c := chunks[0];
      BlocksSplit(front, c, Blocks(chunks[1..]), back);
      PayloadStart(data, |front|);
      PayloadChunk(data, |front| + 1, |c|);
      PayloadBlocks(front + [|c|] + c, chunks[1..], back);
    }
  }

  lemma BlocksSplit(front: seq<byte>, c: seq<byte>, rest: seq<byte>, back: seq<byte>)
    requires |c| < 256
    ensures var data := front + ([|c|] + c + rest) + back;
      && data == front + [|c|] + c + rest + back
      && data[|front|] == |c| && data[|front| + 1..|front| + 1 + |c|] == c
  {
  }

  lemma PayloadStart(data: seq<byte>, pos: nat)
    requires pos < |data|
    ensures Payload(data, pos, 0) == if data[pos] == 0 then [] else Payload(data, pos + 1, data[pos])
  {
  }

  /** The whole way back: for every encoding of an image, at every division of its bytes into
      sub-blocks, the bit stream of the file decodes to the image. */
  lemma EncodedFileDecodes(min: nat, pixels: seq<byte>, codes: seq<nat>, front: seq<byte>, chunks: seq<seq<byte>>,
                           back: seq<byte>)
    requires 2 <= min <= 11 && IsEncoding(min, InitTable(min), pixels, codes) && ChunkSizes(chunks)
    requires Flatten(chunks) == ToBytes(Pack(min, codes + [EndCode(min)], 0))
    ensures Good(min, Start(min))
    ensures Decode(min, Start(min), ByteBits(Payload(front + Blocks(chunks) + back, |front|, 0))) ==
              Outcome(pixels, true)
  {
    hide Pow2, Pack, Decode, ToBytes, ByteBits, Payload, IsEncoding;
    MinFits(min);
    StartGood(min);
    ClearLags(min, Start(min), pixels);
    PayloadBlocks(front, chunks, back);
    var bits := Pack(min, codes + [EndCode(min)], 0);
    BytesCarryBits(bits);
    var read := ByteBits(ToBytes(bits));
    assert read == bits + read[|bits|..];
    DecodePacked(min, InitTable(min), Start(min), 0, pixels, codes, read[|bits|..]);
  }

  /** The program on such a file: the raster holds the image's pixels, as many as fit. */
  method LoadEncoded(front: seq<byte>, chunks: seq<seq<byte>>, back: seq<byte>, min: nat, frame: Frame, pal: seq<int>,
                     fill: int,
                     ghost pixels: seq<byte>, ghost codes: seq<nat>) returns (raster: Raster)
    requires 2 <= min <= 11 && IsEncoding(min, InitTable(min), pixels, codes) && ChunkSizes(chunks)
    requires Flatten(chunks) == ToBytes(Pack(min, codes + [EndCode(min)], 0))
    requires frame.Valid() && |pal| == 256
    ensures raster.Valid() && raster.frame == frame && raster.pal == pal && raster.fill == fill
    ensures raster.indices == Take(pixels, Area(frame.w, frame.h))
  {
    hide Pow2, Pack, Decode, ToBytes, ByteBits, Payload, IsEncoding, Good, Area, InitTable;
    EncodedFileDecodes(min, pixels, codes, front, chunks, back);
    var br := new BitReader(front + Blocks(chunks) + back, |front|);
    raster := new Raster(frame, pal, fill);
    DecodeImage(br, min, raster);
  }
}
