/** The canvas of a GIF frame and the scatter of decoded pixels into it. */
module GifRaster {
  import opened Arith
  import opened Bits
  import opened Counting
  import opened GifRows
  import opened Options

  const MAX_DIM := 16384

  /** The canvas and the image rectangle in it. */
  datatype Frame = Frame(cw: nat, ch: nat, left: nat, top: nat, w: nat, h: nat, interlace: bool) {
    ghost predicate Valid() {
      0 < w && 0 < h && left + w <= cw <= MAX_DIM && top + h <= ch <= MAX_DIM
    }
  }

  /** The canvas takes the screen size, or the image size where the screen has none, and grows
      to hold the image. */
  function SizeCanvas(screenW: nat, screenH: nat, left: nat, top: nat, w: nat, h: nat,
                      interlace: bool): (r: Option<Frame>)
    ensures r.Some? ==>
              r.value.Valid() && r.value.w == w && r.value.h == h && r.value.left == left && r.value.top == top
    ensures r.Some? && left + w <= screenW && top + h <= screenH ==> r.value.cw == screenW && r.value.ch == screenH
    ensures r.Some? <==>
            && 0 < w && 0 < h && screenW <= MAX_DIM && screenH <= MAX_DIM
            && left + w <= MAX_DIM && top + h <= MAX_DIM
  {
    if w == 0 || h == 0 || w > MAX_DIM || h > MAX_DIM then None
    else
      var cw := if screenW > 0 then screenW else w;
      var ch := if screenH > 0 then screenH else h;
      if cw == 0 || ch == 0 || cw > MAX_DIM || ch > MAX_DIM then None
      else
        var cw := if left + w > cw then left + w else cw;
        var ch := if top + h > ch then top + h else ch;
        if cw > MAX_DIM || ch > MAX_DIM then None
        else Some(Frame(cw, ch, left, top, w, h, interlace))
  }

  /** Position of canvas pixel (y, x) in the flat buffer; also the index of image pixel
      (row, column) in the decoded stream. */
  function At(width: nat, y: nat, x: nat): nat {
    y * width + x
  }

  function Area(width: nat, height: nat): nat {
    width * height
  }

  lemma AtUnique(width: nat, y1: nat, x1: nat, y2: nat, x2: nat)
    requires x1 < width && x2 < width && At(width, y1, x1) == At(width, y2, x2)
    ensures y1 == y2 && x1 == x2
  {
    Quotient(At(width, y1, x1), width, y1, x1);
    Quotient(At(width, y2, x2), width, y2, x2);
  }

  lemma AtInside(width: nat, height: nat, y: nat, x: nat)
    requires x < width && y < height
    ensures At(width, y, x) < Area(width, height)
  {
    MulLe(width, y + 1, height);
  }

  /** When an image row arrives. */
  ghost function Rank(h: nat, interlace: bool, row: nat): (i: nat)
    requires row < h
    ensures i < h == |RowOrder(h, interlace)| && RowOrder(h, interlace)[i] == row
  {
    RowOrderPermutes(h, interlace);
    assert row in RowOrder(h, interlace);
    var i :| 0 <= i < |RowOrder(h, interlace)| && RowOrder(h, interlace)[i] == row;
    i
  }

  /** The colour of canvas pixel (y, x) once the given palette indices have arrived. */
  ghost function PixelAt(f: Frame, pal: seq<int>, fill: int, indices: seq<byte>, y: nat, x: nat): int
    requires |pal| == 256
  {
    if f.top <= y < f.top + f.h && f.left <= x < f.left + f.w then
      var k := At(f.w, Rank(f.h, f.interlace, y - f.top), x - f.left);
      if k < |indices| then pal[indices[k]] else fill
    else fill
  }

  class Raster {
    const frame: Frame
    const pal: seq<int>
    const fill: int
    const canvas: array<int>
    const rowMap: array<nat>
    var px: nat
    var py: nat
    var dst: nat
    var written: nat
    ghost var indices: seq<byte>

    /** Where the next pixel goes. */
    ghost predicate Cursor()
      reads this
    {
      && frame.Valid() && |pal| == 256
      && written == |indices| == At(frame.w, py, px) && px < frame.w && py <= frame.h
      && |RowOrder(frame.h, frame.interlace)| == frame.h
      && (py < frame.h ==> dst == At(frame.cw, frame.top + RowOrder(frame.h, frame.interlace)[py], frame.left))
      && (py == frame.h ==> px == 0)
    }

    /** Every canvas pixel shows what the indices so far make of it. */
    ghost predicate Painted()
      reads `indices, canvas
      requires frame.Valid() && |pal| == 256 && canvas.Length == Area(frame.cw, frame.ch)
    {
      forall y, x :: 0 <= y < frame.ch && 0 <= x < frame.cw ==>
        At(frame.cw, y, x) < canvas.Length
        && canvas[At(frame.cw, y, x)] == PixelAt(frame, pal, fill, indices, y, x)
    }

    ghost predicate Valid()
      reads this, canvas, rowMap
    {
      && Cursor()
      && canvas.Length == Area(frame.cw, frame.ch)
      && rowMap[..] == RowOrder(frame.h, frame.interlace)
      && Painted()
    }

    constructor (frame: Frame, pal: seq<int>, fill: int)
      requires frame.Valid() && |pal| == 256
      ensures Valid() && indices == [] && this.frame == frame && this.pal == pal && this.fill == fill
      ensures fresh(canvas) && fresh(rowMap)
    {
      hide PixelAt, RowOrder, At, Area;
      this.frame, this.pal, this.fill := frame, pal, fill;
      canvas := new int[Area(frame.cw, frame.ch)](_ => fill);
      var rows := BuildRowMap(frame.h, frame.interlace);
      rowMap := rows;
      RowOrderPermutes(frame.h, frame.interlace);
      px, py, written := 0, 0, 0;
      dst := At(frame.cw, frame.top + rows[0], frame.left);
      indices := [];
      new;
      AtIs(frame.w, 0, 0);
      forall y, x | 0 <= y < frame.ch && 0 <= x < frame.cw
        ensures At(frame.cw, y, x) < canvas.Length && PixelAt(frame, pal, fill, [], y, x) == fill
      {
        AtInside(frame.cw, frame.ch, y, x);
        NothingPainted(frame, pal, fill, y, x);
      }
    }

    /** Stores one pixel and moves on, to the next mapped row at the end of a row. */
    method Put(c: byte)
      requires Valid() && written < Area(frame.w, frame.h)
      modifies this, canvas
      ensures Valid() && indices == old(indices) + [c]
    {
      hide PixelAt, RowOrder, At, Area, Painted;
      InImage(frame.w, frame.h, py, px);
      PaintStep(frame, pal, fill, indices, c, py, px);
      Store(c);
      px := px + 1;
      if px == frame.w {
        px := 0;
        py := py + 1;
        if py < frame.h {
          dst := At(frame.cw, frame.top + rowMap[py], frame.left);
        }
      }
      written := written + 1;
      AtNext(frame.w, old(py), old(px));
    }

    method Store(c: byte)
      requires Valid() && py < frame.h
      requires dst + px == At(frame.cw, frame.top + RowOrder(frame.h, frame.interlace)[py], frame.left + px)
      requires dst + px < canvas.Length
      requires forall y, x :: 0 <= y < frame.ch && 0 <= x < frame.cw ==>
        PixelAt(frame, pal, fill, indices + [c], y, x) ==
          if At(frame.cw, y, x) == dst + px then pal[c] else PixelAt(frame, pal, fill, indices, y, x)
      modifies `indices, canvas
      ensures Painted() && indices == old(indices) + [c]
    {
      hide PixelAt, RowOrder, At, Area;
      canvas[dst + px] := pal[c];
      indices := indices + [c];
    }
  }

  /** One more index changes exactly the canvas pixel the cursor points at. */
  lemma PaintStep(f: Frame, pal: seq<int>, fill: int, indices: seq<byte>, c: byte, py: nat, px: nat)
    requires f.Valid() && |pal| == 256 && |indices| == At(f.w, py, px) && px < f.w && py < f.h
    requires |RowOrder(f.h, f.interlace)| == f.h
    ensures f.top + RowOrder(f.h, f.interlace)[py] < f.ch
    ensures At(f.cw, f.top + RowOrder(f.h, f.interlace)[py], f.left + px) ==
            At(f.cw, f.top + RowOrder(f.h, f.interlace)[py], f.left) + px < Area(f.cw, f.ch)
    ensures forall y, x :: 0 <= y < f.ch && 0 <= x < f.cw ==>
      PixelAt(f, pal, fill, indices + [c], y, x) ==
        if At(f.cw, y, x) == At(f.cw, f.top + RowOrder(f.h, f.interlace)[py], f.left + px) then pal[c]
        else PixelAt(f, pal, fill, indices, y, x)
  {
    hide RowOrder, At;
    RowOrderPermutes(f.h, f.interlace);
    var row := RowOrder(f.h, f.interlace)[py];
    assert row in RowOrder(f.h, f.interlace);
    AtInside(f.cw, f.ch, f.top + row, f.left + px);
    AtIs(f.cw, f.top + row, f.left + px);
    AtIs(f.cw, f.top + row, f.left);
    forall y, x | 0 <= y < f.ch && 0 <= x < f.cw
      ensures PixelAt(f, pal, fill, indices + [c], y, x) ==
        if At(f.cw, y, x) == At(f.cw, f.top + row, f.left + px) then pal[c]
        else PixelAt(f, pal, fill, indices, y, x)
    {
      PaintOne(f, pal, fill, indices, c, py, px, y, x);
    }
  }

  lemma PaintOne(f: Frame, pal: seq<int>, fill: int, indices: seq<byte>, c: byte, py: nat, px: nat, y: nat, x: nat)
    requires f.Valid() && |pal| == 256 && |indices| == At(f.w, py, px) && px < f.w && py < f.h
    requires y < f.ch && x < f.cw
    requires |RowOrder(f.h, f.interlace)| == f.h
    ensures PixelAt(f, pal, fill, indices + [c], y, x) ==
      if At(f.cw, y, x) == At(f.cw, f.top + RowOrder(f.h, f.interlace)[py], f.left + px) then pal[c]
      else PixelAt(f, pal, fill, indices, y, x)
  {
    hide RowOrder, At;
    RowOrderPermutes(f.h, f.interlace);
    var row := RowOrder(f.h, f.interlace)[py];
    assert row in RowOrder(f.h, f.interlace);
    if At(f.cw, y, x) == At(f.cw, f.top + row, f.left + px) {
      AtUnique(f.cw, y, x, f.top + row, f.left + px);
      assert Rank(f.h, f.interlace, row) == py;
    } else if f.top <= y < f.top + f.h && f.left <= x < f.left + f.w {
      var rank := Rank(f.h, f.interlace, y - f.top);
      if At(f.w, rank, x - f.left) == |indices| {
        AtUnique(f.w, rank, x - f.left, py, px);
        assert false;
      }
    }
  }

  /** When every index has arrived, the image rectangle shows them all, each in its row's place,
      and the rest of the canvas is as filled. */
  lemma FullStream(f: Frame, pal: seq<int>, fill: int, indices: seq<byte>, y: nat, x: nat)
    requires f.Valid() && |pal| == 256 && |indices| == Area(f.w, f.h)
    ensures f.top <= y < f.top + f.h && f.left <= x < f.left + f.w ==>
              && At(f.w, Rank(f.h, f.interlace, y - f.top), x - f.left) < |indices|
              && PixelAt(f, pal, fill, indices, y, x) ==
                 pal[indices[At(f.w, Rank(f.h, f.interlace, y - f.top), x - f.left)]]
    ensures !(f.top <= y < f.top + f.h && f.left <= x < f.left + f.w) ==> PixelAt(f, pal, fill, indices, y, x) == fill
  {
    hide At, Area;
    if f.top <= y < f.top + f.h && f.left <= x < f.left + f.w {
      AtInside(f.w, f.h, Rank(f.h, f.interlace, y - f.top), x - f.left);
    }
  }

  lemma NothingPainted(f: Frame, pal: seq<int>, fill: int, y: nat, x: nat)
    requires |pal| == 256
    ensures PixelAt(f, pal, fill, [], y, x) == fill
  {
  }

  lemma InImage(w: nat, h: nat, py: nat, px: nat)
    requires px < w && At(w, py, px) < Area(w, h) && py <= h
    ensures py < h
  {
    if py >= h {
      MulLe(w, h, py);
    }
  }

  lemma AtNext(width: nat, y: nat, x: nat)
    ensures At(width, y, x + 1) == At(width, y, x) + 1
    ensures x + 1 == width ==> At(width, y + 1, 0) == At(width, y, x) + 1
  {
    assert (y + 1) * width == y * width + width;
  }

  lemma AtIs(width: nat, y: nat, x: nat)
    ensures At(width, y, x) == y * width + x
    ensures At(width, y + 1, 0) == At(width, y, 0) + width
    ensures At(width, y, x) == At(width, y, 0) + x
  {
  }
}
