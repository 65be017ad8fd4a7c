// Decoding at a reduced size and scaling the pixels in place (epeg_main.c).
module EpegScale {
  import opened Arithmetic

  type Byte = x: nat | x < 0x100

  // A decoded picture: rows from top to bottom, the components of a pixel side by side
  datatype Frame = Frame(width: nat, height: nat, components: nat) {
    predicate Valid() {
      width > 0 && height > 0 && components > 0
    }

    function Stride(): nat {
      components * width
    }

    function Size(): nat {
      height * Stride()
    }

    // Where component i of the pixel in column x and row y is stored
    function At(x: nat, y: nat, i: nat): nat {
      y * Stride() + x * components + i
    }
  }

  // ----- Positions -----

  lemma Position(f: Frame, x: nat, y: nat, i: nat)
    requires f.Valid() && x < f.width && i < f.components
    ensures f.At(x, y, i) % f.components == i
    ensures Column(f, f.At(x, y, i)) == x && Row(f, f.At(x, y, i)) == y
  {
    var n := f.width * y + x;
    Regroup(f, x, y, i);
    DivMod(f.components, n, i);
    DivMod(f.width, y, x);
  }

  lemma Regroup(f: Frame, x: nat, y: nat, i: nat)
    ensures f.At(x, y, i) == f.components * (f.width * y + x) + i
  {
    Distribute(f.components, f.width * y, x);
    assert y * (f.components * f.width) == f.components * (f.width * y);
  }

  lemma PixelStart(f: Frame, x: nat, y: nat)
    ensures f.At(x, y, 0) == y * f.Stride() + x * f.components
    ensures f.At(x + 1, y, 0) == f.At(x, y, 0) + f.components
  {
    Distribute(f.components, x, 1);
  }

  // Later rows, and later columns of the same row, are stored further on.
  lemma Later(f: Frame, x: nat, y: nat, x': nat, y': nat, i: nat)
    requires x <= x' && y <= y'
    ensures f.At(x, y, i) <= f.At(x', y', i)
  {
    ProductMonotonic(y, y', f.Stride());
    ProductMonotonic(x, x', f.components);
  }

  lemma WithinFrame(f: Frame, x: nat, y: nat, i: nat)
    requires x < f.width && y < f.height && i < f.components
    ensures f.At(x, y, i) < f.At(0, y + 1, 0) <= f.Size()
    ensures f.At(x, y, i) < f.At(x + 1, y, 0) <= f.At(0, y + 1, 0)
  {
    ProductMonotonic(y + 1, f.height, f.Stride());
    Distribute(f.Stride(), y, 1);
    ProductMonotonic(x + 1, f.width, f.components);
    Distribute(f.components, x, 1);
    assert f.width * f.components == f.Stride();
  }

  // ----- Where each pixel comes from -----

  // On a line of n, position k is the last one whose share of the line starts no later than that of
  // position x on a line of w.
  predicate StretchedTo(k: nat, x: nat, n: nat, w: nat) {
    Around(k, x * n, w)
  }

  predicate Around(k: nat, a: nat, w: nat) {
    k * w <= a < (k + 1) * w
  }

  // Position x of w, on a line of n
  function Stretch(x: nat, n: nat, w: nat): (k: nat)
    requires w > 0
    ensures StretchedTo(k, x, n, w)
  {
    hide Around;
    DivAround(x * n, w);
    x * n / w
  }

  lemma DivAround(a: nat, w: nat)
    requires 0 < w
    ensures Around(a / w, a, w)
  {
    DivBounds(a, w);
  }

  // There is no other.
  lemma StretchOnly(k: nat, x: nat, n: nat, w: nat)
    requires w > 0
    ensures StretchedTo(k, x, n, w) <==> k == Stretch(x, n, w)
  {
    hide Stretch;
    var q := Stretch(x, n, w);
    if StretchedTo(k, x, n, w) {
      CancelLess(k, q + 1, w);
      CancelLess(q, k + 1, w);
    }
  }

  lemma Stretched(x: nat, n: nat, w: nat)
    requires x < w <= n
    ensures x <= Stretch(x, n, w) < n
  {
    var q := x * n / w;
    DivBounds(x * n, w);
    ProductMonotonic(w, n, x);
    assert x * w == w * x && x * n == n * x;
    CancelLess(x, q + 1, w);
    Enlarged(x, n, w);
    CancelLess(q, n, w);
  }

  lemma DivBounds(a: nat, w: nat)
    requires 0 < w
    ensures (a / w) * w <= a < (a / w + 1) * w
  {
    Distribute(w, a / w, 1);
  }

  lemma Enlarged(x: nat, n: nat, w: nat)
    requires x < w <= n
    ensures x * n < n * w
  {
    ProductMonotonic(x + 1, w, n);
    Distribute(n, x, 1);
  }

  // The column and the row of position p
  function Column(f: Frame, p: nat): nat
    requires f.Valid()
  {
    p / f.components % f.width
  }

  function Row(f: Frame, p: nat): nat
    requires f.Valid()
  {
    p / f.components / f.width
  }

  // The position whose original value belongs at position p after scaling to w by h
  function Source(f: Frame, w: nat, h: nat, p: nat): nat
    requires f.Valid() && w > 0 && h > 0
  {
    var x, y := Column(f, p), Row(f, p);
    if x < w && y < h then f.At(Stretch(x, f.width, w), Stretch(y, f.height, h), p % f.components) else p
  }

  lemma SourceInside(f: Frame, w: nat, h: nat, x: nat, y: nat, i: nat)
    requires f.Valid() && x < w <= f.width && y < h <= f.height && i < f.components
    ensures Source(f, w, h, f.At(x, y, i)) == f.At(Stretch(x, f.width, w), Stretch(y, f.height, h), i)
    ensures f.At(x, y, i) <= Source(f, w, h, f.At(x, y, i)) < f.Size()
  {
    Position(f, x, y, i);
    Stretched(x, f.width, w);
    Stretched(y, f.height, h);
    Later(f, x, y, Stretch(x, f.width, w), Stretch(y, f.height, h), i);
    WithinFrame(f, Stretch(x, f.width, w), Stretch(y, f.height, h), i);
  }

  lemma SourceOutside(f: Frame, w: nat, h: nat, x: nat, y: nat, i: nat)
    requires f.Valid() && x < f.width && i < f.components && w > 0 && h > 0 && (w <= x || h <= y)
    ensures Source(f, w, h, f.At(x, y, i)) == f.At(x, y, i)
  {
    Position(f, x, y, i);
  }

  // Everything between the last pixel to be written in a row and the next row stays.
  lemma RestOfRow(f: Frame, w: nat, h: nat, y: nat, p: nat)
    requires f.Valid() && 0 < w <= f.width && h > 0 && f.At(w, y, 0) <= p < f.At(0, y + 1, 0)
    ensures Source(f, w, h, p) == p
  {
    var n := p / f.components;
    var i := p % f.components;
    assert f.components * n + i == p;
    Regroup(f, w, y, 0);
    Regroup(f, 0, y + 1, 0);
    Distribute(f.width, y, 1);
    hide Frame.At, Source;
    InRow(f.components, f.width * y + w, f.width * (y + 1), n, i);
    Regroup(f, n - f.width * y, y, i);
    SourceOutside(f, w, h, n - f.width * y, y, i);
  }

  lemma InRow(c: nat, from: nat, to: nat, n: nat, i: nat)
    requires c * from <= c * n + i < c * to && i < c
    ensures from <= n < to
  {
    Distribute(c, n, 1);
    CancelLess(from, n + 1, c);
    CancelLess(n, to, c);
  }

  // The first n positions have their final values and the others still their original ones.
  ghost predicate Scaled(pixels: seq<Byte>, original: seq<Byte>, f: Frame, w: nat, h: nat, n: nat)
    requires f.Valid() && w > 0 && h > 0
  {
    && |pixels| == |original| == f.Size()
    && (forall p :: 0 <= p < |pixels| && p < n ==>
          Source(f, w, h, p) < |original| && pixels[p] == original[Source(f, w, h, p)])
    && forall p :: n <= p < |pixels| ==> pixels[p] == original[p]
  }

  lemma RowEnd(f: Frame, w: nat, y: nat)
    requires w <= f.width
    ensures f.At(w, y, 0) <= f.At(0, y + 1, 0)
  {
    Distribute(f.Stride(), y, 1);
    ProductMonotonic(w, f.width, f.components);
    assert f.width * f.components == f.Stride();
  }

  lemma RowDone(now: seq<Byte>, original: seq<Byte>, f: Frame, w: nat, h: nat, y: nat)
    requires f.Valid() && 0 < w <= f.width && h > 0
    requires Scaled(now, original, f, w, h, f.At(w, y, 0))
    ensures Scaled(now, original, f, w, h, f.At(0, y + 1, 0))
  {
    hide Source, Frame.Size, Frame.At, Scaled;
    forall p | f.At(w, y, 0) <= p < f.At(0, y + 1, 0)
      ensures Source(f, w, h, p) == p
    {
      RestOfRow(f, w, h, y, p);
    }
    RowEnd(f, w, y);
    PassOver(now, original, f, w, h, f.At(w, y, 0), f.At(0, y + 1, 0));
  }

  lemma PassOver(now: seq<Byte>, original: seq<Byte>, f: Frame, w: nat, h: nat, m: nat, n: nat)
    requires f.Valid() && w > 0 && h > 0 && Scaled(now, original, f, w, h, m) && m <= n
    requires forall p :: m <= p < n ==> Source(f, w, h, p) == p
    ensures Scaled(now, original, f, w, h, n)
  {
    hide Source, Frame.Size;
  }

  // Component i of a pixel
  function Sample(pixels: seq<Byte>, f: Frame, x: nat, y: nat, i: nat): Byte {
    if f.At(x, y, i) < |pixels| then pixels[f.At(x, y, i)] else 0
  }

  // After the last row every pixel has its final value.
  lemma SampleScaled(now: seq<Byte>, original: seq<Byte>, f: Frame, w: nat, h: nat, x: nat, y: nat, i: nat)
    requires f.Valid() && 0 < w <= f.width && 0 < h <= f.height
    requires Scaled(now, original, f, w, h, f.At(0, h, 0))
    requires x < f.width && y < f.height && i < f.components
    ensures x < w && y < h ==>
              Sample(now, f, x, y, i) == Sample(original, f, Stretch(x, f.width, w), Stretch(y, f.height, h), i)
    ensures w <= x || h <= y ==> Sample(now, f, x, y, i) == Sample(original, f, x, y, i)
  {
    hide Source, Stretch, StretchedTo, Frame.Size, Frame.At;
    WithinFrame(f, x, y, i);
    if x < w && y < h {
      SourceInside(f, w, h, x, y, i);
      Later(f, 0, y + 1, 0, h, 0);
    } else {
      SourceOutside(f, w, h, x, y, i);
    }
  }

  // Nothing moves if the sizes agree.
  lemma SameSize(x: nat, n: nat)
    requires n > 0
    ensures Stretch(x, n, n) == x
  {
    DivMod(n, x, 0);
    assert x * n == n * x;
  }

  // ----- The size to decode at -----

  function CeilDiv(a: nat, b: nat): nat
    requires b > 0
  {
    (a + b - 1) / b
  }

  // The decoder offers sizes of k eighths and takes the least that is not below the ratio asked for.
  function Eighths(num: nat, denom: nat, k: nat): (e: nat)
    requires 1 <= k <= 16
    ensures k <= e <= 16 && (e == 16 || num * 8 <= denom * e)
    ensures k < e ==> denom * (e - 1) < num * 8
    decreases 16 - k
  {
    if k == 16 || num * 8 <= denom * k then k else Eighths(num, denom, k + 1)
  }

  function OutputSize(size: nat, denom: nat): (out: nat)
    ensures size * Eighths(1, denom, 1) <= 8 * out < size * Eighths(1, denom, 1) + 8
  {
    CeilDiv(size * Eighths(1, denom, 1), 8)
  }

  lemma LargeEnough(size: nat, out: nat, denom: nat)
    requires 1 <= denom <= 8 && out * denom <= size
    ensures out <= OutputSize(size, denom)
  {
    var k := Eighths(1, denom, 1);
    EnoughEighths(size, out, denom, k);
    RoundsUp(size * k, out);
  }

  lemma EnoughEighths(size: nat, out: nat, denom: nat, k: nat)
    requires out * denom <= size && 8 <= denom * k
    ensures 8 * out <= size * k
  {
    ProductMonotonic(out * denom, size, k);
    ProductMonotonic(8, denom * k, out);
    assert out * denom * k == denom * k * out;
  }

  lemma RoundsUp(a: nat, out: nat)
    requires 8 * out <= a
    ensures out <= CeilDiv(a, 8)
  {
  }

  lemma FullSize(size: nat)
    ensures OutputSize(size, 1) == size
  {
    var one: nat := 1;
    assert Eighths(one, one, 1) == 8;
  }

  lemma Divides(size: nat, out: nat, scale: nat)
    requires out > 0 && scale <= size / out
    ensures out * scale <= size
  {
    ProductMonotonic(scale, size / out, out);
    assert out * (size / out) + size % out == size;
  }

  lemma AtLeastOnce(size: nat, out: nat)
    requires 1 <= out <= size
    ensures 1 <= size / out
  {
    assert out * (size / out) + size % out == size;
  }

  lemma Exceeds(size: nat, out: nat, scale: nat)
    requires out > 0 && size / out < scale
    ensures size / scale < out
  {
    ProductMonotonic(size / out + 1, scale, out);
    Distribute(out, size / out, 1);
    assert out * (size / out) + size % out == size;
    assert scale * (size / scale) + size % scale == size;
    CancelLess(size / scale, out, scale);
  }

  lemma NoLarger(inW: nat, inH: nat, outW: nat, outH: nat, scale: nat)
    requires outW > 0 && outH > 0 && (scale == inW / outW || scale == inH / outH)
    ensures forall s :: scale < s ==> inW / s < outW || inH / s < outH
  {
    forall s | scale < s
      ensures inW / s < outW || inH / s < outH
    {
      if scale == inW / outW {
        Exceeds(inW, outW, s);
      } else {
        Exceeds(inH, outH, s);
      }
    }
  }

  // At this scale the picture is no smaller than requested.
  predicate Fits(size: nat, out: nat, scale: nat) {
    out * scale <= size
  }

  // At a greater scale it would be smaller in one direction.
  predicate Greatest(inW: nat, inH: nat, outW: int, outH: int, scale: nat) {
    forall s :: scale < s <= 8 ==> inW / s < outW || inH / s < outH
  }

  lemma FitsFrame(size: nat, out: nat, scale: nat)
    requires 1 <= scale <= 8 && 1 <= out && Fits(size, out, scale)
    ensures out <= OutputSize(size, scale) && (out == size ==> OutputSize(size, scale) == size)
  {
    hide OutputSize;
    LargeEnough(size, out, scale);
    if out == size {
      FullSize(size);
      assert scale * size == out * scale;
      CancelLess(scale, 2, size);
    }
  }

  // A buffer filled by the decoder
  method Store(data: seq<Byte>) returns (p: array<Byte>)
    ensures fresh(p) && p[..] == data
  {
    p := new Byte[|data|](i requires 0 <= i < |data| => data[i]);
  }

  // ----- The image handle -----

  class EpegImage {
    const inW: nat
    const inH: nat
    const components: nat
    var outW: int
    var outH: int
    var pixels: array?<Byte>
    var frame: Frame
    var scaled: bool

    // Once decoded, the picture is no smaller than requested, and at full size if that was requested.
    ghost predicate Valid()
      reads this
    {
      && inW > 0 && inH > 0 && components > 0 && outW <= inW && outH <= inH
      && (pixels != null ==>
            && frame.Valid() && frame.components == components && pixels.Length == frame.Size()
            && outW <= frame.width && outH <= frame.height
            && (outW == inW && outH == inH ==> frame.width == inW && frame.height == inH))
    }

    function OutputFrame(denom: nat): Frame {
      Frame(OutputSize(inW, denom), OutputSize(inH, denom), components)
    }

    // An opened picture is to be decoded at its own size.
    constructor (width: nat, height: nat, components: nat)
      requires width > 0 && height > 0 && components > 0
      ensures Valid() && pixels == null && !scaled && outW == width && outH == height
      ensures inW == width && inH == height && this.components == components
    {
      inW, inH, this.components := width, height, components;
      outW, outH := width, height;
      pixels, scaled := null, false;
      frame := Frame(width, height, components);
    }

    method DecodeSizeSet(w: int, h: int)
      requires Valid()
      modifies this`outW, this`outH
      ensures Valid()
      ensures old(pixels) != null ==> outW == old(outW) && outH == old(outH)
      ensures old(pixels) == null ==> 1 <= outW && 1 <= outH
      ensures old(pixels) == null && 1 <= w <= inW ==> outW == w
      ensures old(pixels) == null && 1 <= h <= inH ==> outH == h
      ensures old(pixels) == null ==> (w < 1 ==> outW == 1) && (h < 1 ==> outH == 1)
      ensures old(pixels) == null ==> (w > inW ==> outW == inW) && (h > inH ==> outH == inH)
    {
      if pixels != null {
        return;
      }
      outW := if w < 1 then 1 else if w > inW then inW else w;
      outH := if h < 1 then 1 else if h > inH then inH else h;
    }

    // The denominator is the greatest up to 8 that leaves at least the requested size.
    method ChooseScale() returns (scale: nat)
      requires Valid() && 1 <= outW && 1 <= outH
      ensures 1 <= scale <= 8 && Fits(inW, outW, scale) && Fits(inH, outH, scale) && Greatest(inW, inH, outW, outH, scale)
    {
      var scalew, scaleh := inW / outW, inH / outH;
      scale := scalew;
      if scaleh < scalew {
        scale := scaleh;
      }
      if scale > 8 {
        scale := 8;
      }
      // The requested size is no larger than the picture, so a lower bound of 1 need not be enforced.
      AtLeastOnce(inW, outW);
      AtLeastOnce(inH, outH);
      Divides(inW, outW, scale);
      Divides(inH, outH, scale);
      if scale < 8 {
        NoLarger(inW, inH, outW, outH, scale);
      }
    }

    // image gives the decoder's output for each denominator.
    method Decode(image: nat -> seq<Byte>) returns (code: nat, ghost scale: nat)
      requires Valid() && forall s :: 1 <= s <= 8 ==> |image(s)| == OutputFrame(s).Size()
      modifies this`pixels, this`frame
      ensures Valid()
      ensures code == 0 <==> old(pixels) == null && 1 <= outW && 1 <= outH
      ensures code != 0 ==> pixels == old(pixels) && frame == old(frame)
      ensures code == 0 ==> 1 <= scale <= 8 && Greatest(inW, inH, outW, outH, scale)
      ensures code == 0 ==> pixels != null && fresh(pixels) && frame == OutputFrame(scale) && pixels[..] == image(scale)
    {
      hide OutputSize, Frame.Size, Frame.Stride, Fits, Greatest;
      scale := 0;
      if pixels != null || outW < 1 || outH < 1 {
        return 1, scale;
      }
      var denom := ChooseScale();
      scale := denom;
      FitsFrame(inW, outW, denom);
      FitsFrame(inH, outH, denom);
      frame := OutputFrame(denom);
      var data := image(denom);
      pixels := Store(data);
      code := 0;
    }

    // Copies one pixel, component by component.
    method CopyPixel(p: array<Byte>, dst: nat, src: nat, ghost x: nat, ghost y: nat, ghost original: seq<Byte>)
      requires Valid() && pixels == p && 1 <= outW && 1 <= outH && x < outW && y < outH
      requires dst == frame.At(x, y, 0)
      requires src == frame.At(Stretch(x, frame.width, outW), Stretch(y, frame.height, outH), 0)
      requires Scaled(p[..], original, frame, outW, outH, dst)
      modifies p
      ensures Scaled(p[..], original, frame, outW, outH, frame.At(x + 1, y, 0))
    {
      hide Source, Stretch, StretchedTo, Frame.Size;
      Distribute(components, x, 1);
      for i := 0 to components
        invariant Scaled(p[..], original, frame, outW, outH, dst + i)
      {
        SourceInside(frame, outW, outH, x, y, i);
        p[dst + i] := p[src + i];
      }
    }

    // Copies the pixels of one row, and passes over the rest of it.
    method CopyRow(p: array<Byte>, y: nat, ghost original: seq<Byte>)
      requires Valid() && pixels == p && 1 <= outW && 1 <= outH && y < outH
      requires Scaled(p[..], original, frame, outW, outH, frame.At(0, y, 0))
      modifies p
      ensures Scaled(p[..], original, frame, outW, outH, frame.At(0, y + 1, 0))
    {
      hide Source, StretchedTo, Frame.Size, Frame.At, Scaled;
      var w := outW;
      var row := y * frame.height / outH * frame.Stride();
      var dst := y * frame.Stride();
      PixelStart(frame, 0, y);
      for x := 0 to w
        invariant dst == frame.At(x, y, 0)
        invariant Scaled(p[..], original, frame, outW, outH, dst)
      {
        var src := row + x * frame.width / w * frame.components;
        PixelStart(frame, Stretch(x, frame.width, w), Stretch(y, frame.height, outH));
        PixelStart(frame, x, y);
        CopyPixel(p, dst, src, x, y, original);
        dst := dst + frame.components;
      }
      RowDone(p[..], original, frame, outW, outH, y);
    }

    // Scaling takes every pixel of the result from the original picture, although it is done in
    // the same buffer, and leaves the rest of the buffer alone. It is done once.
    method Scale()
      requires Valid() && pixels != null
      modifies pixels, this`scaled
      ensures Valid() && pixels == old(pixels)
      ensures scaled == (old(scaled) || (!(inW == outW && inH == outH) && 1 <= outW && 1 <= outH))
      ensures old(scaled) || outW < 1 || outH < 1 ==> pixels[..] == old(pixels[..])
      ensures !old(scaled) && 1 <= outW && 1 <= outH ==>
        && (forall x: nat, y: nat, i: nat, k: nat, l: nat ::
              x < outW && y < outH && i < components && StretchedTo(k, x, frame.width, outW) && StretchedTo(l, y, frame.height, outH) ==>
                Sample(pixels[..], frame, x, y, i) == Sample(old(pixels[..]), frame, k, l, i))
        && forall x: nat, y: nat, i: nat :: x < frame.width && y < frame.height && i < components && (outW <= x || outH <= y) ==>
             Sample(pixels[..], frame, x, y, i) == Sample(old(pixels[..]), frame, x, y, i)
    {
      hide Source, Stretch, StretchedTo, Frame.Size, Sample, Frame.At;
      if inW == outW && inH == outH {
        Unscaled();
        if 1 <= outW && 1 <= outH {
          FromStretched(pixels[..], pixels[..]);
        }
        return;
      }
      if scaled || outW < 1 || outH < 1 {
        return;
      }
      scaled := true;
      var p := pixels;
      ghost var original := p[..];
      CopyRows(p, original);
      forall x: nat, y: nat, i: nat | x < frame.width && y < frame.height && i < components
        ensures x < outW && y < outH ==>
                  var sx, sy := Stretch(x, frame.width, outW), Stretch(y, frame.height, outH);
                  Sample(p[..], frame, x, y, i) == Sample(original, frame, sx, sy, i)
        ensures outW <= x || outH <= y ==> Sample(p[..], frame, x, y, i) == Sample(original, frame, x, y, i)
      {
        SampleScaled(p[..], original, frame, outW, outH, x, y, i);
      }
      FromStretched(p[..], original);
    }

    lemma FromStretched(now: seq<Byte>, original: seq<Byte>)
      requires 1 <= outW && 1 <= outH
      requires forall x: nat, y: nat, i: nat :: x < outW && y < outH && i < components ==>
                 Sample(now, frame, x, y, i) == Sample(original, frame, Stretch(x, frame.width, outW), Stretch(y, frame.height, outH), i)
      ensures forall x: nat, y: nat, i: nat, k: nat, l: nat ::
                x < outW && y < outH && i < components && StretchedTo(k, x, frame.width, outW) && StretchedTo(l, y, frame.height, outH) ==>
                  Sample(now, frame, x, y, i) == Sample(original, frame, k, l, i)
    {
      hide Stretch, StretchedTo, Sample;
      forall x: nat, y: nat, i: nat, k: nat, l: nat |
        x < outW && y < outH && i < components && StretchedTo(k, x, frame.width, outW) && StretchedTo(l, y, frame.height, outH)
        ensures Sample(now, frame, x, y, i) == Sample(original, frame, k, l, i)
      {
        StretchOnly(k, x, frame.width, outW);
        StretchOnly(l, y, frame.height, outH);
      }
    }

    method CopyRows(p: array<Byte>, ghost original: seq<Byte>)
      requires Valid() && pixels == p && 1 <= outW && 1 <= outH && p[..] == original
      modifies p
      ensures Scaled(p[..], original, frame, outW, outH, frame.At(0, outH, 0))
    {
      hide Source, Stretch, StretchedTo, Frame.Size;
      for y := 0 to outH
        invariant Scaled(p[..], original, frame, outW, outH, frame.At(0, y, 0))
      {
        CopyRow(p, y, original);
      }
    }

    lemma Unscaled()
      requires Valid() && pixels != null && outW == inW && outH == inH
      ensures forall x: nat :: x < frame.width ==> Stretch(x, frame.width, outW) == x
      ensures forall y: nat :: y < frame.height ==> Stretch(y, frame.height, outH) == y
    {
      hide Stretch, StretchedTo;
      forall x: nat | x < frame.width
        ensures Stretch(x, frame.width, outW) == x
      {
        SameSize(x, frame.width);
      }
      forall y: nat | y < frame.height
        ensures Stretch(y, frame.height, outH) == y
      {
        SameSize(y, frame.height);
      }
    }
  }
}
