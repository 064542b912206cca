/** Decoded images and nearest-neighbour integer upscaling, the drawing that
    `Upscaler.resizeFile` asks of the renderer. Pixels are opaque values. */
module Images {

  /** A `width` by `height` image; `pixels[y][x]` is the pixel in row `y`, column `x`. */
  datatype Image<P> = Image(width: nat, height: nat, pixels: seq<seq<P>>) {
    predicate Valid() {
      |pixels| == height && forall y :: 0 <= y < height ==> |pixels[y]| == width
    }
  }

  /** A well-formed image: the pixel grid has the stated dimensions. */
  type Picture<P> = img: Image<P> | img.Valid() witness Image(0, 0, [])

  /** `a * f` by repeated addition, so that the proofs below stay linear. */
  function Times(a: nat, f: nat): nat {
    if a == 0 then 0 else Times(a - 1, f) + f
  }

  /** `a / f` by repeated subtraction. */
  function Quot(a: nat, f: nat): nat
    requires f >= 1
    decreases a
  {
    if a < f then 0 else Quot(a - f, f) + 1
  }

  /** `Times` is multiplication. */
  lemma {:induction false} TimesIsMul(a: nat, f: nat)
    ensures Times(a, f) == a * f
  {
    if a > 0 {
      TimesIsMul(a - 1, f);
      assert a * f == (a - 1) * f + f;
    }
  }

  /** `Quot(a, f)` blocks of `f` fit into `a`, with less than one block left over. */
  lemma {:induction false} QuotBounds(a: nat, f: nat)
    requires f >= 1
    ensures Times(Quot(a, f), f) <= a < Times(Quot(a, f), f) + f
    decreases a
  {
    if a >= f {
      QuotBounds(a - f, f);
    }
  }

  /** Multiplying by the same factor keeps the order. */
  lemma {:induction false} MulMonotone(a: nat, b: nat, f: nat)
    ensures a <= b ==> a * f <= b * f
    decreases b
  {
    if a < b {
      MulMonotone(a, b - 1, f);
      assert b * f == (b - 1) * f + f;
    }
  }

  /** The Euclidean quotient is the only `q` with `q * f <= a < q * f + f`. */
  lemma DivUnique(a: nat, f: nat, q: nat)
    requires f >= 1 && q * f <= a < q * f + f
    ensures a / f == q
  {
    var d := a / f;
    var r := a % f;
    assert a == d * f + r && 0 <= r < f;
    MulMonotone(q + 1, d, f);
    MulMonotone(d + 1, q, f);
    assert (q + 1) * f == q * f + f;
    assert (d + 1) * f == d * f + f;
  }

  /** `Quot` is integer division. */
  lemma QuotIsDiv(a: nat, f: nat)
    requires f >= 1
    ensures Quot(a, f) == a / f
  {
    QuotBounds(a, f);
    TimesIsMul(Quot(a, f), f);
    DivUnique(a, f, Quot(a, f));
  }

  /** Dividing `a` blocks of `f` by `f` gives `a` back. */
  lemma {:induction false} QuotOfTimes(a: nat, f: nat)
    requires f >= 1
    ensures Quot(Times(a, f), f) == a
  {
    if a > 0 {
      QuotOfTimes(a - 1, f);
    }
  }

  /** A coordinate on a canvas `f` times as large divides back into the source. */
  lemma {:induction false} QuotBelow(a: nat, f: nat, n: nat)
    requires f >= 1 && a < Times(n, f)
    ensures Quot(a, f) < n
    decreases a
  {
    if a >= f {
      QuotBelow(a - f, f, n - 1);
    }
  }

  /** A coordinate of a sample grid multiplies back into the sampled image. */
  lemma {:induction false} TimesBelow(a: nat, f: nat, n: nat)
    requires f >= 1 && a < Quot(n, f)
    ensures Times(a, f) < n
    decreases n
  {
    if a > 0 {
      TimesBelow(a - 1, f, n - f);
    }
  }

  /** `f` copies of `x`. */
  function Repeat<T>(x: T, f: nat): seq<T> {
    seq(f, _ => x)
  }

  /** Each element of `xs` repeated `f` times in a row. */
  function Stretch<T>(xs: seq<T>, f: nat): seq<T>
    decreases |xs|
  {
    if |xs| == 0 then [] else Repeat(xs[0], f) + Stretch(xs[1..], f)
  }

  /** The stretched sequence is `f` times as long, and position `i` holds element
      `i / f` of the original. */
  lemma {:induction false} StretchLaw<T>(xs: seq<T>, f: nat)
    requires f >= 1
    ensures |Stretch(xs, f)| == Times(|xs|, f)
    ensures forall i :: 0 <= i < Times(|xs|, f) ==> Quot(i, f) < |xs| && Stretch(xs, f)[i] == xs[Quot(i, f)]
    decreases |xs|
  {
    if |xs| > 0 {
      var rest := xs[1..];
      StretchLaw(rest, f);
      var s := Stretch(xs, f);
      assert s == Repeat(xs[0], f) + Stretch(rest, f);
      forall i | 0 <= i < Times(|xs|, f)
        ensures Quot(i, f) < |xs| && s[i] == xs[Quot(i, f)]
      {
        if i >= f {
          assert s[i] == Stretch(rest, f)[i - f];
        }
      }
    }
  }

  /** Every `f`-th element of `xs`, starting with the first. */
  function Every<T>(xs: seq<T>, f: nat): seq<T>
    requires f >= 1
    decreases |xs|
  {
    if |xs| < f then [] else [xs[0]] + Every(xs[f..], f)
  }

  /** The sampled sequence has `|xs| / f` elements, and element `i` is element
      `i * f` of the original. */
  lemma {:induction false} EveryLaw<T>(xs: seq<T>, f: nat)
    requires f >= 1
    ensures |Every(xs, f)| == Quot(|xs|, f)
    ensures forall i :: 0 <= i < Quot(|xs|, f) ==> Times(i, f) < |xs| && Every(xs, f)[i] == xs[Times(i, f)]
    decreases |xs|
  {
    if |xs| >= f {
      var rest := xs[f..];
      EveryLaw(rest, f);
      var s := Every(xs, f);
      assert s == [xs[0]] + Every(rest, f);
      forall i | 0 <= i < Quot(|xs|, f)
        ensures Times(i, f) < |xs| && s[i] == xs[Times(i, f)]
      {
        if i > 0 {
          assert s[i] == Every(rest, f)[i - 1];
        }
      }
    }
  }

  /** The canvas pixel grid of `Scale`: every row stretched, then every row repeated. */
  function Canvas<P>(img: Picture<P>, f: nat): seq<seq<P>> {
    Stretch(seq(img.height, y requires 0 <= y < img.height => Stretch(img.pixels[y], f)), f)
  }

  /** One canvas row has the stretched width, and each of its pixels comes from the
      source pixel at its coordinates divided by `f`. */
  lemma CanvasRow<P>(img: Picture<P>, f: nat, oy: nat)
    requires f >= 1 && oy < Times(img.height, f)
    ensures Quot(oy, f) < img.height && |Canvas(img, f)| == Times(img.height, f)
    ensures |Canvas(img, f)[oy]| == Times(img.width, f)
    ensures forall ox :: 0 <= ox < Times(img.width, f) ==>
      Quot(ox, f) < img.width && Canvas(img, f)[oy][ox] == img.pixels[Quot(oy, f)][Quot(ox, f)]
  {
    var rows := seq(img.height, y requires 0 <= y < img.height => Stretch(img.pixels[y], f));
    StretchLaw(rows, f);
    var y := Quot(oy, f);
    StretchLaw(img.pixels[y], f);
    assert Canvas(img, f)[oy] == Stretch(img.pixels[y], f);
  }

  /** The canvas has the stretched dimensions, and every canvas pixel comes from
      the source pixel at its coordinates divided by `f`. */
  lemma CanvasLaw<P>(img: Picture<P>, f: nat)
    requires f >= 1
    ensures |Canvas(img, f)| == Times(img.height, f)
    ensures forall oy :: 0 <= oy < Times(img.height, f) ==> |Canvas(img, f)[oy]| == Times(img.width, f)
    ensures forall oy :: 0 <= oy < Times(img.height, f) ==> Quot(oy, f) < img.height
    ensures forall ox :: 0 <= ox < Times(img.width, f) ==> Quot(ox, f) < img.width
    ensures forall oy, ox :: 0 <= oy < Times(img.height, f) && 0 <= ox < Times(img.width, f) ==>
      Canvas(img, f)[oy][ox] == img.pixels[Quot(oy, f)][Quot(ox, f)]
  {
    StretchLaw(seq(img.height, y requires 0 <= y < img.height => Stretch(img.pixels[y], f)), f);
    forall oy | 0 <= oy < Times(img.height, f)
      ensures Quot(oy, f) < img.height
      ensures |Canvas(img, f)[oy]| == Times(img.width, f)
      ensures forall ox :: 0 <= ox < Times(img.width, f) ==>
        Quot(ox, f) < img.width && Canvas(img, f)[oy][ox] == img.pixels[Quot(oy, f)][Quot(ox, f)]
    {
      CanvasRow(img, f, oy);
    }
    forall ox | 0 <= ox < Times(img.width, f)
      ensures Quot(ox, f) < img.width
    {
      QuotBelow(ox, f, img.width);
    }
  }

  /** The image drawn onto a canvas `f` times as wide and `f` times as high with
      nearest-neighbour interpolation: every canvas pixel takes the colour of the
      source pixel at its coordinates divided by `f` (`Times` and `Quot` are `*`
      and `/`, by `TimesIsMul` and `QuotIsDiv`). */
  function Scale<P>(img: Picture<P>, f: nat): (out: Picture<P>)
    requires f >= 1
    ensures out.width == Times(img.width, f) && out.height == Times(img.height, f)
    ensures forall oy :: 0 <= oy < out.height ==> Quot(oy, f) < img.height
    ensures forall ox :: 0 <= ox < out.width ==> Quot(ox, f) < img.width
    ensures forall oy, ox :: 0 <= oy < out.height && 0 <= ox < out.width ==>
      out.pixels[oy][ox] == img.pixels[Quot(oy, f)][Quot(ox, f)]
  {
    CanvasLaw(img, f);
    Image(Times(img.width, f), Times(img.height, f), Canvas(img, f))
  }

  /** The scaling law for one pixel, written with `*` and `/`: the canvas is
      `width * f` by `height * f`, and pixel (`ox`, `oy`) has the colour of source
      pixel (`ox / f`, `oy / f`). */
  lemma ScalePixel<P>(img: Picture<P>, f: nat, oy: nat, ox: nat)
    requires f >= 1
    ensures Scale(img, f).width == img.width * f && Scale(img, f).height == img.height * f
    ensures oy < img.height * f && ox < img.width * f ==>
      oy / f < img.height && ox / f < img.width && Scale(img, f).pixels[oy][ox] == img.pixels[oy / f][ox / f]
  {
    TimesIsMul(img.width, f);
    TimesIsMul(img.height, f);
    QuotIsDiv(oy, f);
    QuotIsDiv(ox, f);
  }

  /** The sample grid of `Downsample`: every `f`-th row, each sampled. */
  function Samples<P>(img: Picture<P>, f: nat): seq<seq<P>>
    requires f >= 1
  {
    Every(seq(img.height, y requires 0 <= y < img.height => Every(img.pixels[y], f)), f)
  }

  /** One sampled row has the reduced width, and each sample is the image pixel at
      its coordinates times `f`. */
  lemma SamplesRow<P>(img: Picture<P>, f: nat, y: nat)
    requires f >= 1 && y < Quot(img.height, f)
    ensures Times(y, f) < img.height && |Samples(img, f)| == Quot(img.height, f)
    ensures |Samples(img, f)[y]| == Quot(img.width, f)
    ensures forall x :: 0 <= x < Quot(img.width, f) ==>
      Times(x, f) < img.width && Samples(img, f)[y][x] == img.pixels[Times(y, f)][Times(x, f)]
  {
    var rows := seq(img.height, y requires 0 <= y < img.height => Every(img.pixels[y], f));
    EveryLaw(rows, f);
    var oy := Times(y, f);
    EveryLaw(img.pixels[oy], f);
    assert Samples(img, f)[y] == Every(img.pixels[oy], f);
  }

  /** The sample grid has the reduced dimensions, and every sample is the image
      pixel at its coordinates times `f`. */
  lemma SamplesLaw<P>(img: Picture<P>, f: nat)
    requires f >= 1
    ensures |Samples(img, f)| == Quot(img.height, f)
    ensures forall y :: 0 <= y < Quot(img.height, f) ==> |Samples(img, f)[y]| == Quot(img.width, f)
    ensures forall y :: 0 <= y < Quot(img.height, f) ==> Times(y, f) < img.height
    ensures forall x :: 0 <= x < Quot(img.width, f) ==> Times(x, f) < img.width
    ensures forall y, x :: 0 <= y < Quot(img.height, f) && 0 <= x < Quot(img.width, f) ==>
      Samples(img, f)[y][x] == img.pixels[Times(y, f)][Times(x, f)]
  {
    EveryLaw(seq(img.height, y requires 0 <= y < img.height => Every(img.pixels[y], f)), f);
    forall y | 0 <= y < Quot(img.height, f)
      ensures Times(y, f) < img.height
      ensures |Samples(img, f)[y]| == Quot(img.width, f)
      ensures forall x :: 0 <= x < Quot(img.width, f) ==>
        Times(x, f) < img.width && Samples(img, f)[y][x] == img.pixels[Times(y, f)][Times(x, f)]
    {
      SamplesRow(img, f, y);
    }
    forall x | 0 <= x < Quot(img.width, f)
      ensures Times(x, f) < img.width
    {
      TimesBelow(x, f, img.width);
    }
  }

  /** Keeps every `f`-th pixel of every `f`-th row, starting at the top left. */
  function Downsample<P>(img: Picture<P>, f: nat): (out: Picture<P>)
    requires f >= 1
    ensures out.width == Quot(img.width, f) && out.height == Quot(img.height, f)
    ensures forall y :: 0 <= y < out.height ==> Times(y, f) < img.height
    ensures forall x :: 0 <= x < out.width ==> Times(x, f) < img.width
    ensures forall y, x :: 0 <= y < out.height && 0 <= x < out.width ==>
      out.pixels[y][x] == img.pixels[Times(y, f)][Times(x, f)]
  {
    SamplesLaw(img, f);
    Image(Quot(img.width, f), Quot(img.height, f), Samples(img, f))
  }

  /** With a factor of 1 the canvas is the original image, pixel for pixel. */
  lemma ScaleByOne<P>(img: Picture<P>)
    ensures Scale(img, 1) == img
  {
    var out := Scale(img, 1);
    TimesIsMul(img.width, 1);
    TimesIsMul(img.height, 1);
    forall y | 0 <= y < img.height
      ensures out.pixels[y] == img.pixels[y]
    {
      forall x | 0 <= x < img.width
        ensures out.pixels[y][x] == img.pixels[y][x]
      {
        QuotIsDiv(y, 1);
        QuotIsDiv(x, 1);
      }
    }
  }

  /** Upscaling loses nothing: sampling every `f`-th pixel of the canvas gives the
      original image back. */
  lemma ScaleThenDownsample<P>(img: Picture<P>, f: nat)
    requires f >= 1
    ensures Downsample(Scale(img, f), f) == img
  {
    var big := Scale(img, f);
    var back := Downsample(big, f);
    QuotOfTimes(img.width, f);
    QuotOfTimes(img.height, f);
    forall y | 0 <= y < img.height
      ensures back.pixels[y] == img.pixels[y]
    {
      forall x | 0 <= x < img.width
        ensures back.pixels[y][x] == img.pixels[y][x]
      {
        QuotOfTimes(y, f);
        QuotOfTimes(x, f);
      }
    }
  }
}
