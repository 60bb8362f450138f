/**
 * Frame-rate normalisation of animated GIFs in UIImage+Ex.swift: the per-frame
 * delays (in milliseconds) are reduced to their greatest common divisor `g`,
 * every frame is repeated `delay / g` times, and the animation lasts the sum of
 * the delays. Also the byte offset of the pixel subscript and `imageSwapSize`.
 */
module GifFrames {
  import opened Wrappers
  import opened Geometry
  import opened Arith

  // ---------------------------------------------------------------------------
  // Divisibility and Euclid's algorithm
  // ---------------------------------------------------------------------------

  /** `d` is a positive divisor of `n`. */
  predicate Divides(d: int, n: int)
  {
    d > 0 && n % d == 0
  }

  /** Euclid's algorithm, the reference for `perPairFrame`. */
  function Gcd(a: nat, b: nat): (g: nat)
    ensures a > 0 || b > 0 ==> g > 0
    decreases b
  {
    if b == 0 then a else Gcd(b, a % b)
  }

  /** A common divisor of `x` and `y` divides `q * x + y`. */
  lemma DividesCombination(d: int, x: int, y: int, q: int)
    requires Divides(d, x) && Divides(d, y)
    ensures Divides(d, q * x + y)
  {
    var x', y' := x / d, y / d;
    assert x == d * x' && y == d * y';
    assert q * x + y == d * (q * x' + y');
    MultipleMod(d, q * x' + y');
  }

  /** `Gcd(a, b)` divides both numbers, and every common divisor divides it: it is
    * the greatest common divisor. */
  lemma {:induction false} GcdIsGreatest(a: nat, b: nat)
    requires a > 0 || b > 0
    ensures Gcd(a, b) > 0 && Divides(Gcd(a, b), a) && Divides(Gcd(a, b), b)
    ensures forall d :: Divides(d, a) && Divides(d, b) ==> Divides(d, Gcd(a, b))
    decreases b
  {
    if b == 0 {
      assert a % a == 0 && 0 % a == 0;
    } else {
      var r := a % b;
      assert a == (a / b) * b + r;
      GcdIsGreatest(b, r);
      var g := Gcd(b, r);
      DividesCombination(g, b, r, a / b);
      forall d | Divides(d, a) && Divides(d, b) ensures Divides(d, g) {
        DividesCombination(d, b, a, -(a / b));
        assert -(a / b) * b + a == r;
      }
    }
  }

  /** Two positive numbers that divide each other are equal. */
  lemma DividesAntisymmetric(d: int, e: int)
    requires Divides(d, e) && Divides(e, d)
    ensures d == e
  {
    var k, l := e / d, d / e;
    assert e == d * k && d == e * l;
    assert k >= 1 && l >= 1;
    assert e >= d && d >= e;
  }

  lemma GcdCommutes(a: nat, b: nat)
    ensures Gcd(a, b) == Gcd(b, a)
  {
    if a > 0 || b > 0 {
      GcdIsGreatest(a, b);
      GcdIsGreatest(b, a);
      DividesAntisymmetric(Gcd(a, b), Gcd(b, a));
    } else {
      assert Gcd(a, b) == 0 == Gcd(b, a);
    }
  }

  /** `perPairFrame(lhs, rhs)`: with one argument missing, the other one (0 when
    * both are missing); with two, their greatest common divisor found by the
    * swap-then-remainder loop. Two present arguments must be positive: a zero
    * one becomes the divisor of `%` and traps. */
  method PerPairFrame(lhs0: Option<int>, rhs0: Option<int>) returns (r: int)
    requires lhs0.Some? && rhs0.Some? ==> lhs0.value > 0 && rhs0.value > 0
    ensures lhs0.None? && rhs0.None? ==> r == 0
    ensures lhs0.None? && rhs0.Some? ==> r == rhs0.value
    ensures lhs0.Some? && rhs0.None? ==> r == lhs0.value
    ensures lhs0.Some? && rhs0.Some? ==> r > 0 && r == Gcd(lhs0.value, rhs0.value)
  {
    if rhs0.None? || lhs0.None? {
      if rhs0.Some? {
        return rhs0.value;
      } else if lhs0.Some? {
        return lhs0.value;
      } else {
        return 0;
      }
    }
    var lhs: nat, rhs: nat := lhs0.value, rhs0.value;
    if lhs < rhs {
      GcdCommutes(lhs, rhs);
      lhs, rhs := rhs, lhs;
    }
    GcdIsGreatest(lhs, rhs);
    var rest: nat;
    while true
      invariant rhs > 0 && Gcd(lhs, rhs) == Gcd(lhs0.value, rhs0.value)
      decreases rhs
    {
      rest := lhs % rhs;
      if rest == 0 {
        return rhs;
      } else {
        lhs, rhs := rhs, rest;
      }
    }
  }

  /** The greatest common divisor of a non-empty list, folded from the left. */
  function GcdOf(s: seq<nat>): (g: nat)
    requires |s| >= 1
    ensures AllPositive(s) ==> g > 0
  {
    if |s| == 1 then s[0] else Gcd(s[|s| - 1], GcdOf(s[..|s| - 1]))
  }

  predicate AllPositive(s: seq<int>)
  {
    forall i :: 0 <= i < |s| ==> s[i] > 0
  }

  /** Divides every element of `s`. */
  predicate DividesAll(d: int, s: seq<nat>)
  {
    forall i :: 0 <= i < |s| ==> Divides(d, s[i])
  }

  /** `GcdOf` divides every element, and every common divisor divides it. */
  lemma {:induction false} GcdOfIsGreatest(s: seq<nat>)
    requires |s| >= 1 && AllPositive(s)
    ensures GcdOf(s) > 0 && DividesAll(GcdOf(s), s)
    ensures forall d :: DividesAll(d, s) ==> Divides(d, GcdOf(s))
  {
    if |s| == 1 {
      assert s[0] % s[0] == 0;
    } else {
      var init := s[..|s| - 1];
      var last := s[|s| - 1];
      GcdOfIsGreatest(init);
      var h := GcdOf(init);
      GcdIsGreatest(last, h);
      var g := Gcd(last, h);
      forall i | 0 <= i < |s| ensures Divides(g, s[i]) {
        if i < |s| - 1 {
          assert s[i] == init[i];
          DividesTransitive(g, h, s[i]);
        }
      }
      forall d | DividesAll(d, s) ensures Divides(d, g) {
        DividesAllPrefix(d, s);
      }
    }
  }

  lemma DividesTransitive(g: int, h: int, n: int)
    requires Divides(g, h) && Divides(h, n)
    ensures Divides(g, n)
  {
    var k, m := n / h, h / g;
    assert n == h * k && h == g * m;
    assert n == g * (m * k);
    MultipleMod(g, m * k);
  }

  lemma DividesAllPrefix(d: int, s: seq<nat>)
    requires |s| >= 1 && DividesAll(d, s)
    ensures DividesAll(d, s[..|s| - 1]) && Divides(d, s[|s| - 1])
  {
    var init := s[..|s| - 1];
    assert forall i :: 0 <= i < |init| ==> init[i] == s[i];
  }

  /** `picFrames`: 1 for no delays, otherwise the greatest common divisor of all
    * delays (the first delay is folded in twice, which changes nothing). */
  method PicFrames(delays: seq<nat>) returns (frame: int)
    requires AllPositive(delays)
    ensures delays == [] ==> frame == 1
    ensures delays != [] ==> frame == GcdOf(delays)
  {
    if |delays| == 0 {
      return 1;
    }
    frame := delays[0];
    for i := 0 to |delays|
      invariant frame == GcdOf(delays[..if i == 0 then 1 else i]) && frame > 0
    {
      var val := delays[i];
      frame := PerPairFrame(Some(val), Some(frame));
      if i == 0 {
        assert Gcd(val, val) == val by {
          assert val % val == 0;
        }
      } else {
        assert delays[..i + 1][..i] == delays[..i];
      }
    }
    assert delays[..|delays|] == delays;
  }

  // ---------------------------------------------------------------------------
  // Delays and frames
  // ---------------------------------------------------------------------------

  /** The GIF properties of one source image: the unclamped and the clamped
    * delay time, in seconds. */
  datatype GifProperties = GifProperties(unclampedDelay: real, delay: real)

  /** One image of the source: the decoded image, when decoding succeeds, and its
    * GIF dictionary, when it has one. */
  datatype SourceFrame<T> = SourceFrame(image: Option<T>, gif: Option<GifProperties>)

  /** `delayOfSourceIndex`: the unclamped delay, or the clamped one when the
    * unclamped one is 0; a value that is not positive (or a missing dictionary)
    * gives 0.1 seconds. */
  function DelayOf(gif: Option<GifProperties>): (d: real)
    ensures d > 0.0
    ensures gif.None? ==> d == 0.1
    ensures gif.Some? && gif.value.unclampedDelay > 0.0 ==> d == gif.value.unclampedDelay
    ensures gif.Some? && gif.value.unclampedDelay == 0.0 && gif.value.delay > 0.0 ==> d == gif.value.delay
    ensures gif.Some? && !(gif.value.unclampedDelay > 0.0) && !(gif.value.unclampedDelay == 0.0 && gif.value.delay > 0.0) ==> d == 0.1
  {
    match gif
    case None => 0.1
    case Some(p) =>
      var delayObject := if p.unclampedDelay == 0.0 then p.delay else p.unclampedDelay;
      if delayObject > 0.0 then delayObject else 0.1
  }

  /** `Int(delaySeconds * 1000.0)`: whole milliseconds, truncated. */
  function Millis(seconds: real): (ms: nat)
    requires seconds > 0.0
    ensures ms as real <= seconds * 1000.0 < ms as real + 1.0
  {
    (seconds * 1000.0).Floor
  }

  function Sum(s: seq<nat>): nat
  {
    if s == [] then 0 else Sum(s[..|s| - 1]) + s[|s| - 1]
  }

  function Repeat<T>(x: T, n: nat): (r: seq<T>)
    ensures |r| == n && forall i :: 0 <= i < n ==> r[i] == x
  {
    if n == 0 then [] else Repeat(x, n - 1) + [x]
  }

  /** Image `i` repeated `delays[i] / g` times, in source order. */
  function Expand<T>(images: seq<T>, delays: seq<nat>, g: nat): seq<T>
    requires |images| == |delays| && g > 0
  {
    if images == [] then []
    else
      Expand(images[..|images| - 1], delays[..|delays| - 1], g)
      + Repeat(images[|images| - 1], delays[|delays| - 1] / g)
  }

  /** When `g` divides every delay, the frame list has `Sum(delays) / g` frames:
    * each frame stands for `g` milliseconds. */
  lemma {:induction false} ExpandLength<T>(images: seq<T>, delays: seq<nat>, g: nat)
    requires |images| == |delays| && g > 0 && DividesAll(g, delays)
    ensures |Expand(images, delays, g)| * g == Sum(delays)
  {
    if images != [] {
      var n := |delays| - 1;
      var init := delays[..n];
      assert forall i :: 0 <= i < |init| ==> init[i] == delays[i];
      ExpandLength(images[..n], init, g);
      var a := |Expand(images[..n], init, g)|;
      var q := delays[n] / g;
      assert |Expand(images, delays, g)| == a + q;
      assert Sum(delays) == Sum(init) + delays[n];
      ExactQuotient(delays[n], g);
      Distribute(a, q, g);
    }
  }

  lemma ExactQuotient(d: nat, g: nat)
    requires g > 0 && Divides(g, d)
    ensures (d / g) * g == d
  {
  }

  lemma Distribute(a: int, q: int, g: int)
    ensures (a + q) * g == a * g + q * g
  {
  }

  /** Every frame of the list is one of the source images. */
  lemma {:induction false} ExpandDrawsFromImages<T>(images: seq<T>, delays: seq<nat>, g: nat)
    requires |images| == |delays| && g > 0
    ensures forall f :: f in Expand(images, delays, g) ==> f in images
  {
    if images != [] {
      var n := |images| - 1;
      ExpandDrawsFromImages(images[..n], delays[..n], g);
      var r := Repeat(images[n], delays[n] / g);
      forall f | f in Expand(images, delays, g) ensures f in images {
        if f in r {
          assert f == images[n];
        } else {
          assert f in Expand(images[..n], delays[..n], g);
          assert f in images[..n];
        }
      }
    }
  }

  /** The values of `s` in whole milliseconds, one per source image. */
  function DelaysOf<T>(source: seq<SourceFrame<T>>): (ds: seq<nat>)
    ensures |ds| == |source|
    ensures forall i :: 0 <= i < |source| ==> ds[i] == Millis(DelayOf(source[i].gif))
  {
    if source == [] then []
    else DelaysOf(source[..|source| - 1]) + [Millis(DelayOf(source[|source| - 1].gif))]
  }

  /** The decoded images of `source`, when all of them decode. */
  function ImagesOf<T>(source: seq<SourceFrame<T>>): (images: seq<T>)
    requires forall i :: 0 <= i < |source| ==> source[i].image.Some?
    ensures |images| == |source|
    ensures forall i :: 0 <= i < |source| ==> images[i] == source[i].image.value
  {
    seq(|source|, i requires 0 <= i < |source| => source[i].image.value)
  }

  /** The first loop of `imageAnimatedWithSource`: the images that decode, and
    * the delay of every index in milliseconds. */
  method CollectSource<T>(source: seq<SourceFrame<T>>) returns (images: seq<T>, delays: seq<nat>)
    ensures delays == DelaysOf(source)
    ensures (forall i :: 0 <= i < |source| ==> source[i].image.Some?) ==> images == ImagesOf(source)
  {
    images := [];
    delays := [];
    ghost var decoded := 0;
    for index := 0 to |source|
      invariant delays == DelaysOf(source[..index])
      invariant (forall i :: 0 <= i < index ==> source[i].image.Some?) ==> images == ImagesOf(source[..index])
    {
      match source[index].image {
        case Some(image) => images := images + [image];
        case None =>
      }
      var delaySeconds := DelayOf(source[index].gif);
      delays := delays + [Millis(delaySeconds)];
      assert source[..index + 1][..index] == source[..index];
    }
    assert source[..|source|] == source;
  }

  /** The `duration` closure: the sum of the delays. */
  method Duration(delays: seq<nat>) returns (sum: nat)
    ensures sum == Sum(delays)
  {
    sum := 0;
    for k := 0 to |delays|
      invariant sum == Sum(delays[..k])
    {
      assert delays[..k + 1][..k] == delays[..k];
      sum := sum + delays[k];
    }
    assert delays[..|delays|] == delays;
  }

  /** The last loop: image `index` appended `delays[index] / g` times. */
  method ReplicateFrames<T>(images: seq<T>, delays: seq<nat>, g: nat) returns (frames: seq<T>)
    requires |images| == |delays| && g > 0
    ensures frames == Expand(images, delays, g)
  {
    frames := [];
    for index := 0 to |images|
      invariant frames == Expand(images[..index], delays[..index], g)
    {
      var frame := images[index];
      var frameCount := delays[index] / g;
      ghost var before := frames;
      for j := 0 to frameCount
        invariant frames == before + Repeat(frame, j)
      {
        frames := frames + [frame];
      }
      assert images[..index + 1][..index] == images[..index];
      assert delays[..index + 1][..index] == delays[..index];
    }
    assert images[..|images|] == images;
    assert delays[..|delays|] == delays;
  }

  /** `imageAnimatedWithSource`, without the UIKit calls: the frames handed to
    * `animatedImage(with:duration:)` and the duration in milliseconds. Every
    * image must decode (a missing one shortens `images` and `images[index]`
    * traps) and every delay must be at least a millisecond (a zero one traps in
    * `perPairFrame`). */
  method AnimatedWithSource<T>(source: seq<SourceFrame<T>>) returns (frames: seq<T>, duration: nat)
    requires forall i :: 0 <= i < |source| ==> source[i].image.Some?
    requires AllPositive(DelaysOf(source))
    ensures duration == Sum(DelaysOf(source))
    ensures source == [] ==> frames == []
    ensures source != [] ==> frames == Expand(ImagesOf(source), DelaysOf(source), GcdOf(DelaysOf(source)))
  {
    var images, delays := CollectSource(source);
    duration := Duration(delays);
    var picFrameCounts := PicFrames(delays);
    frames := ReplicateFrames(images, delays, picFrameCounts);
  }

  /** The frame count times the common frame length is the whole duration: the
    * normalised animation keeps the timing of the source. */
  lemma FramesKeepDuration<T>(images: seq<T>, delays: seq<nat>)
    requires |images| == |delays| >= 1 && AllPositive(delays)
    ensures |Expand(images, delays, GcdOf(delays))| * GcdOf(delays) == Sum(delays)
  {
    GcdOfIsGreatest(delays);
    ExpandLength(images, delays, GcdOf(delays));
  }

  // ---------------------------------------------------------------------------
  // Pixels and rects
  // ---------------------------------------------------------------------------

  /** The byte offset the pixel subscript reads, as the source guards it:
    * `x > width` and `y > height` reject, so `x == width` and `y == height`
    * are let through. */
  function PixelOffsetAsWritten(width: int, height: int, x: int, y: int): Option<int>
  {
    if x < 0 || x > width || y < 0 || y > height then None
    else Some((width * y + x) * 4)
  }

  /** With the bottom-right corner `(width, height)` let through, the four bytes
    * read lie past the `width * height * 4` bytes of the bitmap. */
  lemma PixelOffsetAsWrittenOverruns(width: nat, height: nat)
    requires width > 0 && height > 0
    ensures PixelOffsetAsWritten(width, height, width, height).Some?
    ensures PixelOffsetAsWritten(width, height, width, height).value >= width * height * 4
  {
    assert (width * height + width) * 4 >= width * height * 4;
  }

  /** The byte offset read for pixel `(x, y)` of a `width x height` RGBA bitmap,
    * with the guards `x >= width` and `y >= height` the subscript needs: a pixel
    * inside the bitmap, and nothing else, gets the offset of its four bytes. */
  function PixelOffset(width: nat, height: nat, x: int, y: int): (r: Option<nat>)
    ensures r.Some? <==> 0 <= x < width && 0 <= y < height
    ensures r.Some? ==> r.value == (width * y + x) * 4 && r.value + 4 <= width * height * 4
  {
    if x < 0 || x >= width || y < 0 || y >= height then None
    else
      assert width * y + x < width * (y + 1) <= width * height;
      Some((width * y + x) * 4)
  }

  /** A colour as the subscript builds it: each byte divided by 255. */
  datatype Rgba = Rgba(red: real, green: real, blue: real, alpha: real)

  /** The colour at `(x, y)` of the bitmap `data`: its four bytes, each in
    * `[0, 1]` after the division. */
  function PixelAt(data: seq<nat>, width: nat, height: nat, x: int, y: int): (c: Option<Rgba>)
    requires |data| == width * height * 4
    requires forall i :: 0 <= i < |data| ==> data[i] < 256
    ensures c.Some? <==> PixelOffset(width, height, x, y).Some?
    ensures c.Some? ==> var o := PixelOffset(width, height, x, y).value;
      c.value == Rgba(data[o] as real / 255.0, data[o + 1] as real / 255.0,
                      data[o + 2] as real / 255.0, data[o + 3] as real / 255.0)
    ensures c.Some? ==> 0.0 <= c.value.red <= 1.0 && 0.0 <= c.value.alpha <= 1.0
  {
    match PixelOffset(width, height, x, y)
    case None => None
    case Some(o) =>
      Some(Rgba(data[o] as real / 255.0, data[o + 1] as real / 255.0,
                data[o + 2] as real / 255.0, data[o + 3] as real / 255.0))
  }

  /** The rect with its width and height exchanged. */
  function Swapped(rect: CGRect): CGRect
  {
    CGRect(rect.origin, CGSize(rect.size.height, rect.size.width))
  }

  /** `imageSwapSize(in:)` on the `inout` rect: width and height trade places and
    * the origin stays. */
  method ImageSwapSize(rect: CGRect) returns (r: CGRect)
    ensures r == Swapped(rect)
    ensures r.origin == rect.origin && r.size.width == rect.size.height && r.size.height == rect.size.width
  {
    r := rect;
    var swap := r.size.width;
    r := r.(size := r.size.(width := r.size.height));
    r := r.(size := r.size.(height := swap));
  }

  /** Swapping twice restores the rect. */
  lemma SwappedInvolution(rect: CGRect)
    ensures Swapped(Swapped(rect)) == rect
  {
  }
}
