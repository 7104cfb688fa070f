/** The pixel transcoder: RGBE quadruples (three mantissa bytes sharing one exponent
    byte) to linear float triples and back, and the layout of the pixel body. The
    floating-point operations whose rounding the model does not follow are the fields of
    a `FloatOps` value; everything else is computed exactly on reals. */
module RgbeTranscode {
  import opened ByteStream

  /** The four bytes of one stored pixel. */
  datatype Rgbe = Rgbe(r: Octet, g: Octet, b: Octet, e: Octet)

  /** One pixel of the float buffer (0.0 black, 1.0 white, above 1.0 over-range). */
  datatype Pixel = Pixel(r: real, g: real, b: real)

  /** The floating-point steps left abstract: `pow(x, 1.0 / GAMMA)` on decode,
      `math.ceil(math.log(v, 2))` on encode, and the rounding `clamp_int` applies before
      it clamps. */
  datatype FloatOps = FloatOps(gammaRoot: real -> real, ceilLog2: real -> int, round: real -> int)

  /** `pow(2, k)`, exact. */
  function Pow2(k: int): (p: real)
    ensures p > 0.0
    decreases if k < 0 then -k else k
  {
    if k == 0 then 1.0 else if k > 0 then 2.0 * Pow2(k - 1) else Pow2(k + 1) / 2.0
  }

  /** One decoded channel: `pow(m * scale, 1.0 / GAMMA) / 255.0`. */
  function DecodeChannel(ops: FloatOps, m: Octet, scale: real): real {
    ops.gammaRoot(m as real * scale) / 255.0
  }

  /** One pixel's decode: the exponent byte gives the scale `2^(e - 128 + 8)`, shared by
      the three channels, so equal mantissas give equal channels; a zero mantissa gives a
      zero channel when the gamma root of zero is zero. */
  function DecodePixel(ops: FloatOps, q: Rgbe): (p: Pixel)
    ensures q.r == q.g ==> p.r == p.g
    ensures q.g == q.b ==> p.g == p.b
    ensures ops.gammaRoot(0.0) == 0.0 ==>
      (q.r == 0 ==> p.r == 0.0) && (q.g == 0 ==> p.g == 0.0) && (q.b == 0 ==> p.b == 0.0)
  {
    var scale := Pow2(q.e - 128 + 8);
    Pixel(DecodeChannel(ops, q.r, scale), DecodeChannel(ops, q.g, scale), DecodeChannel(ops, q.b, scale))
  }

  /** `clamp_int(x, lo, hi)`: `x` rounded, then saturated into `[lo, hi]`. */
  function ClampInt(ops: FloatOps, x: real, lo: int, hi: int): (n: int)
    requires lo <= hi
    ensures lo <= n <= hi
    ensures lo <= ops.round(x) <= hi ==> n == ops.round(x)
  {
    var k := ops.round(x);
    if k < lo then lo else if k > hi then hi else k
  }

  function Max(a: real, b: real): real {
    if a < b then b else a
  }

  /** One pixel's encode. Each channel is raised to `GAMMA` (2.0, so squared); the
      largest of them picks the exponent, which is 0 when they are all zero and
      otherwise the ceiling of its base-2 logarithm; each channel is divided by
      `2^(e - 8)` and clamped to a byte, and the exponent byte is `e + 128`, clamped.
      Channels of equal magnitude get equal mantissas. */
  function EncodePixel(ops: FloatOps, p: Pixel): (q: Rgbe)
    ensures p.r * p.r == p.g * p.g ==> q.r == q.g
    ensures p.g * p.g == p.b * p.b ==> q.g == q.b
  {
    var r, g, b := p.r * p.r, p.g * p.g, p.b * p.b;
    var v := Max(r, Max(g, b));
    var e := if v != 0.0 then ops.ceilLog2(v) else 0;
    var s := Pow2(e - 8);
    Rgbe(ClampInt(ops, r / s, 0, 255), ClampInt(ops, g / s, 0, 255), ClampInt(ops, b / s, 0, 255),
         ClampInt(ops, (e + 128) as real, 0, 255))
  }

  /** The rounding leaves a value that already is an integer alone. */
  ghost predicate RoundKeepsIntegers(ops: FloatOps) {
    forall x: real {:trigger ops.round(x)} :: x.Floor as real == x ==> ops.round(x) == x.Floor
  }

  /** A black pixel takes the `v == 0` branch: exponent 0, stored as `(0, 0, 0, 128)`. */
  lemma EncodeBlack(ops: FloatOps)
    requires RoundKeepsIntegers(ops)
    ensures EncodePixel(ops, Pixel(0.0, 0.0, 0.0)) == Rgbe(0, 0, 0, 128)
  {
    var s := Pow2(-8);
    assert 0.0 / s == 0.0;
    assert (0.0).Floor == 0 && (128.0).Floor == 128;
  }

  /** A quadruple with zero mantissas decodes to black whatever its exponent, given that
      the gamma root of zero is zero. */
  lemma DecodeZeroMantissas(ops: FloatOps, e: Octet)
    requires ops.gammaRoot(0.0) == 0.0
    ensures DecodePixel(ops, Rgbe(0, 0, 0, e)) == Pixel(0.0, 0.0, 0.0)
  {
  }

  /** The stored bytes of pixel `i`: body bytes `4i` to `4i + 3`. */
  function QuadAt(body: Bytes, i: nat): Rgbe
    requires 4 * i + 3 < |body|
  {
    Rgbe(Ord(body[4 * i]), Ord(body[4 * i + 1]), Ord(body[4 * i + 2]), Ord(body[4 * i + 3]))
  }

  /** The float triple of pixel `i`: buffer slots `3i` to `3i + 2`. */
  function SlotsAt(data: seq<real>, i: nat): Pixel
    requires 3 * i + 2 < |data|
  {
    Pixel(data[3 * i], data[3 * i + 1], data[3 * i + 2])
  }

  /** The four bytes `struct.pack("BBBB", ...)` writes for one pixel. */
  function QuadBytes(q: Rgbe): (b: Bytes)
    ensures |b| == 4 && QuadAt(b, 0) == q
  {
    [Chr(q.r), Chr(q.g), Chr(q.b), Chr(q.e)]
  }

  /** A body of whole pixels read pixel by pixel with `dec`: slots `3i..3i+2` of the
      result are computed from body bytes `4i..4i+3` alone. */
  function UnpackPixels(dec: Rgbe -> Pixel, body: Bytes): (data: seq<real>)
    requires |body| % 4 == 0
    ensures |data| == 3 * (|body| / 4)
    ensures forall i :: 0 <= i < |body| / 4 ==> SlotsAt(data, i) == dec(QuadAt(body, i))
    decreases |body|
  {
    if body == [] then []
    else
      var rest := UnpackPixels(dec, body[4..]);
      var p := dec(QuadAt(body, 0));
      var data := [p.r, p.g, p.b] + rest;
      assert forall i :: 1 <= i < |body| / 4 ==>
        SlotsAt(data, i) == SlotsAt(rest, i - 1) && QuadAt(body, i) == QuadAt(body[4..], i - 1);
      data
  }

  /** A buffer of whole pixels written pixel by pixel with `enc`, each pixel's bytes
      after those of the pixels before it: exactly four bytes per pixel, and the bytes
      of pixel `i` are computed from its slots `3i..3i+2` alone. */
  function PackPixels(enc: Pixel -> Rgbe, data: seq<real>): (body: Bytes)
    requires |data| % 3 == 0
    ensures |body| == 4 * (|data| / 3)
    ensures forall i :: 0 <= i < |data| / 3 ==> QuadAt(body, i) == enc(SlotsAt(data, i))
    decreases |data|
  {
    if data == [] then []
    else
      var rest := PackPixels(enc, data[3..]);
      var body := QuadBytes(enc(SlotsAt(data, 0))) + rest;
      assert forall i :: 1 <= i < |data| / 3 ==>
        QuadAt(body, i) == QuadAt(rest, i - 1) && SlotsAt(data, i) == SlotsAt(data[3..], i - 1);
      body
  }

  /** Division facts about three slots per pixel. */
  lemma Thirds(k: nat)
    ensures (3 * k) % 3 == 0 && (3 * k) / 3 == k
  {
  }

  /** Division facts about four bytes per pixel. */
  lemma Quarters(k: nat)
    ensures (4 * k) % 4 == 0 && (4 * k) / 4 == k
  {
  }

  /** Packing one more pixel appends its four bytes. */
  lemma {:induction false} PackPixelsExtend(enc: Pixel -> Rgbe, data: seq<real>, i: nat)
    requires 3 * i + 2 < |data|
    ensures PackPixels(enc, data[..3 * (i + 1)])
         == PackPixels(enc, data[..3 * i]) + QuadBytes(enc(SlotsAt(data, i)))
    decreases i
  {
    var longer := data[..3 * (i + 1)];
    Thirds(i + 1);
    Thirds(i);
    if i == 0 {
      assert longer[3..] == [];
    } else {
      var shorter := data[..3 * i];
      var first := QuadBytes(enc(SlotsAt(data, 0)));
      var added := QuadBytes(enc(SlotsAt(data, i)));
      Thirds(i - 1);
      PackPixelsExtend(enc, data[3..], i - 1);
      assert SlotsAt(data[3..], i - 1) == SlotsAt(data, i);
      assert longer[3..] == data[3..][..3 * i];
      assert shorter[3..] == data[3..][..3 * (i - 1)];
      assert SlotsAt(longer, 0) == SlotsAt(data, 0) == SlotsAt(shorter, 0);
      var middle := PackPixels(enc, shorter[3..]);
      assert PackPixels(enc, longer) == first + (middle + added);
      assert PackPixels(enc, shorter) == first + middle;
      AppendAssociates(first, middle, added);
    }
  }

  /** The per-pixel conversions, as values the body layout is parameterised by. */
  function PixelDecoder(ops: FloatOps): Rgbe -> Pixel {
    q => DecodePixel(ops, q)
  }

  function PixelEncoder(ops: FloatOps): Pixel -> Rgbe {
    p => EncodePixel(ops, p)
  }

  /** The decode loop of the loader. */
  function DecodeBody(ops: FloatOps, body: Bytes): (data: seq<real>)
    requires |body| % 4 == 0
    ensures |data| == 3 * (|body| / 4)
    ensures forall i :: 0 <= i < |body| / 4 ==> SlotsAt(data, i) == DecodePixel(ops, QuadAt(body, i))
  {
    UnpackPixels(PixelDecoder(ops), body)
  }

  /** The encode loop of the writer. */
  function EncodeBody(ops: FloatOps, data: seq<real>): (body: Bytes)
    requires |data| % 3 == 0
    ensures |body| == 4 * (|data| / 3) && |body| % 4 == 0
    ensures forall i :: 0 <= i < |data| / 3 ==> QuadAt(body, i) == EncodePixel(ops, SlotsAt(data, i))
  {
    Quarters(|data| / 3);
    PackPixels(PixelEncoder(ops), data)
  }

  /** A float buffer of whole pixels is determined by its pixels. */
  lemma SlotsDetermine(a: seq<real>, b: seq<real>)
    requires |a| == |b| && |a| % 3 == 0
    requires forall i :: 0 <= i < |a| / 3 ==> SlotsAt(a, i) == SlotsAt(b, i)
    ensures a == b
  {
    forall k | 0 <= k < |a|
      ensures a[k] == b[k]
    {
      var i := k / 3;
      assert SlotsAt(a, i) == SlotsAt(b, i);
    }
  }
}
