/** The HDR picture: a flat buffer of `3 * width * height` floats with its dimensions
    and orientation flags, the pixel accessors, and the codec's two directions: loading
    a Radiance file and saving one. */
module HdrImage {
  import opened ByteStream
  import opened Decimal
  import opened RadianceHeader
  import opened RgbeTranscode

  /** The assertions the codec can fail. */
  datatype HdrError =
    | InvalidHeader              // load: no signature line was seen
    | InvalidDimensions          // load: the body is empty or not 4 bytes per declared pixel
    | FlipOrRotationUnsupported  // load and save: an orientation flag is set
    | InvalidImage               // save: the buffer length invariant does not hold
    | NotHdrFilename             // save: the file name does not end in `.hdr`
    | PixelOutOfRange            // pixel access: a coordinate outside the picture
    | IndexOutOfRange            // pixel access: a slot past the end of the buffer

  datatype Result<T> = Ok(value: T) | Err(error: HdrError)

  /** The value of a picture. */
  datatype Image = Image(
    width: int, height: int, rotated: bool, xFlipped: bool, yFlipped: bool, data: seq<real>)

  /** The slot count `[0.0] * (3 * width * height)` yields (none for a negative product). */
  function BlackLength(width: int, height: int): (n: nat)
    ensures width * height >= 0 ==> n == 3 * (width * height)
    ensures width * height < 0 ==> n == 0
  {
    Regroup(3, width, height);
    var n := 3 * width * height;
    if n < 0 then 0 else n
  }

  /** A black picture of the given dimensions: no flag, every pixel black, and valid
      exactly when the product of the dimensions is not negative. */
  function Black(width: int, height: int): (r: Image)
    ensures r.width == width && r.height == height && !(r.rotated || r.xFlipped || r.yFlipped)
    ensures 3 * r.width * r.height == |r.data| <==> width * height >= 0
    ensures forall i :: 0 <= i < |r.data| / 3 ==> SlotsAt(r.data, i) == Pixel(0.0, 0.0, 0.0)
  {
    Regroup(3, width, height);
    Image(width, height, false, false, false, seq(BlackLength(width, height), _ => 0.0))
  }

  /** The row-major index of pixel `(x, y)`; its slots are `3i..3i+2`. */
  function PixelIndex(width: int, x: int, y: int): int {
    y * width + x
  }

  /** `k * a * b`, as Python groups it, is `k` times the product `a * b`. */
  lemma Regroup(k: int, a: int, b: int)
    ensures k * a * b == k * (a * b)
  {
  }

  lemma PositiveArea(width: int, height: int)
    requires width > 0 && height > 0
    ensures width * height > 0
  {
  }

  /** A pixel inside the picture lies inside the buffer of a valid picture. */
  lemma PixelIndexInRange(x: int, y: int, width: int, height: int)
    requires 0 <= x < width && 0 <= y < height
    ensures 0 <= PixelIndex(width, x, y) < width * height
    ensures 3 * PixelIndex(width, x, y) + 2 < 3 * width * height
  {
    assert y * width <= (height - 1) * width;
    Regroup(3, width, height);
  }

  /** Distinct coordinates inside a row width name distinct pixels, so their slots
      `3i..3i+2` do not overlap. */
  lemma PixelIndexDistinct(x: int, y: int, x': int, y': int, width: int)
    requires 0 <= x < width && 0 <= y && 0 <= x' < width && 0 <= y'
    requires x != x' || y != y'
    ensures PixelIndex(width, x, y) != PixelIndex(width, x', y')
  {
    if y < y' {
      assert y' * width >= (y + 1) * width;
    } else if y' < y {
      assert y * width >= (y' + 1) * width;
    }
  }

  /** Component `j` of a pixel, as `pixel[j]` reads it. */
  function Component(p: Pixel, j: int): real {
    if j == 0 then p.r else if j == 1 then p.g else p.b
  }

  /** What the loader makes of the scan's outcome: check in turn that the signature was
      seen, that the body is non-empty and holds exactly four bytes per declared pixel,
      and that no orientation flag is set; then decode the body. It succeeds exactly
      when all three checks pass, and the signature check comes first. A loaded picture is
      valid, has the declared dimensions and no flag, and its slots `3i..3i+2` come
      from body bytes `4i..4i+3`. */
  function CheckBody(st: ScanState, body: Bytes, ops: FloatOps): (r: Result<Image>)
    ensures r.Ok? <==>
      st.signature && 4 * st.width * st.height == |body| > 0 && !(st.rotated || st.xFlipped || st.yFlipped)
    ensures !st.signature ==> r == Err(InvalidHeader)
    ensures st.signature && !(4 * st.width * st.height == |body| > 0) ==> r == Err(InvalidDimensions)
    ensures st.signature && 4 * st.width * st.height == |body| > 0 && (st.rotated || st.xFlipped || st.yFlipped)
      ==> r == Err(FlipOrRotationUnsupported)
    ensures r.Ok? ==> r.value.width == st.width && r.value.height == st.height
    ensures r.Ok? ==> 3 * r.value.width * r.value.height == |r.value.data| > 0
    ensures r.Ok? ==> !(r.value.rotated || r.value.xFlipped || r.value.yFlipped)
    ensures r.Ok? ==>
      |body| == 4 * (|r.value.data| / 3) &&
      forall i :: 0 <= i < |body| / 4 ==> SlotsAt(r.value.data, i) == DecodePixel(ops, QuadAt(body, i))
  {
    if !st.signature then Err(InvalidHeader)
    else if !(4 * st.width * st.height == |body| && |body| > 0) then Err(InvalidDimensions)
    else if st.rotated || st.xFlipped || st.yFlipped then Err(FlipOrRotationUnsupported)
    else
      Regroup(4, st.width, st.height);
      Regroup(3, st.width, st.height);
      Ok(Image(st.width, st.height, st.rotated, st.xFlipped, st.yFlipped, DecodeBody(ops, body)))
  }

  /** The load pipeline on a whole stream: scan the header, then check and decode. */
  function LoadSpec(s: Bytes, ops: FloatOps): (r: Result<Image>)
    ensures r.Ok? ==> Scan(s).state.signature && 3 * r.value.width * r.value.height == |r.value.data| > 0
    ensures r.Ok? ==>
      var n := |r.value.data| / 3;
      && 4 * n <= |s|
      && forall i :: 0 <= i < n ==> SlotsAt(r.value.data, i) == DecodePixel(ops, QuadAt(s[|s| - 4 * n..], i))
  {
    var scanned := Scan(s);
    CheckBody(scanned.state, scanned.body, ops)
  }

  /** A body of four bytes per pixel holds whole pixels. */
  lemma WholeQuads(body: Bytes, n: int)
    requires |body| == 4 * n
    ensures |body| % 4 == 0 && |body| / 4 == n
  {
  }

  /** The lines the writer puts before the pixels: the signature, the format entry,
      the blank line that ends the entries, and the resolution line. */
  const SignatureText: Bytes := "#?RADIANCE\n"
  const FormatText: Bytes := "FORMAT=32-bit_rle_rgbe\n"
  const BlankText: Bytes := "\n"

  /** `'-Y %d +X %d\n' % (height, width)`. */
  function SizeText(width: int, height: int): Bytes {
    var yAxis: Bytes := "-Y ";
    var xAxis: Bytes := " +X ";
    yAxis + FormatInt(height) + xAxis + FormatInt(width) + "\n"
  }

  /** The header starts with the signature line and ends with a complete line, so the
      pixels start at the beginning of a line. */
  function HeaderText(width: int, height: int): (r: Bytes)
    ensures StartsWith(r, SignatureText) && r[|r| - 1] == '\n'
  {
    SignatureText + FormatText + BlankText + SizeText(width, height)
  }

  predicate EndsWith(name: string, suffix: string) {
    |suffix| <= |name| && name[|name| - |suffix|..] == suffix
  }

  /** The save pipeline on a picture's value: check validity, the file name and the
      flags, then write the fixed header and four bytes per pixel, those of pixel `i`
      encoding its slots `3i..3i+2`. */
  function SaveSpec(img: Image, filename: string, ops: FloatOps): (r: Result<Bytes>)
    ensures 3 * img.width * img.height != |img.data| ==> r == Err(InvalidImage)
    ensures 3 * img.width * img.height == |img.data| && !EndsWith(filename, ".hdr") ==> r == Err(NotHdrFilename)
    ensures (3 * img.width * img.height == |img.data| && EndsWith(filename, ".hdr")
             && (img.rotated || img.xFlipped || img.yFlipped)) ==> r == Err(FlipOrRotationUnsupported)
    ensures r.Ok? ==> 3 * img.width * img.height == |img.data|
    ensures r.Ok? ==> EndsWith(filename, ".hdr") && !(img.rotated || img.xFlipped || img.yFlipped)
    ensures r.Ok? ==> |r.value| == |HeaderText(img.width, img.height)| + 4 * img.width * img.height
    ensures r.Ok? ==>
      var head := HeaderText(img.width, img.height);
      && |r.value| == |head| + 4 * (|img.data| / 3)
      && |head| <= |r.value| && r.value[..|head|] == head
      && forall i :: 0 <= i < |img.data| / 3 ==>
           QuadAt(r.value[|head|..], i) == EncodePixel(ops, SlotsAt(img.data, i))
  {
    if 3 * img.width * img.height != |img.data| then Err(InvalidImage)
    else if !EndsWith(filename, ".hdr") then Err(NotHdrFilename)
    else if img.rotated || img.xFlipped || img.yFlipped then Err(FlipOrRotationUnsupported)
    else
      Regroup(3, img.width, img.height);
      Regroup(4, img.width, img.height);
      Thirds(img.width * img.height);
      var head := HeaderText(img.width, img.height);
      var out := head + EncodeBody(ops, img.data);
      assert out[|head|..] == EncodeBody(ops, img.data);
      Ok(out)
  }

  /** An HDR picture as an object whose fields the codec updates in place. */
  class Hdr {
    var data: array<real>
    var width: int
    var height: int
    var xFlipped: bool
    var yFlipped: bool
    var rotated: bool

    /** The picture's current value. */
    function View(): Image
      reads this, data
    {
      Image(width, height, rotated, xFlipped, yFlipped, data[..])
    }

    /** `HDR()`: no pixels, dimensions -1, no flags; such a picture is not valid. */
    constructor ()
      ensures fresh(data)
      ensures View() == Image(-1, -1, false, false, false, [])
      ensures !IsValid()
    {
      data := new real[0];
      width := -1;
      height := -1;
      xFlipped := false;
      yFlipped := false;
      rotated := false;
    }

    /** `is_valid`: the buffer holds three floats per pixel. */
    predicate IsValid()
      reads this
      ensures IsValid() ==> width * height >= 0 && data.Length == 3 * (width * height)
    {
      Regroup(3, width, height);
      3 * width * height == data.Length
    }

    /** `create_black_image`: a fresh black picture of the given dimensions, valid
        exactly when the product of the dimensions is not negative. */
    static method CreateBlackImage(width: int, height: int) returns (hdr: Hdr)
      ensures fresh(hdr) && fresh(hdr.data)
      ensures hdr.View() == Black(width, height)
      ensures hdr.IsValid() <==> width * height >= 0
    {
      hdr := new Hdr();
      hdr.width := width;
      hdr.height := height;
      hdr.data := new real[BlackLength(width, height)](_ => 0.0);
      Regroup(3, width, height);
    }

    /** `get_pixel`: inside the picture, the three slots of pixel `y * width + x`; the
        slots are always there in a valid picture. */
    function GetPixel(x: int, y: int): (r: Result<Pixel>)
      reads this, data
      ensures r.Err? && r.error == PixelOutOfRange <==> !(0 <= x < width && 0 <= y < height)
      ensures IsValid() && 0 <= x < width && 0 <= y < height ==> r.Ok?
      ensures r.Ok? ==>
        && 0 <= PixelIndex(width, x, y) && 3 * PixelIndex(width, x, y) + 2 < data.Length
        && r.value == SlotsAt(data[..], PixelIndex(width, x, y))
    {
      if !(0 <= x < width && 0 <= y < height) then Err(PixelOutOfRange)
      else
        PixelIndexInRange(x, y, width, height);
        var i := 3 * PixelIndex(width, x, y);
        if i + 2 < data.Length then Ok(Pixel(data[i], data[i + 1], data[i + 2]))
        else Err(IndexOutOfRange)
    }

    /** `set_pixel`: inside the picture, overwrite the three slots of pixel
        `y * width + x` in turn, stopping at the first one past the end of the buffer;
        no other slot, and neither the dimensions nor the flags, change. */
    method SetPixel(x: int, y: int, pixel: Pixel) returns (r: Result<()>)
      modifies data
      ensures !(0 <= x < width && 0 <= y < height) ==> r == Err(PixelOutOfRange) && data[..] == old(data[..])
      ensures 0 <= x < width && 0 <= y < height ==>
        var i := 3 * PixelIndex(width, x, y);
        && (r.Ok? <==> i + 2 < data.Length)
        && (r.Err? ==> r.error == IndexOutOfRange)
        && forall k :: 0 <= k < data.Length ==>
             data[k] == if i <= k < i + 3 then Component(pixel, k - i) else old(data[k])
      ensures IsValid() == old(IsValid())
      ensures IsValid() && 0 <= x < width && 0 <= y < height ==> r.Ok? && GetPixel(x, y) == Ok(pixel)
      ensures forall x', y' :: x' != x || y' != y ==> GetPixel(x', y') == old(GetPixel(x', y'))
    {
      if !(0 <= x < width && 0 <= y < height) {
        return Err(PixelOutOfRange);
      }
      PixelIndexInRange(x, y, width, height);
      var i := 3 * PixelIndex(width, x, y);
      forall x', y' | 0 <= x' < width && 0 <= y' < height && (x' != x || y' != y)
        ensures PixelIndex(width, x', y') != PixelIndex(width, x, y)
      {
        PixelIndexDistinct(x', y', x, y, width);
      }
      if i >= data.Length {
        return Err(IndexOutOfRange);
      }
      data[i] := pixel.r;
      if i + 1 >= data.Length {
        return Err(IndexOutOfRange);
      }
      data[i + 1] := pixel.g;
      if i + 2 >= data.Length {
        return Err(IndexOutOfRange);
      }
      data[i + 2] := pixel.b;
      return Ok(());
    }

    /** The pixel loop of `save`, with `enc` the conversion of one pixel: four bytes
        per pixel, in pixel order. */
    static method WritePixels(data: array<real>, n: nat, enc: Pixel -> Rgbe) returns (written: Bytes)
      requires 3 * n == data.Length
      ensures written == PackPixels(enc, data[..])
    {
      written := [];
      var i := 0;
      while i < n
        invariant 0 <= i <= n
        invariant written == PackPixels(enc, data[..3 * i])
      {
        var p := Pixel(data[3 * i], data[3 * i + 1], data[3 * i + 2]);
        assert p == SlotsAt(data[..], i);
        PackPixelsExtend(enc, data[..], i);
        written := written + QuadBytes(enc(p));
        i := i + 1;
      }
      assert data[..3 * n] == data[..];
    }

    /** `save`: the bytes written to the file, or the assertion that fails. */
    method Save(filename: string, ops: FloatOps) returns (r: Result<Bytes>)
      ensures r == SaveSpec(View(), filename, ops)
    {
      if !IsValid() {
        return Err(InvalidImage);
      }
      if !EndsWith(filename, ".hdr") {
        return Err(NotHdrFilename);
      }
      if rotated || xFlipped || yFlipped {
        return Err(FlipOrRotationUnsupported);
      }
      var out := SignatureText;
      out := out + FormatText;
      out := out + BlankText;
      out := out + SizeText(width, height);
      Regroup(3, width, height);
      var pixels := WritePixels(data, width * height, PixelEncoder(ops));
      out := out + pixels;
      return Ok(out);
    }

    /** The fields the header scan sets, with the signature flag it keeps aside. */
    function ScanView(signature: bool): ScanState
      reads this
    {
      ScanState(signature, rotated, xFlipped, yFlipped, width, height)
    }

    /** The field updates of a resolution line, which set all five fields it declares. */
    method SetResolution(res: Resolution)
      modifies this
      ensures data == old(data)
      ensures forall sig :: ScanView(sig) == old(ScanView(sig)).(
        rotated := res.rotated, xFlipped := res.xFlipped, yFlipped := res.yFlipped,
        width := res.width, height := res.height)
    {
      rotated := res.rotated;
      xFlipped := res.xFlipped;
      yFlipped := res.yFlipped;
      width := res.width;
      height := res.height;
    }

    /** The effect of one header line the scan reads past: the signature sets the flag
        kept aside, a resolution line sets the five fields it declares, and the other
        kinds change nothing. */
    static method ReadPast(hdr: Hdr, header: bool, line: Bytes) returns (seen: bool)
      modifies hdr
      ensures hdr.data == old(hdr.data)
      ensures hdr.ScanView(seen) == Absorb(old(hdr.ScanView(header)), Classify(line))
    {
      seen := header;
      match Classify(line)
      case SignatureLine => seen := true;
      case SizeLine(m) => hdr.SetResolution(DecodeResolution(m));
      case _ =>
    }

    /** The header loop of `load_from_file`: read lines until end of stream or a line
        of no recognised kind, setting the picture's flags and dimensions at each
        resolution line; the body is that last line and the rest of the stream. */
    static method ScanHeader(s: Bytes, hdr: Hdr) returns (header: bool, body: Bytes)
      modifies hdr
      ensures hdr.data == old(hdr.data)
      ensures ScanFrom(s, old(hdr.ScanView(false))) == Scanned(hdr.ScanView(header), body)
    {
      ghost var scanned := ScanFrom(s, hdr.ScanView(false));
      header := false;
      var unread := s;
      while true
        invariant hdr.data == old(hdr.data)
        invariant ScanFrom(unread, hdr.ScanView(header)) == scanned
        decreases |unread|
      {
        ScanStep(unread, hdr.ScanView(header));
        var (line, rest) := ReadLine(unread);
        // An empty line is the end of the stream, where the source's loop ends too.
        if line == [] || Classify(line) == PixelData {
          body := line + rest;
          break;
        }
        header := ReadPast(hdr, header, line);
        unread := rest;
      }
    }

    /** The conversion loop of `load_from_file`, with `dec` the conversion of one
        pixel: a fresh buffer of three slots per pixel, filled pixel by pixel from the
        body. */
    static method ReadPixels(body: Bytes, dec: Rgbe -> Pixel) returns (data: array<real>)
      requires |body| % 4 == 0
      ensures fresh(data)
      ensures data[..] == UnpackPixels(dec, body)
    {
      var n := |body| / 4;
      ghost var unpacked := UnpackPixels(dec, body);
      // The source zero-fills the buffer first; the loop overwrites every slot, so the
      // initial contents are not observable and are left to the allocator.
      data := new real[3 * n];
      for i := 0 to n
        invariant forall k :: 0 <= k < 3 * i ==> data[k] == unpacked[k]
      {
        var p := dec(QuadAt(body, i));
        assert p == SlotsAt(unpacked, i);
        data[3 * i] := p.r;
        data[3 * i + 1] := p.g;
        data[3 * i + 2] := p.b;
      }
      assert data[..] == unpacked;
    }

    /** The checks and the conversion loop that end `load_from_file`, on the object the
        header scan filled in: the error `CheckBody` names, or the same object holding
        the picture `CheckBody` describes in a fresh buffer. */
    static method CheckAndDecode(hdr: Hdr, header: bool, body: Bytes, ops: FloatOps) returns (r: Result<Hdr>)
      modifies hdr
      ensures CheckBody(old(hdr.ScanView(header)), body, ops).Err? ==>
        r == Err(CheckBody(old(hdr.ScanView(header)), body, ops).error)
      ensures CheckBody(old(hdr.ScanView(header)), body, ops).Ok? ==>
        r == Ok(hdr) && fresh(hdr.data) && hdr.View() == CheckBody(old(hdr.ScanView(header)), body, ops).value
    {
      if !header {
        return Err(InvalidHeader);
      }
      if !(4 * hdr.width * hdr.height == |body| && |body| > 0) {
        return Err(InvalidDimensions);
      }
      if hdr.rotated || hdr.xFlipped || hdr.yFlipped {
        return Err(FlipOrRotationUnsupported);
      }
      Regroup(4, hdr.width, hdr.height);
      WholeQuads(body, hdr.width * hdr.height);
      hdr.data := ReadPixels(body, PixelDecoder(ops));
      return Ok(hdr);
    }

    /** `load_from_file` on the stream `s`: the picture `LoadSpec` describes, in a fresh
        object, or the error it names. */
    static method LoadFromFile(s: Bytes, ops: FloatOps) returns (r: Result<Hdr>)
      ensures LoadSpec(s, ops).Err? ==> r == Err(LoadSpec(s, ops).error)
      ensures LoadSpec(s, ops).Ok? ==>
        r.Ok? && fresh(r.value) && fresh(r.value.data) && r.value.View() == LoadSpec(s, ops).value
    {
      var hdr := new Hdr();
      assert hdr.ScanView(false) == Unscanned;
      var header, body := ScanHeader(s, hdr);
      r := CheckAndDecode(hdr, header, body, ops);
    }
  }
}
