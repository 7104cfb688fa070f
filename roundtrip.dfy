/** What the writer and the reader make of each other's output, and the reader's
    behaviour on headers the writer never produces. */
module HdrRoundTrip {
  import opened ByteStream
  import opened Decimal
  import opened RadianceHeader
  import opened RgbeTranscode
  import opened HdrImage

  /** `%d` of a non-negative number is its plain numeral. */
  lemma FormatIntOfNat(n: int)
    requires n >= 0
    ensures FormatInt(n) == FormatNat(n)
  {
  }

  /** The resolution line the writer emits is the canonical match of the pattern. */
  lemma SizeTextCanonical(width: nat, height: nat)
    ensures SizeText(width, height) == Assemble(CanonicalSize(width, height))
  {
    FormatIntOfNat(width);
    FormatIntOfNat(height);
    var yAxis: Bytes := "-Y ";
    var xAxis: Bytes := " +X ";
    var front := yAxis + FormatNat(height) + xAxis;
    assert front == ['-', 'Y', ' '] + FormatNat(height) + [' ', '+', 'X', ' '];
    AppendAssociates(front, FormatNat(width), BlankText);
  }

  /** A line of the resolution shape is classified as one, whatever its separators. */
  lemma SizeLineClassified(m: SizeMatch)
    requires WellFormed(m)
    ensures Classify(Assemble(m)) == SizeLine(m)
  {
    var line := Assemble(m);
    assert line[2] == m.sep1;
    var signature: Bytes := "#?RADIANCE";
    assert signature[2] == 'R';
    assert line != signature && line != signature + "\n";
    MatchSizeComplete(m);
  }

  /** The canonical resolution line is one complete line. */
  lemma CanonicalSizeIsLine(width: nat, height: nat)
    ensures IsLine(Assemble(CanonicalSize(width, height)))
  {
    var line := Assemble(CanonicalSize(width, height));
    var h := FormatNat(height);
    var w := FormatNat(width);
    assert line == ['-', 'Y', ' '] + h + [' ', '+', 'X', ' '] + w + ['\n'];
    forall i | 0 <= i < |line| - 1
      ensures line[i] != '\n'
    {
      if 3 <= i < 3 + |h| {
        assert line[i] == h[i - 3];
      } else if 7 + |h| <= i {
        assert line[i] == w[i - 7 - |h|];
      }
    }
  }

  /** What the scan knows once it has read the writer's header. */
  function SavedState(width: int, height: int): ScanState {
    ScanState(true, false, false, false, width, height)
  }

  /** The writer's fixed lines are complete lines of the kinds the scan reads past. */
  lemma SignatureClassified()
    ensures IsLine(SignatureText) && Classify(SignatureText) == SignatureLine
  {
  }

  lemma FormatClassified()
    ensures IsLine(FormatText) && Classify(FormatText) == IgnoredEntry
  {
    assert FormatText[2] == 'R';
    assert FormatText[..7] == "FORMAT=";
  }

  lemma BlankClassified()
    ensures IsLine(BlankText) && Classify(BlankText) == Blank
  {
  }

  /** The header followed by anything, regrouped line by line. */
  lemma HeaderLines(width: int, height: int, body: Bytes)
    ensures HeaderText(width, height) + body
         == SignatureText + (FormatText + (BlankText + (SizeText(width, height) + body)))
  {
    var size := SizeText(width, height);
    AppendAssociates(BlankText, size, body);
    AppendAssociates(FormatText, BlankText + size, body);
    AppendAssociates(FormatText, BlankText, size);
    AppendAssociates(SignatureText, FormatText + BlankText + size, body);
    AppendAssociates(SignatureText, FormatText + BlankText, size);
    AppendAssociates(SignatureText, FormatText, BlankText);
  }

  /** The writer's header is read line by line as the signature, an ignored entry, a
      blank line and the resolution line, which leaves the scan with the signature seen,
      the written dimensions and no flag, and goes on at the first byte after it. */
  lemma {:induction false} HeaderScan(width: nat, height: nat, body: Bytes)
    ensures Scan(HeaderText(width, height) + body) == ScanFrom(body, SavedState(width, height))
  {
    var size := Assemble(CanonicalSize(width, height));
    SizeTextCanonical(width, height);
    CanonicalSizeIsLine(width, height);
    SizeLineClassified(CanonicalSize(width, height));
    CanonicalSizeDecodes(width, height);
    HeaderLines(width, height, body);
    SignatureClassified();
    FormatClassified();
    BlankClassified();
    var rest3 := size + body;
    var rest2 := BlankText + rest3;
    var rest1 := FormatText + rest2;
    var signed := Unscanned.(signature := true);
    ScanPastLine(SignatureText, rest1, Unscanned);
    ScanPastLine(FormatText, rest2, signed);
    ScanPastLine(BlankText, rest3, signed);
    ScanPastLine(size, body, signed);
  }

  /** The writer's output for a picture that passes its checks. */
  lemma SaveAccepts(img: Image, filename: string, ops: FloatOps)
    requires |img.data| == 3 * (img.width * img.height)
    requires EndsWith(filename, ".hdr") && !(img.rotated || img.xFlipped || img.yFlipped)
    ensures SaveSpec(img, filename, ops) == Ok(HeaderText(img.width, img.height) + EncodeBody(ops, img.data))
  {
    Regroup(3, img.width, img.height);
  }

  /** The reader's result when all its checks pass. */
  lemma CheckBodyAccepts(st: ScanState, body: Bytes, ops: FloatOps)
    requires st.signature && !(st.rotated || st.xFlipped || st.yFlipped)
    requires |body| == 4 * (st.width * st.height) > 0
    ensures CheckBody(st, body, ops) == Ok(Image(st.width, st.height, false, false, false, DecodeBody(ops, body)))
  {
    Regroup(4, st.width, st.height);
  }

  /** Loading what the writer saved gives back the dimensions, no flags, and in every
      pixel the decode of its own encode, provided the encoded pixels do not begin with
      a line the header scan would read past (for instance a first byte `\n`). */
  lemma SaveThenLoad(img: Image, filename: string, ops: FloatOps)
    requires img.width > 0 && img.height > 0 && |img.data| == 3 * (img.width * img.height)
    requires EndsWith(filename, ".hdr") && !(img.rotated || img.xFlipped || img.yFlipped)
    requires StopsScan(EncodeBody(ops, img.data))
    ensures var saved := SaveSpec(img, filename, ops);
      && saved.Ok?
      && LoadSpec(saved.value, ops)
         == Ok(Image(img.width, img.height, false, false, false, DecodeBody(ops, EncodeBody(ops, img.data))))
  {
    var w, h := img.width, img.height;
    Thirds(w * h);
    var body := EncodeBody(ops, img.data);
    SaveAccepts(img, filename, ops);
    HeaderScan(w, h, body);
    ScanStopsAtData(body, SavedState(w, h));
    assert LoadSpec(HeaderText(w, h) + body, ops) == CheckBody(SavedState(w, h), body, ops);
    PositiveArea(w, h);
    CheckBodyAccepts(SavedState(w, h), body, ops);
  }

  /** Pixel by pixel, the round trip through the file is the decode of the encode. */
  lemma SaveThenLoadPixels(img: Image, filename: string, ops: FloatOps, i: nat)
    requires img.width > 0 && img.height > 0 && |img.data| == 3 * (img.width * img.height)
    requires EndsWith(filename, ".hdr") && !(img.rotated || img.xFlipped || img.yFlipped)
    requires StopsScan(EncodeBody(ops, img.data))
    requires i < img.width * img.height
    ensures SaveSpec(img, filename, ops).Ok?
    ensures var loaded := LoadSpec(SaveSpec(img, filename, ops).value, ops);
      && loaded.Ok? && 3 * i + 2 < |loaded.value.data|
      && SlotsAt(loaded.value.data, i) == DecodePixel(ops, EncodePixel(ops, SlotsAt(img.data, i)))
  {
    Thirds(img.width * img.height);
    SaveThenLoad(img, filename, ops);
    var body := EncodeBody(ops, img.data);
    assert QuadAt(body, i) == EncodePixel(ops, SlotsAt(img.data, i));
  }

  /** A line that begins with a NUL byte is no header entry the scan ignores. */
  lemma NulLineNotIgnored(line: Bytes)
    requires |line| > 0 && line[0] == 0 as char
    ensures !IsIgnoredEntry(line)
  {
  }

  /** A line whose first and third bytes are NUL is pixel data to the scan. */
  lemma NulLineIsData(line: Bytes)
    requires |line| >= 3 && line[0] == 0 as char && line[2] == 0 as char
    ensures Classify(line) == PixelData
  {
    assert MatchSize(line) == None;
    NulLineNotIgnored(line);
  }

  /** The pixels of a black picture are all stored as `(0, 0, 0, 128)`: four bytes per
      pixel, none of them `\n`, and the first and third NUL. */
  lemma BlackBodyBytes(ops: FloatOps, n: nat)
    requires RoundKeepsIntegers(ops) && n > 0
    ensures var body := EncodeBody(ops, seq(3 * n, _ => 0.0));
      |body| == 4 * n && NoNewline(body) && body[0] == 0 as char && body[2] == 0 as char
  {
    var data := seq(3 * n, _ => 0.0);
    Thirds(n);
    var body := EncodeBody(ops, data);
    EncodeBlack(ops);
    forall k | 0 <= k < |body|
      ensures body[k] != '\n'
    {
      var i := k / 4;
      assert SlotsAt(data, i) == Pixel(0.0, 0.0, 0.0);
      assert QuadAt(body, i) == Rgbe(0, 0, 0, 128);
    }
    assert SlotsAt(data, 0) == Pixel(0.0, 0.0, 0.0);
    assert QuadAt(body, 0) == Rgbe(0, 0, 0, 128);
  }

  /** So the scan reads a black picture's pixels as one line, which it does not
      recognise, and stops. */
  lemma BlackPixelsStopScan(ops: FloatOps, n: nat)
    requires RoundKeepsIntegers(ops) && n > 0
    ensures StopsScan(EncodeBody(ops, seq(3 * n, _ => 0.0)))
  {
    var body := EncodeBody(ops, seq(3 * n, _ => 0.0));
    BlackBodyBytes(ops, n);
    ReadLineWithoutNewline(body);
    NulLineIsData(body);
  }

  /** Black pixels decode back to black. */
  lemma BlackDecodes(ops: FloatOps, n: nat)
    requires RoundKeepsIntegers(ops) && ops.gammaRoot(0.0) == 0.0
    ensures var data := seq(3 * n, _ => 0.0);
      DecodeBody(ops, EncodeBody(ops, data)) == data
  {
    var data := seq(3 * n, _ => 0.0);
    Thirds(n);
    var loaded := DecodeBody(ops, EncodeBody(ops, data));
    EncodeBlack(ops);
    DecodeZeroMantissas(ops, 128);
    forall i | 0 <= i < n
      ensures SlotsAt(loaded, i) == SlotsAt(data, i)
    {
      assert SlotsAt(data, i) == Pixel(0.0, 0.0, 0.0);
    }
    SlotsDetermine(loaded, data);
  }

  /** A black picture survives a save and a load unchanged, given only that rounding
      keeps integers and that the gamma root of zero is zero. */
  lemma BlackRoundTrip(width: int, height: int, filename: string, ops: FloatOps)
    requires width > 0 && height > 0 && EndsWith(filename, ".hdr")
    requires RoundKeepsIntegers(ops) && ops.gammaRoot(0.0) == 0.0
    ensures SaveSpec(Black(width, height), filename, ops).Ok?
    ensures LoadSpec(SaveSpec(Black(width, height), filename, ops).value, ops) == Ok(Black(width, height))
  {
    var n := width * height;
    PositiveArea(width, height);
    Regroup(3, width, height);
    var img := Black(width, height);
    assert img.data == seq(3 * n, _ => 0.0);
    BlackPixelsStopScan(ops, n);
    SaveThenLoad(img, filename, ops);
    BlackDecodes(ops, n);
  }
}
