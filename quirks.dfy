/** How the reader treats headers the writer never produces, and the writer's outputs
    that it fails to read back. The reader keeps scanning after the resolution line, needs
    the signature whatever else the header holds, accepts a header without a resolution
    line when the body is exactly four bytes, and refuses any orientation flag. It can
    take the writer's first pixels for a header line, and it refuses what the writer makes
    of a picture with no pixels or with a negative height. */
module HeaderQuirks {
  import opened ByteStream
  import opened Decimal
  import opened RadianceHeader
  import opened RgbeTranscode
  import opened HdrImage
  import opened HdrRoundTrip

  /** A resolution line does not end the scan, and a second one replaces every field the
      first set: only the last resolution line of a header counts. */
  lemma LaterSizeLineWins(first: SizeMatch, second: SizeMatch, rest: Bytes, st: ScanState)
    requires WellFormed(first) && IsLine(Assemble(first))
    requires WellFormed(second) && IsLine(Assemble(second))
    ensures ScanFrom(Assemble(first) + (Assemble(second) + rest), st)
         == ScanFrom(rest, Absorb(st, SizeLine(second)))
  {
    SizeLineClassified(first);
    SizeLineClassified(second);
    ScanPastLine(Assemble(first), Assemble(second) + rest, st);
    ScanPastLine(Assemble(second), rest, Absorb(st, SizeLine(first)));
  }

  /** The scan goes on after the writer's resolution line, so pixels whose first byte is
      `\n` (a red mantissa of 10) are taken for a blank header line: the byte is dropped,
      the body comes out one byte short, and the file is refused as having invalid
      dimensions. */
  lemma LeadingNewlineSwallowed(width: nat, height: nat, body: Bytes, ops: FloatOps)
    requires |body| == 4 * (width * height) && |body| > 0 && body[0] == '\n'
    requires StopsScan(body[1..])
    ensures Scan(HeaderText(width, height) + body) == Scanned(SavedState(width, height), body[1..])
    ensures LoadSpec(HeaderText(width, height) + body, ops) == Err(InvalidDimensions)
  {
    HeaderScan(width, height, body);
    BlankClassified();
    assert body == BlankText + body[1..];
    ScanPastLine(BlankText, body[1..], SavedState(width, height));
    ScanStopsAtData(body[1..], SavedState(width, height));
    Regroup(4, width, height);
  }

  /** Whatever the resolution line says, a header without the signature is refused. */
  lemma SignatureRequired(width: nat, height: nat, body: Bytes, ops: FloatOps)
    requires StopsScan(body)
    ensures LoadSpec(SizeText(width, height) + body, ops) == Err(InvalidHeader)
  {
    SizeTextCanonical(width, height);
    CanonicalSizeIsLine(width, height);
    SizeLineClassified(CanonicalSize(width, height));
    ScanPastLine(SizeText(width, height), body, Unscanned);
    ScanStopsAtData(body, Absorb(Unscanned, SizeLine(CanonicalSize(width, height))));
  }

  /** Without a resolution line the dimensions stay -1 by -1, whose product with 4 is 4:
      the signature followed by a single pixel is accepted as a one-pixel picture of
      width and height -1. */
  lemma MissingResolutionAccepted(pixel: Bytes, ops: FloatOps)
    requires |pixel| == 4 && StopsScan(pixel)
    ensures LoadSpec(SignatureText + pixel, ops)
         == Ok(Image(-1, -1, false, false, false, DecodeBody(ops, pixel)))
  {
    SignatureClassified();
    ScanPastLine(SignatureText, pixel, Unscanned);
    ScanStopsAtData(pixel, Unscanned.(signature := true));
  }

  /** A signed header whose resolution line sets any orientation flag is refused once the
      body has the declared size. */
  lemma OrientationRejected(m: SizeMatch, body: Bytes, ops: FloatOps)
    requires WellFormed(m) && IsLine(Assemble(m)) && StopsScan(body)
    requires m.group2 == 'X' || m.group1 == '+' || m.group4 == '-'
    requires |body| == 4 * (DecodeResolution(m).width * DecodeResolution(m).height) > 0
    ensures LoadSpec(SignatureText + (Assemble(m) + body), ops) == Err(FlipOrRotationUnsupported)
  {
    var res := DecodeResolution(m);
    var signed := Unscanned.(signature := true);
    SignatureClassified();
    SizeLineClassified(m);
    ScanPastLine(SignatureText, Assemble(m) + body, Unscanned);
    ScanPastLine(Assemble(m), body, signed);
    ScanStopsAtData(body, Absorb(signed, SizeLine(m)));
    Regroup(4, res.width, res.height);
  }

  /** A line without `\n` that starts with `# ` and a byte the pattern's `\s` does not
      match is a comment entry, read past to the end of the stream. */
  lemma CommentLineReadPast(line: Bytes, st: ScanState)
    requires |line| >= 3 && line[0] == '#' && line[1] == ' ' && !IsSpace(line[2]) && NoNewline(line)
    ensures ScanFrom(line, st) == Scanned(st, [])
  {
    ReadLineWithoutNewline(line);
    var comment: Bytes := "# ";
    assert line[..2] == comment;
    assert MatchSize(line) == None;
    assert Classify(line) == IgnoredEntry;
    ScanStep(line, st);
  }

  /** Pixels whose first two bytes are `#` and a space (a red mantissa of 35 and a green
      one of 32) and that hold no `\n` are read past as a `# ` comment entry: the body
      comes out empty and the file is refused as having invalid dimensions. */
  lemma CommentLikePixelsSwallowed(width: nat, height: nat, body: Bytes, ops: FloatOps)
    requires |body| >= 3 && body[0] == '#' && body[1] == ' ' && !IsSpace(body[2]) && NoNewline(body)
    ensures Scan(HeaderText(width, height) + body) == Scanned(SavedState(width, height), [])
    ensures LoadSpec(HeaderText(width, height) + body, ops) == Err(InvalidDimensions)
  {
    HeaderScan(width, height, body);
    CommentLineReadPast(body, SavedState(width, height));
  }

  /** A valid picture with no pixels (a zero width or height) is saved, but the file is
      refused on loading, because its body is empty. */
  lemma EmptyPictureRefused(width: nat, height: nat, filename: string, ops: FloatOps)
    requires width * height == 0 && EndsWith(filename, ".hdr")
    ensures SaveSpec(Image(width, height, false, false, false, []), filename, ops) == Ok(HeaderText(width, height))
    ensures LoadSpec(HeaderText(width, height), ops) == Err(InvalidDimensions)
  {
    var img := Image(width, height, false, false, false, []);
    SaveAccepts(img, filename, ops);
    assert EncodeBody(ops, []) == [];
    assert HeaderText(width, height) + [] == HeaderText(width, height);
    HeaderScan(width, height, []);
    ScanStopsAtData([], SavedState(width, height));
  }

  /** `%d` writes no `\n`, whatever the sign of the number. */
  lemma FormatIntNoNewline(n: int)
    ensures NoNewline(FormatInt(n))
  {
    var s := FormatInt(n);
    if n < 0 {
      forall i | 1 <= i < |s|
        ensures s[i] != '\n'
      {
        assert s[i] == s[1..][i - 1];
      }
    }
  }

  /** For a negative height, `%d` puts a `-` where the pattern wants the first digit, so
      the writer's resolution line is a complete line of no recognised kind. */
  lemma NegativeSizeIsData(width: int, height: int)
    requires height < 0
    ensures IsLine(SizeText(width, height)) && Classify(SizeText(width, height)) == PixelData
  {
    var line := SizeText(width, height);
    var h := FormatInt(height);
    var w := FormatInt(width);
    FormatIntNoNewline(height);
    FormatIntNoNewline(width);
    assert line == ['-', 'Y', ' '] + h + [' ', '+', 'X', ' '] + w + ['\n'];
    forall i | 0 <= i < |line| - 1
      ensures line[i] != '\n'
    {
      if 3 <= i < 3 + |h| {
        assert line[i] == h[i - 3];
      } else if 7 + |h| <= i {
        assert line[i] == w[i - 7 - |h|];
      }
    }
    assert line[3] == '-';
    assert DigitRun(line, 3) == 3;
    assert MatchSize(line) == None;
  }

  /** A header written for a negative height stops the scan at its resolution line: the
      dimensions stay -1 by -1, that line becomes part of the body, and the file is
      refused as having invalid dimensions, whatever follows it. */
  lemma NegativeHeightRefused(width: int, height: int, body: Bytes, ops: FloatOps)
    requires height < 0
    ensures Scan(HeaderText(width, height) + body)
         == Scanned(Unscanned.(signature := true), SizeText(width, height) + body)
    ensures LoadSpec(HeaderText(width, height) + body, ops) == Err(InvalidDimensions)
  {
    var size := SizeText(width, height);
    var signed := Unscanned.(signature := true);
    HeaderLines(width, height, body);
    SignatureClassified();
    FormatClassified();
    BlankClassified();
    NegativeSizeIsData(width, height);
    ScanPastLine(SignatureText, FormatText + (BlankText + (size + body)), Unscanned);
    ScanPastLine(FormatText, BlankText + (size + body), signed);
    ScanPastLine(BlankText, size + body, signed);
    ReadLineOfLine(size, body);
    ScanStopsAtData(size + body, signed);
  }

  /** The -1 by -1 picture the reader makes of a signature and one pixel passes the
      writer's checks, but the file written for it is refused: a loaded picture does not
      always survive a save and a reload. */
  lemma LoadedPictureNotReloaded(pixel: Bytes, filename: string, ops: FloatOps)
    requires |pixel| == 4 && StopsScan(pixel) && EndsWith(filename, ".hdr")
    ensures LoadSpec(SignatureText + pixel, ops).Ok?
    ensures var img := LoadSpec(SignatureText + pixel, ops).value;
      && SaveSpec(img, filename, ops).Ok?
      && LoadSpec(SaveSpec(img, filename, ops).value, ops) == Err(InvalidDimensions)
  {
    MissingResolutionAccepted(pixel, ops);
    var img := Image(-1, -1, false, false, false, DecodeBody(ops, pixel));
    SaveAccepts(img, filename, ops);
    NegativeHeightRefused(-1, -1, EncodeBody(ops, img.data), ops);
  }
}
