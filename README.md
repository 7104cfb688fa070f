# Radiance RGBE picture codec, modelled in Dafny

This project models the `HDR` class of `scripts/image_tools/hdr.py`, a reader and
writer for Radiance RGBE (`.hdr`) pictures. Such a file is a textual header followed
by four bytes per pixel: three mantissas that share one exponent byte.

- **Reader.** The reader reads the header line by line. It keeps the orientation flags
  and dimensions of the last resolution line, and it needs the `#?RADIANCE` signature.
  It checks that the body holds exactly four bytes per declared pixel and that no
  orientation flag is set. It then converts every pixel to three floats.
- **Writer.** The writer checks the picture and the file name, emits a fixed header,
  then emits four bytes per pixel.
- **Picture.** The picture is a flat buffer of `3 * width * height` floats with
  bounds-checked pixel access.

The files:

- `bytestream.dfy`: the file contents as a byte string, and `readline` on it.
- `decimal.dfy`: the `\d+` groups, `int()` on them, and `%d`.
- `header.dfy`: the resolution pattern, decoding the resolution line, classifying
  each line, and the header scan as a pure function.
- `transcode.dfy`: one pixel's RGBE decode and encode, and the body layout. Pixel `i`
  is body bytes `4i..4i+3` and buffer slots `3i..3i+2`.
- `image.dfy`: the picture as a class with an `array<real>` buffer.
  - The methods are `load_from_file`, `create_black_image`, the constructor,
    `set_pixel` and `save`. `is_valid` is a predicate and `get_pixel` a function
    on the object's fields.
  - The loops of `load_from_file` and `save` are `while`/`for` loops. They are proved
    against the pure specifications `LoadSpec`, `CheckBody` and `SaveSpec`.
- `roundtrip.dfy`: what the reader makes of the writer's output.
- `quirks.dfy`: how the reader treats headers the writer never produces, and the
  writer's outputs that it fails to read back.

Failed `assert` statements of the source become `Err` values of `Result`, one
`HdrError` constructor per failing check:

- `InvalidHeader`, `InvalidDimensions` and `FlipOrRotationUnsupported` carry the
  messages of the asserts at `hdr.py:80-82` and `hdr.py:144`.
- `InvalidImage`, `NotHdrFilename` and `PixelOutOfRange` stand for asserts that have
  no message (`hdr.py:122-123`, `hdr.py:133-134`, `hdr.py:142-143`).
- `IndexOutOfRange` stands for the `IndexError` that Python raises when a slot index
  is past the end of the buffer (`hdr.py:126-128`, `hdr.py:136-138`).

The floating-point steps whose rounding the model does not follow are fields of a `FloatOps` value:

- `pow(x, 1.0 / GAMMA)`;
- `math.ceil(math.log(v, 2))`;
- the rounding inside `clamp_int`.

Everything else is exact arithmetic on `real` and `int`.

Points where the reader's behaviour is easy to misread:

- The header scan does not stop at the resolution line. The size case ends in
  `continue` (`hdr.py:65`), so a later resolution line wins, and the first line of
  the pixels is classified like any header line.
- The resolution pattern (`hdr.py:58`) reads each pair as two arbitrary characters.
  The writer (`hdr.py:150`) puts the sign first, as in `-Y`.
- A header without a resolution line leaves the dimensions at -1 by -1
  (`hdr.py:109-110`). The check at `hdr.py:81` then accepts a signature followed by
  exactly four bytes.
- `create_black_image` (`hdr.py:97-104`) accepts any dimensions. When
  `width * height` is negative the buffer is empty.

## Model

| member | source | states |
|---|---|---|
| ByteStream.ReadLine | scripts/image_tools/hdr.py:47 | `readline()` splits the unread stream into a line and the rest: they concatenate back to the stream, the line is empty exactly at end of stream, it has no `\n` before its last byte, and it ends in `\n` whenever anything is left. |
| ByteStream.ReadLineOfLine | scripts/image_tools/hdr.py:47 | A complete line followed by anything is read back as exactly that line. |
| ByteStream.ReadLineWithoutNewline | scripts/image_tools/hdr.py:79 | A stream with no `\n` is read as one line, leaving nothing (so `line + f.read()` is the whole stream). |
| Decimal.FormatNat | scripts/image_tools/hdr.py:150 | `%d` of a natural number is a non-empty run of digits that starts with `0` only for zero. |
| Decimal.FormatInt | scripts/image_tools/hdr.py:150 | `%d` of any integer reads back as that integer: digits alone for a non-negative number, a `-` followed by the digits of its magnitude for a negative one. |
| Decimal.ValueOfFormatNat | scripts/image_tools/hdr.py:63-64 | `int()` of what `%d` writes is the number written. |
| Decimal.LeadingZeroIgnored | scripts/image_tools/hdr.py:63-64 | `int()` ignores a leading zero of a `\d+` group, so several numerals read as the same dimension. |
| RadianceHeader.DigitRun | scripts/image_tools/hdr.py:58 | The greedy `\d+` run ends at the first non-digit. |
| RadianceHeader.DigitRunStops | scripts/image_tools/hdr.py:58 | The run of digits ends exactly at the first non-digit after it. |
| RadianceHeader.MatchSize | scripts/image_tools/hdr.py:58 | A successful match of `^(.)(.)\s(\d+)\s(.)(.)\s(\d+)$` gives groups that each match their sub-pattern, and reassembled they are the line. |
| RadianceHeader.MatchSizeComplete | scripts/image_tools/hdr.py:58 | Every line of the resolution shape matches, and the match recovers exactly its groups: no line is read two ways. |
| RadianceHeader.DecodeResolution | scripts/image_tools/hdr.py:60-64 | No flag is set exactly when the second character is not `X`, the first is not `+` and the fourth is not `-`. |
| RadianceHeader.CanonicalSize | scripts/image_tools/hdr.py:150 | The writer's `-Y <h> +X <w>` line is of the resolution shape. |
| RadianceHeader.CanonicalSizeDecodes | scripts/image_tools/hdr.py:60-64 | The writer's resolution line decodes to its own width and height with no flag set. |
| RadianceHeader.IsIgnoredEntry | scripts/image_tools/hdr.py:66-75 | A line read past as an ignored entry has at least two bytes and starts with one of `F`, `E`, `C`, `S`, `P`, `V`, `G` or `#`. |
| RadianceHeader.Absorb | scripts/image_tools/hdr.py:53-65 | Only the signature line sets the signature flag. Only a resolution line changes the flags and dimensions: width from the sixth group, height from the third, and no flag exactly when the second character is not `X`, the first not `+` and the fourth not `-`. Every other line changes nothing. |
| RadianceHeader.Classify | scripts/image_tools/hdr.py:49-77 | A line classified as a resolution line is one that the pattern matches and that reassembles from its groups; an empty line is blank. |
| RadianceHeader.ScanFrom | scripts/image_tools/hdr.py:44-79 | The scan stops on a suffix of the stream, that suffix is empty or begins with a line of no recognised kind, and a signature once seen stays seen. |
| RadianceHeader.ScanPastLine | scripts/image_tools/hdr.py:49-76 | A complete recognised line is absorbed and the scan continues right after it. |
| RgbeTranscode.Pow2 | scripts/image_tools/hdr.py:90 | `pow(2, k)` is positive. |
| RgbeTranscode.ClampInt | scripts/image_tools/hdr.py:159-162 | `clamp_int` lands in `[lo, hi]` and keeps a rounded value already in range. |
| RgbeTranscode.EncodePixel | scripts/image_tools/hdr.py:152-163 | Channels whose squares are equal get equal mantissas, since they share the exponent of the largest. |
| RgbeTranscode.EncodeBlack | scripts/image_tools/hdr.py:155-163 | A black pixel takes the `v == 0` branch and is stored as `(0, 0, 0, 128)`. |
| RgbeTranscode.DecodeZeroMantissas | scripts/image_tools/hdr.py:87-93 | Zero mantissas decode to black whatever the exponent byte. |
| RgbeTranscode.DecodePixel | scripts/image_tools/hdr.py:87-93 | Channels with equal mantissas decode to equal values, because the exponent is shared. When the gamma root maps 0 to 0, a zero mantissa decodes to 0. |
| RgbeTranscode.QuadBytes | scripts/image_tools/hdr.py:164 | `struct.pack("BBBB", ...)` writes four bytes that read back as the same quadruple. |
| RgbeTranscode.UnpackPixels | scripts/image_tools/hdr.py:85-93 | Three slots per four bytes, and slots `3i..3i+2` come from body bytes `4i..4i+3` alone. |
| RgbeTranscode.PackPixels | scripts/image_tools/hdr.py:151-164 | Four bytes per three slots, and the bytes of pixel `i` come from its slots alone. |
| RgbeTranscode.PackPixelsExtend | scripts/image_tools/hdr.py:151-164 | Writing one more pixel appends exactly its four bytes. |
| RgbeTranscode.DecodeBody | scripts/image_tools/hdr.py:84-93 | The decode loop: the length is three slots per pixel, and pixel `i` is the decode of quadruple `i`. |
| RgbeTranscode.EncodeBody | scripts/image_tools/hdr.py:151-164 | The encode loop: the length is four bytes per pixel, and quadruple `i` is the encode of pixel `i`. |
| RgbeTranscode.SlotsDetermine | scripts/image_tools/hdr.py:85-93 | A buffer of whole pixels is determined by its pixels. |
| HdrImage.PixelIndexInRange | scripts/image_tools/hdr.py:122-124 | Inside the picture, `y * width + x` is a pixel of the buffer. |
| HdrImage.PixelIndexDistinct | scripts/image_tools/hdr.py:133-138 | Distinct coordinates inside a row width name distinct pixels. |
| HdrImage.BlackLength | scripts/image_tools/hdr.py:103 | `[0.0] * (3 * w * h)` has `3 * (w * h)` slots for a non-negative product and none for a negative one. |
| HdrImage.Black | scripts/image_tools/hdr.py:97-104 | A black picture has the given dimensions and no flag. Every pixel is black. It is valid exactly when `w * h` is not negative. |
| HdrImage.HeaderText | scripts/image_tools/hdr.py:147-150 | The written header starts with the signature line and ends with `\n`, so the pixels start a line. |
| HdrImage.CheckBody | scripts/image_tools/hdr.py:80-93 | The load succeeds exactly when the signature was seen, the body is non-empty with `4 * width * height` bytes, and no flag is set. Without the signature the error is `InvalidHeader`. With it, a wrong body size gives `InvalidDimensions`, and a set flag then gives `FlipOrRotationUnsupported`. A loaded picture has the declared dimensions and no flag, is valid, and pixel `i` is the decode of body bytes `4i..4i+3`. |
| HdrImage.SaveSpec | scripts/image_tools/hdr.py:140-164 | The checks run in order, each with its own error: an invalid picture gives `InvalidImage`, then a name not ending in `.hdr` gives `NotHdrFilename`, then a set flag gives `FlipOrRotationUnsupported`. A successful save means a valid picture, a `.hdr` name and no flag. The output is then the fixed header followed by `4 * width * height` bytes, and quadruple `i` is the encode of pixel `i`. |
| HdrImage.LoadSpec | scripts/image_tools/hdr.py:29-95 | A successful load needs the signature, and it gives a picture whose buffer has `3 * w * h` slots, more than none. Its pixels decode, in order, from the last `4n` bytes of the file, where `n` is the pixel count. |
| HdrImage.Hdr.IsValid | scripts/image_tools/hdr.py:116-118 | A valid object has a non-negative `width * height` and a buffer of `3 * (width * height)` slots. |
| HdrImage.Hdr.constructor | scripts/image_tools/hdr.py:106-114 | `HDR()` has no pixels, dimensions -1 and no flags, and is not valid. |
| HdrImage.Hdr.CreateBlackImage | scripts/image_tools/hdr.py:97-104 | A fresh black picture of the given dimensions, valid exactly when `width * height` is not negative. |
| HdrImage.Hdr.GetPixel | scripts/image_tools/hdr.py:120-129 | Out of bounds exactly when a coordinate is outside the picture. On a valid picture an in-bounds read succeeds, and it returns slots `3(y*w+x)` to `+2`. |
| HdrImage.Hdr.SetPixel | scripts/image_tools/hdr.py:131-138 | Out of bounds leaves the buffer as it was. In bounds it overwrites exactly the three slots of the pixel, up to the end of the buffer, and nothing else. Validity is preserved, a following `get_pixel` returns the pixel, and every other pixel reads as before. |
| HdrImage.Hdr.WritePixels | scripts/image_tools/hdr.py:151-164 | The pixel loop of `save` writes exactly the packed pixels. |
| HdrImage.Hdr.Save | scripts/image_tools/hdr.py:140-164 | `save` returns what `SaveSpec` says: the error of the first failing assertion, or the bytes written. |
| HdrImage.Hdr.SetResolution | scripts/image_tools/hdr.py:60-64 | A resolution line sets the five fields it declares and leaves the buffer alone. |
| HdrImage.Hdr.ReadPast | scripts/image_tools/hdr.py:49-76 | A line the scan reads past has the effect `Absorb` gives it on the fields and the signature flag. |
| HdrImage.Hdr.ScanHeader | scripts/image_tools/hdr.py:44-79 | The header loop leaves the object's fields, the signature flag and the body exactly as `ScanFrom` computes them. |
| HdrImage.Hdr.ReadPixels | scripts/image_tools/hdr.py:85-93 | The conversion loop fills a fresh buffer with exactly the unpacked pixels. |
| HdrImage.Hdr.CheckAndDecode | scripts/image_tools/hdr.py:80-93 | The three checks and the conversion loop give the error `CheckBody` names, or the same object holding the picture it describes. |
| HdrImage.Hdr.LoadFromFile | scripts/image_tools/hdr.py:29-95 | `load_from_file` returns the error `LoadSpec` names, or a fresh object whose value is the picture `LoadSpec` describes. |
| HdrRoundTrip.SizeTextCanonical | scripts/image_tools/hdr.py:150 | The written resolution line is the canonical match of the pattern. |
| HdrRoundTrip.SizeLineClassified | scripts/image_tools/hdr.py:53-65 | Any line of the resolution shape is classified as a resolution line (never as the signature). |
| HdrRoundTrip.CanonicalSizeIsLine | scripts/image_tools/hdr.py:150 | The written resolution line is one complete line. |
| HdrRoundTrip.SignatureClassified | scripts/image_tools/hdr.py:147 | The written signature is a complete line that sets the signature flag. |
| HdrRoundTrip.FormatClassified | scripts/image_tools/hdr.py:148 | The written format entry is a complete line that the scan ignores. |
| HdrRoundTrip.BlankClassified | scripts/image_tools/hdr.py:149 | The written blank line is skipped. |
| HdrRoundTrip.HeaderScan | scripts/image_tools/hdr.py:147-150 | Reading the written header leaves the signature seen, the written dimensions and no flag, and the scan goes on at the first pixel byte. |
| HdrRoundTrip.SaveAccepts | scripts/image_tools/hdr.py:142-164 | A valid, unflagged picture saved under a `.hdr` name gives the header followed by the encoded pixels. |
| HdrRoundTrip.CheckBodyAccepts | scripts/image_tools/hdr.py:80-93 | When all three checks pass, the load gives the declared dimensions, no flag and the decoded body. |
| HdrRoundTrip.SaveThenLoad | scripts/image_tools/hdr.py:29-164 | Loading a saved picture gives its dimensions, no flag, and the decode of the encode of its buffer, as long as the first pixel line is not one the scan reads past. |
| HdrRoundTrip.SaveThenLoadPixels | scripts/image_tools/hdr.py:84-93 | Pixel by pixel, save then load is the decode of the encode. |
| HdrRoundTrip.NulLineIsData | scripts/image_tools/hdr.py:49-77 | A line whose first and third bytes are NUL is pixel data. |
| HdrRoundTrip.BlackBodyBytes | scripts/image_tools/hdr.py:151-164 | A black picture's pixels are `4 * w * h` bytes, with no `\n` and with NUL first and third bytes. |
| HdrRoundTrip.BlackPixelsStopScan | scripts/image_tools/hdr.py:77-79 | The scan stops at a black picture's pixels. |
| HdrRoundTrip.BlackDecodes | scripts/image_tools/hdr.py:84-93 | Encoded black pixels decode back to black. |
| HdrRoundTrip.BlackRoundTrip | scripts/image_tools/hdr.py:97-164 | A black picture of positive dimensions, saved and loaded, comes back unchanged. |
| HeaderQuirks.LaterSizeLineWins | scripts/image_tools/hdr.py:57-65 | After two resolution lines the scan's state depends only on the second. |
| HeaderQuirks.LeadingNewlineSwallowed | scripts/image_tools/hdr.py:49-51 | After the written header, a body starting with `\n` loses that byte to the blank-line case, and the load fails with invalid dimensions. |
| HeaderQuirks.SignatureRequired | scripts/image_tools/hdr.py:80 | A header with a resolution line but no signature is refused as an invalid header. |
| HeaderQuirks.MissingResolutionAccepted | scripts/image_tools/hdr.py:81 | The signature followed by exactly four pixel bytes loads as a -1 by -1 picture of one pixel. |
| HeaderQuirks.OrientationRejected | scripts/image_tools/hdr.py:82 | A signed header whose resolution line sets any flag is refused once the body has the declared size. |
| HeaderQuirks.CommentLineReadPast | scripts/image_tools/hdr.py:66-79 | A stream with no `\n` that starts with `# ` followed by a non-space byte is read past as a comment, leaving an empty body. |
| HeaderQuirks.CommentLikePixelsSwallowed | scripts/image_tools/hdr.py:66-81 | After the written header, pixels starting with `#`, a space and a non-space byte, with no `\n`, are swallowed as a comment; the load fails with invalid dimensions. |
| HeaderQuirks.EmptyPictureRefused | scripts/image_tools/hdr.py:81 | A valid picture with zero width or height saves as the bare header, and that file is refused on loading as having invalid dimensions. |
| HeaderQuirks.FormatIntNoNewline | scripts/image_tools/hdr.py:150 | `%d` of any integer writes no `\n`. |
| HeaderQuirks.NegativeSizeIsData | scripts/image_tools/hdr.py:58-77 | For a negative height the written resolution line is a complete line that the pattern does not match (`\d+` does not match `-`), so the scan takes it for pixel data. |
| HeaderQuirks.NegativeHeightRefused | scripts/image_tools/hdr.py:44-81 | A file written for a negative height leaves the scan with the signature and dimensions -1 by -1, with the resolution line in the body, and it is refused as having invalid dimensions whatever follows. |
| HeaderQuirks.LoadedPictureNotReloaded | scripts/image_tools/hdr.py:29-164 | The -1 by -1 picture loaded from a signature and one pixel passes `save`'s checks, but the file written for it is refused as having invalid dimensions. |

## Left out

- Floating-point arithmetic. `pow(x, 1.0 / GAMMA)`, `math.ceil(math.log(v, 2))` and the rounding in `clamp_int` are fields of `FloatOps`. The model states no numeric round trip except the exact black one. `pow(x, GAMMA)` with `GAMMA = 2.0` is squaring on reals, and `pow(2, k)` is exact.
- `clamp_int` is in `clamp.py`, which is not part of this model. It is modelled as rounding followed by saturation into `[lo, hi]`.
- File I/O. `open`, `write` and the text or binary mode are left out. A file's contents are a byte string. `readline` and `read` are functions on it. `save` returns the bytes it would write.
- `to_pil` (`hdr.py:166-179`), a PIL-dependent diagnostic view.
- `scripts/background/equirectangular_to_cubemap.py`, floating-point projection and command-line plumbing around the codec.
- HdrImage.Hdr.ReadPixels: the source fills the new buffer with zeros before the conversion loop. The loop overwrites every slot, so the model allocates the buffer without an initial value.
- HdrRoundTrip.SaveThenLoad: the statement needs the encoded pixels not to start with a line the scan reads past. When they do, the first pixel line is treated by its kind:
  - a blank line (first byte `\n`) loses that byte, and the load fails with invalid dimensions (`HeaderQuirks.LeadingNewlineSwallowed`);
  - a line starting with an ignored prefix such as `# ` is dropped; when it holds no `\n` the whole body goes and the load fails (`HeaderQuirks.CommentLikePixelsSwallowed`);
  - a signature line sets the signature flag again and the scan goes on;
  - a line of the resolution shape overwrites the dimensions and flags (`HeaderQuirks.LaterSizeLineWins`), so the load may succeed with other dimensions.
- HdrRoundTrip.SaveThenLoad: positive dimensions are required because two kinds of valid picture save but do not load:
  - a picture with no pixels, whose body is empty (`HeaderQuirks.EmptyPictureRefused`);
  - a picture with two negative dimensions, such as the -1 by -1 picture the reader returns for a header without a resolution line. `%d` writes its height with a `-`, which `\d+` does not match, so the scan stops at the resolution line, keeps the dimensions at -1 by -1, and refuses the file (`HeaderQuirks.NegativeHeightRefused`, `HeaderQuirks.LoadedPictureNotReloaded`).
- HdrRoundTrip.BlackRoundTrip: positive dimensions are required for the same two reasons.
