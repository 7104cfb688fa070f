/** The textual header of a Radiance picture file: how each line is classified, how the
    resolution line is matched and decoded, and where the header scan stops. */
module RadianceHeader {
  import opened ByteStream
  import opened Decimal

  datatype Option<T> = None | Some(value: T)

  /** A character `\s` matches in a byte-string pattern: space, tab, newline,
      vertical tab, form feed or carriage return. */
  predicate IsSpace(c: char) {
    c == ' ' || 9 <= c as int <= 13
  }

  /** A character `.` matches: anything but a newline. */
  predicate IsAny(c: char) {
    c != '\n'
  }

  /** One match of the resolution pattern `^(.)(.)\s(\d+)\s(.)(.)\s(\d+)$`: its six groups,
      the three separators between them, and whether the line ends in the newline that
      `$` may stand before. In a file's own resolution line (`-Y 1024 +X 2048`) the
      first character of each pair is the sign and the second the axis. */
  datatype SizeMatch = SizeMatch(
    group1: ByteChar, group2: ByteChar, sep1: ByteChar, group3: Bytes,
    sep2: ByteChar, group4: ByteChar, group5: ByteChar, sep3: ByteChar, group6: Bytes,
    newline: bool)

  /** The groups and separators are what the pattern lets each of them be. */
  predicate WellFormed(m: SizeMatch) {
    && IsAny(m.group1) && IsAny(m.group2) && IsSpace(m.sep1)
    && m.group3 != [] && AllDigits(m.group3)
    && IsSpace(m.sep2) && IsAny(m.group4) && IsAny(m.group5) && IsSpace(m.sep3)
    && m.group6 != [] && AllDigits(m.group6)
  }

  /** The line a match was made on. */
  function Assemble(m: SizeMatch): Bytes {
    [m.group1, m.group2, m.sep1] + m.group3 + [m.sep2, m.group4, m.group5, m.sep3]
      + (m.group6 + if m.newline then "\n" else [])
  }

  /** The end of the longest run of digits in `s` that starts at `i`. */
  function DigitRun(s: Bytes, i: nat): (j: nat)
    requires i <= |s|
    ensures i <= j <= |s| && AllDigits(s[i..j])
    ensures j < |s| ==> !IsDigit(s[j])
    decreases |s| - i
  {
    if i < |s| && IsDigit(s[i]) then DigitRun(s, i + 1) else i
  }

  /** The run of digits starting at `i` ends exactly where the first non-digit is. */
  lemma {:induction false} DigitRunStops(s: Bytes, i: nat, j: nat)
    requires i <= j < |s| && AllDigits(s[i..j]) && !IsDigit(s[j])
    ensures DigitRun(s, i) == j
    decreases j - i
  {
    if i < j {
      assert s[i..j][0] == s[i];
      assert s[i + 1..j] == s[i..j][1..];
      DigitRunStops(s, i + 1, j);
    }
  }

  /** `re.match` of the resolution pattern against one line. */
  function MatchSize(line: Bytes): (r: Option<SizeMatch>)
    ensures r.Some? ==> WellFormed(r.value) && Assemble(r.value) == line
  {
    if |line| < 3 || !IsAny(line[0]) || !IsAny(line[1]) || !IsSpace(line[2]) then None
    else
      var k := DigitRun(line, 3);
      if k == 3 || |line| < k + 4 then None
      else if !IsSpace(line[k]) || !IsAny(line[k + 1]) || !IsAny(line[k + 2]) || !IsSpace(line[k + 3]) then None
      else
        var tail := line[k + 4..];
        var newline := |tail| > 0 && tail[|tail| - 1] == '\n';
        var digits := if newline then tail[..|tail| - 1] else tail;
        if digits == [] || !AllDigits(digits) then None
        else
          var m := SizeMatch(line[0], line[1], line[2], line[3..k],
                             line[k], line[k + 1], line[k + 2], line[k + 3], digits, newline);
          assert line == line[..3] + line[3..k] + line[k..k + 4] + tail;
          assert line[..3] == [line[0], line[1], line[2]];
          assert line[k..k + 4] == [line[k], line[k + 1], line[k + 2], line[k + 3]];
          assert tail == digits + (if newline then "\n" else []);
          Some(m)
  }

  /** Every line of the resolution shape matches, and the match recovers its parts:
      the pattern never reads one line two ways. */
  lemma MatchSizeComplete(m: SizeMatch)
    requires WellFormed(m)
    ensures MatchSize(Assemble(m)) == Some(m)
  {
    var line := Assemble(m);
    var k := 3 + |m.group3|;
    assert line[3..k] == m.group3;
    assert line[k] == m.sep2;
    DigitRunStops(line, 3, k);
    var tail := line[k + 4..];
    var end: Bytes := if m.newline then "\n" else [];
    assert tail == m.group6 + end;
    if !m.newline {
      assert tail == m.group6;
      assert IsDigit(tail[|tail| - 1]);
    } else {
      assert tail[..|tail| - 1] == m.group6;
    }
  }

  /** What a resolution line declares. */
  datatype Resolution = Resolution(rotated: bool, xFlipped: bool, yFlipped: bool, width: nat, height: nat)

  /** Decoding of a matched resolution line: the picture is rotated when the second
      character is `X`; the flip of each axis is read from the first character of the pair
      that belongs to it; the height is always the first number and the width the second. */
  function DecodeResolution(m: SizeMatch): (r: Resolution)
    requires WellFormed(m)
    ensures !(r.rotated || r.xFlipped || r.yFlipped) <==> m.group2 != 'X' && m.group1 != '+' && m.group4 != '-'
  {
    var rotated := m.group2 == 'X';
    Resolution(
      rotated,
      (if rotated then m.group1 else m.group4) == '-',
      (if rotated then m.group4 else m.group1) == '+',
      ValueOf(m.group6),
      ValueOf(m.group3))
  }

  /** The resolution line the writer emits, `-Y <height> +X <width>`. */
  function CanonicalSize(width: nat, height: nat): (m: SizeMatch)
    ensures WellFormed(m)
  {
    SizeMatch('-', 'Y', ' ', FormatNat(height), ' ', '+', 'X', ' ', FormatNat(width), true)
  }

  /** The canonical resolution line decodes to its own dimensions, with no flag set. */
  lemma {:induction false} CanonicalSizeDecodes(width: nat, height: nat)
    ensures DecodeResolution(CanonicalSize(width, height)) == Resolution(false, false, false, width, height)
  {
    ValueOfFormatNat(width);
    ValueOfFormatNat(height);
  }

  /** The kinds of line the header scan tells apart, in the order it tests them. */
  datatype LineKind = Blank | SignatureLine | SizeLine(m: SizeMatch) | IgnoredEntry | PixelData

  /** `line.startswith(p)`. */
  predicate StartsWith(line: Bytes, p: Bytes) {
    |p| <= |line| && line[..|p|] == p
  }

  /** A header entry whose value is not interpreted: the line starts with one of nine
      key prefixes, so it has at least two bytes and begins with one of `FECSPVG#`. */
  predicate IsIgnoredEntry(line: Bytes)
    ensures IsIgnoredEntry(line) ==> |line| >= 2 && line[0] in "FECSPVG#"
  {
    || StartsWith(line, "FORMAT=") || StartsWith(line, "EXPOSURE=") || StartsWith(line, "COLORCORR=")
    || StartsWith(line, "SOFTWARE=") || StartsWith(line, "PIXASPECT=") || StartsWith(line, "VIEW=")
    || StartsWith(line, "PRIMARIES=") || StartsWith(line, "GAMMA=") || StartsWith(line, "# ")
  }

  function Classify(line: Bytes): (k: LineKind)
    ensures k.SizeLine? ==> WellFormed(k.m) && Assemble(k.m) == line
    ensures line == [] ==> k == Blank
  {
    if line == [] || line == "\n" then Blank
    else if line == "#?RADIANCE" || line == "#?RADIANCE\n" then SignatureLine
    else match MatchSize(line)
      case Some(m) => SizeLine(m)
      case None => if IsIgnoredEntry(line) then IgnoredEntry else PixelData
  }

  /** The scan stops at once on `s`: it is the end of the stream, or its first line is
      of no recognised kind. */
  predicate StopsScan(s: Bytes) {
    s == [] || Classify(ReadLine(s).0) == PixelData
  }

  /** What the scan has learnt so far: whether the signature was seen, and the fields
      the last resolution line set (a new picture has no flags and dimensions -1). */
  datatype ScanState = ScanState(
    signature: bool, rotated: bool, xFlipped: bool, yFlipped: bool, width: int, height: int)

  const Unscanned := ScanState(false, false, false, false, -1, -1)

  /** The outcome of the scan: the state, and the pixel body (the first line the scan
      stopped at together with the rest of the stream). */
  datatype Scanned = Scanned(state: ScanState, body: Bytes)

  /** The effect of a line that the scan reads past: only the signature line sets the
      signature flag, and only a resolution line touches the flags and dimensions, which
      it sets to the numbers it declares (height first, width second). */
  function Absorb(st: ScanState, kind: LineKind): (r: ScanState)
    requires kind.SizeLine? ==> WellFormed(kind.m)
    ensures r.signature == (st.signature || kind == SignatureLine)
    ensures !kind.SizeLine? ==> r.(signature := st.signature) == st
    ensures kind.SizeLine? ==>
      && r.width == ValueOf(kind.m.group6) && r.height == ValueOf(kind.m.group3)
      && (!(r.rotated || r.xFlipped || r.yFlipped) <==>
            kind.m.group2 != 'X' && kind.m.group1 != '+' && kind.m.group4 != '-')
  {
    match kind
    case SignatureLine => st.(signature := true)
    case SizeLine(m) =>
      var res := DecodeResolution(m);
      st.(rotated := res.rotated, xFlipped := res.xFlipped, yFlipped := res.yFlipped,
          width := res.width, height := res.height)
    case _ => st
  }

  /** The header scan from a point of the stream on: read a line; at end of stream, or at
      a line that is none of the recognised kinds, stop; otherwise absorb it and go on
      (a resolution line does not end the scan). The scan stops on a suffix of the stream
      that is either empty or begins with a line of pixel data, and a signature once seen
      stays seen. */
  function ScanFrom(s: Bytes, st: ScanState): (r: Scanned)
    ensures |r.body| <= |s| && r.body == s[|s| - |r.body|..]
    ensures StopsScan(r.body)
    ensures st.signature ==> r.state.signature
    decreases |s|
  {
    var (line, rest) := ReadLine(s);
    var kind := Classify(line);
    if line == [] || kind == PixelData then Scanned(st, s)
    else ScanFrom(rest, Absorb(st, kind))
  }

  function Scan(s: Bytes): Scanned {
    ScanFrom(s, Unscanned)
  }

  /** One step of the scan, read off its definition. */
  lemma ScanStep(s: Bytes, st: ScanState)
    ensures var kind := Classify(ReadLine(s).0);
      ScanFrom(s, st) ==
        if ReadLine(s).0 == [] || kind == PixelData then Scanned(st, s)
        else ScanFrom(ReadLine(s).1, Absorb(st, kind))
  {
  }

  /** A complete line the scan reads past is absorbed, and the scan goes on after it. */
  lemma ScanPastLine(line: Bytes, more: Bytes, st: ScanState)
    requires IsLine(line) && Classify(line) != PixelData
    ensures ScanFrom(line + more, st) == ScanFrom(more, Absorb(st, Classify(line)))
  {
    ReadLineOfLine(line, more);
  }

  /** The scan stops at once on a line of pixel data. */
  lemma ScanStopsAtData(s: Bytes, st: ScanState)
    requires StopsScan(s)
    ensures ScanFrom(s, st) == Scanned(st, s)
  {
  }
}
