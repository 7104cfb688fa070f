/** The byte strings the codec reads and writes, and the line reader it scans them with.
    A file opened in binary mode yields a byte string: a sequence of characters whose
    codes are all below 256. */
module ByteStream {

  /** One byte of a byte string, seen as a character (as `f.read()` returns it). */
  type ByteChar = c: char | c as int < 256

  type Bytes = seq<ByteChar>

  /** A byte's numeric value, 0 to 255: `ord(c)`. */
  type Octet = n: int | 0 <= n < 256

  function Ord(c: ByteChar): Octet { c as int }

  /** The byte whose value is `n`, as `struct.pack("B", n)` emits it. */
  function Chr(n: Octet): ByteChar { n as char }

  lemma AppendAssociates(a: Bytes, b: Bytes, c: Bytes)
    ensures a + (b + c) == (a + b) + c
  {
  }

  /** No `\n` occurs in `s`. */
  predicate NoNewline(s: Bytes) {
    forall i :: 0 <= i < |s| ==> s[i] != '\n'
  }

  /** `s` is one complete line: it ends with its only `\n`. */
  predicate IsLine(s: Bytes) {
    |s| > 0 && s[|s| - 1] == '\n' && NoNewline(s[..|s| - 1])
  }

  /** `readline()` on a stream whose unread part is `s`: the bytes up to and including
      the first `\n` (all of `s` when it holds none, the empty string at end of stream),
      and what is left unread after them. */
  function ReadLine(s: Bytes): (r: (Bytes, Bytes))
    ensures r.0 + r.1 == s
    ensures r.0 == [] <==> s == []
    ensures NoNewline(r.0[..if r.0 == [] then 0 else |r.0| - 1])
    ensures r.1 != [] ==> r.0[|r.0| - 1] == '\n'
  {
    if s == [] then ([], [])
    else if s[0] == '\n' then ([s[0]], s[1..])
    else
      var (line, rest) := ReadLine(s[1..]);
      assert [s[0]] + line + rest == s;
      ([s[0]] + line, rest)
  }

  /** A complete line followed by anything is read back as exactly that line. */
  lemma {:induction false} ReadLineOfLine(line: Bytes, more: Bytes)
    requires IsLine(line)
    ensures ReadLine(line + more) == (line, more)
  {
    var s := line + more;
    if |line| == 1 {
      assert s[0] == '\n' && s[1..] == more;
    } else {
      assert s[0] == line[0] != '\n';
      assert line[1..][..|line| - 2] == line[..|line| - 1][1..];
      ReadLineOfLine(line[1..], more);
      assert s[1..] == line[1..] + more;
      assert [s[0]] + line[1..] == line;
    }
  }

  /** A stream without any `\n` is read as a single line. */
  lemma {:induction false} ReadLineWithoutNewline(s: Bytes)
    requires NoNewline(s)
    ensures ReadLine(s) == (s, [])
  {
    if s != [] {
      ReadLineWithoutNewline(s[1..]);
      assert [s[0]] + s[1..] == s;
    }
  }
}
