/** The C library calls the encoder is built on (`strlen`, `snprintf`,
    `memcpy`), stated over buffers given as sequences and arrays. */
module CLib {
  import opened CTypes

  const NUL: char := '\0'

  /** The characters of a C string before its terminating NUL. Each `char`
      stands for one byte of C `char` text. */
  type CText = s: seq<char> | NUL !in s

  /** `strlen`: the index of the first NUL in the buffer. */
  function Strlen(s: seq<char>): (n: nat)
    requires NUL in s
    ensures n < |s| && s[n] == NUL
    ensures NUL !in s[..n]
  {
    if s[0] == NUL then 0
    else
      assert s == [s[0]] + s[1..];
      var m := Strlen(s[1..]);
      assert s[..m + 1] == [s[0]] + s[1..][..m];
      m + 1
  }

  /** The C string held at the start of a buffer: its text up to the first NUL. */
  function TextOf(buf: seq<char>): (t: CText)
    requires NUL in buf
    ensures |t| < |buf| && buf[|t|] == NUL
    ensures buf[..|t|] == t
  {
    buf[..Strlen(buf)]
  }

  /** A NUL-free text stored at the start of a buffer and followed by a NUL
      is exactly the C string the buffer holds. */
  lemma TextOfStored(buf: seq<char>, t: CText)
    requires |t| < |buf| && buf[..|t|] == t && buf[|t|] == NUL
    ensures NUL in buf && TextOf(buf) == t
  {
    assert buf[|t|] in buf;
    var n := Strlen(buf);
    assert forall i | 0 <= i < |t| :: buf[i] == t[i] && t[i] in t;
    assert n >= |t|;
  }

  /** How many characters `snprintf(dst, size, ...)` stores before its NUL
      when the full rendering is n characters long: all of them when they fit
      in size - 1, otherwise size - 1, and nothing when size is 0. */
  function Stored(size: nat, n: nat): nat
  {
    if size == 0 then 0 else Min(n, size - 1)
  }

  /** The characters and the NUL that `snprintf(buf + off, size, ...)` stores
      for an n-character rendering all lie inside a buffer of len characters. */
  predicate FitsAt(len: nat, off: int, size: nat, n: nat)
  {
    size == 0 || (0 <= off && off + Stored(size, n) < len)
  }

  /** The buffer after `snprintf(buf + off, size, ...)` (or `vsnprintf`) has
      rendered `text`: as much of it as fits in size - 1 characters, then a
      NUL; nothing at all when size is 0; everything else untouched (sections
      7.21.6.5 and 7.21.6.12 of the C11 standard). */
  function Formatted(buf: seq<char>, off: int, size: nat, text: seq<char>): (r: seq<char>)
    requires FitsAt(|buf|, off, size, |text|)
    ensures |r| == |buf|
  {
    if size == 0 then buf
    else
      var k := Stored(size, |text|);
      buf[..off] + text[..k] + [NUL] + buf[off + k + 1..]
  }

  /** Where `Formatted` puts things: with size 0 the buffer is unchanged;
      otherwise the k stored characters are the first k of the text, a NUL
      follows them, and every character before off or after the NUL is
      the buffer's own. */
  lemma FormattedLayout(buf: seq<char>, off: int, size: nat, text: seq<char>)
    requires FitsAt(|buf|, off, size, |text|)
    ensures var r := Formatted(buf, off, size, text);
      var k := Stored(size, |text|);
      && (size == 0 ==> r == buf)
      && (size > 0 ==>
           && r[..off] == buf[..off]
           && r[off..off + k] == text[..k]
           && r[off + k] == NUL
           && r[off + k + 1..] == buf[off + k + 1..])
  {
    var r := Formatted(buf, off, size, text);
    var k := Stored(size, |text|);
    if size > 0 {
      assert r == buf[..off] + text[..k] + [NUL] + buf[off + k + 1..];
      assert r[..off] == buf[..off];
      assert r[off..off + k] == text[..k];
    }
  }

  /** A completed `snprintf` with a non-zero size leaves a NUL in the buffer:
      the one it stored after the text. */
  lemma FormattedHasNul(buf: seq<char>, off: int, size: nat, text: seq<char>)
    requires FitsAt(|buf|, off, size, |text|)
    requires size > 0 || NUL in buf
    ensures NUL in Formatted(buf, off, size, text)
  {
    var r := Formatted(buf, off, size, text);
    FormattedLayout(buf, off, size, text);
    if size > 0 {
      assert r[off + Stored(size, |text|)] == NUL;
    }
  }

  /** `snprintf(dst + off, size, ...)` of an already rendered text: stores
      it as `Formatted` says and returns the length of the whole rendering,
      not of the part that fitted. */
  method Snprintf(dst: array<char>, off: int, size: u8, text: seq<char>) returns (n: int)
    requires FitsAt(dst.Length, off, size, |text|)
    modifies dst
    ensures dst[..] == Formatted(old(dst[..]), off, size, text)
    ensures n == |text|
  {
    if size > 0 {
      var k := Stored(size, |text|);
      forall i | 0 <= i < k {
        dst[off + i] := text[i];
      }
      dst[off + k] := NUL;
    }
    n := |text|;
  }

  /** `memcpy(dst + off, src, |src|)`. */
  method Memcpy(dst: array<u8>, off: nat, src: seq<u8>)
    requires off + |src| <= dst.Length
    modifies dst
    ensures dst[..] == old(dst[..off]) + src + old(dst[off + |src|..])
  {
    forall i | 0 <= i < |src| {
      dst[off + i] := src[i];
    }
  }
}
