/**
 * The on-disk layout of a video-sticker frame cache: an 8-byte header
 * { Int32 frameRate, Int32 frameCount }, a directory of 300 entries
 * { Int32 offset, Int32 length } at 8 + index * 8, then an append-only
 * region of compressed frames. Also the cache's file name and the size of
 * its decode buffer.
 */
module CacheFormat {
  import opened Bytes

  /** Slots in the directory (30 frames per second for 10 seconds). */
  const MaximumFrameCount: int := 30 * 10
  const HeaderSize: int := 8
  const EntrySize: int := 8
  /** Bytes taken by the header and the directory: 2408. */
  const TableSize: int := HeaderSize + MaximumFrameCount * EntrySize
  /** An entry reaching past 100 MiB is taken as a sign of a corrupted file. */
  const CorruptionCeiling: int := 100 * 1024 * 1024
  /** The file-name version tag; bumping it keeps old cache files from being read. */
  const FormatVersion: nat := 3
  const CacheSuffix: string := ".vstickerframecache"

  /** Where the directory entry of slot `index` starts. */
  function EntryOffset(index: int): (pos: nat)
    requires 0 <= index < MaximumFrameCount
    ensures HeaderSize <= pos && pos + EntrySize <= TableSize
    ensures (pos - HeaderSize) % EntrySize == 0
  {
    HeaderSize + index * EntrySize
  }

  /** Distinct slots have disjoint directory entries. */
  lemma EntriesDisjoint(i: int, j: int)
    requires 0 <= i < MaximumFrameCount && 0 <= j < MaximumFrameCount && i != j
    ensures EntryOffset(i) + EntrySize <= EntryOffset(j) || EntryOffset(j) + EntrySize <= EntryOffset(i)
  {
  }

  // ---------------------------------------------------------------- naming

  predicate IsDigit(c: char) {
    '0' <= c <= '9'
  }

  predicate AllDigits(s: string) {
    forall i :: 0 <= i < |s| ==> IsDigit(s[i])
  }

  function DigitChar(d: int): (c: char)
    requires 0 <= d < 10
    ensures IsDigit(c)
  {
    (48 + d) as char
  }

  /** Decimal digits as Swift's string interpolation prints a non-negative `Int`. */
  function Decimal(n: nat): (s: string)
    ensures |s| >= 1 && AllDigits(s)
    ensures n < 10 <==> |s| == 1
  {
    if n < 10 then [DigitChar(n)] else Decimal(n / 10) + [DigitChar(n % 10)]
  }

  /** The number a string of decimal digits denotes. */
  function DecimalValue(s: string): nat
    requires AllDigits(s)
  {
    if s == [] then 0 else DecimalValue(s[..|s| - 1]) * 10 + (s[|s| - 1] as int - 48)
  }

  /** Printing a number in decimal loses nothing: its digits denote it again. */
  lemma {:induction false} DecimalRoundTrip(n: nat)
    ensures DecimalValue(Decimal(n)) == n
  {
    if n >= 10 {
      var s := Decimal(n);
      assert s[..|s| - 1] == Decimal(n / 10);
      DecimalRoundTrip(n / 10);
    }
  }

  /** What follows the height in every cache file name: "v3.vstickerframecache". */
  const VersionTail: string := "v" + Decimal(FormatVersion) + CacheSuffix

  /** The cache file of a sticker rendered at `width` x `height`: "<prefix>_<w>x<h>-v3.vstickerframecache". */
  function CachePath(prefix: string, width: nat, height: nat): (path: string)
    ensures |path| > |prefix| + |CacheSuffix| && path[..|prefix|] == prefix
    ensures path[|path| - |CacheSuffix|..] == CacheSuffix
  {
    prefix + "_" + Decimal(width) + "x" + Decimal(height) + "-" + VersionTail
  }

  /** The file name regrouped: the prefix and "_", then width, "x", height, "-" and the tail. */
  lemma CachePathShape(prefix: string, width: nat, height: nat)
    ensures CachePath(prefix, width, height)
      == (prefix + "_") + (Decimal(width) + ['x'] + (Decimal(height) + ['-'] + VersionTail))
  {
  }

  /** How many decimal digits `s` starts with. */
  function LeadingDigits(s: string): (n: nat)
    ensures n <= |s|
  {
    if s == [] || !IsDigit(s[0]) then 0 else 1 + LeadingDigits(s[1..])
  }

  /** A digit string followed by a non-digit is exactly the leading digit run. */
  lemma {:induction false} LeadingDigitsBeforeSeparator(a: string, sep: char, b: string)
    requires AllDigits(a) && !IsDigit(sep)
    ensures LeadingDigits(a + [sep] + b) == |a|
  {
    if a != [] {
      assert (a + [sep] + b)[1..] == a[1..] + [sep] + b;
      LeadingDigitsBeforeSeparator(a[1..], sep, b);
    }
  }

  /** Two digit strings followed by the same non-digit separator split at the same place. */
  lemma SplitAtSeparator(a: string, b: string, c: string, d: string, sep: char)
    requires AllDigits(a) && AllDigits(c) && !IsDigit(sep)
    requires a + [sep] + b == c + [sep] + d
    ensures a == c && b == d
  {
    var x := a + [sep] + b;
    LeadingDigitsBeforeSeparator(a, sep, b);
    LeadingDigitsBeforeSeparator(c, sep, d);
    assert a == x[..|a|] == c;
    assert b == x[|a| + 1..] == d;
  }

  /** Equal sequences with a common front are equal after it. */
  lemma DropCommonPrefix(u: string, a: string, b: string)
    requires u + a == u + b
    ensures a == b
  {
    assert a == (u + a)[|u|..];
    assert b == (u + b)[|u|..];
  }

  /**
   * Different dimensions never share a cache file: the path determines the
   * width and the height it was made for.
   */
  lemma CachePathInjective(prefix: string, w1: nat, h1: nat, w2: nat, h2: nat)
    requires CachePath(prefix, w1, h1) == CachePath(prefix, w2, h2)
    ensures w1 == w2 && h1 == h2
  {
    CachePathShape(prefix, w1, h1);
    CachePathShape(prefix, w2, h2);
    DropCommonPrefix(prefix + "_",
      Decimal(w1) + ['x'] + (Decimal(h1) + ['-'] + VersionTail),
      Decimal(w2) + ['x'] + (Decimal(h2) + ['-'] + VersionTail));
    SplitAtSeparator(Decimal(w1), Decimal(h1) + ['-'] + VersionTail,
                     Decimal(w2), Decimal(h2) + ['-'] + VersionTail, 'x');
    SplitAtSeparator(Decimal(h1), VersionTail, Decimal(h2), VersionTail, '-');
    DecimalRoundTrip(w1);
    DecimalRoundTrip(w2);
    DecimalRoundTrip(h1);
    DecimalRoundTrip(h2);
  }

  // ---------------------------------------------------------- decode buffer

  /** `(x + 1) & ~1` for a non-negative `x`: `x` rounded up to an even number. */
  function RoundUpToEven(x: nat): (r: nat)
    ensures r % 2 == 0 && x <= r <= x + 1
  {
    (x + 1) - (x + 1) % 2
  }

  /**
   * Bytes of the buffer a cached frame is decompressed into: luma and chroma at
   * two bytes per pixel, plus an alpha plane at half a byte per pixel whose
   * rows are padded to an even width.
   */
  function YuvaLength(width: nat, height: nat): (n: nat)
    ensures n == 2 * width * height + ((width + 1) / 2) * height
    ensures n >= 2 * width * height
  {
    var pixelsPerAlphaRow := RoundUpToEven(width);
    assert pixelsPerAlphaRow == 2 * ((width + 1) / 2);
    assert pixelsPerAlphaRow * height == 2 * (((width + 1) / 2) * height);
    width * height * 2 + pixelsPerAlphaRow * height / 2
  }

  // ---------------------------------------------------------- entry checks

  datatype FrameRangeResult = Range(lower: int, upper: int) | NotFound | CorruptedFile

  /** How the lookup judges an entry once both of its words were read. */
  function ClassifyEntry(offset: int, length: int): (r: FrameRangeResult)
    ensures r.NotFound? <==> length == 0
    ensures r.CorruptedFile? <==>
      length != 0 && (length < 0 || offset < 0 || offset + length > CorruptionCeiling)
    ensures r.Range? ==> r.lower == offset && r.upper == offset + length
    ensures r.Range? ==> 0 <= r.lower < r.upper <= CorruptionCeiling
  {
    if length == 0 then NotFound
    else if length < 0 || offset < 0 then CorruptedFile
    else if offset + length > CorruptionCeiling then CorruptedFile
    else Range(offset, offset + length)
  }
}
