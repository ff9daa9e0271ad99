/** Bytes and the 32-bit signed words the cache file stores, little-endian. */
module Bytes {

  type Byte = b: int | 0 <= b < 256

  const Int32Min: int := -0x8000_0000
  const Int32Max: int := 0x7fff_ffff

  /** Whether `x` fits a Swift `Int32`; `Int32(x)` traps otherwise. */
  predicate InInt32(x: int) {
    Int32Min <= x <= Int32Max
  }

  /** `n` zero bytes. */
  function Zeros(n: nat): (z: seq<Byte>)
    ensures |z| == n
    ensures forall i :: 0 <= i < n ==> z[i] == 0
  {
    seq(n, _ => 0)
  }

  /** The in-memory image of an `Int32` on a little-endian machine (two's complement). */
  function EncodeInt32(x: int): (b: seq<Byte>)
    requires InInt32(x)
    ensures |b| == 4
    ensures x == 0 ==> b == Zeros(4)
  {
    var u := if x < 0 then x + 0x1_0000_0000 else x;
    [u % 256, (u / 0x100) % 256, (u / 0x1_0000) % 256, u / 0x100_0000]
  }

  /** The `Int32` whose in-memory image is the four bytes `b`. */
  function DecodeInt32(b: seq<Byte>): (x: int)
    requires |b| == 4
    ensures InInt32(x)
    ensures x < 0 <==> b[3] >= 128
  {
    var u := b[0] as int + 0x100 * (b[1] as int) + 0x1_0000 * (b[2] as int) + 0x100_0000 * (b[3] as int);
    if u >= 0x8000_0000 then u - 0x1_0000_0000 else u
  }

  /** Dividing `q * 256 + r` by 256 gives back `q` and `r`. */
  lemma DivModOf(q: int, r: int)
    requires 0 <= r < 256
    ensures (q * 256 + r) / 256 == q && (q * 256 + r) % 256 == r
  {
  }

  /** Reading back a written word yields the written value. */
  lemma DecodeEncode(x: int)
    requires InInt32(x)
    ensures DecodeInt32(EncodeInt32(x)) == x
  {
    var u := if x < 0 then x + 0x1_0000_0000 else x;
    var q1 := u / 0x100;
    var q2 := q1 / 0x100;
    var q3 := q2 / 0x100;
    assert u == q1 * 0x100 + u % 256;
    assert q1 == q2 * 0x100 + q1 % 256;
    assert q2 == q3 * 0x100 + q2 % 256;
    assert q2 == u / 0x1_0000;
    assert q3 == u / 0x100_0000;
    var b := EncodeInt32(x);
    assert b[0] as int + 0x100 * (b[1] as int) + 0x1_0000 * (b[2] as int) + 0x100_0000 * (b[3] as int) == u;
  }

  /** Every four bytes are the image of exactly one `Int32`: the word they decode to. */
  lemma EncodeDecode(b: seq<Byte>)
    requires |b| == 4
    ensures EncodeInt32(DecodeInt32(b)) == b
  {
    var u := b[0] as int + 0x100 * (b[1] as int) + 0x1_0000 * (b[2] as int) + 0x100_0000 * (b[3] as int);
    var x := DecodeInt32(b);
    assert (if x < 0 then x + 0x1_0000_0000 else x) == u;
    var r1 := b[1] as int + 0x100 * (b[2] as int) + 0x1_0000 * (b[3] as int);
    var r2 := b[2] as int + 0x100 * (b[3] as int);
    DivModOf(r1, b[0]);
    assert u == r1 * 0x100 + b[0];
    DivModOf(r2, b[1]);
    assert r1 == r2 * 0x100 + b[1];
    DivModOf(b[3], b[2]);
    assert u / 0x1_0000 == (u / 0x100) / 0x100;
    assert u / 0x100_0000 == ((u / 0x100) / 0x100) / 0x100;
  }
}
