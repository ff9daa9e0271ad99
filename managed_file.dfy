/**
 * The cache file: its bytes and its cursor, with the primitives the cache
 * drives (seek, read, write, truncate, size). They follow POSIX lseek, read,
 * write, ftruncate and fstat: a read stops at end of file, a write past the
 * end fills the gap with zeros, and truncating does not move the cursor.
 */
module ManagedFiles {
  import opened Bytes
  import opened Wrappers

  /** The file after writing `bytes` at `pos`, as write(2) at that offset leaves it. */
  function Overwrite(data: seq<Byte>, pos: nat, bytes: seq<Byte>): (r: seq<Byte>)
    ensures |r| == if pos + |bytes| <= |data| then |data| else pos + |bytes|
    ensures forall i :: 0 <= i < |r| ==>
      r[i] == if pos <= i < pos + |bytes| then bytes[i - pos] else if i < |data| then data[i] else 0
  {
    var padded := if pos <= |data| then data else data + Zeros(pos - |data|);
    padded[..pos] + bytes + (if pos + |bytes| < |padded| then padded[pos + |bytes|..] else [])
  }

  /** What read(2) of `n` bytes at `pos` returns: at most `n`, fewer at end of file. */
  function ReadAt(data: seq<Byte>, pos: nat, n: nat): (r: seq<Byte>)
    ensures |r| == if pos >= |data| then 0 else if pos + n <= |data| then n else |data| - pos
    ensures forall i :: 0 <= i < |r| ==> r[i] == data[pos + i]
  {
    if pos >= |data| then [] else if pos + n <= |data| then data[pos..pos + n] else data[pos..]
  }

  /** The file after ftruncate(2) to `n` bytes: cut, or extended with zeros. */
  function Resize(data: seq<Byte>, n: nat): (r: seq<Byte>)
    ensures |r| == n
    ensures forall i :: 0 <= i < n ==> r[i] == if i < |data| then data[i] else 0
  {
    if n <= |data| then data[..n] else data + Zeros(n - |data|)
  }

  /** A read of a range that a write just filled returns exactly what was written. */
  lemma ReadOwnWrite(data: seq<Byte>, pos: nat, bytes: seq<Byte>)
    ensures ReadAt(Overwrite(data, pos, bytes), pos, |bytes|) == bytes
  {
    var r := ReadAt(Overwrite(data, pos, bytes), pos, |bytes|);
    assert |r| == |bytes|;
    forall i | 0 <= i < |bytes| ensures r[i] == bytes[i] {
    }
  }

  /** A read of a range that a write did not touch returns what was there before. */
  lemma ReadOtherWrite(data: seq<Byte>, pos: nat, bytes: seq<Byte>, at: nat, n: nat)
    requires at + n <= |data|
    requires at + n <= pos || pos + |bytes| <= at
    ensures ReadAt(Overwrite(data, pos, bytes), at, n) == data[at..at + n]
  {
    var r := ReadAt(Overwrite(data, pos, bytes), at, n);
    assert |r| == n;
    forall i | 0 <= i < n ensures r[i] == data[at + i] {
    }
  }

  /** Writing zeros at or past the end of an all-zero file leaves an all-zero file. */
  lemma ZerosAfterZeros(n: nat, pos: nat, k: nat)
    requires n <= pos
    ensures Overwrite(Zeros(n), pos, Zeros(k)) == Zeros(pos + k)
  {
  }

  /** An open file descriptor: the file's bytes and the descriptor's offset. */
  class ManagedFile {
    var data: seq<Byte>
    var position: nat
    /** Whether fstat(2) succeeds on this descriptor; the source treats a failure as "size unknown". */
    const statOk: bool

    constructor (contents: seq<Byte>, statOk: bool)
      ensures data == contents && position == 0 && this.statOk == statOk
    {
      data := contents;
      position := 0;
      this.statOk := statOk;
    }

    method Seek(pos: nat)
      modifies this`position
      ensures position == pos
    {
      position := pos;
    }

    /** Reads up to `n` bytes at the cursor and moves the cursor past them. */
    method Read(n: nat) returns (r: seq<Byte>)
      modifies this`position
      ensures r == ReadAt(data, old(position), n)
      ensures position == old(position) + |r|
    {
      r := ReadAt(data, position, n);
      position := position + |r|;
    }

    /** Writes `bytes` at the cursor and moves the cursor past them. */
    method Write(bytes: seq<Byte>)
      modifies this`data, this`position
      ensures data == Overwrite(old(data), old(position), bytes)
      ensures position == old(position) + |bytes|
    {
      data := Overwrite(data, position, bytes);
      position := position + |bytes|;
    }

    method Truncate(n: nat)
      modifies this`data
      ensures data == Resize(old(data), n)
    {
      data := Resize(data, n);
    }

    method GetSize() returns (size: Option<nat>)
      ensures size == if statOk then Some(|data|) else None
    {
      size := if statOk then Some(|data|) else None;
    }
  }
}
