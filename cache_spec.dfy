/**
 * The cache's operations as functions of its state: the file's bytes, the
 * file cursor and the in-memory copy of the header. Each method of
 * VideoStickerFrameSourceCache is proved to move its state exactly as the
 * matching function here says; the lemmas below state what those moves mean.
 */
module CacheSpec {
  import opened Bytes
  import opened Wrappers
  import opened ManagedFiles
  import opened CacheFormat

  /** The file's bytes and cursor, and the cache's in-memory `frameRate` and `frameCount`. */
  datatype CacheState = CacheState(data: seq<Byte>, position: nat, frameRate: int, frameCount: int)

  datatype Probed = Probed(ok: bool, state: CacheState)
  datatype Ranged = Ranged(result: FrameRangeResult, state: CacheState)
  datatype FrameRead = FrameRead(frame: Option<seq<Byte>>, state: CacheState)

  // ------------------------------------------------------------ file views

  /** The header holds a positive frame rate and a positive frame count. */
  predicate IsFinalised(data: seq<Byte>) {
    |data| >= HeaderSize && DecodeInt32(data[0..4]) > 0 && DecodeInt32(data[4..8]) > 0
  }

  /** Both words of the directory entry of `index` lie inside the file. */
  predicate EntryReadable(data: seq<Byte>, index: int)
    requires 0 <= index < MaximumFrameCount
  {
    EntryOffset(index) + EntrySize <= |data|
  }

  function EntryOffsetField(data: seq<Byte>, index: int): int
    requires 0 <= index < MaximumFrameCount && EntryReadable(data, index)
  {
    DecodeInt32(data[EntryOffset(index)..EntryOffset(index) + 4])
  }

  function EntryLengthField(data: seq<Byte>, index: int): int
    requires 0 <= index < MaximumFrameCount && EntryReadable(data, index)
  {
    DecodeInt32(data[EntryOffset(index) + 4..EntryOffset(index) + 8])
  }

  /** A full four-byte read returns the bytes at that place. */
  lemma FullRead(data: seq<Byte>, pos: nat)
    requires pos + 4 <= |data|
    ensures ReadAt(data, pos, 4) == data[pos..pos + 4]
  {
  }

  // ------------------------------------------------------------ operations

  /**
   * readFrameRate: once the in-memory frame count is set, succeed without I/O;
   * otherwise read both header words and accept them only when both are
   * positive. A positive rate is kept in memory even when the count is then
   * refused.
   */
  function ReadFrameRateSpec(s: CacheState): (p: Probed)
    ensures p.state.data == s.data
    ensures p.ok ==> p.state.frameCount != 0
  {
    if s.frameCount != 0 then Probed(true, s)
    else
      var rateBytes := ReadAt(s.data, 0, 4);
      if |rateBytes| != 4 then Probed(false, s.(position := |rateBytes|))
      else
        var rate := DecodeInt32(rateBytes);
        if rate <= 0 then Probed(false, s.(position := 4))
        else
          var countBytes := ReadAt(s.data, 4, 4);
          if |countBytes| != 4 then Probed(false, s.(position := 4 + |countBytes|, frameRate := rate))
          else
            var count := DecodeInt32(countBytes);
            if count <= 0 then Probed(false, s.(position := 8, frameRate := rate))
            else Probed(true, s.(position := 8, frameRate := rate, frameCount := count))
  }

  /** The reset of initializeFrameTable: cut the file to nothing, then write 2408 zero bytes at the cursor. */
  function ResetTableSpec(s: CacheState): (t: CacheState)
    ensures |t.data| == s.position + TableSize && t.position == |t.data|
    ensures forall i :: 0 <= i < |t.data| ==> t.data[i] == 0
    ensures t.frameRate == s.frameRate && t.frameCount == s.frameCount
  {
    s.(data := Overwrite(Resize(s.data, 0), s.position, Zeros(TableSize)), position := s.position + TableSize)
  }

  /**
   * initializeFrameTable: keep the file when its size is known, at least 300
   * bytes (the slot count, not the table size), and its header reads back;
   * otherwise reset it.
   */
  function InitializeFrameTableSpec(s: CacheState, statOk: bool): (t: CacheState)
    ensures t.data == s.data || (|t.data| >= TableSize && forall i :: 0 <= i < |t.data| ==> t.data[i] == 0)
    ensures s.frameCount != 0 ==> t.frameCount == s.frameCount
  {
    var probe := if statOk && |s.data| >= MaximumFrameCount then ReadFrameRateSpec(s) else Probed(false, s);
    if probe.ok then probe.state else ResetTableSpec(probe.state)
  }

  /** storeFrameRateAndCount: write both header words; the in-memory copy is left alone. */
  function StoreFrameRateAndCountSpec(s: CacheState, frameRate: int, frameCount: int): (t: CacheState)
    requires InInt32(frameRate) && InInt32(frameCount)
    ensures |t.data| == (if |s.data| < HeaderSize then HeaderSize else |s.data|) && t.position == HeaderSize
    ensures t.data[..HeaderSize] == EncodeInt32(frameRate) + EncodeInt32(frameCount)
    ensures forall i :: HeaderSize <= i < |s.data| ==> t.data[i] == s.data[i]
    ensures t.frameRate == s.frameRate && t.frameCount == s.frameCount
  {
    s.(data := Overwrite(Overwrite(s.data, 0, EncodeInt32(frameRate)), 4, EncodeInt32(frameCount)), position := 8)
  }

  /** readFrameRange: look up the directory entry of `index`. */
  function ReadFrameRangeSpec(s: CacheState, index: int): (r: Ranged)
    ensures r.state.data == s.data
    ensures r.result.Range? ==> 0 <= r.result.lower < r.result.upper <= CorruptionCeiling
  {
    if index < 0 || index >= MaximumFrameCount then Ranged(NotFound, s)
    else
      var p := ReadFrameRateSpec(s);
      if !p.ok || index >= p.state.frameCount then Ranged(NotFound, p.state)
      else
        var pos := EntryOffset(index);
        var offsetBytes := ReadAt(s.data, pos, 4);
        if |offsetBytes| != 4 then Ranged(CorruptedFile, p.state.(position := pos + |offsetBytes|))
        else
          var lengthBytes := ReadAt(s.data, pos + 4, 4);
          if |lengthBytes| != 4 then Ranged(CorruptedFile, p.state.(position := pos + 4 + |lengthBytes|))
          else Ranged(ClassifyEntry(DecodeInt32(offsetBytes), DecodeInt32(lengthBytes)), p.state.(position := pos + 8))
  }

  /**
   * What compression_decode_buffer leaves for the caller: 0 bytes when the
   * input does not decode, otherwise the decoded bytes cut to the buffer's capacity.
   */
  function DecodeInto(decoded: Option<seq<Byte>>, capacity: nat): (out: seq<Byte>)
    ensures decoded.None? ==> out == []
    ensures decoded.Some? ==> |out| == (if |decoded.value| <= capacity then |decoded.value| else capacity)
    ensures decoded.Some? ==> out == decoded.value[..|out|]
  {
    match decoded
    case None => []
    case Some(d) => if |d| <= capacity then d else d[..capacity]
  }

  /**
   * readUncompressedYuvaFrame: a hit reads the blob the entry names and decodes
   * it; a miss returns nothing; a corrupted entry truncates the file, runs
   * initializeFrameTable again and returns nothing.
   */
  function ReadUncompressedYuvaFrameSpec(s: CacheState, statOk: bool, decompress: seq<Byte> -> Option<seq<Byte>>,
                                         capacity: nat, index: int): (r: FrameRead)
    ensures r.frame.Some? ==> |r.frame.value| <= capacity
  {
    if index < 0 || index >= MaximumFrameCount then FrameRead(None, s)
    else
      var ranged := ReadFrameRangeSpec(s, index);
      match ranged.result
      case Range(lower, upper) => ReadBlobSpec(ranged.state, decompress, capacity, lower, upper)
      case NotFound => FrameRead(None, ranged.state)
      case CorruptedFile =>
        FrameRead(None, InitializeFrameTableSpec(ranged.state.(data := Resize(ranged.state.data, 0)), statOk))
  }

  /** The hit branch of readUncompressedYuvaFrame: read the blob at lower..upper and decode it, unless the read comes up short. */
  function ReadBlobSpec(s: CacheState, decompress: seq<Byte> -> Option<seq<Byte>>, capacity: nat,
                        lower: nat, upper: nat): (r: FrameRead)
    requires lower <= upper
    ensures r.state.data == s.data && r.state.frameRate == s.frameRate && r.state.frameCount == s.frameCount
    ensures r.frame.Some? ==> r.state.position == upper && |r.frame.value| <= capacity
  {
    var blob := ReadAt(s.data, lower, upper - lower);
    var t := s.(position := lower + |blob|);
    if |blob| != upper - lower then FrameRead(None, t)
    else FrameRead(Some(DecodeInto(decompress(blob), capacity)), t)
  }

  /** The decode buffer after a read that returned `frame`: a decoded frame overwrites its front. */
  function Overlay(buffer: seq<Byte>, frame: Option<seq<Byte>>): (r: seq<Byte>)
    requires frame.Some? ==> |frame.value| <= |buffer|
    ensures |r| == |buffer|
    ensures frame.Some? ==> r[..|frame.value|] == frame.value && r[|frame.value|..] == buffer[|frame.value|..]
    ensures frame.None? ==> r == buffer
  {
    if frame.Some? then frame.value + buffer[|frame.value|..] else buffer
  }

  /**
   * The completion of a store: write the entry (old size, blob length) into
   * the slot, then append the blob where the file used to end.
   */
  function CompleteStoreSpec(s: CacheState, index: int, blob: seq<Byte>): (t: CacheState)
    requires 0 <= index < MaximumFrameCount
    requires InInt32(|s.data|) && InInt32(|blob|)
    // the file grows just enough to hold both the slot's entry and the blob appended at the old end
    ensures |t.data| == (if |s.data| + |blob| < EntryOffset(index) + EntrySize then EntryOffset(index) + EntrySize
                         else |s.data| + |blob|)
    ensures t.position == |s.data| + |blob| && t.frameRate == s.frameRate && t.frameCount == s.frameCount
  {
    var size := |s.data|;
    var withOffset := Overwrite(s.data, EntryOffset(index), EncodeInt32(size));
    var withEntry := Overwrite(withOffset, EntryOffset(index) + 4, EncodeInt32(|blob|));
    s.(data := Overwrite(withEntry, size, blob), position := size + |blob|)
  }

  /** The submission half of storeUncompressedRgbFrame: the set of frames being stored afterwards. */
  function Submit(storing: set<int>, index: int): (r: set<int>)
    ensures storing <= r && r <= storing + {index}
    ensures r != storing <==> 0 <= index < MaximumFrameCount && index !in storing
    ensures r != storing ==> |r| == |storing| + 1
  {
    if index < 0 || index >= MaximumFrameCount || index in storing then storing else storing + {index}
  }

  /** The set after submitting `indices` one after another. */
  function SubmitAll(storing: set<int>, indices: seq<int>): (r: set<int>)
    ensures storing <= r
    ensures forall i :: i in r && i !in storing ==> 0 <= i < MaximumFrameCount
    decreases |indices|
  {
    if indices == [] then storing else SubmitAll(Submit(storing, indices[0]), indices[1..])
  }

  /** How many of those submissions started a compression. */
  function ScheduledStores(storing: set<int>, indices: seq<int>): (n: nat)
    ensures n <= |indices|
    decreases |indices|
  {
    if indices == [] then 0
    else (if Submit(storing, indices[0]) != storing then 1 else 0) + ScheduledStores(Submit(storing, indices[0]), indices[1..])
  }

  // ------------------------------------------------------------ properties

  /** Four zero bytes anywhere in an all-zero file decode to 0. */
  lemma ZeroWord(n: nat, pos: nat)
    requires pos + 4 <= n
    ensures DecodeInt32(Zeros(n)[pos..pos + 4]) == 0
  {
    assert Zeros(n)[pos..pos + 4] == Zeros(4);
  }

  /**
   * A table reset leaves only zero bytes: 2408 of them when the cursor was at
   * the start, and in every case a zero header (not finalised) and a zero
   * offset and length in every directory entry.
   */
  lemma ResetTableZeros(s: CacheState)
    ensures ResetTableSpec(s).data == Zeros(s.position + TableSize)
    ensures s.position == 0 ==> |ResetTableSpec(s).data| == TableSize
    ensures !IsFinalised(ResetTableSpec(s).data)
    ensures forall i :: 0 <= i < MaximumFrameCount ==>
      EntryReadable(ResetTableSpec(s).data, i) &&
      EntryOffsetField(ResetTableSpec(s).data, i) == 0 && EntryLengthField(ResetTableSpec(s).data, i) == 0
  {
    var n := s.position + TableSize;
    var d := ResetTableSpec(s).data;
    assert d == Zeros(n);
    ZeroWord(n, 0);
    forall i | 0 <= i < MaximumFrameCount
      ensures EntryReadable(d, i) && EntryOffsetField(d, i) == 0 && EntryLengthField(d, i) == 0
    {
      ZeroWord(n, EntryOffset(i));
      ZeroWord(n, EntryOffset(i) + 4);
    }
  }

  /**
   * readFrameRate from an unset in-memory count succeeds exactly when the
   * file's header is finalised, and then copies both words.
   */
  lemma ReadFrameRateCases(s: CacheState)
    requires s.frameCount == 0
    ensures ReadFrameRateSpec(s).ok <==> IsFinalised(s.data)
    ensures ReadFrameRateSpec(s).ok ==>
      ReadFrameRateSpec(s).state.frameRate == DecodeInt32(s.data[0..4]) &&
      ReadFrameRateSpec(s).state.frameCount == DecodeInt32(s.data[4..8])
    ensures !ReadFrameRateSpec(s).ok ==> ReadFrameRateSpec(s).state.frameCount == 0
  {
    if |s.data| >= 4 {
      FullRead(s.data, 0);
    }
    if |s.data| >= 8 {
      FullRead(s.data, 4);
    }
  }

  /** Once the in-memory count is set, readFrameRate succeeds without reading or changing anything. */
  lemma ReadFrameRateKnown(s: CacheState)
    requires s.frameCount != 0
    ensures ReadFrameRateSpec(s) == Probed(true, s)
  {
  }

  /**
   * Finalising writes a header that an unset cache reads back exactly when
   * both values are positive, and then as exactly that pair; the directory
   * and the blobs after the header are untouched.
   */
  lemma StoredHeaderReadsBack(s: CacheState, frameRate: int, frameCount: int)
    requires InInt32(frameRate) && InInt32(frameCount) && s.frameCount == 0
    ensures var t := StoreFrameRateAndCountSpec(s, frameRate, frameCount);
      && (ReadFrameRateSpec(t).ok <==> frameRate > 0 && frameCount > 0)
      && (ReadFrameRateSpec(t).ok ==>
            ReadFrameRateSpec(t).state.frameRate == frameRate && ReadFrameRateSpec(t).state.frameCount == frameCount)
      && |t.data| == (if |s.data| < HeaderSize then HeaderSize else |s.data|)
      && (forall i :: HeaderSize <= i < |s.data| ==> t.data[i] == s.data[i])
  {
    var t := StoreFrameRateAndCountSpec(s, frameRate, frameCount);
    var d1 := Overwrite(s.data, 0, EncodeInt32(frameRate));
    ReadOwnWrite(d1, 4, EncodeInt32(frameCount));
    ReadOwnWrite(s.data, 0, EncodeInt32(frameRate));
    ReadOtherWrite(d1, 4, EncodeInt32(frameCount), 0, 4);
    assert ReadAt(t.data, 0, 4) == EncodeInt32(frameRate);
    assert ReadAt(t.data, 4, 4) == EncodeInt32(frameCount);
    DecodeEncode(frameRate);
    DecodeEncode(frameCount);
  }

  /**
   * initializeFrameTable keeps the file, byte for byte, exactly when its size
   * is known, it has at least 300 bytes and its header is already known or
   * reads back; otherwise the file becomes zeros covering at least the whole
   * table. The in-memory frame count is never cleared.
   */
  lemma InitializeFrameTableCases(s: CacheState, statOk: bool)
    ensures var kept := statOk && |s.data| >= MaximumFrameCount && (s.frameCount != 0 || IsFinalised(s.data));
      var t := InitializeFrameTableSpec(s, statOk);
      && (kept ==> t.data == s.data && t.frameCount != 0)
      && (!kept ==> t.data == Zeros(|t.data|) && |t.data| >= TableSize && t.frameCount == s.frameCount)
      && (s.frameCount != 0 ==> t.frameCount == s.frameCount)
  {
    var probe := if statOk && |s.data| >= MaximumFrameCount then ReadFrameRateSpec(s) else Probed(false, s);
    if s.frameCount == 0 {
      ReadFrameRateCases(s);
    }
    ResetTableZeros(probe.state);
  }

  /**
   * A file of at least 300 bytes whose header is refused is reset at the
   * cursor the header probe left, 4 after a refused rate and 8 after a
   * refused count, so it becomes 2412 or 2416 zero bytes rather than 2408.
   */
  lemma RefusedHeaderReset(s: CacheState)
    requires s.frameCount == 0 && |s.data| >= MaximumFrameCount && !IsFinalised(s.data)
    ensures var t := InitializeFrameTableSpec(s, true);
      && t.data == Zeros(|t.data|)
      && |t.data| == (if DecodeInt32(s.data[0..4]) <= 0 then 4 else 8) + TableSize
  {
    FullRead(s.data, 0);
    FullRead(s.data, 4);
    ReadFrameRateCases(s);
    ResetTableZeros(ReadFrameRateSpec(s).state);
  }

  /**
   * The size test compares with the entry count, not with the table's byte
   * size: a 300-byte file whose header reads back is kept as it is, although
   * the directory entries from slot 36 on lie past its end, so those slots
   * then read as corrupted once the header counts them.
   */
  lemma ShortTableKept(s: CacheState, index: int)
    requires s.frameCount == 0 && |s.data| == MaximumFrameCount && IsFinalised(s.data)
    requires 36 <= index < MaximumFrameCount && index < DecodeInt32(s.data[4..8])
    ensures var t := InitializeFrameTableSpec(s, true);
      && t.data == s.data
      && !EntryReadable(t.data, index)
      && ReadFrameRangeSpec(t, index).result.CorruptedFile?
  {
    InitializeFrameTableCases(s, true);
    ReadFrameRateCases(s);
    var t := InitializeFrameTableSpec(s, true);
    assert t.frameCount == DecodeInt32(s.data[4..8]);
    ReadFrameRangeCases(t, index);
  }

  /**
   * The lookup's verdicts. It misses when the index is out of range, the
   * header is not finalised, the index is at or past the frame count, or the
   * entry is empty. It reports corruption on a short read, a negative offset
   * or length, or a range ending past 100 MiB. Otherwise it yields exactly
   * the range the entry names.
   */
  lemma ReadFrameRangeCases(s: CacheState, index: int)
    ensures var r := ReadFrameRangeSpec(s, index).result;
      var p := ReadFrameRateSpec(s);
      var inTable := 0 <= index < MaximumFrameCount && p.ok && index < p.state.frameCount;
      && (r.NotFound? <==>
            !inTable || (EntryReadable(s.data, index) && EntryLengthField(s.data, index) == 0))
      && (r.CorruptedFile? <==>
            inTable && (!EntryReadable(s.data, index) ||
              (EntryLengthField(s.data, index) != 0 &&
               (EntryLengthField(s.data, index) < 0 || EntryOffsetField(s.data, index) < 0 ||
                EntryOffsetField(s.data, index) + EntryLengthField(s.data, index) > CorruptionCeiling))))
      && (r.Range? ==>
            inTable && EntryReadable(s.data, index) &&
            r == Range(EntryOffsetField(s.data, index), EntryOffsetField(s.data, index) + EntryLengthField(s.data, index)))
  {
    if 0 <= index < MaximumFrameCount && EntryReadable(s.data, index) {
      FullRead(s.data, EntryOffset(index));
      FullRead(s.data, EntryOffset(index) + 4);
    }
  }

  /**
   * Self-healing: after a read meets a corrupted entry, the file is all zeros
   * covering the table, the in-memory frame count is still the one that was
   * set, and a lookup or read of any index on the reset file misses; this
   * lasts until a store completes.
   */
  lemma CorruptionSelfHeals(s: CacheState, statOk: bool, decompress: seq<Byte> -> Option<seq<Byte>>,
                            capacity: nat, index: int, later: int)
    requires ReadFrameRangeSpec(s, index).result.CorruptedFile?
    ensures var t := ReadUncompressedYuvaFrameSpec(s, statOk, decompress, capacity, index);
      && t.frame.None?
      && t.state.data == Zeros(|t.state.data|) && |t.state.data| >= HeaderSize + TableSize
      && t.state.frameCount == ReadFrameRateSpec(s).state.frameCount > 0
      && ReadFrameRangeSpec(t.state, later).result.NotFound?
      && ReadUncompressedYuvaFrameSpec(t.state, statOk, decompress, capacity, later).frame.None?
  {
    ReadFrameRangeCases(s, index);
    var ranged := ReadFrameRangeSpec(s, index);
    var cut := ranged.state.(data := Resize(ranged.state.data, 0));
    assert ReadFrameRateSpec(s).ok && ranged.state == ReadFrameRateSpec(s).state.(position := ranged.state.position);
    InitializeFrameTableCases(cut, statOk);
    var t := ReadUncompressedYuvaFrameSpec(s, statOk, decompress, capacity, index);
    assert t.state == InitializeFrameTableSpec(cut, statOk);
    assert t.state == ResetTableSpec(cut);
    ResetTableZeros(cut);
    ReadFrameRangeCases(t.state, later);
  }

  /**
   * Completing a store on a file that holds the whole table appends the blob:
   * the file grows by exactly its length, the blob sits where the file used
   * to end, the slot's entry names it, and every other byte that was there
   * is unchanged.
   */
  lemma CompleteStoreAppends(s: CacheState, index: int, blob: seq<Byte>)
    requires 0 <= index < MaximumFrameCount
    requires InInt32(|s.data|) && InInt32(|blob|) && |s.data| >= TableSize
    ensures var t := CompleteStoreSpec(s, index, blob).data;
      && |t| == |s.data| + |blob|
      && t[|s.data|..] == blob
      && (forall i :: 0 <= i < |s.data| && !(EntryOffset(index) <= i < EntryOffset(index) + EntrySize) ==> t[i] == s.data[i])
      && EntryReadable(t, index)
      && EntryOffsetField(t, index) == |s.data| && EntryLengthField(t, index) == |blob|
  {
    var size := |s.data|;
    var withOffset := Overwrite(s.data, EntryOffset(index), EncodeInt32(size));
    var withEntry := Overwrite(withOffset, EntryOffset(index) + 4, EncodeInt32(|blob|));
    var t := CompleteStoreSpec(s, index, blob).data;
    assert |withEntry| == size;
    assert t[size..] == blob;
    var pos := EntryOffset(index);
    assert t[pos..pos + 4] == EncodeInt32(size);
    assert t[pos + 4..pos + 8] == EncodeInt32(|blob|);
    DecodeEncode(size);
    DecodeEncode(|blob|);
  }

  /**
   * The size test of initializeFrameTable lets a file shorter than the table
   * through, and completing a store on it appends the blob where the file
   * ends, which is inside the directory: with the blob ending before the
   * slot's entry, the file then ends with that entry and the blob overwrites
   * the entries it lands on.
   */
  lemma CompleteStoreOnShortFile(s: CacheState, index: int, blob: seq<Byte>)
    requires 0 <= index < MaximumFrameCount
    requires InInt32(|s.data|) && InInt32(|blob|)
    requires |s.data| + |blob| <= EntryOffset(index)
    ensures var t := CompleteStoreSpec(s, index, blob).data;
      && |t| == EntryOffset(index) + EntrySize
      && t[|s.data|..|s.data| + |blob|] == blob
      && t[EntryOffset(index)..EntryOffset(index) + 4] == EncodeInt32(|s.data|)
      && t[EntryOffset(index) + 4..EntryOffset(index) + 8] == EncodeInt32(|blob|)
  {
    var size := |s.data|;
    var pos := EntryOffset(index);
    var withOffset := Overwrite(s.data, pos, EncodeInt32(size));
    var withEntry := Overwrite(withOffset, pos + 4, EncodeInt32(|blob|));
    var t := CompleteStoreSpec(s, index, blob).data;
    assert |withEntry| == pos + 8;
    assert withEntry[pos..pos + 4] == EncodeInt32(size);
    assert t[pos..pos + 4] == withEntry[pos..pos + 4];
  }

  /**
   * A completed store is found again: once the header is known and counts the
   * slot, reading the slot decodes exactly the appended blob, provided the
   * blob is not empty and ends within 100 MiB.
   */
  lemma CompletedStoreIsRead(s: CacheState, index: int, blob: seq<Byte>, statOk: bool,
                             decompress: seq<Byte> -> Option<seq<Byte>>, capacity: nat)
    requires 0 <= index < MaximumFrameCount
    requires InInt32(|s.data|) && InInt32(|blob|) && |s.data| >= TableSize
    requires ReadFrameRateSpec(s).ok && index < ReadFrameRateSpec(s).state.frameCount
    requires |blob| > 0 && |s.data| + |blob| <= CorruptionCeiling
    ensures var t := CompleteStoreSpec(s, index, blob);
      && ReadFrameRangeSpec(t, index).result == Range(|s.data|, |s.data| + |blob|)
      && ReadUncompressedYuvaFrameSpec(t, statOk, decompress, capacity, index).frame
           == Some(DecodeInto(decompress(blob), capacity))
  {
    var t := CompleteStoreSpec(s, index, blob);
    CompletedStoreIsFound(s, index, blob);
    CompleteStoreAppends(s, index, blob);
    var ranged := ReadFrameRangeSpec(t, index);
    assert ranged.state.data == t.data;
    assert ReadAt(t.data, |s.data|, |blob|) == t.data[|s.data|..] == blob;
  }

  /** Once the header is known and counts the slot, the lookup finds the appended blob's range. */
  lemma CompletedStoreIsFound(s: CacheState, index: int, blob: seq<Byte>)
    requires 0 <= index < MaximumFrameCount
    requires InInt32(|s.data|) && InInt32(|blob|) && |s.data| >= TableSize
    requires ReadFrameRateSpec(s).ok && index < ReadFrameRateSpec(s).state.frameCount
    requires |blob| > 0 && |s.data| + |blob| <= CorruptionCeiling
    ensures ReadFrameRangeSpec(CompleteStoreSpec(s, index, blob), index).result == Range(|s.data|, |s.data| + |blob|)
  {
    var t := CompleteStoreSpec(s, index, blob);
    CompleteStoreKeepsHeader(s, index, blob);
    CompleteStoreEntryWords(s, index, blob);
    FoundUnderSameHeader(s, t, index, |s.data|, |blob|);
  }

  /** A completion leaves the header words and the in-memory header as they were. */
  lemma CompleteStoreKeepsHeader(s: CacheState, index: int, blob: seq<Byte>)
    requires 0 <= index < MaximumFrameCount
    requires InInt32(|s.data|) && InInt32(|blob|) && |s.data| >= TableSize
    ensures var t := CompleteStoreSpec(s, index, blob);
      && ReadAt(s.data, 0, 4) == ReadAt(t.data, 0, 4) && ReadAt(s.data, 4, 4) == ReadAt(t.data, 4, 4)
      && s.frameRate == t.frameRate && s.frameCount == t.frameCount
  {
    CompleteStoreKeepsTable(s, index, blob, 0);
    CompleteStoreKeepsTable(s, index, blob, 4);
  }

  /** A file whose header words match a known header's finds a counted slot where its entry points. */
  lemma FoundUnderSameHeader(s: CacheState, t: CacheState, index: int, offset: int, length: int)
    requires 0 <= index < MaximumFrameCount
    requires ReadAt(s.data, 0, 4) == ReadAt(t.data, 0, 4) && ReadAt(s.data, 4, 4) == ReadAt(t.data, 4, 4)
    requires s.frameRate == t.frameRate && s.frameCount == t.frameCount
    requires ReadFrameRateSpec(s).ok && index < ReadFrameRateSpec(s).state.frameCount
    requires InInt32(offset) && InInt32(length) && 0 <= offset && 0 < length && offset + length <= CorruptionCeiling
    requires ReadAt(t.data, EntryOffset(index), 4) == EncodeInt32(offset)
    requires ReadAt(t.data, EntryOffset(index) + 4, 4) == EncodeInt32(length)
    ensures ReadFrameRangeSpec(t, index).result == Range(offset, offset + length)
  {
    HeaderUntouched(s, t);
    FoundWhereEntryPoints(t, index, offset, length);
  }

  /** A lookup under a known header that counts the slot yields the range its entry words name. */
  lemma FoundWhereEntryPoints(t: CacheState, index: int, offset: int, length: int)
    requires 0 <= index < MaximumFrameCount
    requires ReadFrameRateSpec(t).ok && index < ReadFrameRateSpec(t).state.frameCount
    requires InInt32(offset) && InInt32(length) && 0 <= offset && 0 < length && offset + length <= CorruptionCeiling
    requires ReadAt(t.data, EntryOffset(index), 4) == EncodeInt32(offset)
    requires ReadAt(t.data, EntryOffset(index) + 4, 4) == EncodeInt32(length)
    ensures ReadFrameRangeSpec(t, index).result == Range(offset, offset + length)
  {
    DecodeEncode(offset);
    DecodeEncode(length);
  }

  /** After a completion the slot's entry words are the old file size and the blob's length. */
  lemma CompleteStoreEntryWords(s: CacheState, index: int, blob: seq<Byte>)
    requires 0 <= index < MaximumFrameCount
    requires InInt32(|s.data|) && InInt32(|blob|) && |s.data| >= TableSize
    ensures ReadAt(CompleteStoreSpec(s, index, blob).data, EntryOffset(index), 4) == EncodeInt32(|s.data|)
    ensures ReadAt(CompleteStoreSpec(s, index, blob).data, EntryOffset(index) + 4, 4) == EncodeInt32(|blob|)
  {
    var size := |s.data|;
    var pos := EntryOffset(index);
    var withOffset := Overwrite(s.data, pos, EncodeInt32(size));
    var withEntry := Overwrite(withOffset, pos + 4, EncodeInt32(|blob|));
    ReadOwnWrite(s.data, pos, EncodeInt32(size));
    FullRead(withOffset, pos);
    ReadOtherWrite(withOffset, pos + 4, EncodeInt32(|blob|), pos, 4);
    ReadOwnWrite(withOffset, pos + 4, EncodeInt32(|blob|));
    FullRead(withEntry, pos);
    FullRead(withEntry, pos + 4);
    ReadOtherWrite(withEntry, size, blob, pos, 4);
    ReadOtherWrite(withEntry, size, blob, pos + 4, 4);
  }

  /** Two files with the same header bytes give the same header verdict. */
  lemma HeaderUntouched(s: CacheState, t: CacheState)
    requires ReadAt(s.data, 0, 4) == ReadAt(t.data, 0, 4) && ReadAt(s.data, 4, 4) == ReadAt(t.data, 4, 4)
    requires s.frameRate == t.frameRate && s.frameCount == t.frameCount
    ensures ReadFrameRateSpec(t).ok == ReadFrameRateSpec(s).ok
    ensures ReadFrameRateSpec(t).state.frameCount == ReadFrameRateSpec(s).state.frameCount
    ensures ReadFrameRateSpec(t).state.frameRate == ReadFrameRateSpec(s).state.frameRate
  {
  }

  /** Completing a store on a file that holds the whole table leaves every byte of the table outside the slot's entry as it was. */
  lemma CompleteStoreKeepsTable(s: CacheState, index: int, blob: seq<Byte>, at: nat)
    requires 0 <= index < MaximumFrameCount
    requires InInt32(|s.data|) && InInt32(|blob|) && |s.data| >= TableSize
    requires at + 4 <= TableSize
    requires at + 4 <= EntryOffset(index) || EntryOffset(index) + EntrySize <= at
    ensures ReadAt(CompleteStoreSpec(s, index, blob).data, at, 4) == ReadAt(s.data, at, 4)
  {
    var size := |s.data|;
    var withOffset := Overwrite(s.data, EntryOffset(index), EncodeInt32(size));
    var withEntry := Overwrite(withOffset, EntryOffset(index) + 4, EncodeInt32(|blob|));
    ReadOtherWrite(s.data, EntryOffset(index), EncodeInt32(size), at, 4);
    ReadOtherWrite(withOffset, EntryOffset(index) + 4, EncodeInt32(|blob|), at, 4);
    ReadOtherWrite(withEntry, size, blob, at, 4);
    assert ReadAt(s.data, at, 4) == s.data[at..at + 4];
  }

  /**
   * Completing the store of one slot changes no other slot's lookup verdict.
   */
  lemma CompleteStoreKeepsOtherSlots(s: CacheState, index: int, blob: seq<Byte>, other: int)
    requires 0 <= index < MaximumFrameCount && other != index
    requires InInt32(|s.data|) && InInt32(|blob|) && |s.data| >= TableSize
    ensures ReadFrameRangeSpec(CompleteStoreSpec(s, index, blob), other).result == ReadFrameRangeSpec(s, other).result
  {
    var t := CompleteStoreSpec(s, index, blob);
    CompleteStoreKeepsHeader(s, index, blob);
    if 0 <= other < MaximumFrameCount {
      EntriesDisjoint(index, other);
      CompleteStoreKeepsTable(s, index, blob, EntryOffset(other));
      CompleteStoreKeepsTable(s, index, blob, EntryOffset(other) + 4);
      SameWordsSameLookup(s, t, other);
    }
  }

  /** Two files that agree on the header words and on a slot's entry give that slot the same lookup verdict. */
  lemma SameWordsSameLookup(s: CacheState, t: CacheState, index: int)
    requires 0 <= index < MaximumFrameCount
    requires ReadAt(s.data, 0, 4) == ReadAt(t.data, 0, 4) && ReadAt(s.data, 4, 4) == ReadAt(t.data, 4, 4)
    requires s.frameRate == t.frameRate && s.frameCount == t.frameCount
    requires ReadAt(s.data, EntryOffset(index), 4) == ReadAt(t.data, EntryOffset(index), 4)
    requires ReadAt(s.data, EntryOffset(index) + 4, 4) == ReadAt(t.data, EntryOffset(index) + 4, 4)
    ensures ReadFrameRangeSpec(t, index).result == ReadFrameRangeSpec(s, index).result
  {
    HeaderUntouched(s, t);
  }

  /**
   * Submissions are de-duplicated: a run of submissions leaves in the set
   * every in-range index it named, and starts exactly as many compressions
   * as the set grew, so each slot is compressed and written at most once.
   */
  lemma {:induction false} SubmitAllCollects(storing: set<int>, indices: seq<int>)
    ensures SubmitAll(storing, indices) == storing + InRange(indices)
    ensures ScheduledStores(storing, indices) == |SubmitAll(storing, indices)| - |storing|
    decreases |indices|
  {
    if indices != [] {
      var next := Submit(storing, indices[0]);
      SubmitAllCollects(next, indices[1..]);
      InRangeCons(indices);
      SubmitGrows(storing, next, SubmitAll(next, indices[1..]));
    }
  }

  /** The in-range indices a run of submissions names. */
  function InRange(indices: seq<int>): set<int>
  {
    set k | 0 <= k < |indices| && 0 <= indices[k] < MaximumFrameCount :: indices[k]
  }

  lemma InRangeCons(indices: seq<int>)
    requires indices != []
    ensures InRange(indices) == InRange(indices[1..]) + (if 0 <= indices[0] < MaximumFrameCount then {indices[0]} else {})
  {
    var head := if 0 <= indices[0] < MaximumFrameCount then {indices[0]} else {};
    forall x | x in InRange(indices) ensures x in InRange(indices[1..]) + head {
      var k :| 0 <= k < |indices| && 0 <= indices[k] < MaximumFrameCount && indices[k] == x;
      if k > 0 {
        assert indices[1..][k - 1] == x;
      }
    }
    forall x | x in InRange(indices[1..]) ensures x in InRange(indices) {
      var k :| 0 <= k < |indices[1..]| && 0 <= indices[1..][k] < MaximumFrameCount && indices[1..][k] == x;
      assert indices[k + 1] == x;
    }
  }

  /** Cardinalities along a chain of supersets add up. */
  lemma SubmitGrows(a: set<int>, b: set<int>, c: set<int>)
    requires a <= b <= c
    ensures |c| - |a| == (|c| - |b|) + (|b| - |a|) && |a| <= |b| <= |c|
  {
    assert |c| == |c - b| + |b|;
    assert |b| == |b - a| + |a|;
  }

  /** At most 300 slots can be in flight: the set of storing frames never exceeds the directory. */
  lemma {:induction false} StoringBound(storing: set<int>, n: nat)
    requires forall i :: i in storing ==> 0 <= i < n
    ensures |storing| <= n
  {
    if n > 0 {
      var smaller := storing - {n - 1};
      StoringBound(smaller, n - 1);
      assert storing <= smaller + {n - 1};
      assert |smaller + {n - 1}| <= |smaller| + 1;
    } else {
      assert forall i :: i !in storing;
      assert storing == {};
    }
  }
}
