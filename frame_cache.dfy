/**
 * VideoStickerFrameSourceCache: the per-sticker frame cache file, its
 * in-memory header copy, the set of frames whose store has been submitted,
 * and the buffer cached frames are decoded into.
 */
module FrameCache {
  import opened Bytes
  import opened Wrappers
  import opened ManagedFiles
  import opened CacheFormat
  import opened CacheSpec

  class VideoStickerFrameSourceCache {
    const path: string
    const file: ManagedFile
    const width: nat
    const height: nat
    /** The LZFSE decoder, left opaque: `None` stands for input it cannot decode. */
    const decompress: seq<Byte> -> Option<seq<Byte>>

    var frameRate: int
    var frameCount: int
    var isStoringFrames: set<int>
    var decodeBuffer: seq<Byte>
    /** Whether the cache file has been removed from disk. */
    var fileDeleted: bool
    /** Submitted stores whose compression has not come back yet. */
    ghost var pendingStores: set<int>

    ghost predicate Valid()
      reads this
    {
      && 0 <= frameRate <= Int32Max && 0 <= frameCount <= Int32Max
      && (forall i :: i in isStoringFrames ==> 0 <= i < MaximumFrameCount)
      && pendingStores <= isStoringFrames
      && |decodeBuffer| == YuvaLength(width, height)
    }

    /** The state the operations of CacheSpec act on. */
    function State(): CacheState
      reads this, file
    {
      CacheState(file.data, file.position, frameRate, frameCount)
    }

    /** storedFrames: the number of stores ever submitted, finished or not. */
    function StoredFrames(): (n: nat)
      requires Valid()
      reads this
      ensures n == |isStoringFrames| && n <= MaximumFrameCount
    {
      StoringBound(isStoringFrames, MaximumFrameCount);
      |isStoringFrames|
    }

    /** The cache over an opened `file`; the table is validated or reset at once. */
    constructor (prefix: string, width: nat, height: nat, file: ManagedFile,
                 decompress: seq<Byte> -> Option<seq<Byte>>)
      modifies file
      ensures Valid()
      ensures this.file == file && this.width == width && this.height == height && this.decompress == decompress
      ensures path == CachePath(prefix, width, height)
      ensures State() == InitializeFrameTableSpec(CacheState(old(file.data), old(file.position), 0, 0), file.statOk)
      ensures isStoringFrames == {} && pendingStores == {} && !fileDeleted
      ensures decodeBuffer == Zeros(YuvaLength(width, height))
    {
      this.path := CachePath(prefix, width, height);
      this.file := file;
      this.width := width;
      this.height := height;
      this.decompress := decompress;
      frameRate := 0;
      frameCount := 0;
      isStoringFrames := {};
      pendingStores := {};
      decodeBuffer := Zeros(YuvaLength(width, height));
      fileDeleted := false;
      new;
      InitializeFrameTable();
    }

    /**
     * Opens the cache file, which holds `existing` when it opens at all. When
     * it does not, the path is deleted and opened again once; `retryOpens`
     * says whether that second open succeeds, on what is then an empty file.
     */
    static method Open(prefix: string, width: nat, height: nat, existing: Option<seq<Byte>>, retryOpens: bool,
                       statOk: bool, decompress: seq<Byte> -> Option<seq<Byte>>)
      returns (cache: VideoStickerFrameSourceCache?)
      ensures cache == null <==> existing.None? && !retryOpens
      ensures cache != null ==> fresh(cache) && fresh(cache.file) && cache.Valid()
      ensures cache != null ==> cache.path == CachePath(prefix, width, height) && cache.file.statOk == statOk
      ensures cache != null ==> cache.width == width && cache.height == height && cache.decompress == decompress
      ensures cache != null ==>
        cache.State() == InitializeFrameTableSpec(CacheState(existing.GetOr([]), 0, 0, 0), statOk)
      ensures cache != null ==> cache.isStoringFrames == {} && cache.pendingStores == {} && !cache.fileDeleted
    {
      if existing.None? && !retryOpens {
        return null;
      }
      var file := new ManagedFile(existing.GetOr([]), statOk);
      cache := new VideoStickerFrameSourceCache(prefix, width, height, file, decompress);
    }

    /** deinit: a cache whose in-memory frame count was never set removes its file. */
    method Deinit()
      modifies this`fileDeleted
      ensures fileDeleted == (frameCount == 0)
    {
      fileDeleted := frameCount == 0;
    }

    method InitializeFrameTable()
      requires Valid()
      modifies this`frameRate, this`frameCount, file
      ensures Valid()
      ensures State() == InitializeFrameTableSpec(old(State()), file.statOk)
    {
      var reset := true;
      var size := file.GetSize();
      if size.Some? && size.value >= MaximumFrameCount {
        var ok := ReadFrameRate();
        if ok {
          reset := false;
        }
      }
      if reset {
        ResetTable();
      }
    }

    /** The reset branch of initializeFrameTable: truncate, then write the zero header and 300 zero entries. */
    method ResetTable()
      modifies file
      ensures State() == ResetTableSpec(old(State()))
    {
      var start := file.position;
      file.Truncate(0);
      ZerosAfterZeros(0, start, 4);
      file.Write(EncodeInt32(0));
      ZerosAfterZeros(start + 4, start + 4, 4);
      file.Write(EncodeInt32(0));
      var i := 0;
      while i < MaximumFrameCount
        invariant 0 <= i <= MaximumFrameCount
        invariant file.data == Zeros(start + HeaderSize + i * EntrySize)
        invariant file.position == start + HeaderSize + i * EntrySize
        modifies file
      {
        ZerosAfterZeros(file.position, file.position, 4);
        file.Write(EncodeInt32(0));
        ZerosAfterZeros(file.position, file.position, 4);
        file.Write(EncodeInt32(0));
        i := i + 1;
      }
      ResetTableZeros(old(State()));
    }

    method ReadFrameRate() returns (ok: bool)
      requires Valid()
      modifies this`frameRate, this`frameCount, file`position
      ensures Valid()
      ensures ok == ReadFrameRateSpec(old(State())).ok
      ensures State() == ReadFrameRateSpec(old(State())).state
    {
      if frameCount != 0 {
        return true;
      }
      file.Seek(0);
      var rateBytes := file.Read(4);
      if |rateBytes| != 4 {
        return false;
      }
      var rate := DecodeInt32(rateBytes);
      if rate < 0 || rate == 0 {
        return false;
      }
      frameRate := rate;
      file.Seek(4);
      var countBytes := file.Read(4);
      if |countBytes| != 4 {
        return false;
      }
      var count := DecodeInt32(countBytes);
      if count < 0 || count == 0 {
        return false;
      }
      frameCount := count;
      return true;
    }

    method ReadFrameRange(index: int) returns (r: FrameRangeResult)
      requires Valid()
      modifies this`frameRate, this`frameCount, file`position
      ensures Valid()
      ensures r == ReadFrameRangeSpec(old(State()), index).result
      ensures State() == ReadFrameRangeSpec(old(State()), index).state
    {
      if index < 0 || index >= MaximumFrameCount {
        return NotFound;
      }
      var ok := ReadFrameRate();
      if !ok || index >= frameCount {
        return NotFound;
      }
      file.Seek(EntryOffset(index));
      var offsetBytes := file.Read(4);
      if |offsetBytes| != 4 {
        return CorruptedFile;
      }
      var lengthBytes := file.Read(4);
      if |lengthBytes| != 4 {
        return CorruptedFile;
      }
      r := ClassifyEntry(DecodeInt32(offsetBytes), DecodeInt32(lengthBytes));
    }

    /** Writes the header; the in-memory copy is not updated, so a later lookup re-reads it. */
    method StoreFrameRateAndCount(frameRate: int, frameCount: int)
      requires InInt32(frameRate) && InInt32(frameCount)
      modifies file
      ensures State() == StoreFrameRateAndCountSpec(old(State()), frameRate, frameCount)
    {
      file.Seek(0);
      file.Write(EncodeInt32(frameRate));
      file.Seek(4);
      file.Write(EncodeInt32(frameCount));
    }

    /**
     * The submission half of storeUncompressedRgbFrame: an index out of range
     * or already submitted is ignored, any other is marked as storing and its
     * compression is started.
     */
    method StoreUncompressedRgbFrame(index: int)
      requires Valid()
      modifies this`isStoringFrames, this`pendingStores
      ensures Valid()
      ensures isStoringFrames == Submit(old(isStoringFrames), index)
      ensures pendingStores == old(pendingStores) + (isStoringFrames - old(isStoringFrames))
    {
      if index < 0 || index >= MaximumFrameCount {
        return;
      }
      if index in isStoringFrames {
        return;
      }
      isStoringFrames := isStoringFrames + {index};
      pendingStores := pendingStores + {index};
    }

    /**
     * The completion half, back on the cache's queue with the compressor's
     * output: when the cache is still alive, its file size is known and the
     * compression succeeded, the slot's entry is written and the blob appended;
     * otherwise nothing changes. Either way the store is no longer pending.
     */
    method CompleteStore(index: int, blob: Option<seq<Byte>>, ownerAlive: bool)
      requires Valid() && index in pendingStores
      requires ownerAlive && file.statOk && blob.Some? ==> InInt32(|file.data|) && InInt32(|blob.value|)
      modifies file, this`pendingStores
      ensures Valid() && pendingStores == old(pendingStores) - {index}
      ensures State() == if ownerAlive && file.statOk && blob.Some?
                         then CompleteStoreSpec(old(State()), index, blob.value)
                         else old(State())
    {
      pendingStores := pendingStores - {index};
      if !ownerAlive {
        return;
      }
      var currentSize := file.GetSize();
      if currentSize.None? {
        return;
      }
      if blob.None? {
        return;
      }
      file.Seek(EntryOffset(index));
      file.Write(EncodeInt32(currentSize.value));
      file.Write(EncodeInt32(|blob.value|));
      file.Seek(currentSize.value);
      file.Write(blob.value);
    }

    /** The hit branch of readUncompressedYuvaFrame: the blob at lower..upper, decoded into the decode buffer. */
    method ReadBlob(lower: nat, upper: nat) returns (frame: Option<seq<Byte>>)
      requires Valid() && lower <= upper
      modifies this`decodeBuffer, file`position
      ensures Valid()
      ensures frame == ReadBlobSpec(old(State()), decompress, |old(decodeBuffer)|, lower, upper).frame
      ensures State() == ReadBlobSpec(old(State()), decompress, |old(decodeBuffer)|, lower, upper).state
      ensures decodeBuffer == Overlay(old(decodeBuffer), frame)
    {
      file.Seek(lower);
      var compressed := file.Read(upper - lower);
      if |compressed| != upper - lower {
        return None;
      }
      var out := DecodeInto(decompress(compressed), |decodeBuffer|);
      decodeBuffer := out + decodeBuffer[|out|..];
      return Some(out);
    }

    /**
     * readUncompressedYuvaFrame: the decoded frame of slot `index`, if the
     * cache holds it; a corrupted entry resets the cache on the way.
     */
    method ReadUncompressedYuvaFrame(index: int) returns (frame: Option<seq<Byte>>)
      requires Valid()
      modifies this`frameRate, this`frameCount, this`decodeBuffer, file
      ensures Valid()
      ensures frame == ReadUncompressedYuvaFrameSpec(old(State()), file.statOk, decompress, |old(decodeBuffer)|, index).frame
      ensures State() == ReadUncompressedYuvaFrameSpec(old(State()), file.statOk, decompress, |old(decodeBuffer)|, index).state
      ensures decodeBuffer == Overlay(old(decodeBuffer), frame)
    {
      if index < 0 || index >= MaximumFrameCount {
        return None;
      }
      ghost var before := State();
      var range := ReadFrameRange(index);
      ghost var ranged := ReadFrameRangeSpec(before, index);
      match range
      case Range(lower, upper) =>
        assert State() == ranged.state;
        frame := ReadBlob(lower, upper);
      case NotFound =>
        return None;
      case CorruptedFile =>
        file.Truncate(0);
        InitializeFrameTable();
        return None;
    }
  }
}
