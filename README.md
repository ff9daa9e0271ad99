# Video-sticker frame cache and direct frame source

This project models the two classes in
`submodules/AnimatedStickerNode/Sources/VideoStickerFrameSource.swift`. It is
written in Dafny and its properties are proved.

- **`VideoStickerFrameSourceCache`** keeps one file per sticker and size. The
  file has:
  - an 8-byte header `{Int32 frameRate, Int32 frameCount}`;
  - a directory of 300 entries `{Int32 offset, Int32 length}` at
    `8 + index * 8`;
  - an append-only region of compressed frames.

  The cache validates or resets that table when it opens. It looks entries up
  and classifies them as a range, not found or corrupted. It finalises the
  header at the end of a pass once as many stores have been submitted as the
  pass had frames; the stores need not have finished, or even succeeded. It submits and completes frame
  stores, and it reads frames back. A corrupted entry makes it reset itself.
- **`VideoStickerDirectFrameSource`** is the state machine over `currentFrame`,
  `frameCount`, the still image, the decoder and the cache. It makes the
  start-up choice between replaying from the cache, showing a still image and
  decoding live. `takeFrame` computes the index, tries the image, then the
  cache, then the decoder, and finalises the frame count at the end of a pass.
  `skipToEnd` and `skipToFrameIndex` complete it.

Files:

- `bytes.dfy` (`Bytes`): bytes, and `Int32` as four little-endian
  two's-complement bytes, with both round trips.
- `managed_file.dfy` (`ManagedFiles`): the cache file as a class. It has
  `data: seq<Byte>`, a cursor and seek/read/write/truncate/size methods.
  The class renders the behaviour assumed of the library's `ManagedFile`,
  whose own code is not part of this model. It follows the usual POSIX rules:
  - a read stops at the end of the file;
  - a write past the end fills the gap with zeros;
  - truncation leaves the cursor where it was.
- `cache_format.dfy` (`CacheFormat`): the constants, the directory layout, the
  cache path `"<prefix>_<w>x<h>-v3.vstickerframecache"`, the decode-buffer size
  and the verdict on one directory entry.
- `cache_spec.dfy` (`CacheSpec`): every cache operation as a function of
  `CacheState` (file bytes, cursor, in-memory `frameRate` and `frameCount`).
  The lemmas here state what those operations mean.
- `frame_cache.dfy` (`FrameCache`): the cache as a class whose methods drive
  the file step by step. This includes the 300-entry reset loop. Each method
  ensures that the new `State()` is the matching `CacheSpec` function of the
  old one.
- `direct_frame_source.dfy` (`DirectFrameSource`): the frame source class,
  Swift's truncating `%`, and the index arithmetic.

The following behaviours of the code are modelled as they are written:

- **Reset test.** The reset test compares the file's byte size with 300, the
  entry count, not with the table's 2408 bytes. A 300-byte file with a good
  header is therefore kept, and lookups past its end then read as corrupted
  (`CacheSpec.ShortTableKept`). Completing a store on such a file appends the
  blob where the file ends, which is inside the directory. The blob then
  overwrites the entries it lands on. A blob that ends before the slot's entry
  leaves the file ending with that entry (`CacheSpec.CompleteStoreOnShortFile`).
  A longer blob, the usual case, runs over the slot's own entry, so the entry
  then holds blob bytes and no longer names the blob. This is why `CompleteStoreAppends`
  asks for a file that holds the whole table.
- **Rate kept after a refused count.** `readFrameRate` keeps a positive frame
  rate in memory even when it then refuses the count.
- **Finalising the header.** It writes the file but not the in-memory copy.
- **Reset after corruption.** The in-memory `frameCount` stays set. The reset
  writes the 2408 zero bytes at the cursor left by the failed lookup, which is
  at least 8. The file is then all zeros, cursor + 2408 bytes long, so at
  least 2416. Every lookup misses until a store completes.
- **Reset of a refused header.** A file of 300 bytes or more whose header is
  refused is reset at the cursor the header probe left: 4 after a refused
  rate, 8 after a refused count. It becomes 2412 or 2416 zero bytes, not 2408
  (`CacheSpec.RefusedHeaderReset`).
- **Undecodable blob.** A stored blob that does not decode gives an empty
  frame, not a missing one: `compression_decode_buffer` returns 0 and the code
  builds `Data(bytes:count:)` with that count of 0, an empty `Data`. Decoded output is cut at the buffer's capacity.
- **`storedFrames`.** It counts submitted stores, not completed ones.
- **Settling the frame count.** The count and the cache header are not
  settled once, on the first full pass. They are settled at the first end of
  stream at which the count is still 0 and, with a cache, the number of
  submitted stores equals the index reached. Without a cache that is the first
  end of stream. With one, a pass that used up an index without storing it,
  as on `waitingForMoreData`, settles nothing, and a later pass does the
  settling. Jumps made with `skipToFrameIndex` can make the two numbers differ,
  or agree although some slot was never submitted.
- **End of stream.** The frame handed out at the end of the stream carries the
  old index, not 0.
- **Still image.** It always reports `isLastFrame`.
- **Serving from the cache.** The cache is asked before the live decoder, and
  this holds on every call. So once the header is finalised, every stored
  frame of a later pass comes from the cache, not only slot 0.
- **Raw counter.** Before the frame count is known, `takeFrame` uses the raw
  counter as the index. That counter can be negative after `skipToEnd` or
  `skipToFrameIndex`. At the end of the stream, with no cache, that value
  becomes the frame count.

## Model

| member | source | states |
|---|---|---|
| Bytes.DecodeEncode | submodules/AnimatedStickerNode/Sources/VideoStickerFrameSource.swift:170-178 | an Int32 written as four bytes reads back as the same value |
| Bytes.EncodeDecode | submodules/AnimatedStickerNode/Sources/VideoStickerFrameSource.swift:104-130 | any four bytes read as an Int32 and written again are the same bytes |
| CacheFormat.EntryOffset | submodules/AnimatedStickerNode/Sources/VideoStickerFrameSource.swift:148 | the entry of every slot in [0,300) lies inside the 2408-byte table, after the header, on an 8-byte boundary |
| CacheFormat.EntriesDisjoint | submodules/AnimatedStickerNode/Sources/VideoStickerFrameSource.swift:207 | the entries of two different slots do not overlap |
| CacheFormat.Decimal | submodules/AnimatedStickerNode/Sources/VideoStickerFrameSource.swift:50 | the interpolated decimal of a number is a non-empty string of digits, one digit exactly below 10 |
| CacheFormat.DecimalRoundTrip | submodules/AnimatedStickerNode/Sources/VideoStickerFrameSource.swift:50 | the decimal text of a number reads back as that number |
| CacheFormat.CachePath | submodules/AnimatedStickerNode/Sources/VideoStickerFrameSource.swift:49-50 | the cache path starts with the prefix and ends with `.vstickerframecache` |
| CacheFormat.CachePathInjective | submodules/AnimatedStickerNode/Sources/VideoStickerFrameSource.swift:49-50 | two sizes with the same prefix never share a cache file |
| CacheFormat.RoundUpToEven | submodules/AnimatedStickerNode/Sources/VideoStickerFrameSource.swift:66 | `(w + 1) & ~1` is the least even number not below w |
| CacheFormat.YuvaLength | submodules/AnimatedStickerNode/Sources/VideoStickerFrameSource.swift:66-67 | the decode buffer holds 2 luma/chroma bytes per pixel plus one alpha byte per pixel pair, at least 2·w·h |
| CacheFormat.ClassifyEntry | submodules/AnimatedStickerNode/Sources/VideoStickerFrameSource.swift:157-167 | an entry misses exactly when its length is 0; it is corrupted exactly when a non-zero length or the offset is negative or the range ends past 100 MiB; otherwise it is the range offset..offset+length, inside [0, 100 MiB] |
| CacheSpec.ReadFrameRateSpec | submodules/AnimatedStickerNode/Sources/VideoStickerFrameSource.swift:99-133 | validating the header never changes the file, and a success always leaves a set frame count in memory |
| CacheSpec.ReadFrameRateKnown | submodules/AnimatedStickerNode/Sources/VideoStickerFrameSource.swift:100-102 | once the in-memory count is set the probe succeeds without reading or changing anything |
| CacheSpec.ResetTableSpec | submodules/AnimatedStickerNode/Sources/VideoStickerFrameSource.swift:86-95 | a reset leaves a file of only zero bytes covering 2408 bytes from the old cursor, the cursor at its end and the in-memory header untouched |
| CacheSpec.InitializeFrameTableSpec | submodules/AnimatedStickerNode/Sources/VideoStickerFrameSource.swift:79-97 | the file is either kept as it is or becomes zeros covering at least the whole table; a set in-memory count is never cleared |
| CacheSpec.StoreFrameRateAndCountSpec | submodules/AnimatedStickerNode/Sources/VideoStickerFrameSource.swift:170-178 | the first 8 bytes become the two encoded words, every later byte is kept, the file grows to 8 bytes at least, and the in-memory header is untouched |
| CacheSpec.ReadUncompressedYuvaFrameSpec | submodules/AnimatedStickerNode/Sources/VideoStickerFrameSource.swift:222-272 | a frame read from the cache always fits the decode buffer |
| CacheSpec.Overlay | submodules/AnimatedStickerNode/Sources/VideoStickerFrameSource.swift:254-258 | a decoded frame overwrites the front of the decode buffer and leaves its length and the rest as they were |
| CacheSpec.CompleteStoreSpec | submodules/AnimatedStickerNode/Sources/VideoStickerFrameSource.swift:207-217 | the file grows just enough to hold the slot's entry and the blob appended at the old end; the cursor ends after the blob and the in-memory header is untouched |
| CacheSpec.CompleteStoreOnShortFile | submodules/AnimatedStickerNode/Sources/VideoStickerFrameSource.swift:207-217 | on a file shorter than the table, a blob ending before the slot's entry lands inside the directory, and the file ends with the entry naming it |
| CacheSpec.SubmitAll | submodules/AnimatedStickerNode/Sources/VideoStickerFrameSource.swift:180-192 | a run of submissions only adds slots, and only ones in [0, 300) |
| CacheSpec.ScheduledStores | submodules/AnimatedStickerNode/Sources/VideoStickerFrameSource.swift:180-192 | a run of submissions starts at most one compression per submission |
| CacheSpec.ReadFrameRateCases | submodules/AnimatedStickerNode/Sources/VideoStickerFrameSource.swift:99-133 | from an unset count the header is accepted exactly when both words are positive, and then both are copied; when refused the count stays unset |
| CacheSpec.ResetTableZeros | submodules/AnimatedStickerNode/Sources/VideoStickerFrameSource.swift:86-95 | a reset leaves only zeros, 2408 of them from cursor 0; the header is not finalised and every entry reads offset 0 and length 0 |
| CacheSpec.InitializeFrameTableCases | submodules/AnimatedStickerNode/Sources/VideoStickerFrameSource.swift:79-97 | the file is kept byte for byte exactly when its size is known, it has at least 300 bytes and the header is known or reads back; otherwise it becomes zeros covering the table; a set count is never cleared |
| CacheSpec.RefusedHeaderReset | submodules/AnimatedStickerNode/Sources/VideoStickerFrameSource.swift:79-95 | a file of at least 300 bytes with a refused header becomes zeros, 2412 bytes after a refused rate and 2416 after a refused count |
| CacheSpec.ShortTableKept | submodules/AnimatedStickerNode/Sources/VideoStickerFrameSource.swift:81 | a 300-byte file with a good header is kept, and the slots from 36 on that the header counts read as corrupted |
| CacheSpec.StoredHeaderReadsBack | submodules/AnimatedStickerNode/Sources/VideoStickerFrameSource.swift:170-178 | a finalised header reads back exactly when both values are positive, and then as that pair; the bytes after the header are untouched |
| CacheSpec.ReadFrameRangeSpec | submodules/AnimatedStickerNode/Sources/VideoStickerFrameSource.swift:135-168 | a lookup never changes the file, and a range it yields lies inside [0, 100 MiB] and is not empty |
| CacheSpec.ReadFrameRangeCases | submodules/AnimatedStickerNode/Sources/VideoStickerFrameSource.swift:135-168 | the lookup misses exactly when the slot is out of range, the header is unset, the slot is past the count or its length is 0; it is corrupted exactly on a short entry read, a negative field or a range past 100 MiB; otherwise it is the entry's range |
| CacheSpec.DecodeInto | submodules/AnimatedStickerNode/Sources/VideoStickerFrameSource.swift:256-258 | an undecodable blob gives an empty frame; otherwise the frame is the decoded bytes cut at the buffer's capacity |
| CacheSpec.CorruptionSelfHeals | submodules/AnimatedStickerNode/Sources/VideoStickerFrameSource.swift:264-270 | after a corrupted lookup the read returns nothing, the file is all zeros and at least 2416 bytes long, the in-memory count is still set, and every lookup and read of any slot on the reset file misses, which lasts until a store completes |
| CacheSpec.Submit | submodules/AnimatedStickerNode/Sources/VideoStickerFrameSource.swift:180-187 | a submission adds the slot exactly when it is in range and not already storing, and the count then rises by exactly 1 |
| CacheSpec.SubmitAllCollects | submodules/AnimatedStickerNode/Sources/VideoStickerFrameSource.swift:180-192 | any run of submissions leaves exactly the in-range slots it named, and starts one compression per slot added, so no slot is stored twice |
| CacheSpec.StoringBound | submodules/AnimatedStickerNode/Sources/VideoStickerFrameSource.swift:35-37 | the storing set never holds more than 300 slots |
| CacheSpec.CompleteStoreAppends | submodules/AnimatedStickerNode/Sources/VideoStickerFrameSource.swift:207-217 | completing a store grows the file by exactly the blob, puts the blob at the old end, points the slot's entry at it and changes no other byte |
| CacheSpec.CompleteStoreKeepsTable | submodules/AnimatedStickerNode/Sources/VideoStickerFrameSource.swift:207-211 | every word of the table outside the slot's entry, the header included, is unchanged by a completion |
| CacheSpec.CompleteStoreKeepsOtherSlots | submodules/AnimatedStickerNode/Sources/VideoStickerFrameSource.swift:207-211 | completing one slot leaves the lookup verdict of every other slot unchanged |
| CacheSpec.CompletedStoreIsFound | submodules/AnimatedStickerNode/Sources/VideoStickerFrameSource.swift:135-211 | once the header counts a completed slot, its lookup yields exactly the range of the appended blob |
| CacheSpec.ReadBlobSpec | submodules/AnimatedStickerNode/Sources/VideoStickerFrameSource.swift:229-262 | a hit reads the blob without changing the file or the header copy; a decoded frame leaves the cursor at the range's end and fits the buffer |
| CacheSpec.CompletedStoreIsRead | submodules/AnimatedStickerNode/Sources/VideoStickerFrameSource.swift:222-263 | once the header counts a completed slot, reading it decodes exactly the appended blob |
| FrameCache.VideoStickerFrameSourceCache.StoredFrames | submodules/AnimatedStickerNode/Sources/VideoStickerFrameSource.swift:35-37 | storedFrames is the size of the storing set, at most 300 |
| FrameCache.VideoStickerFrameSourceCache.constructor | submodules/AnimatedStickerNode/Sources/VideoStickerFrameSource.swift:43-71 | the cache gets its path and a zeroed decode buffer of the YUVA size, stores nothing, and validates or resets its table at once |
| FrameCache.VideoStickerFrameSourceCache.Open | submodules/AnimatedStickerNode/Sources/VideoStickerFrameSource.swift:51-62 | the cache cannot be built precisely when neither the first open nor the reopen after deletion succeeds; the reopened file is empty |
| FrameCache.VideoStickerFrameSourceCache.Deinit | submodules/AnimatedStickerNode/Sources/VideoStickerFrameSource.swift:73-77 | the file is deleted exactly when the in-memory frame count is 0 |
| FrameCache.VideoStickerFrameSourceCache.InitializeFrameTable | submodules/AnimatedStickerNode/Sources/VideoStickerFrameSource.swift:79-97 | the new state is the probe-or-reset of the old one |
| FrameCache.VideoStickerFrameSourceCache.ResetTable | submodules/AnimatedStickerNode/Sources/VideoStickerFrameSource.swift:86-95 | the truncation and the 2 + 300·2 zero words written in a loop produce the reset state |
| FrameCache.VideoStickerFrameSourceCache.ReadFrameRate | submodules/AnimatedStickerNode/Sources/VideoStickerFrameSource.swift:99-133 | the verdict, the cursor and the in-memory header are those of the header probe |
| FrameCache.VideoStickerFrameSourceCache.ReadFrameRange | submodules/AnimatedStickerNode/Sources/VideoStickerFrameSource.swift:135-168 | the verdict and the new state are those of the lookup |
| FrameCache.VideoStickerFrameSourceCache.StoreFrameRateAndCount | submodules/AnimatedStickerNode/Sources/VideoStickerFrameSource.swift:170-178 | the two header words are written and the in-memory header is untouched |
| FrameCache.VideoStickerFrameSourceCache.StoreUncompressedRgbFrame | submodules/AnimatedStickerNode/Sources/VideoStickerFrameSource.swift:180-192 | the storing set becomes the submission's result, and only a newly added slot becomes pending |
| FrameCache.VideoStickerFrameSourceCache.CompleteStore | submodules/AnimatedStickerNode/Sources/VideoStickerFrameSource.swift:196-218 | with the owner alive, the size known and a blob, the entry is written and the blob appended; otherwise nothing changes; either way the store is no longer pending |
| FrameCache.VideoStickerFrameSourceCache.ReadBlob | submodules/AnimatedStickerNode/Sources/VideoStickerFrameSource.swift:229-262 | the seek, the read and the decode of a hit produce the hit's frame and state, the frame written into the front of the decode buffer |
| FrameCache.VideoStickerFrameSourceCache.ReadUncompressedYuvaFrame | submodules/AnimatedStickerNode/Sources/VideoStickerFrameSource.swift:222-272 | the frame and the new state are the read's, and the decoded frame is written into the front of the decode buffer |
| DirectFrameSource.SwiftRemainder | submodules/AnimatedStickerNode/Sources/VideoStickerFrameSource.swift:300 | Swift's `%` is smaller than the divisor in size and has the dividend's sign |
| DirectFrameSource.SwiftRemainderCongruent | submodules/AnimatedStickerNode/Sources/VideoStickerFrameSource.swift:300 | what the remainder leaves is a multiple of the divisor |
| DirectFrameSource.TakeFrameIndex | submodules/AnimatedStickerNode/Sources/VideoStickerFrameSource.swift:360-365 | the raw counter while the count is not positive; otherwise, from a non-negative counter, an index in [0, count) equal to the counter mod the count; always 0 for a count of 1 |
| DirectFrameSource.FrameIndexLoops | submodules/AnimatedStickerNode/Sources/VideoStickerFrameSource.swift:360-365 | a counter one pass further on gives the same index |
| DirectFrameSource.FrameIndexAdvances | submodules/AnimatedStickerNode/Sources/VideoStickerFrameSource.swift:360-367 | a counter one step on gives the next index round the loop |
| DirectFrameSource.VideoStickerDirectFrameSource.FrameIndex | submodules/AnimatedStickerNode/Sources/VideoStickerFrameSource.swift:296-302 | the frameIndex property is 0 for a zero count and agrees with takeFrame's index for a positive one |
| DirectFrameSource.VideoStickerDirectFrameSource.constructor | submodules/AnimatedStickerNode/Sources/VideoStickerFrameSource.swift:303-353 | a cache with a set count replays at its rate and count; otherwise a still image gives rate 1 and count 1; otherwise the decoder, when it opens, gives rate min(30, its rate), and 30 when it does not; the count is then 0 |
| DirectFrameSource.VideoStickerDirectFrameSource.TakeFrame | submodules/AnimatedStickerNode/Sources/VideoStickerFrameSource.swift:359-448 | the counter moves on by one, or is reset at the end of the stream; a skipped draw gives nothing; frames come from the image, then the cache, then the decoder, tagged with the entry index and isLastFrame; only a decoded frame is submitted to the cache, and only a newly submitted slot becomes pending; waiting or an error uses up one decoder answer; short of the end of the stream the cache file, header copy and decode buffer are as the read of the index leaves them, and a skipped draw or the still image leaves the cache alone; while the count is 0, it is settled at an end of stream where there is no cache or as many stores have been submitted as the index, which need not be the first; once settled it never changes |
| DirectFrameSource.VideoStickerDirectFrameSource.DrawFrame | submodules/AnimatedStickerNode/Sources/VideoStickerFrameSource.swift:367-447 | the drawing branch from the counter's step on: the image, the cache, the decoder in that order, with each outcome's frame, decoder position, cache state, decode buffer, storing and pending sets |
| DirectFrameSource.VideoStickerDirectFrameSource.EndOfPass | submodules/AnimatedStickerNode/Sources/VideoStickerFrameSource.swift:409-437 | a zero count becomes the pass length when there is no cache or as many frames were submitted as the pass had, which then also finalises the header; the counter restarts, the decoder reopens, and slot 0 of the cache is handed out with the old index, written into the decode buffer; nothing is submitted |
| DirectFrameSource.VideoStickerDirectFrameSource.SkipToEnd | submodules/AnimatedStickerNode/Sources/VideoStickerFrameSource.swift:450-452 | the next frame handed out is the last of the pass |
| DirectFrameSource.VideoStickerDirectFrameSource.SkipToFrameIndex | submodules/AnimatedStickerNode/Sources/VideoStickerFrameSource.swift:454-456 | the counter is set as given, and an index in range is the next one taken |

## Left out

- **Compression internals.** `compressFrame` and LZFSE `compression_decode_buffer`
  are opaque. The completion takes the compressor's output as a parameter. The
  decoder is a function that may refuse its input. No lossless round trip is
  claimed. The RGB data handed to the compressor and the scratch buffer are not
  modelled.
- **Pixel work.** This covers `vImageScale_ARGB8888`, `CVPixelBuffer` locking,
  `DrawingContext`, `CGImage` drawing and WebP decoding. A decoded frame and
  the still image are byte sequences of length `bytesPerRow * height`.
  `bytesPerRow` is a parameter, not `DeviceGraphicsContextSettings`.
- **`FFMpegFileReader`.** It becomes a fixed sequence of read results. A reader
  is a position in that sequence, and past its end the reader reports the end
  of the stream. Every reopening yields the same sequence. `assetOpens` says
  whether opening succeeds, and the decoder's frame rate is a parameter.
- **`duration`.** It is floating point.
- **`Logger`, the queues and the `[weak self]` captures.** The asynchronous
  store is split into `StoreUncompressedRgbFrame` (submit) and `CompleteStore`
  (completion with an owner-alive flag).
- **File deletion by `FileManager`.** It is the `fileDeleted` flag, and the
  delete-and-reopen in `init` is the `retryOpens` flag.
- **`ManagedFile`.** The library's own code is not part of this model; the
  class in `managed_file.dfy` renders its assumed behaviour. Its operations are assumed
  to follow POSIX `lseek`/`read`/`write`/`ftruncate`/`fstat`, and writes never
  fail. In particular `readData(count:)` is assumed to be one `read`, which
  returns fewer bytes at the end of the file; that is what lets the length
  check after reading a blob fail. The model ignores their results, as the code does.
- **Integer ranges.** `Int` is unbounded here, so overflow at 2^63 is not
  modelled. Width and height are natural numbers. `Int32(x)` traps, so it
  appears as a precondition where the code converts.
- **`useCache`.** It is the constant `true`, so its branches are the cache
  branches.
- **Not part of this model.** The factory `makeVideoStickerDirectFrameSource`,
  the `deinit` queue assertion of the frame source and the other files of the
  repository.
- **YUVA frames.** Their `multiplyAlpha` flag is a default defined elsewhere,
  so YUVA frames do not carry it.
- DirectFrameSource.VideoStickerDirectFrameSource.TakeFrame: a still-image frame is always
  produced. The case where `DrawingContext` cannot be created, which returns
  nil, is not modelled.
- FrameCache.VideoStickerFrameSourceCache.ReadUncompressedYuvaFrame: the guards on nil
  buffer base addresses are not modelled. The compressed data is never empty
  there, and the other buffers are allocated.
