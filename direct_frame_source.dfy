/**
 * VideoStickerDirectFrameSource: hands out the frames of one video sticker,
 * from a still image, from the frame cache, or from the live decoder, and
 * fills the cache as it decodes.
 */
module DirectFrameSource {
  import opened Bytes
  import opened Wrappers
  import opened CacheFormat
  import opened CacheSpec
  import opened FrameCache

  function Abs(x: int): nat {
    if x < 0 then -x else x
  }

  lemma AbsOfProduct(t: int, d: int)
    ensures Abs(t * d) == Abs(t) * Abs(d)
  {
    if t < 0 && d < 0 {
      assert t * d == (-t) * (-d);
    } else if t < 0 {
      assert t * d == -((-t) * d);
    } else if d < 0 {
      assert t * d == -(t * (-d));
    }
  }

  /** The only multiple of d smaller than d in size is 0. */
  lemma SmallMultipleIsZero(t: int, d: int)
    requires d != 0 && Abs(t * d) < Abs(d)
    ensures t == 0
  {
    if t != 0 {
      AbsOfProduct(t, d);
      AtLeastOnce(Abs(t), Abs(d));
    }
  }

  lemma AtLeastOnce(a: nat, c: nat)
    requires a >= 1
    ensures a * c >= c
  {
    var a' := a - 1;
    assert a * c == a' * c + c;
  }

  /** Euclidean division is unique: a representation x == m * d + r with 0 <= r < |d| fixes x % d. */
  lemma RemainderOf(x: int, m: int, r: int, d: int)
    requires d != 0 && x == m * d + r && 0 <= r < Abs(d)
    ensures x % d == r
  {
    var q := x / d;
    assert x == q * d + x % d;
    assert (m - q) * d == m * d - q * d;
    assert Abs((m - q) * d) < Abs(d);
    SmallMultipleIsZero(m - q, d);
  }

  /**
   * Swift's `%` on `Int`: the remainder of division truncated toward zero,
   * whose sign is the dividend's.
   */
  function SwiftRemainder(a: int, b: int): (r: int)
    requires b != 0
    ensures Abs(r) < Abs(b)
    ensures a >= 0 ==> r >= 0
    ensures a <= 0 ==> r <= 0
  {
    var m := Abs(a) % Abs(b);
    if a < 0 then -m else m
  }

  /** What the truncated remainder leaves behind is a multiple of the divisor. */
  lemma SwiftRemainderCongruent(a: int, b: int)
    requires b != 0
    ensures (a - SwiftRemainder(a, b)) % b == 0
  {
    var m := Abs(a) % Abs(b);
    var q := Abs(a) / Abs(b);
    assert Abs(a) == q * Abs(b) + m;
    var k := if (a < 0) == (b < 0) then q else -q;
    SignedQuotient(a, b, q, m);
    RemainderOf(k * b, k, 0, b);
  }

  /** The multiple of b that a truncated remainder leaves behind. */
  lemma SignedQuotient(a: int, b: int, q: int, m: int)
    requires b != 0 && Abs(a) == q * Abs(b) + m
    ensures a - (if a < 0 then -m else m) == (if (a < 0) == (b < 0) then q else -q) * b
  {
    if a >= 0 && b < 0 {
      assert q * Abs(b) == (-q) * b;
    } else if a < 0 && b > 0 {
      assert -(q * Abs(b)) == (-q) * b;
    } else if a < 0 {
      assert -(q * Abs(b)) == q * b;
    }
  }

  /**
   * The index takeFrame works on: the counter modulo the frame count once
   * that is known, the raw counter before.
   */
  function TakeFrameIndex(currentFrame: int, frameCount: int): (index: int)
    ensures frameCount <= 0 ==> index == currentFrame
    ensures frameCount > 0 && currentFrame >= 0 ==> 0 <= index < frameCount && index == currentFrame % frameCount
    ensures frameCount == 1 ==> index == 0
  {
    if frameCount > 0 then SwiftRemainder(currentFrame, frameCount) else currentFrame
  }

  /** Playback loops: a counter one pass further on gives the same index. */
  lemma FrameIndexLoops(currentFrame: int, frameCount: int)
    requires currentFrame >= 0 && frameCount > 0
    ensures TakeFrameIndex(currentFrame + frameCount, frameCount) == TakeFrameIndex(currentFrame, frameCount)
  {
    var q := currentFrame / frameCount;
    var r := currentFrame % frameCount;
    assert currentFrame + frameCount == (q + 1) * frameCount + r;
    RemainderOf(currentFrame + frameCount, q + 1, r, frameCount);
  }

  /** Each call moves the index one step round the loop. */
  lemma FrameIndexAdvances(currentFrame: int, frameCount: int)
    requires currentFrame >= 0 && frameCount > 0
    ensures TakeFrameIndex(currentFrame + 1, frameCount) == (TakeFrameIndex(currentFrame, frameCount) + 1) % frameCount
  {
    NextRemainder(currentFrame, frameCount);
  }

  /** (x + 1) % d steps on from x % d, wrapping to 0. */
  lemma NextRemainder(x: int, d: int)
    requires d > 0
    ensures (x + 1) % d == (x % d + 1) % d
  {
    var q := x / d;
    var r := x % d;
    assert x == q * d + r;
    if r + 1 < d {
      assert x + 1 == q * d + (r + 1);
      RemainderOf(x + 1, q, r + 1, d);
      RemainderOf(r + 1, 0, r + 1, d);
    } else {
      assert x + 1 == (q + 1) * d + 0;
      RemainderOf(x + 1, q + 1, 0, d);
      RemainderOf(r + 1, 1, 0, d);
    }
  }

  /** The pixel layout of a handed-out frame; ARGB frames carry the alpha-premultiply flag. */
  datatype FrameType = Argb(multiplyAlpha: bool) | Yuva

  datatype AnimatedStickerFrame = AnimatedStickerFrame(
    data: seq<Byte>, frameType: FrameType, width: nat, height: nat, bytesPerRow: nat,
    index: int, isLastFrame: bool, totalFrames: int)

  /**
   * One answer of the video decoder's readFrame. A decoded frame is given
   * already scaled into the bytesPerRow * height target buffer.
   */
  datatype ReadResult = Frame(pixels: seq<Byte>) | EndOfStream | WaitingForMoreData | Error

  /** An open decoder: how far it has read into what the asset decodes to. */
  datatype Reader = Reader(position: nat)

  /** What the decoder answers next; past the asset's answers it reports the end of the stream. */
  function NextResult(asset: seq<ReadResult>, reader: Reader): ReadResult
  {
    if reader.position < |asset| then asset[reader.position] else EndOfStream
  }

  class VideoStickerDirectFrameSource {
    const width: nat
    const height: nat
    const bytesPerRow: nat
    const cache: VideoStickerFrameSourceCache?
    /** The still image, drawn into a bytesPerRow * height ARGB buffer, when the file is one. */
    const image: Option<seq<Byte>>
    const frameRate: int
    /** What the decoder yields for the sticker's file, answer by answer. */
    const asset: seq<ReadResult>
    /** Whether a decoder can be opened on the sticker's file. */
    const assetOpens: bool

    var frameCount: int
    var currentFrame: int
    var source: Option<Reader>

    /** The objects a frame request may change. */
    function Footprint(): set<object?>
    {
      {this} + CacheFootprint()
    }

    /** The cache and its file, when there is a cache. */
    function CacheFootprint(): set<object?>
    {
      if cache == null then {} else {cache, cache.file}
    }

    ghost predicate Valid()
      reads CacheFootprint()
    {
      && (cache != null ==> cache.Valid() && cache.width == width && cache.height == height)
      && (image.Some? ==> |image.value| == bytesPerRow * height)
      && (forall k :: 0 <= k < |asset| && asset[k].Frame? ==> |asset[k].pixels| == bytesPerRow * height)
    }

    /** The public frameIndex property: 0 while the frame count is 0, the counter modulo it otherwise. */
    function FrameIndex(): (index: int)
      reads this
      ensures frameCount == 0 ==> index == 0
      ensures frameCount > 0 ==> index == TakeFrameIndex(currentFrame, frameCount)
      ensures frameCount != 0 ==> Abs(index) < Abs(frameCount)
    {
      if frameCount == 0 then 0 else SwiftRemainder(currentFrame, frameCount)
    }

    /** The index the next takeFrame works on. */
    function NextIndex(): int
      reads this
    {
      TakeFrameIndex(currentFrame, frameCount)
    }

    /** What a cache read of `index` would return and leave behind, from the cache's present state. */
    ghost function CacheRead(index: int): FrameRead
      requires cache != null
      reads cache, cache.file
    {
      ReadUncompressedYuvaFrameSpec(cache.State(), cache.file.statOk, cache.decompress, |cache.decodeBuffer|, index)
    }

    /** Whether the cache would serve `index` now. */
    ghost predicate CacheHit(index: int)
      reads CacheFootprint()
    {
      cache != null && CacheRead(index).frame.Some?
    }

    /**
     * Whether drawing `index` with decoder `reader` falls through the still
     * image and the cache to the decoder's end of stream.
     */
    ghost predicate EndsPass(reader: Option<Reader>, index: int)
      reads CacheFootprint()
    {
      image.None? && !CacheHit(index) && reader.Some? && NextResult(asset, reader.value) == EndOfStream
    }

    /**
     * Whether drawing `index` with decoder `reader` falls through the still
     * image and the cache to a frame the decoder hands out.
     */
    ghost predicate DecodesFrame(reader: Option<Reader>, index: int)
      reads CacheFootprint()
    {
      image.None? && !CacheHit(index) && reader.Some? && NextResult(asset, reader.value).Frame?
    }

    /** Whether a request now reaches the end of the stream. */
    ghost predicate ReachesEndOfStream(draw: bool)
      reads this, CacheFootprint()
    {
      draw && EndsPass(source, NextIndex())
    }

    /**
     * The start-up choice: replay from a cache whose header is known, else
     * show a still image if the file decodes as one, else decode live with an
     * unknown frame count. `stillImage` is that decode's result, already drawn.
     */
    constructor (cache: VideoStickerFrameSourceCache?, width: nat, height: nat, bytesPerRow: nat,
                 stillImage: Option<seq<Byte>>, asset: seq<ReadResult>, assetOpens: bool, decoderFrameRate: int)
      requires cache != null ==> cache.Valid() && cache.width == width && cache.height == height
      requires stillImage.Some? ==> |stillImage.value| == bytesPerRow * height
      requires forall k :: 0 <= k < |asset| && asset[k].Frame? ==> |asset[k].pixels| == bytesPerRow * height
      ensures Valid() && currentFrame == 0
      ensures this.cache == cache && this.width == width && this.height == height && this.bytesPerRow == bytesPerRow
      ensures this.asset == asset && this.assetOpens == assetOpens
      ensures cache != null && cache.frameCount > 0 ==>
        image.None? && source.None? && frameRate == cache.frameRate && frameCount == cache.frameCount
      ensures !(cache != null && cache.frameCount > 0) && stillImage.Some? ==>
        image == stillImage && source.None? && frameRate == 1 && frameCount == 1
      ensures !(cache != null && cache.frameCount > 0) && stillImage.None? ==>
        && image.None? && frameCount == 0
        && source == (if assetOpens then Some(Reader(0)) else None)
        && frameRate == (if !assetOpens then 30 else if decoderFrameRate < 30 then decoderFrameRate else 30)
    {
      this.cache := cache;
      this.width := width;
      this.height := height;
      this.bytesPerRow := bytesPerRow;
      this.asset := asset;
      this.assetOpens := assetOpens;
      currentFrame := 0;
      if cache != null && cache.frameCount > 0 {
        source := None;
        image := None;
        frameRate := cache.frameRate;
        frameCount := cache.frameCount;
      } else if stillImage.Some? {
        source := None;
        image := stillImage;
        frameRate := 1;
        frameCount := 1;
      } else {
        if assetOpens {
          source := Some(Reader(0));
          frameRate := if decoderFrameRate < 30 then decoderFrameRate else 30;
        } else {
          source := None;
          frameRate := 30;
        }
        image := None;
        frameCount := 0;
      }
    }

    method TakeFrame(draw: bool) returns (frame: Option<AnimatedStickerFrame>)
      requires Valid()
      // finalising the header converts the frame rate to Int32, which traps when it does not fit
      requires ReachesEndOfStream(draw) && frameCount == 0 && cache != null && cache.StoredFrames() == NextIndex() ==>
        InInt32(frameRate)
      modifies Footprint()
      ensures Valid()
      // every frame handed out is tagged with the index computed on entry
      ensures frame.Some? ==>
        && frame.value.index == old(NextIndex())
        && frame.value.totalFrames == frameCount
        && frame.value.isLastFrame == (frame.value.index == frameCount - 1)
        && frame.value.width == width && frame.value.height == height
      ensures frame.Some? && frame.value.frameType.Argb? ==>
        frame.value.frameType.multiplyAlpha && frame.value.bytesPerRow == bytesPerRow &&
        |frame.value.data| == bytesPerRow * height
      ensures frame.Some? && frame.value.frameType.Yuva? ==> frame.value.bytesPerRow == width * 2
      // the counter moves on by one, except that the end of the stream restarts it
      ensures currentFrame == if old(ReachesEndOfStream(draw)) then 0 else old(currentFrame) + 1
      // with a known count, successive calls walk round the loop
      ensures old(frameCount) > 0 && old(currentFrame) >= 0 && !old(ReachesEndOfStream(draw)) ==>
        NextIndex() == (old(NextIndex()) + 1) % old(frameCount)
      // the frame count is settled at most once, at the end of a pass
      ensures old(frameCount) != 0 || !old(ReachesEndOfStream(draw)) ==> frameCount == old(frameCount)
      ensures old(frameCount) == 0 && old(ReachesEndOfStream(draw)) ==>
        frameCount == if cache == null || old(cache.StoredFrames()) == old(NextIndex()) then old(NextIndex()) else 0
      // a skipped draw changes nothing else
      ensures !draw ==> frame.None? && source == old(source)
      ensures !draw && cache != null ==> cache.State() == old(cache.State()) && cache.decodeBuffer == old(cache.decodeBuffer)
      // the still image comes first
      ensures draw && image.Some? ==>
        && frame == Some(AnimatedStickerFrame(image.value, Argb(true), width, height, bytesPerRow,
                                              old(NextIndex()), old(NextIndex()) == frameCount - 1, frameCount))
        && source == old(source) && (cache != null ==> cache.State() == old(cache.State()))
      // a still image, whose count is 1, is always the last frame
      ensures draw && image.Some? && old(frameCount) == 1 ==> frame.Some? && frame.value.isLastFrame
      // then the cache, before the decoder
      ensures draw && image.None? && old(CacheHit(NextIndex())) ==>
        && frame == Some(AnimatedStickerFrame(old(CacheRead(NextIndex())).frame.value, Yuva, width, height, width * 2,
                                              old(NextIndex()), old(NextIndex()) == frameCount - 1, frameCount))
        && source == old(source)
      // then the decoder: a decoded frame is handed out and submitted to the cache
      ensures draw && old(DecodesFrame(source, NextIndex())) ==>
        && frame == Some(AnimatedStickerFrame(NextResult(asset, old(source).value).pixels, Argb(true), width, height,
                                              bytesPerRow, old(NextIndex()), old(NextIndex()) == frameCount - 1, frameCount))
        && source == Some(Reader(old(source).value.position + 1))
      // waiting for data, a decoder error or no decoder: no frame; a decoder answer is used up
      ensures draw && image.None? && !old(CacheHit(NextIndex())) &&
              (old(source).None? || NextResult(asset, old(source).value).WaitingForMoreData? ||
               NextResult(asset, old(source).value).Error?) ==>
        && frame.None?
        && source == (if old(source).None? then None else Some(Reader(old(source).value.position + 1)))
      // only a decoded frame is submitted to the cache, and only a newly submitted slot becomes pending
      ensures cache != null ==>
        && cache.isStoringFrames == (if draw && old(DecodesFrame(source, NextIndex()))
                                     then Submit(old(cache.isStoringFrames), old(NextIndex()))
                                     else old(cache.isStoringFrames))
        && cache.pendingStores == old(cache.pendingStores) + (cache.isStoringFrames - old(cache.isStoringFrames))
        && cache.fileDeleted == old(cache.fileDeleted)
      // the still image leaves the cache alone; short of the end of the stream any other draw leaves the
      // cache as its read of the index leaves it
      ensures draw && cache != null && image.Some? ==> cache.decodeBuffer == old(cache.decodeBuffer)
      ensures draw && cache != null && image.None? && !old(ReachesEndOfStream(draw)) ==>
        && cache.State() == old(CacheRead(NextIndex())).state
        && cache.decodeBuffer == Overlay(old(cache.decodeBuffer), old(CacheRead(NextIndex())).frame)
      // the end of the stream reopens the decoder and tries slot 0 of the cache
      ensures old(ReachesEndOfStream(draw)) ==>
        && source == (if assetOpens then Some(Reader(0)) else None)
        && (cache == null ==> frame.None?)
      ensures old(ReachesEndOfStream(draw)) && cache != null ==>
        var missed := old(CacheRead(NextIndex())).state;
        var finalised := old(frameCount) == 0 && old(cache.StoredFrames()) == old(NextIndex());
        var settled := if finalised then StoreFrameRateAndCountSpec(missed, frameRate, old(NextIndex())) else missed;
        var reread := ReadUncompressedYuvaFrameSpec(settled, cache.file.statOk, cache.decompress, |cache.decodeBuffer|, 0);
        && cache.State() == reread.state
        && cache.decodeBuffer == Overlay(old(cache.decodeBuffer), reread.frame)
        && frame == (if reread.frame.Some?
                     then Some(AnimatedStickerFrame(reread.frame.value, Yuva, width, height, width * 2,
                                                    old(NextIndex()), old(NextIndex()) == frameCount - 1, frameCount))
                     else None)
    {
      var frameIndex := TakeFrameIndex(currentFrame, frameCount);
      if frameCount > 0 && currentFrame >= 0 {
        FrameIndexAdvances(currentFrame, frameCount);
      }
      if !draw {
        currentFrame := currentFrame + 1;
        return None;
      }
      frame := DrawFrame(frameIndex);
    }

    /** The drawing branch of takeFrame for `frameIndex`, from the counter's step onwards. */
    method DrawFrame(frameIndex: int) returns (frame: Option<AnimatedStickerFrame>)
      requires Valid()
      // finalising the header converts the frame rate to Int32, which traps when it does not fit
      requires EndsPass(source, frameIndex) && frameCount == 0 && cache != null && cache.StoredFrames() == frameIndex ==>
        InInt32(frameRate)
      modifies Footprint()
      ensures Valid()
      // every frame handed out is tagged with `frameIndex`
      ensures frame.Some? ==>
        && frame.value.index == frameIndex
        && frame.value.totalFrames == frameCount
        && frame.value.isLastFrame == (frame.value.index == frameCount - 1)
        && frame.value.width == width && frame.value.height == height
      ensures frame.Some? && frame.value.frameType.Argb? ==>
        frame.value.frameType.multiplyAlpha && frame.value.bytesPerRow == bytesPerRow &&
        |frame.value.data| == bytesPerRow * height
      ensures frame.Some? && frame.value.frameType.Yuva? ==> frame.value.bytesPerRow == width * 2
      // the counter moves on by one, except that the end of the stream restarts it
      ensures currentFrame == if old(EndsPass(source, frameIndex)) then 0 else old(currentFrame) + 1
      // the frame count is settled at most once, at the end of a pass
      ensures old(frameCount) != 0 || !old(EndsPass(source, frameIndex)) ==> frameCount == old(frameCount)
      ensures old(frameCount) == 0 && old(EndsPass(source, frameIndex)) ==>
        frameCount == if cache == null || old(cache.StoredFrames()) == frameIndex then frameIndex else 0
      // the still image comes first
      ensures image.Some? ==>
        && frame == Some(AnimatedStickerFrame(image.value, Argb(true), width, height, bytesPerRow,
                                              frameIndex, frameIndex == frameCount - 1, frameCount))
        && source == old(source) && (cache != null ==> cache.State() == old(cache.State()))
      // then the cache, before the decoder
      ensures image.None? && old(CacheHit(frameIndex)) ==>
        && frame == Some(AnimatedStickerFrame(old(CacheRead(frameIndex)).frame.value, Yuva, width, height, width * 2,
                                              frameIndex, frameIndex == frameCount - 1, frameCount))
        && source == old(source)
      // then the decoder: a decoded frame is handed out and submitted to the cache
      ensures old(DecodesFrame(source, frameIndex)) ==>
        && frame == Some(AnimatedStickerFrame(NextResult(asset, old(source).value).pixels, Argb(true), width, height,
                                              bytesPerRow, frameIndex, frameIndex == frameCount - 1, frameCount))
        && source == Some(Reader(old(source).value.position + 1))
      // waiting for data, a decoder error or no decoder: no frame; a decoder answer is used up
      ensures image.None? && !old(CacheHit(frameIndex)) &&
              (old(source).None? || NextResult(asset, old(source).value).WaitingForMoreData? ||
               NextResult(asset, old(source).value).Error?) ==>
        && frame.None?
        && source == (if old(source).None? then None else Some(Reader(old(source).value.position + 1)))
      // only a decoded frame is submitted to the cache, and only a newly submitted slot becomes pending
      ensures cache != null ==>
        && cache.isStoringFrames == (if old(DecodesFrame(source, frameIndex))
                                     then Submit(old(cache.isStoringFrames), frameIndex)
                                     else old(cache.isStoringFrames))
        && cache.pendingStores == old(cache.pendingStores) + (cache.isStoringFrames - old(cache.isStoringFrames))
        && cache.fileDeleted == old(cache.fileDeleted)
      // the still image leaves the cache alone; short of the end of the stream any other draw leaves the
      // cache as its read of `frameIndex` leaves it
      ensures cache != null && image.Some? ==> cache.decodeBuffer == old(cache.decodeBuffer)
      ensures cache != null && image.None? && !old(EndsPass(source, frameIndex)) ==>
        && cache.State() == old(CacheRead(frameIndex)).state
        && cache.decodeBuffer == Overlay(old(cache.decodeBuffer), old(CacheRead(frameIndex)).frame)
      // the end of the stream reopens the decoder and tries slot 0 of the cache
      ensures old(EndsPass(source, frameIndex)) ==>
        && source == (if assetOpens then Some(Reader(0)) else None)
        && (cache == null ==> frame.None?)
      ensures old(EndsPass(source, frameIndex)) && cache != null ==>
        var missed := old(CacheRead(frameIndex)).state;
        var finalised := old(frameCount) == 0 && old(cache.StoredFrames()) == frameIndex;
        var settled := if finalised then StoreFrameRateAndCountSpec(missed, frameRate, frameIndex) else missed;
        var reread := ReadUncompressedYuvaFrameSpec(settled, cache.file.statOk, cache.decompress, |cache.decodeBuffer|, 0);
        && cache.State() == reread.state
        && cache.decodeBuffer == Overlay(old(cache.decodeBuffer), reread.frame)
        && frame == (if reread.frame.Some?
                     then Some(AnimatedStickerFrame(reread.frame.value, Yuva, width, height, width * 2,
                                                    frameIndex, frameIndex == frameCount - 1, frameCount))
                     else None)
    {
      currentFrame := currentFrame + 1;
      if image.Some? {
        return Some(AnimatedStickerFrame(image.value, Argb(true), width, height, bytesPerRow,
                                         frameIndex, frameIndex == frameCount - 1, frameCount));
      }
      var cached: Option<seq<Byte>> := None;
      if cache != null {
        cached := cache.ReadUncompressedYuvaFrame(frameIndex);
      }
      if cached.Some? {
        return Some(AnimatedStickerFrame(cached.value, Yuva, width, height, width * 2,
                                         frameIndex, frameIndex == frameCount - 1, frameCount));
      }
      if source.None? {
        return None;
      }
      var result := NextResult(asset, source.value);
      source := Some(Reader(source.value.position + 1));
      match result
      case Frame(pixels) =>
        if cache != null {
          cache.StoreUncompressedRgbFrame(frameIndex);
        }
        return Some(AnimatedStickerFrame(pixels, Argb(true), width, height, bytesPerRow,
                                         frameIndex, frameIndex == frameCount - 1, frameCount));
      case EndOfStream =>
        frame := EndOfPass(frameIndex);
      case WaitingForMoreData =>
        return None;
      case Error =>
        return None;
    }

    /**
     * The end-of-stream branch of takeFrame, after the cache has missed on
     * `frameIndex`: while the frame count is still 0 it becomes `frameIndex`
     * when there is no cache, or when as many stores have been submitted as
     * `frameIndex` (which also finalises the cache's header), so a later pass
     * can settle it if an earlier one did not; then the counter restarts, a
     * new decoder is opened, and slot 0 of the cache is handed out, tagged
     * with `frameIndex`.
     */
    method EndOfPass(frameIndex: int) returns (frame: Option<AnimatedStickerFrame>)
      requires Valid()
      requires frameCount == 0 && cache != null && cache.StoredFrames() == frameIndex ==> InInt32(frameRate)
      modifies Footprint()
      ensures Valid()
      ensures currentFrame == 0 && source == (if assetOpens then Some(Reader(0)) else None)
      ensures old(frameCount) != 0 ==> frameCount == old(frameCount)
      ensures old(frameCount) == 0 ==>
        frameCount == if cache == null || old(cache.StoredFrames()) == frameIndex then frameIndex else 0
      ensures cache == null ==> frame.None?
      ensures frame.Some? ==>
        frame.value.index == frameIndex && frame.value.totalFrames == frameCount &&
        frame.value.isLastFrame == (frameIndex == frameCount - 1) &&
        frame.value.width == width && frame.value.height == height
      ensures cache != null ==>
        var finalised := old(frameCount) == 0 && old(cache.StoredFrames()) == frameIndex;
        var settled := if finalised then StoreFrameRateAndCountSpec(old(cache.State()), frameRate, frameIndex)
                       else old(cache.State());
        var reread := ReadUncompressedYuvaFrameSpec(settled, cache.file.statOk, cache.decompress, |cache.decodeBuffer|, 0);
        && cache.State() == reread.state
        && cache.decodeBuffer == Overlay(old(cache.decodeBuffer), reread.frame)
        && frame == (if reread.frame.Some?
                     then Some(AnimatedStickerFrame(reread.frame.value, Yuva, width, height, width * 2,
                                                    frameIndex, frameIndex == frameCount - 1, frameCount))
                     else None)
      // nothing is submitted on the way
      ensures cache != null ==>
        && cache.isStoringFrames == old(cache.isStoringFrames) && cache.pendingStores == old(cache.pendingStores)
        && cache.fileDeleted == old(cache.fileDeleted)
    {
      if frameCount == 0 {
        if cache != null {
          var stored := cache.StoredFrames();
          if stored == frameIndex {
            frameCount := frameIndex;
            cache.StoreFrameRateAndCount(frameRate, frameCount);
          }
        } else {
          frameCount := frameIndex;
        }
      }
      currentFrame := 0;
      source := if assetOpens then Some(Reader(0)) else None;
      if cache != null {
        var first := cache.ReadUncompressedYuvaFrame(currentFrame);
        if first.Some? {
          return Some(AnimatedStickerFrame(first.value, Yuva, width, height, width * 2,
                                           frameIndex, frameIndex == frameCount - 1, frameCount));
        }
      }
      return None;
    }

    /** skipToEnd: the next frame handed out is the last of the pass. */
    method SkipToEnd()
      modifies this`currentFrame
      ensures currentFrame == frameCount - 1
      ensures frameCount > 0 ==> TakeFrameIndex(currentFrame, frameCount) == frameCount - 1
    {
      currentFrame := frameCount - 1;
      if frameCount > 0 {
        RemainderOf(frameCount - 1, 0, frameCount - 1, frameCount);
      }
    }

    /** skipToFrameIndex: the counter is set as given, without any check. */
    method SkipToFrameIndex(index: int)
      modifies this`currentFrame
      ensures currentFrame == index
      ensures frameCount > 0 && 0 <= index < frameCount ==> TakeFrameIndex(currentFrame, frameCount) == index
    {
      currentFrame := index;
      if frameCount > 0 && 0 <= index < frameCount {
        RemainderOf(index, 0, index, frameCount);
      }
    }
  }
}
