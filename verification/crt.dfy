/**
 * The block-glyph video converter: nearest-neighbour downsampling, the brightness
 * map, the block-tiling renderer, the three-slot near-duplicate cache, and the
 * per-frame "emit a new render or re-emit the previous one" loop.
 */
module Crt {
  import opened Common

  const CACHE_DEPTH: int := 3
  const CHAR_WIDTH: int := 2
  const CHAR_HEIGHT: int := 3

  /** A pixel with its three channels in the order the frame source delivers them (blue, green, red). */
  datatype Rgb = Rgb(c0: int, c1: int, c2: int)

  /** Rows of pixels. */
  type Image = seq<seq<Rgb>>

  /** Rows of grey levels. */
  type Gray = seq<seq<int>>

  predicate IsGrid<T>(g: seq<seq<T>>, rows: int, cols: int) {
    |g| == rows && forall y :: 0 <= y < |g| ==> |g[y]| == cols
  }

  predicate IsBytePixel(p: Rgb) {
    0 <= p.c0 < 256 && 0 <= p.c1 < 256 && 0 <= p.c2 < 256
  }

  predicate IsByteImage(img: Image) {
    forall y, x :: 0 <= y < |img| && 0 <= x < |img[y]| ==> IsBytePixel(img[y][x])
  }

  /** Source coordinate sampled for destination coordinate `d` when `src` pixels shrink to `dst`. */
  function NearestSource(d: int, src: int, dst: int): (s: int)
    requires 0 <= d < dst && src >= 0
    ensures 0 <= s && (src > 0 ==> s < src)
  {
    MulMonotone(d, dst, src);
    if src > 0 then DivLessThan(d * src, dst, src); d * src / dst else 0
  }

  /**
   * Nearest-neighbour resize of a `height` x `width` frame to `rows` x `cols`: every
   * destination pixel is a copy of one source pixel.
   */
  function Downsample(frame: Image, width: int, height: int, cols: int, rows: int): (small: Image)
    requires width > 0 && height > 0 && IsGrid(frame, height, width)
    requires cols > 0 && rows > 0
    ensures IsGrid(small, rows, cols)
    ensures forall y, x :: 0 <= y < rows && 0 <= x < cols ==>
      small[y][x] == frame[NearestSource(y, height, rows)][NearestSource(x, width, cols)]
  {
    seq(rows, y requires 0 <= y < rows =>
      seq(cols, x requires 0 <= x < cols => frame[NearestSource(y, height, rows)][NearestSource(x, width, cols)]))
  }

  /** Per-cell brightness: the truncated mean of the three channels, which stays a byte for byte input. */
  function ComputeBrightness(small: Image, rows: int, cols: int): (bm: Gray)
    requires IsGrid(small, rows, cols) && cols >= 0 && IsByteImage(small)
    ensures IsGrid(bm, rows, cols)
    ensures forall y, x :: 0 <= y < rows && 0 <= x < cols ==>
      0 <= bm[y][x] <= 255 &&
      3 * bm[y][x] <= small[y][x].c0 + small[y][x].c1 + small[y][x].c2 < 3 * bm[y][x] + 3
  {
    seq(rows, y requires 0 <= y < rows =>
      seq(cols, x requires 0 <= x < cols => (small[y][x].c0 + small[y][x].c1 + small[y][x].c2) / 3))
  }

  /** Colour of output pixel (`oy`, `ox`): the colour of the cell whose block contains it. */
  function BlockColor(small: Image, rows: int, cols: int, charWidth: int, charHeight: int, oy: int, ox: int): Rgb
    requires IsGrid(small, rows, cols) && charWidth > 0 && charHeight > 0
    requires 0 <= oy < rows * charHeight && 0 <= ox < cols * charWidth
  {
    DivLessThan(oy, charHeight, rows);
    DivLessThan(ox, charWidth, cols);
    small[oy / charHeight][ox / charWidth]
  }

  /**
   * The block renderer: cell (y, x) paints the `charHeight` x `charWidth` block at
   * (y * charHeight, x * charWidth) with its own colour. The brightness map is passed
   * but does not influence the result.
   */
  function RenderSingleGlyph(brightness: Gray, small: Image, rows: int, cols: int, charWidth: int, charHeight: int): (out: Image)
    requires IsGrid(small, rows, cols) && cols >= 0 && charWidth > 0 && charHeight > 0
    ensures IsGrid(out, rows * charHeight, cols * charWidth)
  {
    MulMonotone(0, rows, charHeight);
    MulMonotone(0, cols, charWidth);
    seq(rows * charHeight, oy requires 0 <= oy < rows * charHeight =>
      seq(cols * charWidth, ox requires 0 <= ox < cols * charWidth =>
        BlockColor(small, rows, cols, charWidth, charHeight, oy, ox)))
  }

  /** Every pixel of cell (y, x)'s block gets that cell's colour. */
  lemma RenderBlock(brightness: Gray, small: Image, rows: int, cols: int, charWidth: int, charHeight: int,
                    y: int, x: int, dy: int, dx: int)
    requires IsGrid(small, rows, cols) && charWidth > 0 && charHeight > 0
    requires 0 <= y < rows && 0 <= x < cols && 0 <= dy < charHeight && 0 <= dx < charWidth
    ensures 0 <= y * charHeight + dy < rows * charHeight && 0 <= x * charWidth + dx < cols * charWidth
    ensures RenderSingleGlyph(brightness, small, rows, cols, charWidth, charHeight)[y * charHeight + dy][x * charWidth + dx]
            == small[y][x]
  {
    RowMajorBound(y, dy, rows, charHeight);
    RowMajorBound(x, dx, cols, charWidth);
    MulDivMod(y, dy, charHeight);
    MulDivMod(x, dx, charWidth);
  }

  /**
   * Along one axis, output coordinate `o` lies in the block of cell `o / c` at offset
   * `o % c`, and in no other block.
   */
  lemma BlockCoordinate(o: int, n: int, c: int, y: int, dy: int)
    requires c > 0 && 0 <= o < n * c && 0 <= y && 0 <= dy < c
    ensures 0 <= o / c < n && o == (o / c) * c + o % c
    ensures o == y * c + dy <==> (y == o / c && dy == o % c)
  {
    DivLessThan(o, c, n);
    if o == y * c + dy {
      MulDivMod(y, dy, c);
    }
  }

  /**
   * The blocks tile the output without overlap: each output pixel lies in exactly one
   * block, the one of cell (oy / charHeight, ox / charWidth), at offset (oy % charHeight, ox % charWidth).
   */
  lemma BlocksTileOutput(rows: int, cols: int, charWidth: int, charHeight: int, oy: int, ox: int,
                         y: int, x: int, dy: int, dx: int)
    requires charWidth > 0 && charHeight > 0
    requires 0 <= oy < rows * charHeight && 0 <= ox < cols * charWidth
    requires 0 <= y && 0 <= x && 0 <= dy < charHeight && 0 <= dx < charWidth
    ensures 0 <= oy / charHeight < rows && 0 <= ox / charWidth < cols
    ensures (oy == y * charHeight + dy && ox == x * charWidth + dx) <==>
            (y == oy / charHeight && dy == oy % charHeight && x == ox / charWidth && dx == ox % charWidth)
  {
    BlockCoordinate(oy, rows, charHeight, y, dy);
    BlockCoordinate(ox, cols, charWidth, x, dx);
  }

  /** The renderer ignores its brightness-map argument. */
  lemma RenderIgnoresBrightness(b1: Gray, b2: Gray, small: Image, rows: int, cols: int, charWidth: int, charHeight: int)
    requires IsGrid(small, rows, cols) && cols >= 0 && charWidth > 0 && charHeight > 0
    ensures RenderSingleGlyph(b1, small, rows, cols, charWidth, charHeight)
         == RenderSingleGlyph(b2, small, rows, cols, charWidth, charHeight)
  {
  }

  /** Saturation to the byte range. */
  function Clip(v: int): (c: int)
    ensures 0 <= c <= 255
    ensures 0 <= v <= 255 ==> c == v
    ensures v < 0 ==> c == 0
    ensures v > 255 ==> c == 255
  {
    if v < 0 then 0 else if v > 255 then 255 else v
  }

  function ClipPixel(p: Rgb): (q: Rgb)
    ensures IsBytePixel(q)
    ensures IsBytePixel(p) ==> q == p
  {
    Rgb(Clip(p.c0), Clip(p.c1), Clip(p.c2))
  }

  /** Read-back of the render buffer, saturated to bytes; a no-op on byte-valued images. */
  function ClipImage(img: Image): (out: Image)
    ensures |out| == |img| && forall y :: 0 <= y < |img| ==> |out[y]| == |img[y]|
    ensures IsByteImage(out)
  {
    seq(|img|, y requires 0 <= y < |img| => seq(|img[y]|, x requires 0 <= x < |img[y]| => ClipPixel(img[y][x])))
  }

  /** Clipping leaves a byte-valued image as it is. */
  lemma ClipImageKeepsBytes(img: Image)
    requires IsByteImage(img)
    ensures ClipImage(img) == img
  {
    var out := ClipImage(img);
    forall y | 0 <= y < |img|
      ensures out[y] == img[y]
    {
      assert forall x :: 0 <= x < |img[y]| ==> out[y][x] == img[y][x];
    }
  }

  // ---------------------------------------------------------------------------
  // The near-duplicate cache

  function Abs(v: int): nat {
    if v < 0 then -v else v
  }

  function RowDiff(a: seq<int>, b: seq<int>): nat
    requires |a| == |b|
  {
    if |a| == 0 then 0 else Abs(a[0] - b[0]) + RowDiff(a[1..], b[1..])
  }

  /** Sum over all cells of the absolute grey difference. */
  function GridDiff(a: Gray, b: Gray): nat
    requires |a| == |b| && forall y :: 0 <= y < |a| ==> |a[y]| == |b[y]|
  {
    if |a| == 0 then 0 else RowDiff(a[0], b[0]) + GridDiff(a[1..], b[1..])
  }

  lemma {:induction false} GridDiffSelf(a: Gray)
    ensures GridDiff(a, a) == 0
    decreases |a|
  {
    if |a| > 0 {
      RowDiffSelf(a[0]);
      GridDiffSelf(a[1..]);
    }
  }

  lemma {:induction false} RowDiffSelf(a: seq<int>)
    ensures RowDiff(a, a) == 0
    decreases |a|
  {
    if |a| > 0 {
      RowDiffSelf(a[1..]);
    }
  }

  /**
   * The mean absolute difference over `rows * cols` cells is below 2.0, stated on the
   * integer sum. An empty grid has no mean and never counts as close.
   */
  predicate Close(current: Gray, cached: Gray, rows: int, cols: int)
    requires IsGrid(current, rows, cols) && IsGrid(cached, rows, cols)
  {
    GridDiff(current, cached) < 2 * rows * cols
  }

  predicate IsCache(cache: seq<Gray>, rows: int, cols: int) {
    |cache| <= CACHE_DEPTH && forall k :: 0 <= k < |cache| ==> IsGrid(cache[k], rows, cols)
  }

  /** A cache hit: some cached grid is close to the current one. */
  predicate Hit(cache: seq<Gray>, current: Gray, rows: int, cols: int)
    requires IsCache(cache, rows, cols) && IsGrid(current, rows, cols)
  {
    exists k :: 0 <= k < |cache| && Close(current, cache[k], rows, cols)
  }

  /** The scan over the cached grids, stopping at the first close one. */
  method CheckCache(cache: seq<Gray>, current: Gray, rows: int, cols: int) returns (hit: bool)
    requires IsCache(cache, rows, cols) && IsGrid(current, rows, cols)
    ensures hit <==> Hit(cache, current, rows, cols)
  {
    var k := 0;
    while k < |cache|
      invariant 0 <= k <= |cache|
      invariant forall j :: 0 <= j < k ==> !Close(current, cache[j], rows, cols)
    {
      if GridDiff(current, cache[k]) < 2 * rows * cols {
        return true;
      }
      k := k + 1;
    }
    return false;
  }

  /** An empty cache never hits, so the first frame of a stream is always rendered. */
  lemma EmptyCacheMisses(current: Gray, rows: int, cols: int)
    requires IsGrid(current, rows, cols)
    ensures !Hit([], current, rows, cols)
  {
  }

  /** A grid identical to a cached one hits, as long as the grid is not empty. */
  lemma RepeatedGridHits(cache: seq<Gray>, current: Gray, rows: int, cols: int, k: int)
    requires IsCache(cache, rows, cols) && IsGrid(current, rows, cols)
    requires 0 <= k < |cache| && cache[k] == current && rows > 0 && cols > 0
    ensures Hit(cache, current, rows, cols)
  {
    GridDiffSelf(current);
    MulMonotone(1, rows, cols);
  }

  /**
   * Recording a missed grid: appended while there are fewer than `CACHE_DEPTH` entries,
   * otherwise written over slot `frameIndex % CACHE_DEPTH`.
   */
  function CacheUpdate(cache: seq<Gray>, current: Gray, frameIndex: nat, rows: int, cols: int): (c: seq<Gray>)
    requires IsCache(cache, rows, cols) && IsGrid(current, rows, cols)
    ensures IsCache(c, rows, cols)
    ensures |cache| < CACHE_DEPTH ==> |c| == |cache| + 1 && c[..|cache|] == cache && c[|cache|] == current
    ensures |cache| == CACHE_DEPTH ==>
      |c| == CACHE_DEPTH && c[frameIndex % CACHE_DEPTH] == current &&
      forall k :: 0 <= k < CACHE_DEPTH && k != frameIndex % CACHE_DEPTH ==> c[k] == cache[k]
  {
    if |cache| < CACHE_DEPTH then cache + [current] else cache[frameIndex % CACHE_DEPTH := current]
  }

  /** Geometry of one stream: frame size and the derived cell grid. */
  datatype Stream = Stream(width: int, height: int, cols: int, rows: int)
  {
    predicate Valid() {
      width > 0 && height > 0 && cols == width / CHAR_WIDTH && rows == height / CHAR_HEIGHT && cols > 0 && rows > 0
    }
  }

  predicate IsFrame(s: Stream, frame: Image) {
    IsGrid(frame, s.height, s.width) && IsByteImage(frame)
  }

  /** The cell grid of a frame, and its grey levels for the cache. */
  function Small(s: Stream, frame: Image): (small: Image)
    requires s.Valid() && IsFrame(s, frame)
    ensures IsGrid(small, s.rows, s.cols) && IsByteImage(small)
  {
    Downsample(frame, s.width, s.height, s.cols, s.rows)
  }

  function GrayOf(s: Stream, frame: Image): (g: Gray)
    requires s.Valid() && IsFrame(s, frame)
    ensures IsGrid(g, s.rows, s.cols)
  {
    ComputeBrightness(Small(s, frame), s.rows, s.cols)
  }

  /** The rendered image of a frame: cell colours blown up to blocks, read back as bytes. */
  function Render(s: Stream, frame: Image): (img: Image)
    requires s.Valid() && IsFrame(s, frame)
    ensures IsGrid(img, s.rows * CHAR_HEIGHT, s.cols * CHAR_WIDTH) && IsByteImage(img)
  {
    var small := Small(s, frame);
    var out := RenderSingleGlyph(ComputeBrightness(small, s.rows, s.cols), small, s.rows, s.cols, CHAR_WIDTH, CHAR_HEIGHT);
    assert IsByteImage(out) by {
      forall oy, ox | 0 <= oy < |out| && 0 <= ox < |out[oy]|
        ensures IsBytePixel(out[oy][ox])
      {
        DivLessThan(oy, CHAR_HEIGHT, s.rows);
        DivLessThan(ox, CHAR_WIDTH, s.cols);
      }
    }
    ClipImage(out)
  }

  /**
   * One call of the per-frame step: `None` on a cache hit (cache unchanged), otherwise the
   * new render and the cache with the frame's grey grid recorded.
   */
  function FrameToAsciiSingle(s: Stream, frame: Image, cache: seq<Gray>, frameIndex: nat): (res: (Option<Image>, seq<Gray>))
    requires s.Valid() && IsFrame(s, frame) && IsCache(cache, s.rows, s.cols)
    ensures IsCache(res.1, s.rows, s.cols)
    ensures res.0.None? <==> Hit(cache, GrayOf(s, frame), s.rows, s.cols)
    ensures res.0.None? ==> res.1 == cache
    ensures res.0.Some? ==> res.0.value == Render(s, frame) && |res.1| > 0 &&
                            res.1 == CacheUpdate(cache, GrayOf(s, frame), frameIndex, s.rows, s.cols)
  {
    var gray := GrayOf(s, frame);
    if Hit(cache, gray, s.rows, s.cols) then (None, cache)
    else (Some(Render(s, frame)), CacheUpdate(cache, gray, frameIndex, s.rows, s.cols))
  }

  // ---------------------------------------------------------------------------
  // Channel order at the writer

  /** The colour conversion applied before queueing, as written: channels 0 and 2 are exchanged. */
  function SwapRedBlue(img: Image): (out: Image)
    ensures |out| == |img| && forall y :: 0 <= y < |img| ==> |out[y]| == |img[y]|
    ensures forall y, x :: 0 <= y < |img| && 0 <= x < |img[y]| ==>
      out[y][x] == Rgb(img[y][x].c2, img[y][x].c1, img[y][x].c0)
  {
    seq(|img|, y requires 0 <= y < |img| =>
      seq(|img[y]|, x requires 0 <= x < |img[y]| => Rgb(img[y][x].c2, img[y][x].c1, img[y][x].c0)))
  }

  // ---------------------------------------------------------------------------
  // The emit loop

  /** The colour conversion before queueing: the exchange as written, or none as intended. */
  datatype Conversion = RgbToBgr | Unchanged

  function Convert(conv: Conversion, img: Image): Image {
    match conv
    case RgbToBgr => SwapRedBlue(img)
    case Unchanged => img
  }

  predicate AllFrames(s: Stream, frames: seq<Image>) {
    forall i :: 0 <= i < |frames| ==> IsFrame(s, frames[i])
  }

  /** What the per-frame step returned for each frame so far, and the cache it left. */
  datatype Steps = Steps(results: seq<Option<Image>>, cache: seq<Gray>)

  /** The per-frame step run over the first `n` frames, starting on the cache `cache0`. */
  ghost function Stepped(s: Stream, frames: seq<Image>, cache0: seq<Gray>, n: nat): (r: Steps)
    requires s.Valid() && AllFrames(s, frames) && IsCache(cache0, s.rows, s.cols) && n <= |frames|
    ensures |r.results| == n && IsCache(r.cache, s.rows, s.cols)
    ensures cache0 == [] && n > 0 ==> r.results[0].Some?
  {
    if n == 0 then Steps([], cache0)
    else
      var before := Stepped(s, frames, cache0, n - 1);
      var res := FrameToAsciiSingle(s, frames[n - 1], before.cache, n - 1);
      Steps(before.results + [res.0], res.1)
  }

  /** The loop's other state: the last render and the renders queued so far. */
  datatype Queued<T> = Queued(prev: Option<T>, queue: seq<T>)

  /**
   * One pass of the loop after the per-frame step: a new render is queued and remembered;
   * without one the remembered render is queued again, or nothing while there is none.
   */
  function Enqueue<T>(q: Queued<T>, res: Option<T>): Queued<T> {
    match res
    case Some(img) => Queued(res, q.queue + [img])
    case None => if q.prev.Some? then Queued(q.prev, q.queue + [q.prev.value]) else q
  }

  /**
   * The queue after the loop has seen the given per-frame results: at most one entry per
   * frame, none before the first render, the remembered render last, and one entry for
   * every frame when the first frame was rendered.
   */
  function QueueOf<T>(results: seq<Option<T>>): (q: Queued<T>)
    ensures |q.queue| <= |results|
    ensures q.prev.None? <==> q.queue == []
    ensures q.prev.Some? ==> q.queue[|q.queue| - 1] == q.prev.value
    ensures |results| > 0 && results[0].Some? ==> |q.queue| == |results|
    decreases |results|
  {
    if |results| == 0 then Queued(None, [])
    else
      var before := results[..|results| - 1];
      assert |before| > 0 ==> before[0] == results[0];
      Enqueue(QueueOf(before), results[|results| - 1])
  }

  /** Each queued render in the colour order handed to the writer. */
  function ConvertAll(conv: Conversion, imgs: seq<Image>): (out: seq<Image>)
    ensures |out| == |imgs| && forall i :: 0 <= i < |imgs| ==> out[i] == Convert(conv, imgs[i])
  {
    seq(|imgs|, i requires 0 <= i < |imgs| => Convert(conv, imgs[i]))
  }

  /** Converting one more render appends its conversion. */
  lemma ConvertAllSnoc(conv: Conversion, imgs: seq<Image>, img: Image)
    ensures ConvertAll(conv, imgs + [img]) == ConvertAll(conv, imgs) + [Convert(conv, img)]
  {
  }

  /** The frames handed to the writer after the first `n` frames of a conversion started on `cache0`. */
  ghost function Outputs(s: Stream, frames: seq<Image>, cache0: seq<Gray>, conv: Conversion, n: nat): seq<Image>
    requires s.Valid() && AllFrames(s, frames) && IsCache(cache0, s.rows, s.cols) && n <= |frames|
  {
    ConvertAll(conv, QueueOf(Stepped(s, frames, cache0, n).results).queue)
  }

  /** Running the step on frame `n` extends the recorded results by its result. */
  lemma SteppedNext(s: Stream, frames: seq<Image>, cache0: seq<Gray>, n: nat)
    requires s.Valid() && AllFrames(s, frames) && IsCache(cache0, s.rows, s.cols) && n < |frames|
    ensures var before := Stepped(s, frames, cache0, n);
            var res := FrameToAsciiSingle(s, frames[n], before.cache, n);
            Stepped(s, frames, cache0, n + 1) == Steps(before.results + [res.0], res.1)
  {
  }

  /** The recorded result for frame `i` is what the step returned on the cache before frame `i`. */
  lemma {:induction false} SteppedAt(s: Stream, frames: seq<Image>, cache0: seq<Gray>, n: nat, i: nat)
    requires s.Valid() && AllFrames(s, frames) && IsCache(cache0, s.rows, s.cols) && i < n <= |frames|
    ensures var before := Stepped(s, frames, cache0, i);
            Stepped(s, frames, cache0, n).results[i] == FrameToAsciiSingle(s, frames[i], before.cache, i).0
    decreases n
  {
    SteppedNext(s, frames, cache0, n - 1);
    if i < n - 1 {
      SteppedAt(s, frames, cache0, n - 1, i);
    }
  }

  /** Queueing one more result is one more pass of the loop. */
  lemma QueueSnoc<T>(results: seq<Option<T>>, res: Option<T>)
    ensures QueueOf(results + [res]) == Enqueue(QueueOf(results), res)
  {
    assert (results + [res])[..|results|] == results;
  }

  /**
   * The conversion loop: each frame goes through the per-frame step; a miss queues the
   * converted render, a hit queues the previous render converted again, if there is one.
   */
  method EmitLoop(s: Stream, frames: seq<Image>, cache0: seq<Gray>, conv: Conversion)
    returns (outputs: seq<Image>, cache: seq<Gray>)
    requires s.Valid() && AllFrames(s, frames) && IsCache(cache0, s.rows, s.cols)
    ensures outputs == Outputs(s, frames, cache0, conv, |frames|)
    ensures cache == Stepped(s, frames, cache0, |frames|).cache
    ensures |outputs| <= |frames|
    ensures cache0 == [] ==> |outputs| == |frames|
  {
    cache := cache0;
    outputs := [];
    var prevAscii: Option<Image> := None;
    ghost var results: seq<Option<Image>> := [];
    ghost var queue: seq<Image> := [];
    var frameCount := 0;
    while frameCount < |frames|
      invariant 0 <= frameCount <= |frames|
      invariant Steps(results, cache) == Stepped(s, frames, cache0, frameCount)
      invariant Queued(prevAscii, queue) == QueueOf(results)
      invariant outputs == ConvertAll(conv, queue)
    {
      var res := FrameToAsciiSingle(s, frames[frameCount], cache, frameCount);
      SteppedNext(s, frames, cache0, frameCount);
      QueueSnoc(results, res.0);
      results := results + [res.0];
      cache := res.1;
      if res.0.Some? {
        prevAscii := res.0;
      }
      if prevAscii.Some? {
        ConvertAllSnoc(conv, queue, prevAscii.value);
        queue := queue + [prevAscii.value];
        outputs := outputs + [Convert(conv, prevAscii.value)];
      }
      frameCount := frameCount + 1;
    }
  }

  /**
   * The loop as written: it starts on the module's global cache, which earlier conversions
   * in the same session have filled, and exchanges red and blue in every queued frame.
   * Returns the queued frames and the cache left for the next conversion.
   */
  method VideoToAscii(s: Stream, frames: seq<Image>, globalCache: seq<Gray>) returns (outputs: seq<Image>, cache: seq<Gray>)
    requires s.Valid() && AllFrames(s, frames) && IsCache(globalCache, s.rows, s.cols)
    ensures outputs == Outputs(s, frames, globalCache, RgbToBgr, |frames|)
    ensures cache == Stepped(s, frames, globalCache, |frames|).cache
    ensures |outputs| <= |frames|
    ensures globalCache == [] ==> |outputs| == |frames|
  {
    outputs, cache := EmitLoop(s, frames, globalCache, RgbToBgr);
  }

  /**
   * The loop as intended: a fresh cache for every video and the frames queued in the
   * channel order the source delivered them. One output per input frame.
   */
  method ConvertVideo(s: Stream, frames: seq<Image>) returns (outputs: seq<Image>)
    requires s.Valid() && AllFrames(s, frames)
    ensures |outputs| == |frames|
    ensures outputs == Outputs(s, frames, [], Unchanged, |frames|)
  {
    var cache;
    outputs, cache := EmitLoop(s, frames, [], Unchanged);
  }

  /** A prefix of a prefix, each longer by a bounded amount. */
  lemma PrefixChain<T>(early: seq<T>, mid: seq<T>, late: seq<T>, k: nat)
    requires |early| <= |mid| <= |early| + k && mid[..|early|] == early
    requires |mid| <= |late| <= |mid| + 1 && late[..|mid|] == mid
    ensures |early| <= |late| <= |early| + k + 1 && late[..|early|] == early
  {
    assert late[..|early|] == late[..|mid|][..|early|];
  }

  /** Later results never change the renders already queued, and each adds at most one. */
  lemma {:induction false} QueuePrefix<T>(results: seq<Option<T>>, m: nat)
    requires m <= |results|
    ensures var early := QueueOf(results[..m]).queue;
            var late := QueueOf(results).queue;
            |early| <= |late| <= |early| + (|results| - m) && late[..|early|] == early
    decreases |results|
  {
    if m < |results| {
      var before := results[..|results| - 1];
      assert before[..m] == results[..m];
      QueuePrefix(before, m);
      QueueSnoc(before, results[|results| - 1]);
      assert before + [results[|results| - 1]] == results;
      PrefixChain(QueueOf(results[..m]).queue, QueueOf(before).queue, QueueOf(results).queue, |before| - m);
    } else {
      assert results[..m] == results;
    }
  }

  /**
   * When the first frame was rendered, entry `i` of the queue is result `i` when there is
   * one, and entry `i - 1` again otherwise.
   */
  lemma QueueAt<T>(results: seq<Option<T>>, i: nat)
    requires i < |results| && results[0].Some?
    ensures var q := QueueOf(results).queue;
            |q| == |results| && q[i] == if results[i].Some? then results[i].value else q[i - 1]
  {
    var upto := results[..i + 1];
    assert upto[..i] == results[..i] && upto[i] == results[i] && upto[0] == results[0];
    QueueSnoc(results[..i], results[i]);
    assert results[..i] + [results[i]] == upto;
    QueuePrefix(results, i + 1);
    if i > 0 {
      assert results[..i][0] == results[0];
    }
  }

  /**
   * From an empty cache, output `i` is frame `i`'s converted render on a miss and output
   * `i - 1` again on a hit; frame 0 always misses.
   */
  lemma FreshOutputAt(s: Stream, frames: seq<Image>, conv: Conversion, n: nat, i: nat)
    requires s.Valid() && AllFrames(s, frames) && i < n <= |frames|
    ensures i == 0 ==> !Hit(Stepped(s, frames, [], 0).cache, GrayOf(s, frames[0]), s.rows, s.cols)
    ensures var out := Outputs(s, frames, [], conv, n);
            |out| == n &&
            out[i] == if Hit(Stepped(s, frames, [], i).cache, GrayOf(s, frames[i]), s.rows, s.cols)
                      then out[i - 1]
                      else Convert(conv, Render(s, frames[i]))
  {
    var results := Stepped(s, frames, [], n).results;
    SteppedAt(s, frames, [], n, i);
    QueueAt(results, i);
  }

  /** Each pixel of a frame's render carries the colour of the cell whose block contains it. */
  lemma RenderedBlock(s: Stream, frame: Image, y: int, x: int, dy: int, dx: int)
    requires s.Valid() && IsFrame(s, frame)
    requires 0 <= y < s.rows && 0 <= x < s.cols && 0 <= dy < CHAR_HEIGHT && 0 <= dx < CHAR_WIDTH
    ensures var img := Render(s, frame);
            0 <= y * CHAR_HEIGHT + dy < |img| && 0 <= x * CHAR_WIDTH + dx < |img[y * CHAR_HEIGHT + dy]| &&
            img[y * CHAR_HEIGHT + dy][x * CHAR_WIDTH + dx] == Small(s, frame)[y][x]
  {
    var small := Small(s, frame);
    RenderBlock(ComputeBrightness(small, s.rows, s.cols), small, s.rows, s.cols, CHAR_WIDTH, CHAR_HEIGHT, y, x, dy, dx);
  }

  /**
   * Without the conversion, each pixel of a freshly rendered frame's output carries exactly
   * the colour of the cell whose block contains it, in the order the source delivered it.
   */
  lemma WrittenBlockKeepsCellColour(s: Stream, frames: seq<Image>, i: nat, y: int, x: int, dy: int, dx: int)
    requires s.Valid() && AllFrames(s, frames) && i < |frames|
    requires !Hit(Stepped(s, frames, [], i).cache, GrayOf(s, frames[i]), s.rows, s.cols)
    requires 0 <= y < s.rows && 0 <= x < s.cols && 0 <= dy < CHAR_HEIGHT && 0 <= dx < CHAR_WIDTH
    ensures var out := Outputs(s, frames, [], Unchanged, |frames|);
            i < |out| && 0 <= y * CHAR_HEIGHT + dy < |out[i]| && 0 <= x * CHAR_WIDTH + dx < |out[i][y * CHAR_HEIGHT + dy]| &&
            out[i][y * CHAR_HEIGHT + dy][x * CHAR_WIDTH + dx] == Small(s, frames[i])[y][x]
  {
    var out := Outputs(s, frames, [], Unchanged, |frames|);
    assert i < |out| && out[i] == Render(s, frames[i]) by {
      FreshOutputAt(s, frames, Unchanged, |frames|, i);
    }
    RenderedBlock(s, frames[i], y, x, dy, dx);
  }

  /**
   * As written, a pure blue frame is queued red: the source and the writer both use
   * blue-green-red order, and the conversion exchanges the first and last channels.
   */
  lemma SwapRedBlueRecolours()
    ensures var blue := Rgb(255, 0, 0);
            var s := Stream(2, 3, 1, 1);
            var frames := [[[blue, blue], [blue, blue], [blue, blue]]];
            s.Valid() && AllFrames(s, frames) &&
            Outputs(s, frames, [], Unchanged, 1)[0][0][0] == blue &&
            Outputs(s, frames, [], RgbToBgr, 1)[0][0][0] == Rgb(0, 0, 255)
  {
    var blue := Rgb(255, 0, 0);
    var s := Stream(2, 3, 1, 1);
    var frame := [[blue, blue], [blue, blue], [blue, blue]];
    var frames := [frame];
    RenderBlock(ComputeBrightness(Small(s, frame), 1, 1), Small(s, frame), 1, 1, CHAR_WIDTH, CHAR_HEIGHT, 0, 0, 0, 0);
    FreshOutputAt(s, frames, Unchanged, 1, 0);
    FreshOutputAt(s, frames, RgbToBgr, 1, 0);
  }

  /**
   * As written, a conversion that starts on a cache already holding its first frame's grey
   * grid queues nothing for that frame, so the output has fewer frames than the input.
   */
  lemma StaleCacheDropsFirstFrame(s: Stream, frames: seq<Image>, cache0: seq<Gray>, conv: Conversion)
    requires s.Valid() && AllFrames(s, frames) && IsCache(cache0, s.rows, s.cols) && |frames| > 0
    requires GrayOf(s, frames[0]) in cache0
    ensures Outputs(s, frames, cache0, conv, 1) == []
    ensures |Outputs(s, frames, cache0, conv, |frames|)| < |frames|
  {
    var k :| 0 <= k < |cache0| && cache0[k] == GrayOf(s, frames[0]);
    RepeatedGridHits(cache0, GrayOf(s, frames[0]), s.rows, s.cols, k);
    SteppedNext(s, frames, cache0, 0);
    var results := Stepped(s, frames, cache0, |frames|).results;
    assert results[0] == None by {
      SteppedAt(s, frames, cache0, |frames|, 0);
    }
    assert results[..1] == [None];
    QueuePrefix(results, 1);
  }

  /**
   * As written, converting the same one-frame video twice in a session writes a second
   * file with no frames: the first run leaves the frame's grey grid in the global cache.
   */
  lemma RepeatConversionWritesNothing(s: Stream, frames: seq<Image>)
    requires s.Valid() && AllFrames(s, frames) && |frames| == 1
    ensures var first := Stepped(s, frames, [], 1);
            |Outputs(s, frames, [], RgbToBgr, 1)| == 1 && IsCache(first.cache, s.rows, s.cols) &&
            Outputs(s, frames, first.cache, RgbToBgr, 1) == []
  {
    var first := Stepped(s, frames, [], 1);
    SteppedNext(s, frames, [], 0);
    assert first.cache[0] == GrayOf(s, frames[0]);
    StaleCacheDropsFirstFrame(s, frames, first.cache, RgbToBgr);
  }
}
