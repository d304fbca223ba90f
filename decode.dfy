/**
 * decode.c: `PixelVectorFromFile` decodes a JPEG XR file through jxrlib into
 * one malloc'd buffer of interleaved R, G, B, A half-float samples (16 bits
 * each), and `PixelPlanesFromFile` repacks that buffer into a second one
 * holding the G, B, R and A planes.
 *
 * jxrlib is not modelled: each of its calls is an oracle that reports a
 * status code (`Glue`), and the decoded samples are given. What is modelled
 * is the control flow of both functions, every buffer and object handle they
 * own, and the data movement of the repack. A `Runtime` object logs every
 * allocation, free, acquisition and release; calls that C leaves undefined
 * (a second `free` of the same block, `->Release` through a NULL handle) are
 * logged as such instead of being ruled out, so the logs below exhibit them.
 */
module Decode {
  import opened Planes
  import Wrappers

  const INT_MAX: int := 0x7fff_ffff
  const U32_LIMIT: int := 0x1_0000_0000

  /** C's `int`. */
  newtype int32 = x: int | -0x8000_0000 <= x <= 0x7fff_ffff

  /** jxrlib's `Failed(err)`: a negative status code. */
  predicate Failed(err: int) {
    err < 0
  }

  /** The three jxrlib objects `PixelVectorFromFile` creates. */
  datatype Kind = CodecFactory | ImageDecoder | FormatConverter

  /** A pointer to a jxrlib object: NULL, or the object of that kind. */
  datatype Handle = NoHandle | Handle(kind: Kind)

  /** The two malloc calls: the interleaved buffer and the planar buffer. */
  datatype Site = RgbaBuf | PlanesBuf

  /** A pointer passed to `free`: NULL or the block allocated at a site. */
  datatype Ptr = Null | Block(site: Site)

  /** jxrlib's `PKRect`. */
  datatype Rect = Rect(x: int, y: int, width: int, height: int)

  datatype Event =
    | Acquire(kind: Kind)
    | Release(kind: Kind)
    | ReleaseNull(kind: Kind)      // `p->Release(&p)` with `p` NULL: a NULL dereference
    | Alloc(site: Site, bytes: int)
    | Free(ptr: Ptr)               // `free(p)`; a second one for the same block is a double free
    | Copy(rect: Rect, stride: int)

  /**
   * What jxrlib answers, call by call: the status code of each `Call` in
   * decode.c:14-28, the size `GetSize` reports, and the samples `Copy`
   * writes when it succeeds.
   */
  datatype Glue = Glue(
    createFactory: int,
    createDecoder: int,
    getSize: int,
    width: int32,
    height: int32,
    createConverter: int,
    initialize: int,
    copy: int,
    samples: seq<bv16>)

  function Pixels(g: Glue): (p: int)
    ensures 0 <= g.width && 0 <= g.height ==> p >= 0
  {
    (g.width as int) * (g.height as int)
  }

  /**
   * Sizes for which decode.c's `int` arithmetic is defined: non-negative
   * dimensions, and the largest sample index `4 * (total - 1) + 3` of the
   * repack loop within a C `int`, which also bounds `total` itself
   * (decode.c:51, decode.c:60-65). `Copy` delivers four samples per pixel.
   */
  predicate SizesFit(g: Glue) {
    0 <= g.width && 0 <= g.height && 4 * Pixels(g) - 1 <= INT_MAX && |g.samples| == 4 * Pixels(g)
  }

  /**
   * The images this model covers: sizes that fit, and, for a non-empty
   * image, a stride `8 * width` that fits the 32-bit `stride` (decode.c:24).
   */
  predicate Fits(g: Glue) {
    SizesFit(g) && (g.height == 0 || 8 * (g.width as int) < U32_LIMIT)
  }

  /** `U32 stride = (*width) * sizeof(uint64_t)`: truncated to 32 bits. */
  function Stride(width: int32): (s: int)
    ensures 0 <= s < U32_LIMIT
  {
    (width as int * 8) % U32_LIMIT
  }

  /** Within `Fits`, the 32-bit stride loses nothing: the buffer is 8 bytes per pixel. */
  lemma StrideExact(g: Glue)
    requires Fits(g)
    ensures Stride(g.width) * (g.height as int) == 8 * Pixels(g)
    ensures g.height > 0 ==> Stride(g.width) == 8 * (g.width as int)
  {
    var w, h := g.width as int, g.height as int;
    if h > 0 {
      assert w * h == w * (h - 1) + w;
      assert w * (h - 1) >= 0;
      assert 8 * w < U32_LIMIT;
      assert Stride(g.width) == 8 * w;
    }
  }

  /**
   * Among sizes that fit a C `int`, the 32-bit stride wraps for one
   * non-empty image only, 2^29 pixels wide and 1 high: the stride is 0, so
   * `malloc` is asked for 0 bytes while the copy rectangle covers 2^29
   * pixels (decode.c:24-28).
   */
  lemma StrideWraps(g: Glue)
    requires SizesFit(g) && g.height > 0
    ensures !Fits(g) <==> g.width as int == 0x2000_0000 && g.height == 1
    ensures !Fits(g) ==> Stride(g.width) == 0 && 8 * Pixels(g) == U32_LIMIT
    ensures !Fits(g) && Allocated(ExitOf(g)) ==>
      && Alloc(RgbaBuf, 0) in VectorEvents(g)
      && Copy(Rect(0, 0, 0x2000_0000, 1), 0) in VectorEvents(g)
  {
    var w, h := g.width as int, g.height as int;
    assert w * h == w * (h - 1) + w;
    assert w * (h - 1) >= 0;
    if !Fits(g) {
      assert w >= 0x2000_0000;
      assert w * (h - 1) == 0;
      assert h == 1;
      assert VectorEvents(g) == OpenEvents(ExitOf(g), g.width, g.height) + CleanupEvents(ExitOf(g));
    }
  }

  /** Where `PixelVectorFromFile` leaves its sequence of `Call`s. */
  datatype Exit =
    | FactoryFailed | DecoderFailed | SizeFailed | ConverterFailed | InitializeFailed
    | CopyFailed | Completed

  /** The first `Call` that fails jumps to `Cleanup` (decode.c:14-28). */
  function ExitOf(g: Glue): (x: Exit)
    ensures x == Completed <==>
      !Failed(g.createFactory) && !Failed(g.createDecoder) && !Failed(g.getSize)
      && !Failed(g.createConverter) && !Failed(g.initialize) && !Failed(g.copy)
  {
    if Failed(g.createFactory) then FactoryFailed
    else if Failed(g.createDecoder) then DecoderFailed
    else if Failed(g.getSize) then SizeFailed
    else if Failed(g.createConverter) then ConverterFailed
    else if Failed(g.initialize) then InitializeFailed
    else if Failed(g.copy) then CopyFailed
    else Completed
  }

  /** The status `PixelVectorFromFile` returns: that of the last `Call` it made. */
  function VectorErr(g: Glue): (err: int)
    ensures Failed(err) <==> ExitOf(g) != Completed
  {
    match ExitOf(g)
    case FactoryFailed => g.createFactory
    case DecoderFailed => g.createDecoder
    case SizeFailed => g.getSize
    case ConverterFailed => g.createConverter
    case InitializeFailed => g.initialize
    case CopyFailed => g.copy
    case Completed => g.copy
  }

  /** Whether the handle of kind `k` is set when `Cleanup` is reached from `x`. */
  predicate Acquired(x: Exit, k: Kind) {
    match k
    case CodecFactory => !x.FactoryFailed?
    case ImageDecoder => !x.FactoryFailed? && !x.DecoderFailed?
    case FormatConverter => x.InitializeFailed? || Allocated(x)
  }

  /** Whether `buf` was malloc'd: only once `Initialize` succeeded. */
  predicate Allocated(x: Exit) {
    x.CopyFailed? || x.Completed?
  }

  /** What `Cleanup` does with the handle of kind `k`: `->Release` through it, set or NULL (decode.c:35-37). */
  function ReleaseOf(x: Exit, k: Kind): Event {
    if Acquired(x, k) then Release(k) else ReleaseNull(k)
  }

  /** The pointer `PixelVectorFromFile` stores in `*rgba` (decode.c:39). */
  function RgbaPtr(x: Exit): Ptr {
    if Allocated(x) then Block(RgbaBuf) else Null
  }

  /**
   * What `PixelVectorFromFile` does before `Cleanup`, for each place its
   * `Call`s can leave off (decode.c:14-28): the objects created so far, and
   * `malloc` and `Copy` once `Initialize` succeeded.
   */
  function OpenEvents(x: Exit, width: int32, height: int32): seq<Event> {
    var cf, id, fc := CodecFactory, ImageDecoder, FormatConverter;
    match x
    case FactoryFailed => []
    case DecoderFailed => [Acquire(cf)]
    case SizeFailed => [Acquire(cf), Acquire(id)]
    case ConverterFailed => [Acquire(cf), Acquire(id)]
    case InitializeFailed => [Acquire(cf), Acquire(id), Acquire(fc)]
    case CopyFailed | Completed =>
      [Acquire(cf), Acquire(id), Acquire(fc),
       Alloc(RgbaBuf, Stride(width) * (height as int)),
       Copy(Rect(0, 0, width as int, height as int), Stride(width))]
  }

  /**
   * Before `Cleanup`, each object is created exactly when its handle ends up
   * set, nothing is released or freed, and the buffer of `stride * height`
   * bytes is allocated, then copied into, exactly when `Initialize`
   * succeeded.
   */
  lemma OpenEventsShape(x: Exit, width: int32, height: int32, k: Kind)
    ensures var e := OpenEvents(x, width, height);
      && (Acquire(k) in e <==> Acquired(x, k))
      && (forall ev :: ev in e ==> !ev.Release? && !ev.ReleaseNull? && !ev.Free?)
      && (Allocated(x) <==> |e| == 5)
      && (Allocated(x) ==>
            && e[3] == Alloc(RgbaBuf, Stride(width) * (height as int))
            && e[4] == Copy(Rect(0, 0, width as int, height as int), Stride(width)))
  {
  }

  /**
   * What `Cleanup` does (decode.c:30-37): `free(buf)` on failure, with `buf`
   * still NULL before the `malloc`, and the three `->Release` calls, whether
   * or not their handle was set.
   */
  function CleanupEvents(x: Exit): (e: seq<Event>)
    ensures |e| == (if x == Completed then 3 else 4)
  {
    (if x != Completed then [Free(RgbaPtr(x))] else [])
    + [ReleaseOf(x, FormatConverter), ReleaseOf(x, ImageDecoder), ReleaseOf(x, CodecFactory)]
  }

  /** Everything `PixelVectorFromFile` does to memory and to jxrlib objects, in order (decode.c:5-41). */
  function VectorEvents(g: Glue): (e: seq<Event>)
    ensures |e| >= 3
    ensures e[|e| - 3..] == [ReleaseOf(ExitOf(g), FormatConverter), ReleaseOf(ExitOf(g), ImageDecoder), ReleaseOf(ExitOf(g), CodecFactory)]
  {
    OpenEvents(ExitOf(g), g.width, g.height) + CleanupEvents(ExitOf(g))
  }

  /** Whether `ev` calls `->Release` on some handle, set or NULL. */
  predicate IsRelease(ev: Event) {
    ev.Release? || ev.ReleaseNull?
  }

  /** No block is passed to `free` twice (`free(NULL)` is harmless and may repeat). */
  predicate NoDoubleFree(e: seq<Event>) {
    forall i, j :: 0 <= i < j < |e| && e[i] == e[j] ==> !e[i].Free? || e[i].ptr == Null
  }

  /** A handle is set exactly when its creating call was reached and succeeded. */
  lemma VectorAcquires(g: Glue, k: Kind)
    ensures Acquire(k) in VectorEvents(g) <==> Acquired(ExitOf(g), k)
  {
  }

  /**
   * On every exit `Cleanup` ends with the converter, the decoder and the
   * factory, in that order, and nothing releases a handle before it: each
   * handle that was set is released exactly once, and each one that was not
   * is released through NULL.
   */
  lemma VectorReleasesAtCleanup(g: Glue)
    ensures var e, x := VectorEvents(g), ExitOf(g);
      && e[|e| - 3..] == [ReleaseOf(x, FormatConverter), ReleaseOf(x, ImageDecoder), ReleaseOf(x, CodecFactory)]
      && forall ev :: ev in e[..|e| - 3] ==> !IsRelease(ev)
  {
  }

  /** `buf` is freed by `PixelVectorFromFile` exactly when the status is a failure and `buf` was allocated. */
  lemma VectorFreesOnFailure(g: Glue)
    ensures Free(Block(RgbaBuf)) in VectorEvents(g) <==> Failed(VectorErr(g)) && Allocated(ExitOf(g))
    ensures NoDoubleFree(VectorEvents(g))
  {
    var x := ExitOf(g);
    assert VectorEvents(g) == OpenEvents(x, g.width, g.height) + CleanupEvents(x);
    match x
    case FactoryFailed =>
    case DecoderFailed =>
    case SizeFailed =>
    case ConverterFailed =>
    case InitializeFailed =>
    case CopyFailed =>
    case Completed =>
  }

  /**
   * The buffer is allocated and copied into exactly when `Initialize`
   * succeeded, at 8 bytes per pixel, and the copy covers the whole image
   * with a stride that makes it fill the buffer exactly.
   */
  lemma VectorCopiesWholeImage(g: Glue)
    requires Fits(g)
    ensures forall ev :: ev in VectorEvents(g) && ev.Copy? ==>
      ev.rect == Rect(0, 0, g.width as int, g.height as int) && ev.stride * (g.height as int) == 8 * Pixels(g)
    ensures Alloc(RgbaBuf, 8 * Pixels(g)) in VectorEvents(g) <==> Allocated(ExitOf(g))
  {
    StrideExact(g);
    var x := ExitOf(g);
    assert VectorEvents(g) == OpenEvents(x, g.width, g.height) + CleanupEvents(x);
  }

  /** A jxrlib call whose handle is still NULL when `Cleanup` releases it. */
  lemma NullReleaseOnOpenFailure(g: Glue)
    requires !Failed(g.createFactory) && Failed(g.createDecoder)
    ensures VectorErr(g) == g.createDecoder
    ensures ReleaseNull(FormatConverter) in VectorEvents(g)
    ensures ReleaseNull(ImageDecoder) in VectorEvents(g)
  {
  }

  /** `malloc(total * sizeof(uint64_t))`, reached only when decoding succeeded (decode.c:51-53). */
  function PlanesAlloc(g: Glue): (e: seq<Event>)
    ensures e != [] <==> !Failed(VectorErr(g))
    ensures e != [] ==> e == [Alloc(PlanesBuf, 8 * Pixels(g))]
  {
    if ExitOf(g) == Completed then [Alloc(PlanesBuf, Pixels(g) * 8)] else []
  }

  /**
   * Everything `PixelPlanesFromFile` does (decode.c:43-72): the events of
   * `PixelVectorFromFile`, the planar buffer on success, and `free(rgba)` on
   * both paths.
   */
  function PlanesEvents(g: Glue): (e: seq<Event>)
    ensures |e| > 0 && e[|e| - 1] == Free(RgbaPtr(ExitOf(g)))
  {
    VectorEvents(g) + PlanesAlloc(g) + [Free(RgbaPtr(ExitOf(g)))]
  }

  /** The planar buffer exists only on success, and is as large as the interleaved one. */
  lemma PlanesBufferOnSuccess(g: Glue, n: int)
    requires Fits(g)
    ensures Alloc(PlanesBuf, n) in PlanesEvents(g) <==> !Failed(VectorErr(g)) && n == 8 * Pixels(g)
    ensures Alloc(PlanesBuf, n) in PlanesEvents(g) ==> Alloc(RgbaBuf, n) in PlanesEvents(g)
  {
    StrideExact(g);
  }

  /**
   * `PixelPlanesFromFile` frees a block twice exactly when `Copy` failed:
   * `free(buf)` in `PixelVectorFromFile`, then `free(rgba)` on the same,
   * still non-NULL, pointer.
   */
  lemma PlanesDoubleFree(g: Glue)
    ensures NoDoubleFree(PlanesEvents(g)) <==> ExitOf(g) != CopyFailed
  {
    if ExitOf(g) == CopyFailed {
      var e := PlanesEvents(g);
      assert e[5] == e[|e| - 1] == Free(Block(RgbaBuf));
    }
  }

  /**
   * The corrected `Cleanup`: `->Release` only through the handles that were
   * set, and `buf` set back to NULL once freed.
   */
  function FixedCleanupEvents(x: Exit): seq<Event> {
    (if x != Completed then [Free(RgbaPtr(x))] else [])
    + (if Acquired(x, FormatConverter) then [Release(FormatConverter)] else [])
    + (if Acquired(x, ImageDecoder) then [Release(ImageDecoder)] else [])
    + (if Acquired(x, CodecFactory) then [Release(CodecFactory)] else [])
  }

  /** The corrected `PixelVectorFromFile`. */
  function FixedVectorEvents(g: Glue): seq<Event> {
    OpenEvents(ExitOf(g), g.width, g.height) + FixedCleanupEvents(ExitOf(g))
  }

  /** The pointer the corrected `PixelVectorFromFile` stores in `*rgba`: NULL on failure. */
  function FixedRgbaPtr(x: Exit): Ptr {
    if x == Completed then Block(RgbaBuf) else Null
  }

  /** The corrected `PixelPlanesFromFile`: unchanged, over the corrected `PixelVectorFromFile`. */
  function FixedPlanesEvents(g: Glue): seq<Event> {
    FixedVectorEvents(g) + PlanesAlloc(g) + [Free(FixedRgbaPtr(ExitOf(g)))]
  }

  /** The corrected cleanup never releases through NULL. */
  lemma FixedNoNullRelease(g: Glue, k: Kind)
    ensures ReleaseNull(k) !in FixedPlanesEvents(g)
  {
    match ExitOf(g)
    case FactoryFailed =>
    case DecoderFailed =>
    case SizeFailed =>
    case ConverterFailed =>
    case InitializeFailed =>
    case CopyFailed =>
    case Completed =>
  }

  /** The corrected cleanup releases exactly the handles that were set. */
  lemma FixedReleasesAcquired(g: Glue, k: Kind)
    ensures Release(k) in FixedPlanesEvents(g) <==> Acquire(k) in FixedPlanesEvents(g)
  {
    match ExitOf(g)
    case FactoryFailed =>
    case DecoderFailed =>
    case SizeFailed =>
    case ConverterFailed =>
    case InitializeFailed =>
    case CopyFailed =>
    case Completed =>
  }

  /** The corrected cleanup frees no block twice. */
  lemma FixedNoDoubleFree(g: Glue)
    ensures NoDoubleFree(FixedPlanesEvents(g))
  {
    match ExitOf(g)
    case FactoryFailed =>
    case DecoderFailed =>
    case SizeFailed =>
    case ConverterFailed =>
    case InitializeFailed =>
    case CopyFailed =>
    case Completed =>
  }

  /** The corrected cleanup frees the interleaved buffer whenever it was allocated, and never the planar one. */
  lemma FixedFreesBuffer(g: Glue)
    ensures Free(Block(RgbaBuf)) in FixedPlanesEvents(g) <==> Allocated(ExitOf(g))
    ensures Free(Block(PlanesBuf)) !in FixedPlanesEvents(g)
  {
    match ExitOf(g)
    case FactoryFailed =>
    case DecoderFailed =>
    case SizeFailed =>
    case ConverterFailed =>
    case InitializeFailed =>
    case CopyFailed =>
    case Completed =>
  }

  /** The corrections change nothing on the path where every call succeeds. */
  lemma FixedAgreesOnSuccess(g: Glue)
    requires ExitOf(g) == Completed
    ensures FixedPlanesEvents(g) == PlanesEvents(g)
  {
  }

  /**
   * The C heap and the lifetimes of jxrlib objects, as far as decode.c
   * touches them: `log` records every event, `siteOf` which malloc call
   * produced each buffer.
   */
  class Runtime {
    ghost var log: seq<Event>
    ghost var siteOf: map<array<bv16>, Site>

    constructor ()
      ensures log == [] && siteOf == map[]
    {
      log := [];
      siteOf := map[];
    }

    /** A creating call `Create...(&p)`: on success `p` holds a new object. */
    method Acquire(kind: Kind, status: int) returns (h: Handle)
      modifies this
      ensures h == if Failed(status) then NoHandle else Handle(kind)
      ensures log == old(log) + (if Failed(status) then [] else [Event.Acquire(kind)])
      ensures siteOf == old(siteOf)
    {
      if Failed(status) {
        h := NoHandle;
      } else {
        h := Handle(kind);
        log := log + [Event.Acquire(kind)];
      }
    }

    /** `p->Release(&p)`: releases the object and sets `p` to NULL. */
    method Release(h: Handle, kind: Kind) returns (h': Handle)
      requires h == NoHandle || h == Handle(kind)
      modifies this
      ensures h' == NoHandle
      ensures log == old(log) + [if h.Handle? then Event.Release(kind) else ReleaseNull(kind)]
      ensures siteOf == old(siteOf)
    {
      log := log + [if h.Handle? then Event.Release(kind) else ReleaseNull(kind)];
      h' := NoHandle;
    }

    /** `malloc(bytes)` for a buffer of 16-bit samples; the model's malloc never fails. */
    method Malloc(bytes: nat, ghost site: Site) returns (p: array<bv16>)
      requires bytes % 2 == 0
      modifies this
      ensures fresh(p) && p.Length == bytes / 2
      ensures siteOf == old(siteOf)[p := site]
      ensures log == old(log) + [Alloc(site, bytes)]
    {
      p := new bv16[bytes / 2];
      siteOf := siteOf[p := site];
      log := log + [Alloc(site, bytes)];
    }

    /** `free(p)`. */
    method Free(p: array?<bv16>)
      requires p == null || p in siteOf
      modifies this
      ensures siteOf == old(siteOf)
      ensures log == old(log) + [Event.Free(if p == null then Null else Block(old(siteOf)[p]))]
    {
      log := log + [Event.Free(if p == null then Null else Block(siteOf[p]))];
    }

    /** `pConverter->Copy(pConverter, &rect, buf, stride)`: on success `buf` holds the samples. */
    method CopyPixels(rect: Rect, buf: array<bv16>, stride: int, status: int, samples: seq<bv16>)
      requires |samples| == buf.Length
      modifies this, buf
      ensures log == old(log) + [Event.Copy(rect, stride)]
      ensures siteOf == old(siteOf)
      ensures !Failed(status) ==> buf[..] == samples
    {
      if !Failed(status) {
        forall i | 0 <= i < buf.Length {
          buf[i] := samples[i];
        }
      }
      log := log + [Event.Copy(rect, stride)];
    }
  }

  /**
   * The `Cleanup` block of decode.c:30-37, entered from `exit` with the
   * handles and the buffer as the `Call`s before it left them.
   */
  method Cleanup(rt: Runtime, err: int, buf: array?<bv16>,
                 converter: Handle, decoder: Handle, factory: Handle, ghost exit: Exit)
    requires Failed(err) <==> exit != Completed
    requires buf == null <==> !Allocated(exit)
    requires buf != null ==> buf in rt.siteOf && rt.siteOf[buf] == RgbaBuf
    requires converter == if Acquired(exit, FormatConverter) then Handle(FormatConverter) else NoHandle
    requires decoder == if Acquired(exit, ImageDecoder) then Handle(ImageDecoder) else NoHandle
    requires factory == if Acquired(exit, CodecFactory) then Handle(CodecFactory) else NoHandle
    modifies rt
    ensures rt.log == old(rt.log) + CleanupEvents(exit)
    ensures rt.siteOf == old(rt.siteOf)
  {
    if Failed(err) {
      rt.Free(buf);
    }
    var h := rt.Release(converter, FormatConverter);
    h := rt.Release(decoder, ImageDecoder);
    h := rt.Release(factory, CodecFactory);
  }

  /** decode.c:5-41, as written. */
  method PixelVectorFromFile(rt: Runtime, g: Glue) returns (err: int, rgba: array?<bv16>, width: int32, height: int32)
    requires Fits(g)
    modifies rt
    ensures rt.log == old(rt.log) + VectorEvents(g)
    ensures err == VectorErr(g)
    ensures rgba == null <==> !Allocated(ExitOf(g))
    ensures rgba == null ==> rt.siteOf == old(rt.siteOf)
    ensures rgba != null ==> fresh(rgba) && rt.siteOf == old(rt.siteOf)[rgba := RgbaBuf]
    ensures !Failed(err) ==> width == g.width && height == g.height && rgba != null && rgba[..] == g.samples
  {
    err := 0;
    var buf: array?<bv16> := null;
    var factory, decoder, converter := NoHandle, NoHandle, NoHandle;
    width, height := 0, 0;
    StrideExact(g);
    ghost var exit := Completed;  // where the `Call`s leave off

    label Cleanup: {
      err := g.createFactory;
      factory := rt.Acquire(CodecFactory, err);
      if Failed(err) { exit := FactoryFailed; break Cleanup; }

      err := g.createDecoder;
      decoder := rt.Acquire(ImageDecoder, err);
      if Failed(err) { exit := DecoderFailed; break Cleanup; }
      err := g.getSize;
      if Failed(err) { exit := SizeFailed; break Cleanup; }
      width, height := g.width, g.height;

      err := g.createConverter;
      converter := rt.Acquire(FormatConverter, err);
      if Failed(err) { exit := ConverterFailed; break Cleanup; }
      err := g.initialize;
      if Failed(err) { exit := InitializeFailed; break Cleanup; }

      var stride := Stride(width);
      assert stride * (height as int) == 8 * Pixels(g) == 2 * |g.samples|;
      buf := rt.Malloc(stride * height as int, RgbaBuf);

      var rect := Rect(0, 0, width as int, height as int);
      err := g.copy;
      rt.CopyPixels(rect, buf, stride, err, g.samples);
      if Failed(err) { exit := CopyFailed; break Cleanup; }
    }
    assert rt.log == old(rt.log) + OpenEvents(exit, g.width, g.height);
    assert exit == ExitOf(g) && err == VectorErr(g);
    Cleanup(rt, err, buf, converter, decoder, factory, exit);
    Wrappers.AppendAssoc(old(rt.log), OpenEvents(exit, g.width, g.height), CleanupEvents(exit));
    rgba := buf;
  }

  /**
   * The repack loop of decode.c:50-65: `dst` receives the planes of `src`.
   * `src` and `dst` are `restrict` pointers, so they do not alias.
   */
  method Repack(src: array<bv16>, dst: array<bv16>, total: int32)
    requires 0 <= total && src.Length == 4 * total as int && dst.Length == 4 * total as int
    requires 4 * (total as int) - 1 <= INT_MAX
    requires src != dst
    modifies dst
    ensures dst[..] == ToPlanar(src[..])
  {
    var n := total as int;
    var i: int32 := 0;
    while i < total
      invariant 0 <= i <= total
      invariant FilledUpTo(src[..], dst[..], n, i as int)
    {
      assert 4 * (i as int) + 3 <= INT_MAX;  // the index `4 * i + 3` fits a C `int`
      ghost var before := dst[..];
      RepackPixel(src, dst, n, i as int);
      FilledStep(src[..], before, dst[..], n, i as int);
      i := i + 1;
    }
    PlanesFilled(src[..], dst[..], n);
  }

  /** One iteration of the repack loop: pixel `k`'s four samples go to position `k` of each plane. */
  method RepackPixel(src: array<bv16>, dst: array<bv16>, n: int, k: int)
    requires 0 <= k < n && src.Length == 4 * n && dst.Length == 4 * n && src != dst
    modifies dst
    ensures dst[..] == old(dst[..])[k := src[4 * k + 1]][n + k := src[4 * k + 2]]
                                   [2 * n + k := src[4 * k]][3 * n + k := src[4 * k + 3]]
  {
    dst[k] := src[4 * k + 1];
    dst[n + k] := src[4 * k + 2];
    dst[2 * n + k] := src[4 * k + 0];
    dst[3 * n + k] := src[4 * k + 3];
  }

  /** decode.c:43-72, as written. */
  method PixelPlanesFromFile(rt: Runtime, g: Glue) returns (err: int, gbrap: array?<bv16>, width: int32, height: int32)
    requires Fits(g)
    modifies rt
    ensures rt.log == old(rt.log) + PlanesEvents(g)
    ensures err == VectorErr(g)
    ensures Failed(err) ==> gbrap == null
    ensures !Failed(err) ==>
      && gbrap != null && fresh(gbrap) && width == g.width && height == g.height
      && gbrap[..] == ToPlanar(g.samples)
  {
    err := 0;
    gbrap := null;
    var rgba: array?<bv16> := null;
    ghost var decoded: seq<Event>;  // the log once `PixelVectorFromFile` returned

    label Cleanup: {
      err, rgba, width, height := PixelVectorFromFile(rt, g);
      decoded := rt.log;
      if Failed(err) { break Cleanup; }

      assert 0 <= width as int * height as int == Pixels(g) <= 0x2000_0000;
      var src := rgba;
      var total: int32 := width * height;
      var dst := rt.Malloc(total as int * 8, PlanesBuf);
      assert rt.log == decoded + PlanesAlloc(g);
      Repack(src, dst, total);
      gbrap := dst;
    }
    assert rt.log == decoded + PlanesAlloc(g);

    rt.Free(rgba);
  }
}
