# jxr2mp4 in Dafny

jxr2mp4 converts JPEG XR HDR screenshots into short HEVC MP4 clips. A C
shim over jxrlib decodes a `.jxr` file into interleaved RGBA half-float
samples and repacks them into four planes (G, B, R, A). The Rust side turns
the result into a `PixelPlanes` value and builds an ffmpeg command line
whose `zscale` filter converts linear BT.709 light to BT.2020 PQ. The
command-line driver names the outputs and retries failed conversions,
decoding again until a decode succeeds and then reusing the first
successful decode.

This project models that core and proves its properties:

- `planes.dfy` (module `Planes`): the packed-to-planar layout change, as pure
  functions over sequences. Lemmas prove that it is a permutation and that it
  can be undone.
- `decode.dfy` (module `Decode`): the two C functions as imperative methods.
  - A `Runtime` class logs every `malloc`, `free`, jxrlib object creation,
    `->Release` and `Copy`.
  - Each jxrlib call is an oracle that returns a status code.
  - The repack loop works in place on an `array<bv16>`.
  - Pure event functions give what each exit path does. Lemmas about them
    cover ownership and cleanup.
- `text.dfy` (module `Text`): Rust's `{}` formatting of integers, plus
  splitting on a separator. It supports reading back the strings
  the encoder writes.
- `paths.dfy` (module `Paths`): the Unix behaviour of `file_name`,
  `file_stem`, `extension`, `set_extension`, `with_extension`,
  `with_added_extension` and `join` from Rust's `std::path`.
  `with_extension` is modelled in the library's two steps: it cuts the old
  extension's text off the end of the path, then applies `set_extension`
  to that copy.
- `image.dfy` (module `Image`): from src/image.rs:
  - the slice length of `Deref`;
  - the result of `from_file`;
  - the choice of raw pixel format;
  - the `zscale` option string;
  - the complete ffmpeg argument list, with a parser proving that the list
    carries exactly the requested settings.
- `cli.dfy` (module `Cli`): from src/main.rs:
  - the output-path rules of single-file and directory mode;
  - the directory loop;
  - the `transcode` retry loop with its cached decode. The outcomes of
    decoding and encoding are oracles indexed by call number.
- `wrappers.dfy` (module `Wrappers`): `Option` and `Result`.

The definitions of jxrlib's `Call` and `Failed` macros are not among the
source files of this model. The model gives them this meaning: `Call` stores
the status in `err` and jumps to `Cleanup` when it fails (`Decode.ExitOf`
and the labelled block of `Decode.PixelVectorFromFile`), and `Failed` means
a negative status (`Decode.Failed`). main.c:31 tests a status with `< 0` in
the same way.

## Model

| member | source | states |
|---|---|---|
| Planes.ChannelAt | decode.c:60-65 | each interleaved offset 0..3 belongs to the channel stored there (R, G, B, A) |
| Planes.ToPlanar | decode.c:53-65 | the planar buffer has as many samples as the interleaved one |
| Planes.Plane | decode.c:60-65 | a plane holds one sample per pixel |
| Planes.Interleave | decode.c:60-65 | weaving four equal planes back gives four samples per pixel |
| Planes.PlaneAt | decode.c:60-65 | position `i` of a channel's plane is that channel's sample of pixel `i` |
| Planes.PlanarAt | decode.c:55-65 | the output has the input's length; for every pixel `i`, position `i` holds `src[4i+1]`, `n+i` holds `src[4i+2]`, `2n+i` holds `src[4i]` and `3n+i` holds `src[4i+3]` |
| Planes.PlanarReadsSource | decode.c:55-65 | every output position reads exactly one in-range input position |
| Planes.FilledStep | decode.c:60-65 | one loop iteration extends the filled prefix of all four planes by one pixel |
| Planes.PlanesFilled | decode.c:60-65 | once all four planes are filled for every pixel, the buffer is the planar layout |
| Planes.PlanesPartitionOutput | decode.c:55-58 | the bases 0, n, 2n and 3n split the output into four disjoint planes: the read map is injective, and every input position is written to exactly one output position |
| Planes.PlanesMultiset | decode.c:60-65 | the four planes together hold the same samples as the input, with the same counts |
| Planes.PlanarPermutation | decode.c:60-65 | the repack is a permutation: the output multiset equals the input multiset |
| Planes.InterleavePlanes | decode.c:60-65 | re-interleaving the planes of a packed buffer gives that buffer back |
| Planes.PlanesOfInterleave | decode.c:60-65 | the planes of an interleaved buffer are the planes it was woven from |
| Planes.PackedRoundTrip | decode.c:60-65 | planar then packed is the identity, so no sample's bits are changed or lost |
| Planes.PlanarRoundTrip | decode.c:60-65 | packed then planar is the identity on planar buffers |
| Decode.Pixels | decode.c:51 | `width*height` is non-negative for non-negative sizes |
| Decode.Stride | decode.c:24 | the stride is a 32-bit unsigned value |
| Decode.StrideExact | decode.c:24-25 | for every covered image the 32-bit `stride` is exactly `8*width` and `stride*height` is 8 bytes per pixel |
| Decode.StrideWraps | decode.c:24-28 | among sizes whose `int` arithmetic is defined, the stride wraps for exactly one non-empty image, 2^29 by 1: the stride is 0, `malloc` gets 0 bytes, and the copy rectangle covers 2^29 pixels |
| Decode.ExitOf | decode.c:14-28 | the calls run to the end exactly when none of the six jxrlib statuses is a failure |
| Decode.OpenEvents | decode.c:14-28 | what the calls before `Cleanup` do, for each exit; its contract is stated by `Decode.OpenEventsShape` |
| Decode.OpenEventsShape | decode.c:14-28 | before `Cleanup` each object is created exactly when its handle ends up set, nothing is released or freed, and the buffer of `stride*height` bytes is allocated and then copied into exactly when `Initialize` succeeded |
| Decode.CleanupEvents | decode.c:30-37 | `Cleanup` makes the three `->Release` calls, preceded by `free(buf)` exactly on failure |
| Decode.VectorEvents | decode.c:14-37 | every run ends with the three releases of `Cleanup`: converter, decoder, factory |
| Decode.VectorErr | decode.c:14-28 | the returned status is a failure exactly when some jxrlib call failed |
| Decode.VectorAcquires | decode.c:14-20 | a handle is set exactly when its creating call was reached and succeeded |
| Decode.VectorReleasesAtCleanup | decode.c:30-37 | on every exit, converter, decoder and factory are released last, in that order, and never before `Cleanup` |
| Decode.VectorFreesOnFailure | decode.c:30-33 | `buf` is freed exactly when the status is a failure and `buf` was allocated; nothing is freed twice inside this function |
| Decode.VectorCopiesWholeImage | decode.c:24-28 | the copy covers the rectangle `{0,0,width,height}` with a stride that fills the buffer exactly, and the buffer is `8*width*height` bytes, allocated exactly when `Initialize` succeeded |
| Decode.NullReleaseOnOpenFailure | decode.c:35-37 | when opening the file fails, the status is returned, but `Cleanup` calls `->Release` through the still-NULL decoder and converter handles |
| Decode.PlanesAlloc | decode.c:51-53 | the planar buffer is allocated exactly when decoding succeeded, at 8 bytes per pixel |
| Decode.PlanesEvents | decode.c:69-71 | `PixelPlanesFromFile` always ends by freeing `rgba` |
| Decode.PlanesBufferOnSuccess | decode.c:48-53 | the planar buffer is allocated exactly when decoding succeeded, with the interleaved buffer's size |
| Decode.PlanesDoubleFree | decode.c:30-39 | a block is freed twice exactly when `Copy` failed |
| Decode.FixedNoNullRelease | decode.c:35-37 | the corrected cleanup never calls `->Release` through NULL |
| Decode.FixedReleasesAcquired | decode.c:35-37 | the corrected cleanup releases exactly the handles that were set |
| Decode.FixedNoDoubleFree | decode.c:30-39 | the corrected cleanup frees no block twice |
| Decode.FixedFreesBuffer | decode.c:30-33 | the corrected cleanup frees the interleaved buffer whenever it was allocated, and never the planar one |
| Decode.FixedAgreesOnSuccess | decode.c:30-40 | the corrections change nothing when every call succeeds |
| Decode.Runtime.constructor | decode.c:7-12 | the log starts empty, with no blocks |
| Decode.Runtime.Acquire | decode.c:14-20 | a successful creating call sets the handle and logs it; a failed one leaves the handle NULL |
| Decode.Runtime.Release | decode.c:35-37 | `p->Release(&p)` logs a release, or a release through NULL, and sets `p` to NULL |
| Decode.Runtime.Malloc | decode.c:25 | a fresh buffer of `bytes/2` samples, logged with its allocation site |
| Decode.Runtime.Free | decode.c:32 | `free(p)` logs which block, or NULL, was passed |
| Decode.Runtime.CopyPixels | decode.c:27-28 | the copy is logged with its rectangle and stride; on success the buffer holds the decoded samples |
| Decode.Cleanup | decode.c:30-37 | the block logs exactly the cleanup events of the exit it was reached from |
| Decode.PixelVectorFromFile | decode.c:5-41 | logs exactly `VectorEvents` and returns the status of the last call made; `*rgba` is non-NULL exactly when allocated; on success it holds the decoded samples and the size |
| Decode.Repack | decode.c:50-65 | the loop leaves `dst` equal to the planar layout of `src` |
| Decode.RepackPixel | decode.c:60-65 | one iteration stores pixel `k`'s four samples at position `k` of the G, B, R and A planes and changes nothing else |
| Decode.PixelPlanesFromFile | decode.c:43-72 | logs exactly `PlanesEvents` and returns the decoder's status unchanged; on success `*gbrap` is a fresh planar copy of the decoded samples with the decoded size |
| Text.DigitChar | src/image.rs:102 | the digit character for `d` denotes `d` |
| Text.NatToString | src/image.rs:102 | the text of `n` is canonical decimal and denotes `n` |
| Text.IntToString | src/image.rs:119 | the text is non-empty, starts with `-` exactly for negatives, and is otherwise digits |
| Text.LeadingDigitPositive | src/image.rs:102 | digits without a leading zero denote a positive number |
| Text.CanonicalIsNatText | src/image.rs:102 | every canonical digit string is the text of the number it denotes |
| Text.NatTextRoundTrip | src/image.rs:102 | a string parses as `n` exactly when it is the text of `n` |
| Text.IntTextRoundTrip | src/image.rs:119 | a string parses as `i` exactly when it is the text of `i` |
| Text.Split | src/image.rs:100-105 | splitting always gives at least one part |
| Text.SplitPart | src/image.rs:100-105 | a string without the separator splits into itself |
| Text.SplitFirst | src/image.rs:100-105 | a separator after a separator-free prefix starts a new part |
| Text.IntTextFree | src/image.rs:102-105 | the text of an integer holds neither `:` nor `x` nor `/` |
| Paths.ComponentStart | src/main.rs:64 | a component starts after a separator, or at the start, and holds no separator |
| Paths.NameSpan | src/main.rs:64 | the last normal component is non-empty, separator-free and starts a component |
| Paths.LastDot | src/main.rs:61 | the last `.` of a name, or none when the name has no `.` |
| Paths.StemEnd | src/main.rs:64 | a non-empty name has a non-empty stem |
| Paths.FileName | src/main.rs:64 | a file name is non-empty and holds no separator |
| Paths.FileStem | src/main.rs:64 | a path has a stem exactly when it has a file name; the stem is non-empty and holds no separator |
| Paths.ExtensionOf | src/main.rs:61 | a name's extension is shorter than the name |
| Paths.Extension | src/main.rs:61 | an extension is shorter than its path, so cutting it off leaves a prefix of the path |
| Paths.ExtensionShape | src/main.rs:61 | only a path with a file name has an extension, and it holds no `.` |
| Paths.SetExtension | src/main.rs:53 | `set_extension` leaves a path without a file name unchanged |
| Paths.CutPath | src/main.rs:53 | the cut step of `with_extension`: the result is a prefix of the path, and a path without an extension is left whole |
| Paths.WithExtension | src/main.rs:53 | `with_extension` leaves a path without a file name unchanged |
| Paths.AddExtension | src/main.rs:69 | a path without a file name, or an empty extension, leaves the path unchanged |
| Paths.Join | src/main.rs:69 | joining an absolute path gives that path |
| Paths.StartAfterSep | src/main.rs:64 | a separator-free run after a separator is the last component |
| Paths.NameSpanAtEnd | src/main.rs:64 | a plain name after a directory prefix is the last component |
| Paths.NameAtEnd | src/main.rs:64 | a plain name after a directory prefix is the file name, and the prefix is the directory part |
| Paths.StemShape | src/main.rs:64 | a path with a file name has a non-empty, separator-free stem |
| Paths.StemDotExtension | src/main.rs:61-64 | `stem.ext` with a dot-free `ext` has stem `stem` and extension `ext` |
| Paths.LastDotAfter | src/main.rs:61 | a `.` with no `.` after it is the last `.` |
| Paths.PlainName | src/main.rs:53 | a stem, a `.` and an extension make a plain file name |
| Paths.NameParts | src/main.rs:53 | a path with a file name is its directory part and the name, possibly followed by `/` or `.` components |
| Paths.SetExtensionText | src/main.rs:53 | `set_extension` gives the directory part, the stem, `.` and the extension |
| Paths.SetExtensionReplaces | src/main.rs:53 | `set_extension` keeps the directory and the stem, and the new extension is the one asked for |
| Paths.SetExtensionParts | src/main.rs:53 | on a directory part and a plain name, `set_extension` keeps the directory part and the stem and appends `.ext` for a non-empty `ext` |
| Paths.ExtensionAfterStem | src/main.rs:61 | a name with an extension has its stem end at its last `.`, and the extension is what follows that `.` |
| Paths.CutAfterDot | src/main.rs:53 | a name cut right after its last `.` keeps its stem and that `.`, and is still a plain name unless the stem is `.` |
| Paths.CutPathParts | src/main.rs:53 | on a directory part and a plain name, cutting the extension's text off the path cuts it off the name |
| Paths.CutKeepsStem | src/main.rs:53 | cutting the extension's text off a name whose stem is not `.` leaves a plain name with the same stem |
| Paths.WithExtensionAgreesParts | src/main.rs:53 | on a directory part and a plain name whose stem is not `.`, `with_extension` equals `set_extension` on the whole path |
| Paths.WithExtensionAgrees | src/main.rs:53 | for a path ending with its file name and a stem other than `.`, `with_extension` equals `set_extension` on the whole path |
| Paths.WithExtensionText | src/main.rs:53 | for such a path, `with_extension` gives the directory part, the stem, `.` and the extension |
| Paths.WithExtensionReplaces | src/main.rs:53 | for such a path, `with_extension` keeps the directory and the stem, and the new extension is the one asked for |
| Paths.ParentNoName | src/main.rs:53 | a path whose last component is `..` has no file name |
| Paths.DotDotName | src/main.rs:53 | the name `..X` for a dot-free `X` has stem `.` and extension `X` |
| Paths.WithExtensionDotStem | src/main.rs:53 | for a path ending in `..X` (stem `.`), `with_extension` gives the directory part and `..`, a path with no file name |
| Paths.AddExtensionAppends | src/main.rs:69 | `with_added_extension` keeps the directory and appends `.ext` to the file name |
| Paths.JoinName | src/main.rs:69 | joining a directory and a plain name gives that name as the file name, inside that directory |
| Image.DerefLen | src/image.rs:33 | the slice length is `cbytes*4*width*height`, defined exactly when the `i32` and `usize` products do not overflow |
| Image.DerefCoversPlanes | src/image.rs:32-34 | for a successful 16-bit decode the slice is exactly the planar buffer that decode.c allocated, for every covered size below 2^29 pixels; at 2^29 pixels, which decode.c still handles, the `i32` product overflows |
| Image.FromFile | src/image.rs:63-72 | success exactly for status 0, with the returned fields; otherwise an error whose text names the status |
| Image.FromFileOfDecoder | src/image.rs:63-65 | given the decoder's status, `from_file` succeeds exactly when every jxrlib call succeeded and `Copy` returned exactly 0 |
| Image.PixFmt | src/image.rs:91-95 | a format exactly for 2 and 4 bytes per sample, and the format names that width |
| Image.PixFmtRoundTrip | src/image.rs:91-95 | format names and sample widths correspond one to one |
| Image.Zscale | src/image.rs:99-108 | the fixed conversion options come first, and the string reads back as exactly the configured `npl` and size settings |
| Image.ZscaleRoundTrip | src/image.rs:99-108 | `npl` appears exactly when positive, and the size exactly when both dimensions are positive, with their values |
| Image.SettingOf | src/image.rs:102-105 | `key=value` reads back as the value |
| Image.KeyValue | src/image.rs:102-105 | a `key=value` option holds no `:` and reads back as the value |
| Image.LeadingOptions | src/image.rs:110-132 | the 21 leading arguments, over seven values given as text: always 21 entries |
| Image.LeadingArgs | src/image.rs:119-127 | with the seven values formatted from numbers as `WxH`, `FRAMES`, `FRAMES/seconds` and `zscale=...`, the list still has 21 entries |
| Image.LeadingOptionsFixed | src/image.rs:110-132 | the fixed options sit at their positions, and the seven values sit between them |
| Image.LeadingRoundTrip | src/image.rs:110-132 | the leading options read back as the input format, `WxH`, `FRAMES` frames at `FRAMES/seconds`, the requested scale, output format and codec |
| Image.ZscaleText | src/image.rs:99-108 | the option string starts with the fixed conversion options |
| Image.CommandLine | src/image.rs:110-140 | the argument list is the 21 leading options, then the extra options in order, then the trailing options, then the output file last |
| Image.CommandLineParts | src/image.rs:134-140 | leading options, extra options, trailing options and output separate again |
| Image.CommandLineRoundTrip | src/image.rs:110-140 | the full argument list reads back as exactly the image size, the configured settings, the extra options in order, and the output file last |
| Image.BuildArgs | src/image.rs:134-140 | the grown argument vector is the command line |
| Image.Encode | src/image.rs:90-140 | fails exactly for an unsupported sample width, with its message; otherwise ffmpeg's arguments request exactly the image and the configured settings |
| Cli.SingleOutput | src/main.rs:53 | a given output is used as it is; a path without a file name is left unchanged |
| Cli.SingleOutputReplacesExtension | src/main.rs:53 | for an input ending with its file name and a stem other than `.`, the default output as written keeps the input's directory and stem, with extension `mp4` |
| Cli.FixedSingleOutput | src/main.rs:53 | with `set_extension` instead: a given output is used as it is; a path without a file name is left unchanged |
| Cli.FixedSingleOutputReplacesExtension | src/main.rs:53 | the corrected default output keeps every input's directory and stem, with extension `mp4` |
| Cli.DotStemSingleOutput | src/main.rs:53 | the input `..jxr` (stem `.`) gets the default output `..` in its directory as written, a path with no file name; the corrected default is `..mp4` |
| Cli.OutputDir | src/main.rs:57 | the output directory is the given one, or else the input directory |
| Cli.Selected | src/main.rs:61-67 | a selected entry has a file name and a non-empty stem |
| Cli.OutputName | src/main.rs:61-69 | an entry gets an output exactly when its extension is `jxr` and it has a stem |
| Cli.FixedOutputName | src/main.rs:61-69 | an entry gets an output exactly when its extension is `jxr` and it has a stem |
| Cli.FixedOutputInDir | src/main.rs:69 | a selected entry's output is named `stem.mp4` and sits directly in the output directory |
| Cli.OutputNameAgrees | src/main.rs:69 | for every stem other than `.` and `..`, the naming as written equals the corrected one |
| Cli.DotStemLeavesOutputDir | src/main.rs:69 | the entry `..jxr` is selected with stem `.`, and its output is `out.mp4`, beside the directory `out` rather than in it |
| Cli.Job | src/main.rs:59-69 | an entry gives a pair exactly when its path is selected, and the pair is that path with its output named as written |
| Cli.FixedJob | src/main.rs:59-69 | the same selection, with the pair's output named by the corrected rule |
| Cli.JobInDir | src/main.rs:61-69 | a pair of the loop is a selected input; unless its stem is `.` or `..`, its output is `stem.mp4` directly in the output directory |
| Cli.FixedJobInDir | src/main.rs:61-69 | with the corrected naming every output is `stem.mp4` directly in the output directory |
| Cli.JobAgrees | src/main.rs:69 | the loop's pair equals the corrected pair for every stem other than `.` and `..` |
| Cli.PlannedMembers | src/main.rs:58-71 | a pair is planned exactly when it is the pair, named as written, of some listed entry |
| Cli.PlanJobs | src/main.rs:58-71 | the loop produces the pairs, named as written, in listing order, at most one per entry |
| Cli.Next | src/main.rs:86-99 | an attempt decodes exactly when no image is cached, as the next decode call, and encodes exactly when it has an image, cached or freshly decoded |
| Cli.Follows | src/main.rs:86-99 | in a trace that follows the caching rule every attempt decodes or encodes |
| Cli.Transcode | src/main.rs:79-116 | at most `retry` attempts; it stops at the first success; each attempt follows the caching rule; failure means every attempt was made; `retry = 0` succeeds with no attempt; the counter counts the failed attempts |
| Cli.CachedStays | src/main.rs:87-93 | once an image is cached, it stays cached unchanged |
| Cli.DecodedImageReused | src/main.rs:87-93 | after a successful decode, every later attempt reuses that image without decoding, and encodes it |
| Cli.FailedDecodeRetried | src/main.rs:87-93 | after a failed decode, the next attempt decodes again, as the next decode call |
| Cli.EncodesCachedImage | src/main.rs:95-97 | an attempt encodes exactly when it has an image, and it encodes the cached one as the next encode call |

## Left out

- jxrlib itself is not modelled. Each call is an oracle for its status, the size it reports and the samples `Copy` writes. The alpha-mode setting (decode.c:18) has no effect in the model.
- The legacy decode.c has four parameters. The header and the Rust declaration have a fifth, `cbytes`, which this decode.c never writes, and the C file that `build.rs` compiles is not part of this model. `cbytes` is therefore a parameter of `Image.FromFile`.
- Decode.PixelPlanesFromFile: requires `Fits`. Its first part, `SizesFit`, asks for non-negative sizes, four samples per pixel, and the largest sample index `4*(total-1)+3` within a C `int`, which bounds `total` (decode.c:51) as well. Beyond that bound the indices `4*i+k` (decode.c:60-65) overflow a signed `int`, which is undefined. Non-negative sizes are a separate assumption from the overflow bound: a negative `total` makes the repack loop run zero times, and converting it to `size_t` for `malloc` (decode.c:53) asks for a huge block.
- Decode.PixelVectorFromFile: requires `Fits`. It does no signed arithmetic itself, but its second part excludes a 32-bit stride that wraps (decode.c:24). Within `SizesFit` that happens only for the image 2^29 pixels wide and 1 high (Decode.StrideWraps): the stride is 0, `malloc` gets 0 bytes, and `Copy` is asked to write 2^29 pixels into them. What jxrlib does with that request is not visible, so neither method models that image.
- Decode.Runtime.Acquire: assumes that a creating call which fails leaves its out-handle NULL. decode.c never writes the handles itself; jxrlib's creating calls do. `Decode.NullReleaseOnOpenFailure` and the corrected cleanup (`Decode.FixedReleasesAcquired`) rest on this assumption. If a failing call stored a handle before failing, the corrected cleanup, which releases by exit, would leak that object.
- Decode.Runtime.Malloc: `malloc` never fails. The source does not check for NULL.
- Decode.PixelPlanesFromFile: the planar buffer's later `libc_free` in `Drop` (src/image.rs:38-42) is not modelled.
- Image.DerefLen: models checked (debug-build) arithmetic, where an overflowing product is `None`. Release builds wrap instead. The product overflows at exactly 2^29 pixels, a size decode.c still handles (Image.DerefCoversPlanes).
- Image.FromFileOfDecoder: C counts a positive status as success and hands over the buffer, while `from_file` reports any non-zero status as an error, so the planar buffer would leak. The model states this mismatch but does not log the leak.
- Image.Encode: stops at the argument list. Spawning ffmpeg, routing stderr when not verbose, writing the slice `FRAMES` times to stdin, waiting, and the exit-status error (src/image.rs:138-157) are process I/O and are not modelled.
- Text: only the integer formatting the encoder uses is modelled (`{}` of `i32` and `usize`).
- Paths: Unix paths only. There are no Windows prefixes and no non-UTF-8 names. `to_str` always succeeds.
- Cli: argument parsing (clap), reading and parsing the TOML configuration, `read_dir` and its errors, and all printing are not modelled. The directory listing is a parameter (`names`), and each entry's path is the directory joined with the name.
- Cli.JobInDir: the output is stated to be in the output directory only for stems other than `.` and `..`. For those two stems the naming as written leaves the directory (see Findings); Cli.FixedJobInDir states it for every stem.
- Cli.Transcode: the errors carry only the failing stage (decode or encode), not the message chain from `anyhow`. The decoded image's contents are whatever the decode oracle returns. The encode oracle covers only the errors `encode` returns: spawning ffmpeg, waiting for it, and its exit status. A failed write to ffmpeg's stdin panics through `write_all(...).unwrap()` (src/image.rs:150). That ends the whole run with no retry, and it is not modelled.
- Paths.WithExtensionAgrees: stated only for paths that end with their file name and whose stem is not `.`. For the stem `.` the two operations differ (see Findings). After a trailing `/` or `.` component, the cut removes text from the end of the path, not from the file name; the definition models that case, but no lemma states what it gives. A single-file input ending in `/` or `/.` names no regular file, so its decode fails whatever the output is called.
- Paths.WithExtensionText: stated only for paths that end with their file name and whose stem is not `.`, for the reasons given for Paths.WithExtensionAgrees. Paths.SetExtensionText states it for every path with a file name.
- Paths.WithExtensionReplaces: stated only for paths that end with their file name and whose stem is not `.`, for the reasons given for Paths.WithExtensionAgrees. Paths.SetExtensionReplaces states it for every path with a file name.
- Cli.SingleOutputReplacesExtension: stated only for inputs that end with their file name and whose stem is not `.`. For the stem `.` the default output as written leaves the input's directory (see Findings); Cli.FixedSingleOutputReplacesExtension states it for every input with a file name.

## Findings

| source | as written | input that shows it | evidently intended | confidence | as-written member | corrected member |
|---|---|---|---|---|---|---|
| decode.c:35-37 | `Cleanup` calls `->Release` through all three handles | the factory is created, but `CreateDecoderFromFile` fails, so `pDecoder` and `pConverter` are NULL | release only the handles that were set | high, not executed | Decode.NullReleaseOnOpenFailure | Decode.FixedNoNullRelease |
| decode.c:30-39 | on failure `buf` is freed but still stored in `*rgba`, and `PixelPlanesFromFile` frees `rgba` again (decode.c:70) | `Copy` fails after `malloc` | free the buffer once, leaving NULL in `*rgba` | high, not executed | Decode.PlanesDoubleFree | Decode.FixedNoDoubleFree |
| src/main.rs:53 | the default output is `file.with_extension("mp4")`, which cuts the old extension's text off the path before applying `set_extension` | the input `in/..jxr` (stem `.`): the cut leaves `in/..`, which has no file name, so the output is `in/..`, the directory above `in` | replace the extension of the file name, giving `in/..mp4` | medium, not executed | Cli.DotStemSingleOutput | Cli.FixedSingleOutputReplacesExtension |
| src/main.rs:69 | the stem is joined to the output directory before `.mp4` is added | the entry `..jxr` with output directory `out`: the stem is `.`, and the output is `out.mp4`, outside `out` | add `.mp4` to the stem, then join | medium, not executed | Cli.DotStemLeavesOutputDir | Cli.FixedJobInDir |
