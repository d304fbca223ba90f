/**
 * The Rust side of the converter (src/image.rs): the decoded image it gets
 * back from the C decoder, the length of the byte slice it exposes, and the
 * ffmpeg command line it derives from the image and the encode settings.
 */
module Image {
  import opened Wrappers
  import opened Text
  import Decode

  const I32_MIN: int := -0x8000_0000
  const I32_MAX: int := 0x7fff_ffff
  /** `usize` on the 64-bit targets the converter is built for. */
  const USIZE_LIMIT: int := 0x1_0000_0000_0000_0000

  predicate InI32(x: int) {
    I32_MIN <= x <= I32_MAX
  }

  /** The decoded image: its size, the C buffer it owns and the bytes per sample. */
  datatype PixelPlanes = PixelPlanes(width: Decode.int32, height: Decode.int32, data: Decode.Ptr, cbytes: nat)

  /**
   * The length of the slice `Deref` exposes, `cbytes * (width * height * 4)
   * as usize`. An `i32` or `usize` product that overflows is a panic under
   * checked arithmetic: `None`. The cast of a negative `i32` wraps.
   */
  function DerefLen(p: PixelPlanes): (len: Option<nat>)
    ensures len.Some? ==> InI32(p.width as int * p.height as int * 4)
    ensures 0 <= p.width && 0 <= p.height ==>
      (len.Some? <==> 4 * (p.width as int * p.height as int) <= I32_MAX
                      && p.cbytes * (4 * (p.width as int * p.height as int)) < USIZE_LIMIT)
    ensures 0 <= p.width && 0 <= p.height && len.Some? ==>
      len.value == p.cbytes * 4 * (p.width as int * p.height as int)
  {
    var wh := p.width as int * p.height as int;
    if !InI32(wh) || !InI32(wh * 4) then None
    else
      var samples := (wh * 4) % USIZE_LIMIT;
      var bytes := p.cbytes * samples;
      if bytes < USIZE_LIMIT then Some(bytes) else None
  }

  /**
   * With 16-bit samples the slice covers exactly the planar buffer the
   * decoder allocated on success, 8 bytes per pixel, for every size but
   * one: at 2^29 pixels decode.c's arithmetic still fits a C `int`, but the
   * `i32` product `width * height * 4` overflows.
   */
  lemma DerefCoversPlanes(g: Decode.Glue)
    requires Decode.Fits(g) && Decode.ExitOf(g) == Decode.Completed
    ensures Decode.Alloc(Decode.PlanesBuf, 8 * Decode.Pixels(g)) in Decode.PlanesEvents(g)
    ensures var p := PixelPlanes(g.width, g.height, Decode.Block(Decode.PlanesBuf), 2);
      DerefLen(p) == if Decode.Pixels(g) < 0x2000_0000 then Some(8 * Decode.Pixels(g)) else None
    ensures Decode.Pixels(g) <= 0x2000_0000
  {
    Decode.PlanesBufferOnSuccess(g, 8 * Decode.Pixels(g));
  }

  const FROM_FILE_ERROR: string := "Failed to read pixel planes from file ("

  /** `from_file`: any non-zero status is an error naming it; zero gives the image as returned. */
  function FromFile(status: int, data: Decode.Ptr, width: Decode.int32, height: Decode.int32, cbytes: nat): (r: Result<PixelPlanes, string>)
    ensures r.Success? <==> status == 0
    ensures r.Success? ==> r.value == PixelPlanes(width, height, data, cbytes)
    ensures r.Failure? ==> ReadFromFileError(r.error) == Some(status)
  {
    if status != 0 then
      var msg := FROM_FILE_ERROR + IntToString(status) + ")";
      assert ReadFromFileError(msg) == Some(status) by {
        assert msg[..|FROM_FILE_ERROR|] == FROM_FILE_ERROR;
        assert msg[|FROM_FILE_ERROR|..|msg| - 1] == IntToString(status);
        IntTextRoundTrip(IntToString(status), status);
      }
      Failure(msg)
    else
      Success(PixelPlanes(width, height, data, cbytes))
  }

  /** The status named in a `from_file` error message. */
  function ReadFromFileError(msg: string): Option<int> {
    if |msg| > |FROM_FILE_ERROR| && msg[..|FROM_FILE_ERROR|] == FROM_FILE_ERROR && msg[|msg| - 1] == ')'
    then ParseInt(msg[|FROM_FILE_ERROR|..|msg| - 1])
    else None
  }

  /**
   * Fed the decoder's status, `from_file` succeeds exactly when every jxrlib
   * call succeeded and the last one, `Copy`, returned exactly zero: a
   * positive status counts as success in C and as failure here.
   */
  lemma FromFileOfDecoder(g: Decode.Glue, data: Decode.Ptr, cbytes: nat)
    ensures FromFile(Decode.VectorErr(g), data, g.width, g.height, cbytes).Success?
      <==> Decode.ExitOf(g) == Decode.Completed && g.copy == 0
  {
  }

  /** The settings read from the configuration file. */
  datatype EncodeConfig = EncodeConfig(
    retry: nat,
    seconds: Decode.int32,
    verbose: bool,
    outW: Decode.int32,
    outH: Decode.int32,
    npl: Decode.int32,
    pixFmt: string,
    codec: string,
    extraOpts: seq<string>)

  /** The raw input format for a sample width; only 16- and 32-bit floats are known. */
  function PixFmt(cbytes: nat): (r: Result<string, string>)
    ensures r.Success? <==> cbytes == 2 || cbytes == 4
    ensures r.Success? ==> SampleBytes(r.value) == Some(cbytes)
  {
    if cbytes == 2 then Success("gbrapf16le")
    else if cbytes == 4 then Success("gbrapf32le")
    else Failure("Unsupported cbytes: " + NatToString(cbytes))
  }

  /** The sample width a raw input format names. */
  function SampleBytes(fmt: string): Option<nat> {
    if fmt == "gbrapf16le" then Some(2)
    else if fmt == "gbrapf32le" then Some(4)
    else None
  }

  /** The format names and the sample widths correspond one to one. */
  lemma PixFmtRoundTrip(cbytes: nat, fmt: string)
    ensures PixFmt(cbytes) == Success(fmt) <==> SampleBytes(fmt) == Some(cbytes)
  {
  }

  const FRAMES: int := 2

  const SCALE_BASE: string := "pin=709:p=2020:min=709:m=2020_ncl:tin=linear:t=smpte2084"

  /** What the `zscale` filter is asked for beyond the fixed BT.709-to-BT.2020 PQ conversion. */
  datatype Scale = Scale(npl: Option<int>, size: Option<(int, int)>)

  /** A positive `npl` sets the nominal peak luminance; positive `out_w` and `out_h` together set the size. */
  function RequestedScale(c: EncodeConfig): Scale {
    Scale(if c.npl > 0 then Some(c.npl as int) else None,
          if c.outW > 0 && c.outH > 0 then Some((c.outW as int, c.outH as int)) else None)
  }

  const NPL_KEY: string := "npl="
  const W_KEY: string := "w="
  const H_KEY: string := "h="

  /** `:npl=N` when the nominal peak luminance is set. */
  function NplOption(c: EncodeConfig): string {
    if c.npl > 0 then [':'] + (NPL_KEY + IntToString(c.npl as int)) else ""
  }

  /** `:w=W:h=H` when both output dimensions are set. */
  function SizeOption(c: EncodeConfig): string {
    if c.outW > 0 && c.outH > 0
    then [':'] + (W_KEY + IntToString(c.outW as int)) + [':'] + (H_KEY + IntToString(c.outH as int))
    else ""
  }

  /** The `zscale` option string: the fixed options, then `:npl=N`, then `:w=W:h=H`. */
  function ZscaleText(c: EncodeConfig): (z: string)
    ensures |z| >= |SCALE_BASE| && z[..|SCALE_BASE|] == SCALE_BASE
  {
    SCALE_BASE + NplOption(c) + SizeOption(c)
  }

  /** Builds the option string by appending to the fixed options, as `encode` does. */
  method Zscale(c: EncodeConfig) returns (z: string)
    ensures z == ZscaleText(c)
    ensures z[..|SCALE_BASE|] == SCALE_BASE && ReadZscale(z) == Some(RequestedScale(c))
  {
    z := SCALE_BASE;
    if c.npl > 0 {
      z := z + ([':'] + (NPL_KEY + IntToString(c.npl as int)));
    }
    assert z == SCALE_BASE + NplOption(c);
    if c.outW > 0 && c.outH > 0 {
      z := z + ([':'] + (W_KEY + IntToString(c.outW as int)) + [':'] + (H_KEY + IntToString(c.outH as int)));
    }
    ZscaleRoundTrip(c);
  }

  /** The integer after `key` in a `key=value` option. */
  function Setting(opt: string, key: string): Option<int> {
    if |opt| > |key| && opt[..|key|] == key then ParseInt(opt[|key|..]) else None
  }

  /** The optional settings after the fixed options, in the only order they are written. */
  function ReadSettings(fields: seq<string>): Option<Scale> {
    if |fields| == 1 then
      match Setting(fields[0], "npl=")
      case Some(n) => Some(Scale(Some(n), None))
      case None => None
    else if |fields| == 2 then
      match (Setting(fields[0], "w="), Setting(fields[1], "h="))
      case (Some(w), Some(h)) => Some(Scale(None, Some((w, h))))
      case _ => None
    else if |fields| == 3 then
      match (Setting(fields[0], "npl="), Setting(fields[1], "w="), Setting(fields[2], "h="))
      case (Some(n), Some(w), Some(h)) => Some(Scale(Some(n), Some((w, h))))
      case _ => None
    else None
  }

  /** Reads an option string back: the fixed options first, then the optional settings. */
  function ReadZscale(z: string): Option<Scale> {
    if |z| < |SCALE_BASE| || z[..|SCALE_BASE|] != SCALE_BASE then None
    else
      var rest := z[|SCALE_BASE|..];
      if rest == "" then Some(Scale(None, None))
      else if rest[0] != ':' then None
      else ReadSettings(Split(rest[1..], ':'))
  }

  lemma SettingOf(key: string, i: int)
    ensures Setting(key + IntToString(i), key) == Some(i)
  {
    var opt := key + IntToString(i);
    assert opt[..|key|] == key && opt[|key|..] == IntToString(i);
    IntTextRoundTrip(IntToString(i), i);
  }

  /** `key` followed by the text of `i`, holding no `:` when `key` holds none. */
  lemma KeyValue(key: string, i: int)
    requires Free(key, ':')
    ensures Free(key + IntToString(i), ':')
    ensures Setting(key + IntToString(i), key) == Some(i)
  {
    IntTextFree(i, ':');
    SettingOf(key, i);
  }

  lemma ReadAfterBase(rest: string)
    ensures (SCALE_BASE + rest)[..|SCALE_BASE|] == SCALE_BASE
    ensures ReadZscale(SCALE_BASE + rest)
      == if rest == "" then Some(Scale(None, None))
         else if rest[0] != ':' then None
         else ReadSettings(Split(rest[1..], ':'))
  {
    assert (SCALE_BASE + rest)[|SCALE_BASE|..] == rest;
  }

  lemma Split3(x: string, y: string, z: string)
    requires Free(x, ':') && Free(y, ':') && Free(z, ':')
    ensures Split(x + [':'] + y + [':'] + z, ':') == [x, y, z]
  {
    assert x + [':'] + y + [':'] + z == x + [':'] + (y + [':'] + z);
    SplitFirst(x, ':', y + [':'] + z);
    SplitFirst(y, ':', z);
    SplitPart(z, ':');
  }

  lemma Split2(x: string, y: string)
    requires Free(x, ':') && Free(y, ':')
    ensures Split(x + [':'] + y, ':') == [x, y]
  {
    SplitFirst(x, ':', y);
    SplitPart(y, ':');
  }

  lemma KeysFree()
    ensures Free(NPL_KEY, ':') && Free(W_KEY, ':') && Free(H_KEY, ':')
  {
    assert NPL_KEY == ['n', 'p', 'l', '='];
    assert W_KEY == ['w', '='] && H_KEY == ['h', '='];
  }

  /** Three `:`-free settings after the fixed options read back as a target luminance and a size. */
  lemma ReadFields3(x: string, y: string, z: string)
    requires Free(x, ':') && Free(y, ':') && Free(z, ':')
    requires Setting(x, NPL_KEY).Some? && Setting(y, W_KEY).Some? && Setting(z, H_KEY).Some?
    ensures ReadZscale(SCALE_BASE + (([':'] + x) + ([':'] + y + [':'] + z)))
      == Some(Scale(Some(Setting(x, NPL_KEY).value), Some((Setting(y, W_KEY).value, Setting(z, H_KEY).value))))
  {
    var rest := ([':'] + x) + ([':'] + y + [':'] + z);
    assert rest[1..] == x + [':'] + y + [':'] + z;
    ReadAfterBase(rest);
    Split3(x, y, z);
  }

  /** Two `:`-free settings after the fixed options read back as a size. */
  lemma ReadFields2(y: string, z: string)
    requires Free(y, ':') && Free(z, ':')
    requires Setting(y, W_KEY).Some? && Setting(z, H_KEY).Some?
    ensures ReadZscale(SCALE_BASE + ("" + ([':'] + y + [':'] + z)))
      == Some(Scale(None, Some((Setting(y, W_KEY).value, Setting(z, H_KEY).value))))
  {
    var rest := "" + ([':'] + y + [':'] + z);
    assert rest[1..] == y + [':'] + z;
    ReadAfterBase(rest);
    Split2(y, z);
  }

  /** One `:`-free setting after the fixed options reads back as a target luminance. */
  lemma ReadFields1(x: string)
    requires Free(x, ':') && Setting(x, NPL_KEY).Some?
    ensures ReadZscale(SCALE_BASE + (([':'] + x) + "")) == Some(Scale(Some(Setting(x, NPL_KEY).value), None))
  {
    var rest := ([':'] + x) + "";
    assert rest[1..] == x;
    ReadAfterBase(rest);
    SplitPart(x, ':');
  }

  /** The option string carries exactly the configured settings, and only the positive ones. */
  lemma ZscaleRoundTrip(c: EncodeConfig)
    ensures ZscaleText(c)[..|SCALE_BASE|] == SCALE_BASE
    ensures ReadZscale(ZscaleText(c)) == Some(RequestedScale(c))
  {
    var rest := NplOption(c) + SizeOption(c);
    assert ZscaleText(c) == SCALE_BASE + rest;
    ReadAfterBase(rest);
    KeysFree();
    if c.npl > 0 {
      KeyValue(NPL_KEY, c.npl as int);
    }
    if c.outW > 0 && c.outH > 0 {
      KeyValue(W_KEY, c.outW as int);
      KeyValue(H_KEY, c.outH as int);
    }
    var x, y, z := NPL_KEY + IntToString(c.npl as int), W_KEY + IntToString(c.outW as int), H_KEY + IntToString(c.outH as int);
    if c.npl > 0 && c.outW > 0 && c.outH > 0 {
      ReadFields3(x, y, z);
    } else if c.npl > 0 {
      ReadFields1(x);
    } else if c.outW > 0 && c.outH > 0 {
      ReadFields2(y, z);
    }
  }

  /** The options before the user's extra options, ending with the output codec. */
  function LeadingOptions(pixFmt: string, videoSize: string, vframes: string, rate: string, filter: string,
                          outFmt: string, codec: string): (args: seq<string>)
    ensures |args| == 21
  {
    [ "-hide_banner", "-f", "rawvideo", "-pix_fmt", pixFmt, "-color_trc", "linear",
      "-video_size", videoSize, "-i", "-", "-vframes", vframes, "-r", rate,
      "-vf", filter, "-pix_fmt", outFmt, "-c:v", codec ]
  }

  /** The leading options with the size as `WxH`, `FRAMES` frames at `FRAMES/seconds` and the `zscale` filter. */
  function LeadingArgs(pixFmt: string, width: int, height: int, seconds: int, zscale: string,
                       outFmt: string, codec: string): (args: seq<string>)
    ensures |args| == 21
  {
    LeadingOptions(pixFmt, IntToString(width) + "x" + IntToString(height), IntToString(FRAMES),
                   IntToString(FRAMES) + "/" + IntToString(seconds), ZSCALE_FILTER + zscale, outFmt, codec)
  }

  /** The options after the user's extra options: tag, container, brand, overwrite. */
  const TRAILING_ARGS: seq<string> := ["-tag:v", "hvc1", "-f", "mp4", "-brand", "mp42", "-y"]

  /** The argument list handed to ffmpeg, the output file last. */
  function CommandLine(p: PixelPlanes, c: EncodeConfig, pixFmt: string, zscale: string, output: string): (argv: seq<string>)
    ensures |argv| == 21 + |c.extraOpts| + |TRAILING_ARGS| + 1
    ensures argv[21..21 + |c.extraOpts|] == c.extraOpts
    ensures argv[|argv| - 1 - |TRAILING_ARGS|..|argv| - 1] == TRAILING_ARGS && argv[|argv| - 1] == output
  {
    LeadingArgs(pixFmt, p.width as int, p.height as int, c.seconds as int, zscale, c.pixFmt, c.codec)
    + c.extraOpts + TRAILING_ARGS + [output]
  }

  /**
   * Grows the argument vector (the leading options, the extra options, the
   * trailing options) and appends the output file, as the process builder does.
   */
  method BuildArgs(p: PixelPlanes, c: EncodeConfig, pixFmt: string, zscale: string, output: string) returns (argv: seq<string>)
    ensures argv == CommandLine(p, c, pixFmt, zscale, output)
  {
    var args := LeadingArgs(pixFmt, p.width as int, p.height as int, c.seconds as int, zscale, c.pixFmt, c.codec);
    args := args + c.extraOpts;
    args := args + TRAILING_ARGS;
    argv := args + [output];
  }

  /** What the leading options ask ffmpeg for. */
  datatype Leading = Leading(
    inputFmt: string, width: int, height: int, frames: int, rateFrames: int, seconds: int,
    scale: Scale, outputFmt: string, codec: string)

  /** What a command line asks ffmpeg for. */
  datatype Request = Request(leading: Leading, extra: seq<string>, output: string)

  function ReadPair(s: string, sep: char): Option<(int, int)> {
    var parts := Split(s, sep);
    if |parts| != 2 then None
    else match (ParseInt(parts[0]), ParseInt(parts[1]))
      case (Some(a), Some(b)) => Some((a, b))
      case _ => None
  }

  const ZSCALE_FILTER: string := "zscale="

  /** The fixed options sit where `encode` puts them. */
  predicate LeadingFixed(lead: seq<string>)
    requires |lead| == 21
  {
    && lead[0] == "-hide_banner" && lead[1] == "-f" && lead[2] == "rawvideo" && lead[3] == "-pix_fmt"
    && lead[5] == "-color_trc" && lead[6] == "linear" && lead[7] == "-video_size" && lead[9] == "-i"
    && lead[10] == "-" && lead[11] == "-vframes" && lead[13] == "-r" && lead[15] == "-vf"
    && lead[17] == "-pix_fmt" && lead[19] == "-c:v"
  }

  /** Reads the leading options back: the values between the fixed options. */
  function ReadLeading(lead: seq<string>): Option<Leading>
    requires |lead| == 21
  {
    if !LeadingFixed(lead) || |lead[16]| < |ZSCALE_FILTER| || lead[16][..|ZSCALE_FILTER|] != ZSCALE_FILTER then None
    else
      match (ReadPair(lead[8], 'x'), ParseInt(lead[12]), ReadPair(lead[14], '/'), ReadZscale(lead[16][|ZSCALE_FILTER|..]))
      case (Some(size), Some(frames), Some(rate), Some(scale)) =>
        Some(Leading(lead[4], size.0, size.1, frames, rate.0, rate.1, scale, lead[18], lead[20]))
      case _ => None
  }

  /** Reads a command line back: the leading options, the extra options, the trailing options, the output. */
  function ReadCommandLine(argv: seq<string>): Option<Request> {
    var n := |argv|;
    if n < 29 || argv[n - 8..n - 1] != TRAILING_ARGS then None
    else
      match ReadLeading(argv[..21])
      case Some(leading) => Some(Request(leading, argv[21..n - 8], argv[n - 1]))
      case None => None
  }

  lemma ReadPairOf(a: int, sep: char, b: int)
    requires sep != '-' && !IsDigit(sep)
    ensures ReadPair(IntToString(a) + [sep] + IntToString(b), sep) == Some((a, b))
  {
    IntTextFree(a, sep);
    IntTextFree(b, sep);
    SplitFirst(IntToString(a), sep, IntToString(b));
    SplitPart(IntToString(b), sep);
    IntTextRoundTrip(IntToString(a), a);
    IntTextRoundTrip(IntToString(b), b);
  }

  lemma FilterArg(z: string)
    ensures |ZSCALE_FILTER + z| >= |ZSCALE_FILTER|
    ensures (ZSCALE_FILTER + z)[..|ZSCALE_FILTER|] == ZSCALE_FILTER && (ZSCALE_FILTER + z)[|ZSCALE_FILTER|..] == z
  {
  }

  lemma ReadLeadingOf(lead: seq<string>, width: int, height: int, frames: int, seconds: int, scale: Scale)
    requires |lead| == 21 && LeadingFixed(lead)
    requires |lead[16]| >= |ZSCALE_FILTER| && lead[16][..|ZSCALE_FILTER|] == ZSCALE_FILTER
    requires ReadPair(lead[8], 'x') == Some((width, height)) && ParseInt(lead[12]) == Some(frames)
    requires ReadPair(lead[14], '/') == Some((frames, seconds))
    requires ReadZscale(lead[16][|ZSCALE_FILTER|..]) == Some(scale)
    ensures ReadLeading(lead) == Some(Leading(lead[4], width, height, frames, frames, seconds, scale, lead[18], lead[20]))
  {
  }

  lemma LeadingOptionsFixed(pixFmt: string, videoSize: string, vframes: string, rate: string, filter: string,
                             outFmt: string, codec: string)
    ensures var lead := LeadingOptions(pixFmt, videoSize, vframes, rate, filter, outFmt, codec);
      && LeadingFixed(lead) && lead[4] == pixFmt && lead[8] == videoSize && lead[12] == vframes
      && lead[14] == rate && lead[16] == filter && lead[18] == outFmt && lead[20] == codec
  {
  }

  /** The leading options read back as the image size, two frames over `seconds`, the filter settings, the formats and the codec. */
  lemma LeadingRoundTrip(pixFmt: string, width: int, height: int, seconds: int, c: EncodeConfig)
    ensures ReadLeading(LeadingArgs(pixFmt, width, height, seconds, ZscaleText(c), c.pixFmt, c.codec))
      == Some(Leading(pixFmt, width, height, FRAMES, FRAMES, seconds, RequestedScale(c), c.pixFmt, c.codec))
  {
    var lead := LeadingArgs(pixFmt, width, height, seconds, ZscaleText(c), c.pixFmt, c.codec);
    LeadingOptionsFixed(pixFmt, IntToString(width) + "x" + IntToString(height), IntToString(FRAMES),
                        IntToString(FRAMES) + "/" + IntToString(seconds), ZSCALE_FILTER + ZscaleText(c), c.pixFmt, c.codec);
    FilterArg(ZscaleText(c));
    assert "x" == ['x'] && "/" == ['/'];
    ReadPairOf(width, 'x', height);
    ReadPairOf(FRAMES, '/', seconds);
    IntTextRoundTrip(IntToString(FRAMES), FRAMES);
    ZscaleRoundTrip(c);
    ReadLeadingOf(lead, width, height, FRAMES, seconds, RequestedScale(c));
  }

  lemma CommandLineParts(lead: seq<string>, extra: seq<string>, output: string)
    requires |lead| == 21
    ensures var argv := lead + extra + TRAILING_ARGS + [output];
      var n := |argv|;
      n >= 29 && argv[..21] == lead && argv[21..n - 8] == extra
      && argv[n - 8..n - 1] == TRAILING_ARGS && argv[n - 1] == output
  {
    var argv := lead + extra + TRAILING_ARGS + [output];
    var n := |argv|;
    assert argv[21..n - 8] == extra;
    assert argv[n - 8..n - 1] == TRAILING_ARGS;
  }

  /**
   * The command line is unambiguous: reading it back gives the leading
   * options' values, the extra options in their order and the output file.
   */
  lemma CommandLineRoundTrip(p: PixelPlanes, c: EncodeConfig, pixFmt: string, output: string)
    ensures ReadCommandLine(CommandLine(p, c, pixFmt, ZscaleText(c), output))
      == Some(Request(Leading(pixFmt, p.width as int, p.height as int, FRAMES, FRAMES, c.seconds as int,
                              RequestedScale(c), c.pixFmt, c.codec), c.extraOpts, output))
  {
    var lead := LeadingArgs(pixFmt, p.width as int, p.height as int, c.seconds as int, ZscaleText(c), c.pixFmt, c.codec);
    CommandLineParts(lead, c.extraOpts, output);
    LeadingRoundTrip(pixFmt, p.width as int, p.height as int, c.seconds as int, c);
  }

  /**
   * `encode` up to starting ffmpeg: an unknown sample width is an error
   * before anything runs; otherwise the command line ffmpeg is started with.
   */
  method Encode(p: PixelPlanes, c: EncodeConfig, output: string) returns (r: Result<seq<string>, string>)
    ensures r.Failure? <==> PixFmt(p.cbytes).Failure?
    ensures r.Failure? ==> r.error == PixFmt(p.cbytes).error
    ensures r.Success? ==>
      ReadCommandLine(r.value)
        == Some(Request(Leading(PixFmt(p.cbytes).value, p.width as int, p.height as int, FRAMES, FRAMES,
                                c.seconds as int, RequestedScale(c), c.pixFmt, c.codec), c.extraOpts, output))
  {
    var fmt := PixFmt(p.cbytes);
    if fmt.Failure? {
      return Failure(fmt.error);
    }
    var zscale := Zscale(c);
    var argv := BuildArgs(p, c, fmt.value, zscale, output);
    r := Success(argv);
    CommandLineRoundTrip(p, c, fmt.value, output);
  }
}
