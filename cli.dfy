/**
 * The command-line driver (src/main.rs): where each output file goes, and
 * the retry loop that decodes an input until a decode succeeds, reuses that
 * image, and encodes it until an attempt succeeds or the configured number
 * of attempts is used up.
 */
module Cli {
  import opened Wrappers
  import opened Paths
  import Image

  const MP4: string := "mp4"
  const JXR: string := "jxr"

  // ---------------------------------------------------------------------
  // Output naming
  // ---------------------------------------------------------------------

  /** Single-file mode: the given output, or else the input with its extension replaced by `mp4`. */
  function SingleOutput(file: string, output: Option<string>): (r: string)
    ensures output.Some? ==> r == output.value
    ensures output.None? && FileName(file).None? ==> r == file
  {
    output.GetOr(WithExtension(file, MP4))
  }

  /** Single-file mode with the input's extension replaced by `set_extension`, so that a stem `.` is kept. */
  function FixedSingleOutput(file: string, output: Option<string>): (r: string)
    ensures output.Some? ==> r == output.value
    ensures output.None? && FileName(file).None? ==> r == file
  {
    output.GetOr(SetExtension(file, MP4))
  }

  /** Directory mode: the given output directory, or else the input directory itself. */
  function OutputDir(output: Option<string>, directory: string): (r: string)
    ensures r == (if output.Some? then output.value else directory)
  {
    output.GetOr(directory)
  }

  /** An entry is transcoded when its extension is exactly `jxr` and it has a file stem. */
  predicate Selected(path: string): (b: bool)
    ensures b ==> FileName(path).Some? && FileStem(path).value != ""
  {
    Extension(path) == Some(JXR) && FileStem(path).Some?
  }

  /**
   * The output of a directory entry, as written: the stem joined to the
   * output directory, with `.mp4` added; none for a skipped entry.
   */
  function OutputName(outDir: string, path: string): (r: Option<string>)
    ensures r.Some? <==> Selected(path)
  {
    if Selected(path) then Some(AddExtension(Join(outDir, FileStem(path).value), MP4)) else None
  }

  /** The output of a directory entry with `.mp4` added to the stem before it is joined to the output directory. */
  function FixedOutputName(outDir: string, path: string): (r: Option<string>)
    ensures r.Some? <==> Selected(path)
  {
    if Selected(path) then Some(Join(outDir, FileStem(path).value + "." + MP4)) else None
  }

  /** The directory the joined name lands in: the output directory, with a separator added when it lacks one. */
  function Under(outDir: string): string {
    if |outDir| > 0 && outDir[|outDir| - 1] != SEP then outDir + [SEP] else outDir
  }

  lemma Mp4Plain()
    ensures |MP4| > 0 && NoSep(MP4) && NoDot(MP4)
  {
    assert MP4 == ['m', 'p', '4'];
  }

  /**
   * With no output given, the default as written keeps the input's
   * directory and stem and gets the extension `mp4`, for every input that
   * ends with its file name and whose stem is not `.`.
   */
  lemma SingleOutputReplacesExtension(file: string)
    requires EndsWithName(file) && FileStem(file) != Some(".")
    ensures var r := SingleOutput(file, None);
      && Dir(r) == Dir(file) && FileStem(r) == FileStem(file) && Extension(r) == Some(MP4)
  {
    Mp4Plain();
    WithExtensionReplaces(file, MP4);
  }

  /** The corrected default keeps every input's directory and stem and gets the extension `mp4`. */
  lemma FixedSingleOutputReplacesExtension(file: string)
    requires FileName(file).Some?
    ensures var r := FixedSingleOutput(file, None);
      && Dir(r) == Dir(file) && FileStem(r) == FileStem(file) && Extension(r) == Some(MP4)
  {
    Mp4Plain();
    SetExtensionReplaces(file, MP4);
  }

  /**
   * An input named `..jxr` (stem `.`) gets the default output `..` in the
   * same directory as written, a path with no file name (the directory
   * above); the corrected default is `..mp4` there.
   */
  lemma DotStemSingleOutput(dir: string)
    requires |dir| == 0 || dir[|dir| - 1] == SEP
    ensures FileStem(dir + "..jxr") == Some(".") && Extension(dir + "..jxr") == Some(JXR)
    ensures SingleOutput(dir + "..jxr", None) == dir + ".." && FileName(dir + "..") == None
    ensures FixedSingleOutput(dir + "..jxr", None) == dir + "..mp4"
  {
    assert "." + ("." + MP4) == "..mp4";
    assert ".." + JXR == "..jxr";
    assert NoDot(JXR) && NoSep(JXR) by {
      assert JXR == ['j', 'x', 'r'];
    }
    WithExtensionDotStem(dir, JXR, MP4);
    assert SetExtension(dir + "..jxr", MP4) == dir + "..mp4" by {
      DotDotName(JXR);
      SetExtensionParts(dir, "..jxr", MP4);
      AppendAssoc(dir, ".", "." + MP4);
    }
  }

  /** A stem followed by `.mp4` is a plain file name. */
  lemma Mp4Name(stem: string)
    requires |stem| > 0 && NoSep(stem)
    ensures var name := stem + "." + MP4;
      NoSep(name) && name != "" && name != "." && name != ".."
  {
    Mp4Plain();
    PlainName(stem, MP4);
  }

  /** Every selected entry's corrected output is named `stem.mp4` and sits directly in the output directory. */
  lemma FixedOutputInDir(outDir: string, path: string)
    requires Selected(path)
    ensures var r := FixedOutputName(outDir, path).value;
      && FileName(r) == Some(FileStem(path).value + "." + MP4) && Dir(r) == Some(Under(outDir))
  {
    StemShape(path);
    var stem := FileStem(path).value;
    Mp4Name(stem);
    JoinName(outDir, stem + "." + MP4);
  }

  /** Joining a relative path to a directory puts it right after `Under` of that directory. */
  lemma JoinUnder(outDir: string, q: string)
    requires |q| > 0 && q[0] != SEP
    ensures Join(outDir, q) == Under(outDir) + q
  {
  }

  /** Adding an extension to a plain name at the end of a path appends `.` and the extension. */
  lemma AddToPlain(d: string, stem: string, ext: string)
    requires |d| == 0 || d[|d| - 1] == SEP
    requires NoSep(stem) && stem != "" && stem != "." && stem != ".." && ext != ""
    ensures AddExtension(d + stem, ext) == d + (stem + "." + ext)
  {
    NameSpanAtEnd(d, stem);
  }

  /** For every stem other than `.` and `..` the naming as written and the corrected one agree. */
  lemma OutputNameAgrees(outDir: string, path: string)
    requires Selected(path) && FileStem(path) != Some(".") && FileStem(path) != Some("..")
    ensures OutputName(outDir, path) == FixedOutputName(outDir, path)
  {
    StemShape(path);
    var stem := FileStem(path).value;
    Mp4Name(stem);
    JoinUnder(outDir, stem);
    JoinUnder(outDir, stem + "." + MP4);
    AddToPlain(Under(outDir), stem, MP4);
  }

  /** `..jxr` has the extension `jxr` and the stem `.`. */
  lemma DotStemEntry()
    ensures Selected("in/..jxr") && FileStem("in/..jxr") == Some(".")
  {
    NameAtEnd("in/", "..jxr");
    assert "in/" + "..jxr" == "in/..jxr";
    LastDotAfter("..jxr", 1);
    assert "..jxr"[..1] == "." && "..jxr"[2..] == "jxr";
  }

  /** The file name of `out/.` is `out`: the trailing `.` component is skipped. */
  lemma TrailingDotName()
    ensures NameSpan("out/.", 5) == Some((0, 3))
  {
    var p := "out/.";
    StartAfterSep(p, 4, 5);
    StartAfterSep(p, 0, 3);
    assert p[4..5] == "." && p[0..3] == "out";
    assert NameSpan(p, 3) == Some((0, 3));
  }

  /** Adding `mp4` to `out/.` gives `out.mp4`. */
  lemma AddToTrailingDot()
    ensures AddExtension("out/.", MP4) == "out.mp4"
  {
    TrailingDotName();
    assert "out/."[..0] + "out/."[0..3] == "out";
  }

  /**
   * An entry named `..jxr` is selected with the stem `.`, and its output as
   * written is `out.mp4`: a file beside the output directory `out`, not in it.
   */
  lemma DotStemLeavesOutputDir()
    ensures Selected("in/..jxr") && FileStem("in/..jxr") == Some(".")
    ensures OutputName("out", "in/..jxr") == Some("out.mp4")
    ensures Dir("out.mp4") == Some("") && FixedOutputName("out", "in/..jxr") == Some("out/..mp4")
  {
    DotStemEntry();
    assert Join("out", ".") == "out/.";
    AddToTrailingDot();
    NameAtEnd("", "out.mp4");
    assert "" + "out.mp4" == "out.mp4";
    assert Join("out", "." + "." + MP4) == "out/..mp4";
  }

  /**
   * The (input, output) pair of a listed entry name, as the loop computes it:
   * the entry's path is the directory joined with the name, and a selected
   * entry gets its output as written; none for a skipped entry.
   */
  function Job(directory: string, outDir: string, name: string): (r: Option<(string, string)>)
    ensures r.Some? <==> Selected(Join(directory, name))
    ensures r.Some? ==> r.value.0 == Join(directory, name) && Some(r.value.1) == OutputName(outDir, r.value.0)
  {
    var path := Join(directory, name);
    if Selected(path) then Some((path, OutputName(outDir, path).value)) else None
  }

  /** The present values among `results`, in order. */
  function Collect<T>(results: seq<Option<T>>): seq<T> {
    if |results| == 0 then []
    else
      var rest := Collect(results[..|results| - 1]);
      match results[|results| - 1]
      case Some(x) => rest + [x]
      case None => rest
  }

  lemma {:induction false} CollectMembers<T>(results: seq<Option<T>>, x: T)
    ensures x in Collect(results) <==> exists k :: 0 <= k < |results| && results[k] == Some(x)
    decreases |results|
  {
    if |results| > 0 {
      var init := results[..|results| - 1];
      CollectMembers(init, x);
      assert forall k :: 0 <= k < |init| ==> init[k] == results[k];
    }
  }

  lemma CollectStep<T>(results: seq<Option<T>>, i: nat)
    requires i < |results|
    ensures Collect(results[..i + 1]) == Collect(results[..i]) + (match results[i] case Some(x) => [x] case None => [])
  {
    assert results[..i + 1][..i] == results[..i];
  }

  /** What each listed entry name gives: its pair, or nothing when it is skipped. */
  function Results(directory: string, outDir: string, names: seq<string>): (r: seq<Option<(string, string)>>)
    ensures |r| == |names|
  {
    seq(|names|, k requires 0 <= k < |names| => Job(directory, outDir, names[k]))
  }

  /** The pairs of a directory listing for the selected entries, in listing order. */
  function Planned(directory: string, outDir: string, names: seq<string>): seq<(string, string)> {
    Collect(Results(directory, outDir, names))
  }

  /** A pair is planned exactly when it is the pair of some listed entry. */
  lemma PlannedMembers(directory: string, outDir: string, names: seq<string>, job: (string, string))
    ensures job in Planned(directory, outDir, names) <==>
      exists k :: 0 <= k < |names| && Job(directory, outDir, names[k]) == Some(job)
  {
    var results := Results(directory, outDir, names);
    CollectMembers(results, job);
    forall k | 0 <= k < |names|
      ensures Job(directory, outDir, names[k]) == results[k]
    {
    }
  }

  /**
   * An entry's pair is a selected input, and unless its stem is `.` or `..`
   * its output is named `stem.mp4` directly inside the output directory.
   */
  lemma JobInDir(directory: string, outDir: string, name: string, job: (string, string))
    requires Job(directory, outDir, name) == Some(job)
    ensures Selected(job.0)
    ensures FileStem(job.0) != Some(".") && FileStem(job.0) != Some("..") ==>
      FileName(job.1) == Some(FileStem(job.0).value + "." + MP4) && Dir(job.1) == Some(Under(outDir))
  {
    var path := Join(directory, name);
    if FileStem(path) != Some(".") && FileStem(path) != Some("..") {
      OutputNameAgrees(outDir, path);
      FixedOutputInDir(outDir, path);
    }
  }

  /** The corrected pair of a listed entry: the same selection, with the corrected output naming. */
  function FixedJob(directory: string, outDir: string, name: string): (r: Option<(string, string)>)
    ensures r.Some? <==> Selected(Join(directory, name))
    ensures r.Some? ==> r.value.0 == Join(directory, name) && Some(r.value.1) == FixedOutputName(outDir, r.value.0)
  {
    var path := Join(directory, name);
    if Selected(path) then Some((path, FixedOutputName(outDir, path).value)) else None
  }

  /** With the corrected naming every output is `stem.mp4` directly inside the output directory, whatever the stem. */
  lemma FixedJobInDir(directory: string, outDir: string, name: string, job: (string, string))
    requires FixedJob(directory, outDir, name) == Some(job)
    ensures Selected(job.0)
    ensures FileName(job.1) == Some(FileStem(job.0).value + "." + MP4) && Dir(job.1) == Some(Under(outDir))
  {
    FixedOutputInDir(outDir, Join(directory, name));
  }

  /** The loop's pair and the corrected pair differ only for the stems `.` and `..`. */
  lemma JobAgrees(directory: string, outDir: string, name: string)
    requires FileStem(Join(directory, name)) != Some(".") && FileStem(Join(directory, name)) != Some("..")
    ensures Job(directory, outDir, name) == FixedJob(directory, outDir, name)
  {
    var path := Join(directory, name);
    if Selected(path) {
      OutputNameAgrees(outDir, path);
    }
  }

  /**
   * Directory mode: goes through the listing in order, skips the entries
   * that are not selected and gives every other one its output path.
   */
  method PlanJobs(directory: string, output: Option<string>, names: seq<string>) returns (jobs: seq<(string, string)>)
    ensures jobs == Planned(directory, OutputDir(output, directory), names)
    ensures |jobs| <= |names|
  {
    var outDir := OutputDir(output, directory);
    ghost var results := Results(directory, outDir, names);
    jobs := [];
    var i := 0;
    while i < |names|
      invariant i <= |names|
      invariant jobs == Collect(results[..i])
      invariant |jobs| <= i
    {
      CollectStep(results, i);
      var r := Job(directory, outDir, names[i]);
      assert r == results[i];
      match r {
        case Some(job) => jobs := jobs + [job];
        case None =>
      }
      i := i + 1;
    }
    assert results[..i] == results;
  }

  // ---------------------------------------------------------------------
  // The retry loop
  // ---------------------------------------------------------------------

  /** Which step of an attempt failed. */
  datatype Stage = DecodeFailed | EncodeFailed

  /**
   * One attempt: the decode it ran (none when the cached image was reused)
   * with the image it got, if any, and the encode it ran (none when there
   * was no image to encode) with whether it succeeded.
   */
  datatype Attempt = Attempt(decoded: Option<Option<Image.PixelPlanes>>, encoded: Option<bool>)

  predicate Succeeded(a: Attempt) {
    a.encoded == Some(true)
  }

  function Outcome(a: Attempt): Result<(), Stage> {
    if Succeeded(a) then Success(())
    else if a.encoded.Some? then Failure(EncodeFailed)
    else Failure(DecodeFailed)
  }

  /** The image cached after the attempts `t`: the one the successful decode produced, if any. */
  function CachedImage(t: seq<Attempt>): Option<Image.PixelPlanes> {
    if |t| == 0 then None
    else match t[|t| - 1].decoded
      case Some(Some(p)) => Some(p)
      case _ => CachedImage(t[..|t| - 1])
  }

  function Decodes(t: seq<Attempt>): nat {
    if |t| == 0 then 0 else Decodes(t[..|t| - 1]) + (if t[|t| - 1].decoded.Some? then 1 else 0)
  }

  function Encodes(t: seq<Attempt>): nat {
    if |t| == 0 then 0 else Encodes(t[..|t| - 1]) + (if t[|t| - 1].encoded.Some? then 1 else 0)
  }

  /**
   * The attempt that follows the attempts `t`: decode only when nothing is
   * cached yet (the `k`-th decode gives `decode(k)`), then encode the image
   * in hand, if any (the `k`-th encode of image `p` gives `encode(k, p)`).
   */
  function Next(t: seq<Attempt>, decode: nat -> Option<Image.PixelPlanes>, encode: (nat, Image.PixelPlanes) -> bool): (a: Attempt)
    ensures a.decoded.Some? <==> CachedImage(t).None?
    ensures a.encoded.Some? <==> CachedImage(t).Some? || decode(Decodes(t)).Some?
    ensures a.decoded.Some? ==> a.decoded.value == decode(Decodes(t))
  {
    var cached := CachedImage(t);
    var decoded := if cached.Some? then None else Some(decode(Decodes(t)));
    var image := if cached.Some? then cached else decoded.value;
    Attempt(decoded, if image.Some? then Some(encode(Encodes(t), image.value)) else None)
  }

  /** Every attempt of `t` is the one that follows those before it. */
  predicate Follows(t: seq<Attempt>, decode: nat -> Option<Image.PixelPlanes>, encode: (nat, Image.PixelPlanes) -> bool): (b: bool)
    ensures b ==> forall i :: 0 <= i < |t| ==> t[i].decoded.Some? || t[i].encoded.Some?
  {
    forall i :: 0 <= i < |t| ==> t[i] == Next(t[..i], decode, encode)
  }

  /**
   * `transcode`: runs attempts while fewer than `retry` have failed and none
   * has succeeded. Returns the attempts made, the failure counter and the
   * final result, which stays a success when no attempt is made.
   */
  method Transcode(c: Image.EncodeConfig, decode: nat -> Option<Image.PixelPlanes>, encode: (nat, Image.PixelPlanes) -> bool)
    returns (trace: seq<Attempt>, attempts: nat, result: Result<(), Stage>)
    ensures Follows(trace, decode, encode)
    ensures |trace| <= c.retry
    ensures forall i :: 0 <= i < |trace| - 1 ==> !Succeeded(trace[i])
    ensures c.retry == 0 ==> trace == [] && result == Success(())
    ensures |trace| > 0 ==> result == Outcome(trace[|trace| - 1])
    ensures result.Failure? ==> |trace| == c.retry
    ensures |trace| < c.retry ==> |trace| > 0 && result.Success?
    ensures attempts == (if result.Success? && |trace| > 0 then |trace| - 1 else |trace|)
  {
    attempts := 0;
    var image: Option<Image.PixelPlanes> := None;
    result := Success(());
    var decodes, encodes := 0, 0;
    trace := [];
    while attempts < c.retry
      invariant attempts == |trace| <= c.retry
      invariant Follows(trace, decode, encode)
      invariant forall i :: 0 <= i < |trace| ==> !Succeeded(trace[i])
      invariant image == CachedImage(trace) && decodes == Decodes(trace) && encodes == Encodes(trace)
      invariant result == if |trace| == 0 then Success(()) else Outcome(trace[|trace| - 1])
    {
      // One run of `process`: decode unless an image is cached, then encode it.
      var decoded: Option<Option<Image.PixelPlanes>> := None;
      var encoded: Option<bool> := None;
      if image.None? {
        var p := decode(decodes);
        decodes := decodes + 1;
        decoded := Some(p);
        image := p;
      }
      if image.Some? {
        encoded := Some(encode(encodes, image.value));
        encodes := encodes + 1;
      }
      var a := Attempt(decoded, encoded);
      assert a == Next(trace, decode, encode);
      var t := trace + [a];
      assert t[..|trace|] == trace;
      assert forall i :: 0 <= i < |trace| ==> t[..i] == trace[..i];
      trace := t;
      result := Outcome(a);
      if result.Success? {
        break;
      }
      attempts := attempts + 1;
    }
  }

  lemma CachedStep(t: seq<Attempt>, decode: nat -> Option<Image.PixelPlanes>, encode: (nat, Image.PixelPlanes) -> bool, j: nat)
    requires Follows(t, decode, encode) && j < |t| && CachedImage(t[..j]).Some?
    ensures CachedImage(t[..j + 1]) == CachedImage(t[..j])
  {
    assert t[..j + 1][..j] == t[..j];
    assert t[j] == Next(t[..j], decode, encode);
  }

  lemma {:induction false} CachedStays(t: seq<Attempt>, decode: nat -> Option<Image.PixelPlanes>, encode: (nat, Image.PixelPlanes) -> bool,
                                       i: nat, j: nat)
    requires Follows(t, decode, encode) && i < j <= |t| && CachedImage(t[..i]).Some?
    ensures CachedImage(t[..j]) == CachedImage(t[..i])
    decreases j
  {
    if j > i + 1 {
      CachedStays(t, decode, encode, i, j - 1);
    }
    CachedStep(t, decode, encode, j - 1);
  }

  /**
   * Decoding is cached: once an attempt decodes an image, every later
   * attempt reuses that image and decodes nothing.
   */
  lemma DecodedImageReused(t: seq<Attempt>, decode: nat -> Option<Image.PixelPlanes>, encode: (nat, Image.PixelPlanes) -> bool,
                           i: nat, j: nat, p: Image.PixelPlanes)
    requires Follows(t, decode, encode) && i < j < |t| && t[i].decoded == Some(Some(p))
    ensures CachedImage(t[..j]) == Some(p) && t[j].decoded == None && t[j].encoded.Some?
  {
    assert t[..i + 1][..i] == t[..i];
    assert CachedImage(t[..i + 1]) == Some(p);
    if j > i + 1 {
      CachedStays(t, decode, encode, i + 1, j);
    }
    assert t[j] == Next(t[..j], decode, encode);
  }

  /** A failed decode caches nothing, so the next attempt decodes again. */
  lemma FailedDecodeRetried(t: seq<Attempt>, decode: nat -> Option<Image.PixelPlanes>, encode: (nat, Image.PixelPlanes) -> bool, i: nat)
    requires Follows(t, decode, encode) && i + 1 < |t| && t[i].decoded == Some(None)
    ensures t[i + 1].decoded == Some(decode(Decodes(t[..i + 1])))
  {
    assert t[i] == Next(t[..i], decode, encode);
    assert t[..i + 1][..i] == t[..i];
    assert CachedImage(t[..i + 1]) == None;
    assert t[i + 1] == Next(t[..i + 1], decode, encode);
  }

  /** An attempt encodes exactly when it has an image, and it encodes the cached one. */
  lemma EncodesCachedImage(t: seq<Attempt>, decode: nat -> Option<Image.PixelPlanes>, encode: (nat, Image.PixelPlanes) -> bool, i: nat)
    requires Follows(t, decode, encode) && i < |t|
    ensures t[i].encoded.Some? <==> CachedImage(t[..i + 1]).Some?
    ensures t[i].encoded.Some? ==> t[i].encoded == Some(encode(Encodes(t[..i]), CachedImage(t[..i + 1]).value))
  {
    assert t[i] == Next(t[..i], decode, encode);
    assert t[..i + 1][..i] == t[..i];
  }
}
