/**
 * The Unix behaviour of the Rust standard-library path operations that the
 * converter uses to name its outputs: `file_name`, `file_stem`, `extension`,
 * `with_extension`, `with_added_extension` and `join`. A path is its text;
 * `/` is the only separator.
 */
module Paths {
  import opened Wrappers

  const SEP: char := '/'

  predicate NoSep(s: string) {
    forall i :: 0 <= i < |s| ==> s[i] != SEP
  }

  predicate NoDot(s: string) {
    forall i :: 0 <= i < |s| ==> s[i] != '.'
  }

  /** Where the component ending at `end` starts: just after the last separator before `end`. */
  function ComponentStart(p: string, end: nat): (start: nat)
    requires end <= |p|
    ensures start <= end
    ensures start == 0 || p[start - 1] == SEP
    ensures forall i :: start <= i < end ==> p[i] != SEP
  {
    if end == 0 || p[end - 1] == SEP then end else ComponentStart(p, end - 1)
  }

  /**
   * The bounds `[start, end)` of the last component of `p[..end]` read from
   * the back as the path's component iterator does: empty and `.`
   * components are skipped; none when what is left is the root, a lone
   * `.` or `..`.
   */
  function NameSpan(p: string, end: nat): (r: Option<(nat, nat)>)
    requires end <= |p|
    ensures r.Some? ==>
      && r.value.0 < r.value.1 <= end && (r.value.0 == 0 || p[r.value.0 - 1] == SEP)
      && (forall i :: r.value.0 <= i < r.value.1 ==> p[i] != SEP)
  {
    var start := ComponentStart(p, end);
    if start == end || (end - start == 1 && p[start] == '.') then
      if start == 0 then None else NameSpan(p, start - 1)
    else if end - start == 2 && p[start] == '.' && p[start + 1] == '.' then None
    else Some((start, end))
  }

  function LastDot(name: string): (r: Option<nat>)
    ensures r.Some? ==> r.value < |name| && name[r.value] == '.' && forall i :: r.value < i < |name| ==> name[i] != '.'
    ensures r.None? ==> NoDot(name)
  {
    if |name| == 0 then None
    else if name[|name| - 1] == '.' then Some(|name| - 1)
    else LastDot(name[..|name| - 1])
  }

  /** Where the stem of a file name ends: at its last `.`, unless that `.` is its first character. */
  function StemEnd(name: string): (k: nat)
    ensures k <= |name|
    ensures |name| > 0 ==> k > 0
  {
    match LastDot(name)
    case None => |name|
    case Some(k) => if k == 0 then |name| else k
  }

  /** What follows the last `.` of a file name, unless that `.` is its first character. */
  function ExtensionOf(name: string): (r: Option<string>)
    ensures r.Some? ==> |r.value| < |name|
  {
    match LastDot(name)
    case None => None
    case Some(k) => if k == 0 then None else Some(name[k + 1..])
  }

  /** `file_name`: the last normal component. */
  function FileName(p: string): (r: Option<string>)
    ensures r.Some? ==> |r.value| > 0 && NoSep(r.value)
  {
    match NameSpan(p, |p|)
    case None => None
    case Some((s, e)) => Some(p[s..e])
  }

  /** `file_stem`: the file name up to its last `.`, unless that `.` is its first character. */
  function FileStem(p: string): (r: Option<string>)
    ensures r.Some? <==> FileName(p).Some?
    ensures r.Some? ==> |r.value| > 0 && NoSep(r.value)
  {
    match FileName(p)
    case None => None
    case Some(name) => Some(name[..StemEnd(name)])
  }

  /** `extension`: what follows the file name's last `.`, unless that `.` is its first character. */
  function Extension(p: string): (r: Option<string>)
    ensures r.Some? ==> |r.value| < |p|
  {
    match FileName(p)
    case None => None
    case Some(name) => ExtensionOf(name)
  }

  /** The text before the file name: the directory part, kept as it is by the renaming operations. */
  function Dir(p: string): Option<string> {
    match NameSpan(p, |p|)
    case None => None
    case Some((s, e)) => Some(p[..s])
  }

  /** The path ends with its file name: no separator or `.` component follows it. */
  predicate EndsWithName(p: string) {
    NameSpan(p, |p|).Some? && NameSpan(p, |p|).value.1 == |p|
  }

  /**
   * `set_extension` on a copy: the path cut right after the stem (the
   * directory part and the stem), followed by `.` and the extension when
   * that is not empty; unchanged when there is no file name.
   */
  function SetExtension(p: string, ext: string): (r: string)
    ensures FileName(p).None? ==> r == p
  {
    match NameSpan(p, |p|)
    case None => p
    case Some((s, e)) =>
      var name := p[s..e];
      p[..s] + name[..StemEnd(name)] + (if ext == "" then "" else "." + ext)
  }

  /**
   * `with_extension`: the path with the old extension's text cut off its
   * end, then `set_extension` on that copy. Cutting leaves the `.` before
   * the old extension, which `set_extension` then finds as the last dot.
   */
  function WithExtension(p: string, ext: string): (r: string)
    ensures FileName(p).None? ==> r == p
  {
    SetExtension(CutPath(p), ext)
  }

  /** The path with the old extension's text cut off its end. */
  function CutPath(p: string): (r: string)
    ensures |r| <= |p| && r == p[..|r|]
    ensures Extension(p).None? ==> r == p
  {
    match Extension(p)
    case None => p
    case Some(prev) => p[..|p| - |prev|]
  }

  /**
   * `with_added_extension`: the path cut right after the file name (the
   * directory part and the name), followed by `.` and the extension;
   * unchanged when there is no file name or the extension is empty.
   */
  function AddExtension(p: string, ext: string): (r: string)
    ensures FileName(p).None? || ext == "" ==> r == p
  {
    match NameSpan(p, |p|)
    case None => p
    case Some((s, e)) => if ext == "" then p else p[..s] + p[s..e] + "." + ext
  }

  /** `join`: an absolute second path replaces the first; otherwise a separator goes between them when needed. */
  function Join(base: string, q: string): (r: string)
    ensures |q| > 0 && q[0] == SEP ==> r == q
  {
    if |q| > 0 && q[0] == SEP then q
    else if |base| > 0 && base[|base| - 1] != SEP then base + [SEP] + q
    else base + q
  }

  lemma {:induction false} StartAfterSep(p: string, s: nat, end: nat)
    requires s <= end <= |p| && (s == 0 || p[s - 1] == SEP)
    requires forall i :: s <= i < end ==> p[i] != SEP
    ensures ComponentStart(p, end) == s
    decreases end
  {
    if end > s {
      StartAfterSep(p, s, end - 1);
    }
  }

  /** A path ending in a plain name after a separator (or nothing) has that name as its last component. */
  lemma NameSpanAtEnd(dir: string, name: string)
    requires |dir| == 0 || dir[|dir| - 1] == SEP
    requires NoSep(name) && name != "" && name != "." && name != ".."
    ensures NameSpan(dir + name, |dir + name|) == Some((|dir|, |dir + name|))
    ensures (dir + name)[..|dir|] == dir && (dir + name)[|dir|..|dir + name|] == name
  {
    var p := dir + name;
    assert p[|dir|..|p|] == name;
    StartAfterSep(p, |dir|, |p|);
    assert p[..|dir|] == dir;
  }

  /** A path ending in a plain name after a separator (or nothing) has that name as its file name. */
  lemma NameAtEnd(dir: string, name: string)
    requires |dir| == 0 || dir[|dir| - 1] == SEP
    requires NoSep(name) && name != "" && name != "." && name != ".."
    ensures NameSpan(dir + name, |dir + name|) == Some((|dir|, |dir + name|))
    ensures FileName(dir + name) == Some(name) && Dir(dir + name) == Some(dir)
  {
    NameSpanAtEnd(dir, name);
  }

  /** The stem is never empty and never holds a separator. */
  lemma StemShape(p: string)
    requires FileName(p).Some?
    ensures FileStem(p).Some? && |FileStem(p).value| > 0 && NoSep(FileStem(p).value)
  {
  }

  /** A stem followed by `.` and a dot-free extension splits back into that stem and extension. */
  lemma StemDotExtension(stem: string, ext: string)
    requires |stem| > 0 && NoDot(ext)
    ensures var name := stem + "." + ext;
      && StemEnd(name) == |stem| && name[..|stem|] == stem && ExtensionOf(name) == Some(ext)
  {
    var name := stem + "." + ext;
    assert LastDot(name) == Some(|stem|) by {
      LastDotAfter(name, |stem|);
    }
    assert name[|stem| + 1..] == ext;
  }

  lemma {:induction false} LastDotAfter(name: string, k: nat)
    requires k < |name| && name[k] == '.' && forall i :: k < i < |name| ==> name[i] != '.'
    ensures LastDot(name) == Some(k)
    decreases |name|
  {
    if k < |name| - 1 {
      LastDotAfter(name[..|name| - 1], k);
    }
  }

  /** An extension comes from a file name and holds no `.`. */
  lemma ExtensionShape(p: string)
    requires Extension(p).Some?
    ensures FileName(p).Some? && NoDot(Extension(p).value)
  {
  }

  /** A non-empty stem, a `.` and an extension, none holding a separator, make a plain file name. */
  lemma PlainName(stem: string, ext: string)
    requires |stem| > 0 && NoSep(stem) && |ext| > 0 && NoSep(ext)
    ensures var name := stem + "." + ext;
      NoSep(name) && name != "" && name != "." && name != ".."
  {
    var name := stem + "." + ext;
    assert |name| >= 3;
    forall i | 0 <= i < |name|
      ensures name[i] != SEP
    {
      if i < |stem| {
        assert name[i] == stem[i];
      } else if i > |stem| {
        assert name[i] == ext[i - |stem| - 1];
      }
    }
  }

  /** A path with a file name is its directory part, the name, then possibly trailing separators and `.` components. */
  lemma NameParts(p: string) returns (dir: string, name: string)
    requires FileName(p).Some?
    ensures NameSpan(p, |p|) == Some((|dir|, |dir| + |name|))
    ensures Dir(p) == Some(dir) && FileName(p) == Some(name)
    ensures |dir| == 0 || dir[|dir| - 1] == SEP
    ensures |dir| + |name| <= |p| && p[..|dir| + |name|] == dir + name
  {
    match NameSpan(p, |p|)
    case Some((s, e)) =>
      dir := p[..s];
      name := p[s..e];
      assert p[..e] == dir + name;
  }

  /** The text `set_extension` builds: the directory part, the stem, `.` and the extension. */
  lemma SetExtensionText(p: string, ext: string) returns (dir: string, stem: string)
    requires FileName(p).Some? && ext != ""
    ensures Dir(p) == Some(dir) && FileStem(p) == Some(stem)
    ensures |dir| == 0 || dir[|dir| - 1] == SEP
    ensures SetExtension(p, ext) == dir + (stem + "." + ext)
  {
    var name;
    dir, name := NameParts(p);
    stem := name[..StemEnd(name)];
    assert FileStem(p) == Some(stem);
    assert SetExtension(p, ext) == dir + stem + ("." + ext);
  }

  /**
   * `set_extension` keeps the directory part and the stem, and the new
   * extension is the one asked for.
   */
  lemma SetExtensionReplaces(p: string, ext: string)
    requires FileName(p).Some?
    requires |ext| > 0 && NoSep(ext) && NoDot(ext)
    ensures var r := SetExtension(p, ext);
      && Dir(r) == Dir(p) && FileStem(r) == FileStem(p) && Extension(r) == Some(ext)
  {
    var dir, stem := SetExtensionText(p, ext);
    StemShape(p);
    PlainName(stem, ext);
    NameAtEnd(dir, stem + "." + ext);
    StemDotExtension(stem, ext);
  }

  /**
   * A file name cut right after its last dot (not its first character)
   * keeps its stem, is still a plain name, and its last dot is the one cut
   * after; only a stem `.` makes it `..`.
   */
  lemma CutAfterDot(name: string, k: nat)
    requires NoSep(name) && LastDot(name) == Some(k) && 0 < k && name[..k] != "."
    ensures var short := name[..k + 1];
      && NoSep(short) && short != "" && short != "." && short != ".."
      && LastDot(short) == Some(k) && short[..k] == name[..k]
  {
    var short := name[..k + 1];
    assert forall i :: 0 <= i < |short| ==> short[i] == name[i];
    assert short[..k] == name[..k];
    assert short != "..";
    LastDotAfter(short, k);
  }

  /** `set_extension` on a path made of a directory part and a plain name. */
  lemma SetExtensionParts(dir: string, name: string, ext: string)
    requires |dir| == 0 || dir[|dir| - 1] == SEP
    requires NoSep(name) && name != "" && name != "." && name != ".."
    ensures SetExtension(dir + name, ext) == dir + name[..StemEnd(name)] + (if ext == "" then "" else "." + ext)
  {
    NameSpanAtEnd(dir, name);
  }

  lemma PrefixOfConcat<T>(a: seq<T>, b: seq<T>, n: nat)
    requires n <= |b|
    ensures (a + b)[..|a| + n] == a + b[..n]
  {
  }

  /** A name with an extension: its stem ends at its last dot, and the extension is what follows that dot. */
  lemma ExtensionAfterStem(name: string)
    requires ExtensionOf(name).Some?
    ensures var k := StemEnd(name);
      && 0 < k < |name| && LastDot(name) == Some(k) && ExtensionOf(name) == Some(name[k + 1..])
  {
  }

  /** A file name with its extension's text cut off; the `.` before it stays. */
  function CutExtension(name: string): string {
    match ExtensionOf(name)
    case None => name
    case Some(e) => name[..|name| - |e|]
  }

  /** On a directory part and a plain name, cutting the extension's text off the path cuts it off the name. */
  lemma CutPathParts(dir: string, name: string)
    requires |dir| == 0 || dir[|dir| - 1] == SEP
    requires NoSep(name) && name != "" && name != "." && name != ".."
    ensures CutPath(dir + name) == dir + CutExtension(name)
  {
    var p := dir + name;
    assert Extension(p) == ExtensionOf(name) by {
      NameAtEnd(dir, name);
    }
    match ExtensionOf(name)
    case None =>
    case Some(e) =>
      assert |p| - |e| == |dir| + (|name| - |e|);
      PrefixOfConcat(dir, name, |name| - |e|);
  }

  /** Cutting the extension's text off a name whose stem is not `.` leaves a plain name with the same stem. */
  lemma CutKeepsStem(name: string)
    requires NoSep(name) && name != "" && name != "." && name != ".."
    requires name[..StemEnd(name)] != "."
    ensures var c := CutExtension(name);
      && NoSep(c) && c != "" && c != "." && c != ".." && c[..StemEnd(c)] == name[..StemEnd(name)]
  {
    match ExtensionOf(name)
    case None =>
    case Some(e) =>
      ExtensionAfterStem(name);
      var k := StemEnd(name);
      assert |name| - |e| == k + 1;
      CutAfterDot(name, k);
  }

  /** `with_extension` and `set_extension` agree on a directory part and a plain name whose stem is not `.`. */
  lemma WithExtensionAgreesParts(dir: string, name: string, ext: string)
    requires |dir| == 0 || dir[|dir| - 1] == SEP
    requires NoSep(name) && name != "" && name != "." && name != ".."
    requires name[..StemEnd(name)] != "."
    ensures WithExtension(dir + name, ext) == SetExtension(dir + name, ext)
  {
    var c := CutExtension(name);
    CutPathParts(dir, name);
    CutKeepsStem(name);
    SetExtensionParts(dir, c, ext);
    SetExtensionParts(dir, name, ext);
  }

  /**
   * `with_extension` gives what `set_extension` on a copy of the whole path
   * gives, except for a stem `.`: the file name `..X`, cut after its
   * last dot, is `..`, which has no file name.
   */
  lemma WithExtensionAgrees(p: string, ext: string)
    requires EndsWithName(p) && FileStem(p) != Some(".")
    ensures WithExtension(p, ext) == SetExtension(p, ext)
  {
    var dir, name := NameParts(p);
    assert p == dir + name;
    WithExtensionAgreesParts(dir, name, ext);
  }

  /** The text `with_extension` builds for every stem but `.`: the directory part, the stem, `.` and the extension. */
  lemma WithExtensionText(p: string, ext: string) returns (dir: string, stem: string)
    requires EndsWithName(p) && ext != "" && FileStem(p) != Some(".")
    ensures Dir(p) == Some(dir) && FileStem(p) == Some(stem)
    ensures |dir| == 0 || dir[|dir| - 1] == SEP
    ensures WithExtension(p, ext) == dir + (stem + "." + ext)
  {
    WithExtensionAgrees(p, ext);
    dir, stem := SetExtensionText(p, ext);
  }

  /**
   * For every stem but `.`, `with_extension` keeps the directory part and
   * the stem, and the new extension is the one asked for.
   */
  lemma WithExtensionReplaces(p: string, ext: string)
    requires EndsWithName(p) && FileStem(p) != Some(".")
    requires |ext| > 0 && NoSep(ext) && NoDot(ext)
    ensures var r := WithExtension(p, ext);
      && Dir(r) == Dir(p) && FileStem(r) == FileStem(p) && Extension(r) == Some(ext)
  {
    WithExtensionAgrees(p, ext);
    SetExtensionReplaces(p, ext);
  }

  /** A path whose last component is `..` has no file name. */
  lemma ParentNoName(dir: string)
    requires |dir| == 0 || dir[|dir| - 1] == SEP
    ensures FileName(dir + "..") == None
  {
    var p := dir + "..";
    StartAfterSep(p, |dir|, |p|);
    assert p[|dir|] == '.' && p[|dir| + 1] == '.';
  }

  /** The file name `..X` for a non-empty, dot-free `X` has stem `.` and extension `X`. */
  lemma DotDotName(x: string)
    requires |x| > 0 && NoSep(x) && NoDot(x)
    ensures var name := ".." + x;
      && NoSep(name) && name != "" && name != "." && name != ".."
      && name[..StemEnd(name)] == "." && ExtensionOf(name) == Some(x)
  {
    var name := ".." + x;
    assert forall i :: 2 <= i < |name| ==> name[i] == x[i - 2];
    LastDotAfter(name, 1);
    assert name[..1] == "." && name[2..] == x;
  }

  /**
   * A path ending in the file name `..X` (stem `.`, extension `X`): cutting
   * `X` leaves `..`, so `with_extension` gives the directory part and `..`,
   * a path with no file name.
   */
  lemma WithExtensionDotStem(dir: string, x: string, ext: string)
    requires |dir| == 0 || dir[|dir| - 1] == SEP
    requires |x| > 0 && NoSep(x) && NoDot(x)
    ensures FileStem(dir + (".." + x)) == Some(".") && Extension(dir + (".." + x)) == Some(x)
    ensures WithExtension(dir + (".." + x), ext) == dir + ".." && FileName(dir + "..") == None
  {
    var name := ".." + x;
    DotDotName(x);
    assert FileName(dir + name) == Some(name) by {
      NameAtEnd(dir, name);
    }
    assert CutExtension(name) == ".." by {
      assert name[..2] == "..";
    }
    CutPathParts(dir, name);
    ParentNoName(dir);
  }

  /**
   * Adding an extension keeps the directory part and makes the file name
   * the old one followed by `.` and the extension.
   */
  lemma AddExtensionAppends(p: string, ext: string)
    requires FileName(p).Some?
    requires |ext| > 0 && NoSep(ext)
    ensures var r := AddExtension(p, ext);
      && Dir(r) == Dir(p) && FileName(r) == Some(FileName(p).value + "." + ext)
  {
    var dir, name := NameParts(p);
    assert AddExtension(p, ext) == dir + (name + "." + ext);
    NameAtEnd(dir, name + "." + ext);
  }

  /** Joining a directory and a plain name gives a path whose file name is that name. */
  lemma JoinName(dir: string, name: string)
    requires NoSep(name) && name != "" && name != "." && name != ".."
    ensures FileName(Join(dir, name)) == Some(name)
    ensures Dir(Join(dir, name)) == Some(if |dir| > 0 && dir[|dir| - 1] != SEP then dir + [SEP] else dir)
  {
    if |dir| > 0 && dir[|dir| - 1] != SEP {
      assert Join(dir, name) == (dir + [SEP]) + name;
      NameAtEnd(dir + [SEP], name);
    } else {
      NameAtEnd(dir, name);
    }
  }
}
