/**
 * Path decomposition. Every operation splits its path with
 * sscanf(path, "/%[^/]/%[^.].%s", directory, filename, extension)
 * into three buffers that start out empty; this module models that call
 * as a pure function and states the 8.3 checks applied to its result.
 */
module PathParse {
  import opened Layout

  /** The three components a path is split into; a component sscanf never reached stays empty. */
  datatype Parts = Parts(dir: string, file: string, ext: string)

  const NoParts: Parts := Parts("", "", "")

  /** isspace() in the C locale: space, tab, newline, vertical tab, form feed, carriage return. */
  predicate IsSpace(c: char) {
    c == ' ' || ('\t' <= c <= '\r')
  }

  predicate NoSpace(s: string) {
    forall i :: 0 <= i < |s| ==> !IsSpace(s[i])
  }

  /** What the conversion %[^c] consumes: the longest prefix of s without c. */
  function Until(s: string, c: char): (r: string)
    ensures r <= s && c !in r
    ensures |r| < |s| ==> s[|r|] == c
  {
    if s == [] || s[0] == c then [] else [s[0]] + Until(s[1..], c)
  }

  /** The white space %s skips before it starts to match: s without its leading white space. */
  function SkipSpace(s: string): (r: string)
    ensures |r| <= |s| && r == s[|s| - |r|..]
    ensures r == [] || !IsSpace(r[0])
    ensures forall i :: 0 <= i < |s| - |r| ==> IsSpace(s[i])
  {
    if s != [] && IsSpace(s[0]) then SkipSpace(s[1..]) else s
  }

  /** What %s stores once white space is skipped: the longest prefix without white space. */
  function Word(s: string): (r: string)
    ensures r <= s && NoSpace(r)
    ensures |r| < |s| ==> IsSpace(s[|r|])
  {
    if s == [] || IsSpace(s[0]) then [] else [s[0]] + Word(s[1..])
  }

  /**
   * sscanf(path, "/%[^/]/%[^.].%s", ...): a literal '/', a non-empty run of
   * non-'/' characters, a literal '/', a non-empty run of non-'.' characters,
   * a literal '.', then a non-empty run of non-space characters after any white
   * space. Matching stops at the first directive that fails; the components it
   * did not reach stay "".
   */
  function Scan(path: string): (p: Parts)
    ensures Shape(p)
    ensures |path| <= 1 ==> p == NoParts
  {
    if path == [] || path[0] != '/' then NoParts else ScanDir(path[1..])
  }

  /** The directives after the leading '/': %[^/], then '/' and the rest. */
  function ScanDir(s: string): (p: Parts)
    ensures Shape(p)
  {
    var dir := Until(s, '/');
    if dir == [] then NoParts
    else
      var rest := s[|dir|..];
      if rest == [] then Parts(dir, "", "") else ScanFile(dir, rest[1..])
  }

  /** The directives after the second '/': %[^.], then '.' and %s. */
  function ScanFile(dir: string, s: string): (p: Parts)
    requires dir != "" && '/' !in dir
    ensures Shape(p) && p.dir == dir
  {
    var file := Until(s, '.');
    if file == [] then Parts(dir, "", "")
    else
      var rest := s[|file|..];
      if rest == [] then Parts(dir, file, "") else Parts(dir, file, Word(SkipSpace(rest[1..])))
  }

  /**
   * The components Scan can produce: a directory without '/', a file without
   * '.', an extension without white space, each present only after the one before.
   */
  predicate Shape(p: Parts) {
    '/' !in p.dir && '.' !in p.file && NoSpace(p.ext)
    && (p.file != "" ==> p.dir != "") && (p.ext != "" ==> p.file != "")
  }

  /** The path that names the components: "/", "/dir", "/dir/file" or "/dir/file.ext". */
  function Join(p: Parts): string {
    if p.file == "" then "/" + p.dir
    else if p.ext == "" then "/" + p.dir + "/" + p.file
    else "/" + p.dir + "/" + p.file + "." + p.ext
  }

  lemma UntilOf(s: string, t: string, c: char)
    requires c !in s && (t == [] || t[0] == c)
    ensures Until(s + t, c) == s
  {
    var r := Until(s + t, c);
    assert forall i :: 0 <= i < |s| ==> (s + t)[i] == s[i];
    assert |r| == |s|;
    assert r == (s + t)[..|s|];
  }

  lemma WordOf(s: string)
    requires s != [] && NoSpace(s)
    ensures Word(SkipSpace(s)) == s
  {
    assert SkipSpace(s) == s;
    assert |Word(s)| == |s|;
  }

  lemma ScanFileOf(p: Parts)
    requires Shape(p) && p.file != ""
    ensures ScanFile(p.dir, p.file + (if p.ext == "" then [] else "." + p.ext)) == p
  {
    var ext := if p.ext == "" then [] else "." + p.ext;
    UntilOf(p.file, ext, '.');
    assert (p.file + ext)[|p.file|..] == ext;
    if p.ext != "" {
      assert ext[1..] == p.ext;
      WordOf(p.ext);
    }
  }

  lemma ScanDirOf(p: Parts)
    requires Shape(p) && p.dir != ""
    ensures ScanDir(Join(p)[1..]) == p
  {
    var tail := if p.file == "" then [] else "/" + (p.file + (if p.ext == "" then [] else "." + p.ext));
    assert Join(p)[1..] == p.dir + tail;
    UntilOf(p.dir, tail, '/');
    assert (p.dir + tail)[|p.dir|..] == tail;
    if p.file != "" {
      assert tail[1..] == p.file + (if p.ext == "" then [] else "." + p.ext);
      ScanFileOf(p);
    }
  }

  /** Scan undoes Join: every shape of components is recovered from the path that names it. */
  lemma ScanJoin(p: Parts)
    requires Shape(p)
    ensures Scan(Join(p)) == p
  {
    if p.dir == "" {
      assert Join(p) == "/";
    } else {
      ScanDirOf(p);
    }
  }

  /** Splitting is idempotent: re-joining what Scan found and splitting again gives the same components. */
  lemma ScanIdempotent(path: string)
    ensures Scan(Join(Scan(path))) == Scan(path)
  {
    ScanJoin(Scan(path));
  }

  /** The 8.3 check of getattr and readdir: any component longer than 8, 8 or 3 characters. */
  predicate TooLong(p: Parts) {
    |p.dir| > MAX_FILENAME || |p.file| > MAX_FILENAME || |p.ext| > MAX_EXTENSION
  }

  /**
   * The validation chain mknod, read and write run on the components, in
   * order: a directory, then a file name, then the file name's length, then
   * the extension's length (the directory's length is not checked).
   */
  function NameCheck(p: Parts): (r: Result<()>)
    ensures r.Ok? <==> p.dir != "" && p.file != "" && |p.file| <= MAX_FILENAME && |p.ext| <= MAX_EXTENSION
    ensures r == Err(EPERM) <==> p.dir == "" || p.file == ""
    ensures r.Err? ==> r.errno in {EPERM, ENAMETOOLONG}
  {
    if p.dir == "" then Err(EPERM)
    else if p.file == "" then Err(EPERM)
    else if |p.file| > MAX_FILENAME then Err(ENAMETOOLONG)
    else if p.ext != "" && |p.ext| > MAX_EXTENSION then Err(ENAMETOOLONG)
    else Ok(())
  }
}
