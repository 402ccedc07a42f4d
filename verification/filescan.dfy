/** The input selection of `rip.py`'s `scan`, over a directory listing given
    as data rather than read from the file system. */
module FileScan {
  import opened Wrappers
  import opened Strings

  /** One step of `os.walk`: a directory, its sub-directory names and its
      file names. */
  datatype WalkEntry = WalkEntry(root: string, dirs: seq<string>, files: seq<string>)

  /** A command-line argument after `abspath`: its absolute path, whether it
      names a directory, and the listing a walk of it would produce. */
  datatype Argument = Argument(absPath: string, isDir: bool, walk: seq<WalkEntry>)

  /** `posixpath.join` of two components. */
  function PathJoin(a: string, b: string): (r: string)
    ensures |b| > 0 && b[0] == '/' ==> r == b
    ensures !(|b| > 0 && b[0] == '/') ==>
      |a| + |b| <= |r| <= |a| + |b| + 1 && r[..|a|] == a && r[|r| - |b|..] == b
    ensures |r| == |a| + |b| + 1 ==> r[|a|] == '/'
    ensures !(|b| > 0 && b[0] == '/') ==>
      (|r| == |a| + |b| + 1 <==> |a| > 0 && a[|a| - 1] != '/')
  {
    if |b| > 0 && b[0] == '/' then b
    else if |a| == 0 || a[|a| - 1] == '/' then a + b
    else a + "/" + b
  }

  /** Index of the last occurrence of `c` in `s`. */
  function LastIndexOf(s: string, c: char): (r: Option<nat>)
    ensures r.None? <==> c !in s
    ensures r.Some? ==> r.value < |s| && s[r.value] == c && c !in s[r.value + 1..]
    decreases |s|
  {
    if |s| == 0 then None
    else if s[|s| - 1] == c then Some(|s| - 1)
    else
      var r := LastIndexOf(s[..|s| - 1], c);
      assert s[..|s| - 1] + [s[|s| - 1]] == s;
      if r.Some? then
        assert s[r.value + 1..] == s[..|s| - 1][r.value + 1..] + [s[|s| - 1]];
        r
      else r
  }

  /** The text after the last `.`, which is `name.rsplit('.', 1)[1]`. */
  function Extension(name: string): (ext: string)
    requires '.' in name
    ensures '.' !in ext
    ensures |ext| < |name| && name[|name| - |ext| - 1] == '.' && name[|name| - |ext|..] == ext
  {
    name[LastIndexOf(name, '.').value + 1..]
  }

  /** The file filter of `scan`: there is a `.` and the text after the last
      one, lower-cased, is `mkv`. */
  predicate IsMkv(name: string): (b: bool)
    ensures b ==> |name| >= 4 && name[|name| - 4] == '.'
  {
    '.' in name && Lower(Extension(name)) == "mkv"
  }

  /** The paths yielded for the files of one walked directory. */
  function MatchingFiles(root: string, files: seq<string>): (r: seq<string>)
    ensures |r| <= |files|
    decreases |files|
  {
    if |files| == 0 then []
    else
      var rest := MatchingFiles(root, files[1..]);
      if IsMkv(files[0]) then [PathJoin(root, files[0])] + rest else rest
  }

  /** What one walked directory contributes: its matching files, then the
      directory itself when it holds a `BDMV` folder (a Blu-ray tree). */
  function ScanEntry(e: WalkEntry): (r: seq<string>)
    ensures |r| <= |e.files| + 1
    ensures "BDMV" in e.dirs ==> |r| > 0 && r[|r| - 1] == e.root
    ensures var m := MatchingFiles(e.root, e.files);
      |r| == |m| + (if "BDMV" in e.dirs then 1 else 0) && r[..|m|] == m
  {
    MatchingFiles(e.root, e.files) + (if "BDMV" in e.dirs then [e.root] else [])
  }

  /** The walk of a directory, top-down: each walked directory's output in
      turn. */
  function ScanWalk(walk: seq<WalkEntry>): (r: seq<string>)
    ensures |walk| > 0 ==> var first := ScanEntry(walk[0]);
      |first| <= |r| && r[..|first|] == first
    ensures |walk| > 0 && "BDMV" in walk[|walk| - 1].dirs ==> |r| > 0 && r[|r| - 1] == walk[|walk| - 1].root
    decreases |walk|
  {
    if |walk| == 0 then [] else ScanEntry(walk[0]) + ScanWalk(walk[1..])
  }

  /** A directory is walked; anything else is yielded as it is. */
  function ScanArgument(a: Argument): (r: seq<string>)
    ensures !a.isDir ==> r == [a.absPath]
    ensures a.isDir ==> r == ScanWalk(a.walk)
    ensures a.isDir && |a.walk| > 0 && "BDMV" in a.walk[0].dirs ==> a.walk[0].root in r
  {
    if a.isDir then ScanWalk(a.walk) else [a.absPath]
  }

  /** `scan`: the paths yielded for the arguments, in order. */
  function Scan(args: seq<Argument>): (r: seq<string>)
    ensures |args| > 0 && !args[0].isDir ==> |r| > 0 && r[0] == args[0].absPath
    ensures (forall i :: 0 <= i < |args| ==> !args[i].isDir) ==> |r| == |args|
    decreases |args|
  {
    if |args| == 0 then [] else ScanArgument(args[0]) + Scan(args[1..])
  }
}
