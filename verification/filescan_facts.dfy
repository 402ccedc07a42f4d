/** What `scan` yields, stated without reference to its traversal. */
module ScanFacts {
  import opened Strings
  import opened FileScan

  /** The filter accepts exactly the names that end in `.` followed by three
      characters that lower-case to `mkv`. */
  lemma IsMkvSuffix(name: string)
    ensures IsMkv(name) <==>
      |name| >= 4 && name[|name| - 4] == '.' && Lower(name[|name| - 3..]) == "mkv"
  {
    if '.' in name {
      var i := LastIndexOf(name, '.').value;
      var ext := name[i + 1..];
      if IsMkv(name) {
        assert |Lower(ext)| == |ext| == 3;
        assert i == |name| - 4;
      }
      if |name| >= 4 && name[|name| - 4] == '.' && Lower(name[|name| - 3..]) == "mkv" {
        var tail := name[|name| - 3..];
        assert ext == tail;
      }
    } else if |name| >= 4 {
      assert name[|name| - 4] in name;
    }
  }

  /** Whatever comes before it, an extension that lower-cases to `mkv`
      (`mkv`, `MKV`, `Mkv`, ...) is accepted; the stem may be empty. */
  lemma IsMkvAccepts(stem: string, ext: string)
    requires Lower(ext) == "mkv"
    ensures IsMkv(stem + "." + ext)
  {
    var name := stem + "." + ext;
    IsMkvSuffix(name);
    assert name[|name| - 3..] == ext;
  }

  /** A bare `mkv` and a name with a later extension are rejected. */
  lemma IsMkvRejects()
    ensures !IsMkv("mkv") && !IsMkv("a.mkv.bak")
  {
    IsMkvSuffix("mkv");
    IsMkvSuffix("a.mkv.bak");
    assert "a.mkv.bak"[6..] == "bak";
    assert Lower("bak")[0] == 'b';
  }

  lemma {:induction false} MatchingFilesAppend(root: string, f1: seq<string>, f2: seq<string>)
    ensures MatchingFiles(root, f1 + f2) == MatchingFiles(root, f1) + MatchingFiles(root, f2)
    decreases |f1|
  {
    if |f1| == 0 {
      assert f1 + f2 == f2;
    } else {
      assert (f1 + f2)[0] == f1[0];
      assert (f1 + f2)[1..] == f1[1..] + f2;
      MatchingFilesAppend(root, f1[1..], f2);
    }
  }

  /** A path is yielded for a directory's files exactly when it is the
      directory joined with one of the accepted names. */
  lemma {:induction false} MatchingFilesMembers(root: string, files: seq<string>, x: string)
    ensures x in MatchingFiles(root, files) <==>
      exists i :: 0 <= i < |files| && IsMkv(files[i]) && x == PathJoin(root, files[i])
    decreases |files|
  {
    if |files| > 0 {
      var rest := files[1..];
      MatchingFilesStep(root, files, x);
      MatchingFilesMembers(root, rest, x);
      if x in MatchingFiles(root, rest) {
        var i :| 0 <= i < |rest| && IsMkv(rest[i]) && x == PathJoin(root, rest[i]);
        assert files[i + 1] == rest[i];
      }
      if exists i :: 0 <= i < |files| && IsMkv(files[i]) && x == PathJoin(root, files[i]) {
        var i :| 0 <= i < |files| && IsMkv(files[i]) && x == PathJoin(root, files[i]);
        if i > 0 {
          assert rest[i - 1] == files[i];
        }
      }
    }
  }

  lemma MatchingFilesStep(root: string, files: seq<string>, x: string)
    requires |files| > 0
    ensures x in MatchingFiles(root, files) <==>
      (IsMkv(files[0]) && x == PathJoin(root, files[0])) || x in MatchingFiles(root, files[1..])
  {
    var head := if IsMkv(files[0]) then [PathJoin(root, files[0])] else [];
    assert MatchingFiles(root, files) == head + MatchingFiles(root, files[1..]);
  }

  /** A name as `os.walk` lists it: not empty and without a `/`. */
  predicate IsPlainName(n: string)
  {
    |n| > 0 && '/' !in n
  }

  /** With plain file names, a walked directory is yielded itself exactly
      when it has a `BDMV` sub-directory, and then once, after its files. */
  lemma ScanEntryRoot(e: WalkEntry)
    requires forall i :: 0 <= i < |e.files| ==> IsPlainName(e.files[i])
    ensures e.root in ScanEntry(e) <==> "BDMV" in e.dirs
    ensures "BDMV" in e.dirs ==>
      var out := ScanEntry(e);
      out[|out| - 1] == e.root && e.root !in out[..|out| - 1]
  {
    var m := MatchingFiles(e.root, e.files);
    MatchingFilesMembers(e.root, e.files, e.root);
    if "BDMV" in e.dirs {
      var out := ScanEntry(e);
      assert out == m + [e.root];
      assert out[..|out| - 1] == m;
    }
  }

  /** Every path a walked directory yields is one of its accepted files or,
      for a Blu-ray tree, the directory itself. */
  lemma ScanEntryMembers(e: WalkEntry, x: string)
    ensures x in ScanEntry(e) <==>
      (x == e.root && "BDMV" in e.dirs) ||
      exists i :: 0 <= i < |e.files| && IsMkv(e.files[i]) && x == PathJoin(e.root, e.files[i])
  {
    MatchingFilesMembers(e.root, e.files, x);
  }

  lemma {:induction false} ScanWalkMembers(walk: seq<WalkEntry>, x: string)
    ensures x in ScanWalk(walk) <==> exists i :: 0 <= i < |walk| && x in ScanEntry(walk[i])
    decreases |walk|
  {
    if |walk| > 0 {
      ScanWalkMembers(walk[1..], x);
      if x in ScanWalk(walk[1..]) {
        var i :| 0 <= i < |walk[1..]| && x in ScanEntry(walk[1..][i]);
        assert walk[i + 1] == walk[1..][i];
      }
      if exists i :: 0 <= i < |walk| && x in ScanEntry(walk[i]) {
        var i :| 0 <= i < |walk| && x in ScanEntry(walk[i]);
        if i > 0 {
          assert walk[1..][i - 1] == walk[i];
        }
      }
    }
  }

  /** The walk of a directory yields what its parts yield, in walk order. */
  lemma {:induction false} ScanWalkAppend(w1: seq<WalkEntry>, w2: seq<WalkEntry>)
    ensures ScanWalk(w1 + w2) == ScanWalk(w1) + ScanWalk(w2)
    decreases |w1|
  {
    if |w1| == 0 {
      assert w1 + w2 == w2;
    } else {
      assert (w1 + w2)[0] == w1[0];
      assert (w1 + w2)[1..] == w1[1..] + w2;
      ScanWalkAppend(w1[1..], w2);
    }
  }

  /** The arguments are handled one after another. */
  lemma {:induction false} ScanAppend(a1: seq<Argument>, a2: seq<Argument>)
    ensures Scan(a1 + a2) == Scan(a1) + Scan(a2)
    decreases |a1|
  {
    if |a1| == 0 {
      assert a1 + a2 == a2;
    } else {
      assert (a1 + a2)[0] == a1[0];
      assert (a1 + a2)[1..] == a1[1..] + a2;
      ScanAppend(a1[1..], a2);
    }
  }

  /** An argument that is not a directory is yielded once, as its absolute
      path and whatever its extension, between the outputs of its
      neighbours. */
  lemma ScanFileArgument(args: seq<Argument>, i: nat)
    requires i < |args| && !args[i].isDir
    ensures Scan(args) == Scan(args[..i]) + [args[i].absPath] + Scan(args[i + 1..])
  {
    var rest := args[i..];
    assert args == args[..i] + rest;
    ScanAppend(args[..i], rest);
    assert rest[0] == args[i] && rest[1..] == args[i + 1..];
  }

  /** A directory argument contributes exactly the output of its walk,
      between the outputs of its neighbours. */
  lemma ScanDirectoryArgument(args: seq<Argument>, i: nat)
    requires i < |args| && args[i].isDir
    ensures Scan(args) == Scan(args[..i]) + ScanWalk(args[i].walk) + Scan(args[i + 1..])
  {
    var rest := args[i..];
    assert args == args[..i] + rest;
    ScanAppend(args[..i], rest);
    assert rest[0] == args[i] && rest[1..] == args[i + 1..];
  }

  /** Each walked directory contributes its own output once, between those
      of the directories walked before and after it. */
  lemma ScanWalkEntry(walk: seq<WalkEntry>, i: nat)
    requires i < |walk|
    ensures ScanWalk(walk) == ScanWalk(walk[..i]) + ScanEntry(walk[i]) + ScanWalk(walk[i + 1..])
  {
    var rest := walk[i..];
    assert walk == walk[..i] + rest;
    ScanWalkAppend(walk[..i], rest);
    assert rest[0] == walk[i] && rest[1..] == walk[i + 1..];
  }

  /** A walk of a single directory yields that directory's output. */
  lemma ScanWalkOne(e: WalkEntry)
    ensures ScanWalk([e]) == ScanEntry(e)
  {
    assert [e][1..] == [];
  }
}
