/** The "version" target: every source file gets a new name with a short
    digest suffix, is renamed in place or copied into a destination directory,
    and the summary records `normalize(file) -> join(dirname, newName)`.
    The file system is seen through `kindOf` (what `fs.lstatSync` says about a
    path) and changed only through the returned list of file operations. */
module Revisioner {
  import opened JsString
  import opened Wrappers
  import opened PosixPath
  import opened AssetMap

  /** One entry of `this.files`: the sources, the destination (`el.dest`, the
      empty string when not given) and whether globbing expanded it. */
  datatype FileGroup = FileGroup(src: seq<string>, dest: string, expand: bool)

  /** What `fs.lstatSync` finds at a path. */
  datatype PathKind = Missing | Directory | OtherFile

  /** The file-system effects of the phase, in order. */
  datatype FileOp = MakeDirectory(path: string) | RenameFile(from: string, to: string) | CopyFile(from: string, to: string)

  /** `grunt.fail.fatal('Destination for target %s is not a directory', target)`:
      the message names neither the destination nor the target, since `target`
      goes to grunt as an error code and not as a format value. */
  datatype VersionError = DestinationNotDirectory

  predicate IsHexDigit(c: char)
  {
    '0' <= c <= '9' || 'a' <= c <= 'f'
  }

  predicate IsHex(s: string)
  {
    forall i :: 0 <= i < |s| ==> IsHexDigit(s[i])
  }

  /** `hash.slice(0, options.length)`: the first `length` characters of the
      digest, all of it when it is shorter; a negative length drops that many
      characters from the end, as `slice` does. */
  function Suffix(digest: string, length: int): (r: string)
    ensures 0 <= length ==> r == digest[..if length < |digest| then length else |digest|]
    ensures length < 0 ==> r == digest[..if |digest| + length > 0 then |digest| + length else 0]
  {
    Slice(digest, 0, length)
  }

  /** A suffix cut from a hex digest is hex and has the requested length. */
  lemma SuffixIsHex(digest: string, length: nat)
    requires IsHex(digest) && length <= |digest|
    ensures IsHex(Suffix(digest, length)) && |Suffix(digest, length)| == length
  {
  }

  /** `[path.basename(file, ext), suffix, ext.slice(1)].join('.')`. */
  function NewName(file: string, suffix: string): (r: string)
    ensures Extname(file) != "" ==> r == Stem(file) + "." + suffix + Extname(file)
    ensures Extname(file) == "" ==> r == Stem(file) + "." + suffix + "."
  {
    var ext := Extname(file);
    var head := Stem(file) + "." + suffix;
    DotSlice(head, ext);
    head + "." + SliceFrom(ext, 1)
  }

  /** `"." + ext.slice(1)` puts back an extension's leading dot. */
  lemma DotSlice(head: string, ext: string)
    requires ext == "" || ext[0] == '.'
    ensures ext != "" ==> head + "." + SliceFrom(ext, 1) == head + ext
    ensures ext == "" ==> head + "." + SliceFrom(ext, 1) == head + "."
  {
    if ext != "" {
      assert ext == "." + ext[1..];
    }
  }

  /** A path without `/` is its own basename. */
  lemma BasenameNoSlash(p: string)
    requires '/' !in p
    ensures Basename(p) == p
  {
    assert LastIndexOfChar(p, '/') == -1;
  }

  /** The extension of a basename `head + ext`, where `ext` is a dot followed
      by no further dot and `head` is not empty. */
  lemma ExtnameOfConcat(head: string, ext: string)
    requires head != "" && '/' !in head + ext
    requires |ext| >= 1 && ext[0] == '.' && '.' !in ext[1..] && head + ext != ".."
    ensures Extname(head + ext) == ext
  {
    var p := head + ext;
    BasenameNoSlash(p);
    assert p == (head + ['.']) + ext[1..];
    LastIndexOfCharPrefix(head + ['.'], ext[1..], '.');
    assert LastIndexOfChar(head + ['.'], '.') == |head|;
    assert p[|head|..] == ext;
  }

  /** The stem of a new name is not empty when the file has an extension, and
      the new name holds no `/`. */
  lemma NewNameParts(file: string, suffix: string)
    requires '/' !in suffix && Extname(file) != ""
    ensures Stem(file) != ""
    ensures '/' !in NewName(file, suffix)
  {
    var ext := Extname(file);
    var b := Basename(file);
    assert b == Stem(file) + ext;
    var dot := LastIndexOfChar(b, '.');
    assert ext == b[dot..] && dot > 0;
    assert '/' !in ext by {
      assert forall i :: 0 <= i < |ext| ==> ext[i] == b[|b| - |ext| + i];
    }
    assert NewName(file, suffix) == Stem(file) + "." + suffix + ext;
  }

  /** The new name is a basename again, it keeps the extension, and the stem
      grows by `.suffix`: renaming twice would stack suffixes. */
  lemma NewNameKeepsExtension(file: string, suffix: string)
    requires '.' !in suffix && '/' !in suffix
    requires Extname(file) != ""
    ensures '/' !in NewName(file, suffix)
    ensures Basename(NewName(file, suffix)) == NewName(file, suffix)
    ensures Extname(NewName(file, suffix)) == Extname(file)
    ensures Stem(NewName(file, suffix)) == Stem(file) + "." + suffix
  {
    var ext := Extname(file);
    var n := NewName(file, suffix);
    var head := Stem(file) + "." + suffix;
    NewNameParts(file, suffix);
    assert n == head + ext;
    assert |n| > 2;
    BasenameNoSlash(n);
    ExtnameOfConcat(head, ext);
    CancelRight(Stem(n), head, ext);
  }

  lemma CancelRight(a: string, b: string, c: string)
    requires a + c == b + c
    ensures a == b
  {
    assert a == (a + c)[..|a|];
    assert b == (b + c)[..|b|];
  }

  /** `^<stem>\.[0-9a-f]{length}\.<ext>$`: the revisioned name of a file with an
      extension, for a hex digest at least `length` long. */
  lemma RevisionedNameShape(file: string, digest: string, length: nat)
    requires IsHex(digest) && length <= |digest| && Extname(file) != ""
    ensures var n := NewName(file, Suffix(digest, length));
            var s := n[|Stem(file)| + 1..|Stem(file)| + 1 + length];
            && n == Stem(file) + "." + s + "." + Extname(file)[1..]
            && IsHex(s) && |s| == length
  {
    var ext := Extname(file);
    var s := Suffix(digest, length);
    var n := NewName(file, s);
    assert ext == "." + ext[1..];
    assert n == Stem(file) + "." + s + "." + ext[1..];
    assert n[|Stem(file)| + 1..|Stem(file)| + 1 + length] == s;
  }

  /** The directory a group copies into: `el.dest`, or its dirname when
      globbing put a basename into it; empty when the group renames in place. */
  function CopyDirectory(g: FileGroup): (r: string)
    ensures r == "" <==> g.dest == ""
  {
    if g.dest == "" then "" else if g.expand then Dirname(g.dest) else g.dest
  }

  /** The directory recorded for `file`: its own directory when renaming in
      place (`copyDir` empty), the copy directory otherwise. */
  function TargetDirectory(file: string, copyDir: string): string
  {
    if copyDir == "" then Dirname(file) else copyDir
  }

  /** `path.join(dirname, newName)`, the value recorded for `file`: never
      empty. */
  function RecordedPath(file: string, copyDir: string, suffix: string): (r: string)
    ensures r != ""
  {
    Join(TargetDirectory(file, copyDir), NewName(file, suffix))
  }

  /** `summary[path.normalize(file)] = path.join(dirname, newName)`: the
      entry one file contributes. A file given as a clean path is recorded
      under itself, and the recorded path is never empty. */
  function Record(file: string, copyDir: string, suffix: string): (r: Entry)
    ensures Clean(file) ==> r.key == file
    ensures r.value != ""
  {
    Entry(Normalize(file), RecordedPath(file, copyDir, suffix))
  }

  /** `f` applied to every element, in order. */
  function MapSeq<A, B>(xs: seq<A>, f: A -> B): (r: seq<B>)
    ensures |r| == |xs| && forall i :: 0 <= i < |xs| ==> r[i] == f(xs[i])
  {
    seq(|xs|, i requires 0 <= i < |xs| => f(xs[i]))
  }

  lemma MapSeqTail<A, B>(xs: seq<A>, f: A -> B)
    requires xs != []
    ensures MapSeq(xs, f) == [f(xs[0])] + MapSeq(xs[1..], f)
  {
    var r := MapSeq(xs, f);
    assert r[1..] == MapSeq(xs[1..], f);
  }

  /** The entries of a group's files, in order. */
  function Records(files: seq<string>, copyDir: string, suffix: string): seq<Entry>
  {
    MapSeq(files, f => Record(f, copyDir, suffix))
  }

  /** The records of one group's files, in order. */
  function RecordFiles(al: seq<Entry>, files: seq<string>, copyDir: string, suffix: string): seq<Entry>
  {
    PutAll(al, Records(files, copyDir, suffix))
  }

  /** The rename or copy of one file: to `path.resolve(dirname, newName)`. The
      file is renamed when there is no copy directory and copied otherwise,
      and the target is absolute when the working directory is. */
  function FileOpOf(file: string, copyDir: string, suffix: string, cwd: string): (r: FileOp)
    ensures r.RenameFile? || r.CopyFile?
    ensures r.RenameFile? <==> copyDir == ""
    ensures r.from == file && r.to != ""
    ensures cwd != "" && cwd[0] == '/' ==> r.to[0] == '/'
  {
    var target := Resolve(cwd, TargetDirectory(file, copyDir), NewName(file, suffix));
    if copyDir == "" then RenameFile(file, target) else CopyFile(file, target)
  }

  function FileOps(files: seq<string>, copyDir: string, suffix: string, cwd: string): seq<FileOp>
  {
    MapSeq(files, f => FileOpOf(f, copyDir, suffix, cwd))
  }

  /** The loop over one group's files, as a fold: each file adds its entry to
      the summary and its rename or copy to the operations. One operation is
      appended per file and keys stay unique. */
  function GroupRun(al: seq<Entry>, ops: seq<FileOp>, files: seq<string>, copyDir: string, suffix: string,
                    cwd: string): (r: (seq<Entry>, seq<FileOp>))
    ensures |r.1| == |ops| + |files| && r.1[..|ops|] == ops
    ensures UniqueKeys(al) ==> UniqueKeys(r.0)
    decreases |files|
  {
    if files == [] then (al, ops)
    else
      var r := Record(files[0], copyDir, suffix);
      var ops' := ops + [FileOpOf(files[0], copyDir, suffix, cwd)];
      var next := GroupRun(Put(al, r.key, r.value), ops', files[1..], copyDir, suffix, cwd);
      PrefixOfPrefix(next.1, ops, [FileOpOf(files[0], copyDir, suffix, cwd)]);
      next
  }

  /** The destination check of one group: a fatal error when the copy
      directory exists and is not a directory, a `mkdir` when it is missing,
      nothing otherwise. */
  function DestinationCheck(g: FileGroup, kindOf: string -> PathKind): (r: Result<seq<FileOp>>)
    ensures r.Fail? <==> g.dest != "" && kindOf(CopyDirectory(g)) == OtherFile
    ensures r.Ok? ==> r.value == if g.dest != "" && kindOf(CopyDirectory(g)) == Missing
                                 then [MakeDirectory(CopyDirectory(g))] else []
  {
    var d := CopyDirectory(g);
    if d == "" then Ok([])
    else match kindOf(d)
      case OtherFile => Fail(DestinationNotDirectory)
      case Missing => Ok([MakeDirectory(d)])
      case Directory => Ok([])
  }

  datatype Result<T> = Ok(value: T) | Fail(error: VersionError)

  /** The outcome of the phase: the summary, the file operations performed,
      and the fatal error that stopped it, if any. */
  datatype VersionOutcome = VersionOutcome(entries: seq<Entry>, ops: seq<FileOp>, fatal: Option<VersionError>)

  /** The phase over the groups, in order; a fatal error stops everything.
      Operations are only appended, and the phase fails exactly when some
      group's copy directory exists and is not a directory. */
  function VersionGroups(al: seq<Entry>, ops: seq<FileOp>, groups: seq<FileGroup>, suffix: string,
                         kindOf: string -> PathKind, cwd: string): (r: VersionOutcome)
    ensures |ops| <= |r.ops| && r.ops[..|ops|] == ops
    ensures r.fatal.Some? <==> exists g :: g in groups && g.dest != "" && kindOf(CopyDirectory(g)) == OtherFile
    decreases |groups|
  {
    if groups == [] then VersionOutcome(al, ops, None)
    else
      var g := groups[0];
      match DestinationCheck(g, kindOf)
      case Fail(e) => VersionOutcome(al, ops, Some(e))
      case Ok(mk) =>
        var run := GroupRun(al, ops + mk, g.src, CopyDirectory(g), suffix, cwd);
        var rest := VersionGroups(run.0, run.1, groups[1..], suffix, kindOf, cwd);
        assert rest.ops[..|ops|] == ops by {
          PrefixOfPrefix(run.1, ops, mk);
          PrefixTrans(rest.ops, run.1, ops);
        }
        MemberHeadTail(groups);
        rest
  }

  /** `path.normalize` of every file, in order. */
  function NormalizedPaths(files: seq<string>): seq<string>
  {
    seq(|files|, j requires 0 <= j < |files| => Normalize(files[j]))
  }

  lemma RecordsKeys(files: seq<string>, copyDir: string, suffix: string)
    ensures Keys(Records(files, copyDir, suffix)) == NormalizedPaths(files)
  {
    var recs := Records(files, copyDir, suffix);
    forall j | 0 <= j < |files| ensures Keys(recs)[j] == NormalizedPaths(files)[j] {
      assert recs[j].key == Normalize(files[j]);
    }
  }

  lemma NormalizedPathsSet(files: seq<string>)
    ensures (set k | k in NormalizedPaths(files)) == set f | f in files :: Normalize(f)
  {
    var ks := NormalizedPaths(files);
    forall x | x in ks ensures x in set f | f in files :: Normalize(f) {
      var j :| 0 <= j < |ks| && ks[j] == x;
      assert files[j] in files;
    }
    forall x | x in set f | f in files :: Normalize(f) ensures x in ks {
      var f :| f in files && Normalize(f) == x;
      var j :| 0 <= j < |files| && files[j] == f;
      assert ks[j] == x;
    }
  }

  /** The keys a group records are the normalised paths of its files. */
  lemma RecordsKeySet(files: seq<string>, copyDir: string, suffix: string)
    ensures KeySet(Records(files, copyDir, suffix)) == set f | f in files :: Normalize(f)
  {
    RecordsKeys(files, copyDir, suffix);
    KeySetIsKeys(Records(files, copyDir, suffix));
    NormalizedPathsSet(files);
  }

  /** Recording a group keeps the keys unique and adds the normalised path
      of every file. */
  lemma RecordFilesKeys(al: seq<Entry>, files: seq<string>, copyDir: string, suffix: string)
    requires UniqueKeys(al)
    ensures UniqueKeys(RecordFiles(al, files, copyDir, suffix))
    ensures KeySet(RecordFiles(al, files, copyDir, suffix))
            == KeySet(al) + set f | f in files :: Normalize(f)
  {
    var recs := Records(files, copyDir, suffix);
    PutAllUnique(al, recs);
    PutAllKeySet(al, recs);
    RecordsKeySet(files, copyDir, suffix);
  }

  /** Last writer wins: a key ends with the value recorded for the last file
      of the group that normalises to it. */
  lemma RecordFilesLastWins(al: seq<Entry>, files: seq<string>, copyDir: string, suffix: string, i: nat)
    requires UniqueKeys(al) && i < |files|
    requires forall j :: i < j < |files| ==> Normalize(files[j]) != Normalize(files[i])
    ensures Lookup(RecordFiles(al, files, copyDir, suffix), Normalize(files[i]))
            == Some(RecordedPath(files[i], copyDir, suffix))
  {
    PutAllLastWins(al, Records(files, copyDir, suffix), i);
  }

  /** A key no file of the group normalises to keeps its value. */
  lemma RecordFilesUntouched(al: seq<Entry>, files: seq<string>, copyDir: string, suffix: string, x: string)
    requires UniqueKeys(al)
    requires forall f :: f in files ==> Normalize(f) != x
    ensures Lookup(RecordFiles(al, files, copyDir, suffix), x) == Lookup(al, x)
  {
    var recs := Records(files, copyDir, suffix);
    assert forall j :: 0 <= j < |recs| ==> recs[j].key == Normalize(files[j]) && files[j] in files;
    PutAllUntouched(al, recs, x);
  }

  /** Renaming in place a file `dir/name` given as a clean path records it
      under itself, with `dir/newName` as the value. */
  lemma InPlaceRecord(file: string, suffix: string)
    requires Clean(file) && 0 < LastIndexOfChar(file, '/')
    requires '.' !in suffix && '/' !in suffix && Extname(file) != ""
    ensures Normalize(file) == file
    ensures RecordedPath(file, "", suffix) == Dirname(file) + "/" + NewName(file, suffix)
  {
    DirnameBasename(file);
    var d := Dirname(file);
    var i := LastIndexOfChar(file, '/');
    SplitConcat(d, Basename(file));
    assert Split(file, '/') == Split(d, '/') + [Basename(file)];
    assert Clean(d) by {
      forall seg | seg in Split(d, '/') ensures PlainSegment(seg) {
        assert seg in Split(file, '/');
      }
    }
    NewNamePlain(file, suffix);
  }

  /** A versioned name with an extension is a plain path segment. */
  lemma NewNamePlain(file: string, suffix: string)
    requires '.' !in suffix && '/' !in suffix && Extname(file) != ""
    ensures PlainSegment(NewName(file, suffix)) && '/' !in NewName(file, suffix)
  {
    NewNameKeepsExtension(file, suffix);
    var n := NewName(file, suffix);
    assert n == Stem(file) + "." + suffix + Extname(file);
    assert |n| >= 3;
  }

  /** Copying a file given as a clean path into a clean directory records it
      under itself, with `copyDir/newName` as the value. */
  lemma CopiedRecord(file: string, copyDir: string, suffix: string)
    requires Clean(file) && Clean(copyDir)
    requires '.' !in suffix && '/' !in suffix && Extname(file) != ""
    ensures Normalize(file) == file
    ensures RecordedPath(file, copyDir, suffix) == copyDir + "/" + NewName(file, suffix)
  {
    EmptyNotClean();
    NewNamePlain(file, suffix);
  }

  /** The entry of a file renamed in place, with its key split at the last `/`. */
  lemma InPlaceEntry(file: string, suffix: string)
    requires Clean(file) && 0 < LastIndexOfChar(file, '/')
    requires '.' !in suffix && '/' !in suffix && Extname(file) != ""
    ensures Record(file, "", suffix)
            == Entry(Dirname(file) + "/" + Basename(file), Dirname(file) + "/" + NewName(file, suffix))
  {
    InPlaceRecord(file, suffix);
    DirnameBasename(file);
  }

  /** The entry of a file copied into `copyDir`, with its key split at the last `/`. */
  lemma CopiedEntry(file: string, copyDir: string, suffix: string)
    requires Clean(file) && Clean(copyDir) && 0 < LastIndexOfChar(file, '/')
    requires '.' !in suffix && '/' !in suffix && Extname(file) != ""
    ensures Record(file, copyDir, suffix)
            == Entry(Dirname(file) + "/" + Basename(file), copyDir + "/" + NewName(file, suffix))
  {
    CopiedRecord(file, copyDir, suffix);
    DirnameBasename(file);
  }

  /** The copy directory exists and is a regular file: the phase stops with a
      fatal error before that group renames or copies anything. */
  lemma DestinationFileIsFatal(al: seq<Entry>, ops: seq<FileOp>, g: FileGroup, rest: seq<FileGroup>,
                               suffix: string, kindOf: string -> PathKind, cwd: string)
    requires g.dest != "" && kindOf(CopyDirectory(g)) == OtherFile
    ensures VersionGroups(al, ops, [g] + rest, suffix, kindOf, cwd)
            == VersionOutcome(al, ops, Some(DestinationNotDirectory))
  {
  }

  /** The copy directory is missing or already a directory: the group goes
      ahead, after a `mkdir` when the directory is missing, and records and
      renames or copies its files. */
  lemma DestinationReady(al: seq<Entry>, ops: seq<FileOp>, g: FileGroup, rest: seq<FileGroup>,
                         suffix: string, kindOf: string -> PathKind, cwd: string)
    requires g.dest != "" && kindOf(CopyDirectory(g)) != OtherFile
    ensures var d := CopyDirectory(g);
            VersionGroups(al, ops, [g] + rest, suffix, kindOf, cwd)
            == VersionGroups(RecordFiles(al, g.src, d, suffix),
                             ops + (if kindOf(d) == Missing then [MakeDirectory(d)] else []) + FileOps(g.src, d, suffix, cwd),
                             rest, suffix, kindOf, cwd)
  {
    var d := CopyDirectory(g);
    var mk := if kindOf(d) == Missing then [MakeDirectory(d)] else [];
    GroupRunRecords(al, ops + mk, g.src, d, suffix, cwd);
    assert ([g] + rest)[1..] == rest;
  }

  /** The fold over a group's files records them as `RecordFiles` says and
      appends their operations in order. */
  lemma {:induction false} GroupRunRecords(al: seq<Entry>, ops: seq<FileOp>, files: seq<string>, copyDir: string,
                                           suffix: string, cwd: string)
    ensures GroupRun(al, ops, files, copyDir, suffix, cwd)
            == (RecordFiles(al, files, copyDir, suffix), ops + FileOps(files, copyDir, suffix, cwd))
    decreases |files|
  {
    if files != [] {
      var r := Record(files[0], copyDir, suffix);
      var op := FileOpOf(files[0], copyDir, suffix, cwd);
      var tailRecs := Records(files[1..], copyDir, suffix);
      var tailOps := FileOps(files[1..], copyDir, suffix, cwd);
      GroupRunRecords(Put(al, r.key, r.value), ops + [op], files[1..], copyDir, suffix, cwd);
      MapSeqTail(files, f => Record(f, copyDir, suffix));
      MapSeqTail(files, f => FileOpOf(f, copyDir, suffix, cwd));
      assert Records(files, copyDir, suffix) == [r] + tailRecs;
      assert ([r] + tailRecs)[1..] == tailRecs;
      assert PutAll(al, [r] + tailRecs) == PutAll(Put(al, r.key, r.value), tailRecs);
      assert FileOps(files, copyDir, suffix, cwd) == [op] + tailOps;
      AppendAssoc(ops, [op], tailOps);
      assert GroupRun(al, ops, files, copyDir, suffix, cwd)
             == GroupRun(Put(al, r.key, r.value), ops + [op], files[1..], copyDir, suffix, cwd);
    } else {
      assert Records(files, copyDir, suffix) == [];
      assert ops + FileOps(files, copyDir, suffix, cwd) == ops;
    }
  }

  /** An element of a non-empty sequence is its head or in its tail. */
  lemma MemberHeadTail<T>(s: seq<T>)
    requires s != []
    ensures forall x :: x in s <==> x == s[0] || x in s[1..]
  {
    assert s == [s[0]] + s[1..];
  }

  /** A sequence that starts with `a + b` starts with `a`. */
  lemma PrefixOfPrefix<T>(s: seq<T>, a: seq<T>, b: seq<T>)
    requires |a + b| <= |s| && s[..|a + b|] == a + b
    ensures |a| <= |s| && s[..|a|] == a
  {
    assert s[..|a|] == s[..|a + b|][..|a|];
  }

  /** Starting with `t`, which starts with `u`, a sequence starts with `u`. */
  lemma PrefixTrans<T>(s: seq<T>, t: seq<T>, u: seq<T>)
    requires |t| <= |s| && s[..|t|] == t && |u| <= |t| && t[..|u|] == u
    ensures s[..|u|] == u
  {
    assert s[..|u|] == s[..|t|][..|u|];
  }

  /** The normalised paths of all the groups' sources. */
  function SourceKeys(groups: seq<FileGroup>): set<string>
    decreases |groups|
  {
    if groups == [] then {} else (set f | f in groups[0].src :: Normalize(f)) + SourceKeys(groups[1..])
  }

  /** Over the whole phase the keys stay unique, no key is lost, and every new
      key is the normalised path of some group's source; when no group fails,
      every group's sources are recorded. */
  lemma {:induction false} VersionGroupsKeys(al: seq<Entry>, ops: seq<FileOp>, groups: seq<FileGroup>,
                                             suffix: string, kindOf: string -> PathKind, cwd: string)
    requires UniqueKeys(al)
    ensures var out := VersionGroups(al, ops, groups, suffix, kindOf, cwd);
            && UniqueKeys(out.entries)
            && KeySet(al) <= KeySet(out.entries) <= KeySet(al) + SourceKeys(groups)
            && (out.fatal.None? ==> KeySet(out.entries) == KeySet(al) + SourceKeys(groups))
    decreases |groups|
  {
    if groups != [] {
      var g := groups[0];
      if DestinationCheck(g, kindOf).Ok? {
        var mk := DestinationCheck(g, kindOf).value;
        var d := CopyDirectory(g);
        GroupRunRecords(al, ops + mk, g.src, d, suffix, cwd);
        RecordFilesKeys(al, g.src, d, suffix);
        var run := GroupRun(al, ops + mk, g.src, d, suffix, cwd);
        VersionGroupsKeys(run.0, run.1, groups[1..], suffix, kindOf, cwd);
      }
    }
  }

  /** The files of one group: rename or copy each to its new name, and record
      it in the summary. */
  method VersionFiles(summary: Summary, done: seq<FileOp>, files: seq<string>, copyDir: string, suffix: string,
                      cwd: string)
    returns (ops: seq<FileOp>)
    requires summary.Valid()
    modifies summary
    ensures summary.Valid()
    ensures (summary.entries, ops) == GroupRun(old(summary.entries), done, files, copyDir, suffix, cwd)
  {
    ops := done;
    var i := 0;
    while i < |files|
      invariant summary.Valid() && i <= |files|
      invariant GroupRun(summary.entries, ops, files[i..], copyDir, suffix, cwd)
                == GroupRun(old(summary.entries), done, files, copyDir, suffix, cwd)
    {
      var file := files[i];
      assert files[i..][1..] == files[i + 1..];
      var newName := NewName(file, suffix);
      var dirname := TargetDirectory(file, copyDir);
      var resultPath := Resolve(cwd, dirname, newName);
      if copyDir == "" {
        ops := ops + [RenameFile(file, resultPath)];
      } else {
        ops := ops + [CopyFile(file, resultPath)];
      }
      summary.Set(Normalize(file), Join(dirname, newName));
      i := i + 1;
    }
    assert files[i..] == [];
  }

  /** The "version" target over all groups. */
  method Version(summary: Summary, groups: seq<FileGroup>, digest: string, length: int,
                 kindOf: string -> PathKind, cwd: string)
    returns (ops: seq<FileOp>, fatal: Option<VersionError>)
    requires summary.Valid()
    modifies summary
    ensures summary.Valid()
    ensures VersionOutcome(summary.entries, ops, fatal)
            == VersionGroups(old(summary.entries), [], groups, Suffix(digest, length), kindOf, cwd)
  {
    var suffix := Suffix(digest, length);
    ops, fatal := [], None;
    var i := 0;
    while i < |groups|
      invariant summary.Valid() && i <= |groups|
      invariant VersionGroups(summary.entries, ops, groups[i..], suffix, kindOf, cwd)
                == VersionGroups(old(summary.entries), [], groups, suffix, kindOf, cwd)
    {
      var g := groups[i];
      assert groups[i..][1..] == groups[i + 1..];
      var check := DestinationCheck(g, kindOf);
      if check.Fail? {
        fatal := Some(check.error);
        return;
      }
      ops := VersionFiles(summary, ops + check.value, g.src, CopyDirectory(g), suffix, cwd);
      i := i + 1;
    }
    assert groups[i..] == [];
  }
}
