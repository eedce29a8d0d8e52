/** The "replace" target: every reference a pattern finds in a target file is
    looked up in the summary by suffix and, when the summary knows a different
    versioned path for it, rewritten in place. Files are read from and written
    to a map from path to content that stands for the file system. */
module Rewriter {
  import opened Wrappers
  import opened JsString
  import opened Regex
  import opened AssetMap
  import opened PosixPath
  import opened Revisioner

  /** One entry of `options.patterns`, in the order a `for...in` visits them. */
  datatype NamedPattern = NamedPattern(name: string, find: Matcher)

  /** The options of the target: the patterns, and `options.hash`, a pattern
      whose first group is the hash part of an already versioned link. */
  ghost predicate PatternsWellFormed(patterns: seq<NamedPattern>, hash: Option<Matcher>)
  {
    (forall p :: p in patterns ==> WellFormed(p.find)) && (hash.Some? ==> WellFormed(hash.value))
  }

  /** The content of a file so far, and whether some pattern changed it. */
  datatype Rewrite = Rewrite(content: string, updated: bool)

  /** The first summary entry, from position `from` on, whose key ends with
      `base`: the `for...in` over the summary that stops at its first hit. */
  function FirstSuffixKeyFrom(al: seq<Entry>, base: string, from: nat): (r: Option<nat>)
    requires from <= |al|
    ensures r.Some? ==> from <= r.value < |al| && EndsWith(al[r.value].key, base)
    ensures r.Some? ==> forall j :: from <= j < r.value ==> !EndsWith(al[j].key, base)
    ensures r.None? ==> forall j :: from <= j < |al| ==> !EndsWith(al[j].key, base)
    decreases |al| - from
  {
    if from == |al| then None
    else if EndsWith(al[from].key, base) then Some(from)
    else FirstSuffixKeyFrom(al, base, from + 1)
  }

  function FirstSuffixKey(al: seq<Entry>, base: string): Option<nat>
  {
    FirstSuffixKeyFrom(al, base, 0)
  }

  /** Only the first key ending with `base` counts: any position with that
      property and no earlier one is what the search finds. */
  lemma {:induction false} FirstSuffixKeyIsFirst(al: seq<Entry>, base: string, from: nat, j: nat)
    requires from <= j < |al| && EndsWith(al[j].key, base)
    requires forall i :: from <= i < j ==> !EndsWith(al[i].key, base)
    ensures FirstSuffixKeyFrom(al, base, from) == Some(j)
    decreases j - from
  {
    if from < j {
      FirstSuffixKeyIsFirst(al, base, from + 1, j);
    }
  }

  /** Entries after the first key ending with `base` are never consulted. */
  lemma FirstSuffixKeyIgnoresLater(al: seq<Entry>, more: seq<Entry>, base: string)
    requires FirstSuffixKey(al, base).Some?
    ensures FirstSuffixKey(al + more, base) == FirstSuffixKey(al, base)
  {
    var j := FirstSuffixKey(al, base).value;
    var all := al + more;
    assert all[j] == al[j];
    assert forall i :: 0 <= i < j ==> all[i] == al[i];
    FirstSuffixKeyIsFirst(all, base, 0, j);
  }

  /** `versioned[assetpath].slice(assetpath.length - baseLink.length)`: the
      versioned link, cut from the value where the reference starts in the key. */
  function HashLink(e: Entry, base: string): (r: string)
    ensures |base| <= |e.key| && |e.key| - |base| <= |e.value| ==> r == e.value[|e.key| - |base|..]
    ensures |e.key| - |base| > |e.value| ==> r == ""
  {
    SliceFrom(e.value, |e.key| - |base|)
  }

  /** The reference with its hash part removed by `options.hash`, when given. */
  function BaseLink(lastLink: string, hash: Option<Matcher>): (r: string)
    requires hash.Some? ==> WellFormed(hash.value)
    ensures hash.None? ==> r == lastLink
  {
    if hash.Some? then ReplaceFirstGroup(lastLink, hash.value, "") else lastLink
  }

  /** What happens to the content once a pattern has matched `m` and the
      reference has been reduced to `base`: the first key ending with `base`
      gives the versioned link, and unless it is the link already there, the
      first occurrence of the link inside the match is replaced by it.
      `updated` is set exactly when some key ends with `base` and the first
      such key yields a link other than the one there; without it the content
      is left alone. */
  function Relink(al: seq<Entry>, content: string, m: RegexMatch, base: string): (r: Rewrite)
    requires MatchesIn(content, m)
    ensures r.updated <==> FirstSuffixKey(al, base).Some?
                           && HashLink(al[FirstSuffixKey(al, base).value], base) != Link(m)
    ensures !r.updated ==> r.content == content
  {
    match FirstSuffixKey(al, base)
    case None => Rewrite(content, false)
    case Some(j) =>
      var hashLink := HashLink(al[j], base);
      if Link(m) == hashLink then Rewrite(content, false)
      else Rewrite(Splice(content, m, ReplaceFirst(m.text, Link(m), hashLink)), true)
  }

  /** One pattern applied to the content of a file: at most one substitution,
      inside the first match of the pattern. A pattern that does not match
      leaves the content alone, and the content changes only when `updated`
      is set. */
  function ApplyPattern(al: seq<Entry>, hash: Option<Matcher>, content: string, find: Matcher): (r: Rewrite)
    requires WellFormed(find) && (hash.Some? ==> WellFormed(hash.value))
    ensures find(content).None? ==> r == Rewrite(content, false)
    ensures find(content).Some? ==> MatchesIn(content, find(content).value)
    ensures !r.updated ==> r.content == content
  {
    match find(content)
    case None => Rewrite(content, false)
    case Some(m) => Relink(al, content, m, BaseLink(Link(m), hash))
  }

  /** A substitution puts the versioned link cut from the first matching key's
      value in place of the first occurrence of the reference inside the match;
      the rest of the content is kept. */
  lemma RelinkSubstitutes(al: seq<Entry>, content: string, m: RegexMatch, base: string, k: nat)
    requires MatchesIn(content, m) && Relink(al, content, m, base).updated
    requires FirstOccurrence(m.text, Link(m), k)
    ensures FirstSuffixKey(al, base).Some?
    ensures var j := FirstSuffixKey(al, base).value;
            var hashLink := HashLink(al[j], base);
            && EndsWith(al[j].key, base)
            && hashLink != Link(m)
            && Relink(al, content, m, base).content
               == content[..m.start] + m.text[..k] + hashLink + m.text[k + |Link(m)|..]
                  + content[m.start + |m.text|..]
  {
    RelinkSplice(al, content, m, base, HashLink(al[FirstSuffixKey(al, base).value], base), k);
  }

  /** An update splices the match back with its first occurrence of the link
      replaced by the versioned link. */
  lemma RelinkSplice(al: seq<Entry>, content: string, m: RegexMatch, base: string, hashLink: string, k: nat)
    requires MatchesIn(content, m) && Relink(al, content, m, base).updated
    requires hashLink == HashLink(al[FirstSuffixKey(al, base).value], base)
    requires FirstOccurrence(m.text, Link(m), k)
    ensures Relink(al, content, m, base).content
            == content[..m.start] + m.text[..k] + hashLink + m.text[k + |Link(m)|..] + content[m.start + |m.text|..]
  {
    assert Relink(al, content, m, base).content == Splice(content, m, ReplaceFirst(m.text, Link(m), hashLink));
    SpliceReplaced(content, m, Link(m), hashLink, k);
  }

  /** Replacing the first occurrence of `a` inside a match and splicing the
      match back, spelled out piece by piece. */
  lemma SpliceReplaced(s: string, m: RegexMatch, a: string, b: string, k: nat)
    requires MatchesIn(s, m) && FirstOccurrence(m.text, a, k)
    ensures Splice(s, m, ReplaceFirst(m.text, a, b))
            == s[..m.start] + m.text[..k] + b + m.text[k + |a|..] + s[m.start + |m.text|..]
  {
    var inner := ReplaceFirst(m.text, a, b);
    var x, y := m.text[..k], m.text[k + |a|..];
    assert inner == x + b + y;
    var pre, post := s[..m.start], s[m.start + |m.text|..];
    assert Splice(s, m, inner) == pre + inner + post;
    ConcatRegroup(pre, x, b, y, post);
  }

  lemma ConcatRegroup<T>(p: seq<T>, x: seq<T>, b: seq<T>, y: seq<T>, q: seq<T>)
    ensures p + (x + b + y) + q == p + x + b + y + q
  {
  }

  /** When the reference really occurs in the match and the link differs, the
      content changes. */
  lemma RelinkChanges(al: seq<Entry>, content: string, m: RegexMatch, base: string, k: int)
    requires MatchesIn(content, m) && OccursAt(m.text, Link(m), k)
    ensures Relink(al, content, m, base).updated ==> Relink(al, content, m, base).content != content
  {
    if Relink(al, content, m, base).updated {
      var j := FirstSuffixKey(al, base).value;
      var hashLink := HashLink(al[j], base);
      ReplaceFirstChanges(m.text, Link(m), hashLink, k);
      SpliceChanges(content, m, ReplaceFirst(m.text, Link(m), hashLink));
    }
  }

  /** Relinking is idempotent: in the relinked content, the rewritten match
      that reports the versioned link just written as its link, and whose
      reference reduces to the same base, is left alone. An empty versioned
      link is excluded: a group that matched nothing reports the whole match
      as the link. */
  lemma RelinkIdempotent(al: seq<Entry>, content: string, m: RegexMatch, base: string)
    requires MatchesIn(content, m) && Relink(al, content, m, base).updated
    ensures var hashLink := HashLink(al[FirstSuffixKey(al, base).value], base);
            var m' := RegexMatch(m.start, ReplaceFirst(m.text, Link(m), hashLink), Some(hashLink));
            var out := Relink(al, content, m, base).content;
            && MatchesIn(out, m')
            && (hashLink != "" ==> Relink(al, out, m', base) == Rewrite(out, false))
  {
  }

  /** Splicing in anything but the matched text changes the string. */
  lemma SpliceChanges(s: string, m: RegexMatch, x: string)
    requires MatchesIn(s, m) && x != m.text
    ensures Splice(s, m, x) != s
  {
    var r := Splice(s, m, x);
    if |x| == |m.text| {
      assert r[m.start..m.start + |x|] == x;
      assert s[m.start..m.start + |m.text|] == m.text;
    }
  }

  /** The loop over the patterns, in order: each one sees the content as the
      earlier ones left it. Once set, `updated` stays set; and while it is
      clear the content is exactly what the file held. */
  function RewriteRun(al: seq<Entry>, hash: Option<Matcher>, acc: Rewrite, patterns: seq<NamedPattern>): (r: Rewrite)
    requires PatternsWellFormed(patterns, hash)
    ensures acc.updated ==> r.updated
    ensures !r.updated ==> r.content == acc.content
    decreases |patterns|
  {
    if patterns == [] then acc
    else
      var step := ApplyPattern(al, hash, acc.content, patterns[0].find);
      RewriteRun(al, hash, Rewrite(step.content, acc.updated || step.updated), patterns[1..])
  }

  /** Running two lists of patterns one after the other is running them
      together. */
  lemma {:induction false} RewriteRunConcat(al: seq<Entry>, hash: Option<Matcher>, acc: Rewrite,
                                            ps: seq<NamedPattern>, qs: seq<NamedPattern>)
    requires PatternsWellFormed(ps + qs, hash)
    ensures PatternsWellFormed(ps, hash) && PatternsWellFormed(qs, hash)
    ensures RewriteRun(al, hash, acc, ps + qs) == RewriteRun(al, hash, RewriteRun(al, hash, acc, ps), qs)
    decreases |ps|
  {
    assert forall p :: p in ps ==> p in ps + qs;
    assert forall p :: p in qs ==> p in ps + qs;
    if ps == [] {
      assert ps + qs == qs;
    } else {
      assert (ps + qs)[0] == ps[0];
      assert (ps + qs)[1..] == ps[1..] + qs;
      var step := ApplyPattern(al, hash, acc.content, ps[0].find);
      RewriteRunConcat(al, hash, Rewrite(step.content, acc.updated || step.updated), ps[1..], qs);
    }
  }

  /** The search over the summary's keys, stopping at the first key that ends
      with `base`. */
  method FindKey(summary: Summary, base: string) returns (found: Option<nat>)
    ensures found == FirstSuffixKey(summary.entries, base)
  {
    found := None;
    var i := 0;
    while i < |summary.entries|
      invariant i <= |summary.entries|
      invariant FirstSuffixKeyFrom(summary.entries, base, i) == FirstSuffixKey(summary.entries, base)
    {
      if EndsWith(summary.entries[i].key, base) {
        found := Some(i);
        break;
      }
      i := i + 1;
    }
  }

  /** One pattern: its first match, the reference in it, the search of the
      summary and, when the link differs, the substitution. */
  method LinkPattern(summary: Summary, hash: Option<Matcher>, find: Matcher, text: string) returns (r: Rewrite)
    requires WellFormed(find) && (hash.Some? ==> WellFormed(hash.value))
    ensures r == ApplyPattern(summary.entries, hash, text, find)
  {
    var content := text;
    var updated := false;
    var found := find(content);
    if found.Some? {
      var m := found.value;
      var replacement := m.text;
      var lastLink := Link(m);
      var baseLink := if hash.Some? then ReplaceFirstGroup(lastLink, hash.value, "") else lastLink;
      var key := FindKey(summary, baseLink);
      if key.Some? {
        var e := summary.entries[key.value];
        var hashLink := SliceFrom(e.value, |e.key| - |baseLink|);
        assert hashLink == HashLink(e, baseLink);
        if lastLink != hashLink {
          replacement := ReplaceFirst(replacement, lastLink, hashLink);
          content := Splice(content, m, replacement);
          updated := true;
        }
      }
    }
    r := Rewrite(content, updated);
  }

  /** The loop over the patterns for one file's content: each pattern sees the
      content as the earlier ones left it. */
  method RewriteContent(summary: Summary, hash: Option<Matcher>, patterns: seq<NamedPattern>, text: string)
    returns (content: string, updated: bool)
    requires PatternsWellFormed(patterns, hash)
    ensures Rewrite(content, updated) == RewriteRun(summary.entries, hash, Rewrite(text, false), patterns)
  {
    content, updated := text, false;
    var i := 0;
    while i < |patterns|
      invariant i <= |patterns|
      invariant RewriteRun(summary.entries, hash, Rewrite(content, updated), patterns[i..])
                == RewriteRun(summary.entries, hash, Rewrite(text, false), patterns)
    {
      assert patterns[i..][1..] == patterns[i + 1..];
      assert patterns[i] in patterns;
      var step := LinkPattern(summary, hash, patterns[i].find, content);
      content, updated := step.content, updated || step.updated;
      i := i + 1;
    }
    assert patterns[i..] == [];
  }

  /** A `grunt.file.write` the replace phase performs. */
  datatype Write = Write(path: string, content: string)

  /** The file system as the phase sees it, and the writes performed so far. */
  datatype Disk = Disk(files: map<string, string>, writes: seq<Write>)

  /** `file.src.filter(grunt.file.exists)`: the sources that exist, in order. */
  function ExistingFiles(src: seq<string>, fs: map<string, string>): (r: seq<string>)
    ensures |r| <= |src|
    ensures forall f :: f in r ==> f in src && f in fs
  {
    if src == [] then []
    else (if src[0] in fs then [src[0]] else []) + ExistingFiles(src[1..], fs)
  }

  /** The filter keeps exactly the sources that exist. */
  lemma {:induction false} ExistingFilesMembers(src: seq<string>, fs: map<string, string>)
    ensures forall f :: f in ExistingFiles(src, fs) <==> f in src && f in fs
  {
    if src != [] {
      ExistingFilesMembers(src[1..], fs);
      assert src == [src[0]] + src[1..];
    }
  }

  /** The filter keeps the order of the sources: it distributes over
      concatenation. */
  lemma {:induction false} ExistingFilesConcat(a: seq<string>, b: seq<string>, fs: map<string, string>)
    ensures ExistingFiles(a + b, fs) == ExistingFiles(a, fs) + ExistingFiles(b, fs)
  {
    if a != [] {
      assert (a + b)[0] == a[0] && (a + b)[1..] == a[1..] + b;
      ExistingFilesConcat(a[1..], b, fs);
    } else {
      assert a + b == b;
    }
  }

  /** When every source exists, nothing is filtered out. */
  lemma {:induction false} ExistingFilesAll(src: seq<string>, fs: map<string, string>)
    requires forall f :: f in src ==> f in fs
    ensures ExistingFiles(src, fs) == src
  {
    if src != [] {
      assert src[0] in src && forall f :: f in src[1..] ==> f in src;
      ExistingFilesAll(src[1..], fs);
      assert src == [src[0]] + src[1..];
    }
  }

  /** The filter keeps distinct sources distinct. */
  lemma {:induction false} ExistingFilesDistinct(src: seq<string>, fs: map<string, string>)
    requires Distinct(src)
    ensures Distinct(ExistingFiles(src, fs))
  {
    if src != [] {
      DistinctTail(src);
      ExistingFilesDistinct(src[1..], fs);
    }
  }

  /** `file.dest || filepath`: where a changed target is written. */
  function WritePath(dest: string, file: string): (r: string)
    ensures dest != "" ==> r == dest
    ensures dest == "" ==> r == file
  {
    if dest != "" then dest else file
  }

  /** The loop over a group's existing files: each is read, rewritten by all
      patterns, and written back only when some pattern changed it. A write is
      visible to later reads. No file disappears and the list of writes never
      shrinks; `FileRunWrites` shows the earlier writes are kept as they were. */
  function FileRun(al: seq<Entry>, hash: Option<Matcher>, patterns: seq<NamedPattern>, disk: Disk,
                   files: seq<string>, dest: string): (r: Disk)
    requires PatternsWellFormed(patterns, hash)
    requires forall f :: f in files ==> f in disk.files
    ensures disk.files.Keys <= r.files.Keys
    ensures |disk.writes| <= |r.writes|
    decreases |files|
  {
    if files == [] then disk
    else
      var f := files[0];
      var rw := RewriteRun(al, hash, Rewrite(disk.files[f], false), patterns);
      var path := WritePath(dest, f);
      var next := if rw.updated then Disk(disk.files[path := rw.content], disk.writes + [Write(path, rw.content)])
                  else disk;
      FileRun(al, hash, patterns, next, files[1..], dest)
  }

  /** Writes are only added, every file stays present, and each new write goes
      to the group's destination when it has one, or else to a file of the
      group itself. */
  lemma {:induction false} FileRunWrites(al: seq<Entry>, hash: Option<Matcher>, patterns: seq<NamedPattern>,
                                         disk: Disk, files: seq<string>, dest: string)
    requires PatternsWellFormed(patterns, hash)
    requires forall f :: f in files ==> f in disk.files
    ensures var r := FileRun(al, hash, patterns, disk, files, dest);
            && disk.files.Keys <= r.files.Keys
            && |disk.writes| <= |r.writes| && r.writes[..|disk.writes|] == disk.writes
            && forall i :: |disk.writes| <= i < |r.writes| ==>
                 (if dest != "" then r.writes[i].path == dest else r.writes[i].path in files)
    decreases |files|
  {
    if files != [] {
      var f := files[0];
      var rw := RewriteRun(al, hash, Rewrite(disk.files[f], false), patterns);
      var path := WritePath(dest, f);
      var next := if rw.updated then Disk(disk.files[path := rw.content], disk.writes + [Write(path, rw.content)])
                  else disk;
      FileRunWrites(al, hash, patterns, next, files[1..], dest);
      var r := FileRun(al, hash, patterns, next, files[1..], dest);
      assert r.writes[..|disk.writes|] == r.writes[..|next.writes|][..|disk.writes|];
      forall i | |disk.writes| <= i < |r.writes|
        ensures if dest != "" then r.writes[i].path == dest else r.writes[i].path in files
      {
        if i < |next.writes| {
          assert r.writes[i] == next.writes[i];
        } else {
          assert r.writes[i].path == dest || r.writes[i].path in files[1..];
        }
      }
    }
  }

  /** A group none of whose files any pattern changes writes nothing and
      leaves the files alone. */
  lemma {:induction false} FileRunNoUpdate(al: seq<Entry>, hash: Option<Matcher>, patterns: seq<NamedPattern>,
                                           disk: Disk, files: seq<string>, dest: string)
    requires PatternsWellFormed(patterns, hash)
    requires forall f :: f in files ==> f in disk.files
    requires forall f :: f in files ==> !RewriteRun(al, hash, Rewrite(disk.files[f], false), patterns).updated
    ensures FileRun(al, hash, patterns, disk, files, dest) == disk
    decreases |files|
  {
    if files != [] {
      assert forall f :: f in files[1..] ==> f in files;
      FileRunNoUpdate(al, hash, patterns, disk, files[1..], dest);
    }
  }

  /** The writes the loop over a group's files owes, read against one fixed
      file system: one per file that some pattern changed, in the order of the
      files, to `file.dest || filepath`, holding the rewritten content. */
  function ExpectedWrites(al: seq<Entry>, hash: Option<Matcher>, patterns: seq<NamedPattern>,
                          fs: map<string, string>, files: seq<string>, dest: string): seq<Write>
    requires PatternsWellFormed(patterns, hash)
    requires forall f :: f in files ==> f in fs
    decreases |files|
  {
    if files == [] then []
    else
      var rw := RewriteRun(al, hash, Rewrite(fs[files[0]], false), patterns);
      (if rw.updated then [Write(WritePath(dest, files[0]), rw.content)] else [])
      + ExpectedWrites(al, hash, patterns, fs, files[1..], dest)
  }

  /** `w` is the write owed to file `f`: some pattern changed `f`, and `w`
      carries the result to `f`'s write path. */
  ghost predicate WriteOwed(al: seq<Entry>, hash: Option<Matcher>, patterns: seq<NamedPattern>,
                            fs: map<string, string>, f: string, dest: string, w: Write)
    requires PatternsWellFormed(patterns, hash)
  {
    f in fs &&
    var rw := RewriteRun(al, hash, Rewrite(fs[f], false), patterns);
    rw.updated && w == Write(WritePath(dest, f), rw.content)
  }

  /** Every changed file is owed its write, and every owed write belongs to a
      changed file of the group. */
  lemma {:induction false} ExpectedWritesMembers(al: seq<Entry>, hash: Option<Matcher>, patterns: seq<NamedPattern>,
                                                 fs: map<string, string>, files: seq<string>, dest: string)
    requires PatternsWellFormed(patterns, hash)
    requires forall f :: f in files ==> f in fs
    ensures forall f :: f in files && RewriteRun(al, hash, Rewrite(fs[f], false), patterns).updated ==>
              Write(WritePath(dest, f), RewriteRun(al, hash, Rewrite(fs[f], false), patterns).content)
                in ExpectedWrites(al, hash, patterns, fs, files, dest)
    ensures forall w :: w in ExpectedWrites(al, hash, patterns, fs, files, dest) ==>
              exists f :: f in files && WriteOwed(al, hash, patterns, fs, f, dest, w)
    decreases |files|
  {
    if files != [] {
      assert forall f :: f in files[1..] ==> f in files;
      ExpectedWritesMembers(al, hash, patterns, fs, files[1..], dest);
      assert files == [files[0]] + files[1..];
      var rw := RewriteRun(al, hash, Rewrite(fs[files[0]], false), patterns);
      if rw.updated {
        assert WriteOwed(al, hash, patterns, fs, files[0], dest, Write(WritePath(dest, files[0]), rw.content));
      }
    }
  }

  /** Written in place, a file that no pattern changed is never written. */
  lemma {:induction false} ExpectedWritesSkip(al: seq<Entry>, hash: Option<Matcher>, patterns: seq<NamedPattern>,
                                              fs: map<string, string>, files: seq<string>, f: string)
    requires PatternsWellFormed(patterns, hash)
    requires forall g :: g in files ==> g in fs
    requires f in fs && !RewriteRun(al, hash, Rewrite(fs[f], false), patterns).updated
    ensures forall w :: w in ExpectedWrites(al, hash, patterns, fs, files, "") ==> w.path != f
    decreases |files|
  {
    if files != [] {
      assert forall g :: g in files[1..] ==> g in files;
      ExpectedWritesSkip(al, hash, patterns, fs, files[1..], f);
    }
  }

  /** The owed writes depend only on the contents of the group's files. */
  lemma {:induction false} ExpectedWritesFrame(al: seq<Entry>, hash: Option<Matcher>, patterns: seq<NamedPattern>,
                                               fs: map<string, string>, fs': map<string, string>,
                                               files: seq<string>, dest: string)
    requires PatternsWellFormed(patterns, hash)
    requires forall f :: f in files ==> f in fs && f in fs' && fs[f] == fs'[f]
    ensures ExpectedWrites(al, hash, patterns, fs, files, dest) == ExpectedWrites(al, hash, patterns, fs', files, dest)
    decreases |files|
  {
    if files != [] {
      assert files[0] in files && forall f :: f in files[1..] ==> f in files;
      ExpectedWritesFrame(al, hash, patterns, fs, fs', files[1..], dest);
    }
  }

  /** Writing the first file of distinct files, to its own path or to a
      destination that is none of them, leaves the other files as they were. */
  lemma WriteKeepsOthers(fs: map<string, string>, files: seq<string>, dest: string, content: string)
    requires files != [] && Distinct(files) && (dest == "" || dest !in files)
    requires forall f :: f in files ==> f in fs
    ensures forall g :: g in files[1..] ==>
              g in fs[WritePath(dest, files[0]) := content] && fs[WritePath(dest, files[0]) := content][g] == fs[g]
  {
    DistinctTail(files);
    assert forall g :: g in files[1..] ==> g in files;
  }

  /** When the group's files are distinct and its destination is none of them,
      no write is read back, so the loop performs exactly the owed writes,
      computed from the files as they were before the loop. */
  lemma {:induction false} FileRunWritesExactly(al: seq<Entry>, hash: Option<Matcher>, patterns: seq<NamedPattern>,
                                                disk: Disk, files: seq<string>, dest: string)
    requires PatternsWellFormed(patterns, hash)
    requires forall f :: f in files ==> f in disk.files
    requires Distinct(files) && (dest == "" || dest !in files)
    ensures FileRun(al, hash, patterns, disk, files, dest).writes
            == disk.writes + ExpectedWrites(al, hash, patterns, disk.files, files, dest)
    decreases |files|, 1
  {
    if files != [] {
      var rw := RewriteRun(al, hash, Rewrite(disk.files[files[0]], false), patterns);
      DistinctTail(files);
      assert forall g :: g in files[1..] ==> g in files;
      if rw.updated {
        FileRunWritesUpdated(al, hash, patterns, disk, files, dest);
      } else {
        FileRunWritesExactly(al, hash, patterns, disk, files[1..], dest);
        assert FileRun(al, hash, patterns, disk, files, dest) == FileRun(al, hash, patterns, disk, files[1..], dest);
        assert ExpectedWrites(al, hash, patterns, disk.files, files, dest)
               == ExpectedWrites(al, hash, patterns, disk.files, files[1..], dest);
      }
    }
  }

  /** The step of `FileRunWritesExactly` for a first file that some pattern
      changed: its write is owed, and the rest of the files still hold what
      they held. */
  lemma {:induction false} FileRunWritesUpdated(al: seq<Entry>, hash: Option<Matcher>, patterns: seq<NamedPattern>,
                                                disk: Disk, files: seq<string>, dest: string)
    requires PatternsWellFormed(patterns, hash)
    requires forall f :: f in files ==> f in disk.files
    requires Distinct(files) && (dest == "" || dest !in files)
    requires files != [] && RewriteRun(al, hash, Rewrite(disk.files[files[0]], false), patterns).updated
    ensures FileRun(al, hash, patterns, disk, files, dest).writes
            == disk.writes + ExpectedWrites(al, hash, patterns, disk.files, files, dest)
    decreases |files|, 0
  {
    var rw := RewriteRun(al, hash, Rewrite(disk.files[files[0]], false), patterns);
    var path := WritePath(dest, files[0]);
    var w := Write(path, rw.content);
    var next := Disk(disk.files[path := rw.content], disk.writes + [w]);
    var tail := ExpectedWrites(al, hash, patterns, disk.files, files[1..], dest);
    var rest := FileRun(al, hash, patterns, next, files[1..], dest);
    assert rest.writes == next.writes + tail by {
      DistinctTail(files);
      assert forall g :: g in files[1..] ==> g in files;
      WriteKeepsOthers(disk.files, files, dest, rw.content);
      FileRunWritesExactly(al, hash, patterns, next, files[1..], dest);
      ExpectedWritesFrame(al, hash, patterns, disk.files, next.files, files[1..], dest);
    }
    assert FileRun(al, hash, patterns, disk, files, dest) == rest;
    assert ExpectedWrites(al, hash, patterns, disk.files, files, dest) == [w] + tail;
    AppendAssoc(disk.writes, [w], tail);
  }

  /** The loop over the groups: the existence filter of each group runs on the
      files as the earlier groups left them. No file disappears and the list
      of writes never shrinks; `GroupsRunWrites` shows the earlier writes are
      kept as they were. */
  function GroupsRun(al: seq<Entry>, hash: Option<Matcher>, patterns: seq<NamedPattern>, disk: Disk,
                     groups: seq<FileGroup>): (r: Disk)
    requires PatternsWellFormed(patterns, hash)
    ensures disk.files.Keys <= r.files.Keys
    ensures |disk.writes| <= |r.writes|
    decreases |groups|
  {
    if groups == [] then disk
    else
      var g := groups[0];
      ExistingFilesMembers(g.src, disk.files);
      var next := FileRun(al, hash, patterns, disk, ExistingFiles(g.src, disk.files), g.dest);
      GroupsRun(al, hash, patterns, next, groups[1..])
  }

  /** Running more groups only appends writes and never removes a file; every
      new write goes to the destination of some group, or to a source of a
      group written in place. */
  lemma {:induction false} GroupsRunWrites(al: seq<Entry>, hash: Option<Matcher>, patterns: seq<NamedPattern>,
                                           disk: Disk, groups: seq<FileGroup>)
    requires PatternsWellFormed(patterns, hash)
    ensures var r := GroupsRun(al, hash, patterns, disk, groups);
            && disk.files.Keys <= r.files.Keys
            && |disk.writes| <= |r.writes| && r.writes[..|disk.writes|] == disk.writes
            && forall i :: |disk.writes| <= i < |r.writes| ==>
                 exists g :: g in groups && (if g.dest != "" then r.writes[i].path == g.dest else r.writes[i].path in g.src)
    decreases |groups|
  {
    if groups != [] {
      var g := groups[0];
      ExistingFilesMembers(g.src, disk.files);
      var files := ExistingFiles(g.src, disk.files);
      var next := FileRun(al, hash, patterns, disk, files, g.dest);
      FileRunWrites(al, hash, patterns, disk, files, g.dest);
      GroupsRunWrites(al, hash, patterns, next, groups[1..]);
      var r := GroupsRun(al, hash, patterns, next, groups[1..]);
      assert r.writes[..|disk.writes|] == r.writes[..|next.writes|][..|disk.writes|];
      assert g in groups;
      forall i | |disk.writes| <= i < |r.writes|
        ensures exists h :: h in groups && (if h.dest != "" then r.writes[i].path == h.dest else r.writes[i].path in h.src)
      {
        if i < |next.writes| {
          assert r.writes[i] == next.writes[i];
          assert if g.dest != "" then r.writes[i].path == g.dest else r.writes[i].path in g.src;
        } else {
          var h :| h in groups[1..] && (if h.dest != "" then r.writes[i].path == h.dest else r.writes[i].path in h.src);
          assert h in groups;
        }
      }
    }
  }

  /** The first group writes exactly what it owes, against the files as they
      were before it ran, when its sources are distinct and its destination is
      none of them; the later groups only append. Applied to each suffix of
      the groups, this describes every group's writes. */
  lemma GroupsRunFirst(al: seq<Entry>, hash: Option<Matcher>, patterns: seq<NamedPattern>,
                       disk: Disk, groups: seq<FileGroup>)
    requires PatternsWellFormed(patterns, hash)
    requires groups != [] && Distinct(groups[0].src) && (groups[0].dest == "" || groups[0].dest !in groups[0].src)
    ensures var owed := ExpectedWrites(al, hash, patterns, disk.files, ExistingFiles(groups[0].src, disk.files),
                                       groups[0].dest);
            var r := GroupsRun(al, hash, patterns, disk, groups);
            |disk.writes| + |owed| <= |r.writes| && r.writes[..|disk.writes| + |owed|] == disk.writes + owed
  {
    var g := groups[0];
    ExistingFilesMembers(g.src, disk.files);
    var files := ExistingFiles(g.src, disk.files);
    ExistingFilesDistinct(g.src, disk.files);
    FileRunWritesExactly(al, hash, patterns, disk, files, g.dest);
    var next := FileRun(al, hash, patterns, disk, files, g.dest);
    GroupsRunWrites(al, hash, patterns, next, groups[1..]);
  }

  /** When no pattern changes any existing source of any group, the phase
      writes nothing and leaves the files alone. */
  lemma {:induction false} GroupsRunNoUpdate(al: seq<Entry>, hash: Option<Matcher>, patterns: seq<NamedPattern>,
                                             disk: Disk, groups: seq<FileGroup>)
    requires PatternsWellFormed(patterns, hash)
    requires forall g, f :: g in groups && f in g.src && f in disk.files ==>
               !RewriteRun(al, hash, Rewrite(disk.files[f], false), patterns).updated
    ensures GroupsRun(al, hash, patterns, disk, groups) == disk
    decreases |groups|
  {
    if groups != [] {
      var g := groups[0];
      assert g in groups && forall h :: h in groups[1..] ==> h in groups;
      ExistingFilesMembers(g.src, disk.files);
      FileRunNoUpdate(al, hash, patterns, disk, ExistingFiles(g.src, disk.files), g.dest);
      GroupsRunNoUpdate(al, hash, patterns, disk, groups[1..]);
    }
  }

  /** The files of one group. */
  method ReplaceFiles(summary: Summary, hash: Option<Matcher>, patterns: seq<NamedPattern>, disk: Disk,
                      files: seq<string>, dest: string)
    returns (r: Disk)
    requires PatternsWellFormed(patterns, hash)
    requires forall f :: f in files ==> f in disk.files
    ensures r == FileRun(summary.entries, hash, patterns, disk, files, dest)
  {
    var fs, writes := disk.files, disk.writes;
    var i := 0;
    while i < |files|
      invariant i <= |files|
      invariant disk.files.Keys <= fs.Keys
      invariant FileRun(summary.entries, hash, patterns, Disk(fs, writes), files[i..], dest)
                == FileRun(summary.entries, hash, patterns, disk, files, dest)
    {
      assert files[i..][1..] == files[i + 1..];
      var filepath := files[i];
      assert filepath in files;
      var content, updated := RewriteContent(summary, hash, patterns, fs[filepath]);
      if updated {
        var path := if dest != "" then dest else filepath;
        fs := fs[path := content];
        writes := writes + [Write(path, content)];
      }
      i := i + 1;
    }
    assert files[i..] == [];
    r := Disk(fs, writes);
  }

  /** The "replace" target: the separators of the summary are normalised,
      then every group's existing sources are rewritten. */
  method Replace(summary: Summary, sep: char, hash: Option<Matcher>, patterns: seq<NamedPattern>,
                 groups: seq<FileGroup>, fs: map<string, string>)
    returns (r: Disk)
    requires summary.Valid() && PatternsWellFormed(patterns, hash)
    modifies summary
    ensures summary.Valid()
    ensures summary.entries == if sep != '/' then Normalized(old(summary.entries), sep) else old(summary.entries)
    ensures r == GroupsRun(summary.entries, hash, patterns, Disk(fs, []), groups)
  {
    summary.NormalizeSeparators(sep);
    ghost var normalized := summary.entries;
    r := Disk(fs, []);
    var i := 0;
    while i < |groups|
      invariant i <= |groups|
      invariant summary.Valid() && summary.entries == normalized
      invariant GroupsRun(summary.entries, hash, patterns, r, groups[i..])
                == GroupsRun(summary.entries, hash, patterns, Disk(fs, []), groups)
    {
      assert groups[i..][1..] == groups[i + 1..];
      var g := groups[i];
      var files := ExistingFiles(g.src, r.files);
      ExistingFilesMembers(g.src, r.files);
      r := ReplaceFiles(summary, hash, patterns, r, files, g.dest);
      i := i + 1;
    }
    assert groups[i..] == [];
  }

  /** A reference that names a versioned file relative to some directory of
      its key is rewritten to the versioned name relative to the same
      directory, provided key and value share that directory. */
  lemma SharedPrefixHashLink(pre: string, name: string, n: string, x: string)
    requires |x| <= |pre| && pre[|pre| - |x|..] == x
    ensures HashLink(Entry(pre + name, pre + n), x + name) == x + n
  {
    var value := pre + n;
    assert value[|pre| - |x|..] == pre[|pre| - |x|..] + n;
  }

  /** For a file renamed in place, a link `x + name` to it, where `x` ends its
      directory part, becomes `x + newName`. */
  lemma InPlaceLinkRewritten(file: string, suffix: string, x: string)
    requires Clean(file) && 0 < LastIndexOfChar(file, '/')
    requires '.' !in suffix && '/' !in suffix && Extname(file) != ""
    requires var pre := Dirname(file) + "/"; |x| <= |pre| && pre[|pre| - |x|..] == x
    ensures var e := Record(file, "", suffix);
            HashLink(e, x + Basename(file)) == x + NewName(file, suffix)
  {
    var pre := Dirname(file) + "/";
    InPlaceEntry(file, suffix);
    EntryHashLink(Record(file, "", suffix), pre, Basename(file), NewName(file, suffix), x);
  }

  /** `SharedPrefixHashLink` for an entry given by name. */
  lemma EntryHashLink(e: Entry, pre: string, name: string, n: string, x: string)
    requires e == Entry(pre + name, pre + n)
    requires |x| <= |pre| && pre[|pre| - |x|..] == x
    ensures HashLink(e, x + name) == x + n
  {
    SharedPrefixHashLink(pre, name, n, x);
  }

  /** For a file copied into a directory whose path length differs from its
      own directory's, the link `name` is rewritten to a string that is not
      the versioned name: the slice offset is taken from the key, not from the
      value. */
  lemma CopiedLinkMisaligned(file: string, copyDir: string, suffix: string)
    requires Clean(file) && Clean(copyDir) && 0 < LastIndexOfChar(file, '/')
    requires '.' !in suffix && '/' !in suffix && Extname(file) != ""
    requires |copyDir| != |Dirname(file)|
    ensures HashLink(Record(file, copyDir, suffix), Basename(file)) != NewName(file, suffix)
  {
    CopiedEntry(file, copyDir, suffix);
    NewNamePlain(file, suffix);
    MisalignedLink(Dirname(file), Basename(file), copyDir, NewName(file, suffix));
  }

  /** Cutting the value `c/n` at the offset where `name` starts in the key
      `d/name` gives `n` back only when the two directories are equally long. */
  lemma MisalignedLink(d: string, name: string, c: string, n: string)
    requires |c| != |d| && n != ""
    ensures HashLink(Entry(d + "/" + name, c + "/" + n), name) != n
  {
    var value := c + "/" + n;
    var h := HashLink(Entry(d + "/" + name, value), name);
    if |d| + 1 <= |value| {
      assert |h| == |value| - |d| - 1;
    } else {
      assert h == "";
    }
  }
}
