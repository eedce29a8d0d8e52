/** The parts of Node's `path` module filever_replace calls, for `/`-separated
    paths of the shapes the plugin passes them: `basename`, `extname`,
    `dirname`, `normalize`, `join` and `resolve`.
    A path is split into segments at `/`; `normalize` drops empty and `.`
    segments and lets `..` cancel the segment before it. */
module PosixPath {

  /** The last position of `c` in `s`, or -1. */
  function LastIndexOfChar(s: string, c: char): (r: int)
    ensures -1 <= r < |s|
    ensures r >= 0 ==> s[r] == c && forall k :: r < k < |s| ==> s[k] != c
    ensures r == -1 ==> forall k :: 0 <= k < |s| ==> s[k] != c
  {
    if s == [] then -1
    else if s[|s| - 1] == c then |s| - 1
    else LastIndexOfChar(s[..|s| - 1], c)
  }

  /** The last position of a character in `a + b` when `b` does not hold it. */
  lemma LastIndexOfCharPrefix(a: string, b: string, c: char)
    requires c !in b
    ensures LastIndexOfChar(a + b, c) == LastIndexOfChar(a, c)
    decreases |b|
  {
    if b != [] {
      var s := a + b;
      assert s[..|s| - 1] == a + b[..|b| - 1];
      LastIndexOfCharPrefix(a, b[..|b| - 1], c);
    } else {
      assert a + b == a;
    }
  }

  /** `path.basename(p)`: what follows the last `/`. */
  function Basename(p: string): (r: string)
    ensures '/' !in r
    ensures |r| <= |p| && r == p[|p| - |r|..]
  {
    p[LastIndexOfChar(p, '/') + 1..]
  }

  /** `path.extname(p)`: the basename from its last `.` on; empty when there is
      no `.`, when the only `.` is the first character, and for `..`. */
  function Extname(p: string): (r: string)
    ensures r == "" || (r[0] == '.' && '.' !in r[1..])
    ensures |r| < |Basename(p)| || r == ""
    ensures r == Basename(p)[|Basename(p)| - |r|..]
  {
    var b := Basename(p);
    var dot := LastIndexOfChar(b, '.');
    if dot <= 0 || b == ".." then "" else b[dot..]
  }

  /** `path.basename(p, path.extname(p))`: the basename without its extension. */
  function Stem(p: string): (r: string)
    ensures r + Extname(p) == Basename(p)
    ensures '/' !in r
  {
    var b := Basename(p);
    var e := Extname(p);
    assert b == b[..|b| - |e|] + e;
    PrefixKeepsOut(b, |b| - |e|, '/');
    b[..|b| - |e|]
  }

  /** A character absent from a string is absent from its prefixes. */
  lemma PrefixKeepsOut(s: string, n: nat, c: char)
    requires n <= |s| && c !in s
    ensures c !in s[..n]
  {
    assert forall i :: 0 <= i < n ==> s[..n][i] == s[i] && s[i] in s;
  }

  /** `path.dirname(p)`: everything before the last `/`; `.` when there is no
      `/` and `/` when the only one is the first character. */
  function Dirname(p: string): (r: string)
    ensures r != ""
    ensures '/' !in p ==> r == "."
    ensures r == "." || r == "/" || (|r| < |p| && r == p[..|r|] && p[|r|] == '/')
  {
    var i := LastIndexOfChar(p, '/');
    if i == -1 then "." else if i == 0 then "/" else p[..i]
  }

  /** A relative path is the directory part, a `/`, and the basename. */
  lemma DirnameBasename(p: string)
    requires 0 < LastIndexOfChar(p, '/')
    ensures p == Dirname(p) + "/" + Basename(p)
  {
    var i := LastIndexOfChar(p, '/');
    assert p == p[..i] + [p[i]] + p[i + 1..];
  }

  /** The segments of `s` between the occurrences of `c`. */
  function Split(s: string, c: char): (r: seq<string>)
    ensures |r| >= 1
    ensures forall i :: 0 <= i < |r| ==> c !in r[i]
  {
    var i := LastIndexOfChar(s, c);
    if i == -1 then [s] else Split(s[..i], c) + [s[i + 1..]]
  }

  /** Segments put back together with `/` between them. */
  function JoinSegments(segs: seq<string>): string
  {
    if segs == [] then ""
    else if |segs| == 1 then segs[0]
    else JoinSegments(segs[..|segs| - 1]) + "/" + segs[|segs| - 1]
  }

  /** Splitting at `/` and joining back is the identity. */
  lemma {:induction false} JoinSplit(s: string)
    ensures JoinSegments(Split(s, '/')) == s
  {
    var i := LastIndexOfChar(s, '/');
    if i != -1 {
      JoinSplit(s[..i]);
      var front := Split(s[..i], '/');
      var segs := front + [s[i + 1..]];
      assert segs[..|segs| - 1] == front;
      assert s == s[..i] + "/" + s[i + 1..];
    }
  }

  /** One step of `normalizeString`: `.` and empty segments vanish, `..` removes
      the previous segment unless that one is `..` too, and otherwise is kept
      only when the path may climb above its start. */
  function NormalizeStep(acc: seq<string>, seg: string, aboveRoot: bool): seq<string>
  {
    if seg == "" || seg == "." then acc
    else if seg == ".." then
      (if |acc| > 0 && acc[|acc| - 1] != ".." then acc[..|acc| - 1]
       else if aboveRoot then acc + [".."] else acc)
    else acc + [seg]
  }

  /** `normalizeString` over a list of segments. */
  function NormalizeSegments(acc: seq<string>, segs: seq<string>, aboveRoot: bool): seq<string>
    decreases |segs|
  {
    if segs == [] then acc
    else NormalizeSegments(NormalizeStep(acc, segs[0], aboveRoot), segs[1..], aboveRoot)
  }

  /** A segment that normalisation keeps as it is. */
  predicate PlainSegment(seg: string)
  {
    seg != "" && seg != "." && seg != ".."
  }

  /** A relative path made of plain segments only, like `css/app.css`. */
  predicate Clean(p: string)
  {
    forall seg :: seg in Split(p, '/') ==> PlainSegment(seg)
  }

  /** Plain segments pass through normalisation unchanged. */
  lemma {:induction false} NormalizePlainSegments(acc: seq<string>, segs: seq<string>, aboveRoot: bool)
    requires forall i :: 0 <= i < |segs| ==> PlainSegment(segs[i])
    ensures NormalizeSegments(acc, segs, aboveRoot) == acc + segs
    decreases |segs|
  {
    if segs != [] {
      NormalizePlainSegments(acc + [segs[0]], segs[1..], aboveRoot);
      assert acc + [segs[0]] + segs[1..] == acc + segs;
    }
  }

  /** `path.normalize(p)`: never empty, absolute when `p` is, and a
      clean path is already normal. */
  function Normalize(p: string): (r: string)
    ensures r != ""
    ensures p != "" && p[0] == '/' ==> r[0] == '/'
    ensures Clean(p) ==> r == p
  {
    assert Clean(p) ==> p != "" && p[0] != '/' && p[|p| - 1] != '/'
                        && JoinSegments(NormalizeSegments([], Split(p, '/'), true)) == p by {
      if Clean(p) {
        CleanBody(p);
        CleanEnds(p);
      }
    }
    if p == "" then "."
    else
      var absolute := p[0] == '/';
      var trailing := p[|p| - 1] == '/';
      var body := JoinSegments(NormalizeSegments([], Split(p, '/'), !absolute));
      if body == "" then (if absolute then "/" else if trailing then "./" else ".")
      else (if absolute then "/" else "") + body + (if trailing then "/" else "")
  }

  /** The first segment of `p` is empty exactly when `p` starts with `/`. */
  lemma {:induction false} SplitFirst(p: string)
    requires p != ""
    ensures Split(p, '/')[0] == "" <==> p[0] == '/'
    decreases |p|
  {
    var i := LastIndexOfChar(p, '/');
    if i == 0 {
      assert Split(p, '/') == Split("", '/') + [p[1..]];
    } else if i > 0 {
      SplitFirst(p[..i]);
      var front := Split(p[..i], '/');
      assert Split(p, '/') == front + [p[i + 1..]];
      assert p[..i][0] == p[0];
    }
  }

  /** The last segment of `p` is empty exactly when `p` ends with `/`. */
  lemma SplitLast(p: string)
    requires p != ""
    ensures var segs := Split(p, '/'); segs[|segs| - 1] == "" <==> p[|p| - 1] == '/'
  {
    var i := LastIndexOfChar(p, '/');
    if i != -1 {
      var segs := Split(p, '/');
      assert segs[|segs| - 1] == p[i + 1..];
    }
  }

  /** Normalising the segments of a clean path and joining them gives it back. */
  lemma CleanBody(p: string)
    requires Clean(p)
    ensures JoinSegments(NormalizeSegments([], Split(p, '/'), true)) == p
  {
    var segs := Split(p, '/');
    forall i | 0 <= i < |segs| ensures PlainSegment(segs[i]) {
      assert segs[i] in segs;
    }
    NormalizePlainSegments([], segs, true);
    assert [] + segs == segs;
    JoinSplit(p);
  }

  /** A clean path is not empty and neither starts nor ends with `/`. */
  lemma CleanEnds(p: string)
    requires Clean(p)
    ensures p != "" && p[0] != '/' && p[|p| - 1] != '/'
  {
    EmptyNotClean();
    SplitFirst(p);
    SplitLast(p);
    var segs := Split(p, '/');
    assert segs[0] in segs && segs[|segs| - 1] in segs;
  }

  /** `path.join(dir, name)`: the two joined with `/`, then normalised. The
      result is never empty, and joining a clean directory with a plain name
      only inserts the `/`. */
  function Join(dir: string, name: string): (r: string)
    ensures r != ""
    ensures Clean(dir) && PlainSegment(name) && '/' !in name ==> r == dir + "/" + name
  {
    assert Clean(dir) && PlainSegment(name) && '/' !in name ==> Clean(dir + "/" + name) by {
      if Clean(dir) && PlainSegment(name) && '/' !in name {
        SplitConcat(dir, name);
      }
    }
    EmptyNotClean();
    var joined := if dir == "" then name else if name == "" then dir else dir + "/" + name;
    if joined == "" then "." else Normalize(joined)
  }

  /** Splitting distributes over a `/` between two parts. */
  lemma {:induction false} SplitConcat(a: string, b: string)
    requires '/' !in b
    ensures Split(a + "/" + b, '/') == Split(a, '/') + [b]
  {
    var s := a + "/" + b;
    var i := LastIndexOfChar(s, '/');
    assert s[|a|] == '/';
    assert forall k :: |a| < k < |s| ==> s[k] == b[k - |a| - 1];
    assert i == |a|;
    assert s[..i] == a && s[i + 1..] == b;
  }

  /** The empty path is not clean: its one segment is empty. */
  lemma EmptyNotClean()
    ensures !Clean("")
  {
    assert LastIndexOfChar("", '/') == -1;
    assert "" in Split("", '/');
  }

  /** `./name` splits into `.` and the name. */
  lemma SplitDot(name: string)
    requires '/' !in name
    ensures Split("." + "/" + name, '/') == [".", name]
  {
    SplitConcat(".", name);
    SplitNoSlash(".");
  }

  /** A path without `/` is a single segment. */
  lemma SplitNoSlash(s: string)
    requires '/' !in s
    ensures Split(s, '/') == [s]
  {
    assert LastIndexOfChar(s, '/') == -1;
  }

  /** Joining `.` with a plain name gives the name itself. */
  lemma JoinDot(name: string)
    requires PlainSegment(name) && '/' !in name
    ensures Join(".", name) == name
  {
    var p := "." + "/" + name;
    SplitDot(name);
    assert NormalizeSegments([], [".", name], true) == [name] by {
      assert NormalizeStep([], ".", true) == [];
      assert [".", name][1..] == [name];
      assert NormalizeSegments([], [name], true) == [name];
    }
    assert p[0] == '.' && p[|p| - 1] == name[|name| - 1] != '/';
  }

  /** `path.resolve(dir, name)` against the working directory `cwd`: the
      arguments are read from the right until one is absolute, joined, and
      normalised into an absolute path. */
  function Resolve(cwd: string, dir: string, name: string): (r: string)
    ensures r != ""
    ensures (cwd != "" && cwd[0] == '/') || (dir != "" && dir[0] == '/') || (name != "" && name[0] == '/')
            ==> r[0] == '/'
  {
    var joined := if name != "" && name[0] == '/' then name
                  else if dir != "" && dir[0] == '/' then dir + "/" + name
                  else cwd + "/" + dir + "/" + name;
    var absolute := joined != "" && joined[0] == '/';
    var body := JoinSegments(NormalizeSegments([], Split(joined, '/'), !absolute));
    if absolute then "/" + body else if body == "" then "." else body
  }
}
