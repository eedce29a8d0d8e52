/** The few JavaScript string operations filever_replace relies on, with their
    ECMAScript meaning written out: `indexOf` with a start offset, `replace`
    with a string pattern (first occurrence only), `slice`, and a global
    replace of one literal character. */
module JsString {

  /** `t` occurs in `s` starting at position `k`. */
  ghost predicate OccursAt(s: string, t: string, k: int)
  {
    0 <= k && k + |t| <= |s| && s[k..k + |t|] == t
  }

  /** `k` is the first position at which `t` occurs in `s`. */
  ghost predicate FirstOccurrence(s: string, t: string, k: int)
  {
    OccursAt(s, t, k) && forall j :: 0 <= j < k ==> !OccursAt(s, t, j)
  }

  /** `s.indexOf(t, from)` for an offset already inside `0..|s|`: the first
      position at or after `from` where `t` occurs, or -1. */
  function IndexOfFrom(s: string, t: string, from: nat): (r: int)
    requires from <= |s|
    ensures r == -1 || (from <= r && OccursAt(s, t, r))
    ensures r == -1 <==> forall k :: from <= k ==> !OccursAt(s, t, k)
    ensures r != -1 ==> forall k :: from <= k < r ==> !OccursAt(s, t, k)
    decreases |s| - from
  {
    if from + |t| > |s| then -1
    else if s[from..from + |t|] == t then from
    else IndexOfFrom(s, t, from + 1)
  }

  /** `s.indexOf(t, from)` with ECMAScript's clamping of the offset into
      `0..|s|`: the first occurrence at or after the clamped offset, or -1. */
  function IndexOf(s: string, t: string, from: int): (r: int)
    ensures var start := if from < 0 then 0 else if from > |s| then |s| else from;
            && (r == -1 <==> forall k :: start <= k ==> !OccursAt(s, t, k))
            && (r != -1 ==> start <= r && OccursAt(s, t, r) && forall k :: start <= k < r ==> !OccursAt(s, t, k))
  {
    IndexOfFrom(s, t, if from < 0 then 0 else if from > |s| then |s| else from)
  }

  /** The plugin's `endsWith`: a search for `t` that starts `|t|` characters
      before the end of `s`. */
  function EndsWith(s: string, t: string): bool
  {
    IndexOf(s, t, |s| - |t|) != -1
  }

  /** `EndsWith` is exactly the suffix test, including the empty suffix and a
      suffix longer than the string. */
  lemma EndsWithIsSuffix(s: string, t: string)
    ensures EndsWith(s, t) <==> |t| <= |s| && s[|s| - |t|..] == t
    ensures t == [] ==> EndsWith(s, t)
    ensures |t| > |s| ==> !EndsWith(s, t)
  {
    if |t| <= |s| {
      var k := |s| - |t|;
      assert OccursAt(s, t, k) <==> s[k..] == t;
      if !OccursAt(s, t, k) {
        forall j | k <= j ensures !OccursAt(s, t, j) {
        }
      }
    } else {
      forall j | |s| <= j ensures !OccursAt(s, t, j) {
      }
    }
  }

  /** `s.replace(a, b)` with a string pattern: only the first occurrence of `a`
      is replaced (a replacement holding `$` patterns is not modelled). */
  function ReplaceFirst(s: string, a: string, b: string): (r: string)
    ensures (forall k :: !OccursAt(s, a, k)) ==> r == s
    ensures forall k :: FirstOccurrence(s, a, k) ==> r == s[..k] + b + s[k + |a|..]
  {
    var i := IndexOfFrom(s, a, 0);
    if i == -1 then s else s[..i] + b + s[i + |a|..]
  }

  /** Replacing an occurrence of `a` by something different changes the string. */
  lemma ReplaceFirstChanges(s: string, a: string, b: string, k: int)
    requires OccursAt(s, a, k) && a != b
    ensures ReplaceFirst(s, a, b) != s
  {
    var i := IndexOfFrom(s, a, 0);
    assert i != -1;
    SubstituteChanges(s, a, b, i);
  }

  /** Putting `b` in place of an occurrence of a different `a` changes the string. */
  lemma SubstituteChanges(s: string, a: string, b: string, i: int)
    requires OccursAt(s, a, i) && a != b
    ensures s[..i] + b + s[i + |a|..] != s
  {
    var r := s[..i] + b + s[i + |a|..];
    if |a| == |b| {
      var j :| 0 <= j < |a| && a[j] != b[j];
      assert r[i + j] == b[j];
      assert s[i + j] == a[j];
    } else {
      assert |r| != |s|;
    }
  }

  /** Index resolution shared by `slice`: a negative index counts from the end,
      and the result is clamped into `0..len`. */
  function RelativeIndex(len: nat, k: int): (r: nat)
    ensures r <= len
    ensures 0 <= k ==> r == if k < len then k else len
    ensures k < 0 ==> r == if len + k > 0 then len + k else 0
  {
    if k < 0 then (if len + k > 0 then len + k else 0)
    else if k < len then k else len
  }

  /** `s.slice(start, end)`. */
  function Slice(s: string, start: int, end: int): (r: string)
    ensures |r| <= |s|
    ensures 0 <= start <= end <= |s| ==> r == s[start..end]
  {
    var from := RelativeIndex(|s|, start);
    var to := RelativeIndex(|s|, end);
    if from < to then s[from..to] else ""
  }

  /** `s.slice(start)`. */
  function SliceFrom(s: string, start: int): (r: string)
    ensures |r| <= |s| && r == s[|s| - |r|..]
    ensures 0 <= start <= |s| ==> r == s[start..]
    ensures start > |s| ==> r == ""
  {
    s[RelativeIndex(|s|, start)..]
  }

  /** `s.replace(new RegExp(reEscape(c), 'g'), [d])`: every occurrence of the
      character `c` becomes `d`, nothing else changes. */
  function ReplaceChar(s: string, c: char, d: char): (r: string)
    ensures |r| == |s|
    ensures forall i :: 0 <= i < |s| ==> r[i] == if s[i] == c then d else s[i]
  {
    if s == [] then [] else [if s[0] == c then d else s[0]] + ReplaceChar(s[1..], c, d)
  }

  /** The global replace works piecewise, so it commutes with concatenation. */
  lemma ReplaceCharConcat(s: string, t: string, c: char, d: char)
    ensures ReplaceChar(s + t, c, d) == ReplaceChar(s, c, d) + ReplaceChar(t, c, d)
  {
    var l := ReplaceChar(s + t, c, d);
    var r := ReplaceChar(s, c, d) + ReplaceChar(t, c, d);
    assert |l| == |r|;
    forall i | 0 <= i < |l| ensures l[i] == r[i] {
      if i < |s| {
        assert (s + t)[i] == s[i];
      } else {
        assert (s + t)[i] == t[i - |s|];
      }
    }
  }

  /** Replacing every `c` by a different character leaves no `c` behind. */
  lemma ReplaceCharRemoves(s: string, c: char, d: char)
    requires c != d
    ensures c !in ReplaceChar(s, c, d)
  {
  }

  /** A string without `c` is left as it is. */
  lemma ReplaceCharAbsent(s: string, c: char, d: char)
    requires c !in s
    ensures ReplaceChar(s, c, d) == s
  {
    assert forall i :: 0 <= i < |s| ==> s[i] != c;
  }
}
