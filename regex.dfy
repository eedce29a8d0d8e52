/** Regular expressions as filever_replace uses them. Pattern matching itself is not
    modelled: a pattern is a deterministic first-match oracle. What is modelled
    is what the plugin builds on top of a match: `reEscape`, which quotes a
    string for use inside a pattern, and `replaceFirstGroup`. */
module Regex {
  import opened JsString
  import opened Wrappers

  /** The result of `pattern.exec(s)`: where the first match starts, its text
      (`match[0]`) and the first capture group (`match[1]`, None when absent). */
  datatype RegexMatch = RegexMatch(start: nat, text: string, group: Option<string>)

  /** A non-global pattern, seen only through its first match. */
  type Matcher = string -> Option<RegexMatch>

  /** The match really is a piece of `s` at the position it claims. */
  ghost predicate MatchesIn(s: string, m: RegexMatch)
  {
    m.start + |m.text| <= |s| && s[m.start..m.start + |m.text|] == m.text
  }

  /** A matcher that behaves like a regex engine: every match it reports lies in
      the string it was given. */
  ghost predicate WellFormed(find: Matcher)
  {
    forall s :: find(s).Some? ==> MatchesIn(s, find(s).value)
  }

  /** `match[1] || match[0]`: the capture group unless it is absent or empty. */
  function Link(m: RegexMatch): (r: string)
    ensures m.group.Some? && m.group.value != "" ==> r == m.group.value
    ensures m.group == None || m.group == Some("") ==> r == m.text
  {
    if m.group.Some? && m.group.value != "" then m.group.value else m.text
  }

  /** `s.replace(pattern, replacement)` once `pattern`'s first match `m` is
      known: the match is cut out and `replacement` put in its place. */
  function Splice(s: string, m: RegexMatch, replacement: string): (r: string)
    requires MatchesIn(s, m)
    ensures |r| == |s| - |m.text| + |replacement|
    ensures r[..m.start] == s[..m.start]
    ensures r[m.start..m.start + |replacement|] == replacement
    ensures r[m.start + |replacement|..] == s[m.start + |m.text|..]
  {
    s[..m.start] + replacement + s[m.start + |m.text|..]
  }

  /** Putting the matched text back in place gives the string unchanged. */
  lemma SpliceSame(s: string, m: RegexMatch)
    requires MatchesIn(s, m)
    ensures Splice(s, m, m.text) == s
  {
    assert s == s[..m.start] + s[m.start..m.start + |m.text|] + s[m.start + |m.text|..];
  }

  /** The characters `reEscape` quotes: the ranges `$`..`/` and `[`..`^` and the
      characters `?`, `{`, `|`, `}` of its character class. */
  predicate IsRegexMeta(c: char)
  {
    ('$' <= c <= '/') || c == '?' || ('[' <= c <= '^') || c == '{' || c == '|' || c == '}'
  }

  /** The number of characters of `s` that `reEscape` quotes. */
  function MetaCount(s: string): nat
  {
    if s == [] then 0 else (if IsRegexMeta(s[0]) then 1 else 0) + MetaCount(s[1..])
  }

  /** `reEscape(s)`: a backslash goes before every metacharacter. */
  function ReEscape(s: string): (r: string)
    ensures |r| == |s| + MetaCount(s)
  {
    if s == [] then []
    else (if IsRegexMeta(s[0]) then ['\\', s[0]] else [s[0]]) + ReEscape(s[1..])
  }

  /** A single character is escaped on its own: a backslash goes before it
      exactly when it is a metacharacter. */
  lemma ReEscapeChar(c: char)
    ensures ReEscape([c]) == if IsRegexMeta(c) then ['\\', c] else [c]
  {
    assert [c][1..] == [];
  }

  /** Escaping works character by character: it distributes over
      concatenation. With `ReEscapeChar` this fixes where every backslash
      goes. */
  lemma {:induction false} ReEscapeConcat(a: string, b: string)
    ensures ReEscape(a + b) == ReEscape(a) + ReEscape(b)
    decreases |a|
  {
    if a == [] {
      assert a + b == b;
    } else {
      assert (a + b)[0] == a[0] && (a + b)[1..] == a[1..] + b;
      ReEscapeConcat(a[1..], b);
      var head := if IsRegexMeta(a[0]) then ['\\', a[0]] else [a[0]];
      assert head + (ReEscape(a[1..]) + ReEscape(b)) == head + ReEscape(a[1..]) + ReEscape(b);
    }
  }

  /** Reading an escaped pattern back: a backslash stands for the character
      that follows it. */
  function Unescape(r: string): string
  {
    if r == [] then []
    else if r[0] == '\\' && |r| >= 2 then [r[1]] + Unescape(r[2..])
    else [r[0]] + Unescape(r[1..])
  }

  /** Dropping the backslashes `reEscape` inserted gives back the input. */
  lemma {:induction false} UnescapeReEscape(s: string)
    ensures Unescape(ReEscape(s)) == s
  {
    if s != [] {
      var rest := ReEscape(s[1..]);
      UnescapeReEscape(s[1..]);
      if IsRegexMeta(s[0]) {
        var r := ['\\', s[0]] + rest;
        assert r[2..] == rest;
        assert Unescape(r) == [s[0]] + Unescape(rest);
      } else {
        var r := [s[0]] + rest;
        assert r[1..] == rest;
        assert Unescape(r) == [s[0]] + Unescape(rest);
      }
      assert s == [s[0]] + s[1..];
    }
  }

  /** `reEscape` leaves a string alone exactly when it holds no metacharacter. */
  lemma {:induction false} ReEscapeIdentity(s: string)
    ensures ReEscape(s) == s <==> forall i :: 0 <= i < |s| ==> !IsRegexMeta(s[i])
  {
    if s != [] {
      ReEscapeIdentity(s[1..]);
      if IsRegexMeta(s[0]) {
        assert |ReEscape(s)| > |s|;
      } else {
        assert ReEscape(s) == [s[0]] + ReEscape(s[1..]);
        assert s == [s[0]] + s[1..];
        if ReEscape(s) == s {
          assert ReEscape(s[1..]) == s[1..];
        }
        assert (forall i :: 0 <= i < |s| ==> !IsRegexMeta(s[i])) <==>
               (forall i :: 0 <= i < |s[1..]| ==> !IsRegexMeta(s[1..][i]));
      }
    }
  }

  /** `replaceFirstGroup(s, pattern, replacement)`: inside the first match of
      the pattern, the first occurrence of the link (`match[1] || match[0]`)
      becomes `replacement`, and the changed match is put back in place. */
  function ReplaceFirstGroup(s: string, find: Matcher, replacement: string): (r: string)
    requires WellFormed(find)
    ensures find(s).None? ==> r == s
  {
    match find(s)
    case None => s
    case Some(m) => Splice(s, m, ReplaceFirst(m.text, Link(m), replacement))
  }

  /** Outside the first match nothing changes; inside it, the first occurrence
      of the link is replaced, and if the link does not occur the match is kept. */
  lemma ReplaceFirstGroupPreserves(s: string, find: Matcher, replacement: string)
    requires WellFormed(find) && find(s).Some?
    ensures var m := find(s).value;
            var r := ReplaceFirstGroup(s, find, replacement);
            var inner := ReplaceFirst(m.text, Link(m), replacement);
            && r[..m.start] == s[..m.start]
            && r[m.start + |inner|..] == s[m.start + |m.text|..]
            && r[m.start..m.start + |inner|] == inner
            && (forall k :: FirstOccurrence(m.text, Link(m), k) ==>
                  inner == m.text[..k] + replacement + m.text[k + |Link(m)|..])
            && ((forall k :: !OccursAt(m.text, Link(m), k)) ==> r == s)
  {
    var m := find(s).value;
    assert MatchesIn(s, m);
    if forall k :: !OccursAt(m.text, Link(m), k) {
      SpliceSame(s, m);
    }
  }
}
