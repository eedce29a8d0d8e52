# grunt-filever-replace, modelled in Dafny

`filever_replace` is a Grunt multi-task with two targets that share one
object, `grunt.filever_replace.summary`. That object maps an original asset
path to its revisioned path.

* **version**: each source file gets a new name `<stem>.<suffix>.<ext>`.
  The suffix is the first `length` characters of a hex digest. The digest
  is computed over no data at all: the hash object is never fed a file. So
  every file of a run gets the same suffix. A file is
  renamed next to itself, or copied into the group's destination directory
  when the group has one. A destination that exists but is not a directory
  is a fatal error; a missing one is created. The summary records
  `path.normalize(file) -> path.join(dirname, newName)`.
* **replace**: on a host whose path separator is not `/`, the summary's keys
  and values are first rewritten to use `/`. Then, for every existing source
  file of every group, each pattern is applied once, in order. The
  reference a pattern captures (`match[1] || match[0]`) may be stripped by the
  optional `hash` pattern. It is then looked up among the summary's keys by
  suffix: the first key that ends with it wins. The versioned link is the
  tail of that key's value, cut at the same offset. When the link differs
  from the reference, the reference's first occurrence inside the match is
  replaced and the match is spliced back into the content. A file that some
  pattern changed is written to the group's `dest`, or back to itself.

The model has these modules:

| module | contents |
|---|---|
| `Wrappers` | `Option` |
| `JsString` | the JavaScript string operations the plugin relies on: `indexOf`, the plugin's `endsWith`, `replace` with a string pattern, `slice`, and a global single-character replace |
| `Regex` | a pattern as a first-match oracle; `reEscape`; `replaceFirstGroup`; the splice that `content.replace(pattern, replacement)` performs |
| `PosixPath` | `basename`, `extname`, `dirname`, `normalize`, `join` and `resolve` for `/`-separated paths, on the path shapes the plugin passes them |
| `AssetMap` | the summary as an association list with unique keys in insertion order; the class `Summary` whose methods get, set and delete properties and run the separator-normalisation loop |
| `Revisioner` | the version target: the new name, the destination check, the records, the file operations, and the method `Version` proved equal to the fold `VersionGroups` |
| `Rewriter` | the replace target: the key search, the link computation, one pattern, the pattern loop, the existence filter, the writes, and the methods `FindKey`, `LinkPattern`, `RewriteContent`, `ReplaceFiles` and `Replace`, each proved equal to its function |

Where the model fixes a behaviour that is easy to misread, the lemmas state
it outright:

* A key without the host separator is assigned and then deleted by the
  normalisation loop, so it is lost (`KeyWithoutSeparatorLost`). A summary
  that is normalised twice is therefore empty (`NormalizedTwiceEmpty`).
* For a file copied into a directory whose path length differs from the
  source directory's, the versioned link is cut at the wrong offset
  (`CopiedLinkMisaligned`).
* Take a file renamed in place, and a reference made of a tail of its
  directory part followed by its whole basename. Its own entry turns that
  reference into the same tail followed by the new name
  (`InPlaceLinkRewritten`). The lemma is about this entry's link only. It
  does not say that this entry's key is the first one ending with the
  reference.

## Model

| member | source | states |
|---|---|---|
| JsString.IndexOfFrom | tasks/filever_replace.js:15 | the result is the first position at or after `from` where `t` occurs, and it is -1 exactly when there is none |
| JsString.IndexOf | tasks/filever_replace.js:15 | `indexOf` clamps its start offset into the string; the result is the first occurrence at or after it, and -1 exactly when there is none |
| JsString.EndsWithIsSuffix | tasks/filever_replace.js:14-16 | the `indexOf`-based `endsWith` holds exactly when `t` is a suffix of `s`; the empty string is a suffix of everything, and a longer string never is |
| JsString.ReplaceFirst | tasks/filever_replace.js:141 | replacing with a string pattern changes only the first occurrence; with no occurrence the string is unchanged |
| JsString.ReplaceFirstChanges | tasks/filever_replace.js:138-143 | replacing an occurring `a` by a different `b` changes the string |
| JsString.SubstituteChanges | tasks/filever_replace.js:141 | putting `b` in place of an occurrence of a different `a` changes the string |
| JsString.Slice | tasks/filever_replace.js:34 | `slice(start, end)` is the substring for in-range indices, and never longer than the input |
| JsString.SliceFrom | tasks/filever_replace.js:137 | `slice(start)` is a suffix of the input: `s[start..]` in range, empty past the end |
| JsString.ReplaceChar | tasks/filever_replace.js:98-100 | the global replace keeps the length and maps each `c` to `d`, leaving every other character |
| JsString.ReplaceCharConcat | tasks/filever_replace.js:98-100 | the global replace distributes over concatenation |
| JsString.ReplaceCharRemoves | tasks/filever_replace.js:98-100 | after replacing `c` by a different character, no `c` is left |
| JsString.ReplaceCharAbsent | tasks/filever_replace.js:98-100 | a string without `c` is left unchanged |
| Regex.Link | tasks/filever_replace.js:129 | the reference is the capture group unless it is absent or empty, otherwise the whole match |
| Regex.Splice | tasks/filever_replace.js:142 | the content before the match and after it is kept, and the replacement sits where the match was |
| Regex.SpliceSame | tasks/filever_replace.js:142 | splicing the matched text back in leaves the content unchanged |
| Regex.ReEscape | tasks/filever_replace.js:10-12 | the escaped string is longer by exactly the number of metacharacters |
| Regex.ReEscapeChar | tasks/filever_replace.js:11 | a single character gets a backslash before it exactly when it is a metacharacter |
| Regex.ReEscapeConcat | tasks/filever_replace.js:11 | escaping works character by character: it distributes over concatenation, so every metacharacter, and nothing else, gets its backslash where it stands |
| Regex.UnescapeReEscape | tasks/filever_replace.js:10-12 | escaping loses nothing: dropping the inserted backslashes gives back the input |
| Regex.ReEscapeIdentity | tasks/filever_replace.js:10-12 | escaping leaves a string unchanged if and only if it holds no metacharacter |
| Regex.ReplaceFirstGroup | tasks/filever_replace.js:18-25 | with no match the string is returned unchanged |
| Regex.ReplaceFirstGroupPreserves | tasks/filever_replace.js:18-25 | with a match, text outside it is kept; inside it the first occurrence of the group (or the whole match) is replaced; if the reference does not occur, nothing changes |
| PosixPath.Basename | tasks/filever_replace.js:67 | the basename holds no `/` and is a suffix of the path |
| PosixPath.Extname | tasks/filever_replace.js:66 | the extension is empty, or a dot followed by no other dot; it is a proper suffix of the basename |
| PosixPath.Stem | tasks/filever_replace.js:67 | the stem followed by the extension is the basename |
| PosixPath.DirnameBasename | tasks/filever_replace.js:71 | a relative path with a `/` is its dirname, a `/`, and its basename |
| PosixPath.JoinSplit | tasks/filever_replace.js:80 | splitting a path at `/` and joining the segments gives it back |
| PosixPath.NormalizePlainSegments | tasks/filever_replace.js:80 | normalisation passes plain segments through unchanged |
| PosixPath.Dirname | tasks/filever_replace.js:71 | the dirname is never empty; it is `.` for a path without `/`, `/` for a root, and otherwise a proper prefix of the path that a `/` follows |
| PosixPath.Normalize | tasks/filever_replace.js:80 | normalising never gives the empty string, keeps an absolute path absolute, and leaves a relative path of plain segments as it is |
| PosixPath.Resolve | tasks/filever_replace.js:72-76 | resolving never gives the empty string, and the result is absolute when the working directory or an argument is |
| PosixPath.CleanEnds | tasks/filever_replace.js:80 | a clean path is not empty and has no leading or trailing `/` |
| PosixPath.Join | tasks/filever_replace.js:80 | joining never gives the empty string, and joining a clean directory with a plain name only inserts a `/` |
| PosixPath.JoinDot | tasks/filever_replace.js:80 | joining `.` with a plain name gives the name |
| AssetMap.Keys | tasks/filever_replace.js:99 | the keys, in the order the `for...in` loops visit them |
| AssetMap.Lookup | tasks/filever_replace.js:100 | a property read finds a value exactly when the key is present, and it is a stored entry |
| AssetMap.LookupUnique | tasks/filever_replace.js:137 | under unique keys, every stored entry is what a read of its key finds |
| AssetMap.Update | tasks/filever_replace.js:80 | assigning to a present key changes that entry's value and keeps the order |
| AssetMap.UpdatePresent | tasks/filever_replace.js:80 | after updating a present key, only that key's value changed |
| AssetMap.UpdateKeys | tasks/filever_replace.js:80 | updating a value keeps the key order |
| AssetMap.Put | tasks/filever_replace.js:80 | after an assignment, the key set gains `k` and the entry `(k, v)` is present; other entries are kept; keys stay unique; a new key goes last and an existing one keeps its place |
| AssetMap.Remove | tasks/filever_replace.js:101 | `delete` keeps exactly the entries with other keys, removes `k` from the key set, and leaves a summary without `k` as it is |
| AssetMap.RemoveConcat | tasks/filever_replace.js:101 | `delete` keeps the remaining properties in their order: it acts piece by piece, so it distributes over concatenation |
| AssetMap.RemoveUnique | tasks/filever_replace.js:101 | `delete` keeps the keys unique |
| AssetMap.PutLookup | tasks/filever_replace.js:80 | after an assignment, reading that key gives the new value, and every other key reads as before |
| AssetMap.Slashed | tasks/filever_replace.js:98-100 | rewriting the separator to `/` keeps the length, leaves no separator unless it is `/` itself, and leaves a string without it alone |
| AssetMap.NormalizeKey | tasks/filever_replace.js:100-101 | one pass of the loop removes the visited key; its rewritten form is present exactly when it differs from the key; no other key is added; a key no longer present is left alone; keys stay unique |
| AssetMap.NormalizeKeys | tasks/filever_replace.js:99-102 | the loop keeps keys unique and adds no key other than a rewritten visited key |
| AssetMap.Normalized | tasks/filever_replace.js:97-103 | the whole normalisation keeps keys unique, and every key left is an original key or the rewritten form of one |
| AssetMap.NormalizeKeysFree | tasks/filever_replace.js:99-102 | once the loop has visited every key that held the separator, no key or value holds it |
| AssetMap.NormalizedSeparatorFree | tasks/filever_replace.js:97-103 | after normalisation no key and no value holds the host separator |
| AssetMap.NormalizeKeysNeverAdds | tasks/filever_replace.js:99-102 | the loop creates no key other than the rewritten forms of the keys it visits |
| AssetMap.NormalizeKeysLoses | tasks/filever_replace.js:99-102 | a visited key without the separator that no later key is rewritten onto is gone afterwards |
| AssetMap.KeyWithoutSeparatorLost | tasks/filever_replace.js:97-103 | the assign-then-delete drops every key without the host separator unless a later key is rewritten onto it |
| AssetMap.LookupSame | tasks/filever_replace.js:100 | two summaries that hold the same entries for a key read the same for it |
| AssetMap.NormalizeKeysKeeps | tasks/filever_replace.js:99-102 | a key that is neither visited nor written keeps its value |
| AssetMap.SlashedIdempotent | tasks/filever_replace.js:100 | rewriting the separator twice is the same as rewriting it once |
| AssetMap.NormalizeKeysMoves | tasks/filever_replace.js:99-102 | a visited key that holds the separator and has no clash ends under its rewritten key with its rewritten value |
| AssetMap.NormalizeKeysMovesFirst | tasks/filever_replace.js:99-102 | the first visited key is moved to its rewritten key, and no later pass touches it |
| AssetMap.NormalizedMovesEntry | tasks/filever_replace.js:97-103 | an entry whose key holds the separator, with no other key rewritten onto the same path, is found under the rewritten key with the rewritten value |
| AssetMap.SlashedValue | tasks/filever_replace.js:100 | rewriting a value that came from the original summary gives a rewritten original value |
| AssetMap.NormalizeKeysSound | tasks/filever_replace.js:99-102 | every entry the loop leaves traces back to an original entry, rewritten |
| AssetMap.NormalizeKeySound | tasks/filever_replace.js:100-101 | one pass keeps every entry traceable to the original summary |
| AssetMap.NormalizeKeyEntries | tasks/filever_replace.js:100-101 | after one pass, each entry either was already there under another key or is the visited entry rewritten |
| AssetMap.NormalizedFromOriginal | tasks/filever_replace.js:97-103 | every key left is some original key rewritten, and every value is some original value rewritten |
| AssetMap.NormalizeKeysEmpties | tasks/filever_replace.js:99-102 | visiting every key when none holds the separator deletes them all |
| AssetMap.SeparatorFreeEmptied | tasks/filever_replace.js:97-103 | normalising a summary whose keys hold no host separator empties it |
| AssetMap.NormalizedTwiceEmpty | tasks/filever_replace.js:97-103 | normalising twice empties the summary |
| AssetMap.SuffixSurvivesSlashing | tasks/filever_replace.js:132 | a key that ends with a reference still ends with the rewritten reference once both are rewritten |
| AssetMap.Summary.constructor | tasks/filever_replace.js:36 | a new summary is empty |
| AssetMap.Summary.Get | tasks/filever_replace.js:137 | reading a present key gives its stored value |
| AssetMap.Summary.Set | tasks/filever_replace.js:80 | an assignment makes the summary `Put(old, k, v)` and keeps the keys unique |
| AssetMap.Summary.Delete | tasks/filever_replace.js:101 | `delete` makes the summary `Remove(old, k)` and keeps the keys unique |
| AssetMap.Summary.NormalizeSeparators | tasks/filever_replace.js:97-103 | with a host separator other than `/`, the loop turns the summary into `Normalized(old, sep)`, and otherwise leaves it alone; the keys stay unique |
| Revisioner.Suffix | tasks/filever_replace.js:34 | the suffix is the digest's first `length` characters, clamped, with a negative length counting from the end |
| Revisioner.SuffixIsHex | tasks/filever_replace.js:33-34 | the suffix cut from a hex digest is hex and exactly `length` long |
| Revisioner.NewName | tasks/filever_replace.js:66-67 | the new name is the stem, a dot, the suffix, and the extension; with no extension it ends in a bare dot |
| Revisioner.DotSlice | tasks/filever_replace.js:67 | joining with `ext.slice(1)` puts the extension's dot back |
| Revisioner.BasenameNoSlash | tasks/filever_replace.js:67 | a name without `/` is its own basename |
| Revisioner.ExtnameOfConcat | tasks/filever_replace.js:66 | the extension of `head + ext` is `ext` |
| Revisioner.NewNameParts | tasks/filever_replace.js:67 | for a file with an extension, the stem is non-empty and the new name holds no `/` |
| Revisioner.NewNameKeepsExtension | tasks/filever_replace.js:66-67 | the new name is a basename with the file's extension, and its stem is the old stem plus the suffix |
| Revisioner.RevisionedNameShape | tasks/filever_replace.js:33-34 | the new name reads `<stem>.<hex of exactly length>.<ext>` |
| Revisioner.CopyDirectory | tasks/filever_replace.js:45-49 | a group copies exactly when it has a destination |
| AssetMap.PutAllUnique | tasks/filever_replace.js:80 | recording keeps keys unique |
| AssetMap.PutAllKeySet | tasks/filever_replace.js:80 | recording adds exactly the keys recorded |
| AssetMap.PutAllKeepsOrder | tasks/filever_replace.js:80 | existing keys keep their place, and new keys come after them |
| AssetMap.PutKeepsOrder | tasks/filever_replace.js:80 | one assignment keeps existing keys in place |
| AssetMap.PutAllLastWins | tasks/filever_replace.js:80 | a key ends with the value of its last assignment |
| AssetMap.PutAllUntouched | tasks/filever_replace.js:80 | a key no assignment names keeps its value |
| AssetMap.KeySetConcat | tasks/filever_replace.js:80 | the keys of two summaries laid end to end are the keys of both |
| Revisioner.RecordedPath | tasks/filever_replace.js:80 | the recorded `path.join(dirname, newName)` is never empty |
| Revisioner.Record | tasks/filever_replace.js:80 | a file given as a clean path is recorded under itself, and the recorded path is never empty |
| Revisioner.FileOpOf | tasks/filever_replace.js:70-78 | a file is renamed when there is no copy directory and copied otherwise, from itself to a non-empty target that is absolute when the working directory is |
| Revisioner.GroupRun | tasks/filever_replace.js:64-82 | the loop over a group's files appends one operation per file, keeps the earlier operations, and keeps keys unique |
| Revisioner.RecordsKeys | tasks/filever_replace.js:64-80 | the keys a group records are its files' normalised paths, in order |
| Revisioner.NormalizedPathsSet | tasks/filever_replace.js:80 | the normalised paths, as a set, are the image of the files |
| Revisioner.RecordsKeySet | tasks/filever_replace.js:64-80 | the key set of a group's records is the set of its normalised files |
| Revisioner.RecordFilesKeys | tasks/filever_replace.js:64-82 | recording a group keeps keys unique and adds exactly its normalised files |
| Revisioner.RecordFilesLastWins | tasks/filever_replace.js:64-82 | when two files of a group normalise to one key, the later file's record is kept |
| Revisioner.RecordFilesUntouched | tasks/filever_replace.js:64-82 | a key that no file of the group normalises to keeps its value |
| Revisioner.InPlaceRecord | tasks/filever_replace.js:70-80 | renaming a clean `dir/name` in place records it under itself, as `dir/newName` |
| Revisioner.NewNamePlain | tasks/filever_replace.js:67 | a new name with an extension is one plain path segment |
| Revisioner.CopiedRecord | tasks/filever_replace.js:74-80 | copying a clean file into a clean directory records it under itself, as `copyDir/newName` |
| Revisioner.InPlaceEntry | tasks/filever_replace.js:70-80 | a clean `dir/name` renamed in place is recorded as `dir/name -> dir/newName` |
| Revisioner.CopiedEntry | tasks/filever_replace.js:74-80 | a clean `dir/name` copied into `copyDir` is recorded as `dir/name -> copyDir/newName` |
| Revisioner.DestinationCheck | tasks/filever_replace.js:45-62 | a group fails exactly when it has a destination whose copy directory exists and is not a directory; a missing directory gives one `mkdir`, and an existing directory or no destination gives none |
| Revisioner.DestinationReady | tasks/filever_replace.js:45-82 | a copy directory that is missing or already a directory lets the group go ahead: a `mkdir` first when it is missing, then the group's records and its renames or copies, before the later groups |
| Revisioner.DestinationFileIsFatal | tasks/filever_replace.js:51-55 | a destination that is an existing non-directory stops the phase, with the summary and operations as they were |
| Revisioner.GroupRunRecords | tasks/filever_replace.js:64-82 | one group's loop records its files and appends their rename or copy, in order |
| Revisioner.VersionGroups | tasks/filever_replace.js:40-87 | the phase only appends operations, and it stops with a fatal error exactly when some group's copy directory exists and is not a directory |
| Revisioner.VersionGroupsKeys | tasks/filever_replace.js:40-87 | over the whole phase keys stay unique and none is lost; every new key is a normalised source path; when no group fails, every group's normalised sources are keys |
| Revisioner.VersionFiles | tasks/filever_replace.js:64-82 | the loop over a group's files leaves the summary and the operations that the fold `GroupRun` computes |
| Revisioner.Version | tasks/filever_replace.js:33-87 | the version target leaves the summary, the operations and the fatal error that `VersionGroups` defines |
| Rewriter.FirstSuffixKeyFrom | tasks/filever_replace.js:131-153 | the search finds the first key that ends with the reference; when it finds none, no key ends with it |
| Rewriter.FirstSuffixKeyIsFirst | tasks/filever_replace.js:131-153 | conversely, the first key that ends with the reference is the one the search returns |
| Rewriter.FirstSuffixKeyIgnoresLater | tasks/filever_replace.js:148 | the search never looks past the first hit, so keys added later do not matter |
| Rewriter.HashLink | tasks/filever_replace.js:137 | the link is the value's tail from the offset where the reference starts within its key, or empty when that offset is past the value |
| Rewriter.BaseLink | tasks/filever_replace.js:130 | without `options.hash` the reference is used as it is |
| Rewriter.Relink | tasks/filever_replace.js:131-153 | `updated` is set exactly when some key ends with the reference and the first such key's link differs from it; without an update the content is unchanged (an update can leave it unchanged too, when the reference does not occur in the match) |
| Rewriter.ApplyPattern | tasks/filever_replace.js:125-156 | a pattern that does not match leaves the content unchanged and not updated; a match lies in the content; without an update the content is unchanged |
| Rewriter.RelinkSubstitutes | tasks/filever_replace.js:131-148 | an update means a key ends with the reference and its link differs; the link replaces the first occurrence of the reference inside the match, and the content around is kept |
| Rewriter.RelinkSplice | tasks/filever_replace.js:141-142 | an update puts the versioned link in place of the first occurrence of the reference inside the match, and keeps the rest of the content |
| Rewriter.RelinkIdempotent | tasks/filever_replace.js:131-153 | in the relinked content, the rewritten match whose link is the versioned link just written, reduced to the same reference, is left alone by a second run; an empty versioned link is excluded |
| Rewriter.SpliceReplaced | tasks/filever_replace.js:141-142 | replacing inside the match and splicing it back changes only that occurrence |
| Rewriter.RelinkChanges | tasks/filever_replace.js:138-143 | when the reference occurs in the match, an update really changes the content |
| Rewriter.SpliceChanges | tasks/filever_replace.js:142 | splicing in anything other than the matched text changes the content |
| Rewriter.RewriteRunConcat | tasks/filever_replace.js:123-157 | running two pattern lists one after the other is running their concatenation |
| Rewriter.RewriteRun | tasks/filever_replace.js:120-157 | once set, `updated` stays set; while it is clear, the content is still the original |
| Rewriter.FindKey | tasks/filever_replace.js:131-153 | the loop with `break` returns the first key that ends with the reference |
| Rewriter.LinkPattern | tasks/filever_replace.js:124-156 | the body of the pattern loop computes `ApplyPattern` |
| Rewriter.RewriteContent | tasks/filever_replace.js:119-157 | the pattern loop leaves the content and the flag that `RewriteRun` computes |
| Rewriter.ExistingFiles | tasks/filever_replace.js:111-117 | the filter keeps only sources that exist, and never more than there are |
| Rewriter.ExistingFilesMembers | tasks/filever_replace.js:111-117 | the filter keeps exactly the sources that exist |
| Rewriter.ExistingFilesConcat | tasks/filever_replace.js:111-117 | the filter keeps the order: it distributes over concatenation |
| Rewriter.ExistingFilesAll | tasks/filever_replace.js:111-117 | when every source exists, nothing is filtered out |
| Rewriter.ExistingFilesDistinct | tasks/filever_replace.js:111-117 | the filter keeps distinct sources distinct |
| Rewriter.WritePath | tasks/filever_replace.js:159 | the file is written to `dest` when the group has one, and otherwise back to itself |
| Rewriter.FileRun | tasks/filever_replace.js:118-161 | the loop over a group's files removes no file, and its list of writes never shrinks |
| Rewriter.FileRunWrites | tasks/filever_replace.js:118-161 | writes are only appended and no file disappears; each new write goes to `dest`, or to a file of the group when `dest` is empty |
| Rewriter.FileRunNoUpdate | tasks/filever_replace.js:158-160 | a group whose files no pattern changes writes nothing and leaves the disk as it was |
| Rewriter.ExpectedWritesMembers | tasks/filever_replace.js:158-160 | every file some pattern changed is owed a write of its rewritten content to the group's `dest`, or back to the file when there is none, and every owed write is such a write for a file of the group |
| Rewriter.ExpectedWritesSkip | tasks/filever_replace.js:158-160 | written in place, a file that no pattern changed is never the path of an owed write |
| Rewriter.ExpectedWritesFrame | tasks/filever_replace.js:119 | the owed writes depend only on what the group's files hold |
| Rewriter.WriteKeepsOthers | tasks/filever_replace.js:159 | writing the first of distinct files, in place or to a destination that is none of them, leaves the other files as they were |
| Rewriter.FileRunWritesExactly | tasks/filever_replace.js:118-161 | for distinct files and a destination that is none of them, the loop appends exactly the owed writes, in file order: one per file that some pattern changed, to the group's `dest`, or back to the file when there is none, with the rewritten content |
| Rewriter.FileRunWritesUpdated | tasks/filever_replace.js:158-160 | the step of that statement for a first file that some pattern changed: its write comes first, and the other files are read as they were |
| Rewriter.GroupsRun | tasks/filever_replace.js:110-162 | the loop over the groups removes no file, and its list of writes never shrinks |
| Rewriter.GroupsRunWrites | tasks/filever_replace.js:110-162 | later groups only append writes and remove no file; every new write goes to some group's destination, or to one of its sources when it has none |
| Rewriter.GroupsRunFirst | tasks/filever_replace.js:110-162 | the first group's writes come first and are exactly what it owes against the files as they were, when its sources are distinct and its destination is none of them |
| Rewriter.GroupsRunNoUpdate | tasks/filever_replace.js:110-162 | when no pattern changes any existing source of any group, nothing is written and the files stay as they were |
| Rewriter.ReplaceFiles | tasks/filever_replace.js:118-161 | the loop over a group's existing files leaves the disk and writes that `FileRun` defines |
| Rewriter.Replace | tasks/filever_replace.js:89-166 | the replace target normalises the summary exactly as `Normalized` does when the host separator is not `/`; the disk and writes it leaves are `GroupsRun` over the normalised summary |
| Rewriter.SharedPrefixHashLink | tasks/filever_replace.js:137 | when key and value share a prefix, a reference ending the key's prefix plus the name yields the same prefix plus the new name |
| Rewriter.InPlaceLinkRewritten | tasks/filever_replace.js:137 | for a file renamed in place, its own entry turns a reference `x + name`, where `x` is a tail of its directory part and `/`, into `x + newName` |
| Rewriter.EntryHashLink | tasks/filever_replace.js:137 | an entry `pre + name -> pre + n` turns a reference `x + name`, where `x` ends `pre`, into `x + n` |
| Rewriter.CopiedLinkMisaligned | tasks/filever_replace.js:137 | for a file copied into a directory whose path length differs from its own directory's, the link is not the new name |
| Rewriter.MisalignedLink | tasks/filever_replace.js:137 | cutting `c/n` at the offset where `name` starts in `d/name` gives back `n` only when `c` and `d` are equally long |

## Left out

- File system effects are not performed. `fs.lstatSync` is the parameter `kindOf`. `mkdir`, `renameSync` and `grunt.file.copy` are the returned `FileOp` list. In the replace target, `grunt.file.exists`, `read` and `write` act on a map from path to content.
- `kindOf` is one fixed query, so a directory created earlier in the same run is not seen by a later group's `lstat`.
- `grunt.file.exists` is also true for a directory. The map holds only files, so a source that names a directory is filtered out.
- The digest: `crypto.createHash(...).digest('hex')` hashes no data, so it is one fixed string for the whole run (the digest of the empty input), and every file gets the same suffix. The hash algorithm is outside the model: the digest is the parameter `digest`. `SuffixIsHex` and `RevisionedNameShape` assume it is hex.
- `process.cwd()` is the parameter `cwd` of `Resolve`. `path.resolve` is modelled only for the three-argument use here.
- PosixPath.Resolve: its contract states only that the result is non-empty and absolute when an argument or the working directory is; the lemmas about records use `Join` and `Normalize`, not the target of the rename.
- Node's path functions on unusual paths: Node's `basename`, `extname` and `dirname` ignore trailing `/` characters, and `dirname("//a")` is `"//"`. The model cuts at the last `/`, so `Basename("a/b/")` is empty and `Dirname("//a")` is `/`. The lemmas about records and links take clean paths, which have neither shape.
- The Windows variants of the Node path functions are not modelled. The host separator is a parameter of the normalisation loop.
- String lengths: the model counts characters as Unicode code points, while JavaScript's `length`, `slice` and `indexOf` count UTF-16 code units. For a path holding a character outside the Basic Multilingual Plane (an emoji, say), `HashLink` cuts at a different offset than js:137 does, and `CopiedLinkMisaligned` compares directory lengths in code points rather than in code units.
- Failing file operations: a `fs.renameSync` or `grunt.file.copy` whose source is gone (js:73, js:77) throws and aborts the task; the model records the entry and carries on, since the operations are only returned. `grunt.file.read` (js:119) strips a leading byte-order mark before the patterns run; the model reads the content as it is stored.
- Logging (`grunt.log`, `chalk`, the `Linking` and `Already linked` messages) has no effect on the state and is left out.
- `each-async` runs the groups one after another in this code, because every callback calls `next()` synchronously. The model is that sequential loop.
- `this.options()` and `this.files` come from Grunt's configuration. They are parameters: `digest`, `length`, the groups, `patterns` and `hash`.
- Target dispatch (`target === 'version'` / `'replace'`) and `grunt.filever_replace = filever_replace` are not modelled separately. The two methods take the same `Summary` object.
- `grunt.fail.fatal` is modelled as stopping the version target with an error value. The rest of the Grunt run is outside the model.
- Regular expressions: matching is an oracle that only promises the match it reports lies in the string. The `g` flag and `lastIndex` on user patterns are not modelled: each pattern is taken to be non-global.
- Replacement strings: special `$` patterns in a replacement string (`$&`, `$1`, …) are not interpreted. A link holding `$` is taken literally.
- Property order: JavaScript lists integer-like property names first in a `for...in`. The model keeps pure insertion order, which matches all paths that are not integer-like.
- Rewriter.BaseLink: with `options.hash` given, the contract does not say which text `replaceFirstGroup` strips; `Regex.ReplaceFirstGroupPreserves` states that.
- Rewriter.ApplyPattern: its own contract covers the no-match case and the unchanged content without an update; the effect of a match is stated by `Relink`, `RelinkSubstitutes` and `RelinkChanges`.
- Revisioner.VersionGroupsKeys: over several groups it states the key set, exactly when no group fails and only as bounds when one does; the values are stated per group by `RecordFilesLastWins` and `RecordFilesUntouched`.
- Rewriter.FileRunWritesExactly: it takes distinct files and a destination that is none of them. Otherwise a write can be read back by a later file of the same group, and only `FileRunWrites` describes the writes. `GroupsRunFirst` has the same condition on the first group.
- Rewriter.RelinkIdempotent: idempotence is stated for one match. The match oracle does not promise that the pattern finds the relinked reference again, or that the hash pattern reduces it to the same reference, so both are conditions. An empty versioned link is excluded, since an empty group falls back to the whole match.
