/** The summary the two phases share (`grunt.filever_replace.summary`): a plain
    JavaScript object from original path to revisioned path. Its properties
    keep insertion order, assigning to an existing property keeps its place,
    and `delete` removes it; so it is modelled as an association list with
    unique keys. */
module AssetMap {
  import opened JsString
  import opened Wrappers

  datatype Entry = Entry(key: string, value: string)

  /** The keys of the entries, in order. */
  function Keys(al: seq<Entry>): (r: seq<string>)
    ensures |r| == |al|
    ensures forall i :: 0 <= i < |al| ==> r[i] == al[i].key
  {
    if al == [] then [] else [al[0].key] + Keys(al[1..])
  }

  function KeySet(al: seq<Entry>): set<string>
  {
    set e | e in al :: e.key
  }

  ghost predicate UniqueKeys(al: seq<Entry>)
  {
    forall i, j :: 0 <= i < j < |al| ==> al[i].key != al[j].key
  }

  ghost predicate Distinct(ks: seq<string>)
  {
    forall i, j :: 0 <= i < j < |ks| ==> ks[i] != ks[j]
  }

  /** Dropping the first of distinct names leaves distinct names without it. */
  lemma DistinctTail(ks: seq<string>)
    requires Distinct(ks) && ks != []
    ensures Distinct(ks[1..]) && ks[0] !in ks[1..]
  {
    forall i, j | 0 <= i < j < |ks[1..]| ensures ks[1..][i] != ks[1..][j] {
      assert ks[1..][i] == ks[i + 1] && ks[1..][j] == ks[j + 1];
    }
    forall k | 0 <= k < |ks[1..]| ensures ks[1..][k] != ks[0] {
      assert ks[1..][k] == ks[k + 1];
    }
  }

  /** `obj[k]`: the value stored under `k`, None (`undefined`) when absent. */
  function Lookup(al: seq<Entry>, k: string): (r: Option<string>)
    ensures r.Some? <==> k in KeySet(al)
    ensures r.Some? ==> Entry(k, r.value) in al
  {
    if al == [] then None
    else if al[0].key == k then Some(al[0].value)
    else Lookup(al[1..], k)
  }

  /** Under unique keys, an entry in the list is what a lookup finds. */
  lemma LookupUnique(al: seq<Entry>, e: Entry)
    requires UniqueKeys(al) && e in al
    ensures Lookup(al, e.key) == Some(e.value)
  {
    if al[0] != e {
      assert e in al[1..];
      LookupUnique(al[1..], e);
    }
  }

  /** Every entry with key `k` gets value `v`; the order stays. */
  function Update(al: seq<Entry>, k: string, v: string): (r: seq<Entry>)
    ensures |r| == |al|
    ensures forall i :: 0 <= i < |al| ==> r[i] == if al[i].key == k then Entry(k, v) else al[i]
  {
    if al == [] then [] else [if al[0].key == k then Entry(k, v) else al[0]] + Update(al[1..], k, v)
  }

  /** Updating a key that is present changes only that entry's value. */
  lemma UpdatePresent(al: seq<Entry>, k: string, v: string)
    requires k in KeySet(al)
    ensures var r := Update(al, k, v);
            && Entry(k, v) in r
            && (forall e :: e in r ==> e == Entry(k, v) || (e in al && e.key != k))
            && (forall e :: e in al && e.key != k ==> e in r)
  {
    var r := Update(al, k, v);
    forall e | e in r ensures e == Entry(k, v) || (e in al && e.key != k) {
      var i :| 0 <= i < |r| && r[i] == e;
    }
    forall e | e in al && e.key != k ensures e in r {
      var i :| 0 <= i < |al| && al[i] == e;
      assert r[i] == e;
    }
    var e :| e in al && e.key == k;
    var i :| 0 <= i < |al| && al[i] == e;
    assert r[i] == Entry(k, v);
  }

  /** Updating a value leaves the keys as they are. */
  lemma UpdateKeys(al: seq<Entry>, k: string, v: string)
    ensures Keys(Update(al, k, v)) == Keys(al)
  {
    var r := Update(al, k, v);
    assert forall i :: 0 <= i < |al| ==> Keys(r)[i] == Keys(al)[i];
  }

  /** `obj[k] = v`: an existing property keeps its place, a new one goes last. */
  function Put(al: seq<Entry>, k: string, v: string): (r: seq<Entry>)
    ensures KeySet(r) == KeySet(al) + {k}
    ensures Entry(k, v) in r
    ensures forall e :: e in r ==> e == Entry(k, v) || (e in al && e.key != k)
    ensures forall e :: e in al && e.key != k ==> e in r
    ensures UniqueKeys(al) ==> UniqueKeys(r)
    ensures k !in KeySet(al) ==> r == al + [Entry(k, v)]
    ensures k in KeySet(al) ==> Keys(r) == Keys(al)
  {
    if k in KeySet(al) then
      UpdatePresent(al, k, v);
      UpdateKeys(al, k, v);
      Update(al, k, v)
    else
      al + [Entry(k, v)]
  }

  /** `delete obj[k]`. */
  function Remove(al: seq<Entry>, k: string): (r: seq<Entry>)
    ensures forall e :: e in r <==> e in al && e.key != k
    ensures KeySet(r) == KeySet(al) - {k}
    ensures k !in KeySet(al) ==> r == al
  {
    if al == [] then []
    else
      var r := (if al[0].key == k then [] else [al[0]]) + Remove(al[1..], k);
      assert forall e :: e in al <==> e == al[0] || e in al[1..];
      r
  }

  /** `delete` keeps the order of the remaining properties: it works piecewise,
      so it distributes over concatenation. */
  lemma {:induction false} RemoveConcat(a: seq<Entry>, b: seq<Entry>, k: string)
    ensures Remove(a + b, k) == Remove(a, k) + Remove(b, k)
    decreases |a|
  {
    if a == [] {
      assert a + b == b;
    } else {
      ConcatTail(a, b);
      RemoveConcat(a[1..], b, k);
      AppendAssoc(if a[0].key == k then [] else [a[0]], Remove(a[1..], k), Remove(b, k));
    }
  }

  /** The first element and the rest of a concatenation with a non-empty left part. */
  lemma ConcatTail<T>(a: seq<T>, b: seq<T>)
    requires a != []
    ensures (a + b)[0] == a[0] && (a + b)[1..] == a[1..] + b
  {
  }

  lemma AppendAssoc<T>(a: seq<T>, b: seq<T>, c: seq<T>)
    ensures a + (b + c) == a + b + c
  {
  }

  /** Deleting keeps the keys unique. */
  lemma {:induction false} RemoveUnique(al: seq<Entry>, k: string)
    requires UniqueKeys(al)
    ensures UniqueKeys(Remove(al, k))
  {
    if al != [] {
      RemoveUnique(al[1..], k);
      var rest := Remove(al[1..], k);
      forall e | e in rest ensures e.key != al[0].key {
        var i :| 0 <= i < |al[1..]| && al[1..][i] == e;
        assert al[i + 1] == e;
      }
    }
  }

  /** Last writer wins: after two writes to one key the later value is read,
      and a write leaves the other keys alone. */
  lemma PutLookup(al: seq<Entry>, k: string, v: string, k': string)
    requires UniqueKeys(al)
    ensures Lookup(Put(al, k, v), k) == Some(v)
    ensures k' != k ==> Lookup(Put(al, k, v), k') == Lookup(al, k')
  {
    var r := Put(al, k, v);
    LookupUnique(r, Entry(k, v));
    if k' != k {
      if k' in KeySet(al) {
        var e :| e in al && e.key == k';
        LookupUnique(al, e);
        LookupUnique(r, e);
      }
    }
  }

  /** The host separator rewritten to `/`: same length, no separator left
      unless it is `/` itself, and a string without it is left alone. */
  function Slashed(s: string, sep: char): (r: string)
    ensures |r| == |s|
    ensures sep != '/' ==> sep !in r
    ensures sep !in s ==> r == s
  {
    var r := ReplaceChar(s, sep, '/');
    assert sep != '/' ==> sep !in r by {
      if sep != '/' {
        ReplaceCharRemoves(s, sep, '/');
      }
    }
    assert sep !in s ==> r == s by {
      if sep !in s {
        ReplaceCharAbsent(s, sep, '/');
      }
    }
    r
  }

  /** One pass of the normalisation loop, for the key `k`:
      `versioned[slashed(k)] = slashed(versioned[k]); delete versioned[k]`.
      `k` is gone afterwards; its rewritten form is present exactly when it
      differs from `k`, and no other key is added. A key that is no longer
      present is left alone; in the loop this never happens (see
      `Summary.NormalizeSeparators`). */
  function NormalizeKey(al: seq<Entry>, k: string, sep: char): (r: seq<Entry>)
    ensures Lookup(al, k).None? ==> r == al
    ensures k !in KeySet(r)
    ensures KeySet(r) <= KeySet(al) + {Slashed(k, sep)}
    ensures Lookup(al, k).Some? ==> (Slashed(k, sep) in KeySet(r) <==> Slashed(k, sep) != k)
    ensures UniqueKeys(al) ==> UniqueKeys(r)
  {
    match Lookup(al, k)
    case None => al
    case Some(v) =>
      var put := Put(al, Slashed(k, sep), Slashed(v, sep));
      assert UniqueKeys(al) ==> UniqueKeys(Remove(put, k)) by {
        if UniqueKeys(al) {
          RemoveUnique(put, k);
        }
      }
      Remove(put, k)
  }

  /** The rewritten forms of the keys `ks`. */
  function SlashedKeys(ks: seq<string>, sep: char): set<string>
  {
    set k | k in ks :: Slashed(k, sep)
  }

  /** The loop over the keys `ks`, in order: keys stay unique, and the only
      keys it can add are rewritten forms of visited keys. */
  function NormalizeKeys(al: seq<Entry>, ks: seq<string>, sep: char): (r: seq<Entry>)
    ensures UniqueKeys(al) ==> UniqueKeys(r)
    ensures KeySet(r) <= KeySet(al) + SlashedKeys(ks, sep)
    decreases |ks|
  {
    if ks == [] then al
    else
      var next := NormalizeKey(al, ks[0], sep);
      assert KeySet(next) + SlashedKeys(ks[1..], sep) <= KeySet(al) + SlashedKeys(ks, sep) by {
        assert ks[0] in ks && forall k :: k in ks[1..] ==> k in ks;
      }
      NormalizeKeys(next, ks[1..], sep)
  }

  /** The whole loop: every key present when it starts is visited once. Keys
      stay unique, and the only keys it can add are rewritten original keys. */
  function Normalized(al: seq<Entry>, sep: char): (r: seq<Entry>)
    ensures UniqueKeys(al) ==> UniqueKeys(r)
    ensures forall x :: x in KeySet(r) ==> x in KeySet(al) || exists e :: e in al && x == Slashed(e.key, sep)
  {
    var r := NormalizeKeys(al, Keys(al), sep);
    assert forall x :: x in SlashedKeys(Keys(al), sep) ==> exists e :: e in al && x == Slashed(e.key, sep) by {
      forall x | x in SlashedKeys(Keys(al), sep) ensures exists e :: e in al && x == Slashed(e.key, sep) {
        var k :| k in Keys(al) && x == Slashed(k, sep);
        var i :| 0 <= i < |al| && Keys(al)[i] == k;
        assert al[i] in al;
      }
    }
    r
  }

  /** No entry of `s` holds `sep` in its key or its value. */
  ghost predicate SeparatorFree(al: seq<Entry>, sep: char)
  {
    forall e :: e in al ==> sep !in e.key && sep !in e.value
  }

  lemma {:induction false} NormalizeKeysFree(al: seq<Entry>, ks: seq<string>, sep: char)
    requires sep != '/'
    requires forall e :: e in al ==> e.key in ks || (sep !in e.key && sep !in e.value)
    ensures SeparatorFree(NormalizeKeys(al, ks, sep), sep)
    decreases |ks|
  {
    if ks != [] {
      var k := ks[0];
      var next := NormalizeKey(al, k, sep);
      if Lookup(al, k).None? {
        forall e | e in next ensures e.key in ks[1..] || (sep !in e.key && sep !in e.value) {
          assert e.key in KeySet(al);
          assert e.key in ks ==> e.key == ks[0] || e.key in ks[1..];
        }
      } else {
        forall e | e in next ensures e.key in ks[1..] || (sep !in e.key && sep !in e.value) {
          assert e.key in ks ==> e.key == ks[0] || e.key in ks[1..];
        }
      }
      NormalizeKeysFree(next, ks[1..], sep);
    }
  }

  /** After normalisation no key and no value holds the host separator. */
  lemma NormalizedSeparatorFree(al: seq<Entry>, sep: char)
    requires sep != '/'
    ensures SeparatorFree(Normalized(al, sep), sep)
  {
    var ks := Keys(al);
    forall e | e in al ensures e.key in ks {
      var i :| 0 <= i < |al| && al[i] == e;
      assert ks[i] == e.key;
    }
    NormalizeKeysFree(al, ks, sep);
  }

  /** A key that is absent and that no visited key is rewritten to stays absent. */
  lemma {:induction false} NormalizeKeysNeverAdds(al: seq<Entry>, ks: seq<string>, sep: char, x: string)
    requires x !in KeySet(al)
    requires forall i :: 0 <= i < |ks| ==> Slashed(ks[i], sep) != x
    ensures x !in KeySet(NormalizeKeys(al, ks, sep))
    decreases |ks|
  {
    if ks != [] {
      NormalizeKeysNeverAdds(NormalizeKey(al, ks[0], sep), ks[1..], sep, x);
    }
  }

  lemma {:induction false} NormalizeKeysLoses(al: seq<Entry>, ks: seq<string>, sep: char, p: nat)
    requires p < |ks| && sep !in ks[p]
    requires forall q :: p < q < |ks| ==> Slashed(ks[q], sep) != ks[p]
    ensures ks[p] !in KeySet(NormalizeKeys(al, ks, sep))
    decreases |ks|
  {
    var next := NormalizeKey(al, ks[0], sep);
    if p == 0 {
      ReplaceCharAbsent(ks[0], sep, '/');
      assert ks[0] !in KeySet(next);
      NormalizeKeysNeverAdds(next, ks[1..], sep, ks[0]);
    } else {
      NormalizeKeysLoses(next, ks[1..], sep, p - 1);
    }
  }

  /** The quirk of the set-then-delete: a key without the host separator is
      written back to itself and then deleted, so it is lost, unless a later
      key is rewritten onto it. */
  lemma KeyWithoutSeparatorLost(al: seq<Entry>, sep: char, j: nat)
    requires j < |al| && sep !in al[j].key
    requires forall m :: j < m < |al| ==> Slashed(al[m].key, sep) != al[j].key
    ensures al[j].key !in KeySet(Normalized(al, sep))
  {
    NormalizeKeysLoses(al, Keys(al), sep, j);
  }

  /** Two lists with unique keys that hold the same entries with key `x`
      agree on `x`. */
  lemma LookupSame(a: seq<Entry>, b: seq<Entry>, x: string)
    requires UniqueKeys(a) && UniqueKeys(b)
    requires forall e: Entry :: e.key == x ==> (e in a <==> e in b)
    ensures Lookup(a, x) == Lookup(b, x)
  {
    if x in KeySet(a) {
      var e :| e in a && e.key == x;
      LookupUnique(a, e);
      LookupUnique(b, e);
    } else {
      assert forall e: Entry :: e in b && e.key == x ==> e in a;
    }
  }

  /** A key that is not visited and not written keeps its value. */
  lemma {:induction false} NormalizeKeysKeeps(al: seq<Entry>, ks: seq<string>, sep: char, x: string)
    requires UniqueKeys(al)
    requires forall i :: 0 <= i < |ks| ==> ks[i] != x && Slashed(ks[i], sep) != x
    ensures Lookup(NormalizeKeys(al, ks, sep), x) == Lookup(al, x)
    decreases |ks|
  {
    if ks != [] {
      var next := NormalizeKey(al, ks[0], sep);
      LookupSame(al, next, x);
      NormalizeKeysKeeps(next, ks[1..], sep, x);
    }
  }

  /** Rewriting the separator twice is rewriting it once. */
  lemma SlashedIdempotent(s: string, sep: char)
    requires sep != '/'
    ensures Slashed(Slashed(s, sep), sep) == Slashed(s, sep)
  {
    ReplaceCharRemoves(s, sep, '/');
    ReplaceCharRemoves(Slashed(s, sep), sep, '/');
  }

  /** No other key of `ks` is rewritten onto the rewritten `ks[j]`, or is it. */
  ghost predicate Clashless(ks: seq<string>, j: nat, sep: char)
    requires j < |ks|
  {
    forall m :: 0 <= m < |ks| && m != j ==> Slashed(ks[m], sep) != Slashed(ks[j], sep) && ks[m] != Slashed(ks[j], sep)
  }

  lemma ClashlessTail(ks: seq<string>, j: nat, sep: char)
    requires 0 < j < |ks| && Distinct(ks) && Clashless(ks, j, sep)
    ensures Distinct(ks[1..]) && Clashless(ks[1..], j - 1, sep)
  {
    var rest := ks[1..];
    assert forall m :: 0 <= m < |rest| ==> rest[m] == ks[m + 1];
  }

  lemma {:induction false} NormalizeKeysMoves(al: seq<Entry>, ks: seq<string>, sep: char, j: nat, v: string)
    requires sep != '/' && UniqueKeys(al) && Distinct(ks)
    requires j < |ks| && sep in ks[j] && Lookup(al, ks[j]) == Some(v)
    requires Slashed(ks[j], sep) !in KeySet(al)
    requires Clashless(ks, j, sep)
    ensures Lookup(NormalizeKeys(al, ks, sep), Slashed(ks[j], sep)) == Some(Slashed(v, sep))
    decreases |ks|
  {
    var x := Slashed(ks[j], sep);
    var next := NormalizeKey(al, ks[0], sep);
    if j == 0 {
      NormalizeKeysMovesFirst(al, ks, sep, v);
    } else {
      assert ks[j] != ks[0] && ks[j] != Slashed(ks[0], sep);
      LookupSame(al, next, ks[j]);
      ClashlessTail(ks, j, sep);
      assert ks[1..][j - 1] == ks[j];
      NormalizeKeysMoves(next, ks[1..], sep, j - 1, v);
    }
  }

  /** The visited key is moved, and no later pass touches its new key. */
  lemma NormalizeKeysMovesFirst(al: seq<Entry>, ks: seq<string>, sep: char, v: string)
    requires sep != '/' && UniqueKeys(al) && Distinct(ks)
    requires 0 < |ks| && sep in ks[0] && Lookup(al, ks[0]) == Some(v)
    requires Clashless(ks, 0, sep)
    ensures Lookup(NormalizeKeys(al, ks, sep), Slashed(ks[0], sep)) == Some(Slashed(v, sep))
  {
    var x := Slashed(ks[0], sep);
    var next := NormalizeKey(al, ks[0], sep);
    var put := Put(al, x, Slashed(v, sep));
    assert next == Remove(put, ks[0]);
    PutLookup(al, x, Slashed(v, sep), x);
    LookupSame(put, next, x);
    var rest := ks[1..];
    assert forall i :: 0 <= i < |rest| ==> rest[i] == ks[i + 1];
    NormalizeKeysKeeps(next, rest, sep, x);
  }

  /** A key holding the host separator, that no other key is rewritten onto,
      ends up under its rewritten form with its value rewritten. */
  lemma NormalizedMovesEntry(al: seq<Entry>, sep: char, j: nat)
    requires sep != '/' && UniqueKeys(al)
    requires j < |al| && sep in al[j].key
    requires forall m :: 0 <= m < |al| && m != j ==> Slashed(al[m].key, sep) != Slashed(al[j].key, sep)
    ensures Lookup(Normalized(al, sep), Slashed(al[j].key, sep)) == Some(Slashed(al[j].value, sep))
  {
    var ks := Keys(al);
    var x := Slashed(al[j].key, sep);
    ReplaceCharAbsent(x, sep, '/');
    assert Distinct(ks);
    forall e | e in al ensures e.key != x {
      var m :| 0 <= m < |al| && al[m] == e;
      assert ks[m] == e.key;
    }
    LookupUnique(al, al[j]);
    assert Clashless(ks, j, sep);
    NormalizeKeysMoves(al, ks, sep, j, al[j].value);
  }

  /** `v` is an original value, possibly rewritten already. */
  ghost predicate ValueFrom(v: string, orig: seq<Entry>, sep: char)
  {
    exists e1 :: e1 in orig && (v == e1.value || v == Slashed(e1.value, sep))
  }

  /** `v` is an original value rewritten. */
  ghost predicate SlashedValueFrom(v: string, orig: seq<Entry>, sep: char)
  {
    exists e1 :: e1 in orig && v == Slashed(e1.value, sep)
  }

  /** `k` is an original key rewritten. */
  ghost predicate SlashedKeyFrom(k: string, orig: seq<Entry>, sep: char)
  {
    exists e0 :: e0 in orig && k == Slashed(e0.key, sep)
  }

  /** Every key the loop leaves is a key still to visit or an original key
      rewritten, and every value of a rewritten key an original value
      rewritten: nothing else is introduced. */
  ghost predicate FromOriginal(cur: seq<Entry>, ks: seq<string>, orig: seq<Entry>, sep: char)
  {
    forall e :: e in cur ==>
      (e.key in ks && ValueFrom(e.value, orig, sep))
      || (SlashedKeyFrom(e.key, orig, sep) && SlashedValueFrom(e.value, orig, sep))
  }

  /** Rewriting a value traced to the original gives an original value
      rewritten. */
  lemma SlashedValue(v: string, orig: seq<Entry>, sep: char)
    requires sep != '/'
    requires ValueFrom(v, orig, sep) || SlashedValueFrom(v, orig, sep)
    ensures SlashedValueFrom(Slashed(v, sep), orig, sep)
  {
    var e1 :| e1 in orig && (v == e1.value || v == Slashed(e1.value, sep));
    SlashedIdempotent(e1.value, sep);
    assert Slashed(v, sep) == Slashed(e1.value, sep);
  }

  lemma {:induction false} NormalizeKeysSound(cur: seq<Entry>, ks: seq<string>, orig: seq<Entry>, sep: char)
    requires sep != '/'
    requires FromOriginal(cur, ks, orig, sep)
    requires forall k :: k in ks ==> k in KeySet(orig)
    ensures FromOriginal(NormalizeKeys(cur, ks, sep), [], orig, sep)
    decreases |ks|
  {
    if ks != [] {
      assert ks == [ks[0]] + ks[1..];
      NormalizeKeySound(cur, ks[0], ks[1..], orig, sep);
      assert forall k :: k in ks[1..] ==> k in ks;
      NormalizeKeysSound(NormalizeKey(cur, ks[0], sep), ks[1..], orig, sep);
    }
  }

  /** One pass of the loop keeps every entry traceable to the original. */
  lemma NormalizeKeySound(cur: seq<Entry>, k: string, rest: seq<string>, orig: seq<Entry>, sep: char)
    requires sep != '/'
    requires FromOriginal(cur, [k] + rest, orig, sep) && k in KeySet(orig)
    ensures FromOriginal(NormalizeKey(cur, k, sep), rest, orig, sep)
  {
    var next := NormalizeKey(cur, k, sep);
    NormalizeKeyEntries(cur, k, sep);
    forall e | e in next
      ensures (e.key in rest && ValueFrom(e.value, orig, sep))
              || (SlashedKeyFrom(e.key, orig, sep) && SlashedValueFrom(e.value, orig, sep))
    {
      if e in cur && e.key != k {
        assert e.key in [k] + rest ==> e.key in rest;
      } else {
        var v :| Entry(k, v) in cur && e == Entry(Slashed(k, sep), Slashed(v, sep));
        var e0 :| e0 in orig && e0.key == k;
        assert e.key == Slashed(e0.key, sep);
        assert Entry(k, v) in cur;
        SlashedValue(v, orig, sep);
      }
    }
  }

  /** After one pass, an entry either was there already under another key, or
      is the visited entry under its rewritten key with its rewritten value. */
  lemma NormalizeKeyEntries(cur: seq<Entry>, k: string, sep: char)
    ensures forall e :: e in NormalizeKey(cur, k, sep) ==>
              (e in cur && e.key != k)
              || (exists v :: Entry(k, v) in cur && e == Entry(Slashed(k, sep), Slashed(v, sep)))
  {
    match Lookup(cur, k)
    case None =>
    case Some(v) =>
      assert Entry(k, v) in cur;
  }

  /** Normalisation only rewrites: every key left is the rewritten form of an
      original key, and every value the rewritten form of an original value. */
  lemma NormalizedFromOriginal(al: seq<Entry>, sep: char, e: Entry)
    requires sep != '/'
    requires e in Normalized(al, sep)
    ensures exists e0 :: e0 in al && e.key == Slashed(e0.key, sep)
    ensures exists e1 :: e1 in al && e.value == Slashed(e1.value, sep)
  {
    var ks := Keys(al);
    forall k | k in ks ensures k in KeySet(al) {
      var i :| 0 <= i < |ks| && ks[i] == k;
      assert al[i] in al;
    }
    forall e' | e' in al ensures e'.key in ks {
      var i :| 0 <= i < |al| && al[i] == e';
      assert ks[i] == e'.key;
    }
    NormalizeKeysSound(al, ks, al, sep);
  }

  lemma {:induction false} NormalizeKeysEmpties(al: seq<Entry>, ks: seq<string>, sep: char)
    requires forall e :: e in al ==> e.key in ks
    requires forall i :: 0 <= i < |ks| ==> sep !in ks[i]
    ensures NormalizeKeys(al, ks, sep) == []
    decreases |ks|
  {
    if ks == [] {
      if al != [] {
        assert false;
      }
    } else {
      var k := ks[0];
      var next := NormalizeKey(al, k, sep);
      if Lookup(al, k).Some? {
        ReplaceCharAbsent(k, sep, '/');
      }
      forall e | e in next ensures e.key in ks[1..] {
        assert e.key != k && e.key in ks;
      }
      NormalizeKeysEmpties(next, ks[1..], sep);
    }
  }

  /** Normalising a summary that is already free of the host separator deletes
      every entry: each key is written back to itself and then deleted. */
  lemma SeparatorFreeEmptied(al: seq<Entry>, sep: char)
    requires forall e :: e in al ==> sep !in e.key
    ensures Normalized(al, sep) == []
  {
    var ks := Keys(al);
    forall e | e in al ensures e.key in ks {
      var i :| 0 <= i < |al| && al[i] == e;
      assert ks[i] == e.key;
    }
    NormalizeKeysEmpties(al, ks, sep);
  }

  /** So a second normalisation within one invocation empties the summary. */
  lemma NormalizedTwiceEmpty(al: seq<Entry>, sep: char)
    requires sep != '/'
    ensures Normalized(Normalized(al, sep), sep) == []
  {
    NormalizedSeparatorFree(al, sep);
    SeparatorFreeEmptied(Normalized(al, sep), sep);
  }

  /** A key recorded with the host separator still ends with a reference once
      both are rewritten to `/`: the lookup is separator independent. */
  lemma SuffixSurvivesSlashing(k: string, t: string, sep: char)
    requires EndsWith(k, t)
    ensures EndsWith(Slashed(k, sep), Slashed(t, sep))
  {
    EndsWithIsSuffix(k, t);
    var pre := k[..|k| - |t|];
    assert k == pre + t;
    ReplaceCharConcat(pre, t, sep, '/');
    var sk := Slashed(k, sep);
    var st := Slashed(t, sep);
    assert sk[|sk| - |st|..] == st;
    EndsWithIsSuffix(sk, st);
  }

  /** The summary after the given assignments, in order. */
  function PutAll(al: seq<Entry>, recs: seq<Entry>): seq<Entry>
    decreases |recs|
  {
    if recs == [] then al else PutAll(Put(al, recs[0].key, recs[0].value), recs[1..])
  }

  /** Assignments keep the keys unique. */
  lemma {:induction false} PutAllUnique(al: seq<Entry>, recs: seq<Entry>)
    requires UniqueKeys(al)
    ensures UniqueKeys(PutAll(al, recs))
    decreases |recs|
  {
    if recs != [] {
      PutAllUnique(Put(al, recs[0].key, recs[0].value), recs[1..]);
    }
  }

  /** Assignments add exactly the keys assigned. */
  lemma {:induction false} PutAllKeySet(al: seq<Entry>, recs: seq<Entry>)
    ensures KeySet(PutAll(al, recs)) == KeySet(al) + KeySet(recs)
    decreases |recs|
  {
    if recs != [] {
      PutAllKeySet(Put(al, recs[0].key, recs[0].value), recs[1..]);
      assert recs == [recs[0]] + recs[1..];
      KeySetConcat([recs[0]], recs[1..]);
    }
  }

  /** Keys already present keep their place in the order; new keys go after them. */
  lemma {:induction false} PutAllKeepsOrder(al: seq<Entry>, recs: seq<Entry>)
    ensures |al| <= |PutAll(al, recs)| && Keys(PutAll(al, recs))[..|al|] == Keys(al)
    decreases |recs|
  {
    if recs != [] {
      var next := Put(al, recs[0].key, recs[0].value);
      PutAllKeepsOrder(next, recs[1..]);
      PutKeepsOrder(al, recs[0].key, recs[0].value);
      var r := PutAll(next, recs[1..]);
      assert Keys(r)[..|al|] == Keys(r)[..|next|][..|al|];
    }
  }

  lemma PutKeepsOrder(al: seq<Entry>, k: string, v: string)
    ensures |al| <= |Put(al, k, v)| && Keys(Put(al, k, v))[..|al|] == Keys(al)
  {
    if k !in KeySet(al) {
      KeysAppend(al, Entry(k, v));
    }
  }

  lemma KeysAppend(al: seq<Entry>, e: Entry)
    ensures Keys(al + [e]) == Keys(al) + [e.key]
  {
    assert forall i :: 0 <= i < |al| ==> Keys(al + [e])[i] == (Keys(al) + [e.key])[i];
  }

  lemma KeySetConcat(a: seq<Entry>, b: seq<Entry>)
    ensures KeySet(a + b) == KeySet(a) + KeySet(b)
  {
    forall x ensures x in KeySet(a + b) <==> x in KeySet(a) + KeySet(b) {
      if x in KeySet(a + b) {
        var e :| e in a + b && e.key == x;
        assert e in a || e in b;
      }
      if x in KeySet(a) {
        var e :| e in a && e.key == x;
        assert e in a + b;
      }
      if x in KeySet(b) {
        var e :| e in b && e.key == x;
        assert e in a + b;
      }
    }
  }

  /** Last writer wins: a key ends with the value of the last assignment to it. */
  lemma {:induction false} PutAllLastWins(al: seq<Entry>, recs: seq<Entry>, i: nat)
    requires UniqueKeys(al) && i < |recs|
    requires forall j :: i < j < |recs| ==> recs[j].key != recs[i].key
    ensures Lookup(PutAll(al, recs), recs[i].key) == Some(recs[i].value)
    decreases |recs|
  {
    var k, v := recs[0].key, recs[0].value;
    var next := Put(al, k, v);
    var rest := recs[1..];
    if i == 0 {
      assert forall j :: 0 <= j < |rest| ==> rest[j] == recs[j + 1];
      PutLookup(al, k, v, k);
      PutAllUntouched(next, rest, k);
    } else {
      assert forall j :: 0 <= j < |rest| ==> rest[j] == recs[j + 1];
      PutAllLastWins(next, rest, i - 1);
    }
  }

  /** A key no assignment names keeps its value. */
  lemma {:induction false} PutAllUntouched(al: seq<Entry>, recs: seq<Entry>, x: string)
    requires UniqueKeys(al)
    requires forall j :: 0 <= j < |recs| ==> recs[j].key != x
    ensures Lookup(PutAll(al, recs), x) == Lookup(al, x)
    decreases |recs|
  {
    if recs != [] {
      var next := Put(al, recs[0].key, recs[0].value);
      PutLookup(al, recs[0].key, recs[0].value, x);
      PutAllUntouched(next, recs[1..], x);
    }
  }

  lemma KeySetIsKeys(al: seq<Entry>)
    ensures KeySet(al) == set k | k in Keys(al)
  {
    forall x | x in KeySet(al) ensures x in Keys(al) {
      var e :| e in al && e.key == x;
      var j :| 0 <= j < |al| && al[j] == e;
      assert Keys(al)[j] == x;
    }
    forall x | x in Keys(al) ensures x in KeySet(al) {
      var j :| 0 <= j < |al| && Keys(al)[j] == x;
      assert al[j] in al;
    }
  }

  /** The summary object itself. Its methods are the three things the plugin
      does to it: read a property, assign one, delete one; and the loop that
      rewrites the host separator. */
  class Summary {
    var entries: seq<Entry>

    ghost predicate Valid()
      reads this
    {
      UniqueKeys(entries)
    }

    /** `{summary: {}}`. */
    constructor ()
      ensures Valid() && entries == []
    {
      entries := [];
    }

    /** `summary[k]` for a key that is present. */
    method Get(k: string) returns (v: string)
      requires k in KeySet(entries)
      ensures Lookup(entries, k) == Some(v)
    {
      v := Lookup(entries, k).value;
    }

    /** `summary[k] = v`. */
    method Set(k: string, v: string)
      requires Valid()
      modifies this
      ensures Valid() && entries == Put(old(entries), k, v)
    {
      entries := Put(entries, k, v);
    }

    /** `delete summary[k]`. */
    method Delete(k: string)
      requires Valid()
      modifies this
      ensures Valid() && entries == Remove(old(entries), k)
    {
      RemoveUnique(entries, k);
      entries := Remove(entries, k);
    }

    /** The loop that rewrites the host separator `sep` (Node's `path.sep`) to
      `/` in every key and value, visiting the keys present when it starts.
      Nothing happens on a host whose separator already is `/`. */
    method NormalizeSeparators(sep: char)
      requires Valid()
      modifies this
      ensures Valid()
      ensures entries == if sep != '/' then Normalized(old(entries), sep) else old(entries)
    {
      if sep != '/' {
        var keys := Keys(entries);
        assert Distinct(keys);
        var i := 0;
        while i < |keys|
          invariant Valid() && i <= |keys|
          invariant forall m :: i <= m < |keys| ==> keys[m] in KeySet(entries)
          invariant NormalizeKeys(entries, keys[i..], sep) == NormalizeKeys(old(entries), keys, sep)
        {
          var k := keys[i];
          var v := Get(k);
          ghost var before := entries;
          Set(Slashed(k, sep), Slashed(v, sep));
          Delete(k);
          assert entries == NormalizeKey(before, k, sep);
          assert keys[i..][1..] == keys[i + 1..];
          i := i + 1;
        }
        assert keys[i..] == [];
      }
    }
  }
}
