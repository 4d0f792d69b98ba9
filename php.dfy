/** The small part of PHP's runtime that the user-directory handlers rely on:
    `empty()`, ASCII `strtolower`, `strpos`, and ordered arrays with the
    assignment `$a[$k] = $v`. */
module Php {

  datatype Option<+T> = None | Some(value: T)

  /** A PHP array key. Integer keys and string keys are distinct values. */
  datatype Key = IntKey(n: int) | StrKey(s: string)

  /** An ordered PHP array: its entries in iteration order. */
  type OrderedArray<V> = seq<(Key, V)>

  // ---------------------------------------------------------------------------
  // empty()

  /** `empty($s)` for a value that is either null or a string: null, "" and "0"
      are empty. */
  predicate EmptyString(s: Option<string>)
  {
    s.None? || s.value == "" || s.value == "0"
  }

  /** `empty($a)` for a value that is either null or an array. */
  predicate EmptyArray<V>(a: Option<OrderedArray<V>>)
  {
    a.None? || a.value == []
  }

  /** `$a ?? []` */
  function OrEmpty<V>(a: Option<OrderedArray<V>>): (r: OrderedArray<V>)
    ensures a.None? ==> r == []
    ensures a.Some? ==> r == a.value
  {
    if a.Some? then a.value else []
  }

  // ---------------------------------------------------------------------------
  // strtolower (ASCII only)

  predicate IsUpper(c: char)
  {
    'A' <= c <= 'Z'
  }

  /** Maps A-Z to a-z and leaves every other character alone. */
  function LowerChar(c: char): (r: char)
    ensures !IsUpper(r)
  {
    if IsUpper(c) then (c as int + 32) as char else c
  }

  function Lower(s: string): (r: string)
    ensures |r| == |s|
  {
    seq(|s|, i requires 0 <= i < |s| => LowerChar(s[i]))
  }

  /** Two strings are equal up to ASCII case. */
  predicate SameUpToCase(a: string, b: string)
  {
    Lower(a) == Lower(b)
  }

  /** Lowering changes only upper-case letters, each to its lower-case
      partner. */
  lemma LowerChangesOnlyLetters(s: string, i: nat)
    requires i < |s|
    ensures !IsUpper(s[i]) ==> Lower(s)[i] == s[i]
    ensures IsUpper(s[i]) ==> 'a' <= Lower(s)[i] <= 'z' && Lower(s)[i] as int - s[i] as int == 32
  {
  }

  /** A string without upper-case letters is its own lower-case form. */
  lemma LowerOfLowerCase(s: string)
    requires forall i :: 0 <= i < |s| ==> !IsUpper(s[i])
    ensures Lower(s) == s
  {
  }

  lemma LowerIdempotent(s: string)
    ensures Lower(Lower(s)) == Lower(s)
  {
    forall i | 0 <= i < |s|
      ensures Lower(Lower(s))[i] == Lower(s)[i]
    {
      assert !IsUpper(Lower(s)[i]);
    }
  }

  /** Lowering keeps the PHP-empty strings "" and "0" and only them:
      `empty($t)` and `empty(strtolower($t))` agree. */
  lemma LowerKeepsEmptiness(s: string)
    ensures Lower(s) == "" <==> s == ""
    ensures Lower(s) == "0" <==> s == "0"
  {
    if Lower(s) == "0" {
      assert Lower(s)[0] == LowerChar(s[0]) == '0';
      assert s == [s[0]];
    }
  }

  // ---------------------------------------------------------------------------
  // strpos

  /** The needle occurs in the haystack starting at position i. */
  predicate OccursAt(haystack: string, needle: string, i: nat)
  {
    i + |needle| <= |haystack| && haystack[i..i + |needle|] == needle
  }

  /** The needle occurs somewhere in the haystack. */
  ghost predicate Occurs(haystack: string, needle: string)
  {
    exists i: nat :: OccursAt(haystack, needle, i)
  }

  /** The first position at or after `from` where the needle occurs. */
  function FindFrom(haystack: string, needle: string, from: nat): (r: Option<nat>)
    decreases |haystack| - from
    ensures r.Some? ==> from <= r.value && OccursAt(haystack, needle, r.value)
    ensures r.Some? ==> forall j: nat :: from <= j < r.value ==> !OccursAt(haystack, needle, j)
    ensures r.None? ==> forall j: nat :: from <= j ==> !OccursAt(haystack, needle, j)
  {
    if from + |needle| > |haystack| then None
    else if haystack[from..from + |needle|] == needle then Some(from)
    else FindFrom(haystack, needle, from + 1)
  }

  /** `strpos($haystack, $needle)`: the first position of the needle, or
      false (None). An empty needle is found at position 0. */
  function Strpos(haystack: string, needle: string): (r: Option<nat>)
  {
    FindFrom(haystack, needle, 0)
  }

  /** `strpos(...) !== false` holds exactly when the needle occurs. */
  lemma StrposFindsExactlyOccurrences(haystack: string, needle: string)
    ensures Strpos(haystack, needle).Some? <==> Occurs(haystack, needle)
  {
    if Strpos(haystack, needle).Some? {
      assert OccursAt(haystack, needle, Strpos(haystack, needle).value);
    }
  }

  /** The position strpos reports is the first occurrence. */
  lemma StrposIsFirst(haystack: string, needle: string, i: nat)
    requires OccursAt(haystack, needle, i)
    ensures Strpos(haystack, needle).Some?
    ensures Strpos(haystack, needle).value <= i
  {
  }

  /** A match at position 0 is a match: the source compares with `!==`, so the
      position 0 is not mistaken for false. */
  lemma PrefixIsFound(haystack: string, needle: string)
    requires |needle| <= |haystack| && haystack[..|needle|] == needle
    ensures Strpos(haystack, needle) == Some(0)
  {
  }

  // ---------------------------------------------------------------------------
  // Ordered arrays

  function KeysOf<V>(a: OrderedArray<V>): (r: seq<Key>)
    ensures |r| == |a|
    ensures forall i :: 0 <= i < |a| ==> r[i] == a[i].0
  {
    if a == [] then [] else [a[0].0] + KeysOf(a[1..])
  }

  /** Every PHP array has pairwise distinct keys. */
  ghost predicate DistinctKeys<V>(a: OrderedArray<V>)
  {
    forall i, j :: 0 <= i < j < |a| ==> a[i].0 != a[j].0
  }

  /** The array seen as a finite map from key to value. */
  function ToMap<V>(a: OrderedArray<V>): (m: map<Key, V>)
  {
    if a == [] then map[] else ToMap(a[1..])[a[0].0 := a[0].1]
  }

  /** Dropping the first entry keeps the keys distinct, and the first key
      does not come back. */
  lemma {:induction false} TailDistinct<V>(a: OrderedArray<V>)
    requires a != [] && DistinctKeys(a)
    ensures DistinctKeys(a[1..])
    ensures a[0].0 !in KeysOf(a[1..])
  {
    forall j | 0 <= j < |a[1..]| ensures KeysOf(a[1..])[j] != a[0].0 {
      assert a[1..][j] == a[j + 1];
    }
  }

  /** Putting an entry in front of a distinct-key array whose keys do not
      include its own keeps the keys distinct. */
  lemma ConsDistinct<V>(e: (Key, V), a: OrderedArray<V>)
    requires DistinctKeys(a)
    requires e.0 !in KeysOf(a)
    ensures DistinctKeys([e] + a)
  {
    var r := [e] + a;
    forall i, j | 0 <= i < j < |r| ensures r[i].0 != r[j].0 {
      assert r[j] == a[j - 1];
      if i == 0 {
        assert KeysOf(a)[j - 1] == r[j].0;
      } else {
        assert r[i] == a[i - 1];
      }
    }
  }

  /** The map has exactly the array's keys. */
  lemma {:induction false} ToMapKeys<V>(a: OrderedArray<V>, k: Key)
    ensures k in ToMap(a) <==> k in KeysOf(a)
  {
    if a != [] {
      ToMapKeys(a[1..], k);
      assert KeysOf(a) == [a[0].0] + KeysOf(a[1..]);
    }
  }

  /** With distinct keys, every entry is what the map holds for its key. */
  lemma {:induction false} ToMapAt<V>(a: OrderedArray<V>, i: nat)
    requires DistinctKeys(a)
    requires i < |a|
    ensures a[i].0 in ToMap(a) && ToMap(a)[a[i].0] == a[i].1
  {
    if i > 0 {
      ToMapAt(a[1..], i - 1);
    }
  }

  /** With distinct keys the map has one key per entry. */
  lemma {:induction false} ToMapSize<V>(a: OrderedArray<V>)
    requires DistinctKeys(a)
    ensures |ToMap(a)| == |a|
  {
    if a != [] {
      ToMapSize(a[1..]);
      ToMapKeys(a[1..], a[0].0);
      assert a[0].0 !in KeysOf(a[1..]) by {
        forall j | 0 <= j < |a[1..]| ensures KeysOf(a[1..])[j] != a[0].0 {
          assert a[1..][j] == a[j + 1];
        }
      }
    }
  }

  /** `$a[$k] = $v`: an existing key keeps its position and takes the new
      value; a new key is appended at the end. */
  function Put<V>(a: OrderedArray<V>, k: Key, v: V): (r: OrderedArray<V>)
    ensures k !in KeysOf(a) ==> r == a + [(k, v)]
    ensures k in KeysOf(a) ==> |r| == |a|
  {
    if a == [] then [(k, v)]
    else if a[0].0 == k then [(k, v)] + a[1..]
    else [a[0]] + Put(a[1..], k, v)
  }

  /** An overwrite replaces the one entry that holds the key, in place. */
  lemma {:induction false} PutOverwritesInPlace<V>(a: OrderedArray<V>, k: Key, v: V, i: nat)
    requires DistinctKeys(a)
    requires i < |a| && a[i].0 == k
    ensures Put(a, k, v) == a[i := (k, v)]
  {
    if i > 0 {
      PutOverwritesInPlace(a[1..], k, v, i - 1);
      assert a[1..][i - 1 := (k, v)] == a[i := (k, v)][1..];
    } else {
      assert [(k, v)] + a[1..] == a[0 := (k, v)];
    }
  }

  /** `$a[$k] = $v` never reorders or renames keys: an existing key stays,
      a new one is appended. */
  lemma {:induction false} PutKeys<V>(a: OrderedArray<V>, k: Key, v: V)
    ensures KeysOf(Put(a, k, v)) == if k in KeysOf(a) then KeysOf(a) else KeysOf(a) + [k]
  {
    if a != [] && k in KeysOf(a) {
      assert KeysOf(a) == [a[0].0] + KeysOf(a[1..]);
      if a[0].0 != k {
        PutKeys(a[1..], k, v);
        assert KeysOf(Put(a, k, v)) == [a[0].0] + KeysOf(Put(a[1..], k, v));
      } else {
        assert KeysOf(Put(a, k, v)) == [k] + KeysOf(a[1..]);
      }
    }
  }

  /** The keys stay pairwise distinct. */
  lemma PutDistinct<V>(a: OrderedArray<V>, k: Key, v: V)
    requires DistinctKeys(a)
    ensures DistinctKeys(Put(a, k, v))
  {
    PutKeys(a, k, v);
    var r := Put(a, k, v);
    if k !in KeysOf(a) {
      forall i, j | 0 <= i < j < |r| ensures r[i].0 != r[j].0 {
        if j == |a| {
          assert r[i].0 == KeysOf(a)[i];
        }
      }
    } else {
      forall i, j | 0 <= i < j < |r| ensures r[i].0 != r[j].0 {
        assert KeysOf(r)[i] == KeysOf(a)[i] && KeysOf(r)[j] == KeysOf(a)[j];
      }
    }
  }

  /** After `$a[$k] = $v` the key holds v and every other key its old
      value. */
  lemma {:induction false} PutMap<V>(a: OrderedArray<V>, k: Key, v: V)
    ensures ToMap(Put(a, k, v)) == ToMap(a)[k := v]
  {
    if a != [] {
      if a[0].0 == k {
        assert Put(a, k, v)[1..] == a[1..];
      } else {
        PutMap(a[1..], k, v);
        assert Put(a, k, v)[1..] == Put(a[1..], k, v);
      }
    }
  }

  /** The number of entries grows by one exactly when the key was new. */
  lemma PutSize<V>(a: OrderedArray<V>, k: Key, v: V)
    requires DistinctKeys(a)
    ensures k in ToMap(a) ==> |ToMap(Put(a, k, v))| == |ToMap(a)|
    ensures k !in ToMap(a) ==> |ToMap(Put(a, k, v))| == |ToMap(a)| + 1
  {
    PutDistinct(a, k, v);
    ToMapKeys(a, k);
    ToMapSize(a);
    ToMapSize(Put(a, k, v));
  }
}
