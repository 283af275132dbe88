/**
 * PHP's ordered arrays as far as request data needs them: integer or string
 * keys, values that are null, a scalar or a nested array, and the built-ins
 * the request helpers call on them (`array_keys`, `range`, `$a[$k] = $v`,
 * `$a[$k] ?? $d`, and the cast of integer-like string keys).
 */
module PhpArrays {
  import opened Wrappers
  import opened PhpStrings

  /** An array key. PHP stores an integer-like string key as an integer. */
  datatype Key = IntKey(i: int) | StrKey(s: string)

  /**
   * A PHP value in request data. `Scalar` stands for any non-null, non-array
   * value (strings from the query or the form; numbers and booleans from a
   * decoded JSON body, carried by their text, which nothing here inspects).
   */
  datatype Value = Null | Scalar(text: string) | Arr(entries: seq<(Key, Value)>)

  /** The key/value pairs of an array, in iteration order. */
  type Entries = seq<(Key, Value)>

  const PhpIntMax: int := 0x7FFF_FFFF_FFFF_FFFF
  const PhpIntMin: int := -0x8000_0000_0000_0000

  /** The key `$a[$s]` uses for a string `$s` (64-bit PHP): canonical decimal integers in range become integer keys. */
  function ArrayKey(s: string): (k: Key)
    ensures k.StrKey? ==> k.s == s
    ensures k.IntKey? ==> PhpIntMin <= k.i <= PhpIntMax
  {
    if IsCanonicalInteger(s) && PhpIntMin <= IntegerValue(s) <= PhpIntMax then IntKey(IntegerValue(s))
    else StrKey(s)
  }

  /** The string of an in-range integer is read back as that integer key. */
  lemma ArrayKeyOfIntegerString(n: int)
    requires PhpIntMin <= n <= PhpIntMax
    ensures ArrayKey(IntegerString(n)) == IntKey(n)
  {
    IntegerStringRoundTrip(n);
  }

  /** An integer key only ever comes from the canonical text of that integer. */
  lemma ArrayKeyIntOnlyFromCanonical(s: string, n: int)
    requires ArrayKey(s) == IntKey(n)
    ensures s == IntegerString(n) && PhpIntMin <= n <= PhpIntMax
  {
    IntegerStringOfValue(s);
  }

  /** Different strings never address the same array element. */
  lemma ArrayKeyInjective(s: string, t: string)
    requires ArrayKey(s) == ArrayKey(t)
    ensures s == t
  {
    if ArrayKey(s).IntKey? {
      ArrayKeyIntOnlyFromCanonical(s, ArrayKey(s).i);
      ArrayKeyIntOnlyFromCanonical(t, ArrayKey(s).i);
    }
  }

  /** `array_keys($a)`. */
  function KeysOf(es: Entries): (ks: seq<Key>)
    ensures |ks| == |es|
    ensures forall i :: 0 <= i < |es| ==> ks[i] == es[i].0
  {
    seq(|es|, i requires 0 <= i < |es| => es[i].0)
  }

  /** A list of integers as array keys, for comparing `array_keys(...)` with `range(...)`. */
  function IntKeys(xs: seq<int>): (ks: seq<Key>)
    ensures |ks| == |xs|
    ensures forall i :: 0 <= i < |xs| ==> ks[i] == IntKey(xs[i])
  {
    seq(|xs|, i requires 0 <= i < |xs| => IntKey(xs[i]))
  }

  /**
   * `range($lo, $hi)` with integer bounds and the default step: from `lo` up
   * to `hi` when `lo <= hi`, otherwise from `lo` down to `hi`; both ends included.
   */
  function PhpRange(lo: int, hi: int): (r: seq<int>)
    decreases if lo <= hi then hi - lo else lo - hi
    ensures |r| == (if lo <= hi then hi - lo + 1 else lo - hi + 1)
    ensures forall j :: 0 <= j < |r| ==> r[j] == (if lo <= hi then lo + j else lo - j)
  {
    if lo == hi then [lo]
    else if lo < hi then [lo] + PhpRange(lo + 1, hi)
    else [lo] + PhpRange(lo - 1, hi)
  }

  /** The position of key `k`, the first one if (against PHP's invariant) it occurs twice. */
  function IndexOf(es: Entries, k: Key): (r: Option<nat>)
    ensures r.Some? ==> r.value < |es| && es[r.value].0 == k
    ensures r.Some? ==> forall j :: 0 <= j < r.value ==> es[j].0 != k
    ensures r.None? <==> forall j :: 0 <= j < |es| ==> es[j].0 != k
  {
    if es == [] then None
    else if es[0].0 == k then Some(0)
    else match IndexOf(es[1..], k)
      case Some(i) => Some(i + 1)
      case None => None
  }

  /** Where a key sits depends only on the list of keys. */
  lemma IndexOfDependsOnKeys(a: Entries, b: Entries, k: Key)
    requires KeysOf(a) == KeysOf(b)
    ensures IndexOf(a, k) == IndexOf(b, k)
  {
    assert forall j :: 0 <= j < |a| ==> a[j].0 == KeysOf(a)[j] == KeysOf(b)[j] == b[j].0;
  }

  /** `$a[$k]` when the key is set, None when it is not. */
  function Lookup(es: Entries, k: Key): (r: Option<Value>)
    ensures r.None? <==> forall j :: 0 <= j < |es| ==> es[j].0 != k
    ensures forall i :: 0 <= i < |es| && es[i].0 == k && (forall j :: 0 <= j < i ==> es[j].0 != k) ==>
              r == Some(es[i].1)
  {
    match IndexOf(es, k)
    case Some(i) => Some(es[i].1)
    case None => None
  }

  /** `$a[$k] ?? $default`: the element when it is set and not null, otherwise the default. */
  function Coalesce(es: Entries, k: Key, default: Value): (r: Value)
    ensures (forall i :: 0 <= i < |es| ==> es[i].0 != k) ==> r == default
    ensures forall i :: 0 <= i < |es| && es[i].0 == k && (forall j :: 0 <= j < i ==> es[j].0 != k) ==>
              r == (if es[i].1.Null? then default else es[i].1)
  {
    match Lookup(es, k)
    case Some(v) => if v.Null? then default else v
    case None => default
  }

  /**
   * `$a[$k] = $v`: an existing key keeps its place and takes the new value;
   * a new key is appended at the end.
   */
  function Put(es: Entries, k: Key, v: Value): Entries {
    match IndexOf(es, k)
    case Some(i) => es[i := (k, v)]
    case None => es + [(k, v)]
  }

  /** After `$a[$k] = $v` the key list is unchanged when `$k` was present, and has `$k` appended when it was not. */
  lemma PutKeys(es: Entries, k: Key, v: Value)
    ensures KeysOf(Put(es, k, v)) == if IndexOf(es, k).Some? then KeysOf(es) else KeysOf(es) + [k]
  {
    var r := Put(es, k, v);
    if IndexOf(es, k).None? {
      assert forall j :: 0 <= j < |KeysOf(r)| ==> KeysOf(r)[j] == (KeysOf(es) + [k])[j];
    }
  }

  /** After `$a[$k] = $v`, `$a[$k]` is `$v`. */
  lemma PutReadsBack(es: Entries, k: Key, v: Value)
    ensures Lookup(Put(es, k, v), k) == Some(v)
  {
    var r := Put(es, k, v);
    if IndexOf(es, k).Some? {
      PutKeys(es, k, v);
      IndexOfDependsOnKeys(r, es, k);
    } else {
      assert forall j :: 0 <= j < |es| ==> r[j] == es[j];
      assert r[|es|].0 == k;
    }
  }

  /** `$a[$k] = $v` leaves every other key reading what it read before. */
  lemma PutLeavesOthers(es: Entries, k: Key, v: Value, other: Key)
    requires other != k
    ensures Lookup(Put(es, k, v), other) == Lookup(es, other)
  {
    var r := Put(es, k, v);
    if IndexOf(es, k).Some? {
      PutKeys(es, k, v);
      IndexOfDependsOnKeys(r, es, other);
    } else {
      assert forall j :: 0 <= j < |es| ==> r[j] == es[j];
      assert r[|es|].0 == k;
    }
  }

  /** Assigning to a key the array does not have appends the pair. */
  lemma PutNewKeyAppends(es: Entries, k: Key, v: Value)
    requires forall j :: 0 <= j < |es| ==> es[j].0 != k
    ensures Put(es, k, v) == es + [(k, v)]
  {
  }

  /** No key occurs twice. */
  predicate DistinctKeys(es: Entries) {
    forall i, j :: 0 <= i < j < |es| ==> es[i].0 != es[j].0
  }

  /** Every array in the value, at every depth, has distinct keys, as every PHP array does. */
  predicate WellFormed(v: Value) {
    match v
    case Arr(es) => DistinctKeys(es) && forall i :: 0 <= i < |es| ==> WellFormed(es[i].1)
    case _ => true
  }

  /** Assignment keeps the keys distinct. */
  lemma PutKeepsKeysDistinct(es: Entries, k: Key, v: Value)
    requires DistinctKeys(es)
    ensures DistinctKeys(Put(es, k, v))
  {
    var r := Put(es, k, v);
    PutKeys(es, k, v);
    forall i, j | 0 <= i < j < |r| ensures r[i].0 != r[j].0 {
      assert r[i].0 == KeysOf(r)[i] && r[j].0 == KeysOf(r)[j];
    }
  }
}
