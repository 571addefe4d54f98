/** PHP arrays with string keys: ordered maps, kept as a sequence of
    key-value entries in insertion order. A PHP array never holds a key
    twice, so every operation here keeps `DistinctKeys`. */
module PhpArrays {
  import opened PhpStrings

  type PhpArray<V> = seq<(string, V)>

  predicate DistinctKeys<V>(a: PhpArray<V>) {
    forall i, j :: 0 <= i < j < |a| ==> a[i].0 != a[j].0
  }

  /** array_key_exists($k, $a). */
  predicate HasKey<V>(a: PhpArray<V>, k: string) {
    exists i :: 0 <= i < |a| && a[i].0 == k
  }

  /** The position of key `k`, if it is present. */
  function IndexOf<V>(a: PhpArray<V>, k: string): (r: Option<nat>)
    ensures r.Some? ==> r.value < |a| && a[r.value].0 == k
    ensures r.None? <==> !HasKey(a, k)
  {
    if a == [] then None
    else if a[|a| - 1].0 == k then Some(|a| - 1)
    else
      var r := IndexOf(a[..|a| - 1], k);
      assert r.None? ==> forall i :: 0 <= i < |a| ==> a[i].0 != k by {
        if r.None? {
          forall i | 0 <= i < |a| ensures a[i].0 != k {
            if i < |a| - 1 { assert a[..|a| - 1][i] == a[i]; }
          }
        }
      }
      r
  }

  /** $a[$k]: the value under `k`, or None when the key is absent. */
  function Get<V>(a: PhpArray<V>, k: string): (r: Option<V>)
    ensures r.Some? <==> HasKey(a, k)
  {
    match IndexOf(a, k)
    case Some(i) => Some(a[i].1)
    case None => None
  }

  /** In an array without repeated keys, Get finds the entry of its key. */
  lemma {:induction false} GetAt<V>(a: PhpArray<V>, i: nat)
    requires DistinctKeys(a) && i < |a|
    ensures Get(a, a[i].0) == Some(a[i].1)
  {
    var j := IndexOf(a, a[i].0).value;
    assert !(i < j) && !(j < i);
  }

  /** $a[$k] = $v: an existing key keeps its place and takes the new value;
      a new key is appended. */
  function Set<V>(a: PhpArray<V>, k: string, v: V): (r: PhpArray<V>)
  {
    match IndexOf(a, k)
    case Some(i) => a[i := (k, v)]
    case None => a + [(k, v)]
  }

  /** After an assignment the key holds the value, every other key is as
      before, and no key is repeated. */
  lemma {:induction false} SetSpec<V>(a: PhpArray<V>, k: string, v: V)
    requires DistinctKeys(a)
    ensures DistinctKeys(Set(a, k, v))
    ensures Get(Set(a, k, v), k) == Some(v)
    ensures forall o :: o != k ==> Get(Set(a, k, v), o) == Get(a, o)
    ensures |a| <= |Set(a, k, v)| && forall i :: 0 <= i < |a| ==> Set(a, k, v)[i].0 == a[i].0
    ensures HasKey(a, k) ==> |Set(a, k, v)| == |a|
    ensures !HasKey(a, k) ==> Set(a, k, v) == a + [(k, v)]
  {
    var r := Set(a, k, v);
    var p := if HasKey(a, k) then IndexOf(a, k).value else |a|;
    assert r[p] == (k, v);
    forall j | 0 <= j < |r| && j != p ensures r[j] == a[j] { }
    forall i, j | 0 <= i < j < |r| ensures r[i].0 != r[j].0 {
      if j == p { assert a[i].0 != k by { assert p < |a| ==> a[p].0 == k; } }
      else if i == p { assert a[j].0 != a[p].0; }
    }
    GetAt(r, p);
    forall o | o != k ensures Get(r, o) == Get(a, o) {
      if HasKey(a, o) {
        var q := IndexOf(a, o).value;
        GetAt(a, q);
        GetAt(r, q);
      } else {
        forall j | 0 <= j < |r| ensures r[j].0 != o {
          if j != p { assert r[j] == a[j]; }
        }
      }
    }
  }

  /** Assigning the value a key already holds changes nothing. */
  lemma {:induction false} SetSame<V>(a: PhpArray<V>, k: string, v: V)
    requires DistinctKeys(a) && Get(a, k) == Some(v)
    ensures Set(a, k, v) == a
  {
    var p := IndexOf(a, k).value;
    assert a[p] == (k, v);
  }

  /** unset($a[$k]): the entry of `k` goes, the others keep their order. */
  function Unset<V>(a: PhpArray<V>, k: string): (r: PhpArray<V>)
  {
    match IndexOf(a, k)
    case Some(i) => a[..i] + a[i + 1..]
    case None => a
  }

  /** After unset the key is gone, every other key is as before, and no key
      is repeated; the one entry of the key is dropped and the others keep
      their order. */
  lemma {:induction false} UnsetSpec<V>(a: PhpArray<V>, k: string)
    requires DistinctKeys(a)
    ensures HasKey(a, k) ==>
      (exists p :: 0 <= p < |a| && a[p].0 == k && |Unset(a, k)| == |a| - 1 &&
        forall j :: 0 <= j < |a| - 1 ==> Unset(a, k)[j] == a[if j < p then j else j + 1])
    ensures DistinctKeys(Unset(a, k))
    ensures !HasKey(Unset(a, k), k)
    ensures forall o :: o != k ==> Get(Unset(a, k), o) == Get(a, o)
    ensures !HasKey(a, k) ==> Unset(a, k) == a
  {
    var r := Unset(a, k);
    if HasKey(a, k) {
      var p := IndexOf(a, k).value;
      forall j | 0 <= j < |r| ensures r[j] == a[if j < p then j else j + 1] { }
      assert a[p].0 == k && |r| == |a| - 1;
      forall i, j | 0 <= i < j < |r| ensures r[i].0 != r[j].0 {
        assert r[i] == a[if i < p then i else i + 1] && r[j] == a[if j < p then j else j + 1];
      }
      forall j | 0 <= j < |r| ensures r[j].0 != k {
        assert r[j] == a[if j < p then j else j + 1];
      }
      forall o | o != k ensures Get(r, o) == Get(a, o) {
        if HasKey(a, o) {
          var q := IndexOf(a, o).value;
          GetAt(a, q);
          var q' := if q < p then q else q - 1;
          assert r[q'] == a[q];
          GetAt(r, q');
        } else {
          forall j | 0 <= j < |r| ensures r[j].0 != o {
            assert r[j] == a[if j < p then j else j + 1];
          }
        }
      }
    }
  }

  /** Looking a key up in an array by its first entry and the rest. */
  lemma {:induction false} HeadGet<V>(a: PhpArray<V>, k: string)
    requires a != [] && DistinctKeys(a)
    ensures Get(a, k) == if a[0].0 == k then Some(a[0].1) else Get(a[1..], k)
  {
    var t := a[1..];
    if a[0].0 == k {
      GetAt(a, 0);
    } else if HasKey(t, k) {
      var i := IndexOf(t, k).value;
      assert t[i] == a[i + 1];
      assert DistinctKeys(t) by {
        forall x, y | 0 <= x < y < |t| ensures t[x].0 != t[y].0 { assert t[x] == a[x + 1] && t[y] == a[y + 1]; }
      }
      GetAt(t, i);
      GetAt(a, i + 1);
    } else {
      forall i | 0 <= i < |a| ensures a[i].0 != k {
        if i > 0 { assert a[i] == t[i - 1]; }
      }
    }
  }

  /** array_merge($a, $b) for string keys: each entry of `b` in turn is
      assigned into `a`, so a key of `a` keeps its place and takes the value
      from `b`, and a new key is appended. */
  function Merge<V>(a: PhpArray<V>, b: PhpArray<V>): PhpArray<V>
    decreases |b|
  {
    if b == [] then a else Merge(Set(a, b[0].0, b[0].1), b[1..])
  }

  /** The entries after the first repeat no key either. */
  lemma {:induction false} DistinctTail<V>(b: PhpArray<V>)
    requires b != [] && DistinctKeys(b)
    ensures DistinctKeys(b[1..])
  {
    var t := b[1..];
    forall x, y | 0 <= x < y < |t| ensures t[x].0 != t[y].0 { assert t[x] == b[x + 1] && t[y] == b[y + 1]; }
  }

  /** array_merge repeats no key, and the keys of `a` stay in their places at the front. */
  lemma {:induction false} MergeKeepsOrder<V>(a: PhpArray<V>, b: PhpArray<V>)
    requires DistinctKeys(a)
    ensures DistinctKeys(Merge(a, b))
    ensures |a| <= |Merge(a, b)| && forall i :: 0 <= i < |a| ==> Merge(a, b)[i].0 == a[i].0
    decreases |b|
  {
    if b != [] {
      SetSpec(a, b[0].0, b[0].1);
      MergeKeepsOrder(Set(a, b[0].0, b[0].1), b[1..]);
    }
  }

  /** array_merge: a key of `b` takes its value from `b`, any other key keeps its value from `a`. */
  lemma {:induction false} MergeGet<V>(a: PhpArray<V>, b: PhpArray<V>, k: string)
    requires DistinctKeys(a) && DistinctKeys(b)
    ensures Get(Merge(a, b), k) == if HasKey(b, k) then Get(b, k) else Get(a, k)
    decreases |b|
  {
    if b != [] {
      var (k0, v0) := b[0];
      SetSpec(a, k0, v0);
      DistinctTail(b);
      MergeGet(Set(a, k0, v0), b[1..], k);
      HeadGet(b, k);
      if k != k0 && !HasKey(b[1..], k) {
        forall i | 0 <= i < |b| ensures b[i].0 != k {
          if i > 0 { assert b[i] == b[1..][i - 1]; }
        }
      }
    }
  }

  /** With no key in common, array_merge appends `b` to `a`. */
  lemma {:induction false} MergeFresh<V>(a: PhpArray<V>, b: PhpArray<V>)
    requires DistinctKeys(a + b)
    ensures Merge(a, b) == a + b
    decreases |b|
  {
    if b != [] {
      var (k0, v0) := b[0];
      assert DistinctKeys(a) by {
        forall i, j | 0 <= i < j < |a| ensures a[i].0 != a[j].0 { assert (a + b)[i] == a[i] && (a + b)[j] == a[j]; }
      }
      forall i | 0 <= i < |a| ensures a[i].0 != k0 { assert (a + b)[i] == a[i] && (a + b)[|a|] == b[0]; }
      SetSpec(a, k0, v0);
      assert (a + [(k0, v0)]) + b[1..] == a + b;
      MergeFresh(a + [(k0, v0)], b[1..]);
    }
  }

  /** Two arrays without a key in common put together repeat no key. */
  lemma {:induction false} DistinctAppend<V>(x: PhpArray<V>, y: PhpArray<V>)
    requires DistinctKeys(x) && DistinctKeys(y)
    requires forall j :: 0 <= j < |y| ==> !HasKey(x, y[j].0)
    ensures DistinctKeys(x + y)
  {
    forall i, j | 0 <= i < j < |x + y| ensures (x + y)[i].0 != (x + y)[j].0 {
      if j >= |x| {
        if i < |x| {
          assert !HasKey(x, y[j - |x|].0);
          assert (x + y)[i] == x[i];
        } else {
          assert (x + y)[i] == y[i - |x|];
        }
      }
    }
  }

  /** array_slice($a, $offset, $length) for a non-negative offset; string
      keys are kept. A missing length takes the rest of the array. */
  function Slice<V>(a: PhpArray<V>, offset: nat, length: Option<nat>): (r: PhpArray<V>)
  {
    var start := if offset < |a| then offset else |a|;
    var end := match length
      case None => |a|
      case Some(n) => if start + n < |a| then start + n else |a|;
    a[start..end]
  }

  /** A slice keeps the entries between two positions, in order, and so
      repeats no key; the two halves cut at `n` put the array back together. */
  lemma {:induction false} SliceSpec<V>(a: PhpArray<V>, n: nat)
    requires DistinctKeys(a)
    ensures DistinctKeys(Slice(a, 0, Some(n))) && DistinctKeys(Slice(a, n, None))
    ensures Slice(a, 0, Some(n)) + Slice(a, n, None) == a
    ensures |Slice(a, 0, Some(n))| == if n < |a| then n else |a|
  {
    var m := if n < |a| then n else |a|;
    var (x, y) := (Slice(a, 0, Some(n)), Slice(a, n, None));
    assert x == a[..m] && y == a[m..];
    forall i, j | 0 <= i < j < |y| ensures y[i].0 != y[j].0 { assert y[i] == a[m + i] && y[j] == a[m + j]; }
    assert a[..m] + a[m..] == a;
  }
}
