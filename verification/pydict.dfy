/** A Python `dict` as an association sequence: keys in insertion order,
    and assigning to a key that is already present keeps its position and
    replaces its value. */
module PyDict {
  import opened Wrappers
  import opened Seqs

  type Dict<K, V> = seq<(K, V)>

  /** `d.keys()`, in iteration order. */
  function Keys<K, V>(d: Dict<K, V>): (ks: seq<K>)
    ensures |ks| == |d|
    ensures forall i :: 0 <= i < |d| ==> ks[i] == d[i].0
  {
    if |d| == 0 then [] else [d[0].0] + Keys(d[1..])
  }

  /** A dict never holds a key twice. */
  predicate Valid<K(==, !new), V>(d: Dict<K, V>) {
    NoDups(Keys(d))
  }

  /** `d.get(k)`: the value stored under `k`, if any. */
  function Get<K(==, !new), V>(d: Dict<K, V>, k: K): (r: Option<V>)
    ensures r.Some? <==> k in Keys(d)
  {
    if |d| == 0 then None
    else if d[0].0 == k then Some(d[0].1)
    else Get(d[1..], k)
  }

  /** `d.get(k, default)`. */
  function GetOr<K(==, !new), V>(d: Dict<K, V>, k: K, default: V): V {
    match Get(d, k)
    case Some(v) => v
    case None => default
  }

  /** `d[k] = v`. */
  function Put<K(==, !new), V>(d: Dict<K, V>, k: K, v: V): Dict<K, V> {
    if |d| == 0 then [(k, v)]
    else if d[0].0 == k then [(k, v)] + d[1..]
    else [d[0]] + Put(d[1..], k, v)
  }

  /** An assignment to an existing key keeps its place and replaces its value;
      a new key goes last. Every other key keeps its value. */
  lemma {:induction false} PutSpec<K(!new), V>(d: Dict<K, V>, k: K, v: V)
    ensures Keys(Put(d, k, v)) == if k in Keys(d) then Keys(d) else Keys(d) + [k]
    ensures Get(Put(d, k, v), k) == Some(v)
    ensures forall k' :: k' != k ==> Get(Put(d, k, v), k') == Get(d, k')
  {
    if |d| > 0 && d[0].0 != k {
      var r, r' := Put(d, k, v), Put(d[1..], k, v);
      PutSpec(d[1..], k, v);
      assert r[0] == d[0] && r[1..] == r';
      assert Keys(d) == [d[0].0] + Keys(d[1..]);
      assert Keys(r) == [d[0].0] + Keys(r');
    }
  }

  /** An assignment never makes a key appear twice. */
  lemma PutValid<K(!new), V>(d: Dict<K, V>, k: K, v: V)
    ensures Valid(d) ==> Valid(Put(d, k, v))
  {
    PutSpec(d, k, v);
    if k !in Keys(d) {
      NoDupsConcat(Keys(d), [k]);
    }
  }

  /** The assignments `d[p.0] = p.1` for every `p` of `ps`, in order: the
      old keys stay in place and each new key follows at its first assignment. */
  function PutAll<K(==, !new), V>(d: Dict<K, V>, ps: seq<(K, V)>): Dict<K, V>
    decreases |ps|
  {
    if |ps| == 0 then d else PutAll(Put(d, ps[0].0, ps[0].1), ps[1..])
  }

  /** A run of assignments keeps keys unique and leaves them in
      first-assignment order: the old keys, then the new ones deduplicated. */
  lemma {:induction false} PutAllKeys<K(!new), V>(d: Dict<K, V>, ps: seq<(K, V)>)
    ensures Valid(d) ==> Valid(PutAll(d, ps))
    ensures Keys(PutAll(d, ps)) == AppendNew(Keys(d), Keys(ps))
    decreases |ps|
  {
    if |ps| > 0 {
      PutSpec(d, ps[0].0, ps[0].1);
      PutValid(d, ps[0].0, ps[0].1);
      Tail(ps);
      PutAllKeys(Put(d, ps[0].0, ps[0].1), ps[1..]);
    }
  }

  /** The keys of `ps` are its first key followed by the keys of its tail. */
  lemma Tail<K, V>(ps: seq<(K, V)>)
    requires |ps| > 0
    ensures Keys(ps) == [ps[0].0] + Keys(ps[1..])
  {
  }

  lemma {:induction false} PutAllAppend<K(!new), V>(d: Dict<K, V>, xs: seq<(K, V)>, ys: seq<(K, V)>)
    ensures PutAll(d, xs + ys) == PutAll(PutAll(d, xs), ys)
    decreases |xs|
  {
    if |xs| == 0 {
      assert xs + ys == ys;
    } else {
      assert (xs + ys)[0] == xs[0] && (xs + ys)[1..] == xs[1..] + ys;
      PutAllAppend(Put(d, xs[0].0, xs[0].1), xs[1..], ys);
    }
  }

  lemma PutAllSliceFrom<K(!new), V>(d: Dict<K, V>, ps: seq<(K, V)>, j: nat)
    requires j < |ps|
    ensures PutAll(d, ps[j..]) == PutAll(Put(d, ps[j].0, ps[j].1), ps[j + 1..])
  {
    SliceFrom(ps, j);
  }

  /** A key that no assignment touches keeps its value. */
  lemma {:induction false} PutAllUntouched<K(!new), V>(d: Dict<K, V>, ps: seq<(K, V)>, k: K)
    requires k !in Keys(ps)
    ensures Get(PutAll(d, ps), k) == Get(d, k)
    decreases |ps|
  {
    if |ps| > 0 {
      assert Keys(ps)[0] == ps[0].0;
      assert Keys(ps[1..]) == Keys(ps)[1..];
      PutSpec(d, ps[0].0, ps[0].1);
      PutAllUntouched(Put(d, ps[0].0, ps[0].1), ps[1..], k);
    }
  }

  /** The last assignment to a key decides its value. */
  lemma {:induction false} PutAllLastWins<K(!new), V>(d: Dict<K, V>, ps: seq<(K, V)>, k: K, i: nat)
    requires i < |ps| && ps[i].0 == k
    requires forall j :: i < j < |ps| ==> ps[j].0 != k
    ensures Get(PutAll(d, ps), k) == Some(ps[i].1)
    decreases |ps|
  {
    var d', rest := Put(d, ps[0].0, ps[0].1), ps[1..];
    assert PutAll(d, ps) == PutAll(d', rest);
    if i == 0 {
      PutSpec(d, ps[0].0, ps[0].1);
      forall j | 0 <= j < |rest| ensures Keys(rest)[j] != k {
        assert rest[j] == ps[j + 1];
      }
      PutAllUntouched(d', rest, k);
    } else {
      assert rest[i - 1] == ps[i];
      forall j | i - 1 < j < |rest| ensures rest[j].0 != k {
        assert rest[j] == ps[j + 1];
      }
      PutAllLastWins(d', rest, k, i - 1);
    }
  }

  /** Some assignment to a key decides its value. */
  lemma PutAllGet<K(!new), V>(d: Dict<K, V>, ps: seq<(K, V)>, k: K)
    requires k in Keys(ps)
    ensures exists i :: 0 <= i < |ps| && ps[i].0 == k && Get(PutAll(d, ps), k) == Some(ps[i].1)
  {
    var i := LastKeyIndex(ps, k);
    PutAllLastWins(d, ps, k, i);
  }

  function LastKeyIndex<K(==, !new), V>(ps: seq<(K, V)>, k: K): (i: nat)
    requires k in Keys(ps)
    ensures i < |ps| && ps[i].0 == k
    ensures forall j :: i < j < |ps| ==> ps[j].0 != k
  {
    if ps[|ps| - 1].0 == k then |ps| - 1
    else
      assert Keys(ps) == Keys(ps[..|ps| - 1]) + [ps[|ps| - 1].0];
      LastKeyIndex(ps[..|ps| - 1], k)
  }

  /** In a dict without repeated keys, the key at a position finds the value there. */
  lemma {:induction false} GetAt<K(!new), V>(d: Dict<K, V>, b: nat)
    requires Valid(d) && b < |d|
    ensures Get(d, d[b].0) == Some(d[b].1)
  {
    if b > 0 {
      assert Keys(d)[0] != Keys(d)[b];
      assert Keys(d[1..]) == Keys(d)[1..];
      GetAt(d[1..], b - 1);
    }
  }

  /** Total number of elements over all the list values of a dict. */
  function TotalLength<K, T>(d: Dict<K, seq<T>>): nat {
    if |d| == 0 then 0 else |d[0].1| + TotalLength(d[1..])
  }

  /** Replacing the list under `k` changes the total by the difference in length. */
  lemma {:induction false} PutTotalLength<K(!new), T>(d: Dict<K, seq<T>>, k: K, v: seq<T>)
    ensures TotalLength(Put(d, k, v)) == TotalLength(d) - |GetOr(d, k, [])| + |v|
  {
    if |d| > 0 && d[0].0 != k {
      PutTotalLength(d[1..], k, v);
      assert Put(d, k, v)[1..] == Put(d[1..], k, v);
    } else if |d| > 0 {
      assert Put(d, k, v)[1..] == d[1..];
    }
  }
}
