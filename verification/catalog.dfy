/** `VkUser._get_photo_params`: the catalog, a dict from like count to the
    entries of the photos with that many likes. */
module Catalog {
  import opened Wrappers
  import opened Seqs
  import opened PyDict
  import opened Photos

  type Catalog = Dict<int, seq<Entry>>

  function Likes(es: seq<Entry>): (ks: seq<int>)
    ensures |ks| == |es|
    ensures forall i :: 0 <= i < |es| ==> ks[i] == es[i].likes
  {
    if |es| == 0 then [] else [es[0].likes] + Likes(es[1..])
  }

  /** The entries with `k` likes, in source order. */
  function WithLikes(es: seq<Entry>, k: int): (r: seq<Entry>)
    ensures forall e :: e in r <==> e in es && e.likes == k
    ensures |r| > 0 <==> k in Likes(es)
  {
    if |es| == 0 then []
    else if es[0].likes == k then [es[0]] + WithLikes(es[1..], k)
    else WithLikes(es[1..], k)
  }

  /** One iteration: `result[likes] = result.get(likes, []) + [entry]`. */
  function AddEntry(d: Catalog, e: Entry): (r: Catalog)
    ensures Keys(r) == if e.likes in Keys(d) then Keys(d) else Keys(d) + [e.likes]
    ensures GetOr(r, e.likes, []) == GetOr(d, e.likes, []) + [e]
    ensures forall k :: k != e.likes ==> Get(r, k) == Get(d, k)
  {
    PutSpec(d, e.likes, GetOr(d, e.likes, []) + [e]);
    Put(d, e.likes, GetOr(d, e.likes, []) + [e])
  }

  function GroupInto(d: Catalog, es: seq<Entry>): Catalog
    decreases |es|
  {
    if |es| == 0 then d else GroupInto(AddEntry(d, es[0]), es[1..])
  }

  /** The grouping loop over the entries, from an empty dict. It keeps like
      counts in first-occurrence order, stores under each count exactly the
      entries with that count in source order, and loses no entry. */
  function Group(es: seq<Entry>): (c: Catalog)
    ensures Keys(c) == Dedup(Likes(es))
    ensures forall k :: k in Likes(es) ==> Get(c, k) == Some(WithLikes(es, k))
    ensures forall k :: k !in Likes(es) ==> Get(c, k) == None
    ensures TotalLength(c) == |es|
  {
    GroupSpec(es);
    GroupInto([], es)
  }

  /** Every bucket is non-empty and holds only entries with its own like count. */
  predicate WellGrouped(c: Catalog) {
    && Valid(c)
    && (forall b :: 0 <= b < |c| ==> |c[b].1| > 0)
    && (forall b, j :: 0 <= b < |c| && 0 <= j < |c[b].1| ==> c[b].1[j].likes == c[b].0)
  }

  lemma {:induction false} GroupIntoKeys(d: Catalog, es: seq<Entry>)
    ensures Keys(GroupInto(d, es)) == AppendNew(Keys(d), Likes(es))
    decreases |es|
  {
    if |es| > 0 {
      GroupIntoKeys(AddEntry(d, es[0]), es[1..]);
    }
  }

  lemma {:induction false} GroupIntoBucket(d: Catalog, es: seq<Entry>, k: int)
    ensures GetOr(GroupInto(d, es), k, []) == GetOr(d, k, []) + WithLikes(es, k)
    decreases |es|
  {
    if |es| > 0 {
      var d' := AddEntry(d, es[0]);
      GroupIntoBucket(d', es[1..], k);
      var own := if es[0].likes == k then [es[0]] else [];
      assert WithLikes(es, k) == own + WithLikes(es[1..], k);
      ConcatAssoc(GetOr(d, k, []), own, WithLikes(es[1..], k));
    }
  }

  lemma {:induction false} GroupIntoTotal(d: Catalog, es: seq<Entry>)
    ensures TotalLength(GroupInto(d, es)) == TotalLength(d) + |es|
    decreases |es|
  {
    if |es| > 0 {
      PutTotalLength(d, es[0].likes, GetOr(d, es[0].likes, []) + [es[0]]);
      GroupIntoTotal(AddEntry(d, es[0]), es[1..]);
    }
  }

  lemma GroupSpec(es: seq<Entry>)
    ensures Keys(GroupInto([], es)) == Dedup(Likes(es))
    ensures forall k :: k in Likes(es) ==> Get(GroupInto([], es), k) == Some(WithLikes(es, k))
    ensures forall k :: k !in Likes(es) ==> Get(GroupInto([], es), k) == None
    ensures TotalLength(GroupInto([], es)) == |es|
  {
    var c := GroupInto([], es);
    GroupIntoKeys([], es);
    GroupIntoTotal([], es);
    assert Keys(c) == Dedup(Likes(es));
    forall k ensures Get(c, k) == if k in Likes(es) then Some(WithLikes(es, k)) else None {
      DedupSpec(Likes(es));
      assert k in Keys(c) <==> k in Likes(es);
      GroupIntoBucket([], es, k);
      assert GetOr(c, k, []) == WithLikes(es, k);
    }
  }

  /** The grouped dict is well grouped: each bucket is the non-empty list of
      entries with its like count. */
  lemma GroupWellGrouped(es: seq<Entry>)
    ensures WellGrouped(Group(es))
    ensures forall b :: 0 <= b < |Group(es)| ==> Group(es)[b].1 == WithLikes(es, Group(es)[b].0)
  {
    var c := Group(es);
    DedupSpec(Likes(es));
    forall b | 0 <= b < |c| ensures c[b].1 == WithLikes(es, c[b].0) && |c[b].1| > 0 {
      GetAt(c, b);
      assert Keys(c)[b] == c[b].0;
      assert c[b].0 in Likes(es);
    }
    forall b, j | 0 <= b < |c| && 0 <= j < |c[b].1| ensures c[b].1[j].likes == c[b].0 {
      assert c[b].1[j] in WithLikes(es, c[b].0);
    }
  }

  /** `_get_photo_params` with the HTTP fetch replaced by its `count` and `items`. */
  function GetPhotoParams(count: int, items: seq<Photo>, stamp: int -> string): (r: Result<Catalog, Failure>)
    ensures r.Success? <==> forall i: nat :: i < count ==> !Broken(items, i)
    ensures r.Success? ==>
              var es := BuildEntries(count, items, stamp).value;
              && WellGrouped(r.value)
              && TotalLength(r.value) == |es| == (if count < 0 then 0 else count)
              && Keys(r.value) == Dedup(Likes(es))
              && forall k :: k in Likes(es) ==> Get(r.value, k) == Some(WithLikes(es, k))
  {
    var es :- BuildEntries(count, items, stamp);
    GroupWellGrouped(es);
    Success(Group(es))
  }
}
