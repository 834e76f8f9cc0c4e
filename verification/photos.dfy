/** Photo records as the photo-listing API returns them, the choice of the
    largest size variant (`find_photo_max_size`), and the per-photo catalog
    entries built from them. */
module Photos {
  import opened Wrappers

  /** One rendition of a photo: `{width, height, type, url}`. */
  datatype Size = Size(width: int, height: int, sizeType: string, url: string)

  /** One item of the listing: `{likes: {count}, date, sizes}`. */
  datatype Photo = Photo(likes: int, date: int, sizes: seq<Size>)

  /** `{'likes_count', 'add_name', 'url_picture', 'size'}` built for one photo. */
  datatype Entry = Entry(likes: int, addName: string, url: string, size: string)

  /** The IndexErrors the pipeline can raise. */
  datatype Failure =
    | NoSuchPhoto(index: nat)              // the listing holds fewer items than its count
    | NoSizes(index: nat)                  // a photo with an empty size list
    | NoSuchBucketEntry(likes: int, index: nat)  // the zero-like counter runs past its bucket

  function Area(s: Size): int {
    s.width * s.height
  }

  /** `r` is the index `find_photo_max_size` settles on: the first variant of
      largest area when some area is positive, and index 0 otherwise. */
  predicate IsChosen(sizes: seq<Size>, r: nat) {
    && r < |sizes|
    && if exists j :: 0 <= j < |sizes| && Area(sizes[j]) > 0 then
         && Area(sizes[r]) > 0
         && (forall j :: 0 <= j < |sizes| ==> Area(sizes[j]) <= Area(sizes[r]))
         && (forall j :: 0 <= j < r ==> Area(sizes[j]) < Area(sizes[r]))
       else r == 0
  }

  /** What holds of `(found, max_size)` after the loop has looked at `sizes[..i]`. */
  predicate ScanInv(sizes: seq<Size>, i: nat, found: nat, best: int) {
    && 0 < |sizes|
    && i <= |sizes|
    && found < |sizes|
    && best >= 0
    && (forall j :: 0 <= j < i ==> Area(sizes[j]) <= best)
    && (best == 0 ==> found == 0)
    && (best > 0 ==> found < i && Area(sizes[found]) == best &&
                      forall j :: 0 <= j < found ==> Area(sizes[j]) < best)
  }

  /** The loop of `find_photo_max_size` from position `i` on: a strictly larger
      area replaces the current choice. */
  function Scan(sizes: seq<Size>, i: nat, found: nat, best: int): (r: nat)
    requires ScanInv(sizes, i, found, best)
    ensures IsChosen(sizes, r)
    decreases |sizes| - i
  {
    if i == |sizes| then found
    else if Area(sizes[i]) > best then Scan(sizes, i + 1, i, Area(sizes[i]))
    else Scan(sizes, i + 1, found, best)
  }

  /** The index chosen from a non-empty size list, starting from `max_size = 0, found = 0`. */
  function MaxSizeIndex(sizes: seq<Size>): (r: nat)
    requires |sizes| > 0
    ensures IsChosen(sizes, r)
  {
    Scan(sizes, 0, 0, 0)
  }

  /** Only one index satisfies IsChosen, so the choice is fully determined. */
  lemma ChosenUnique(sizes: seq<Size>, r1: nat, r2: nat)
    requires IsChosen(sizes, r1) && IsChosen(sizes, r2)
    ensures r1 == r2
  {
    if exists j :: 0 <= j < |sizes| && Area(sizes[j]) > 0 {
      assert !(r1 < r2) && !(r2 < r1);
    }
  }

  /** With non-negative areas the chosen variant has the largest area, and it
      precedes every other variant of that area. */
  lemma ChosenIsLargest(sizes: seq<Size>, r: nat)
    requires IsChosen(sizes, r)
    requires forall j :: 0 <= j < |sizes| ==> Area(sizes[j]) >= 0
    ensures forall j :: 0 <= j < |sizes| ==> Area(sizes[j]) <= Area(sizes[r])
    ensures forall j :: 0 <= j < r ==> Area(sizes[j]) < Area(sizes[r])
  {
  }

  /** `find_photo_max_size`: the url and type label of the chosen variant;
      None stands for the IndexError an empty list raises. */
  function FindPhotoMaxSize(sizes: seq<Size>): (r: Option<(string, string)>)
    ensures r.None? <==> |sizes| == 0
    ensures r.Some? ==> exists k: nat :: IsChosen(sizes, k) && r.value == (sizes[k].url, sizes[k].sizeType)
  {
    if |sizes| == 0 then None
    else
      var k := MaxSizeIndex(sizes);
      Some((sizes[k].url, sizes[k].sizeType))
  }

  /** Items that make the loop of `_get_photo_params` fail at index `i`. */
  predicate Broken(items: seq<Photo>, i: nat) {
    i >= |items| || |items[i].sizes| == 0
  }

  /** The catalog entry of `p`, if its size list is not empty. */
  function ToEntry(p: Photo, stamp: int -> string): (r: Option<Entry>)
    ensures r.None? <==> |p.sizes| == 0
    ensures r.Some? ==>
              && r.value.likes == p.likes
              && r.value.addName == stamp(p.date)
              && exists k: nat :: IsChosen(p.sizes, k) &&
                   r.value.url == p.sizes[k].url && r.value.size == p.sizes[k].sizeType
  {
    match FindPhotoMaxSize(p.sizes)
    case None => None
    case Some((url, sizeType)) => Some(Entry(p.likes, stamp(p.date), url, sizeType))
  }

  /** The entries of `items[0..count)`, built in order; the first item that is
      missing or has no sizes raises. */
  function BuildEntries(count: int, items: seq<Photo>, stamp: int -> string): (r: Result<seq<Entry>, Failure>)
    ensures r.Success? <==> forall i: nat :: i < count ==> !Broken(items, i)
    ensures r.Success? ==> |r.value| == (if count < 0 then 0 else count) <= |items|
    ensures r.Success? ==> forall i :: 0 <= i < |r.value| ==>
              && r.value[i].likes == items[i].likes
              && r.value[i].addName == stamp(items[i].date)
              && exists k: nat :: IsChosen(items[i].sizes, k) &&
                   r.value[i].url == items[i].sizes[k].url && r.value[i].size == items[i].sizes[k].sizeType
    ensures r.Failure? ==> var e := r.error;
              && (e.NoSuchPhoto? || e.NoSizes?)
              && e.index < count && Broken(items, e.index)
              && (e.NoSuchPhoto? <==> e.index >= |items|)
              && forall i: nat :: i < e.index ==> !Broken(items, i)
    decreases count
  {
    if count <= 0 then Success([])
    else
      var prefix :- BuildEntries(count - 1, items, stamp);
      if count - 1 >= |items| then
        assert Broken(items, count - 1);
        Failure(NoSuchPhoto(count - 1))
      else match ToEntry(items[count - 1], stamp)
        case None =>
          assert Broken(items, count - 1);
          Failure(NoSizes(count - 1))
        case Some(e) => Success(prefix + [e])
  }
}
