/** `VkUser._sort_info`: the summary list written to the JSON report and the
    file-name to URL manifest handed to the upload step. */
module Planner {
  import opened Wrappers
  import opened Seqs
  import opened PyDict
  import opened Naming
  import opened Photos
  import opened Catalog

  /** `{'file name': ..., 'size': ...}`. */
  datatype Record = Record(fileName: string, size: string)

  /** `(json_list, sorted_dict)`. */
  datatype Plan = Plan(summary: seq<Record>, manifest: Dict<string, string>)

  /** The loop state: `counter`, `json_list` and `sorted_dict`. */
  datatype State = State(counter: nat, summary: seq<Record>, manifest: Dict<string, string>)

  /** The file name of the `j`-th entry of a bucket. */
  function NameAt(bucket: seq<Entry>, j: nat): string
    requires j < |bucket|
  {
    FileName(bucket[j].likes, |bucket|, bucket[j].addName)
  }

  /** The inner loop over one bucket from position `j` on. A zero-like entry
      takes the URL at the running `counter`; any other entry takes the URL of
      the bucket's first entry (a source quirk, kept as it is). */
  function VisitBucket(key: int, bucket: seq<Entry>, j: nat, s: State): (r: Result<State, Failure>)
    requires j <= |bucket|
    ensures r.Failure? ==> r.error.NoSuchBucketEntry? && r.error.likes == key
    decreases |bucket| - j
  {
    if j == |bucket| then Success(s)
    else
      var v := bucket[j];
      var name := NameAt(bucket, j);
      var summary := s.summary + [Record(name, v.size)];
      if v.likes == 0 then
        if s.counter < |bucket| then
          VisitBucket(key, bucket, j + 1,
                      State(s.counter + 1, summary, Put(s.manifest, name, bucket[s.counter].url)))
        else Failure(NoSuchBucketEntry(key, s.counter))
      else
        VisitBucket(key, bucket, j + 1, State(s.counter, summary, Put(s.manifest, name, bucket[0].url)))
  }

  /** The outer loop over the buckets from position `b` on, in key order. */
  function VisitBuckets(c: Catalog, b: nat, s: State): (r: Result<State, Failure>)
    requires b <= |c|
    ensures r.Failure? ==> r.error.NoSuchBucketEntry?
    decreases |c| - b
  {
    if b == |c| then Success(s)
    else
      var s' :- VisitBucket(c[b].0, c[b].1, 0, s);
      VisitBuckets(c, b + 1, s')
  }

  // Flat reference: what the two loops write, bucket after bucket.

  /** The URL the manifest receives for the `j`-th entry of a well-grouped bucket. */
  function TargetAt(bucket: seq<Entry>, j: nat): string
    requires j < |bucket|
  {
    if bucket[j].likes == 0 then bucket[j].url else bucket[0].url
  }

  function BucketRecords(bucket: seq<Entry>): seq<Record> {
    seq(|bucket|, j requires 0 <= j < |bucket| => Record(NameAt(bucket, j), bucket[j].size))
  }

  function BucketWrites(bucket: seq<Entry>): seq<(string, string)> {
    seq(|bucket|, j requires 0 <= j < |bucket| => (NameAt(bucket, j), TargetAt(bucket, j)))
  }

  function Records(c: Catalog): seq<Record> {
    if |c| == 0 then [] else BucketRecords(c[0].1) + Records(c[1..])
  }

  function Writes(c: Catalog): seq<(string, string)> {
    if |c| == 0 then [] else BucketWrites(c[0].1) + Writes(c[1..])
  }

  function Names(rs: seq<Record>): seq<string> {
    seq(|rs|, i requires 0 <= i < |rs| => rs[i].fileName)
  }

  /** No two entries of the bucket share an upload stamp. */
  predicate DistinctStamps(bucket: seq<Entry>) {
    forall j1, j2 :: 0 <= j1 < j2 < |bucket| ==> bucket[j1].addName != bucket[j2].addName
  }

  predicate StampsDistinct(c: Catalog) {
    forall b :: 0 <= b < |c| ==> DistinctStamps(c[b].1)
  }

  /** Number of entries in the buckets before position `b`. */
  function Offset(c: Catalog, b: nat): nat
    requires b <= |c|
  {
    TotalLength(c[..b])
  }

  /** One step of the inner loop on a bucket whose entries all have `key`
      likes: it appends the `j`-th record and performs the `j`-th write. */
  lemma VisitBucketStep(key: int, bucket: seq<Entry>, j: nat, s: State)
    requires j < |bucket|
    requires bucket[j].likes == key
    requires key == 0 ==> s.counter == j
    ensures VisitBucket(key, bucket, j, s) ==
              VisitBucket(key, bucket, j + 1,
                          State(if key == 0 then s.counter + 1 else s.counter,
                                s.summary + [BucketRecords(bucket)[j]],
                                Put(s.manifest, BucketWrites(bucket)[j].0, BucketWrites(bucket)[j].1)))
  {
    BucketAt(bucket, j);
  }

  lemma BucketAt(bucket: seq<Entry>, j: nat)
    requires j < |bucket|
    ensures BucketRecords(bucket)[j] == Record(NameAt(bucket, j), bucket[j].size)
    ensures BucketWrites(bucket)[j] == (NameAt(bucket, j), TargetAt(bucket, j))
  {
  }

  lemma {:induction false} VisitBucketFlat(key: int, bucket: seq<Entry>, j: nat, s: State)
    requires j <= |bucket|
    requires forall i :: 0 <= i < |bucket| ==> bucket[i].likes == key
    requires key == 0 ==> s.counter == j
    ensures VisitBucket(key, bucket, j, s) ==
              Success(State(if key == 0 then |bucket| else s.counter,
                            s.summary + BucketRecords(bucket)[j..],
                            PutAll(s.manifest, BucketWrites(bucket)[j..])))
    decreases |bucket| - j
  {
    var rs, ws := BucketRecords(bucket), BucketWrites(bucket);
    if j < |bucket| {
      var s' := State(if key == 0 then s.counter + 1 else s.counter,
                      s.summary + [rs[j]], Put(s.manifest, ws[j].0, ws[j].1));
      VisitBucketStep(key, bucket, j, s);
      VisitBucketFlat(key, bucket, j + 1, s');
      FlatStep(key, bucket, j, s);
    } else {
      FlatEnd(key, bucket, s);
    }
  }

  /** At the end of a bucket the loop stops, and nothing is left to record or write. */
  lemma FlatEnd(key: int, bucket: seq<Entry>, s: State)
    requires key == 0 ==> s.counter == |bucket|
    ensures VisitBucket(key, bucket, |bucket|, s) ==
              Success(State(if key == 0 then |bucket| else s.counter,
                            s.summary + BucketRecords(bucket)[|bucket|..],
                            PutAll(s.manifest, BucketWrites(bucket)[|bucket|..])))
  {
    var rs, ws := BucketRecords(bucket), BucketWrites(bucket);
    assert rs[|bucket|..] == [] && ws[|bucket|..] == [];
    assert s.summary + rs[|bucket|..] == s.summary;
  }

  /** The flat outcome from position `j` is the flat outcome from `j + 1`
      after the `j`-th record and write. */
  lemma FlatStep(key: int, bucket: seq<Entry>, j: nat, s: State)
    requires j < |bucket|
    ensures var rs, ws := BucketRecords(bucket), BucketWrites(bucket);
      State(if key == 0 then |bucket| else s.counter,
            (s.summary + [rs[j]]) + rs[j + 1..],
            PutAll(Put(s.manifest, ws[j].0, ws[j].1), ws[j + 1..])) ==
      State(if key == 0 then |bucket| else s.counter,
            s.summary + rs[j..],
            PutAll(s.manifest, ws[j..]))
  {
    AppendSliceFrom(s.summary, BucketRecords(bucket), j);
    PutAllSliceFrom(s.manifest, BucketWrites(bucket), j);
  }

  lemma RecordsFrom(c: Catalog, b: nat)
    requires b < |c|
    ensures Records(c[b..]) == BucketRecords(c[b].1) + Records(c[b + 1..])
    ensures Writes(c[b..]) == BucketWrites(c[b].1) + Writes(c[b + 1..])
  {
    SliceFrom(c, b);
  }

  /** In a well-grouped catalog, the zero-like bucket is the first with key 0. */
  lemma ZeroBucketFirst(c: Catalog, b: nat)
    requires WellGrouped(c) && b < |c| && c[b].0 == 0
    ensures forall i :: 0 <= i < b ==> c[i].0 != 0
  {
    forall i | 0 <= i < b ensures c[i].0 != 0 {
      assert Keys(c)[i] != Keys(c)[b];
    }
  }

  lemma VisitBucketsStep(c: Catalog, b: nat, s: State, s': State)
    requires b < |c| && VisitBucket(c[b].0, c[b].1, 0, s) == Success(s')
    ensures VisitBuckets(c, b, s) == VisitBuckets(c, b + 1, s')
  {
  }

  /** Running bucket `b` and then the buckets after it is running `c[b..]`. */
  lemma FlatFrom(c: Catalog, b: nat, s: State, s': State, r: State)
    requires b < |c|
    requires s'.summary == s.summary + BucketRecords(c[b].1)
    requires s'.manifest == PutAll(s.manifest, BucketWrites(c[b].1))
    requires r.summary == s'.summary + Records(c[b + 1..])
    requires r.manifest == PutAll(s'.manifest, Writes(c[b + 1..]))
    ensures r.summary == s.summary + Records(c[b..])
    ensures r.manifest == PutAll(s.manifest, Writes(c[b..]))
  {
    RecordsFrom(c, b);
    ConcatAssoc(s.summary, BucketRecords(c[b].1), Records(c[b + 1..]));
    PutAllAppend(s.manifest, BucketWrites(c[b].1), Writes(c[b + 1..]));
  }

  /** The inner loop over bucket `b` of a well-grouped catalog, entered with
      the counter at 0 unless a zero-like bucket came earlier. */
  lemma BucketRun(c: Catalog, b: nat, s: State) returns (s': State)
    requires WellGrouped(c) && b < |c|
    requires (forall i :: 0 <= i < b ==> c[i].0 != 0) ==> s.counter == 0
    ensures VisitBucket(c[b].0, c[b].1, 0, s) == Success(s')
    ensures s'.summary == s.summary + BucketRecords(c[b].1)
    ensures s'.manifest == PutAll(s.manifest, BucketWrites(c[b].1))
    ensures (forall i :: 0 <= i < b + 1 ==> c[i].0 != 0) ==> s'.counter == 0
  {
    var key, bucket := c[b].0, c[b].1;
    var rs, ws := BucketRecords(bucket), BucketWrites(bucket);
    if key == 0 {
      ZeroBucketFirst(c, b);
    }
    assert forall i :: 0 <= i < |bucket| ==> bucket[i].likes == key;
    VisitBucketFlat(key, bucket, 0, s);
    assert rs[0..] == rs && ws[0..] == ws;
    s' := State(if key == 0 then |bucket| else s.counter, s.summary + rs, PutAll(s.manifest, ws));
  }

  lemma {:induction false} VisitBucketsFlat(c: Catalog, b: nat, s: State)
    requires WellGrouped(c) && b <= |c|
    requires (forall i :: 0 <= i < b ==> c[i].0 != 0) ==> s.counter == 0
    ensures VisitBuckets(c, b, s).Success?
    ensures VisitBuckets(c, b, s).value.summary == s.summary + Records(c[b..])
    ensures VisitBuckets(c, b, s).value.manifest == PutAll(s.manifest, Writes(c[b..]))
    decreases |c| - b
  {
    if b == |c| {
      assert c[b..] == [];
      assert s.summary + [] == s.summary;
    } else {
      var s' := BucketRun(c, b, s);
      VisitBucketsStep(c, b, s, s');
      VisitBucketsFlat(c, b + 1, s');
      FlatFrom(c, b, s, s', VisitBuckets(c, b + 1, s').value);
    }
  }

  /** The outer loop from the first bucket, with `counter = 0` and both
      outputs empty, produces the flat reference on a well-grouped catalog. */
  lemma StartFlat(c: Catalog)
    ensures WellGrouped(c) ==>
              var r := VisitBuckets(c, 0, State(0, [], []));
              r.Success? && r.value.summary == Records(c) && r.value.manifest == PutAll([], Writes(c))
  {
    if WellGrouped(c) {
      VisitBucketsFlat(c, 0, State(0, [], []));
      assert c[0..] == c;
      assert [] + Records(c) == Records(c);
    }
  }

  /** `_sort_info` on a catalog. It can only fail by running the zero-like
      counter past a bucket. On a well-grouped catalog it cannot fail, and it
      produces the flat reference: the records bucket after bucket, and the
      manifest those names and URLs give when assigned in that order. */
  function SortInfo(c: Catalog): (r: Result<Plan, Failure>)
    ensures r.Failure? ==> r.error.NoSuchBucketEntry?
    ensures WellGrouped(c) ==> r == Success(Plan(Records(c), PutAll([], Writes(c))))
  {
    StartFlat(c);
    assert c[0..] == c;
    var s :- VisitBuckets(c, 0, State(0, [], []));
    Success(Plan(s.summary, s.manifest))
  }

  // Properties of the plan.

  lemma {:induction false} RecordsLength(c: Catalog)
    ensures |Records(c)| == |Writes(c)| == TotalLength(c)
  {
    if |c| > 0 {
      RecordsLength(c[1..]);
    }
  }

  /** The summary holds, at position Offset(c, b) + j, the record of the `j`-th
      entry of the `b`-th bucket: buckets in key order, entries in source order. */
  lemma {:induction false} RecordAt(c: Catalog, b: nat, j: nat)
    requires b < |c| && j < |c[b].1|
    ensures Offset(c, b) + j < |Records(c)| == |Writes(c)|
    ensures Records(c)[Offset(c, b) + j] == Record(NameAt(c[b].1, j), c[b].1[j].size)
    ensures Writes(c)[Offset(c, b) + j] == (NameAt(c[b].1, j), TargetAt(c[b].1, j))
  {
    RecordsLength(c);
    RecordsLength(c[1..]);
    var B, rest := c[0].1, c[1..];
    var hr, hw := BucketRecords(B), BucketWrites(B);
    var p := Offset(c, b) + j;
    if b == 0 {
      assert Offset(c, 0) == 0 by { assert c[..0] == []; }
      BucketAt(B, j);
    } else {
      OffsetNext(c, b - 1);
      RecordAt(rest, b - 1, j);
      assert rest[b - 1] == c[b];
    }
    IndexConcat(hr, Records(rest), p);
    IndexConcat(hw, Writes(rest), p);
  }

  lemma OffsetNext(c: Catalog, b: nat)
    requires 0 < |c| && b < |c|
    ensures Offset(c, b + 1) == |c[0].1| + Offset(c[1..], b)
  {
    assert c[..b + 1][1..] == c[1..][..b];
  }

  /** The bucket and the position in it of the entry whose record sits at
      position `p` of the summary (and whose write is the `p`-th). */
  function Locate(c: Catalog, p: nat): (r: (nat, nat))
    requires p < TotalLength(c)
    ensures r.0 < |c| && r.1 < |c[r.0].1| && p == Offset(c, r.0) + r.1
  {
    assert c[..0] == [];
    if p < |c[0].1| then (0, p)
    else
      var (b, j) := Locate(c[1..], p - |c[0].1|);
      OffsetNext(c, b);
      (b + 1, j)
  }

  /** Every position of the summary and of the writes belongs to one entry. */
  lemma EntryAt(c: Catalog, p: nat)
    requires p < TotalLength(c)
    ensures p < |Records(c)| == |Writes(c)|
    ensures exists b, j :: 0 <= b < |c| && 0 <= j < |c[b].1| &&
              Records(c)[p] == Record(NameAt(c[b].1, j), c[b].1[j].size) &&
              Writes(c)[p] == (NameAt(c[b].1, j), TargetAt(c[b].1, j))
  {
    RecordsLength(c);
    var loc := Locate(c, p);
    var b, j := loc.0, loc.1;
    RecordAt(c, b, j);
    assert Records(c)[p] == Record(NameAt(c[b].1, j), c[b].1[j].size);
    assert Writes(c)[p] == (NameAt(c[b].1, j), TargetAt(c[b].1, j));
  }

  /** Equal names belong to one bucket, and two entries of a bucket share a
      name only when the bucket holds several entries with the same stamp. */
  lemma SameNameSameBucket(c: Catalog, b1: nat, j1: nat, b2: nat, j2: nat)
    requires WellGrouped(c)
    requires b1 < |c| && j1 < |c[b1].1| && b2 < |c| && j2 < |c[b2].1|
    requires NameAt(c[b1].1, j1) == NameAt(c[b2].1, j2)
    ensures b1 == b2
    ensures j1 != j2 ==> |c[b1].1| > 1 && c[b1].1[j1].addName == c[b1].1[j2].addName
  {
    var B1, B2 := c[b1].1, c[b2].1;
    FileNameInjective(B1[j1].likes, |B1|, B1[j1].addName, B2[j2].likes, |B2|, B2[j2].addName);
    assert Keys(c)[b1] == Keys(c)[b2];
  }

  /** Conversely, two entries of one bucket with the same stamp share a name. */
  lemma SameStampSameName(c: Catalog, b: nat, j1: nat, j2: nat)
    requires WellGrouped(c)
    requires b < |c| && j1 < |c[b].1| && j2 < |c[b].1|
    requires c[b].1[j1].addName == c[b].1[j2].addName
    ensures NameAt(c[b].1, j1) == NameAt(c[b].1, j2)
  {
  }

  /** The manifest built from the writes stores under each name the target
      of some entry of the same bucket bearing that name. */
  lemma WrittenUrl(c: Catalog, b: nat, j: nat)
    requires WellGrouped(c) && b < |c| && j < |c[b].1|
    ensures exists j' :: 0 <= j' < |c[b].1| && NameAt(c[b].1, j') == NameAt(c[b].1, j) &&
              Get(PutAll([], Writes(c)), NameAt(c[b].1, j)) == Some(TargetAt(c[b].1, j'))
  {
    var ws, name := Writes(c), NameAt(c[b].1, j);
    RecordAt(c, b, j);
    assert Keys(ws)[Offset(c, b) + j] == name;
    PutAllGet([], ws, name);
    var i :| 0 <= i < |ws| && ws[i].0 == name && Get(PutAll([], ws), name) == Some(ws[i].1);
    RecordsLength(c);
    EntryAt(c, i);
    var b', j' :| 0 <= b' < |c| && 0 <= j' < |c[b'].1| && ws[i] == (NameAt(c[b'].1, j'), TargetAt(c[b'].1, j'));
    SameNameSameBucket(c, b, j, b', j');
  }

  /** The URL stored under a file name in the manifest of a well-grouped
      catalog: for a bucket with likes, always the first entry's URL (so all
      photos of a multi-photo bucket point at one picture); for the zero-like
      bucket, the URL of an entry that bears the same name, which is the
      entry itself when the stamps of that bucket are distinct. */
  lemma ManifestUrl(c: Catalog, b: nat, j: nat)
    requires WellGrouped(c) && b < |c| && j < |c[b].1|
    ensures SortInfo(c).Success?
    ensures var m, B := SortInfo(c).value.manifest, c[b].1;
      && (c[b].0 != 0 ==> Get(m, NameAt(B, j)) == Some(B[0].url))
      && (c[b].0 == 0 ==> exists j' :: 0 <= j' < |B| && NameAt(B, j') == NameAt(B, j) &&
                                        Get(m, NameAt(B, j)) == Some(B[j'].url))
      && (c[b].0 == 0 && DistinctStamps(B) ==> Get(m, NameAt(B, j)) == Some(B[j].url))
  {
    var B := c[b].1;
    WrittenUrl(c, b, j);
    var j' :| 0 <= j' < |B| && NameAt(B, j') == NameAt(B, j) &&
              Get(PutAll([], Writes(c)), NameAt(B, j)) == Some(TargetAt(B, j'));
    assert B[j'].likes == c[b].0;
    if j' != j {
      SameNameSameBucket(c, b, j, b, j');
    }
    assert DistinctStamps(B) ==> j' == j;
  }

  /** The summary names and the manifest keys are written in the same order. */
  lemma NamesAreWriteKeys(c: Catalog)
    ensures Names(Records(c)) == Keys(Writes(c))
  {
    RecordsLength(c);
    forall p | 0 <= p < |Records(c)| ensures Records(c)[p].fileName == Writes(c)[p].0 {
      EntryAt(c, p);
    }
  }

  lemma RepeatedStampRepeatsName(c: Catalog, b: nat, j1: nat, j2: nat)
    requires WellGrouped(c)
    requires b < |c| && j1 < j2 < |c[b].1|
    requires c[b].1[j1].addName == c[b].1[j2].addName
    ensures !NoDups(Names(Records(c)))
  {
    SameStampSameName(c, b, j1, j2);
    RecordAt(c, b, j1);
    RecordAt(c, b, j2);
    NamesRepeat(Records(c), Offset(c, b) + j1, Offset(c, b) + j2);
  }

  /** Two records with one name make the name list repeat. */
  lemma NamesRepeat(rs: seq<Record>, p1: nat, p2: nat)
    requires p1 < p2 < |rs| && rs[p1].fileName == rs[p2].fileName
    ensures !NoDups(Names(rs))
  {
    assert Names(rs)[p1] == Names(rs)[p2];
  }

  lemma RepeatedNameRepeatsStamp(c: Catalog, p1: nat, p2: nat)
    requires WellGrouped(c)
    requires p1 < p2 < |Records(c)|
    requires Records(c)[p1].fileName == Records(c)[p2].fileName
    ensures !StampsDistinct(c)
  {
    var b1, j1, b2, j2 := LocatePair(c, p1, p2);
    SameNameSameBucket(c, b1, j1, b2, j2);
    SharedStamp(c[b1].1, j1, j2);
  }

  /** Two summary positions with one name belong to two entries with that
      name, the earlier position to the earlier entry of a shared bucket. */
  lemma LocatePair(c: Catalog, p1: nat, p2: nat) returns (b1: nat, j1: nat, b2: nat, j2: nat)
    requires WellGrouped(c)
    requires p1 < p2 < |Records(c)|
    requires Records(c)[p1].fileName == Records(c)[p2].fileName
    ensures b1 < |c| && j1 < |c[b1].1| && b2 < |c| && j2 < |c[b2].1|
    ensures NameAt(c[b1].1, j1) == NameAt(c[b2].1, j2)
    ensures b1 == b2 ==> j1 < j2
  {
    RecordsLength(c);
    var l1, l2 := Locate(c, p1), Locate(c, p2);
    b1, j1, b2, j2 := l1.0, l1.1, l2.0, l2.1;
    NameOfPosition(c, b1, j1, p1);
    NameOfPosition(c, b2, j2, p2);
  }

  /** The summary name at the position of an entry is that entry's name. */
  lemma NameOfPosition(c: Catalog, b: nat, j: nat, p: nat)
    requires b < |c| && j < |c[b].1| && p == Offset(c, b) + j
    ensures p < |Records(c)| && Records(c)[p].fileName == NameAt(c[b].1, j)
  {
    RecordAt(c, b, j);
  }

  lemma SharedStamp(bucket: seq<Entry>, j1: nat, j2: nat)
    requires j1 < j2 < |bucket| && bucket[j1].addName == bucket[j2].addName
    ensures !DistinctStamps(bucket)
  {
  }

  /** The summary repeats a name exactly when some bucket holds two photos
      with the same stamp. */
  lemma SummaryNamesDistinct(c: Catalog)
    requires WellGrouped(c)
    ensures NoDups(Names(Records(c))) <==> StampsDistinct(c)
  {
    var ns := Names(Records(c));
    if !StampsDistinct(c) {
      var b, j1, j2 :| 0 <= b < |c| && 0 <= j1 < j2 < |c[b].1| && c[b].1[j1].addName == c[b].1[j2].addName;
      RepeatedStampRepeatsName(c, b, j1, j2);
    }
    if !NoDups(ns) {
      var p1, p2 :| 0 <= p1 < p2 < |ns| && ns[p1] == ns[p2];
      RepeatedNameRepeatsStamp(c, p1, p2);
    }
  }

  /** The manifest keys are the summary names without repetitions, in the
      order of first appearance, so the manifest is never larger than the
      summary, and it is exactly as large when the stamps in every bucket are
      distinct. The summary has one record per catalog entry. */
  lemma ManifestKeys(c: Catalog)
    requires WellGrouped(c)
    ensures SortInfo(c).Success?
    ensures var p := SortInfo(c).value;
      && |p.summary| == TotalLength(c)
      && Keys(p.manifest) == Dedup(Names(p.summary))
      && |Keys(p.manifest)| <= |p.summary|
      && (|Keys(p.manifest)| == |p.summary| <==> StampsDistinct(c))
  {
    RecordsLength(c);
    NamesAreWriteKeys(c);
    PutAllKeys([], Writes(c));
    DedupSpec(Names(Records(c)));
    SummaryNamesDistinct(c);
  }

  /** Building a `VkUser`: `_sort_info` applied to what `_get_photo_params`
      returns for the fetched `count` and `items`. The plan exists exactly when
      the first `count` items exist and all have sizes, and then the counter of
      `_sort_info` never runs out of range: the summary has one record per
      photo and the manifest at most as many keys. */
  function PlanUpload(count: int, items: seq<Photo>, stamp: int -> string): (r: Result<Plan, Failure>)
    ensures r.Success? <==> forall i: nat :: i < count ==> !Broken(items, i)
    ensures r.Failure? ==> r.error.NoSuchPhoto? || r.error.NoSizes?
    ensures r.Success? ==>
              |r.value.summary| == (if count < 0 then 0 else count) &&
              |Keys(r.value.manifest)| <= |r.value.summary|
  {
    var c :- GetPhotoParams(count, items, stamp);
    ManifestKeys(c);
    SortInfo(c)
  }

  /** The listing of the two-photo scenario below. */
  function TwoPhotos(): seq<Photo> {
    [Photo(0, 0, [Size(100, 100, "x", "A"), Size(200, 50, "y", "B")]),
     Photo(7, 0, [Size(10, 10, "s", "C")])]
  }

  lemma TwoPhotoChoices()
    ensures ToEntry(TwoPhotos()[0], d => "t") == Some(Entry(0, "t", "A", "x"))
    ensures ToEntry(TwoPhotos()[1], d => "t") == Some(Entry(7, "t", "C", "s"))
  {
    var items := TwoPhotos();
    assert Scan(items[0].sizes, 2, 0, 10000) == 0;
    assert Scan(items[0].sizes, 1, 0, 10000) == 0;
    assert MaxSizeIndex(items[0].sizes) == 0;
    assert Scan(items[1].sizes, 1, 0, 100) == 0;
    assert MaxSizeIndex(items[1].sizes) == 0;
  }

  lemma TwoPhotoEntries()
    ensures BuildEntries(2, TwoPhotos(), d => "t") == Success([Entry(0, "t", "A", "x"), Entry(7, "t", "C", "s")])
  {
    var stamp: int -> string := d => "t";
    var items := TwoPhotos();
    var e0, e1 := Entry(0, "t", "A", "x"), Entry(7, "t", "C", "s");
    TwoPhotoChoices();
    assert BuildEntries(0, items, stamp) == Success([]);
    assert items[1 - 1] == items[0];
    assert [] + [e0] == [e0];
    assert BuildEntries(1, items, stamp) == Success([e0]);
    assert items[2 - 1] == items[1];
    assert [e0] + [e1] == [e0, e1];
  }

  lemma TwoPhotoGroup()
    ensures var e0, e1 := Entry(0, "t", "A", "x"), Entry(7, "t", "C", "s");
      Group([e0, e1]) == [(0, [e0]), (7, [e1])]
  {
    var e0, e1 := Entry(0, "t", "A", "x"), Entry(7, "t", "C", "s");
    var empty: Catalog := [];
    assert GetOr(empty, 0, []) == [];
    assert [] + [e0] == [e0];
    var c0 := AddEntry(empty, e0);
    assert c0 == [(0, [e0])];
    assert Get(c0, 7) == None;
    assert GetOr(c0, 7, []) == [];
    assert [] + [e1] == [e1];
    assert Put(c0, 7, [e1]) == [(0, [e0])] + Put(empty, 7, [e1]);
    assert AddEntry(c0, e1) == [(0, [e0]), (7, [e1])];
    var es := [e0, e1];
    assert es[0] == e0 && es[1..] == [e1] && es[1..][0] == e1 && es[1..][1..] == [];
    assert GroupInto(AddEntry(c0, e1), []) == AddEntry(c0, e1);
    assert GroupInto(c0, [e1]) == AddEntry(c0, e1);
    assert GroupInto(empty, es) == GroupInto(c0, [e1]);
  }

  lemma TwoPhotoSort()
    ensures var e0, e1 := Entry(0, "t", "A", "x"), Entry(7, "t", "C", "s");
      SortInfo([(0, [e0]), (7, [e1])]) ==
        Success(Plan([Record("0.jpeg", "x"), Record("7.jpeg", "s")], [("0.jpeg", "A"), ("7.jpeg", "C")]))
  {
    var e0, e1 := Entry(0, "t", "A", "x"), Entry(7, "t", "C", "s");
    var c := [(0, [e0]), (7, [e1])];
    assert IntToString(0) == "0" && IntToString(7) == "7";
    assert NameAt([e0], 0) == "0.jpeg" && NameAt([e1], 0) == "7.jpeg";
    var s1 := State(1, [Record("0.jpeg", "x")], [("0.jpeg", "A")]);
    assert Put([], "0.jpeg", "A") == s1.manifest;
    assert [] + [Record("0.jpeg", "x")] == s1.summary;
    assert VisitBucket(0, [e0], 1, s1) == Success(s1);
    assert VisitBucket(0, [e0], 0, State(0, [], [])) == Success(s1);
    var s2 := State(1, [Record("0.jpeg", "x"), Record("7.jpeg", "s")], [("0.jpeg", "A"), ("7.jpeg", "C")]);
    assert Put(s1.manifest, "7.jpeg", "C") == s2.manifest;
    assert s1.summary + [Record("7.jpeg", "s")] == s2.summary;
    assert VisitBucket(7, [e1], 1, s2) == Success(s2);
    assert VisitBucket(7, [e1], 0, s1) == Success(s2);
    assert VisitBuckets(c, 2, s2) == Success(s2);
    assert VisitBuckets(c, 1, s1) == Success(s2);
    assert VisitBuckets(c, 0, State(0, [], [])) == Success(s2);
  }

  /** A two-photo listing: the zero-like photo has two variants of equal area,
      and the first one wins; each like count has one photo, so both names are
      bare like counts. */
  lemma TwoPhotoScenario()
    ensures PlanUpload(2, TwoPhotos(), d => "t") ==
              Success(Plan([Record("0.jpeg", "x"), Record("7.jpeg", "s")], [("0.jpeg", "A"), ("7.jpeg", "C")]))
  {
    TwoPhotoEntries();
    TwoPhotoGroup();
    TwoPhotoSort();
  }

  /** `_sort_info` on a dict with one bucket of two entries. */
  lemma PairRun(key: int, B: seq<Entry>)
    requires |B| == 2 && B[0].likes == key && B[1].likes == key
    ensures SortInfo([(key, B)]) ==
              Success(Plan([Record(NameAt(B, 0), B[0].size), Record(NameAt(B, 1), B[1].size)],
                           Put(Put([], NameAt(B, 0), TargetAt(B, 0)), NameAt(B, 1), TargetAt(B, 1))))
  {
    var c := [(key, B)];
    var r0, r1 := Record(NameAt(B, 0), B[0].size), Record(NameAt(B, 1), B[1].size);
    var m1 := Put([], NameAt(B, 0), TargetAt(B, 0));
    var m2 := Put(m1, NameAt(B, 1), TargetAt(B, 1));
    BucketAt(B, 0);
    BucketAt(B, 1);
    var s0 := State(0, [], []);
    var s1 := State(if key == 0 then 1 else 0, [r0], m1);
    var s2 := State(if key == 0 then 2 else 0, [r0, r1], m2);
    assert [] + [r0] == [r0] && [r0] + [r1] == [r0, r1];
    VisitBucketStep(key, B, 0, s0);
    VisitBucketStep(key, B, 1, s1);
    assert VisitBucket(key, B, 0, s0) == Success(s2);
    assert VisitBuckets(c, 1, s2) == Success(s2);
    VisitBucketsStep(c, 0, s0, s2);
  }

  /** The bucket of the next scenario: two seven-like photos with different stamps and URLs. */
  function SevenPair(): seq<Entry> {
    [Entry(7, "t1", "C", "s"), Entry(7, "t2", "D", "s")]
  }

  /** Two photos with seven likes taken at different times: both get stamped
      names, and both names point at the first photo's URL. */
  lemma SharedUrlScenario()
    ensures SortInfo([(7, SevenPair())]) ==
              Success(Plan([Record("7 t1.jpeg", "s"), Record("7 t2.jpeg", "s")],
                           [("7 t1.jpeg", "C"), ("7 t2.jpeg", "C")]))
  {
    PairRun(7, SevenPair());
    SevenPairNames();
  }

  /** The names and URLs `_sort_info` gives the two seven-like photos. */
  lemma SevenPairNames()
    ensures var B := SevenPair();
      && NameAt(B, 0) == "7 t1.jpeg" && NameAt(B, 1) == "7 t2.jpeg"
      && TargetAt(B, 0) == "C" && TargetAt(B, 1) == "C"
      && Put(Put([], NameAt(B, 0), TargetAt(B, 0)), NameAt(B, 1), TargetAt(B, 1)) ==
         [("7 t1.jpeg", "C"), ("7 t2.jpeg", "C")]
  {
    var B := SevenPair();
    assert IntToString(7) == "7";
    assert NameAt(B, 0) == "7 t1.jpeg" && NameAt(B, 1) == "7 t2.jpeg";
    assert Put([], "7 t1.jpeg", "C") == [("7 t1.jpeg", "C")];
    assert Put([("7 t1.jpeg", "C")], "7 t2.jpeg", "C") == [("7 t1.jpeg", "C"), ("7 t2.jpeg", "C")];
  }

  /** The bucket of the next scenario: two zero-like photos with one stamp. */
  function ZeroPair(): seq<Entry> {
    [Entry(0, "t", "A", "s"), Entry(0, "t", "B", "s")]
  }

  /** Two zero-like photos with the same stamp: they share one name, the
      second assignment replaces the first, and the manifest keeps one key. */
  lemma SameStampScenario()
    ensures SortInfo([(0, ZeroPair())]) ==
              Success(Plan([Record("0 t.jpeg", "s"), Record("0 t.jpeg", "s")], [("0 t.jpeg", "B")]))
  {
    PairRun(0, ZeroPair());
    ZeroPairNames();
  }

  /** The names and URLs `_sort_info` gives the two zero-like photos. */
  lemma ZeroPairNames()
    ensures var B := ZeroPair();
      && NameAt(B, 0) == "0 t.jpeg" && NameAt(B, 1) == "0 t.jpeg"
      && TargetAt(B, 0) == "A" && TargetAt(B, 1) == "B"
      && Put(Put([], NameAt(B, 0), TargetAt(B, 0)), NameAt(B, 1), TargetAt(B, 1)) == [("0 t.jpeg", "B")]
  {
    var B := ZeroPair();
    assert IntToString(0) == "0";
    assert NameAt(B, 0) == "0 t.jpeg" && NameAt(B, 1) == "0 t.jpeg";
    assert Put([], "0 t.jpeg", "A") == [("0 t.jpeg", "A")];
    assert Put([("0 t.jpeg", "A")], "0 t.jpeg", "B") == [("0 t.jpeg", "B")];
  }

}
