/** `YandexDisk.create_copy`: walk the manifest keys in order, at most `num`
    of them, and ask the disk to fetch each one not already in the folder. */
module YandexDisk {
  import opened Wrappers
  import opened PyDict

  /** The parameters of one upload-by-URL request: `{path, url}`. */
  datatype Upload = Upload(path: string, url: string)

  /** The keys the `zip` with `range(num)` visits. */
  function Visited(size: nat, num: int): (n: nat)
    ensures n <= size
  {
    if num <= 0 then 0 else if num < size then num else size
  }

  /** The requests for the manifest entries `files`, skipping names already listed. */
  function Planned(folder: string, files: Dict<string, string>, listing: seq<string>): seq<Upload> {
    if |files| == 0 then []
    else
      var last := files[|files| - 1];
      Planned(folder, files[..|files| - 1], listing) +
        (if last.0 in listing then [] else [Upload(folder + "/" + last.0, last.1)])
  }

  /** Planned asks for exactly the unlisted entries, each with its own URL, in order. */
  lemma {:induction false} PlannedSpec(folder: string, files: Dict<string, string>, listing: seq<string>)
    ensures |Planned(folder, files, listing)| <= |files|
    ensures forall u :: u in Planned(folder, files, listing) <==>
              exists i :: 0 <= i < |files| && files[i].0 !in listing &&
                          u == Upload(folder + "/" + files[i].0, files[i].1)
  {
    if |files| > 0 {
      var init := files[..|files| - 1];
      PlannedSpec(folder, init, listing);
      forall u ensures u in Planned(folder, files, listing) <==>
                 exists i :: 0 <= i < |files| && files[i].0 !in listing &&
                             u == Upload(folder + "/" + files[i].0, files[i].1)
      {
        if u in Planned(folder, init, listing) {
          var i :| 0 <= i < |init| && init[i].0 !in listing &&
                   u == Upload(folder + "/" + init[i].0, init[i].1);
          assert files[i] == init[i];
        }
        if exists i :: 0 <= i < |files| && files[i].0 !in listing &&
                       u == Upload(folder + "/" + files[i].0, files[i].1) {
          var i :| 0 <= i < |files| && files[i].0 !in listing &&
                   u == Upload(folder + "/" + files[i].0, files[i].1);
          if i < |init| {
            assert files[i] == init[i];
          }
        }
      }
    }
  }

  /** One more visited key adds its request, unless the key is listed. */
  lemma PlannedStep(folder: string, files: Dict<string, string>, listing: seq<string>, i: nat)
    requires i < |files|
    ensures Planned(folder, files[..i + 1], listing) ==
              Planned(folder, files[..i], listing) +
                (if files[i].0 in listing then [] else [Upload(folder + "/" + files[i].0, files[i].1)])
  {
    assert files[..i + 1][..i] == files[..i];
  }

  /** PlannedSpec for the first `n` entries, stated with their own indices. */
  lemma PlannedPrefix(folder: string, files: Dict<string, string>, listing: seq<string>, n: nat)
    requires n <= |files|
    ensures |Planned(folder, files[..n], listing)| <= n
    ensures forall u :: u in Planned(folder, files[..n], listing) <==>
              exists i :: 0 <= i < n && files[i].0 !in listing &&
                          u == Upload(folder + "/" + files[i].0, files[i].1)
  {
    PlannedSpec(folder, files[..n], listing);
    assert forall i :: 0 <= i < n ==> files[..n][i] == files[i];
  }

  /** `dict_files[key]` for the `i`-th key: in a dict without repeated keys
      this is the value stored beside that key. */
  function Lookup(files: Dict<string, string>, i: nat): (url: string)
    requires Valid(files) && i < |files|
    ensures Get(files, files[i].0) == Some(url)
    ensures url == files[i].1
  {
    GetAt(files, i);
    Get(files, files[i].0).value
  }

  /** `create_copy(dict_files)` with the folder listing fetched once as
      `listing` and each HTTP POST recorded in `uploads`. The URL is looked up
      as `dict_files[key]`; a Python dict never holds a key twice, so that is
      the value stored beside the key. */
  method CreateCopy(folder: string, files: Dict<string, string>, listing: seq<string>, num: int)
    returns (uploads: seq<Upload>, copied: int)
    requires Valid(files)
    ensures copied == |uploads| <= Visited(|files|, num)
    ensures uploads == Planned(folder, files[..Visited(|files|, num)], listing)
    ensures forall u :: u in uploads <==>
              exists i :: 0 <= i < Visited(|files|, num) && files[i].0 !in listing &&
                          u == Upload(folder + "/" + files[i].0, files[i].1)
  {
    uploads := [];
    copied := 0;
    var i := 0;
    while i < |files| && i < num
      invariant 0 <= i <= Visited(|files|, num)
      invariant copied == |uploads| <= i
      invariant uploads == Planned(folder, files[..i], listing)
    {
      var key := files[i].0;
      if copied < num {
        if key !in listing {
          var url := Lookup(files, i);
          uploads := uploads + [Upload(folder + "/" + key, url)];
          copied := copied + 1;
        }
      } else {
        // The counter grows at most once per visited key, so it stays below `num`.
        assert false;
        break;
      }
      PlannedStep(folder, files, listing, i);
      i := i + 1;
    }
    PlannedPrefix(folder, files, listing, i);
  }
}
