# VK photo backup planner, in Dafny

This project models the core of `main.py` from a small script. The script copies a VK user's wall photos to a Yandex Disk folder. The model covers four pieces:

- **Largest-size selection** (`find_photo_max_size`). A linear scan over a photo's size variants keeps the variant with the largest `width * height`. It compares with a strict `>` starting from `max_size = 0`, so ties go to the earliest variant, and index 0 is chosen when no area is positive.
- **Grouping by like count** (`VkUser._get_photo_params`). Each of the first `count` fetched items becomes an entry: like count, upload stamp, chosen URL and size label. Entries are appended to `result[likes]`, a Python dict that keeps insertion order.
- **Naming and manifest building** (`VkUser._sort_info`). Every entry gets a file name:
  - `"{k}.jpeg"` when its bucket holds one photo;
  - `"{k} {stamp}.jpeg"` otherwise.

  The pass emits one summary record `{file name, size}` per entry. It also fills a name → URL manifest:
  - Zero-like entries take the URL at a running `counter`, which only advances on zero-like entries.
  - Every other entry takes the URL of its bucket's first entry. This is source behaviour and is kept as it is.
- **Copy loop** (`YandexDisk.create_copy`). It walks the manifest keys zipped with `range(num)`. It skips names already present in a folder listing fetched once. For every other name it records an upload-by-URL request `{folder/key, url}` and counts it.

Modules follow the program:

- `Wrappers`: `Option` and `Result`.
- `Seqs`: duplicate-free sequences and first-occurrence deduplication.
- `PyDict`: a Python `dict` as an association sequence. Assigning to an existing key keeps its position and replaces its value; a new key goes last.
- `Naming`: Python's `str(int)` and the two file-name shapes.
- `Photos`: the fetched records, size selection and per-photo entries.
- `Catalog`: `_get_photo_params`.
- `Planner`: `_sort_info` and the whole construction of a `VkUser`.
- `YandexDisk`: `create_copy`.

A Python `IndexError` becomes a `Failure` value:

- `NoSuchPhoto`: the fetched count exceeds the item list.
- `NoSizes`: a photo has an empty size list.
- `NoSuchBucketEntry`: the zero-like counter runs past its bucket. This can only happen for dicts that grouping does not produce.

`_sort_info` is modelled twice:

- as the source's nested loop with its counter, on any dict;
- as a flat reference: records and writes bucket after bucket, with the zero-like URL taken from the entry itself.

The contract of `Planner.SortInfo` states that the two are equal on every well-grouped dict.

## Model

| member | source | states |
|---|---|---|
| Photos.Scan | main.py:29-35 | from any state satisfying the loop invariant, the remaining iterations end on the index IsChosen describes: the first variant of strictly largest positive area, or 0 when no area is positive |
| Photos.MaxSizeIndex | main.py:29-35 | the scan started at `max_size = 0, found = 0` picks an in-bounds index; if any area is positive, that index has an area at least every other area and strictly greater than every earlier one; otherwise it is 0 |
| Photos.ChosenIsLargest | main.py:29-35 | when no area is negative, the chosen variant has the largest area of the list and comes before every other variant of that area |
| Photos.ChosenUnique | main.py:29-35 | at most one index meets that description, so the choice is determined by the sizes alone |
| Photos.FindPhotoMaxSize | main.py:22-36 | fails exactly on an empty size list (the IndexError at line 36); otherwise returns the url and type label of the chosen variant |
| Photos.ToEntry | main.py:87-94 | a photo yields an entry exactly when its size list is non-empty; the entry carries the photo's like count, `to_normal_format(date)` as its name stamp, and the url and type label of the variant `find_photo_max_size` chooses |
| Photos.BuildEntries | main.py:84-94 | succeeds iff each of the first `count` items exists and has sizes; then there are `max(count, 0)` entries, and entry `i` carries item `i`'s likes, stamp, and chosen url and label; on failure it names the first broken index, and `NoSuchPhoto` exactly when that index is past the list |
| PyDict.Get | main.py:90 | `d.get(k)` finds a value exactly for the keys present |
| PyDict.PutSpec | main.py:95 | `d[k] = v` keeps the key order when `k` is present and appends `k` otherwise; it stores `v` under `k` and leaves every other key's value alone |
| PyDict.PutValid | main.py:95 | an assignment never makes a key appear twice |
| PyDict.PutAllKeys | main.py:108-119 | a run of assignments keeps keys unique and leaves them in first-assignment order: old keys, then new keys deduplicated |
| PyDict.PutAllLastWins | main.py:116-119 | after a run of assignments, a key holds the value of its last assignment |
| Catalog.AddEntry | main.py:90-95 | one iteration appends the entry to the bucket of its like count, adding that count as the last key when it is new, and leaves every other bucket alone |
| Catalog.Group | main.py:85-96 | grouping keeps like counts in first-occurrence order, stores under each count exactly the entries with that count in source order, has no other keys, and loses no entry |
| Catalog.GroupWellGrouped | main.py:85-96 | every bucket is non-empty, holds only entries with its own like count, and has unique keys |
| Catalog.GetPhotoParams | main.py:78-96 | succeeds iff nothing among the first `count` items is broken; the result is well grouped, holds `max(count, 0)` entries, has keys in first-occurrence order, and each bucket equals the entries with its like count |
| Naming.ParseIntRoundTrip | main.py:111-113 | the decimal text `str(k)` puts in a file name reads back as `k` |
| Naming.IntToStringInjective | main.py:111-113 | distinct like counts print differently |
| Naming.FileNameShape | main.py:110-113 | a file name reads back into its parts: the decimal like count; then `.jpeg` exactly when the photo is alone in its bucket; otherwise a space, the stamp and `.jpeg` |
| Naming.FileNameInjective | main.py:110-113 | two equal file names have the same like count and the same bucket shape (single or several), and, for several, the same stamp |
| Planner.VisitBucket | main.py:109-119 | the inner loop over one bucket can only fail by running the zero-like counter past that bucket |
| Planner.SortInfo | main.py:98-120 | `_sort_info` can only fail by running the zero-like counter past a bucket; on a well-grouped dict it never fails, and its summary and manifest equal the flat reference of records and writes |
| Planner.RecordsLength | main.py:108-114 | one record and one manifest write per catalog entry |
| Planner.RecordAt | main.py:108-119 | the record at position `Offset(b) + j` names the `j`-th entry of bucket `b` with its size label: buckets in key order, entries in source order |
| Planner.EntryAt | main.py:108-119 | every summary position belongs to some catalog entry |
| Planner.SameNameSameBucket | main.py:110-113 | entries from different like counts never share a name; two entries of one bucket share a name only in a multi-photo bucket with equal stamps |
| Planner.SameStampSameName | main.py:112-113 | two entries of a bucket with equal stamps share a name |
| Planner.ManifestUrl | main.py:107-119 | for a bucket with likes, every name maps to the first entry's URL; in the zero-like bucket, a name maps to the URL of an entry that bears it, which is the entry itself when that bucket's stamps are distinct |
| Planner.NamesAreWriteKeys | main.py:114-119 | the summary names are the manifest's assignment keys, in the same order |
| Planner.SummaryNamesDistinct | main.py:110-114 | the summary repeats a name iff some bucket holds two photos with the same stamp |
| Planner.ManifestKeys | main.py:104-120 | the summary has one record per entry; the manifest keys are the summary names deduplicated in first-appearance order; the manifest is never larger, and equal in size iff the stamps within every bucket are distinct |
| Planner.PlanUpload | main.py:60 | building a `VkUser` succeeds iff the first `count` items exist and have sizes, and otherwise fails with `NoSuchPhoto` or `NoSizes`, never with a counter overrun; the summary has `max(count, 0)` records and the manifest has at most that many keys |
| Planner.TwoPhotoScenario | main.py:29-36 | two photos, the first with two variants of equal area: the first variant wins, and both single-photo buckets give bare names that map to their own URLs |
| Planner.PairRun | main.py:104-120 | a dict with one two-photo bucket yields two records with the names and sizes of its entries in order, and a manifest built by assigning the first name, then the second |
| Planner.SharedUrlScenario | main.py:118-119 | two seven-like photos get distinct stamped names, and both names map to the first photo's URL |
| Planner.SameStampScenario | main.py:110-117 | two zero-like photos with one stamp share a name; the later URL replaces the earlier, and the manifest keeps one key |
| YandexDisk.PlannedSpec | main.py:174-179 | the request list holds an upload `{folder/key, url}` exactly for the unlisted entries, and is no longer than the manifest |
| YandexDisk.Lookup | main.py:176 | `dict_files[key]` for a key of a dict without repeated keys is the value stored beside that key |
| YandexDisk.CreateCopy | main.py:170-183 | for a dict without repeated keys, visits exactly the first `min(num, len)` keys in insertion order and none after; records an upload `{folder/key, dict_files[key]}` exactly for the visited keys absent from the listing; `copy_counter` equals the number of uploads and never exceeds the visited keys, so the `else: break` branch is dead |

## Left out

- `read_token_id` (main.py:8-18) is configuration-file parsing through a library, so it is not modelled.
- `to_normal_format` (main.py:39-47) depends on the local time zone. It is the parameter `stamp: int -> string`, a fixed function the properties hold for. Only properties about equal or distinct stamps are stated.
- `_get_photos`, `_create_folder`, `_in_folder` and the POST in `create_copy` (main.py:62-76, 136-163, 178) are HTTP calls:
  - The fetched `count` and `items` are inputs.
  - The folder listing is an input.
  - Each POST is a recorded `Upload`.
  - The folder-creation race and the `overwrite: false` flag are not modelled.
- The progress bar, the `print` messages and the `__main__` script with its JSON dump (main.py:172, 146-148, 181, 185-186, 189-203) have no effect on the plan.
- A `KeyError` or `TypeError` from a malformed JSON reply is not modelled. The datatypes always carry every field, and widths and heights are integers.
- Planner.ManifestUrl: for a zero-like bucket in which two photos share a stamp, it states only that the name maps to the URL of some photo bearing that name. It does not say which one. `Planner.SameStampScenario` shows a concrete case where the later photo wins.
