# A verified model of the repository comparison engine

This project models the comparison and matching engine of a tool that finds duplicated source files between two code bases.

**Line fingerprints (`src/comparator.py`)**
- Every non-blank line of a file becomes a `LineMeta`: its 0-based line number, its stripped text and the SHA-256 digest of that text.
- A `FileMeta` groups a file's line records into a hash multimap, one list per content hash.
- `compare_two_file_metas` walks two multimaps and sorts line records into `duplicate_lines`, `unique_in_first` and `unique_in_second`.
- The uniqueness score is the rounded percentage of unique lines among all listed lines.

**Corpus matcher (`src/repo_comparison.py`)**
- `traverse_directories` keys both corpora by whole-file hash and pairs files with equal hashes.
- Then, in a single greedy pass, it finds for every remaining file of the first corpus the nearest file of the second corpus.
- It files that nearest comparison into one of four lists by its score.

The model is in Dafny, in four modules:

- `Text` (`text.dfy`): Python's `str.strip()`, `str.endswith`, the substring test `t in s`, and `pathlib.Path(p).name`.
- `Comparator` (`comparator.dfy`): `LineMeta`, the class `FileMeta` with its mutable bucket map, the line filter, the multimap construction, and `compare_two_file_metas`.
  - The comparison is written as imperative methods (`WalkFirst`, `VisitHash`, `PopPairs`, `CollectRemaining`).
  - Each is proved against a specification given by functions (`DuplicateMap`, `UniqueFirstMap`, `UniqueSecondMap`, `AfterPops`, `Gather`, `ScoreOf`).
- `ComparisonFacts` (`comparison_facts.dfy`): lemmas about the comparator model:
  - the line filter keeps exactly the non-blank lines, in order;
  - `is_picture` as a test on the path;
  - the multimap is a partition of the file's records;
  - each listed record comes from the file it is listed for;
  - the per-hash accounting of the comparison;
  - a worked example of the aliasing effect.
- `RepoComparison` (`repo_comparison.dfy`): `traverse_directories` as imperative methods over hash-keyed dicts.
  - A dict is a key order `seq<Digest>` plus a `map<Digest, FileMeta>`.
  - The methods are proved against `ExactPairs`, `KeyByHash`, `Scan`, `ListsAfterScan`, `NearestIn`, `Classify`, `Candidates` and `Filed`.
  - Lemmas cover the partition of the first corpus, the one-pair-per-shared-hash property of the exact pass, the at-most-once pairing of second files as partial duplicates, and the crash condition.

**Modelling choices**
- A SHA-256 digest is the free constructor `Sha256(text)`, an injective function with no other structure: equal digests mean equal input. The whole-file digest of a `FileMeta` is a constructor argument.
- A file's lines are given as the sequence `readlines()` returns, and each corpus as the sequence of its `FileMeta` objects.
- Python's `dict(...)` copies in `compare_two_file_metas` copy only the outer map. `.pop()` on a list therefore shrinks the list the `FileMeta` object itself holds.
  - The model keeps the buckets as a mutable field of the `FileMeta` class.
  - `CompareTwoFileMetas` states its result (`ComparisonOf`) and the new buckets of both files (`Remaining`, `AfterPops`) in terms of the buckets before the call.
  - The nearest pass is specified over a ghost map from every `FileMeta` to its buckets (`ListsAre` ties it to the objects). `Compared` updates the two compared files' entries. `Scan` and `ListsAfterScan` run one first file against the second files in key order, each comparison computed from the buckets the earlier ones left.
  - `TraverseDirectories` returns these maps as ghost `states`: `states[j]` holds every file's buckets before the `j`-th nearest comparison, and the last entry holds them at the end.
- `traverse_directories` crashes on line 45 when a first file finds the second dict empty. Its model returns `Failure(NoNearest)` in that case.

**Where the code and its design description differ.** The model follows the code.
- **Matcher.** The design description calls for a mutual-best-match reduction over a full similarity matrix, repeated to a fixed point. The code makes one greedy pass:
  - It compares each remaining first file against the current second dict.
  - It keeps the earliest comparison with the least score.
  - It files that comparison by score.
  - Only a partial duplicate removes its second file. A second file paired at score 0 or with low tolerance stays a candidate, and still ends up among the fully unique second files.
- **Picture guard.** The design description classifies images by extension. The line filter instead skips any path that merely contains ".png" or ".ico" (`ComparisonFacts.GuardWiderThanPicture`).
- **Fingerprints.** The design description treats fingerprints as read-only once built. The comparison mutates them (`ComparisonFacts.ComparingAgainDiffers`).

## Model

| member | source | states |
|---|---|---|
| `Comparator.HashText` | src/comparator.py:78-85 | defines a line's digest as the free constructor applied to the text |
| `Comparator.HashTextInjective` | src/comparator.py:78-85 | two line texts have equal digests exactly when the texts are equal |
| `Text.Strip` | src/comparator.py:98 | the stripped text is empty or starts and ends with a non-whitespace character |
| `Text.StripIsTrimmedSlice` | src/comparator.py:98 | `strip()` returns a contiguous slice of the line, and everything it cut off is whitespace |
| `Text.StripEmptyIffAllSpace` | src/comparator.py:98-99 | a line is dropped (empty after `strip()`) exactly when it is all whitespace |
| `Text.FileName` | src/comparator.py:20 | the file name has no '/', is a suffix of the path, and is preceded by a '/' when shorter than the path |
| `Text.EndsWithContains` | src/comparator.py:35-36 | a string ending with a suffix contains it |
| `Comparator.LineFilter` | src/comparator.py:87-103 | defines the result: no records when the path contains ".png" or ".ico", else `KeptLines`, one record per line whose stripped text is non-empty, numbered from 0 |
| `Comparator.LineMetasForFile` | src/comparator.py:87-103 | the loop returns `LineFilter`: nothing for a path containing ".png" or ".ico", else one record per non-blank line |
| `Comparator.KeptLinesStep` | src/comparator.py:96-101 | reading one more line appends its record exactly when its stripped text is non-empty |
| `ComparisonFacts.KeptLinesSound` | src/comparator.py:95-101 | every kept record holds its own path, a line index below the line count, the non-empty stripped text of that line, and that text's digest |
| `ComparisonFacts.KeptLinesIncreasing` | src/comparator.py:96-101 | line numbers of the kept records strictly increase (input order, not renumbered) |
| `ComparisonFacts.KeptLinesComplete` | src/comparator.py:96-101 | every line whose stripped text is non-empty has its record, numbered by its original index |
| `ComparisonFacts.PicturesHaveNoLines` | src/comparator.py:35-36 | a file that `is_picture` says is a picture gets no line records |
| `ComparisonFacts.GuardWiderThanPicture` | src/comparator.py:92-93 | a path such as "logo.png.txt" gets no lines although its file is not a picture |
| `ComparisonFacts.NameEndsWithIff` | src/comparator.py:20 | a file name ends with a '/'-free extension exactly when its path does |
| `Comparator.FileMeta.IsPicture` | src/comparator.py:35-36 | defines `is_picture`: the file name ends with ".png" or ".ico" |
| `ComparisonFacts.IsPictureIff` | src/comparator.py:35-36 | `is_picture` holds exactly when the path ends with ".png" or ".ico" |
| `Comparator.Bucket` | src/comparator.py:26-30 | every record of a bucket has the bucket's hash, and a bucket is no longer than the file's records |
| `Comparator.HashOrder` | src/comparator.py:26-30 | the multimap's keys in insertion order are distinct and are exactly the hashes of the records |
| `Comparator.CreateHashMultiMap` | src/comparator.py:25-30 | the loop builds the key order `HashOrder` and the multimap `HashMultiMap` |
| `Comparator.Snoc` | src/comparator.py:28-29 | appending a record adds its hash (at the end of the key order when new) and appends the record to its hash's bucket only |
| `Comparator.NoBucketWithoutHash` | src/comparator.py:26-30 | a hash no record has has an empty bucket |
| `ComparisonFacts.BucketMembers` | src/comparator.py:26-30 | a record is in the bucket of `h` exactly when it is a record of the file with hash `h` |
| `ComparisonFacts.EveryRecordInItsBucket` | src/comparator.py:26-30 | every record is in the multimap under its own content hash |
| `ComparisonFacts.BucketsPartition` | src/comparator.py:26-30 | the buckets taken in key order hold the file's records as a permutation: each as often as in the file |
| `ComparisonFacts.GatherAppend` | src/comparator.py:28-29 | appending to one bucket adds exactly the appended records to the gathered contents |
| `Comparator.FileMeta.constructor` | src/comparator.py:18-23 | the new `FileMeta` keeps path, file name, file hash and records, and its buckets are the full multimap |
| `Comparator.FileMeta.LinesHashesSet` | src/comparator.py:32-33 | the key set is the set of hashes of the file's records, also after comparisons popped the lists |
| `Comparator.Popped` | src/comparator.py:163-173 | the unequal-count branch pops no more records than either list holds |
| `Comparator.CompareTwoFileMetas` | src/comparator.py:124-201 | short-circuits give score 0, empty lists and untouched buckets; otherwise the three lists, the score and both files' new buckets are as specified, and both files stay valid; the result is `ComparisonOf` the buckets at the call and the new buckets are `Remaining` |
| `Comparator.ShortCircuits` | src/comparator.py:137-144 | defines the two early returns: both files are pictures with the same file name, or the whole-file hashes are equal |
| `Comparator.ComparisonOf` | src/comparator.py:124-201 | the comparison two files' buckets determine pairs those two files and scores at most 100 |
| `Comparator.Remaining` | src/comparator.py:146-173 | after a comparison a file's buckets keep every hash, and each list is a prefix of what it was |
| `Comparator.WalkFirst` | src/comparator.py:157-179 | the loop over the first multimap yields `duplicate_lines`, `unique_in_first`, the popped lists and the keys left in the second copy |
| `Comparator.VisitHash` | src/comparator.py:158-179 | one hash of the first file: the equal-count branch, the popping branch, or the absent-hash branch, with the lists and copies each produces |
| `Comparator.PopPairs` | src/comparator.py:164-173 | the `while` loop pops `min(a, b)` records from both lists' ends, appends the first file's to `duplicate_lines` in pop order, and drops emptied keys |
| `Comparator.CollectRemaining` | src/comparator.py:185-186 | `unique_in_second` is every list left in the second copy, in key order |
| `Comparator.StillValid` | src/comparator.py:165-166 | after the pops every list is still a prefix of its bucket and no key is lost |
| `Comparator.PopsKeepPrefixes` | src/comparator.py:165-166 | popping records off list ends keeps each list a prefix of its bucket |
| `Comparator.WalkStep` | src/comparator.py:157-179 | walking one more hash changes only that hash's lists, and removes it from the second copy exactly when it dies |
| `Comparator.WalkDone` | src/comparator.py:157-179 | once every shared hash is walked, the lists are those of `AfterPops` |
| `Comparator.SecondCopyLeft` | src/comparator.py:185-186 | what the second copy holds after the walk is `UniqueSecondMap` |
| `Comparator.RoundHalfEven` | src/comparator.py:194 | defines Python's `round` of a non-negative rational: the integer quotient, plus one when the remainder is over half, or exactly half with an odd quotient |
| `Comparator.RoundHalfEvenNearest` | src/comparator.py:194 | the rounding is within one half of the exact quotient, and even on a tie (Python's `round`) |
| `Comparator.UniquenessScore` | src/comparator.py:188-196 | the score lies in [0, 100] |
| `Comparator.ScoreIsRoundedPercentage` | src/comparator.py:188-196 | score 100 with no lines; otherwise a nearest integer to 100·unique/overall, 0 when nothing is unique and 100 when nothing is duplicated |
| `Comparator.ScoreOf` | src/comparator.py:188-196 | defines a comparison's score: `UniquenessScore` of the unique lines (both unique lists) over all listed lines |
| `Comparator.ScoreBounds` | src/comparator.py:193-194 | a nearest integer to a percentage in [0, 100] is in [0, 100] and exact at both ends |
| `ComparisonFacts.GatherMembers` | src/comparator.py:157-186 | a record is in a gathered list exactly when it is in the list of one of the walked keys |
| `ComparisonFacts.ListsComeFromTheirFiles` | src/comparator.py:157-186 | `duplicate_lines` and `unique_in_first` hold only first-file records, `unique_in_second` only second-file records |
| `ComparisonFacts.ReversedMultiset` | src/comparator.py:164-173 | popping from the end reverses the popped records without losing or adding any |
| `ComparisonFacts.HashOnlyInFirst` | src/comparator.py:178-179 | a hash the second file lacks sends all of the first file's records to `unique_in_first` and pops nothing |
| `ComparisonFacts.EqualCountAccounting` | src/comparator.py:159-162 | equal counts: all first-file records are duplicates, the second file's are in no list, and no list is popped |
| `ComparisonFacts.UnequalCountAccounting` | src/comparator.py:163-173 | unequal counts: `min(a, b)` records come off each list end; the first's popped ones are the duplicates; the second's leftovers are unique to it; the first's leftovers are in no list |
| `ComparisonFacts.ComparingAgainDiffers` | src/comparator.py:146-147 | comparing one "x" against two scores 50 and leaves the lists at none and one, so comparing the same files again scores 100 |
| `RepoComparison.FileHashesMembers` | src/repo_comparison.py:21-22 | a hash is a key of a corpus dict exactly when some file of the corpus has it |
| `RepoComparison.KeyOrder` | src/repo_comparison.py:21-22 | the dict's keys in insertion order are distinct and are the corpus's file hashes |
| `RepoComparison.KeyByHash` | src/repo_comparison.py:21-22 | the dict maps every file hash to a file of the corpus with that hash |
| `RepoComparison.KeyedCorpus` | src/repo_comparison.py:21-22 | the key order and the dict form a well-formed hash-keyed dict |
| `RepoComparison.LastFileWins` | src/repo_comparison.py:21-22 | the file kept under a hash is the last file of the corpus with that hash |
| `RepoComparison.Without` | src/repo_comparison.py:33-34 | deleting keys keeps exactly the other keys, in order |
| `RepoComparison.WithoutDistinct` | src/repo_comparison.py:33-34 | deleting keys keeps the dict's keys distinct |
| `RepoComparison.WithoutWithout` | src/repo_comparison.py:33-34 | deleting keys one by one is deleting them all at once |
| `RepoComparison.WithoutOne` | src/repo_comparison.py:53 | `del` of a present key removes exactly one entry |
| `RepoComparison.ValuesInOrder` | src/repo_comparison.py:57 | `values()` lists the file under each key, in key order |
| `RepoComparison.ExactPass` | src/repo_comparison.py:30-34 | the loop pairs the files of every shared hash in first-dict order and deletes those hashes from both dicts |
| `RepoComparison.ExactPairsOnePerSharedHash` | src/repo_comparison.py:30-34 | every pair is the two files stored under a shared hash, every shared hash gives a pair, and no hash gives two |
| `RepoComparison.ExactOrLeft` | src/repo_comparison.py:30-36 | a first-corpus hash the second dict has gives the pair of its two files and is not left; one the second dict lacks is left for the nearest pass; the pairs and the keys left add up to the first dict's size |
| `RepoComparison.SharedPairs` | src/repo_comparison.py:30-32 | a hash both dicts have gives the pair of the two files stored under it |
| `RepoComparison.ExactPairs` | src/repo_comparison.py:30-34 | defines the exact pairs: for each first-dict key in order that the second dict also has, the two files stored under it |
| `RepoComparison.NearestIndex` | src/repo_comparison.py:40-43 | the nearest comparison has the least score, and every earlier comparison scored strictly more (ties keep the first) |
| `RepoComparison.NearestIndexSnoc` | src/repo_comparison.py:40-43 | a new comparison becomes the nearest exactly when it scores strictly lower |
| `RepoComparison.NearestInSnoc` | src/repo_comparison.py:39-43 | the comparison held after one more comparison is the new one exactly when it scores strictly lower than the one held before |
| `RepoComparison.Compared` | src/comparator.py:146-173 | comparing two files changes the buckets of those two files only; every file keeps its entry |
| `RepoComparison.ListsAfterScan` | src/repo_comparison.py:38-39 | comparing one first file with a sequence of second files keeps every file's entry |
| `RepoComparison.Scan` | src/repo_comparison.py:38-39 | one comparison per second file, in order, each of the first file with that second file and scored in [0, 100]; each is `ComparisonOf` the buckets the earlier comparisons left |
| `RepoComparison.CompareAndKeepNearest` | src/repo_comparison.py:39-43 | the comparison made is `ComparisonOf` the two files' buckets before the call, those buckets become `Remaining`, and the held comparison is replaced when none is held or the new one scores strictly lower, and is kept otherwise |
| `RepoComparison.NearestToFirst` | src/repo_comparison.py:37-43 | `None` exactly when the second dict is empty; otherwise the nearest comparison (`NearestIn`) of the `Scan` from the buckets at the call, over the dict's files in key order; every file's buckets end up as `ListsAfterScan` |
| `RepoComparison.ScannedStep` | src/repo_comparison.py:38-43 | one more round of the inner loop keeps the held comparison the nearest of the scan so far, and its buckets are those of one more `Compared` |
| `RepoComparison.ClassifyByRange` | src/repo_comparison.py:13-14 | the four lists are score 0, score 100, 0 < score < 20, and 20 ≤ score < 100 |
| `RepoComparison.Classify` | src/repo_comparison.py:45-55 | defines the filing order of the `if`/`elif` chain: score 0 first, then 100, then below the tolerance of 20, else low tolerance |
| `RepoComparison.PlacedIn` | src/repo_comparison.py:45-55 | a list holds only comparisons whose score files them there, in order |
| `RepoComparison.PlacementPartition` | src/repo_comparison.py:45-55 | every nearest comparison goes to exactly one of the four lists |
| `RepoComparison.CandidatesStep` | src/repo_comparison.py:49-53 | only a partial duplicate deletes a file (its second file) from the second dict |
| `RepoComparison.CandidatesShrink` | src/repo_comparison.py:52-53 | the second dict loses at most one file per partial duplicate |
| `RepoComparison.CandidatesLeft` | src/repo_comparison.py:37-45 | while fewer first files have been filed than the second dict had, the second dict is not empty |
| `RepoComparison.PartialSecondsDistinct` | src/repo_comparison.py:49-53 | no second file is the partner of two partial duplicates |
| `RepoComparison.TraverseDirectories` | src/repo_comparison.py:17-57 | the nearest comparisons are those of `NearestPass`, scanned from the buckets in `states`, which start at the buckets of the call and end at those the objects hold; the result fails exactly when a first file finds the second dict empty, which cannot happen when the second corpus has at least as many files left; on success the five lists are `Filed`, no second file is partially paired twice, and the lengths of the four first-file lists add up to the number of files of the first dict |
| `RepoComparison.PairIdenticalFiles` | src/repo_comparison.py:21-34 | the two dicts, the exact pairs and the two dicts left; pairs plus first files left equal the first dict's size |
| `RepoComparison.FileNearestComparisons` | src/repo_comparison.py:36-57 | the outer loop establishes `PassResult`: the comparisons made, each scanned from the buckets the earlier ones left, the crash condition, the five lists as `Filed`, distinct partial partners, and the count of first files |
| `RepoComparison.CompareNext` | src/repo_comparison.py:37-43 | the next first file's nearest comparison against the second dict as it stands, scanned from the buckets at the call (`NearestScan`), and the buckets it leaves; `None` exactly when the dict is empty, and then no bucket changes |
| `RepoComparison.NearestScanPicks` | src/repo_comparison.py:38-43 | the nearest comparison pairs the first file with a file of the second dict, stored under its own hash, and scores at most 100 |
| `RepoComparison.NearestScanWider` | src/repo_comparison.py:38 | the scan reads the second dict only at its keys |
| `RepoComparison.NearestPassAt` | src/repo_comparison.py:36-43 | the `j`-th nearest comparison is the `NearestScan` of the `j`-th first file against the second files the earlier partial duplicates left, from the buckets the earlier comparisons left |
| `RepoComparison.FileNearest` | src/repo_comparison.py:45-55 | the comparison is appended to the list its score picks; a partial duplicate also deletes its second file from the second dict |
| `RepoComparison.TraverseStep` | src/repo_comparison.py:36-55 | filing one more nearest comparison keeps the loop invariant |
| `RepoComparison.TraverseDone` | src/repo_comparison.py:57 | after the loop, `fully_unique_second` is the second dict's files in order, and the result is `Filed` |
| `RepoComparison.TraverseFailed` | src/repo_comparison.py:37-45 | a first file that finds the second dict empty is the crash, which happens only once the partial duplicates used the dict up |

`RepoComparison.TraverseDirectories` has these contracts:
- Every file stays valid.
- The nearest comparisons are those of `NearestPass`. Each comparison's first file is the next first file left after the exact pass, compared in key order with the second files left at that moment, and the comparison is the nearest (`NearestIn`) of that `Scan`.
- The scans are chained through `states`: the `j`-th starts from `states[j]` and leaves `states[j + 1]`; `states[0]` is the buckets at the call and the last entry is the buckets every object holds at the end.
- The result is `Failure(NoNearest)` exactly when some first file found the second dict empty. This cannot happen when the second corpus had at least as many files left as the first.
- On success:
  - the five lists are `Filed` of the exact pairs and the nearest comparisons;
  - no second file is partially paired twice;
  - the lengths of the four lists of first files add up to the number of files of the first dict (which entry each file gets follows from `Filed`).

## Left out

- Hashing: SHA-256 via `hashlib` and the 65536-byte chunked read of `calculate_hash_from_file` (src/comparator.py:59-85) are foreign calls and I/O. A digest is an injective constructor, and the whole-file digest is a parameter of `FileMeta`.
- File system: `open`/`readlines`, `os.path.exists` in `get_file_meta` and `os.walk` in `create_file_metas_for_folder` (src/comparator.py:95-122), and lines 18-19 of `traverse_directories`. The model takes file contents and corpora as given sequences, so `FileNotFoundError` and `NotADirectoryError` are not modelled.
- Report writing and console output (src/repo_comparison.py:60-117), `run()`, the plotting module and the `__repr__` methods are output formatting only.
- The `index.html` branch of `compare_two_file_metas` (src/comparator.py:153-155) does nothing and is not modelled.
- `Comparator.UniquenessScore`: computes `round(100 · unique / overall)` on exact rationals with round-half-even, not in floating point. A quotient that floats round differently (a product within one ulp of a half) is not modelled.
- `Text.Strip`: the whitespace set is Python's `str.isspace` for code points written out. Decoding of the file's bytes is not modelled: lines are already strings.
- `RepoComparison.TraverseDirectories`: line 52 deletes the partial duplicate's first file from the first dict. Nothing reads that dict afterwards (the outer loop walks a snapshot), so the model omits the deletion.
- `RepoComparison.TraverseDirectories`: the frame of the objects it may change is a ghost parameter `corpus`, the set of all `FileMeta` objects of both corpora. Aliasing between the two corpora (one object in both) is allowed by the contract but not examined further.
- `RepoComparison.TraverseDirectories`: the buckets of every object at the call are a ghost parameter `lists`, related to the objects by `ListsAre`; the model does not compute them from the corpora (they are the full multimaps for freshly built objects).
- `Text.FileName`: differs from `pathlib.Path(p).name` for a path ending in '/', "." or ".." (`pathlib` drops a trailing '/' and a "." component). Such paths never reach it: every path comes from `os.path.join(root, file)` with a file name from `os.walk` (src/comparator.py:118-120).
- Truthiness: `if not nearest_to_first` (line 40) is modelled as a test for `None`, since a `FileComparison` object is always truthy. `if purified` is modelled as a test for the empty string.
