/**
 * The line-fingerprint comparator of `src/comparator.py`: line records,
 * the per-file hash multimap, the line filter, and the pairwise
 * comparison with its uniqueness score.
 */
module Comparator {
  import opened Text

  /**
   * A SHA-256 hex digest. The model keeps the digested text as a free
   * constructor argument, so `Sha256` is an injective function whose
   * values carry no other structure: equal digests mean equal input,
   * which is what the comparator takes digest equality to mean.
   */
  datatype Digest = Sha256(input: string)

  /** `Comparator.calculate_hash_from_string`: the digest of one (stripped) line. */
  function HashText(line: string): Digest {
    Sha256(line)
  }

  /** Collision freedom: two texts have the same digest exactly when they are equal. */
  lemma HashTextInjective(a: string, b: string)
    ensures HashText(a) == HashText(b) <==> a == b
  {
  }

  /** `LineMeta`: one kept line of a file, its 0-based line number, stripped text and digest. */
  datatype LineMeta = LineMeta(filePath: string, lineNr: nat, content: string, contentHash: Digest)

  // ---------------------------------------------------------------------------
  // Comparator.get_line_metas_for_file
  // ---------------------------------------------------------------------------

  /** The guard of `get_line_metas_for_file`: the path mentions ".png" or ".ico" anywhere. */
  predicate SkippedAsPicture(path: string) {
    Contains(path, ".png") || Contains(path, ".ico")
  }

  /**
   * The records made for `lines` (the result of `readlines()`), numbered
   * from 0: one per line whose stripped text is non-empty, in line order.
   */
  function KeptLines(path: string, lines: seq<string>): seq<LineMeta> {
    if lines == [] then []
    else
      var n := |lines| - 1;
      var purified := Strip(lines[n]);
      KeptLines(path, lines[..n]) + (if purified != [] then [LineMeta(path, n, purified, HashText(purified))] else [])
  }

  /** What `get_line_metas_for_file` returns for a file at `path` whose lines are `lines`. */
  function LineFilter(path: string, lines: seq<string>): seq<LineMeta> {
    if SkippedAsPicture(path) then [] else KeptLines(path, lines)
  }

  /**
   * `Comparator.get_line_metas_for_file`, with the file's contents given
   * as the list `readlines()` would return.
   */
  method LineMetasForFile(filePath: string, lines: seq<string>) returns (meta: seq<LineMeta>)
    ensures meta == LineFilter(filePath, lines)
  {
    meta := [];
    if Contains(filePath, ".png") || Contains(filePath, ".ico") {
      return;
    }
    var lineNr := 0;
    while lineNr < |lines|
      invariant 0 <= lineNr <= |lines|
      invariant meta == KeptLines(filePath, lines[..lineNr])
    {
      KeptLinesStep(filePath, lines, lineNr);
      var purified := Strip(lines[lineNr]);
      if purified != [] {
        meta := meta + [LineMeta(filePath, lineNr, purified, HashText(purified))];
      }
      lineNr := lineNr + 1;
    }
    assert lines[..|lines|] == lines;
  }

  /** Reading one more line adds its record exactly when its stripped text is non-empty. */
  lemma KeptLinesStep(path: string, lines: seq<string>, n: nat)
    requires n < |lines|
    ensures KeptLines(path, lines[..n + 1]) == KeptLines(path, lines[..n]) +
      (if Strip(lines[n]) != [] then [LineMeta(path, n, Strip(lines[n]), HashText(Strip(lines[n])))] else [])
  {
    assert lines[..n + 1][..n] == lines[..n];
  }

  // ---------------------------------------------------------------------------
  // FileMeta.create_hash_multi_map
  // ---------------------------------------------------------------------------

  predicate Distinct<T(==)>(s: seq<T>) {
    forall i, j :: 0 <= i < j < |s| ==> s[i] != s[j]
  }

  /** The content hashes occurring among `lms`. */
  function Hashes(lms: seq<LineMeta>): set<Digest> {
    if lms == [] then {} else Hashes(lms[..|lms| - 1]) + {lms[|lms| - 1].contentHash}
  }

  /** The records of `lms` whose content hash is `h`, in their order in `lms`. */
  function Bucket(lms: seq<LineMeta>, h: Digest): (b: seq<LineMeta>)
    ensures forall x :: x in b ==> x.contentHash == h
    ensures |b| <= |lms|
  {
    if lms == [] then []
    else
      var x := lms[|lms| - 1];
      Bucket(lms[..|lms| - 1], h) + (if x.contentHash == h then [x] else [])
  }

  /** The keys of the multimap in dictionary (first-insertion) order. */
  function HashOrder(lms: seq<LineMeta>): (keys: seq<Digest>)
    ensures Distinct(keys)
    ensures forall h :: h in keys <==> h in Hashes(lms)
  {
    if lms == [] then []
    else
      var p := lms[..|lms| - 1];
      var x := lms[|lms| - 1];
      assert lms == p + [x];
      var keys := HashOrder(p);
      if x.contentHash in keys then keys else keys + [x.contentHash]
  }

  /** The multimap `create_hash_multi_map` builds: every hash of `lms` mapped to its bucket. */
  function HashMultiMap(lms: seq<LineMeta>): map<Digest, seq<LineMeta>> {
    map h | h in Hashes(lms) :: Bucket(lms, h)
  }

  /**
   * `FileMeta.create_hash_multi_map`: appends each record to the list of its
   * content hash, creating the list (and the key) on first use.
   */
  method CreateHashMultiMap(lineMetas: seq<LineMeta>) returns (order: seq<Digest>, multiMap: map<Digest, seq<LineMeta>>)
    ensures order == HashOrder(lineMetas)
    ensures multiMap == HashMultiMap(lineMetas)
  {
    order, multiMap := [], map[];
    for i := 0 to |lineMetas|
      invariant order == HashOrder(lineMetas[..i])
      invariant multiMap == HashMultiMap(lineMetas[..i])
    {
      var lineMeta := lineMetas[i];
      var h := lineMeta.contentHash;
      ghost var done := lineMetas[..i];
      assert lineMetas[..i + 1] == done + [lineMeta];
      Snoc(done, lineMeta);
      if h in multiMap {
        multiMap := multiMap[h := multiMap[h] + [lineMeta]];
      } else {
        assert Bucket(done, h) + [lineMeta] == [lineMeta];
        multiMap := multiMap[h := [lineMeta]];
        order := order + [h];
      }
    }
    assert lineMetas[..|lineMetas|] == lineMetas;
  }

  /** Appending one record `x` to `p`: how the hashes, the key order and the buckets grow. */
  lemma Snoc(p: seq<LineMeta>, x: LineMeta)
    ensures Hashes(p + [x]) == Hashes(p) + {x.contentHash}
    ensures HashOrder(p + [x]) == if x.contentHash in HashOrder(p) then HashOrder(p) else HashOrder(p) + [x.contentHash]
    ensures HashMultiMap(p + [x]) == HashMultiMap(p)[x.contentHash := Bucket(p, x.contentHash) + [x]]
    ensures x.contentHash in HashMultiMap(p) ==> HashMultiMap(p)[x.contentHash] == Bucket(p, x.contentHash)
    ensures x.contentHash !in HashMultiMap(p) ==> Bucket(p, x.contentHash) == []
  {
    assert (p + [x])[..|p|] == p;
    BucketSnoc(p, x);
    var h := x.contentHash;
    var grown, updated := HashMultiMap(p + [x]), HashMultiMap(p)[h := Bucket(p, h) + [x]];
    assert grown.Keys == updated.Keys;
    forall k | k in grown
      ensures grown[k] == updated[k]
    {
      if k != h {
        assert updated[k] == Bucket(p, k);
      }
    }
  }

  lemma BucketSnoc(p: seq<LineMeta>, x: LineMeta)
    ensures forall h :: Bucket(p + [x], h) == Bucket(p, h) + (if x.contentHash == h then [x] else [])
    ensures x.contentHash !in Hashes(p) ==> Bucket(p, x.contentHash) == []
  {
    assert (p + [x])[..|p|] == p;
    if x.contentHash !in Hashes(p) {
      NoBucketWithoutHash(p, x.contentHash);
    }
  }

  lemma {:induction false} NoBucketWithoutHash(lms: seq<LineMeta>, h: Digest)
    requires h !in Hashes(lms)
    ensures Bucket(lms, h) == []
  {
    if lms != [] {
      NoBucketWithoutHash(lms[..|lms| - 1], h);
    }
  }

  // ---------------------------------------------------------------------------
  // FileMeta
  // ---------------------------------------------------------------------------

  /** Each list of `b` is what is left of its bucket of `lms` after records were popped off its end. */
  ghost predicate PrefixesOfBuckets(b: map<Digest, seq<LineMeta>>, lms: seq<LineMeta>) {
    forall h :: h in b ==> b[h] <= Bucket(lms, h)
  }

  /**
   * `FileMeta`. The lists of `hash_multi_map` are the mutable part: the
   * comparison pops records off them. The key set, and hence the key
   * order, never changes after construction.
   */
  class FileMeta {
    const filePath: string
    const fileName: string
    const fileHash: Digest
    const lineMetas: seq<LineMeta>
    /** The insertion order of `hash_multi_map`'s keys. */
    const hashOrder: seq<Digest>
    /** The lists of `hash_multi_map`. */
    var buckets: map<Digest, seq<LineMeta>>

    /**
     * Every hash of the file keeps its list, and each list is what is left
     * of its bucket after records were popped off its end.
     */
    ghost predicate Valid()
      reads this
    {
      && hashOrder == HashOrder(lineMetas)
      && buckets.Keys == Hashes(lineMetas)
      && PrefixesOfBuckets(buckets, lineMetas)
    }

    constructor (filePath: string, fileHash: Digest, lineMetas: seq<LineMeta>)
      ensures Valid()
      ensures this.filePath == filePath && this.fileName == FileName(filePath)
      ensures this.fileHash == fileHash && this.lineMetas == lineMetas
      ensures buckets == HashMultiMap(lineMetas)
    {
      this.filePath := filePath;
      this.fileName := FileName(filePath);
      this.fileHash := fileHash;
      this.lineMetas := lineMetas;
      var order, multiMap := CreateHashMultiMap(lineMetas);
      this.hashOrder := order;
      this.buckets := multiMap;
    }

    /** `get_lines_hashes_set`: the key set, which is always every hash of the file's lines. */
    function LinesHashesSet(): (r: set<Digest>)
      reads this
      requires Valid()
      ensures r == Hashes(lineMetas)
      ensures forall h :: h in r <==> h in hashOrder
    {
      buckets.Keys
    }

    /** `is_picture`: the file name ends with ".png" or ".ico". */
    predicate IsPicture() {
      EndsWith(fileName, ".png") || EndsWith(fileName, ".ico")
    }
  }

  // ---------------------------------------------------------------------------
  // Comparator.compare_two_file_metas: the specification of its line walk
  // ---------------------------------------------------------------------------

  function Min(a: nat, b: nat): nat {
    if a <= b then a else b
  }

  function Reversed<T(!new)>(s: seq<T>): (r: seq<T>)
    ensures |r| == |s|
    ensures forall x :: x in r <==> x in s
  {
    if s == [] then [] else Reversed(s[1..]) + [s[0]]
  }

  /**
   * How many records the unequal-count branch pops off each side for `h`:
   * the smaller count when both files have `h` with different counts, else 0.
   */
  function Popped(fb: map<Digest, seq<LineMeta>>, sb: map<Digest, seq<LineMeta>>, h: Digest): (k: nat)
    ensures h in fb ==> k <= |fb[h]|
    ensures h in sb ==> k <= |sb[h]|
  {
    if h in fb && h in sb && |fb[h]| != |sb[h]| then Min(|fb[h]|, |sb[h]|) else 0
  }

  /** `h` is removed from the second file's working copy while the first file's hashes are walked. */
  predicate Dead(fb: map<Digest, seq<LineMeta>>, sb: map<Digest, seq<LineMeta>>, h: Digest) {
    h in fb && h in sb && (|fb[h]| == |sb[h]| || 0 < |sb[h]| < |fb[h]|)
  }

  /** The part of `duplicate_lines` contributed by the first file's hash `h`. */
  function DuplicatePiece(fb: map<Digest, seq<LineMeta>>, sb: map<Digest, seq<LineMeta>>, h: Digest): seq<LineMeta>
    requires h in fb
  {
    if h !in sb then []
    else if |fb[h]| == |sb[h]| then fb[h]
    else Reversed(fb[h][|fb[h]| - Popped(fb, sb, h)..])
  }

  /** The part of `unique_in_first` contributed by the first file's hash `h`. */
  function UniqueFirstPiece(fb: map<Digest, seq<LineMeta>>, sb: map<Digest, seq<LineMeta>>, h: Digest): seq<LineMeta>
    requires h in fb
  {
    if h in sb then [] else fb[h]
  }

  function DuplicateMap(fb: map<Digest, seq<LineMeta>>, sb: map<Digest, seq<LineMeta>>): map<Digest, seq<LineMeta>> {
    map h | h in fb :: DuplicatePiece(fb, sb, h)
  }

  function UniqueFirstMap(fb: map<Digest, seq<LineMeta>>, sb: map<Digest, seq<LineMeta>>): map<Digest, seq<LineMeta>> {
    map h | h in fb :: UniqueFirstPiece(fb, sb, h)
  }

  /**
   * The second working copy after the walk: the second file's hashes that
   * were not removed from it, each with what the pops left of its list.
   */
  function UniqueSecondMap(fb: map<Digest, seq<LineMeta>>, sb: map<Digest, seq<LineMeta>>): map<Digest, seq<LineMeta>> {
    map h | h in sb && !Dead(fb, sb, h) :: sb[h][..|sb[h]| - Popped(fb, sb, h)]
  }

  /** The lists of `b` after the comparison against `other` has popped its records. */
  function AfterPops(b: map<Digest, seq<LineMeta>>, other: map<Digest, seq<LineMeta>>): map<Digest, seq<LineMeta>> {
    map h | h in b :: b[h][..|b[h]| - Popped(b, other, h)]
  }

  /** The lists of `b` once the first file's hashes in `done` have been walked. */
  ghost function PoppedOn(b: map<Digest, seq<LineMeta>>, other: map<Digest, seq<LineMeta>>, done: set<Digest>): map<Digest, seq<LineMeta>> {
    map h | h in b :: b[h][..|b[h]| - (if h in done then Popped(b, other, h) else 0)]
  }

  /** The keys left in the second file's working copy once the first file's hashes in `done` have been walked. */
  ghost function LiveAfter(fb: map<Digest, seq<LineMeta>>, sb: map<Digest, seq<LineMeta>>, done: set<Digest>): set<Digest> {
    set h | h in sb && !(h in done && Dead(fb, sb, h))
  }

  /** Walking one more hash `h` changes the lists for `h` only, and drops `h` from the copy when it dies. */
  lemma WalkStep(fb: map<Digest, seq<LineMeta>>, sb: map<Digest, seq<LineMeta>>, done: set<Digest>, h: Digest)
    requires h !in done && h in fb
    ensures PoppedOn(fb, sb, done + {h}) == PoppedOn(fb, sb, done)[h := fb[h][..|fb[h]| - Popped(fb, sb, h)]]
    ensures h in sb ==> PoppedOn(sb, fb, done + {h}) == PoppedOn(sb, fb, done)[h := sb[h][..|sb[h]| - Popped(fb, sb, h)]]
    ensures h !in sb ==> PoppedOn(sb, fb, done + {h}) == PoppedOn(sb, fb, done)
    ensures LiveAfter(fb, sb, done + {h}) == if Dead(fb, sb, h) then LiveAfter(fb, sb, done) - {h} else LiveAfter(fb, sb, done)
  {
    PoppedOnStep(fb, sb, done, h);
    if h in sb {
      PoppedOnStep(sb, fb, done, h);
      assert Popped(sb, fb, h) == Popped(fb, sb, h);
    } else {
      PoppedOnSkip(sb, fb, done, h);
    }
    LiveAfterStep(fb, sb, done, h);
  }

  lemma PoppedOnStep(b: map<Digest, seq<LineMeta>>, other: map<Digest, seq<LineMeta>>, done: set<Digest>, h: Digest)
    requires h !in done && h in b
    ensures PoppedOn(b, other, done + {h}) == PoppedOn(b, other, done)[h := b[h][..|b[h]| - Popped(b, other, h)]]
  {
    var m1, m2 := PoppedOn(b, other, done + {h}), PoppedOn(b, other, done)[h := b[h][..|b[h]| - Popped(b, other, h)]];
    assert m1.Keys == m2.Keys;
    forall k | k in m1 ensures m1[k] == m2[k] {
    }
  }

  lemma PoppedOnSkip(b: map<Digest, seq<LineMeta>>, other: map<Digest, seq<LineMeta>>, done: set<Digest>, h: Digest)
    requires h !in b
    ensures PoppedOn(b, other, done + {h}) == PoppedOn(b, other, done)
  {
    var m1, m2 := PoppedOn(b, other, done + {h}), PoppedOn(b, other, done);
    assert m1.Keys == m2.Keys;
    forall k | k in m1 ensures m1[k] == m2[k] {
    }
  }

  lemma LiveAfterStep(fb: map<Digest, seq<LineMeta>>, sb: map<Digest, seq<LineMeta>>, done: set<Digest>, h: Digest)
    ensures LiveAfter(fb, sb, done + {h}) == if Dead(fb, sb, h) then LiveAfter(fb, sb, done) - {h} else LiveAfter(fb, sb, done)
  {
  }

  /** Once every hash the two files share has been walked, the lists are those of `AfterPops`. */
  lemma WalkDone(b: map<Digest, seq<LineMeta>>, other: map<Digest, seq<LineMeta>>, done: set<Digest>)
    requires b.Keys * other.Keys <= done
    ensures PoppedOn(b, other, done) == AfterPops(b, other)
  {
    var m1, m2 := PoppedOn(b, other, done), AfterPops(b, other);
    assert m1.Keys == m2.Keys;
    forall k | k in m1 ensures m1[k] == m2[k] {
    }
  }

  /** The lists of `pieces` for `keys`, concatenated in key order (keys without a list add nothing). */
  function Gather(keys: seq<Digest>, pieces: map<Digest, seq<LineMeta>>): seq<LineMeta> {
    if keys == [] then []
    else
      var h := keys[|keys| - 1];
      Gather(keys[..|keys| - 1], pieces) + (if h in pieces then pieces[h] else [])
  }

  // ---------------------------------------------------------------------------
  // The uniqueness score
  // ---------------------------------------------------------------------------

  /** Python's `round(num / den)` on exact rationals: the nearest integer, halves to the even neighbour. */
  function RoundHalfEven(num: nat, den: nat): nat
    requires den > 0
  {
    var q, rem := num / den, num % den;
    if 2 * rem < den then q
    else if 2 * rem > den then q + 1
    else if q % 2 == 0 then q
    else q + 1
  }

  /** `RoundHalfEven(num, den)` is within one half of `num / den`, and even on a tie. */
  lemma RoundHalfEvenNearest(num: nat, den: nat)
    requires den > 0
    ensures var r := RoundHalfEven(num, den);
      && 2 * num <= 2 * (r * den) + den && 2 * (r * den) <= 2 * num + den
      && (2 * num == 2 * (r * den) + den || 2 * (r * den) == 2 * num + den ==> r % 2 == 0)
  {
    var q, rem := num / den, num % den;
    assert num == q * den + rem;
    assert (q + 1) * den == q * den + den;
  }

  /**
   * The uniqueness percentage: `round(unique / overall * 100)` when any line
   * was considered, and 100 when none was.
   */
  function UniquenessScore(unique: nat, overall: nat): (r: nat)
    requires unique <= overall
    ensures r <= 100
  {
    if overall > 0 then
      var r := RoundHalfEven(100 * unique, overall);
      RoundHalfEvenNearest(100 * unique, overall);
      ScoreBounds(unique, overall, r);
      r
    else 100
  }

  /** The score of a comparison with these three line lists: unique lines over all lines. */
  function ScoreOf(duplicateLines: seq<LineMeta>, uniqueInFirst: seq<LineMeta>, uniqueInSecond: seq<LineMeta>): nat {
    UniquenessScore(|uniqueInFirst| + |uniqueInSecond|, |uniqueInFirst| + |uniqueInSecond| + |duplicateLines|)
  }

  /**
   * The score is the percentage of unique lines rounded to a nearest
   * integer, 0 when every line was duplicated, and 100 when no line was.
   */
  lemma ScoreIsRoundedPercentage(unique: nat, overall: nat)
    requires unique <= overall
    ensures var r := UniquenessScore(unique, overall);
      && (overall == 0 ==> r == 100)
      && (overall > 0 ==> 200 * unique <= 2 * (r * overall) + overall && 2 * (r * overall) <= 200 * unique + overall)
      && (overall > 0 && unique == 0 ==> r == 0)
      && (overall > 0 && unique == overall ==> r == 100)
  {
    if overall > 0 {
      RoundHalfEvenNearest(100 * unique, overall);
      ScoreBounds(unique, overall, UniquenessScore(unique, overall));
    }
  }

  /** A nearest integer to a percentage in [0, 100] is in [0, 100], and is exact at both ends. */
  lemma ScoreBounds(unique: nat, overall: nat, r: nat)
    requires 0 < overall && unique <= overall
    requires 200 * unique <= 2 * (r * overall) + overall && 2 * (r * overall) <= 200 * unique + overall
    ensures r <= 100
    ensures unique == 0 ==> r == 0
    ensures unique == overall ==> r == 100
  {
    if r >= 101 {
      MulMonotone(101, r, overall);
      assert false;
    }
    if unique == 0 && r >= 1 {
      MulMonotone(1, r, overall);
      assert false;
    }
    if unique == overall && r <= 99 {
      MulMonotone(r, 99, overall);
      assert false;
    }
  }

  lemma MulMonotone(a: nat, b: nat, c: nat)
    requires a <= b
    ensures a * c <= b * c
  {
  }

  // ---------------------------------------------------------------------------
  // Comparator.compare_two_file_metas
  // ---------------------------------------------------------------------------

  /** `FileComparison`: the two files, the uniqueness score in percent, and the three line lists. */
  datatype FileComparison = FileComparison(
    first: FileMeta,
    second: FileMeta,
    uniquenessScore: nat,
    duplicateLines: seq<LineMeta>,
    uniqueInFirst: seq<LineMeta>,
    uniqueInSecond: seq<LineMeta>)

  /** The two short-circuits: two pictures with the same name, or equal whole-file hashes. */
  predicate ShortCircuits(first: FileMeta, second: FileMeta) {
    || (first.IsPicture() && second.IsPicture() && first.fileName == second.fileName)
    || first.fileHash == second.fileHash
  }

  /** The lists of a `hash_multi_map`, by content hash. */
  type Buckets = map<Digest, seq<LineMeta>>

  /**
   * What `compare_two_file_metas` returns for `first` and `second` when
   * their lists are `fb` and `sb`: the two files, and for a short-circuit a
   * score of 0 with no lines, else the three lists the line walk gathers and
   * their score.
   */
  function ComparisonOf(first: FileMeta, second: FileMeta, fb: Buckets, sb: Buckets): (c: FileComparison)
    ensures c.first == first && c.second == second && c.uniquenessScore <= 100
  {
    if ShortCircuits(first, second) then FileComparison(first, second, 0, [], [], [])
    else
      var duplicateLines := Gather(first.hashOrder, DuplicateMap(fb, sb));
      var uniqueInFirst := Gather(first.hashOrder, UniqueFirstMap(fb, sb));
      var uniqueInSecond := Gather(second.hashOrder, UniqueSecondMap(fb, sb));
      FileComparison(first, second, ScoreOf(duplicateLines, uniqueInFirst, uniqueInSecond),
                     duplicateLines, uniqueInFirst, uniqueInSecond)
  }

  /**
   * The lists `b` of one of the two files once `first` and `second` have
   * been compared, `other` being the lists of the other file: a
   * short-circuit pops nothing, the line walk pops `AfterPops`. Either way
   * every hash keeps its list, which only loses records off its end.
   */
  function Remaining(first: FileMeta, second: FileMeta, b: Buckets, other: Buckets): (r: Buckets)
    ensures r.Keys == b.Keys
    ensures forall h :: h in r ==> r[h] <= b[h]
  {
    if ShortCircuits(first, second) then b else AfterPops(b, other)
  }

  /**
   * `Comparator.compare_two_file_metas`. The working copies of the two
   * multimaps are `dict(...)` copies of the outer maps only: their lists
   * are the files' own lists, so the pops of the unequal-count branch
   * shrink the buckets of both `FileMeta` objects, which keep them after
   * the call. A working copy is modelled by the set of keys still present
   * in it; the lists themselves are threaded through the walk and stored
   * back into the two objects.
   */
  method CompareTwoFileMetas(first: FileMeta, second: FileMeta) returns (r: FileComparison)
    requires first.Valid() && second.Valid()
    modifies first, second
    ensures first.Valid() && second.Valid()
    ensures r.first == first && r.second == second && r.uniquenessScore <= 100
    ensures ShortCircuits(first, second) ==>
      && r.uniquenessScore == 0 && r.duplicateLines == r.uniqueInFirst == r.uniqueInSecond == []
      && first.buckets == old(first.buckets) && second.buckets == old(second.buckets)
    ensures !ShortCircuits(first, second) ==>
      && r.duplicateLines == Gather(first.hashOrder, DuplicateMap(old(first.buckets), old(second.buckets)))
      && r.uniqueInFirst == Gather(first.hashOrder, UniqueFirstMap(old(first.buckets), old(second.buckets)))
      && r.uniqueInSecond == Gather(second.hashOrder, UniqueSecondMap(old(first.buckets), old(second.buckets)))
      && first.buckets == AfterPops(old(first.buckets), old(second.buckets))
      && second.buckets == AfterPops(old(second.buckets), old(first.buckets))
      && r.uniquenessScore == ScoreOf(r.duplicateLines, r.uniqueInFirst, r.uniqueInSecond)
    ensures r == ComparisonOf(first, second, old(first.buckets), old(second.buckets))
    ensures first.buckets == Remaining(first, second, old(first.buckets), old(second.buckets))
    ensures second.buckets == Remaining(first, second, old(second.buckets), old(first.buckets))
  {
    if first.IsPicture() && second.IsPicture() {
      if first.fileName == second.fileName {
        return FileComparison(first, second, 0, [], [], []);
      }
    }
    if first.fileHash == second.fileHash {
      return FileComparison(first, second, 0, [], [], []);
    }

    ghost var fb, sb := first.buckets, second.buckets;
    var firstBuckets, secondBuckets, duplicateLines, uniqueInFirst, secondLive := WalkFirst(first.hashOrder, first.buckets, second.buckets);
    first.buckets := firstBuckets;
    second.buckets := secondBuckets;
    var uniqueInSecond := CollectRemaining(second.hashOrder, secondBuckets, secondLive, fb, sb);
    StillValid(first, fb, sb);
    StillValid(second, sb, fb);

    var score := ScoreOf(duplicateLines, uniqueInFirst, uniqueInSecond);
    r := FileComparison(first, second, score, duplicateLines, uniqueInFirst, uniqueInSecond);
  }

  /** The pops only shorten lists from their ends, so a valid file stays valid. */
  lemma StillValid(f: FileMeta, b: map<Digest, seq<LineMeta>>, other: map<Digest, seq<LineMeta>>)
    requires f.buckets == AfterPops(b, other)
    requires f.hashOrder == HashOrder(f.lineMetas) && b.Keys == Hashes(f.lineMetas)
    requires PrefixesOfBuckets(b, f.lineMetas)
    ensures f.Valid()
  {
    PopsKeepPrefixes(b, other, f.lineMetas);
  }

  /** Popping records off the ends of lists that are prefixes of the buckets leaves prefixes of the buckets. */
  lemma PopsKeepPrefixes(b: map<Digest, seq<LineMeta>>, other: map<Digest, seq<LineMeta>>, lms: seq<LineMeta>)
    requires PrefixesOfBuckets(b, lms)
    ensures AfterPops(b, other).Keys == b.Keys
    ensures PrefixesOfBuckets(AfterPops(b, other), lms)
  {
    var a := AfterPops(b, other);
    forall h | h in a ensures a[h] <= Bucket(lms, h) {
      assert a[h] <= b[h];
    }
  }

  /**
   * The `for` loop of `compare_two_file_metas` over the first file's hashes,
   * in key order, on the lists `fb` and `sb` of the two files. It returns the
   * lists after the pops, `duplicate_lines`, `unique_in_first` and the keys
   * still present in the second working copy.
   */
  method WalkFirst(fo: seq<Digest>, fb: map<Digest, seq<LineMeta>>, sb: map<Digest, seq<LineMeta>>)
    returns (firstBuckets: map<Digest, seq<LineMeta>>, secondBuckets: map<Digest, seq<LineMeta>>,
             duplicateLines: seq<LineMeta>, uniqueInFirst: seq<LineMeta>, secondLive: set<Digest>)
    requires Distinct(fo)
    requires forall h :: h in fo <==> h in fb
    ensures firstBuckets == AfterPops(fb, sb)
    ensures secondBuckets == AfterPops(sb, fb)
    ensures duplicateLines == Gather(fo, DuplicateMap(fb, sb))
    ensures uniqueInFirst == Gather(fo, UniqueFirstMap(fb, sb))
    ensures secondLive == LiveAfter(fb, sb, fb.Keys)
  {
    var firstLive;
    firstBuckets, secondBuckets := fb, sb;
    firstLive, secondLive := fb.Keys, sb.Keys;
    duplicateLines, uniqueInFirst := [], [];
    ghost var done: set<Digest> := {};
    WalkStart(fb, sb);

    var i := 0;
    while i < |fo|
      invariant Walked(fo, fb, sb, i, done, firstBuckets, secondBuckets, firstLive, secondLive, duplicateLines, uniqueInFirst)
      decreases |fo| - i
    {
      var h := fo[i];
      assert h in fb by {
        assert h in fo;
      }
      WalkedVisitable(fo, fb, sb, i, done, firstBuckets, secondBuckets, firstLive, secondLive, duplicateLines, uniqueInFirst);
      var firstBuckets', secondBuckets', firstLive', secondLive', duplicateLines', uniqueInFirst' :=
        VisitHash(firstBuckets, secondBuckets, fb, sb, h, firstLive, secondLive, duplicateLines, uniqueInFirst);
      WalkedStep(fo, fb, sb, i, done, h, firstBuckets, secondBuckets, firstLive, secondLive, duplicateLines, uniqueInFirst,
                 firstBuckets', secondBuckets', firstLive', secondLive', duplicateLines', uniqueInFirst');
      firstBuckets, secondBuckets, firstLive, secondLive, duplicateLines, uniqueInFirst :=
        firstBuckets', secondBuckets', firstLive', secondLive', duplicateLines', uniqueInFirst';
      done := done + {h};
      i := i + 1;
    }
    WalkedDone(fo, fb, sb, i, done, firstBuckets, secondBuckets, firstLive, secondLive, duplicateLines, uniqueInFirst);
  }

  /**
   * The state of the walk after the first `i` hashes `done` of the key
   * order `fo`: the lists popped so far, the keys left in both working
   * copies, and the pieces of `duplicate_lines` and `unique_in_first`
   * gathered so far.
   */
  ghost predicate Walked(fo: seq<Digest>, fb: map<Digest, seq<LineMeta>>, sb: map<Digest, seq<LineMeta>>,
                         i: int, done: set<Digest>,
                         firstBuckets: map<Digest, seq<LineMeta>>, secondBuckets: map<Digest, seq<LineMeta>>,
                         firstLive: set<Digest>, secondLive: set<Digest>,
                         duplicateLines: seq<LineMeta>, uniqueInFirst: seq<LineMeta>)
  {
    && 0 <= i <= |fo|
    && (forall j :: 0 <= j < |fo| ==> (fo[j] in done <==> j < i))
    && firstBuckets == PoppedOn(fb, sb, done)
    && secondBuckets == PoppedOn(sb, fb, done)
    && secondLive == LiveAfter(fb, sb, done)
    && fb.Keys - done <= firstLive
    && duplicateLines == Gather(fo[..i], DuplicateMap(fb, sb))
    && uniqueInFirst == Gather(fo[..i], UniqueFirstMap(fb, sb))
  }

  /** During the walk, the next hash can be visited. */
  lemma WalkedVisitable(fo: seq<Digest>, fb: map<Digest, seq<LineMeta>>, sb: map<Digest, seq<LineMeta>>,
                        i: int, done: set<Digest>,
                        firstBuckets: map<Digest, seq<LineMeta>>, secondBuckets: map<Digest, seq<LineMeta>>,
                        firstLive: set<Digest>, secondLive: set<Digest>,
                        duplicateLines: seq<LineMeta>, uniqueInFirst: seq<LineMeta>)
    requires Walked(fo, fb, sb, i, done, firstBuckets, secondBuckets, firstLive, secondLive, duplicateLines, uniqueInFirst)
    requires i < |fo| && fo[i] in fb
    ensures var h := fo[i];
      && h in firstBuckets && firstBuckets[h] == fb[h] && h in firstLive
      && (h in secondLive <==> h in sb)
      && (h in sb ==> h in secondBuckets && secondBuckets[h] == sb[h])
  {
  }

  /** Visiting the next hash keeps the walk's state. */
  lemma WalkedStep(fo: seq<Digest>, fb: map<Digest, seq<LineMeta>>, sb: map<Digest, seq<LineMeta>>,
                   i: int, done: set<Digest>, h: Digest,
                   firstBuckets: map<Digest, seq<LineMeta>>, secondBuckets: map<Digest, seq<LineMeta>>,
                   firstLive: set<Digest>, secondLive: set<Digest>,
                   duplicateLines: seq<LineMeta>, uniqueInFirst: seq<LineMeta>,
                   firstBuckets': map<Digest, seq<LineMeta>>, secondBuckets': map<Digest, seq<LineMeta>>,
                   firstLive': set<Digest>, secondLive': set<Digest>,
                   duplicateLines': seq<LineMeta>, uniqueInFirst': seq<LineMeta>)
    requires Walked(fo, fb, sb, i, done, firstBuckets, secondBuckets, firstLive, secondLive, duplicateLines, uniqueInFirst)
    requires Distinct(fo) && i < |fo| && h == fo[i] && h in fb
    requires firstBuckets' == firstBuckets[h := fb[h][..|fb[h]| - Popped(fb, sb, h)]]
    requires h in sb ==> secondBuckets' == secondBuckets[h := sb[h][..|sb[h]| - Popped(fb, sb, h)]]
    requires h !in sb ==> secondBuckets' == secondBuckets
    requires secondLive' == if Dead(fb, sb, h) then secondLive - {h} else secondLive
    requires firstLive' - {h} == firstLive - {h}
    requires duplicateLines' == duplicateLines + DuplicatePiece(fb, sb, h)
    requires uniqueInFirst' == uniqueInFirst + UniqueFirstPiece(fb, sb, h)
    ensures Walked(fo, fb, sb, i + 1, done + {h}, firstBuckets', secondBuckets', firstLive', secondLive', duplicateLines', uniqueInFirst')
  {
    DoneStep(fo, i, done);
    WalkStep(fb, sb, done, h);
    GatherDuplicateStep(fo, i, fb, sb);
    GatherUniqueFirstStep(fo, i, fb, sb);
    LiveStep(fb.Keys, done, h, firstLive, firstLive');
  }

  /** At the end of the walk the state is the one `WalkFirst` promises. */
  lemma WalkedDone(fo: seq<Digest>, fb: map<Digest, seq<LineMeta>>, sb: map<Digest, seq<LineMeta>>,
                   i: int, done: set<Digest>,
                   firstBuckets: map<Digest, seq<LineMeta>>, secondBuckets: map<Digest, seq<LineMeta>>,
                   firstLive: set<Digest>, secondLive: set<Digest>,
                   duplicateLines: seq<LineMeta>, uniqueInFirst: seq<LineMeta>)
    requires Walked(fo, fb, sb, i, done, firstBuckets, secondBuckets, firstLive, secondLive, duplicateLines, uniqueInFirst)
    requires i >= |fo|
    requires forall h :: h in fo <==> h in fb
    ensures firstBuckets == AfterPops(fb, sb)
    ensures secondBuckets == AfterPops(sb, fb)
    ensures duplicateLines == Gather(fo, DuplicateMap(fb, sb))
    ensures uniqueInFirst == Gather(fo, UniqueFirstMap(fb, sb))
    ensures secondLive == LiveAfter(fb, sb, fb.Keys)
  {
    WalkFinish(fb, sb, fo, done);
    LiveAfterAll(fb, sb, done);
    assert fo[..i] == fo;
  }

  /** One iteration of the walk over the first file's hashes, for the hash `h`. */
  method VisitHash(firstBuckets: map<Digest, seq<LineMeta>>, secondBuckets: map<Digest, seq<LineMeta>>,
                   ghost fb: map<Digest, seq<LineMeta>>, ghost sb: map<Digest, seq<LineMeta>>,
                   h: Digest, firstLive: set<Digest>, secondLive: set<Digest>,
                   duplicateLines: seq<LineMeta>, uniqueInFirst: seq<LineMeta>)
    returns (firstBuckets': map<Digest, seq<LineMeta>>, secondBuckets': map<Digest, seq<LineMeta>>,
             firstLive': set<Digest>, secondLive': set<Digest>, duplicateLines': seq<LineMeta>, uniqueInFirst': seq<LineMeta>)
    requires h in fb && h in firstBuckets && firstBuckets[h] == fb[h] && h in firstLive
    requires h in secondLive <==> h in sb
    requires h in sb ==> h in secondBuckets && secondBuckets[h] == sb[h]
    ensures firstBuckets' == firstBuckets[h := fb[h][..|fb[h]| - Popped(fb, sb, h)]]
    ensures h in sb ==> secondBuckets' == secondBuckets[h := sb[h][..|sb[h]| - Popped(fb, sb, h)]]
    ensures h !in sb ==> secondBuckets' == secondBuckets
    ensures secondLive' == if Dead(fb, sb, h) then secondLive - {h} else secondLive
    ensures firstLive' - {h} == firstLive - {h}
    ensures duplicateLines' == duplicateLines + DuplicatePiece(fb, sb, h)
    ensures uniqueInFirst' == uniqueInFirst + UniqueFirstPiece(fb, sb, h)
  {
    firstBuckets', secondBuckets' := firstBuckets, secondBuckets;
    firstLive', secondLive', duplicateLines', uniqueInFirst' := firstLive, secondLive, duplicateLines, uniqueInFirst;
    var lines := firstBuckets[h];
    if h in secondLive {
      if |lines| == |secondBuckets[h]| {
        duplicateLines' := duplicateLines + lines;
        firstLive' := firstLive - {h};
        secondLive' := secondLive - {h};
        assert lines[..|lines| - 0] == lines;
        assert secondBuckets[h][..|secondBuckets[h]| - 0] == secondBuckets[h];
      } else {
        firstBuckets', secondBuckets', firstLive', secondLive', duplicateLines' :=
          PopPairs(firstBuckets, secondBuckets, h, firstLive, secondLive, duplicateLines);
      }
    } else {
      uniqueInFirst' := uniqueInFirst + lines;
      assert lines[..|lines| - 0] == lines;
    }
  }

  /** `Gather` over one more key appends that key's piece. */
  lemma GatherStep(keys: seq<Digest>, i: nat, pieces: map<Digest, seq<LineMeta>>)
    requires i < |keys|
    ensures Gather(keys[..i + 1], pieces) == Gather(keys[..i], pieces) + (if keys[i] in pieces then pieces[keys[i]] else [])
  {
    assert keys[..i + 1][..i] == keys[..i];
  }

  /** Walking the key `fo[i]` appends its piece of `duplicate_lines`. */
  lemma GatherDuplicateStep(fo: seq<Digest>, i: nat, fb: map<Digest, seq<LineMeta>>, sb: map<Digest, seq<LineMeta>>)
    requires i < |fo| && fo[i] in fb
    ensures Gather(fo[..i + 1], DuplicateMap(fb, sb)) == Gather(fo[..i], DuplicateMap(fb, sb)) + DuplicatePiece(fb, sb, fo[i])
  {
    GatherStep(fo, i, DuplicateMap(fb, sb));
  }

  /** Walking the key `fo[i]` appends its piece of `unique_in_first`. */
  lemma GatherUniqueFirstStep(fo: seq<Digest>, i: nat, fb: map<Digest, seq<LineMeta>>, sb: map<Digest, seq<LineMeta>>)
    requires i < |fo| && fo[i] in fb
    ensures Gather(fo[..i + 1], UniqueFirstMap(fb, sb)) == Gather(fo[..i], UniqueFirstMap(fb, sb)) + UniqueFirstPiece(fb, sb, fo[i])
  {
    GatherStep(fo, i, UniqueFirstMap(fb, sb));
  }

  /** With distinct keys, the keys done after step `i` are exactly the first `i + 1`. */
  lemma DoneStep(fo: seq<Digest>, i: nat, done: set<Digest>)
    requires i < |fo| && Distinct(fo)
    requires forall j :: 0 <= j < |fo| ==> (fo[j] in done <==> j < i)
    ensures fo[i] !in done
    ensures forall j :: 0 <= j < |fo| ==> (fo[j] in done + {fo[i]} <==> j < i + 1)
  {
    forall j | 0 <= j < |fo| ensures fo[j] in done + {fo[i]} <==> j < i + 1 {
      if j != i {
        assert fo[j] != fo[i];
      }
    }
  }

  /** The first file's keys not yet walked stay in its working copy. */
  lemma LiveStep(keys: set<Digest>, done: set<Digest>, h: Digest, live: set<Digest>, live': set<Digest>)
    requires keys - done <= live && live' - {h} == live - {h}
    ensures keys - (done + {h}) <= live'
  {
    forall k | k in keys - (done + {h}) ensures k in live' {
      assert k in live - {h};
    }
  }

  /** Before the walk, nothing is popped and every key of the second file is in its working copy. */
  lemma WalkStart(fb: map<Digest, seq<LineMeta>>, sb: map<Digest, seq<LineMeta>>)
    ensures PoppedOn(fb, sb, {}) == fb && PoppedOn(sb, fb, {}) == sb && LiveAfter(fb, sb, {}) == sb.Keys
  {
    var f, s := PoppedOn(fb, sb, {}), PoppedOn(sb, fb, {});
    assert f.Keys == fb.Keys;
    forall k | k in f ensures f[k] == fb[k] {
      assert fb[k][..|fb[k]|] == fb[k];
    }
    assert s.Keys == sb.Keys;
    forall k | k in s ensures s[k] == sb[k] {
      assert sb[k][..|sb[k]|] == sb[k];
    }
  }

  /** Once every hash of the first file is done, the keys left do not depend on what else is in `done`. */
  lemma LiveAfterAll(fb: map<Digest, seq<LineMeta>>, sb: map<Digest, seq<LineMeta>>, done: set<Digest>)
    requires fb.Keys <= done
    ensures LiveAfter(fb, sb, done) == LiveAfter(fb, sb, fb.Keys)
  {
  }

  /** After the walk every hash of the first file is done, and both sides hold what `AfterPops` says. */
  lemma WalkFinish(fb: map<Digest, seq<LineMeta>>, sb: map<Digest, seq<LineMeta>>, fo: seq<Digest>, done: set<Digest>)
    requires forall h :: h in fo <==> h in fb
    requires forall j :: 0 <= j < |fo| ==> fo[j] in done
    ensures fb.Keys <= done
    ensures PoppedOn(fb, sb, done) == AfterPops(fb, sb)
    ensures PoppedOn(sb, fb, done) == AfterPops(sb, fb)
  {
    forall k | k in fb ensures k in done {
      assert k in fo;
    }
    WalkDone(fb, sb, done);
    WalkDone(sb, fb, done);
  }

  /**
   * The `while` loop of the unequal-count branch of `compare_two_file_metas`:
   * while both working copies still hold `h` and both lists are non-empty,
   * pop the last record of each list, drop `h` from a copy whose list has
   * run empty, and keep the first file's record as a duplicate.
   */
  method PopPairs(firstBuckets: map<Digest, seq<LineMeta>>, secondBuckets: map<Digest, seq<LineMeta>>, h: Digest,
                  firstLive: set<Digest>, secondLive: set<Digest>, duplicateLines: seq<LineMeta>)
    returns (firstBuckets': map<Digest, seq<LineMeta>>, secondBuckets': map<Digest, seq<LineMeta>>,
             firstLive': set<Digest>, secondLive': set<Digest>, duplicateLines': seq<LineMeta>)
    requires h in firstBuckets && h in secondBuckets && h in firstLive && h in secondLive
    ensures var F, S := firstBuckets[h], secondBuckets[h];
      && firstBuckets' == firstBuckets[h := F[..|F| - Min(|F|, |S|)]]
      && secondBuckets' == secondBuckets[h := S[..|S| - Min(|F|, |S|)]]
      && duplicateLines' == duplicateLines + Reversed(F[|F| - Min(|F|, |S|)..])
      && firstLive' - {h} == firstLive - {h}
      && secondLive' == if 0 < |S| <= |F| then secondLive - {h} else secondLive
  {
    firstBuckets', secondBuckets' := firstBuckets, secondBuckets;
    firstLive', secondLive', duplicateLines' := firstLive, secondLive, duplicateLines;
    ghost var k := 0;
    PoppingStart(firstBuckets, secondBuckets, h, firstLive, secondLive, duplicateLines);
    while h in secondLive' && h in firstLive' && |secondBuckets'[h]| > 0 && |firstBuckets'[h]| > 0
      invariant Popping(firstBuckets, secondBuckets, h, firstLive, secondLive, duplicateLines,
                        k, firstBuckets', secondBuckets', firstLive', secondLive', duplicateLines')
      decreases |firstBuckets'[h]|
    {
      var firstList, secondList := firstBuckets'[h], secondBuckets'[h];
      PoppingStep(firstBuckets, secondBuckets, h, firstLive, secondLive, duplicateLines,
                  k, firstBuckets', secondBuckets', firstLive', secondLive', duplicateLines');
      var f := firstList[|firstList| - 1];
      var s := secondList[|secondList| - 1];
      firstBuckets' := firstBuckets'[h := firstList[..|firstList| - 1]];
      secondBuckets' := secondBuckets'[h := secondList[..|secondList| - 1]];
      if |firstList| - 1 == 0 {
        firstLive' := firstLive' - {h};
      }
      if |secondList| - 1 == 0 {
        secondLive' := secondLive' - {h};
      }
      duplicateLines' := duplicateLines' + [f];
      k := k + 1;
    }
    PoppingDone(firstBuckets, secondBuckets, h, firstLive, secondLive, duplicateLines,
                k, firstBuckets', secondBuckets', firstLive', secondLive', duplicateLines');
  }

  /**
   * The state of `PopPairs` after `k` rounds, started from the maps `fb0`,
   * `sb0`, the key sets `fl0`, `sl0` and the duplicates `d0`.
   */
  ghost predicate Popping(fb0: map<Digest, seq<LineMeta>>, sb0: map<Digest, seq<LineMeta>>, h: Digest,
                          fl0: set<Digest>, sl0: set<Digest>, d0: seq<LineMeta>, k: int,
                          fb: map<Digest, seq<LineMeta>>, sb: map<Digest, seq<LineMeta>>,
                          fl: set<Digest>, sl: set<Digest>, d: seq<LineMeta>)
  {
    && h in fb0 && h in sb0 && h in fl0 && h in sl0
    && var F, S := fb0[h], sb0[h];
    && 0 <= k <= Min(|F|, |S|)
    && fb == fb0[h := F[..|F| - k]]
    && sb == sb0[h := S[..|S| - k]]
    && fl == (if 0 < k == |F| then fl0 - {h} else fl0)
    && sl == (if 0 < k == |S| then sl0 - {h} else sl0)
    && d == d0 + Reversed(F[|F| - k..])
  }

  lemma PoppingStart(fb0: map<Digest, seq<LineMeta>>, sb0: map<Digest, seq<LineMeta>>, h: Digest,
                     fl0: set<Digest>, sl0: set<Digest>, d0: seq<LineMeta>)
    requires h in fb0 && h in sb0 && h in fl0 && h in sl0
    ensures Popping(fb0, sb0, h, fl0, sl0, d0, 0, fb0, sb0, fl0, sl0, d0)
  {
    var F, S := fb0[h], sb0[h];
    assert F[..|F| - 0] == F && S[..|S| - 0] == S;
    assert F[|F| - 0..] == [];
  }

  /** One round of `PopPairs`: both lists lose their last record, and the first one's is a duplicate. */
  lemma PoppingStep(fb0: map<Digest, seq<LineMeta>>, sb0: map<Digest, seq<LineMeta>>, h: Digest,
                    fl0: set<Digest>, sl0: set<Digest>, d0: seq<LineMeta>, k: int,
                    fb: map<Digest, seq<LineMeta>>, sb: map<Digest, seq<LineMeta>>,
                    fl: set<Digest>, sl: set<Digest>, d: seq<LineMeta>)
    requires Popping(fb0, sb0, h, fl0, sl0, d0, k, fb, sb, fl, sl, d)
    requires h in sl && h in fl && |sb[h]| > 0 && |fb[h]| > 0
    ensures var fs, ss := fb[h], sb[h];
      Popping(fb0, sb0, h, fl0, sl0, d0, k + 1,
              fb[h := fs[..|fs| - 1]], sb[h := ss[..|ss| - 1]],
              if |fs| - 1 == 0 then fl - {h} else fl,
              if |ss| - 1 == 0 then sl - {h} else sl,
              d + [fs[|fs| - 1]])
  {
    var F, S := fb0[h], sb0[h];
    var fs, ss := fb[h], sb[h];
    assert fs[..|fs| - 1] == F[..|F| - (k + 1)];
    assert ss[..|ss| - 1] == S[..|S| - (k + 1)];
    assert fs[|fs| - 1] == F[|F| - (k + 1)];
    assert F[|F| - (k + 1)..][1..] == F[|F| - k..];
  }

  /** When the loop of `PopPairs` stops, `Min(|F|, |S|)` rounds have run. */
  lemma PoppingDone(fb0: map<Digest, seq<LineMeta>>, sb0: map<Digest, seq<LineMeta>>, h: Digest,
                    fl0: set<Digest>, sl0: set<Digest>, d0: seq<LineMeta>, k: int,
                    fb: map<Digest, seq<LineMeta>>, sb: map<Digest, seq<LineMeta>>,
                    fl: set<Digest>, sl: set<Digest>, d: seq<LineMeta>)
    requires Popping(fb0, sb0, h, fl0, sl0, d0, k, fb, sb, fl, sl, d)
    requires !(h in sl && h in fl && |sb[h]| > 0 && |fb[h]| > 0)
    ensures var F, S := fb0[h], sb0[h];
      && fb == fb0[h := F[..|F| - Min(|F|, |S|)]]
      && sb == sb0[h := S[..|S| - Min(|F|, |S|)]]
      && d == d0 + Reversed(F[|F| - Min(|F|, |S|)..])
      && fl - {h} == fl0 - {h}
      && sl == if 0 < |S| <= |F| then sl0 - {h} else sl0
  {
    var F, S := fb0[h], sb0[h];
    assert k == Min(|F|, |S|);
  }

  /** The lists of `buckets` for the keys in `live` only. */
  function Restrict(buckets: map<Digest, seq<LineMeta>>, live: set<Digest>): map<Digest, seq<LineMeta>> {
    map h | h in buckets && h in live :: buckets[h]
  }

  /**
   * The last loop of `compare_two_file_metas`: the lists of the second
   * working copy (the lists `buckets` of the keys in `live`), concatenated
   * in the copy's key order `so`, once the walk has popped `fb` and `sb`.
   */
  method CollectRemaining(so: seq<Digest>, buckets: map<Digest, seq<LineMeta>>, live: set<Digest>,
                          ghost fb: map<Digest, seq<LineMeta>>, ghost sb: map<Digest, seq<LineMeta>>)
    returns (uniqueInSecond: seq<LineMeta>)
    requires buckets == AfterPops(sb, fb) && live == LiveAfter(fb, sb, fb.Keys)
    ensures uniqueInSecond == Gather(so, UniqueSecondMap(fb, sb))
  {
    uniqueInSecond := [];
    var j := 0;
    while j < |so|
      invariant 0 <= j <= |so|
      invariant uniqueInSecond == Gather(so[..j], Restrict(buckets, live))
    {
      var h := so[j];
      assert so[..j + 1][..j] == so[..j];
      if h in live && h in buckets {
        uniqueInSecond := uniqueInSecond + buckets[h];
      }
      j := j + 1;
    }
    assert so[..|so|] == so;
    SecondCopyLeft(fb, sb, fb.Keys);
  }

  /** What the walk leaves in the second working copy is `UniqueSecondMap`. */
  lemma SecondCopyLeft(fb: map<Digest, seq<LineMeta>>, sb: map<Digest, seq<LineMeta>>, done: set<Digest>)
    requires fb.Keys <= done
    ensures Restrict(AfterPops(sb, fb), LiveAfter(fb, sb, done)) == UniqueSecondMap(fb, sb)
  {
    var m1, m2 := Restrict(AfterPops(sb, fb), LiveAfter(fb, sb, done)), UniqueSecondMap(fb, sb);
    assert m1.Keys == m2.Keys;
    forall k | k in m1 ensures m1[k] == m2[k] {
    }
  }

  /** `Gather` depends only on what the two maps give for the listed keys, absent keys counting as empty. */
  lemma {:induction false} GatherPointwise(keys: seq<Digest>, m1: map<Digest, seq<LineMeta>>, m2: map<Digest, seq<LineMeta>>)
    requires forall k :: k in keys ==> (if k in m1 then m1[k] else []) == (if k in m2 then m2[k] else [])
    ensures Gather(keys, m1) == Gather(keys, m2)
  {
    if keys != [] {
      GatherPointwise(keys[..|keys| - 1], m1, m2);
    }
  }
}
