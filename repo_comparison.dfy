/**
 * The corpus matcher `traverse_directories` of `src/repo_comparison.py`:
 * both corpora keyed by whole-file hash, the exact pass that pairs equal
 * hashes, and the single greedy pass that compares every remaining file of
 * the first corpus with every remaining file of the second and files the
 * nearest comparison into one of four lists.
 */
module RepoComparison {
  import opened Comparator

  /** `similarity`: the share of common lines, in percent, that makes two files alike. */
  const Similarity: nat := 80

  /** `uniqueness_tolerance`: a nearest comparison scoring below it counts as a partial duplicate. */
  const UniquenessTolerance: nat := 100 - Similarity

  datatype Option<T> = None | Some(value: T)

  datatype Result<T> = Success(value: T) | Failure(error: string)

  // ---------------------------------------------------------------------------
  // Dictionaries keyed by whole-file hash
  // ---------------------------------------------------------------------------

  /** The whole-file hashes of `metas`. */
  function FileHashes(metas: seq<FileMeta>): set<Digest> {
    if metas == [] then {} else FileHashes(metas[..|metas| - 1]) + {metas[|metas| - 1].fileHash}
  }

  /** A hash is among the file hashes exactly when some file of the corpus has it. */
  lemma {:induction false} FileHashesMembers(metas: seq<FileMeta>, h: Digest)
    ensures h in FileHashes(metas) <==> exists i :: 0 <= i < |metas| && metas[i].fileHash == h
  {
    if metas != [] {
      var p := metas[..|metas| - 1];
      FileHashesMembers(p, h);
      if h in FileHashes(p) {
        var i :| 0 <= i < |p| && p[i].fileHash == h;
        assert metas[i] == p[i];
      } else if exists i :: 0 <= i < |metas| && metas[i].fileHash == h {
        var i :| 0 <= i < |metas| && metas[i].fileHash == h;
        if i < |p| {
          assert p[i] == metas[i];
        }
      }
    }
  }

  /**
   * A dict keyed by file hash, `keys` being its insertion order: the keys
   * are distinct, they are the map's keys, and every file sits under its
   * own hash.
   */
  ghost predicate Keyed(keys: seq<Digest>, m: map<Digest, FileMeta>) {
    && Distinct(keys)
    && (forall h :: h in keys <==> h in m)
    && (forall h :: h in m ==> m[h].fileHash == h)
  }

  /** The key order of `{fm.file_hash: fm for fm in metas}`: every hash, where it first occurs. */
  function KeyOrder(metas: seq<FileMeta>): (keys: seq<Digest>)
    ensures Distinct(keys)
    ensures forall h :: h in keys <==> h in FileHashes(metas)
  {
    if metas == [] then []
    else
      var keys := KeyOrder(metas[..|metas| - 1]);
      var h := metas[|metas| - 1].fileHash;
      if h in keys then keys else keys + [h]
  }

  /**
   * The values of `{fm.file_hash: fm for fm in metas}`: every file under its
   * own hash, a later file replacing an earlier one with the same hash.
   */
  function KeyByHash(metas: seq<FileMeta>): (m: map<Digest, FileMeta>)
    ensures m.Keys == FileHashes(metas)
    ensures forall h :: h in m ==> m[h].fileHash == h && m[h] in metas
  {
    if metas == [] then map[]
    else
      var p := metas[..|metas| - 1];
      var x := metas[|metas| - 1];
      KeyByHash(p)[x.fileHash := x]
  }

  /** A corpus keyed by hash is a well-formed dict. */
  lemma KeyedCorpus(metas: seq<FileMeta>)
    ensures Keyed(KeyOrder(metas), KeyByHash(metas))
  {
  }

  /** The file kept under a hash is the last file of the corpus with that hash. */
  lemma {:induction false} LastFileWins(metas: seq<FileMeta>, i: nat)
    requires i < |metas|
    requires forall j :: i < j < |metas| ==> metas[j].fileHash != metas[i].fileHash
    ensures metas[i].fileHash in KeyByHash(metas)
    ensures KeyByHash(metas)[metas[i].fileHash] == metas[i]
  {
    if i < |metas| - 1 {
      var p := metas[..|metas| - 1];
      assert p[i] == metas[i];
      LastFileWins(p, i);
    }
  }

  /** `del d[h]` for every `h` in `gone`, on the key order: the other keys keep their order. */
  function Without(keys: seq<Digest>, gone: set<Digest>): (r: seq<Digest>)
    ensures forall h :: h in r <==> h in keys && h !in gone
    ensures |r| <= |keys|
  {
    if keys == [] then []
    else
      var h := keys[|keys| - 1];
      Without(keys[..|keys| - 1], gone) + (if h in gone then [] else [h])
  }

  /** Removing keys from a dict of distinct keys keeps them distinct. */
  lemma {:induction false} WithoutDistinct(keys: seq<Digest>, gone: set<Digest>)
    requires Distinct(keys)
    ensures Distinct(Without(keys, gone))
  {
    if keys != [] {
      var p := keys[..|keys| - 1];
      assert Distinct(p);
      WithoutDistinct(p, gone);
      assert keys[|keys| - 1] !in p;
    }
  }

  /** Deleting keys one after another is deleting them all at once. */
  lemma {:induction false} WithoutWithout(keys: seq<Digest>, gone: set<Digest>, h: Digest)
    ensures Without(Without(keys, gone), {h}) == Without(keys, gone + {h})
  {
    if keys != [] {
      var p, x := keys[..|keys| - 1], keys[|keys| - 1];
      var wp := Without(p, gone);
      WithoutWithout(p, gone, h);
      if x in gone {
        assert Without(keys, gone) == wp;
      } else {
        var w := wp + [x];
        assert Without(keys, gone) == w;
        assert w[..|w| - 1] == wp;
        assert Without(w, {h}) == Without(wp, {h}) + (if x in {h} then [] else [x]);
      }
    }
  }

  /** Deleting a key of a dict removes exactly one entry. */
  lemma {:induction false} WithoutOne(keys: seq<Digest>, h: Digest)
    requires Distinct(keys) && h in keys
    ensures |Without(keys, {h})| == |keys| - 1
  {
    var p := keys[..|keys| - 1];
    assert Distinct(p);
    if keys[|keys| - 1] == h {
      WithoutNothing(p, h);
    } else {
      assert h in p;
      WithoutOne(p, h);
    }
  }

  /** Deleting keys that are not there changes nothing. */
  lemma {:induction false} WithoutNothing(keys: seq<Digest>, h: Digest)
    requires h !in keys
    ensures Without(keys, {h}) == keys
  {
    if keys != [] {
      var p := keys[..|keys| - 1];
      WithoutNothing(p, h);
      assert p + [keys[|keys| - 1]] == keys;
    }
  }

  lemma {:induction false} WithoutNone(keys: seq<Digest>)
    ensures Without(keys, {}) == keys
  {
    if keys != [] {
      WithoutNone(keys[..|keys| - 1]);
      assert keys[..|keys| - 1] + [keys[|keys| - 1]] == keys;
    }
  }

  /** Only the keys of `keys` matter to `Without`. */
  lemma {:induction false} WithoutSameKeys(keys: seq<Digest>, a: set<Digest>, b: set<Digest>)
    requires forall h :: h in keys ==> (h in a <==> h in b)
    ensures Without(keys, a) == Without(keys, b)
  {
    if keys != [] {
      WithoutSameKeys(keys[..|keys| - 1], a, b);
    }
  }

  /** `dict.values()`: the files of the dict in key order. */
  function ValuesInOrder(keys: seq<Digest>, m: map<Digest, FileMeta>): (r: seq<FileMeta>)
    requires forall h :: h in keys ==> h in m
    ensures |r| == |keys|
    ensures forall i :: 0 <= i < |keys| ==> r[i] == m[keys[i]]
  {
    if keys == [] then []
    else ValuesInOrder(keys[..|keys| - 1], m) + [m[keys[|keys| - 1]]]
  }

  // ---------------------------------------------------------------------------
  // The exact pass
  // ---------------------------------------------------------------------------

  /**
   * The pairs of the exact pass: for each key of the first dict, in its
   * order, that the second dict also has, the two files stored under it.
   */
  function ExactPairs(keys: seq<Digest>, fm: map<Digest, FileMeta>, sm: map<Digest, FileMeta>): seq<(FileMeta, FileMeta)>
    requires forall h :: h in keys ==> h in fm
  {
    if keys == [] then []
    else
      var h := keys[|keys| - 1];
      ExactPairs(keys[..|keys| - 1], fm, sm) + (if h in sm then [(fm[h], sm[h])] else [])
  }

  /** `pair` is the two files stored under a hash of `keys` that `sm` has too. */
  predicate PairUnder(pair: (FileMeta, FileMeta), keys: seq<Digest>, fm: map<Digest, FileMeta>, sm: map<Digest, FileMeta>) {
    var h := pair.0.fileHash;
    h in keys && h in fm && h in sm && pair == (fm[h], sm[h])
  }

  /** Some pair of `pairs` has a first file with hash `h`. */
  predicate HasPairFor(pairs: seq<(FileMeta, FileMeta)>, h: Digest) {
    exists k :: 0 <= k < |pairs| && pairs[k].0.fileHash == h
  }

  /**
   * Every hash the two dicts share gives exactly one pair, of the two files
   * stored under it, and every pair is of that kind.
   */
  lemma ExactPairsOnePerSharedHash(keys: seq<Digest>, fm: map<Digest, FileMeta>, sm: map<Digest, FileMeta>)
    requires Distinct(keys) && forall h :: h in keys ==> h in fm && fm[h].fileHash == h
    ensures var r := ExactPairs(keys, fm, sm);
      && (forall k :: 0 <= k < |r| ==> PairUnder(r[k], keys, fm, sm))
      && (forall h :: h in keys && h in sm ==> HasPairFor(r, h))
      && (forall k, l :: 0 <= k < l < |r| ==> r[k].0.fileHash != r[l].0.fileHash)
  {
    ExactPairsUnder(keys, fm, sm);
    ExactPairsCover(keys, fm, sm);
    ExactPairsDistinct(keys, fm, sm);
  }

  /** Every exact pair is the two files stored under a shared hash. */
  lemma {:induction false} ExactPairsUnder(keys: seq<Digest>, fm: map<Digest, FileMeta>, sm: map<Digest, FileMeta>)
    requires forall h :: h in keys ==> h in fm && fm[h].fileHash == h
    ensures forall k :: 0 <= k < |ExactPairs(keys, fm, sm)| ==> PairUnder(ExactPairs(keys, fm, sm)[k], keys, fm, sm)
  {
    if keys != [] {
      var p := keys[..|keys| - 1];
      ExactPairsUnder(p, fm, sm);
      var r, rp := ExactPairs(keys, fm, sm), ExactPairs(p, fm, sm);
      forall k | 0 <= k < |r|
        ensures PairUnder(r[k], keys, fm, sm)
      {
        if k < |rp| {
          assert r[k] == rp[k] && PairUnder(rp[k], p, fm, sm);
        }
      }
    }
  }

  /** Every shared hash gives a pair. */
  lemma {:induction false} ExactPairsCover(keys: seq<Digest>, fm: map<Digest, FileMeta>, sm: map<Digest, FileMeta>)
    requires forall h :: h in keys ==> h in fm && fm[h].fileHash == h
    ensures forall h :: h in keys && h in sm ==> HasPairFor(ExactPairs(keys, fm, sm), h)
  {
    if keys != [] {
      var p, h := keys[..|keys| - 1], keys[|keys| - 1];
      ExactPairsCover(p, fm, sm);
      var r, rp := ExactPairs(keys, fm, sm), ExactPairs(p, fm, sm);
      forall g | g in keys && g in sm
        ensures HasPairFor(r, g)
      {
        if g == h {
          assert r[|r| - 1].0.fileHash == g;
        } else {
          assert g in p && HasPairFor(rp, g);
          var k :| 0 <= k < |rp| && rp[k].0.fileHash == g;
          assert r[k] == rp[k];
        }
      }
    }
  }

  /** No hash gives two pairs. */
  lemma {:induction false} ExactPairsDistinct(keys: seq<Digest>, fm: map<Digest, FileMeta>, sm: map<Digest, FileMeta>)
    requires Distinct(keys) && forall h :: h in keys ==> h in fm && fm[h].fileHash == h
    ensures forall k, l :: 0 <= k < l < |ExactPairs(keys, fm, sm)| ==>
      ExactPairs(keys, fm, sm)[k].0.fileHash != ExactPairs(keys, fm, sm)[l].0.fileHash
  {
    if keys != [] {
      var p, h := keys[..|keys| - 1], keys[|keys| - 1];
      assert Distinct(p);
      ExactPairsDistinct(p, fm, sm);
      ExactPairsUnder(p, fm, sm);
      var r, rp := ExactPairs(keys, fm, sm), ExactPairs(p, fm, sm);
      forall k, l | 0 <= k < l < |r| ensures r[k].0.fileHash != r[l].0.fileHash {
        assert r[k] == rp[k] && PairUnder(rp[k], p, fm, sm);
        if l < |rp| {
          assert r[l] == rp[l];
        } else {
          assert r[l].0.fileHash == h && h !in p;
        }
      }
    }
  }

  /** The pairs only read the first dict at the keys walked. */
  lemma {:induction false} ExactPairsFrame(keys: seq<Digest>, fm: map<Digest, FileMeta>, fm': map<Digest, FileMeta>, sm: map<Digest, FileMeta>)
    requires forall h :: h in keys ==> h in fm && h in fm' && fm[h] == fm'[h]
    ensures ExactPairs(keys, fm, sm) == ExactPairs(keys, fm', sm)
  {
    if keys != [] {
      ExactPairsFrame(keys[..|keys| - 1], fm, fm', sm);
    }
  }

  /**
   * Lines 30-34: walk a snapshot of the first dict; a hash the second dict
   * also has pairs the two files and is deleted from both dicts.
   */
  method ExactPass(fk: seq<Digest>, fm: map<Digest, FileMeta>, sk: seq<Digest>, sm: map<Digest, FileMeta>)
    returns (duplicated: seq<(FileMeta, FileMeta)>, fk': seq<Digest>, fm': map<Digest, FileMeta>, sk': seq<Digest>, sm': map<Digest, FileMeta>)
    requires Keyed(fk, fm) && Keyed(sk, sm)
    ensures duplicated == ExactPairs(fk, fm, sm)
    ensures fk' == Without(fk, sm.Keys) && fm' == fm - sm.Keys
    ensures sk' == Without(sk, fm.Keys) && sm' == sm - fm.Keys
    ensures Keyed(fk', fm') && Keyed(sk', sm')
  {
    duplicated := [];
    fk', fm', sk', sm' := fk, fm, sk, sm;
    ExactStart(fk, fm, sk, sm);
    var i := 0;
    while i < |fk|
      invariant ExactWalked(fk, fm, sk, sm, i, duplicated, fk', fm', sk', sm')
      decreases |fk| - i
    {
      var fileHash := fk[i];
      ExactNext(fk, i);
      if fileHash in sm' {
        ExactShared(fk, fm, sk, sm, i, duplicated, fk', fm', sk', sm');
        duplicated := duplicated + [(fm[fileHash], sm'[fileHash])];
        fk', fm' := Without(fk', {fileHash}), fm' - {fileHash};
        sk', sm' := Without(sk', {fileHash}), sm' - {fileHash};
      } else {
        ExactUnshared(fk, fm, sk, sm, i, duplicated, fk', fm', sk', sm');
      }
      i := i + 1;
    }
    ExactDone(fk, fm, sk, sm, i, duplicated, fk', fm', sk', sm');
  }

  /** The keys of `s`. */
  function Elems(s: seq<Digest>): set<Digest> {
    set h | h in s
  }

  /** The state of `ExactPass` once the first `i` keys of the snapshot have been walked. */
  ghost predicate ExactWalked(fk: seq<Digest>, fm: map<Digest, FileMeta>, sk: seq<Digest>, sm: map<Digest, FileMeta>, i: int,
                              duplicated: seq<(FileMeta, FileMeta)>, fk': seq<Digest>, fm': map<Digest, FileMeta>,
                              sk': seq<Digest>, sm': map<Digest, FileMeta>)
  {
    && 0 <= i <= |fk|
    && (forall h :: h in fk ==> h in fm)
    && duplicated == ExactPairs(fk[..i], fm, sm)
    && var done := Elems(fk[..i]);
    && fk' == Without(fk, done * sm.Keys) && fm' == fm - (done * sm.Keys)
    && sk' == Without(sk, done) && sm' == sm - done
  }

  lemma ExactStart(fk: seq<Digest>, fm: map<Digest, FileMeta>, sk: seq<Digest>, sm: map<Digest, FileMeta>)
    requires Keyed(fk, fm)
    ensures ExactWalked(fk, fm, sk, sm, 0, [], fk, fm, sk, sm)
  {
    assert Elems(fk[..0]) == {};
    WithoutNone(fk);
    WithoutNone(sk);
    assert {} * sm.Keys == {};
  }

  /** The next key of the snapshot has not been walked yet, and walking it adds it to the keys done. */
  lemma ExactNext(fk: seq<Digest>, i: int)
    requires Distinct(fk) && 0 <= i < |fk|
    ensures fk[i] !in Elems(fk[..i])
    ensures Elems(fk[..i + 1]) == Elems(fk[..i]) + {fk[i]}
    ensures fk[..i + 1][..i] == fk[..i]
  {
    var h := fk[i];
    assert forall j :: 0 <= j < i ==> fk[..i][j] != h;
    assert fk[..i + 1] == fk[..i] + [h];
  }

  /** A shared hash is paired and leaves both dicts. */
  lemma ExactShared(fk: seq<Digest>, fm: map<Digest, FileMeta>, sk: seq<Digest>, sm: map<Digest, FileMeta>, i: int,
                    duplicated: seq<(FileMeta, FileMeta)>, fk': seq<Digest>, fm': map<Digest, FileMeta>,
                    sk': seq<Digest>, sm': map<Digest, FileMeta>)
    requires Keyed(fk, fm) && ExactWalked(fk, fm, sk, sm, i, duplicated, fk', fm', sk', sm') && i < |fk|
    requires fk[i] in sm
    ensures fk[i] in sm'
    ensures var h := fk[i];
      ExactWalked(fk, fm, sk, sm, i + 1, duplicated + [(fm[h], sm'[h])], Without(fk', {h}), fm' - {h}, Without(sk', {h}), sm' - {h})
  {
    var h := fk[i];
    var done := Elems(fk[..i]);
    ExactNext(fk, i);
    var done' := Elems(fk[..i + 1]);
    ExactPairsStep(fk, fm, sm, i);
    WithoutWithout(fk, done * sm.Keys, h);
    SharedDone(done, done', sm.Keys, h);
    assert Without(fk', {h}) == Without(fk, done' * sm.Keys);
    MinusMinus(fm, done * sm.Keys, h);
    assert fm' - {h} == fm - (done' * sm.Keys);
    WithoutWithout(sk, done, h);
    assert Without(sk', {h}) == Without(sk, done');
    MinusMinus(sm, done, h);
    assert sm' - {h} == sm - done';
  }

  /** The exact pairs of one more key of the snapshot. */
  lemma ExactPairsStep(fk: seq<Digest>, fm: map<Digest, FileMeta>, sm: map<Digest, FileMeta>, i: int)
    requires (forall h :: h in fk ==> h in fm) && 0 <= i < |fk|
    ensures ExactPairs(fk[..i + 1], fm, sm) ==
      ExactPairs(fk[..i], fm, sm) + (if fk[i] in sm then [(fm[fk[i]], sm[fk[i]])] else [])
  {
    assert fk[..i + 1][..i] == fk[..i];
  }

  lemma SharedDone(done: set<Digest>, done': set<Digest>, shared: set<Digest>, h: Digest)
    requires done' == done + {h} && h in shared
    ensures done' * shared == done * shared + {h}
  {
  }

  lemma MinusMinus(m: map<Digest, FileMeta>, gone: set<Digest>, h: Digest)
    ensures (m - gone) - {h} == m - (gone + {h})
  {
  }

  /** A hash the second dict lacks changes nothing. */
  lemma ExactUnshared(fk: seq<Digest>, fm: map<Digest, FileMeta>, sk: seq<Digest>, sm: map<Digest, FileMeta>, i: int,
                      duplicated: seq<(FileMeta, FileMeta)>, fk': seq<Digest>, fm': map<Digest, FileMeta>,
                      sk': seq<Digest>, sm': map<Digest, FileMeta>)
    requires Keyed(fk, fm) && Keyed(sk, sm) && ExactWalked(fk, fm, sk, sm, i, duplicated, fk', fm', sk', sm') && i < |fk|
    requires fk[i] !in sm
    ensures fk[i] !in sm'
    ensures ExactWalked(fk, fm, sk, sm, i + 1, duplicated, fk', fm', sk', sm')
  {
    var h := fk[i];
    var done := Elems(fk[..i]);
    ExactNext(fk, i);
    var done' := Elems(fk[..i + 1]);
    ExactPairsStep(fk, fm, sm, i);
    assert done' * sm.Keys == done * sm.Keys;
    WithoutSameKeys(sk, done, done');
    MinusAbsent(sm, done, h);
  }

  lemma MinusAbsent(m: map<Digest, FileMeta>, gone: set<Digest>, h: Digest)
    requires h !in m
    ensures m - (gone + {h}) == m - gone
  {
  }

  lemma MinusSameKeys(m: map<Digest, FileMeta>, a: set<Digest>, b: set<Digest>)
    requires forall h :: h in m ==> (h in a <==> h in b)
    ensures m - a == m - b
  {
  }

  /** After the whole snapshot, every key of the first dict is done. */
  lemma ExactDone(fk: seq<Digest>, fm: map<Digest, FileMeta>, sk: seq<Digest>, sm: map<Digest, FileMeta>, i: int,
                  duplicated: seq<(FileMeta, FileMeta)>, fk': seq<Digest>, fm': map<Digest, FileMeta>,
                  sk': seq<Digest>, sm': map<Digest, FileMeta>)
    requires Keyed(fk, fm) && Keyed(sk, sm)
    requires ExactWalked(fk, fm, sk, sm, i, duplicated, fk', fm', sk', sm') && i >= |fk|
    ensures duplicated == ExactPairs(fk, fm, sm)
    ensures fk' == Without(fk, sm.Keys) && fm' == fm - sm.Keys
    ensures sk' == Without(sk, fm.Keys) && sm' == sm - fm.Keys
    ensures Keyed(fk', fm') && Keyed(sk', sm')
  {
    assert fk[..i] == fk;
    assert Elems(fk) == fm.Keys;
    WithoutSameKeys(fk, fm.Keys * sm.Keys, sm.Keys);
    MinusSameKeys(fm, fm.Keys * sm.Keys, sm.Keys);
    WithoutDistinct(fk, sm.Keys);
    WithoutDistinct(sk, fm.Keys);
  }

  // ---------------------------------------------------------------------------
  // The nearest comparison of one file of the first corpus
  // ---------------------------------------------------------------------------

  /**
   * The position of the comparison `nearest_to_first` ends up holding,
   * given the scores of the comparisons in the order they were made: one of
   * least score, and the earliest such, since a later comparison replaces
   * the one held only when it scores strictly lower.
   */
  function NearestIndex(scores: seq<nat>): (i: nat)
    requires scores != []
    ensures i < |scores|
    ensures forall j :: 0 <= j < |scores| ==> scores[i] <= scores[j]
    ensures forall j :: 0 <= j < i ==> scores[j] > scores[i]
  {
    if |scores| == 1 then 0
    else
      var i := NearestIndex(scores[..|scores| - 1]);
      if scores[i] > scores[|scores| - 1] then |scores| - 1 else i
  }

  /** A comparison made after those scored `scores` becomes the nearest one exactly when it scores strictly lower. */
  lemma NearestIndexSnoc(scores: seq<nat>, score: nat)
    ensures scores == [] ==> NearestIndex(scores + [score]) == 0
    ensures scores != [] ==>
      NearestIndex(scores + [score]) == if scores[NearestIndex(scores)] > score then |scores| else NearestIndex(scores)
  {
    assert (scores + [score])[..|scores|] == scores;
  }

  /** The scores of the comparisons `cs`, in the order they were made. */
  function ScoresOf(cs: seq<FileComparison>): (scores: seq<nat>)
    ensures |scores| == |cs|
    ensures forall t :: 0 <= t < |cs| ==> scores[t] == cs[t].uniquenessScore
  {
    seq(|cs|, t requires 0 <= t < |cs| => cs[t].uniquenessScore)
  }

  /**
   * The comparison `nearest_to_first` holds once the comparisons `cs` have
   * been made: one of them with the least score, the earliest such
   * (`NearestIndex`).
   */
  function NearestIn(cs: seq<FileComparison>): (c: FileComparison)
    requires cs != []
  {
    cs[NearestIndex(ScoresOf(cs))]
  }

  /** A comparison made after `cs` becomes the nearest one exactly when it scores strictly lower. */
  lemma NearestInSnoc(cs: seq<FileComparison>, c: FileComparison)
    requires cs != []
    ensures NearestIn(cs + [c]) == if NearestIn(cs).uniquenessScore > c.uniquenessScore then c else NearestIn(cs)
  {
    var scores := ScoresOf(cs);
    assert ScoresOf(cs + [c]) == scores + [c.uniquenessScore];
    NearestIndexSnoc(scores, c.uniquenessScore);
    assert (cs + [c])[NearestIndex(scores)] == cs[NearestIndex(scores)];
  }

  /** The lists of every file of `files` are those `lists` gives it. */
  ghost predicate ListsAre(files: set<FileMeta>, lists: map<FileMeta, Buckets>)
    reads files
  {
    forall f :: f in files ==> f in lists && f.buckets == lists[f]
  }

  /**
   * The lists of all files once `first` has been compared with `second`:
   * the two files' lists are popped, and no other file's change.
   */
  function Compared(lists: map<FileMeta, Buckets>, first: FileMeta, second: FileMeta): (lists': map<FileMeta, Buckets>)
    requires first in lists && second in lists
    ensures lists'.Keys == lists.Keys
    ensures forall f :: f in lists && f != first && f != second ==> lists'[f] == lists[f]
  {
    lists[first := Remaining(first, second, lists[first], lists[second])]
         [second := Remaining(first, second, lists[second], lists[first])]
  }

  /** Comparing `first` with `second` gives each of the two its `Remaining` lists. */
  lemma ComparedAt(lists: map<FileMeta, Buckets>, first: FileMeta, second: FileMeta, f: FileMeta)
    requires first in lists && second in lists && f in lists
    ensures Compared(lists, first, second)[f] ==
      if f == first then Remaining(first, second, lists[first], lists[second])
      else if f == second then Remaining(first, second, lists[second], lists[first])
      else lists[f]
  {
  }

  /**
   * The lists of all files once `first` has been compared with each of
   * `seconds` in turn, starting from `lists`.
   */
  function ListsAfterScan(lists: map<FileMeta, Buckets>, first: FileMeta, seconds: seq<FileMeta>): (lists': map<FileMeta, Buckets>)
    requires first in lists && forall s :: s in seconds ==> s in lists
    ensures lists'.Keys == lists.Keys
    decreases |seconds|
  {
    if seconds == [] then lists
    else
      var n := |seconds| - 1;
      Compared(ListsAfterScan(lists, first, seconds[..n]), first, seconds[n])
  }

  /**
   * The comparisons `first` makes with each of `seconds` in turn, starting
   * from the lists `lists`: each sees the lists the earlier ones left.
   */
  function Scan(lists: map<FileMeta, Buckets>, first: FileMeta, seconds: seq<FileMeta>): (cs: seq<FileComparison>)
    requires first in lists && forall s :: s in seconds ==> s in lists
    ensures |cs| == |seconds|
    ensures forall t :: 0 <= t < |cs| ==> cs[t].first == first && cs[t].second == seconds[t] && cs[t].uniquenessScore <= 100
    decreases |seconds|
  {
    if seconds == [] then []
    else
      var n := |seconds| - 1;
      var before := ListsAfterScan(lists, first, seconds[..n]);
      Scan(lists, first, seconds[..n]) + [ComparisonOf(first, seconds[n], before[first], before[seconds[n]])]
  }

  /**
   * One round of the loop of lines 38-43: compare `first` with `second`,
   * and hold the comparison when none is held yet or when it scores
   * strictly lower than the one held. The comparison made is the one the
   * two files' lists determine, and it pops those lists.
   */
  method CompareAndKeepNearest(first: FileMeta, second: FileMeta, nearest: Option<FileComparison>, ghost files: set<FileMeta>)
    returns (nearest': Option<FileComparison>, comparison: FileComparison)
    requires AllValid(files) && first in files && second in files
    modifies first, second
    ensures AllValid(files)
    ensures comparison == ComparisonOf(first, second, old(first.buckets), old(second.buckets))
    ensures first.buckets == Remaining(first, second, old(first.buckets), old(second.buckets))
    ensures second.buckets == Remaining(first, second, old(second.buckets), old(first.buckets))
    ensures nearest' == if nearest.None? || nearest.value.uniquenessScore > comparison.uniquenessScore then Some(comparison) else nearest
  {
    comparison := CompareTwoFileMetas(first, second);
    if nearest.None? {
      nearest' := Some(comparison);
    } else if nearest.value.uniquenessScore > comparison.uniquenessScore {
      nearest' := Some(comparison);
    } else {
      nearest' := nearest;
    }
  }

  /**
   * Lines 37-43: compare `first` with every file of a snapshot of the
   * second dict, in key order, and keep the nearest comparison; `None` when
   * the dict is empty. `lists` are the lists of every file of `files` at
   * the call: the comparisons are the `Scan` from them, and every file's
   * lists end up as that scan leaves them.
   */
  method NearestToFirst(first: FileMeta, keys: seq<Digest>, seconds: map<Digest, FileMeta>,
                        ghost files: set<FileMeta>, ghost lists: map<FileMeta, Buckets>)
    returns (nearest: Option<FileComparison>)
    requires Keyed(keys, seconds) && forall h :: h in seconds ==> seconds[h] in files
    requires AllValid(files) && first in files && ListsAre(files, lists)
    requires forall s :: s in ValuesInOrder(keys, seconds) ==> s in lists
    modifies files
    ensures AllValid(files)
    ensures nearest.None? <==> keys == []
    ensures nearest.Some? ==> nearest.value == NearestIn(Scan(lists, first, ValuesInOrder(keys, seconds)))
    ensures ListsAre(files, ListsAfterScan(lists, first, ValuesInOrder(keys, seconds)))
  {
    ghost var ss := ValuesInOrder(keys, seconds);
    nearest := None;
    var j := 0;
    while j < |keys|
      invariant AllValid(files)
      invariant Scanned(lists, first, ss, j, nearest)
      invariant ListsAre(files, ListsAfterScan(lists, first, ss[..j]))
    {
      ghost var before := ListsAfterScan(lists, first, ss[..j]);
      var second := seconds[keys[j]];
      var nearest', comparison := CompareAndKeepNearest(first, second, nearest, files);
      forall f | f in files
        ensures f.buckets == Compared(before, first, second)[f]
      {
        ComparedAt(before, first, second, f);
      }
      ScannedStep(lists, first, ss, j, nearest, nearest', comparison);
      nearest := nearest';
      j := j + 1;
    }
    assert ss[..j] == ss;
  }

  /**
   * The state of the loop of lines 38-43 once `first` has been compared
   * with the first `j` of `seconds`, starting from the lists `lists`.
   */
  ghost predicate Scanned(lists: map<FileMeta, Buckets>, first: FileMeta, seconds: seq<FileMeta>, j: int, nearest: Option<FileComparison>) {
    && 0 <= j <= |seconds|
    && first in lists && (forall s :: s in seconds ==> s in lists)
    && (nearest.None? <==> j == 0)
    && (nearest.Some? ==> nearest.value == NearestIn(Scan(lists, first, seconds[..j])))
  }

  /** One more comparison keeps the nearest of those made so far, and pops the lists of the two files it compares. */
  lemma ScannedStep(lists: map<FileMeta, Buckets>, first: FileMeta, seconds: seq<FileMeta>, j: int,
                    nearest: Option<FileComparison>, nearest': Option<FileComparison>, comparison: FileComparison)
    requires Scanned(lists, first, seconds, j, nearest) && j < |seconds|
    requires var before := ListsAfterScan(lists, first, seconds[..j]);
      comparison == ComparisonOf(first, seconds[j], before[first], before[seconds[j]])
    requires nearest' == if nearest.None? || nearest.value.uniquenessScore > comparison.uniquenessScore then Some(comparison) else nearest
    ensures Scanned(lists, first, seconds, j + 1, nearest')
    ensures ListsAfterScan(lists, first, seconds[..j + 1]) == Compared(ListsAfterScan(lists, first, seconds[..j]), first, seconds[j])
  {
    assert seconds[..j + 1][..j] == seconds[..j];
    assert Scan(lists, first, seconds[..j + 1]) == Scan(lists, first, seconds[..j]) + [comparison];
    if j > 0 {
      NearestInSnoc(Scan(lists, first, seconds[..j]), comparison);
    }
  }

  /** Every file of `files` is valid. */
  ghost predicate AllValid(files: set<FileMeta>)
    reads files
  {
    forall f :: f in files ==> f.Valid()
  }

  // ---------------------------------------------------------------------------
  // Where a nearest comparison goes
  // ---------------------------------------------------------------------------

  /** The four lists of lines 45-55. */
  datatype Placement = Duplicated | FullyUnique | PartiallyDuplicated | LowTolerance

  /** Lines 45-55: the list a nearest comparison with this score goes to. */
  function Classify(score: nat): Placement {
    if score == 0 then Duplicated
    else if score == 100 then FullyUnique
    else if score < UniquenessTolerance then PartiallyDuplicated
    else LowTolerance
  }

  /** With a score in [0, 100]: 0, 100, below 20, and from 20 up to 99 are the four lists. */
  lemma ClassifyByRange(score: nat)
    requires score <= 100
    ensures Classify(score) == Duplicated <==> score == 0
    ensures Classify(score) == FullyUnique <==> score == 100
    ensures Classify(score) == PartiallyDuplicated <==> 0 < score < 20
    ensures Classify(score) == LowTolerance <==> 20 <= score < 100
  {
  }

  /** The comparisons of `cs` that go to list `p`, in order. */
  function PlacedIn(cs: seq<FileComparison>, p: Placement): (r: seq<FileComparison>)
    ensures forall c :: c in r ==> c in cs && Classify(c.uniquenessScore) == p
  {
    if cs == [] then []
    else
      var c := cs[|cs| - 1];
      PlacedIn(cs[..|cs| - 1], p) + (if Classify(c.uniquenessScore) == p then [c] else [])
  }

  /** Every nearest comparison goes to exactly one of the four lists. */
  lemma {:induction false} PlacementPartition(cs: seq<FileComparison>)
    ensures |PlacedIn(cs, Duplicated)| + |PlacedIn(cs, FullyUnique)|
          + |PlacedIn(cs, PartiallyDuplicated)| + |PlacedIn(cs, LowTolerance)| == |cs|
  {
    if cs != [] {
      PlacementPartition(cs[..|cs| - 1]);
    }
  }

  /** The two files of each comparison, as `duplicated_files` holds them. */
  function PairsOf(cs: seq<FileComparison>): seq<(FileMeta, FileMeta)> {
    seq(|cs|, i requires 0 <= i < |cs| => (cs[i].first, cs[i].second))
  }

  /** The first file of each comparison. */
  function FirstsOf(cs: seq<FileComparison>): seq<FileMeta> {
    seq(|cs|, i requires 0 <= i < |cs| => cs[i].first)
  }

  /** The hash of the second file of each comparison. */
  function SecondKeys(cs: seq<FileComparison>): seq<Digest> {
    seq(|cs|, i requires 0 <= i < |cs| => cs[i].second.fileHash)
  }

  /**
   * The keys of the second dict once the nearest comparisons `cs` have been
   * filed: the keys after the exact pass, less the second file of each
   * partial duplicate.
   */
  function Candidates(secondLeft: seq<Digest>, cs: seq<FileComparison>): seq<Digest> {
    Without(secondLeft, Elems(SecondKeys(PlacedIn(cs, PartiallyDuplicated))))
  }

  /** Only a partial duplicate removes a file from the second dict. */
  lemma CandidatesStep(secondLeft: seq<Digest>, cs: seq<FileComparison>, c: FileComparison)
    ensures Candidates(secondLeft, cs + [c]) ==
      if Classify(c.uniquenessScore) == PartiallyDuplicated
      then Without(Candidates(secondLeft, cs), {c.second.fileHash})
      else Candidates(secondLeft, cs)
  {
    var ps := PlacedIn(cs, PartiallyDuplicated);
    assert (cs + [c])[..|cs|] == cs;
    if Classify(c.uniquenessScore) == PartiallyDuplicated {
      assert PlacedIn(cs + [c], PartiallyDuplicated) == ps + [c];
      assert SecondKeys(ps + [c]) == SecondKeys(ps) + [c.second.fileHash];
      assert Elems(SecondKeys(ps + [c])) == Elems(SecondKeys(ps)) + {c.second.fileHash};
      WithoutWithout(secondLeft, Elems(SecondKeys(ps)), c.second.fileHash);
    } else {
      assert PlacedIn(cs + [c], PartiallyDuplicated) == ps;
    }
  }

  /** Deleting one key of a dict of distinct keys removes at most one entry. */
  lemma WithoutAtMostOne(keys: seq<Digest>, h: Digest)
    requires Distinct(keys)
    ensures |Without(keys, {h})| >= |keys| - 1
  {
    if h in keys {
      WithoutOne(keys, h);
    } else {
      WithoutNothing(keys, h);
    }
  }

  /** Each partial duplicate takes at most one file away from the second dict. */
  lemma {:induction false} CandidatesShrink(secondLeft: seq<Digest>, cs: seq<FileComparison>)
    requires Distinct(secondLeft)
    ensures Distinct(Candidates(secondLeft, cs))
    ensures |Candidates(secondLeft, cs)| >= |secondLeft| - |PlacedIn(cs, PartiallyDuplicated)|
  {
    WithoutDistinct(secondLeft, Elems(SecondKeys(PlacedIn(cs, PartiallyDuplicated))));
    if cs == [] {
      WithoutNone(secondLeft);
      assert Elems(SecondKeys(PlacedIn(cs, PartiallyDuplicated))) == {};
    } else {
      var p, c := cs[..|cs| - 1], cs[|cs| - 1];
      assert p + [c] == cs;
      CandidatesShrink(secondLeft, p);
      CandidatesStep(secondLeft, p, c);
      if Classify(c.uniquenessScore) == PartiallyDuplicated {
        WithoutAtMostOne(Candidates(secondLeft, p), c.second.fileHash);
      }
    }
  }

  /** A nearest comparison exists for every first file when the second dict starts no smaller. */
  lemma CandidatesLeft(secondLeft: seq<Digest>, cs: seq<FileComparison>)
    requires Distinct(secondLeft) && |cs| < |secondLeft|
    ensures Candidates(secondLeft, cs) != []
  {
    CandidatesShrink(secondLeft, cs);
    PlacedInLength(cs, PartiallyDuplicated);
  }

  lemma {:induction false} PlacedInLength(cs: seq<FileComparison>, p: Placement)
    ensures |PlacedIn(cs, p)| <= |cs|
  {
    if cs != [] {
      PlacedInLength(cs[..|cs| - 1], p);
    }
  }

  /**
   * Every hash of the first corpus either pairs in the exact pass (the
   * second dict has it) or is left for the nearest pass (it does not), and
   * not both; so the pairs and the keys left add up to the first dict.
   */
  lemma {:induction false} ExactOrLeft(keys: seq<Digest>, fm: map<Digest, FileMeta>, sm: map<Digest, FileMeta>)
    requires forall h :: h in keys ==> h in fm
    ensures forall h :: h in keys && h in sm ==> (fm[h], sm[h]) in ExactPairs(keys, fm, sm) && h !in Without(keys, sm.Keys)
    ensures forall h :: h in keys && h !in sm ==> h in Without(keys, sm.Keys)
    ensures |ExactPairs(keys, fm, sm)| + |Without(keys, sm.Keys)| == |keys|
  {
    ExactCount(keys, fm, sm);
    forall h | h in keys && h in sm
      ensures (fm[h], sm[h]) in ExactPairs(keys, fm, sm)
    {
      SharedPairs(keys, fm, sm, h);
    }
  }

  /** The exact pairs and the keys left add up to the first dict's size. */
  lemma {:induction false} ExactCount(keys: seq<Digest>, fm: map<Digest, FileMeta>, sm: map<Digest, FileMeta>)
    requires forall h :: h in keys ==> h in fm
    ensures |ExactPairs(keys, fm, sm)| + |Without(keys, sm.Keys)| == |keys|
  {
    if keys != [] {
      ExactCount(keys[..|keys| - 1], fm, sm);
    }
  }

  /** A hash of the first dict that the second dict has too gives the pair of the files stored under it. */
  lemma {:induction false} SharedPairs(keys: seq<Digest>, fm: map<Digest, FileMeta>, sm: map<Digest, FileMeta>, h: Digest)
    requires forall k :: k in keys ==> k in fm
    requires h in keys && h in sm
    ensures (fm[h], sm[h]) in ExactPairs(keys, fm, sm)
  {
    var p := keys[..|keys| - 1];
    if h != keys[|keys| - 1] {
      assert h in p;
      SharedPairs(p, fm, sm, h);
    }
  }

  /** The second file of each partial duplicate was a candidate when it was chosen. */
  ghost predicate ChosenFromCandidates(secondLeft: seq<Digest>, cs: seq<FileComparison>) {
    forall j :: 0 <= j < |cs| ==> cs[j].second.fileHash in Candidates(secondLeft, cs[..j])
  }

  /** A file of the second corpus is the partner of at most one partial duplicate. */
  lemma {:induction false} PartialSecondsDistinct(secondLeft: seq<Digest>, cs: seq<FileComparison>)
    requires ChosenFromCandidates(secondLeft, cs)
    ensures Distinct(SecondKeys(PlacedIn(cs, PartiallyDuplicated)))
  {
    if cs != [] {
      var p, c := cs[..|cs| - 1], cs[|cs| - 1];
      ChosenPrefix(secondLeft, cs);
      PartialSecondsDistinct(secondLeft, p);
      var ps := PlacedIn(p, PartiallyDuplicated);
      PlacedInLast(cs, PartiallyDuplicated);
      assert c.second.fileHash !in Elems(SecondKeys(ps));
      PartialStep(ps, c, PlacedIn(cs, PartiallyDuplicated));
    }
  }

  /** The comparisons before the last were chosen from candidates too, the last from those they left. */
  lemma ChosenPrefix(secondLeft: seq<Digest>, cs: seq<FileComparison>)
    requires ChosenFromCandidates(secondLeft, cs) && cs != []
    ensures ChosenFromCandidates(secondLeft, cs[..|cs| - 1])
    ensures cs[|cs| - 1].second.fileHash in Candidates(secondLeft, cs[..|cs| - 1])
  {
    var p := cs[..|cs| - 1];
    forall j | 0 <= j < |p| ensures p[j].second.fileHash in Candidates(secondLeft, p[..j]) {
      PrefixOfPrefix(cs, |p|, j);
    }
  }

  lemma PartialStep(ps: seq<FileComparison>, c: FileComparison, placed: seq<FileComparison>)
    requires Distinct(SecondKeys(ps)) && c.second.fileHash !in Elems(SecondKeys(ps))
    requires placed == ps + (if Classify(c.uniquenessScore) == PartiallyDuplicated then [c] else [])
    ensures Distinct(SecondKeys(placed))
  {
    if Classify(c.uniquenessScore) == PartiallyDuplicated {
      SecondKeysSnoc(ps, c);
      DistinctSnoc(SecondKeys(ps), c.second.fileHash);
    } else {
      assert placed == ps;
    }
  }

  lemma DistinctSnoc(s: seq<Digest>, h: Digest)
    requires Distinct(s) && h !in s
    ensures Distinct(s + [h])
  {
  }

  // ---------------------------------------------------------------------------
  // `traverse_directories`
  // ---------------------------------------------------------------------------

  /** The five lists of lines 24-28. */
  datatype Outcome = Outcome(
    duplicatedFiles: seq<(FileMeta, FileMeta)>,
    partiallyDuplicatedFiles: seq<FileComparison>,
    fullyUniqueFirst: seq<FileMeta>,
    fullyUniqueSecond: seq<FileMeta>,
    lowToleranceIntersections: seq<FileComparison>)

  /** What Python reports when line 45 reads the score of a nearest comparison that was never made. */
  const NoNearest: string := "'NoneType' object has no attribute 'uniqueness_score'"

  /** The keys of the first dict after the exact pass: the first corpus's hashes the second lacks. */
  function FirstLeft(firstMetas: seq<FileMeta>, secondMetas: seq<FileMeta>): seq<Digest> {
    Without(KeyOrder(firstMetas), FileHashes(secondMetas))
  }

  /** The keys of the second dict after the exact pass. */
  function SecondLeft(firstMetas: seq<FileMeta>, secondMetas: seq<FileMeta>): seq<Digest> {
    Without(KeyOrder(secondMetas), FileHashes(firstMetas))
  }

  /**
   * `c` is the comparison `nearest_to_first` holds once `first` has been
   * compared with the files of the dict `keys`/`seconds` in key order,
   * starting from the lists `lists` of every file, and `lists'` are the
   * lists of every file that scan leaves.
   */
  ghost predicate NearestScan(first: FileMeta, keys: seq<Digest>, seconds: map<Digest, FileMeta>,
                              lists: map<FileMeta, Buckets>, c: FileComparison, lists': map<FileMeta, Buckets>)
  {
    && keys != [] && (forall h :: h in keys ==> h in seconds)
    && first in lists && (forall h :: h in seconds ==> seconds[h] in lists)
    && var ss := ValuesInOrder(keys, seconds);
       && c == NearestIn(Scan(lists, first, ss))
       && lists' == ListsAfterScan(lists, first, ss)
  }

  /** The nearest comparison pairs `first` with a file of the dict, the one stored under its own hash. */
  lemma NearestScanPicks(first: FileMeta, keys: seq<Digest>, seconds: map<Digest, FileMeta>,
                         lists: map<FileMeta, Buckets>, c: FileComparison, lists': map<FileMeta, Buckets>)
    requires NearestScan(first, keys, seconds, lists, c, lists') && Keyed(keys, seconds)
    ensures c.first == first && c.second.fileHash in keys && c.second == seconds[c.second.fileHash]
    ensures c.uniquenessScore <= 100
  {
    var ss := ValuesInOrder(keys, seconds);
    var cs := Scan(lists, first, ss);
    var t := NearestIndex(ScoresOf(cs));
    assert c.second == ss[t] == seconds[keys[t]];
  }

  /** The scan only reads the dict at its keys: any dict that agrees with it there gives the same scan. */
  lemma NearestScanWider(first: FileMeta, keys: seq<Digest>, seconds: map<Digest, FileMeta>, wider: map<Digest, FileMeta>,
                         lists: map<FileMeta, Buckets>, c: FileComparison, lists': map<FileMeta, Buckets>)
    requires NearestScan(first, keys, seconds, lists, c, lists')
    requires forall h :: h in seconds ==> h in wider && wider[h] == seconds[h]
    requires forall h :: h in wider ==> wider[h] in lists
    ensures NearestScan(first, keys, wider, lists, c, lists')
  {
    ValuesInOrderFrame(keys, seconds, wider);
  }

  /**
   * `cs` are the nearest comparisons of the first `|cs|` keys of
   * `firstLeft`, and `states[j]` the lists of every file before the `j`-th
   * of them was made: the last is the nearest comparison of its file of the
   * first dict `fm` with the second dict `sm` at the keys that the partial
   * duplicates before it left of `secondLeft`, its scan starting from the
   * lists the earlier ones left, and so are the earlier ones
   * (`NearestPassAt`).
   */
  ghost predicate NearestPass(firstLeft: seq<Digest>, fm: map<Digest, FileMeta>, secondLeft: seq<Digest>, sm: map<Digest, FileMeta>,
                              cs: seq<FileComparison>, states: seq<map<FileMeta, Buckets>>)
    decreases |cs|
  {
    && |cs| <= |firstLeft| && |states| == |cs| + 1
    && (forall h :: h in firstLeft ==> h in fm)
    && (cs != [] ==>
          var n := |cs| - 1;
          && NearestPass(firstLeft, fm, secondLeft, sm, cs[..n], states[..n + 1])
          && NearestScan(fm[firstLeft[n]], Candidates(secondLeft, cs[..n]), sm, states[n], cs[n], states[n + 1]))
  }

  /**
   * Every nearest comparison of the pass is that of its file of the first
   * dict with the candidates the partial duplicates before it left, scanned
   * from the lists of every file before it.
   */
  lemma {:induction false} NearestPassAt(firstLeft: seq<Digest>, fm: map<Digest, FileMeta>, secondLeft: seq<Digest>, sm: map<Digest, FileMeta>,
                                         cs: seq<FileComparison>, states: seq<map<FileMeta, Buckets>>, j: int)
    requires NearestPass(firstLeft, fm, secondLeft, sm, cs, states) && 0 <= j < |cs|
    ensures firstLeft[j] in fm
    ensures NearestScan(fm[firstLeft[j]], Candidates(secondLeft, cs[..j]), sm, states[j], cs[j], states[j + 1])
  {
    var n := |cs| - 1;
    if j == n {
      assert NearestScan(fm[firstLeft[n]], Candidates(secondLeft, cs[..n]), sm, states[n], cs[n], states[n + 1]);
    } else {
      var cs', states' := cs[..n], states[..n + 1];
      NearestPassAt(firstLeft, fm, secondLeft, sm, cs', states', j);
      PrefixOfPrefix(cs, n, j);
      PrefixOfPrefix(states, n + 1, j + 1);
    }
  }

  /** Appending keeps the first element and puts the new one last. */
  lemma SnocEnds<T>(s: seq<T>, x: T)
    requires s != []
    ensures (s + [x])[0] == s[0] && (s + [x])[|s|] == x
  {
  }

  /** A prefix of a prefix is a prefix, and agrees with the whole sequence on its indices. */
  lemma PrefixOfPrefix<T>(s: seq<T>, n: int, j: int)
    requires 0 <= j < n <= |s|
    ensures s[..n][..j] == s[..j] && s[..n][j] == s[j]
  {
  }

  /**
   * The five lists once the nearest comparisons `cs` have been filed after
   * an exact pass that paired `exact` and left `secondLeft` of the second
   * dict `sm`.
   */
  function Filed(exact: seq<(FileMeta, FileMeta)>, secondLeft: seq<Digest>, sm: map<Digest, FileMeta>, cs: seq<FileComparison>): Outcome
    requires forall h :: h in secondLeft ==> h in sm
  {
    Outcome(
      exact + PairsOf(PlacedIn(cs, Duplicated)),
      PlacedIn(cs, PartiallyDuplicated),
      FirstsOf(PlacedIn(cs, FullyUnique)),
      ValuesInOrder(Candidates(secondLeft, cs), sm),
      PlacedIn(cs, LowTolerance))
  }

  /**
   * Lines 17-57 over the two corpora's file metadata: key both corpora by
   * hash, pair equal hashes, then file the nearest comparison of every
   * remaining first file. `lists` are the lists of every file of the
   * corpora at the call; `nearest` are the nearest comparisons and
   * `states` the lists of every file before each was made and, last, at
   * the end. Fails as Python does when a first file is left with no second
   * file to compare against.
   */
  method TraverseDirectories(firstMetas: seq<FileMeta>, secondMetas: seq<FileMeta>,
                             ghost corpus: set<FileMeta>, ghost lists: map<FileMeta, Buckets>)
    returns (r: Result<Outcome>, ghost nearest: seq<FileComparison>, ghost states: seq<map<FileMeta, Buckets>>)
    requires AllValid(corpus) && (forall f :: f in firstMetas ==> f in corpus) && (forall f :: f in secondMetas ==> f in corpus)
    requires ListsAre(corpus, lists)
    modifies corpus
    ensures AllValid(corpus)
    ensures NearestPass(FirstLeft(firstMetas, secondMetas), KeyByHash(firstMetas),
                        SecondLeft(firstMetas, secondMetas), KeyByHash(secondMetas), nearest, states)
    ensures states[0] == lists && ListsAre(corpus, states[|states| - 1])
    ensures r.Success? <==> |nearest| == |FirstLeft(firstMetas, secondMetas)|
    ensures r.Failure? ==> r.error == NoNearest && Candidates(SecondLeft(firstMetas, secondMetas), nearest) == []
    ensures |SecondLeft(firstMetas, secondMetas)| >= |FirstLeft(firstMetas, secondMetas)| ==> r.Success?
    ensures r.Success? ==>
      r.value == Filed(ExactPairs(KeyOrder(firstMetas), KeyByHash(firstMetas), KeyByHash(secondMetas)),
                       SecondLeft(firstMetas, secondMetas), KeyByHash(secondMetas), nearest)
    ensures r.Success? ==> Distinct(SecondKeys(r.value.partiallyDuplicatedFiles))
    ensures r.Success? ==>
      |r.value.duplicatedFiles| + |r.value.partiallyDuplicatedFiles| + |r.value.fullyUniqueFirst|
        + |r.value.lowToleranceIntersections| == |KeyOrder(firstMetas)|
  {
    var fm, sm, exact, firstLeft, firstDict, secondLeft, secondDict := PairIdenticalFiles(firstMetas, secondMetas);
    r, nearest, states := FileNearestComparisons(firstLeft, firstDict, fm, secondLeft, sm, exact, secondDict, corpus, lists);
  }

  /**
   * Lines 21-34: key both corpora by hash, then pair the files of equal
   * hashes and delete them from both dicts. Returns the two corpora keyed
   * by hash, the pairs, and the two dicts that are left.
   */
  method PairIdenticalFiles(firstMetas: seq<FileMeta>, secondMetas: seq<FileMeta>)
    returns (fm: map<Digest, FileMeta>, sm: map<Digest, FileMeta>, exact: seq<(FileMeta, FileMeta)>,
             firstLeft: seq<Digest>, firstDict: map<Digest, FileMeta>,
             secondLeft: seq<Digest>, secondDict: map<Digest, FileMeta>)
    ensures fm == KeyByHash(firstMetas) && sm == KeyByHash(secondMetas)
    ensures exact == ExactPairs(KeyOrder(firstMetas), fm, sm)
    ensures firstLeft == FirstLeft(firstMetas, secondMetas) && secondLeft == SecondLeft(firstMetas, secondMetas)
    ensures |exact| + |firstLeft| == |KeyOrder(firstMetas)|
    ensures Keyed(firstLeft, firstDict) && firstDict == fm - sm.Keys
    ensures Keyed(secondLeft, secondDict) && secondDict == sm - fm.Keys
    ensures forall h :: h in secondLeft ==> h in sm
    ensures forall h :: h in fm ==> fm[h] in firstMetas
    ensures forall h :: h in sm ==> sm[h] in secondMetas
  {
    var fk, sk := KeyOrder(firstMetas), KeyOrder(secondMetas);
    fm, sm := KeyByHash(firstMetas), KeyByHash(secondMetas);
    KeyedCorpus(firstMetas);
    KeyedCorpus(secondMetas);
    var sk';
    exact, firstLeft, firstDict, sk', secondDict := ExactPass(fk, fm, sk, sm);
    secondLeft := sk';
    ExactCount(fk, fm, sm);
  }

  /**
   * Lines 36-57: walk a snapshot of the first dict after the exact pass;
   * compare each file with the second dict as it stands, file the nearest
   * comparison, and finally take the second dict's files as the fully unique
   * second files. `firstDict`/`firstLeft` and `secondDict`/`secondLeft` are
   * the two dicts the exact pass left, `fm` and `sm` the two corpora keyed
   * by hash.
   */
  method FileNearestComparisons(firstLeft: seq<Digest>, firstDict: map<Digest, FileMeta>, fm: map<Digest, FileMeta>,
                                secondLeft: seq<Digest>, sm: map<Digest, FileMeta>, exact: seq<(FileMeta, FileMeta)>,
                                secondDict: map<Digest, FileMeta>, ghost files: set<FileMeta>, ghost lists: map<FileMeta, Buckets>)
    returns (r: Result<Outcome>, ghost nearest: seq<FileComparison>, ghost states: seq<map<FileMeta, Buckets>>)
    requires Keyed(firstLeft, firstDict) && firstDict == fm - sm.Keys
    requires Keyed(secondLeft, secondDict) && secondDict == sm - fm.Keys
    requires forall h :: h in secondLeft ==> h in sm
    requires forall h :: h in fm ==> fm[h] in files
    requires forall h :: h in sm ==> sm[h] in files
    requires AllValid(files) && ListsAre(files, lists)
    modifies files
    ensures AllValid(files)
    ensures PassResult(firstLeft, fm, secondLeft, sm, exact, r, nearest, states)
    ensures states[0] == lists && ListsAre(files, states[|states| - 1])
  {
    var duplicatedFiles := exact;
    var partiallyDuplicatedFiles: seq<FileComparison> := [];
    var fullyUniqueFirst: seq<FileMeta> := [];
    var lowToleranceIntersections: seq<FileComparison> := [];
    var secondKeys, secondDict' := secondLeft, secondDict;
    nearest, states := [], [lists];
    TraverseStart(firstLeft, firstDict, fm, secondLeft, sm, exact, secondDict, lists);
    var i := 0;
    while i < |firstLeft|
      invariant AllValid(files)
      invariant Traversing(firstLeft, fm, secondLeft, sm, exact, i, nearest, states, duplicatedFiles, partiallyDuplicatedFiles,
                           fullyUniqueFirst, lowToleranceIntersections, secondKeys, secondDict')
      invariant |states| == i + 1 && states[0] == lists && ListsAre(files, states[i])
      decreases |firstLeft| - i
    {
      TraverseFirst(firstLeft, fm, secondLeft, sm, exact, i, nearest, states, duplicatedFiles, partiallyDuplicatedFiles,
                    fullyUniqueFirst, lowToleranceIntersections, secondKeys, secondDict', firstDict, files);
      var firstMeta := firstDict[firstLeft[i]];
      var nearestToFirst, after := CompareNext(firstMeta, secondKeys, secondDict', files, states[i]);
      if nearestToFirst.None? {
        r := Failure(NoNearest);
        TraverseFailed(firstLeft, fm, secondLeft, sm, exact, i, nearest, states, duplicatedFiles, partiallyDuplicatedFiles,
                       fullyUniqueFirst, lowToleranceIntersections, secondKeys, secondDict');
        return;
      }
      var c := nearestToFirst.value;
      NearestScanPicks(fm[firstLeft[i]], secondKeys, secondDict', states[i], c, after);
      var duplicatedFiles', partiallyDuplicatedFiles', fullyUniqueFirst', lowToleranceIntersections', secondKeys', secondDict'' :=
        FileNearest(c, firstMeta, duplicatedFiles, partiallyDuplicatedFiles, fullyUniqueFirst, lowToleranceIntersections, secondKeys, secondDict');
      TraverseStep(firstLeft, fm, secondLeft, sm, exact, i, nearest, states, duplicatedFiles, partiallyDuplicatedFiles,
                   fullyUniqueFirst, lowToleranceIntersections, secondKeys, secondDict', c, after,
                   duplicatedFiles', partiallyDuplicatedFiles', fullyUniqueFirst', lowToleranceIntersections', secondKeys', secondDict'');
      duplicatedFiles, partiallyDuplicatedFiles, fullyUniqueFirst, lowToleranceIntersections := duplicatedFiles', partiallyDuplicatedFiles', fullyUniqueFirst', lowToleranceIntersections';
      secondKeys, secondDict' := secondKeys', secondDict'';
      SnocEnds(states, after);
      nearest, states := nearest + [c], states + [after];
      i := i + 1;
    }
    var fullyUniqueSecond := ValuesInOrder(secondKeys, secondDict');
    r := Success(Outcome(duplicatedFiles, partiallyDuplicatedFiles, fullyUniqueFirst, fullyUniqueSecond, lowToleranceIntersections));
    TraverseDone(firstLeft, fm, secondLeft, sm, exact, i, nearest, states, duplicatedFiles, partiallyDuplicatedFiles,
                 fullyUniqueFirst, lowToleranceIntersections, secondKeys, secondDict');
  }

  /**
   * The result of lines 36-57 after an exact pass that paired `exact`: the
   * nearest comparisons `cs` were made as `NearestPass` says; it is a
   * failure exactly when a first file found the second dict empty, and
   * otherwise the five lists are those of `Filed`, no second file is a
   * partial duplicate twice, and every file left to the first dict is in
   * exactly one of the four lists of first files.
   */
  ghost predicate PassResult(firstLeft: seq<Digest>, fm: map<Digest, FileMeta>, secondLeft: seq<Digest>, sm: map<Digest, FileMeta>,
                             exact: seq<(FileMeta, FileMeta)>, r: Result<Outcome>, cs: seq<FileComparison>, states: seq<map<FileMeta, Buckets>>)
  {
    && NearestPass(firstLeft, fm, secondLeft, sm, cs, states)
    && (forall h :: h in secondLeft ==> h in sm)
    && (r.Success? <==> |cs| == |firstLeft|)
    && (r.Failure? ==> r.error == NoNearest && Candidates(secondLeft, cs) == [] && |secondLeft| <= |cs|)
    && (r.Success? ==>
         && r.value == Filed(exact, secondLeft, sm, cs)
         && Distinct(SecondKeys(r.value.partiallyDuplicatedFiles))
         && |r.value.duplicatedFiles| + |r.value.partiallyDuplicatedFiles| + |r.value.fullyUniqueFirst|
              + |r.value.lowToleranceIntersections| == |exact| + |firstLeft|)
  }

  /**
   * Lines 37-43 for one file left to the first dict: its nearest comparison
   * against the second dict `keys`/`seconds` as it stands, `None` when that
   * dict is empty. `lists` are the lists of every file of `files` before,
   * `after` those once the scan is done.
   */
  method CompareNext(first: FileMeta, keys: seq<Digest>, seconds: map<Digest, FileMeta>,
                     ghost files: set<FileMeta>, ghost lists: map<FileMeta, Buckets>)
    returns (nearestToFirst: Option<FileComparison>, ghost after: map<FileMeta, Buckets>)
    requires Keyed(keys, seconds) && forall h :: h in seconds ==> seconds[h] in files
    requires AllValid(files) && first in files && ListsAre(files, lists)
    modifies files
    ensures AllValid(files) && ListsAre(files, after)
    ensures nearestToFirst.None? <==> keys == []
    ensures nearestToFirst.None? ==> after == lists
    ensures nearestToFirst.Some? ==> NearestScan(first, keys, seconds, lists, nearestToFirst.value, after)
  {
    assert forall h :: h in seconds ==> seconds[h] in lists;
    ValuesListed(keys, seconds, lists);
    nearestToFirst := NearestToFirst(first, keys, seconds, files, lists);
    after := ListsAfterScan(lists, first, ValuesInOrder(keys, seconds));
    ScanFound(first, keys, seconds, lists, nearestToFirst, after);
  }

  /** What `NearestToFirst` returns is the nearest comparison of its scan, or `None` for an empty dict, which scans nothing. */
  lemma ScanFound(first: FileMeta, keys: seq<Digest>, seconds: map<Digest, FileMeta>, lists: map<FileMeta, Buckets>,
                  nearest: Option<FileComparison>, after: map<FileMeta, Buckets>)
    requires Keyed(keys, seconds) && first in lists && forall h :: h in seconds ==> seconds[h] in lists
    requires nearest.None? <==> keys == []
    requires nearest.Some? ==> nearest.value == NearestIn(Scan(lists, first, ValuesInOrder(keys, seconds)))
    requires after == ListsAfterScan(lists, first, ValuesInOrder(keys, seconds))
    ensures nearest.None? ==> after == lists
    ensures nearest.Some? ==> NearestScan(first, keys, seconds, lists, nearest.value, after)
  {
  }

  /**
   * Lines 45-55: file the nearest comparison `c` of `firstMeta` by its
   * score; a partial duplicate also deletes its second file from the second
   * dict, which holds it since `c` was made against that dict.
   */
  method FileNearest(c: FileComparison, firstMeta: FileMeta,
                     duplicated: seq<(FileMeta, FileMeta)>, partial: seq<FileComparison>,
                     uniqueFirst: seq<FileMeta>, low: seq<FileComparison>,
                     secondKeys: seq<Digest>, secondDict: map<Digest, FileMeta>)
    returns (duplicated': seq<(FileMeta, FileMeta)>, partial': seq<FileComparison>,
             uniqueFirst': seq<FileMeta>, low': seq<FileComparison>,
             secondKeys': seq<Digest>, secondDict': map<Digest, FileMeta>)
    requires c.first == firstMeta
    ensures Filing(c, duplicated, partial, uniqueFirst, low, secondKeys, secondDict,
                   duplicated', partial', uniqueFirst', low', secondKeys', secondDict')
  {
    duplicated', partial', uniqueFirst', low' := duplicated, partial, uniqueFirst, low;
    secondKeys', secondDict' := secondKeys, secondDict;
    if c.uniquenessScore == 0 {
      duplicated' := duplicated + [(c.first, c.second)];
    } else if c.uniquenessScore == 100 {
      uniqueFirst' := uniqueFirst + [firstMeta];
    } else if c.uniquenessScore < UniquenessTolerance {
      partial' := partial + [c];
      secondKeys', secondDict' := Without(secondKeys, {c.second.fileHash}), secondDict - {c.second.fileHash};
    } else {
      low' := low + [c];
    }
  }

  /**
   * The state of `traverse_directories` once the first `i` keys of
   * `firstLeft` have had their nearest comparison filed.
   */
  ghost predicate Traversing(firstLeft: seq<Digest>, fm: map<Digest, FileMeta>, secondLeft: seq<Digest>, sm: map<Digest, FileMeta>,
                             exact: seq<(FileMeta, FileMeta)>, i: int, cs: seq<FileComparison>, states: seq<map<FileMeta, Buckets>>,
                             duplicated: seq<(FileMeta, FileMeta)>, partial: seq<FileComparison>,
                             uniqueFirst: seq<FileMeta>, low: seq<FileComparison>,
                             secondKeys: seq<Digest>, secondDict: map<Digest, FileMeta>)
  {
    && 0 <= i <= |firstLeft| && |cs| == i
    && NearestPass(firstLeft, fm, secondLeft, sm, cs, states)
    && ChosenFromCandidates(secondLeft, cs)
    && duplicated == exact + PairsOf(PlacedIn(cs, Duplicated))
    && partial == PlacedIn(cs, PartiallyDuplicated)
    && uniqueFirst == FirstsOf(PlacedIn(cs, FullyUnique))
    && low == PlacedIn(cs, LowTolerance)
    && Distinct(secondLeft) && (forall h :: h in secondLeft ==> h in sm)
    && secondKeys == Candidates(secondLeft, cs)
    && secondDict == (sm - fm.Keys) - Elems(SecondKeys(partial))
    && Keyed(secondKeys, secondDict)
  }

  lemma TraverseStart(firstLeft: seq<Digest>, firstDict: map<Digest, FileMeta>, fm: map<Digest, FileMeta>,
                      secondLeft: seq<Digest>, sm: map<Digest, FileMeta>, exact: seq<(FileMeta, FileMeta)>,
                      secondDict: map<Digest, FileMeta>, lists: map<FileMeta, Buckets>)
    requires Keyed(firstLeft, firstDict) && firstDict == fm - sm.Keys
    requires Keyed(secondLeft, secondDict) && secondDict == sm - fm.Keys
    requires forall h :: h in secondLeft ==> h in sm
    ensures Traversing(firstLeft, fm, secondLeft, sm, exact, 0, [], [lists], exact, [], [], [], secondLeft, secondDict)
  {
    NothingFiled();
    WithoutNone(secondLeft);
    assert NearestPass(firstLeft, fm, secondLeft, sm, [], [lists]);
    assert exact + PairsOf(PlacedIn([], Duplicated)) == exact;
    assert secondLeft == Candidates(secondLeft, []);
    assert secondDict == (sm - fm.Keys) - Elems(SecondKeys(PlacedIn([], PartiallyDuplicated)));
  }

  /** Before the first comparison is filed, every list is empty. */
  lemma NothingFiled()
    ensures forall p :: PlacedIn([], p) == []
    ensures PairsOf([]) == [] && FirstsOf([]) == [] && SecondKeys([]) == [] && Elems([]) == {}
  {
  }

  /**
   * Before a first file is compared: it is in the first dict, the second
   * dict holds files of `files`, and it is empty only once the partial
   * duplicates have used up the second dict.
   */
  lemma TraverseFirst(firstLeft: seq<Digest>, fm: map<Digest, FileMeta>, secondLeft: seq<Digest>, sm: map<Digest, FileMeta>,
                      exact: seq<(FileMeta, FileMeta)>, i: int, cs: seq<FileComparison>, states: seq<map<FileMeta, Buckets>>,
                      duplicated: seq<(FileMeta, FileMeta)>, partial: seq<FileComparison>,
                      uniqueFirst: seq<FileMeta>, low: seq<FileComparison>,
                      secondKeys: seq<Digest>, secondDict: map<Digest, FileMeta>,
                      firstDict: map<Digest, FileMeta>, files: set<FileMeta>)
    requires Traversing(firstLeft, fm, secondLeft, sm, exact, i, cs, states, duplicated, partial, uniqueFirst, low, secondKeys, secondDict)
    requires i < |firstLeft|
    requires Keyed(firstLeft, firstDict) && firstDict == fm - sm.Keys
    requires forall h :: h in fm ==> fm[h] in files
    requires forall h :: h in sm ==> sm[h] in files
    ensures firstLeft[i] in fm && firstLeft[i] in firstDict && firstDict[firstLeft[i]] == fm[firstLeft[i]] && fm[firstLeft[i]] in files
    ensures Keyed(secondKeys, secondDict) && forall h :: h in secondDict ==> secondDict[h] in files
    ensures secondKeys == [] ==> |secondLeft| <= i
  {
    CandidatesShrink(secondLeft, cs);
    PlacedInLength(cs, PartiallyDuplicated);
  }

  /** Filing one more nearest comparison keeps the state of `traverse_directories`. */
  lemma TraverseStep(firstLeft: seq<Digest>, fm: map<Digest, FileMeta>, secondLeft: seq<Digest>, sm: map<Digest, FileMeta>,
                     exact: seq<(FileMeta, FileMeta)>, i: int, cs: seq<FileComparison>, states: seq<map<FileMeta, Buckets>>,
                     duplicated: seq<(FileMeta, FileMeta)>, partial: seq<FileComparison>,
                     uniqueFirst: seq<FileMeta>, low: seq<FileComparison>,
                     secondKeys: seq<Digest>, secondDict: map<Digest, FileMeta>,
                     c: FileComparison, after: map<FileMeta, Buckets>,
                     duplicated': seq<(FileMeta, FileMeta)>, partial': seq<FileComparison>,
                     uniqueFirst': seq<FileMeta>, low': seq<FileComparison>,
                     secondKeys': seq<Digest>, secondDict': map<Digest, FileMeta>)
    requires Traversing(firstLeft, fm, secondLeft, sm, exact, i, cs, states, duplicated, partial, uniqueFirst, low, secondKeys, secondDict)
    requires i < |firstLeft| && firstLeft[i] in fm && forall h :: h in sm ==> sm[h] in states[i]
    requires NearestScan(fm[firstLeft[i]], secondKeys, secondDict, states[i], c, after)
    requires Filing(c, duplicated, partial, uniqueFirst, low, secondKeys, secondDict,
                    duplicated', partial', uniqueFirst', low', secondKeys', secondDict')
    ensures Traversing(firstLeft, fm, secondLeft, sm, exact, i + 1, cs + [c], states + [after],
                       duplicated', partial', uniqueFirst', low', secondKeys', secondDict')
  {
    NearestScanPicks(fm[firstLeft[i]], secondKeys, secondDict, states[i], c, after);
    NearestScanWider(fm[firstLeft[i]], secondKeys, secondDict, sm, states[i], c, after);
    TraversePass(firstLeft, fm, secondLeft, sm, cs, states, c, after);
    ChosenSnoc(secondLeft, cs, c);
    TraverseLists(exact, cs, c, duplicated, partial, uniqueFirst, low, duplicated', partial', uniqueFirst', low');
    CandidatesStep(secondLeft, cs, c);
    TraverseSecondDict(sm - fm.Keys, partial, partial', c, secondKeys, secondDict, secondKeys', secondDict');
  }

  /**
   * Lines 45-55 on the lists and the second dict: the comparison `c` goes to
   * the list its score picks, and a partial duplicate also deletes its
   * second file from the second dict.
   */
  ghost predicate Filing(c: FileComparison,
                         duplicated: seq<(FileMeta, FileMeta)>, partial: seq<FileComparison>,
                         uniqueFirst: seq<FileMeta>, low: seq<FileComparison>,
                         secondKeys: seq<Digest>, secondDict: map<Digest, FileMeta>,
                         duplicated': seq<(FileMeta, FileMeta)>, partial': seq<FileComparison>,
                         uniqueFirst': seq<FileMeta>, low': seq<FileComparison>,
                         secondKeys': seq<Digest>, secondDict': map<Digest, FileMeta>)
  {
    var p := Classify(c.uniquenessScore);
    && (if p == Duplicated then duplicated' == duplicated + [(c.first, c.second)] else duplicated' == duplicated)
    && (if p == FullyUnique then uniqueFirst' == uniqueFirst + [c.first] else uniqueFirst' == uniqueFirst)
    && (if p == PartiallyDuplicated then partial' == partial + [c] else partial' == partial)
    && (if p == LowTolerance then low' == low + [c] else low' == low)
    && (if p == PartiallyDuplicated
        then secondKeys' == Without(secondKeys, {c.second.fileHash}) && secondDict' == secondDict - {c.second.fileHash}
        else secondKeys' == secondKeys && secondDict' == secondDict)
  }

  /** Adding the nearest comparison of the next first file extends the nearest pass. */
  lemma TraversePass(firstLeft: seq<Digest>, fm: map<Digest, FileMeta>, secondLeft: seq<Digest>, sm: map<Digest, FileMeta>,
                     cs: seq<FileComparison>, states: seq<map<FileMeta, Buckets>>, c: FileComparison, after: map<FileMeta, Buckets>)
    requires NearestPass(firstLeft, fm, secondLeft, sm, cs, states) && |cs| < |firstLeft|
    requires NearestScan(fm[firstLeft[|cs|]], Candidates(secondLeft, cs), sm, states[|cs|], c, after)
    ensures NearestPass(firstLeft, fm, secondLeft, sm, cs + [c], states + [after])
  {
    assert (cs + [c])[..|cs|] == cs;
    assert (states + [after])[..|cs| + 1] == states;
  }

  lemma ChosenSnoc(secondLeft: seq<Digest>, cs: seq<FileComparison>, c: FileComparison)
    requires ChosenFromCandidates(secondLeft, cs) && c.second.fileHash in Candidates(secondLeft, cs)
    ensures ChosenFromCandidates(secondLeft, cs + [c])
  {
    var cs' := cs + [c];
    assert cs'[..|cs|] == cs;
    assert forall j :: 0 <= j < |cs| ==> cs'[..j] == cs[..j];
  }

  /** The four lists grow by the comparison filed, in the list its score picks. */
  lemma TraverseLists(exact: seq<(FileMeta, FileMeta)>, cs: seq<FileComparison>, c: FileComparison,
                      duplicated: seq<(FileMeta, FileMeta)>, partial: seq<FileComparison>,
                      uniqueFirst: seq<FileMeta>, low: seq<FileComparison>,
                      duplicated': seq<(FileMeta, FileMeta)>, partial': seq<FileComparison>,
                      uniqueFirst': seq<FileMeta>, low': seq<FileComparison>)
    requires duplicated == exact + PairsOf(PlacedIn(cs, Duplicated))
    requires partial == PlacedIn(cs, PartiallyDuplicated)
    requires uniqueFirst == FirstsOf(PlacedIn(cs, FullyUnique))
    requires low == PlacedIn(cs, LowTolerance)
    requires var p := Classify(c.uniquenessScore);
      && (if p == Duplicated then duplicated' == duplicated + [(c.first, c.second)] else duplicated' == duplicated)
      && (if p == FullyUnique then uniqueFirst' == uniqueFirst + [c.first] else uniqueFirst' == uniqueFirst)
      && (if p == PartiallyDuplicated then partial' == partial + [c] else partial' == partial)
      && (if p == LowTolerance then low' == low + [c] else low' == low)
    ensures duplicated' == exact + PairsOf(PlacedIn(cs + [c], Duplicated))
    ensures partial' == PlacedIn(cs + [c], PartiallyDuplicated)
    ensures uniqueFirst' == FirstsOf(PlacedIn(cs + [c], FullyUnique))
    ensures low' == PlacedIn(cs + [c], LowTolerance)
  {
    PlacedStep(cs, c, PartiallyDuplicated, partial, partial');
    PlacedStep(cs, c, LowTolerance, low, low');
    DuplicatedStep(exact, cs, c, duplicated, duplicated');
    UniqueFirstStep(cs, c, uniqueFirst, uniqueFirst');
  }

  lemma PlacedStep(cs: seq<FileComparison>, c: FileComparison, p: Placement, xs: seq<FileComparison>, xs': seq<FileComparison>)
    requires xs == PlacedIn(cs, p)
    requires if Classify(c.uniquenessScore) == p then xs' == xs + [c] else xs' == xs
    ensures xs' == PlacedIn(cs + [c], p)
  {
    PlacedInSnoc(cs, c, p);
    assert xs + [] == xs;
  }

  lemma DuplicatedStep(exact: seq<(FileMeta, FileMeta)>, cs: seq<FileComparison>, c: FileComparison,
                       xs: seq<(FileMeta, FileMeta)>, xs': seq<(FileMeta, FileMeta)>)
    requires xs == exact + PairsOf(PlacedIn(cs, Duplicated))
    requires if Classify(c.uniquenessScore) == Duplicated then xs' == xs + [(c.first, c.second)] else xs' == xs
    ensures xs' == exact + PairsOf(PlacedIn(cs + [c], Duplicated))
  {
    var ds := PlacedIn(cs, Duplicated);
    PlacedInSnoc(cs, c, Duplicated);
    if Classify(c.uniquenessScore) == Duplicated {
      PairsOfSnoc(ds, c);
      assert exact + PairsOf(ds) + [(c.first, c.second)] == exact + (PairsOf(ds) + [(c.first, c.second)]);
    } else {
      assert ds + [] == ds;
    }
  }

  lemma UniqueFirstStep(cs: seq<FileComparison>, c: FileComparison, xs: seq<FileMeta>, xs': seq<FileMeta>)
    requires xs == FirstsOf(PlacedIn(cs, FullyUnique))
    requires if Classify(c.uniquenessScore) == FullyUnique then xs' == xs + [c.first] else xs' == xs
    ensures xs' == FirstsOf(PlacedIn(cs + [c], FullyUnique))
  {
    var us := PlacedIn(cs, FullyUnique);
    PlacedInSnoc(cs, c, FullyUnique);
    if Classify(c.uniquenessScore) == FullyUnique {
      FirstsOfSnoc(us, c);
    } else {
      assert us + [] == us;
    }
  }

  /** A partial duplicate deletes its second file from the second dict; nothing else does. */
  lemma TraverseSecondDict(base: map<Digest, FileMeta>, partial: seq<FileComparison>, partial': seq<FileComparison>, c: FileComparison,
                           secondKeys: seq<Digest>, secondDict: map<Digest, FileMeta>,
                           secondKeys': seq<Digest>, secondDict': map<Digest, FileMeta>)
    requires secondDict == base - Elems(SecondKeys(partial)) && Keyed(secondKeys, secondDict)
    requires if Classify(c.uniquenessScore) == PartiallyDuplicated
      then partial' == partial + [c]
        && secondKeys' == Without(secondKeys, {c.second.fileHash}) && secondDict' == secondDict - {c.second.fileHash}
      else partial' == partial && secondKeys' == secondKeys && secondDict' == secondDict
    ensures secondDict' == base - Elems(SecondKeys(partial')) && Keyed(secondKeys', secondDict')
  {
    var h := c.second.fileHash;
    if Classify(c.uniquenessScore) == PartiallyDuplicated {
      SecondKeysSnoc(partial, c);
      assert Elems(SecondKeys(partial + [c])) == Elems(SecondKeys(partial)) + {h};
      MinusMinus(base, Elems(SecondKeys(partial)), h);
      WithoutDistinct(secondKeys, {h});
    }
  }

  lemma PlacedInSnoc(cs: seq<FileComparison>, c: FileComparison, p: Placement)
    ensures PlacedIn(cs + [c], p) == PlacedIn(cs, p) + (if Classify(c.uniquenessScore) == p then [c] else [])
  {
    assert (cs + [c])[..|cs|] == cs;
  }

  lemma PlacedInLast(cs: seq<FileComparison>, p: Placement)
    requires cs != []
    ensures PlacedIn(cs, p) == PlacedIn(cs[..|cs| - 1], p) + (if Classify(cs[|cs| - 1].uniquenessScore) == p then [cs[|cs| - 1]] else [])
  {
  }

  lemma SecondKeysSnoc(cs: seq<FileComparison>, c: FileComparison)
    ensures SecondKeys(cs + [c]) == SecondKeys(cs) + [c.second.fileHash]
  {
  }

  lemma PairsOfSnoc(cs: seq<FileComparison>, c: FileComparison)
    ensures PairsOf(cs + [c]) == PairsOf(cs) + [(c.first, c.second)]
  {
  }

  lemma FirstsOfSnoc(cs: seq<FileComparison>, c: FileComparison)
    ensures FirstsOf(cs + [c]) == FirstsOf(cs) + [c.first]
  {
  }

  /**
   * When every first file has been filed, the lists are those of `Filed`,
   * no second file is a partial duplicate twice, and every file left to
   * the nearest pass is in exactly one of the four lists.
   */
  lemma TraverseDone(firstLeft: seq<Digest>, fm: map<Digest, FileMeta>, secondLeft: seq<Digest>, sm: map<Digest, FileMeta>,
                     exact: seq<(FileMeta, FileMeta)>, i: int, cs: seq<FileComparison>, states: seq<map<FileMeta, Buckets>>,
                     duplicated: seq<(FileMeta, FileMeta)>, partial: seq<FileComparison>,
                     uniqueFirst: seq<FileMeta>, low: seq<FileComparison>,
                     secondKeys: seq<Digest>, secondDict: map<Digest, FileMeta>)
    requires Traversing(firstLeft, fm, secondLeft, sm, exact, i, cs, states, duplicated, partial, uniqueFirst, low, secondKeys, secondDict)
    requires i >= |firstLeft|
    ensures PassResult(firstLeft, fm, secondLeft, sm, exact,
                       Success(Outcome(duplicated, partial, uniqueFirst, ValuesInOrder(secondKeys, secondDict), low)), cs, states)
  {
    ValuesInOrderFrame(secondKeys, secondDict, sm);
    PartialSecondsDistinct(secondLeft, cs);
    PlacementPartition(cs);
  }

  /** A first file that finds the second dict empty ends the pass with Python's error. */
  lemma TraverseFailed(firstLeft: seq<Digest>, fm: map<Digest, FileMeta>, secondLeft: seq<Digest>, sm: map<Digest, FileMeta>,
                       exact: seq<(FileMeta, FileMeta)>, i: int, cs: seq<FileComparison>, states: seq<map<FileMeta, Buckets>>,
                       duplicated: seq<(FileMeta, FileMeta)>, partial: seq<FileComparison>,
                       uniqueFirst: seq<FileMeta>, low: seq<FileComparison>,
                       secondKeys: seq<Digest>, secondDict: map<Digest, FileMeta>)
    requires Traversing(firstLeft, fm, secondLeft, sm, exact, i, cs, states, duplicated, partial, uniqueFirst, low, secondKeys, secondDict)
    requires i < |firstLeft| && secondKeys == [] && |secondLeft| <= i
    ensures PassResult(firstLeft, fm, secondLeft, sm, exact, Failure(NoNearest), cs, states)
  {
  }

  /** The values of a dict whose files all have lists in `lists` have lists in `lists`. */
  lemma {:induction false} ValuesListed(keys: seq<Digest>, m: map<Digest, FileMeta>, lists: map<FileMeta, Buckets>)
    requires forall h :: h in keys ==> h in m
    requires forall h :: h in m ==> m[h] in lists
    ensures forall s :: s in ValuesInOrder(keys, m) ==> s in lists
  {
    if keys != [] {
      ValuesListed(keys[..|keys| - 1], m, lists);
    }
  }

  /** `dict.values()` only reads the dict at its keys. */
  lemma {:induction false} ValuesInOrderFrame(keys: seq<Digest>, m: map<Digest, FileMeta>, m': map<Digest, FileMeta>)
    requires forall h :: h in keys ==> h in m && h in m' && m[h] == m'[h]
    ensures ValuesInOrder(keys, m) == ValuesInOrder(keys, m')
  {
    if keys != [] {
      ValuesInOrderFrame(keys[..|keys| - 1], m, m');
    }
  }
}
