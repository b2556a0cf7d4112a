/**
 * What the comparator model promises beyond the contracts of its
 * operations: the line filter keeps exactly the non-blank lines, the
 * multimap partitions a file's records, every record a comparison lists
 * comes from the file it is listed for, the per-hash accounting of the
 * line walk, and the effect of the shared lists on a later comparison.
 */
module ComparisonFacts {
  import opened Text
  import opened Comparator

  // ---------------------------------------------------------------------------
  // get_line_metas_for_file
  // ---------------------------------------------------------------------------

  /**
   * Every record kept for `lines` numbers one of them by its 0-based index,
   * and holds that line's stripped text, which is non-empty, and its digest.
   */
  lemma {:induction false} KeptLinesSound(path: string, lines: seq<string>)
    ensures forall x :: x in KeptLines(path, lines) ==>
      && x.filePath == path && x.lineNr < |lines|
      && x.content == Strip(lines[x.lineNr]) && x.content != []
      && x.contentHash == HashText(x.content)
  {
    if lines != [] {
      var n := |lines| - 1;
      KeptLinesSound(path, lines[..n]);
    }
  }

  /** The line numbers of `r` strictly increase. */
  predicate IncreasingLineNrs(r: seq<LineMeta>) {
    forall i, j :: 0 <= i < j < |r| ==> r[i].lineNr < r[j].lineNr
  }

  /** The kept records are in line order, each line at most once: their line numbers strictly increase. */
  lemma {:induction false} KeptLinesIncreasing(path: string, lines: seq<string>)
    ensures IncreasingLineNrs(KeptLines(path, lines))
  {
    if lines != [] {
      var n := |lines| - 1;
      var p, r := KeptLines(path, lines[..n]), KeptLines(path, lines);
      KeptLinesIncreasing(path, lines[..n]);
      KeptLinesSound(path, lines[..n]);
      var last := LineMeta(path, n, Strip(lines[n]), HashText(Strip(lines[n])));
      assert r == p + (if Strip(lines[n]) != [] then [last] else []);
      forall i, j | 0 <= i < j < |r| ensures r[i].lineNr < r[j].lineNr {
        if j < |p| {
          assert r[i] == p[i] && r[j] == p[j];
        } else {
          assert r[i] == p[i] && p[i] in p && r[j].lineNr == n;
        }
      }
    }
  }

  /** Every line whose stripped text is non-empty has its record, numbered by its own index. */
  lemma {:induction false} KeptLinesComplete(path: string, lines: seq<string>, k: nat)
    requires k < |lines| && Strip(lines[k]) != []
    ensures LineMeta(path, k, Strip(lines[k]), HashText(Strip(lines[k]))) in KeptLines(path, lines)
  {
    var n := |lines| - 1;
    if k < n {
      assert lines[..n][k] == lines[k];
      KeptLinesComplete(path, lines[..n], k);
    }
  }

  /** `suffix` of a suffix of `s` is a suffix of `s`. */
  lemma EndsWithTrans(s: string, t: string, suffix: string)
    requires EndsWith(s, t) && EndsWith(t, suffix)
    ensures EndsWith(s, suffix)
  {
    assert s[|s| - |suffix|..] == s[|s| - |t|..][|t| - |suffix|..];
  }

  /**
   * A path ends with an extension that has no '/' exactly when its file
   * name does; with ".png" and ".ico", `is_picture` is a test on the path.
   */
  lemma NameEndsWithIff(path: string, ext: string)
    requires '/' !in ext
    ensures EndsWith(FileName(path), ext) <==> EndsWith(path, ext)
  {
    var name := FileName(path);
    if EndsWith(FileName(path), ext) {
      EndsWithTrans(path, name, ext);
    }
  }

  /** `is_picture` holds exactly when the file's path ends with ".png" or ".ico". */
  lemma IsPictureIff(f: FileMeta)
    requires f.fileName == FileName(f.filePath)
    ensures f.IsPicture() <==> EndsWith(f.filePath, ".png") || EndsWith(f.filePath, ".ico")
  {
    NameEndsWithIff(f.filePath, ".png");
    NameEndsWithIff(f.filePath, ".ico");
  }

  /** The lines of a picture are never read: its path contains the extension, so the filter returns nothing. */
  lemma PicturesHaveNoLines(f: FileMeta, lines: seq<string>)
    requires f.fileName == FileName(f.filePath) && f.IsPicture()
    ensures LineFilter(f.filePath, lines) == []
  {
    IsPictureIff(f);
    if EndsWith(f.filePath, ".png") {
      EndsWithContains(f.filePath, ".png");
    } else {
      EndsWithContains(f.filePath, ".ico");
    }
  }

  /**
   * The filter's guard is wider than `is_picture`: a path that merely
   * contains ".png" has no lines although its file is no picture.
   */
  lemma GuardWiderThanPicture()
    ensures var path := "logo.png.txt";
      && LineFilter(path, ["x"]) == []
      && !EndsWith(path, ".png") && !EndsWith(path, ".ico")
      && KeptLines(path, ["x"]) != []
  {
    var path := "logo.png.txt";
    assert OccursAt(path, ".png", 4);
    assert Strip("x") == "x";
  }

  // ---------------------------------------------------------------------------
  // FileMeta.create_hash_multi_map
  // ---------------------------------------------------------------------------

  /** A bucket holds exactly the records of its hash. */
  lemma {:induction false} BucketMembers(lms: seq<LineMeta>, h: Digest, x: LineMeta)
    ensures x in Bucket(lms, h) <==> x in lms && x.contentHash == h
  {
    if lms != [] {
      var p := lms[..|lms| - 1];
      BucketMembers(p, h, x);
      assert lms == p + [lms[|lms| - 1]];
    }
  }

  /** Every record of a file is in the multimap's list of its own content hash. */
  lemma EveryRecordInItsBucket(lms: seq<LineMeta>, x: LineMeta)
    requires x in lms
    ensures x.contentHash in HashMultiMap(lms) && x in HashMultiMap(lms)[x.contentHash]
  {
    BucketMembers(lms, x.contentHash, x);
    HashesMembers(lms, x);
  }

  lemma {:induction false} HashesMembers(lms: seq<LineMeta>, x: LineMeta)
    requires x in lms
    ensures x.contentHash in Hashes(lms)
  {
    var p := lms[..|lms| - 1];
    assert lms == p + [lms[|lms| - 1]];
    if x != lms[|lms| - 1] {
      HashesMembers(p, x);
    }
  }

  /**
   * The lists of the multimap, taken in key order, hold the file's records
   * exactly: each as often as in the file.
   */
  lemma {:induction false} BucketsPartition(lms: seq<LineMeta>)
    ensures multiset(Gather(HashOrder(lms), HashMultiMap(lms))) == multiset(lms)
  {
    if lms != [] {
      var p, x := lms[..|lms| - 1], lms[|lms| - 1];
      assert lms == p + [x];
      BucketsPartition(p);
      PartitionSnoc(p, x);
    }
  }

  /** One more record adds itself to what the multimap's lists hold. */
  lemma PartitionSnoc(p: seq<LineMeta>, x: LineMeta)
    ensures multiset(Gather(HashOrder(p + [x]), HashMultiMap(p + [x])))
         == multiset(Gather(HashOrder(p), HashMultiMap(p))) + multiset{x}
  {
    Snoc(p, x);
    var keys, m, h := HashOrder(p), HashMultiMap(p), x.contentHash;
    var keys', m' := HashOrder(p + [x]), HashMultiMap(p + [x]);
    if h in keys {
      assert keys' == keys && m' == m[h := m[h] + [x]];
      GatherAppend(keys, m, h, [x]);
    } else {
      assert keys' == keys + [h] && m' == m[h := [x]];
      GatherNewKey(keys, m, h, x);
    }
  }

  /** A key new to the order brings its one record at the end. */
  lemma GatherNewKey(keys: seq<Digest>, m: map<Digest, seq<LineMeta>>, h: Digest, x: LineMeta)
    requires h !in keys
    ensures Gather(keys + [h], m[h := [x]]) == Gather(keys, m) + [x]
  {
    GatherPointwise(keys, m[h := [x]], m);
    assert (keys + [h])[..|keys|] == keys;
  }

  /** Appending `extra` to one listed key's list adds `extra` to what `Gather` collects. */
  lemma {:induction false} GatherAppend(keys: seq<Digest>, m: map<Digest, seq<LineMeta>>, h: Digest, extra: seq<LineMeta>)
    requires Distinct(keys) && h in keys && h in m
    ensures multiset(Gather(keys, m[h := m[h] + extra])) == multiset(Gather(keys, m)) + multiset(extra)
  {
    var p, k := keys[..|keys| - 1], keys[|keys| - 1];
    assert keys == p + [k];
    assert Distinct(p);
    if k == h {
      assert h !in p;
      GatherPointwise(p, m[h := m[h] + extra], m);
    } else {
      GatherAppend(p, m, h, extra);
    }
  }

  // ---------------------------------------------------------------------------
  // Comparator.compare_two_file_metas
  // ---------------------------------------------------------------------------

  /** A record is gathered exactly when it is in the list of one of the keys. */
  lemma {:induction false} GatherMembers(keys: seq<Digest>, m: map<Digest, seq<LineMeta>>, x: LineMeta)
    ensures x in Gather(keys, m) <==> exists h :: h in keys && h in m && x in m[h]
  {
    if keys != [] {
      var p, k := keys[..|keys| - 1], keys[|keys| - 1];
      assert keys == p + [k];
      GatherMembers(p, m, x);
    }
  }

  /** Records that a list of `b` holds are records of `lms`, since each list is a prefix of a bucket of `lms`. */
  lemma InFile(b: map<Digest, seq<LineMeta>>, lms: seq<LineMeta>, h: Digest, x: LineMeta)
    requires PrefixesOfBuckets(b, lms) && h in b && x in b[h]
    ensures x in lms && x.contentHash == h
  {
    assert x in Bucket(lms, h);
    BucketMembers(lms, h, x);
  }

  /**
   * `duplicate_lines` and `unique_in_first` hold records of the first file
   * only, and `unique_in_second` records of the second file only, each
   * with the content hash it was listed under.
   */
  lemma ListsComeFromTheirFiles(fb: map<Digest, seq<LineMeta>>, sb: map<Digest, seq<LineMeta>>,
                                fo: seq<Digest>, so: seq<Digest>, lms1: seq<LineMeta>, lms2: seq<LineMeta>)
    requires PrefixesOfBuckets(fb, lms1) && PrefixesOfBuckets(sb, lms2)
    ensures forall x :: x in Gather(fo, DuplicateMap(fb, sb)) ==> x in lms1
    ensures forall x :: x in Gather(fo, UniqueFirstMap(fb, sb)) ==> x in lms1
    ensures forall x :: x in Gather(so, UniqueSecondMap(fb, sb)) ==> x in lms2
  {
    forall x | x in Gather(fo, DuplicateMap(fb, sb))
      ensures x in lms1
    {
      GatherMembers(fo, DuplicateMap(fb, sb), x);
      var h :| h in fo && h in DuplicateMap(fb, sb) && x in DuplicateMap(fb, sb)[h];
      assert x in fb[h];
      InFile(fb, lms1, h, x);
    }
    forall x | x in Gather(fo, UniqueFirstMap(fb, sb))
      ensures x in lms1
    {
      GatherMembers(fo, UniqueFirstMap(fb, sb), x);
      var h :| h in fo && h in UniqueFirstMap(fb, sb) && x in UniqueFirstMap(fb, sb)[h];
      InFile(fb, lms1, h, x);
    }
    forall x | x in Gather(so, UniqueSecondMap(fb, sb))
      ensures x in lms2
    {
      GatherMembers(so, UniqueSecondMap(fb, sb), x);
      var h :| h in so && h in UniqueSecondMap(fb, sb) && x in UniqueSecondMap(fb, sb)[h];
      assert x in sb[h];
      InFile(sb, lms2, h, x);
    }
  }

  lemma {:induction false} ReversedMultiset<T(!new)>(s: seq<T>)
    ensures multiset(Reversed(s)) == multiset(s)
  {
    if s != [] {
      ReversedMultiset(s[1..]);
      assert s == [s[0]] + s[1..];
    }
  }

  /** A hash of the first file that the second lacks: all its records are unique to the first file. */
  lemma HashOnlyInFirst(fb: map<Digest, seq<LineMeta>>, sb: map<Digest, seq<LineMeta>>, h: Digest)
    requires h in fb && h !in sb
    ensures UniqueFirstMap(fb, sb)[h] == fb[h] && DuplicateMap(fb, sb)[h] == []
    ensures h !in UniqueSecondMap(fb, sb)
    ensures AfterPops(fb, sb)[h] == fb[h]
  {
  }

  /**
   * A hash both files have the same number of times: the first file's
   * records are all duplicates, the second file's are in no list, and
   * neither list is shortened.
   */
  lemma EqualCountAccounting(fb: map<Digest, seq<LineMeta>>, sb: map<Digest, seq<LineMeta>>, h: Digest)
    requires h in fb && h in sb && |fb[h]| == |sb[h]|
    ensures DuplicateMap(fb, sb)[h] == fb[h] && UniqueFirstMap(fb, sb)[h] == []
    ensures h !in UniqueSecondMap(fb, sb)
    ensures AfterPops(fb, sb)[h] == fb[h] && AfterPops(sb, fb)[h] == sb[h]
  {
  }

  /**
   * A hash the files have `a != b` times: `min(a, b)` records are popped off
   * the end of each list; the first file's popped records are duplicates,
   * the second file's leftovers are unique to it, and the first file's
   * leftovers are in no list.
   */
  lemma UnequalCountAccounting(fb: map<Digest, seq<LineMeta>>, sb: map<Digest, seq<LineMeta>>, h: Digest)
    requires h in fb && h in sb && |fb[h]| != |sb[h]|
    ensures var k := Min(|fb[h]|, |sb[h]|);
      && multiset(DuplicateMap(fb, sb)[h]) == multiset(fb[h][|fb[h]| - k..])
      && UniqueFirstMap(fb, sb)[h] == []
      && AfterPops(fb, sb)[h] + fb[h][|fb[h]| - k..] == fb[h]
      && AfterPops(sb, fb)[h] + sb[h][|sb[h]| - k..] == sb[h]
      && (|fb[h]| < |sb[h]| ==> h in UniqueSecondMap(fb, sb) && UniqueSecondMap(fb, sb)[h] == AfterPops(sb, fb)[h])
      && (0 < |sb[h]| < |fb[h]| ==> h !in UniqueSecondMap(fb, sb))
  {
    var k := Min(|fb[h]|, |sb[h]|);
    ReversedMultiset(fb[h][|fb[h]| - k..]);
    assert AfterPops(fb, sb)[h] + fb[h][|fb[h]| - k..] == fb[h];
    assert AfterPops(sb, fb)[h] + sb[h][|sb[h]| - k..] == sb[h];
  }

  /**
   * The pops change the files' own lists: comparing a file that has one
   * line "x" with a file that has it twice pairs one copy (score 50), and
   * leaves the first file without any "x" and the second with one, so that
   * comparing the same two files again finds no duplicate (score 100).
   */
  lemma ComparingAgainDiffers(a: LineMeta, b1: LineMeta, b2: LineMeta)
    requires a.contentHash == b1.contentHash == b2.contentHash
    ensures var h := a.contentHash;
      var fb, sb := map[h := [a]], map[h := [b1, b2]];
      var fb', sb' := AfterPops(fb, sb), AfterPops(sb, fb);
      && Gather([h], DuplicateMap(fb, sb)) == [a]
      && Gather([h], UniqueSecondMap(fb, sb)) == [b1]
      && ScoreOf([a], [], [b1]) == 50
      && fb' == map[h := []] && sb' == map[h := [b1]]
      && Gather([h], DuplicateMap(fb', sb')) == []
      && Gather([h], UniqueSecondMap(fb', sb')) == [b1]
      && ScoreOf([], [], [b1]) == 100
  {
    var h := a.contentHash;
    var fb, sb := map[h := [a]], map[h := [b1, b2]];
    FirstComparison(fb, sb, h, a, b1, b2);
    FirstPops(fb, sb, h, a, b1, b2);
    var fb', sb' := AfterPops(fb, sb), AfterPops(sb, fb);
    SecondComparison(fb', sb', h, b1);
    ScoreIsRoundedPercentage(1, 2);
    ScoreIsRoundedPercentage(1, 1);
  }

  lemma FirstComparison(fb: map<Digest, seq<LineMeta>>, sb: map<Digest, seq<LineMeta>>, h: Digest, a: LineMeta, b1: LineMeta, b2: LineMeta)
    requires h in fb && fb[h] == [a] && h in sb && sb[h] == [b1, b2]
    ensures Gather([h], DuplicateMap(fb, sb)) == [a]
    ensures Gather([h], UniqueSecondMap(fb, sb)) == [b1]
  {
    assert Popped(fb, sb, h) == 1;
    OnePairedCopy(fb, sb, h, a);
    GatherOne(h, DuplicateMap(fb, sb));
    OneLeftCopy(fb, sb, h, b1, b2);
    GatherOne(h, UniqueSecondMap(fb, sb));
  }

  lemma OnePairedCopy(fb: map<Digest, seq<LineMeta>>, sb: map<Digest, seq<LineMeta>>, h: Digest, a: LineMeta)
    requires h in fb && fb[h] == [a] && h in sb && Popped(fb, sb, h) == 1
    ensures h in DuplicateMap(fb, sb) && DuplicateMap(fb, sb)[h] == [a]
  {
    assert Reversed([a]) == [a];
  }

  lemma OneLeftCopy(fb: map<Digest, seq<LineMeta>>, sb: map<Digest, seq<LineMeta>>, h: Digest, b1: LineMeta, b2: LineMeta)
    requires h in fb && |fb[h]| == 1 && h in sb && sb[h] == [b1, b2] && Popped(fb, sb, h) == 1
    ensures h in UniqueSecondMap(fb, sb) && UniqueSecondMap(fb, sb)[h] == [b1]
  {
    assert [b1, b2][..1] == [b1];
  }

  lemma FirstPops(fb: map<Digest, seq<LineMeta>>, sb: map<Digest, seq<LineMeta>>, h: Digest, a: LineMeta, b1: LineMeta, b2: LineMeta)
    requires fb == map[h := [a]] && sb == map[h := [b1, b2]]
    ensures AfterPops(fb, sb) == map[h := []] && AfterPops(sb, fb) == map[h := [b1]]
  {
    assert Popped(fb, sb, h) == 1 && Popped(sb, fb, h) == 1;
    assert [b1, b2][..1] == [b1];
    MapOfOne(AfterPops(fb, sb), h, []);
    MapOfOne(AfterPops(sb, fb), h, [b1]);
  }

  lemma SecondComparison(fb: map<Digest, seq<LineMeta>>, sb: map<Digest, seq<LineMeta>>, h: Digest, b1: LineMeta)
    requires h in fb && fb[h] == [] && h in sb && sb[h] == [b1]
    ensures Gather([h], DuplicateMap(fb, sb)) == []
    ensures Gather([h], UniqueSecondMap(fb, sb)) == [b1]
  {
    assert Popped(fb, sb, h) == 0 && !Dead(fb, sb, h);
    var d, u := DuplicateMap(fb, sb), UniqueSecondMap(fb, sb);
    assert h in d && d[h] == [];
    assert h in u && u[h] == [b1];
    GatherOne(h, d);
    GatherOne(h, u);
  }

  lemma GatherOne(h: Digest, m: map<Digest, seq<LineMeta>>)
    requires h in m
    ensures Gather([h], m) == m[h]
  {
    assert [h][..0] == [];
  }

  lemma MapOfOne(m: map<Digest, seq<LineMeta>>, h: Digest, v: seq<LineMeta>)
    requires m.Keys == {h} && m[h] == v
    ensures m == map[h := v]
  {
  }
}
