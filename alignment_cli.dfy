/**
 * `parse_alignment_cli_args` of `soil/utils/cli.py`: turns the paired
 * FASTQ paths of one library into three dictionaries that share their
 * keys (first files, second files, read-group records).  Python's
 * exceptions for a missing or too short read-group id list are the
 * `Err` results.
 */
module AlignmentCli {
  import opened Wrappers
  import opened PyStr

  /** The placeholder for a missing library or sample id, spelled as the source spells it. */
  const Unknown: string := "UKNOWN"

  /** The read-group record `{'ID': ..., 'LB': ..., 'SM': ...}`. */
  datatype ReadGroup = ReadGroup(id: string, library: string, sample: string)

  /** The three dictionaries the function returns. */
  datatype AlignmentArgs = AlignmentArgs(
    fastqFiles1: map<string, string>,
    fastqFiles2: map<string, string>,
    readGroupInfo: map<string, ReadGroup>)

  datatype CliError =
    | TypeError   // `len(None)`: no read-group id list although there is a FASTQ pair
    | IndexError  // a non-empty read-group id list shorter than the FASTQ pairs

  const NoArgs: AlignmentArgs := AlignmentArgs(map[], map[], map[])

  /** `os.path.basename` for POSIX paths: the text after the last '/'. */
  function Basename(path: string): (name: string)
    ensures '/' !in name
    ensures |name| <= |path| && path[|path| - |name|..] == name
  {
    match LastIndexOf(path, '/')
    case None => path
    case Some(i) => path[i + 1..]
  }

  /** `os.path.basename(f1).split('.')[0]`: the file name up to its first '.'. */
  function DefaultKey(f1: string): (key: string)
    ensures '.' !in key && '/' !in key
    ensures key <= Basename(f1)
  {
    SplitFirstIsPrefix(Basename(f1), '.');
    Split(Basename(f1), '.')[0]
  }

  /** A base name shorter than its path starts right after a '/'. */
  lemma BasenameAfterSlash(path: string)
    ensures |Basename(path)| < |path| ==> path[|path| - |Basename(path)| - 1] == '/'
  {
  }

  /** A key shorter than the base name stops at a '.': the first one, since the key holds none. */
  lemma DefaultKeyStopsAtDot(f1: string)
    ensures |DefaultKey(f1)| < |Basename(f1)| ==> Basename(f1)[|DefaultKey(f1)|] == '.'
  {
    SplitFirstStops(Basename(f1), '.');
  }

  /** The key `reads/s1.fq` gets. */
  lemma DefaultKeyExample(f1: string, dir: string, name: string, ext: string)
    requires dir == "reads" && name == "s1" && ext == "fq" && f1 == dir + "/" + name + "." + ext
    ensures DefaultKey(f1) == "s1"
  {
    var base := name + "." + ext;
    assert f1 == dir + ['/'] + base;
    assert '/' !in base;
    LastIndexOfSplit(dir, '/', base);
    assert f1[|dir| + 1..] == base;
    assert base == name + ['.'] + ext;
    assert '.' !in name;
    SplitFirstPiece(name, '.', ext);
  }

  /** The key of pair `idx`: its read-group id if ids are given, otherwise `DefaultKey` of its first file. */
  function PairKey(fastqFiles: seq<(string, string)>, readGroupIds: seq<string>, idx: nat): string
    requires idx < |fastqFiles| && (|readGroupIds| > 0 ==> idx < |readGroupIds|)
  {
    if |readGroupIds| > 0 then readGroupIds[idx] else DefaultKey(fastqFiles[idx].0)
  }

  predicate IdsCover(fastqFiles: seq<(string, string)>, readGroupIds: seq<string>) {
    |readGroupIds| == 0 || |fastqFiles| <= |readGroupIds|
  }

  /** One iteration of the loop: store the pair under `key` in all three dictionaries. */
  function Store(a: AlignmentArgs, key: string, pair: (string, string), library: string, sample: string): (b: AlignmentArgs)
    ensures b.fastqFiles1.Keys == a.fastqFiles1.Keys + {key}
    ensures b.fastqFiles2.Keys == a.fastqFiles2.Keys + {key}
    ensures b.readGroupInfo.Keys == a.readGroupInfo.Keys + {key}
    ensures b.fastqFiles1[key] == pair.0 && b.fastqFiles2[key] == pair.1 && b.readGroupInfo[key] == ReadGroup(key, library, sample)
    ensures forall k :: k != key && k in a.fastqFiles1 ==> b.fastqFiles1[k] == a.fastqFiles1[k]
    ensures forall k :: k != key && k in a.fastqFiles2 ==> b.fastqFiles2[k] == a.fastqFiles2[k]
    ensures forall k :: k != key && k in a.readGroupInfo ==> b.readGroupInfo[k] == a.readGroupInfo[k]
  {
    AlignmentArgs(
      a.fastqFiles1[key := pair.0],
      a.fastqFiles2[key := pair.1],
      a.readGroupInfo[key := ReadGroup(key, library, sample)])
  }

  /** The dictionaries after the loop has stored every pair, a later pair overwriting an earlier one with the same key. */
  function Fill(fastqFiles: seq<(string, string)>, readGroupIds: seq<string>, library: string, sample: string): AlignmentArgs
    requires IdsCover(fastqFiles, readGroupIds)
    decreases |fastqFiles|
  {
    if |fastqFiles| == 0 then NoArgs
    else
      var n := |fastqFiles| - 1;
      Store(Fill(fastqFiles[..n], readGroupIds, library, sample), PairKey(fastqFiles, readGroupIds, n), fastqFiles[n], library, sample)
  }

  /** `parse_alignment_cli_args` as a value. */
  function ParsedArgs(fastqFiles: seq<(string, string)>, libraryId: Option<string>,
                      readGroupIds: Option<seq<string>>, sampleId: Option<string>): Result<AlignmentArgs, CliError>
  {
    if |fastqFiles| == 0 then Ok(NoArgs)
    else if readGroupIds.None? then Err(TypeError)
    else if 0 < |readGroupIds.value| < |fastqFiles| then Err(IndexError)
    else Ok(Fill(fastqFiles, readGroupIds.value, libraryId.GetOr(Unknown), sampleId.GetOr(Unknown)))
  }

  /** The keys of all pairs. */
  function PairKeys(fastqFiles: seq<(string, string)>, readGroupIds: seq<string>): set<string>
    requires IdsCover(fastqFiles, readGroupIds)
  {
    set i | 0 <= i < |fastqFiles| :: PairKey(fastqFiles, readGroupIds, i)
  }

  lemma PairKeyPrefix(fastqFiles: seq<(string, string)>, readGroupIds: seq<string>, n: nat, i: nat)
    requires n <= |fastqFiles| && i < n && IdsCover(fastqFiles, readGroupIds)
    ensures PairKey(fastqFiles[..n], readGroupIds, i) == PairKey(fastqFiles, readGroupIds, i)
  {
    assert fastqFiles[..n][i] == fastqFiles[i];
  }

  lemma PairKeysSnoc(fastqFiles: seq<(string, string)>, readGroupIds: seq<string>)
    requires IdsCover(fastqFiles, readGroupIds) && |fastqFiles| > 0
    ensures PairKeys(fastqFiles, readGroupIds)
         == PairKeys(fastqFiles[..|fastqFiles| - 1], readGroupIds) + {PairKey(fastqFiles, readGroupIds, |fastqFiles| - 1)}
  {
    var n := |fastqFiles| - 1;
    var init := fastqFiles[..n];
    var key := PairKey(fastqFiles, readGroupIds, n);
    forall i | 0 <= i < n ensures PairKey(init, readGroupIds, i) == PairKey(fastqFiles, readGroupIds, i) {
      PairKeyPrefix(fastqFiles, readGroupIds, n, i);
    }
    forall k | k in PairKeys(fastqFiles, readGroupIds) ensures k in PairKeys(init, readGroupIds) + {key} {
      var i :| 0 <= i < |fastqFiles| && PairKey(fastqFiles, readGroupIds, i) == k;
      if i < n {
        assert PairKey(init, readGroupIds, i) == k;
      }
    }
    forall k | k in PairKeys(init, readGroupIds) ensures k in PairKeys(fastqFiles, readGroupIds) {
      var i :| 0 <= i < n && PairKey(init, readGroupIds, i) == k;
      assert PairKey(fastqFiles, readGroupIds, i) == k;
    }
  }

  /** The three dictionaries have the same keys: the keys of the pairs. */
  lemma {:induction false} FillKeys(fastqFiles: seq<(string, string)>, readGroupIds: seq<string>, library: string, sample: string)
    requires IdsCover(fastqFiles, readGroupIds)
    ensures Fill(fastqFiles, readGroupIds, library, sample).fastqFiles1.Keys == PairKeys(fastqFiles, readGroupIds)
    ensures Fill(fastqFiles, readGroupIds, library, sample).fastqFiles2.Keys == PairKeys(fastqFiles, readGroupIds)
    ensures Fill(fastqFiles, readGroupIds, library, sample).readGroupInfo.Keys == PairKeys(fastqFiles, readGroupIds)
    decreases |fastqFiles|
  {
    if |fastqFiles| > 0 {
      var n := |fastqFiles| - 1;
      FillKeys(fastqFiles[..n], readGroupIds, library, sample);
      PairKeysSnoc(fastqFiles, readGroupIds);
    }
  }

  /** Every read-group record is `{'ID': key, 'LB': library, 'SM': sample}`. */
  lemma {:induction false} FillReadGroups(fastqFiles: seq<(string, string)>, readGroupIds: seq<string>, library: string, sample: string)
    requires IdsCover(fastqFiles, readGroupIds)
    ensures forall k :: k in Fill(fastqFiles, readGroupIds, library, sample).readGroupInfo ==>
      Fill(fastqFiles, readGroupIds, library, sample).readGroupInfo[k] == ReadGroup(k, library, sample)
    decreases |fastqFiles|
  {
    if |fastqFiles| > 0 {
      FillReadGroups(fastqFiles[..|fastqFiles| - 1], readGroupIds, library, sample);
    }
  }

  /** Pair `idx` is what its key maps to unless a later pair has the same key: the last pair with a key wins. */
  lemma {:induction false} FillLastWins(fastqFiles: seq<(string, string)>, readGroupIds: seq<string>,
                                        library: string, sample: string, idx: nat)
    requires IdsCover(fastqFiles, readGroupIds) && idx < |fastqFiles|
    requires forall j :: idx < j < |fastqFiles| ==> PairKey(fastqFiles, readGroupIds, j) != PairKey(fastqFiles, readGroupIds, idx)
    ensures PairKey(fastqFiles, readGroupIds, idx) in Fill(fastqFiles, readGroupIds, library, sample).fastqFiles1
    ensures PairKey(fastqFiles, readGroupIds, idx) in Fill(fastqFiles, readGroupIds, library, sample).fastqFiles2
    ensures Fill(fastqFiles, readGroupIds, library, sample).fastqFiles1[PairKey(fastqFiles, readGroupIds, idx)] == fastqFiles[idx].0
    ensures Fill(fastqFiles, readGroupIds, library, sample).fastqFiles2[PairKey(fastqFiles, readGroupIds, idx)] == fastqFiles[idx].1
    decreases |fastqFiles|
  {
    var n := |fastqFiles| - 1;
    var init := fastqFiles[..n];
    var a := Fill(init, readGroupIds, library, sample);
    var last := PairKey(fastqFiles, readGroupIds, n);
    var b := Store(a, last, fastqFiles[n], library, sample);
    assert Fill(fastqFiles, readGroupIds, library, sample) == b;
    if idx == n {
      assert b.fastqFiles1[last] == fastqFiles[n].0 && b.fastqFiles2[last] == fastqFiles[n].1;
    } else {
      var key := PairKey(fastqFiles, readGroupIds, idx);
      assert last != key;
      PairKeyPrefix(fastqFiles, readGroupIds, n, idx);
      forall j | idx < j < n ensures PairKey(init, readGroupIds, j) != PairKey(init, readGroupIds, idx) {
        PairKeyPrefix(fastqFiles, readGroupIds, n, j);
      }
      FillLastWins(init, readGroupIds, library, sample, idx);
      assert init[idx] == fastqFiles[idx];
      assert key in a.fastqFiles1 && a.fastqFiles1[key] == fastqFiles[idx].0;
      assert key in a.fastqFiles2 && a.fastqFiles2[key] == fastqFiles[idx].1;
      assert b.fastqFiles1[key] == a.fastqFiles1[key] && b.fastqFiles2[key] == a.fastqFiles2[key];
    }
  }

  /**
   * The call fails exactly when there are pairs and no id list (a `TypeError`)
   * or a non-empty id list shorter than the pairs (an `IndexError`).  On
   * success the three dictionaries have exactly the pair keys, and each read
   * group is its key with the library and sample, `UKNOWN` where not given.
   */
  lemma ParsedArgsOutcome(fastqFiles: seq<(string, string)>, libraryId: Option<string>,
                          readGroupIds: Option<seq<string>>, sampleId: Option<string>)
    ensures ParsedArgs(fastqFiles, libraryId, readGroupIds, sampleId) == Err(TypeError)
        <==> |fastqFiles| > 0 && readGroupIds.None?
    ensures ParsedArgs(fastqFiles, libraryId, readGroupIds, sampleId) == Err(IndexError)
        <==> |fastqFiles| > 0 && readGroupIds.Some? && 0 < |readGroupIds.value| < |fastqFiles|
    ensures ParsedArgs(fastqFiles, libraryId, readGroupIds, sampleId).Ok? ==>
      var args := ParsedArgs(fastqFiles, libraryId, readGroupIds, sampleId).value;
      var ids := readGroupIds.GetOr([]);
      IdsCover(fastqFiles, ids) &&
      args.fastqFiles1.Keys == PairKeys(fastqFiles, ids) &&
      args.fastqFiles2.Keys == PairKeys(fastqFiles, ids) &&
      args.readGroupInfo.Keys == PairKeys(fastqFiles, ids) &&
      forall k :: k in args.readGroupInfo ==>
        args.readGroupInfo[k] == ReadGroup(k, libraryId.GetOr(Unknown), sampleId.GetOr(Unknown))
  {
    var ids := readGroupIds.GetOr([]);
    var library := libraryId.GetOr(Unknown);
    var sample := sampleId.GetOr(Unknown);
    if |fastqFiles| == 0 {
      assert PairKeys(fastqFiles, ids) == {};
    } else if readGroupIds.Some? && IdsCover(fastqFiles, ids) {
      FillKeys(fastqFiles, ids, library, sample);
      FillReadGroups(fastqFiles, ids, library, sample);
    }
  }

  /** `parse_alignment_cli_args`: one pass over the pairs, storing each under its key (cli.py:114-147). */
  method ParseAlignmentCliArgs(fastqFiles: seq<(string, string)>, libraryId: Option<string>,
                               readGroupIds: Option<seq<string>>, sampleId: Option<string>)
    returns (result: Result<AlignmentArgs, CliError>)
    ensures result == ParsedArgs(fastqFiles, libraryId, readGroupIds, sampleId)
  {
    var fastqFiles1: map<string, string> := map[];
    var fastqFiles2: map<string, string> := map[];
    var readGroupInfo: map<string, ReadGroup> := map[];
    var library := libraryId.GetOr(Unknown);
    var sample := sampleId.GetOr(Unknown);
    ghost var ids := readGroupIds.GetOr([]);
    for idx := 0 to |fastqFiles|
      invariant readGroupIds.None? ==> idx == 0
      invariant |ids| == 0 || idx <= |ids|
      invariant AlignmentArgs(fastqFiles1, fastqFiles2, readGroupInfo) == Fill(fastqFiles[..idx], ids, library, sample)
    {
      if readGroupIds.None? {
        return Err(TypeError);
      }
      var key: string;
      if |readGroupIds.value| > 0 {
        if idx >= |readGroupIds.value| {
          return Err(IndexError);
        }
        key := readGroupIds.value[idx];
      } else {
        key := DefaultKey(fastqFiles[idx].0);
      }
      assert fastqFiles[..idx + 1][..idx] == fastqFiles[..idx];
      assert key == PairKey(fastqFiles[..idx + 1], ids, idx);
      fastqFiles1 := fastqFiles1[key := fastqFiles[idx].0];
      fastqFiles2 := fastqFiles2[key := fastqFiles[idx].1];
      readGroupInfo := readGroupInfo[key := ReadGroup(key, library, sample)];
      assert AlignmentArgs(fastqFiles1, fastqFiles2, readGroupInfo) == Fill(fastqFiles[..idx + 1], ids, library, sample);
    }
    assert fastqFiles[..|fastqFiles|] == fastqFiles;
    return Ok(AlignmentArgs(fastqFiles1, fastqFiles2, readGroupInfo));
  }
}
