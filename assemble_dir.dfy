/** The batch driver: it finds the read files in an input directory, derives
    the set of sample ids from their names, pairs each sample's forward and
    reverse reads by substring markers, and runs the single-sample pipeline
    and a cleanup for each sample in turn. The pipeline and the cleanup are
    recorded as steps of a trace, not modelled. */
module ProkaryoteAssembleDir {
  import opened Wrappers
  import opened Strings
  import opened Sequences
  import opened Paths
  import opened Glob
  import opened ProkaryoteAssemble

  // ---------------------------------------------------------------------------
  // Finding the read files
  // ---------------------------------------------------------------------------

  /** The pattern `retrieve_fastqgz` globs the input directory with. */
  const ReadPattern: string := "*.f*q*"

  predicate IsReadName(name: string)
  {
    Match(ReadPattern, name)
  }

  /** A name contains `.f`, and a `q` somewhere after it. */
  predicate DotFThenQ(name: string)
  {
    exists i, j :: 0 <= i && i + 2 <= j < |name| && name[i] == '.' && name[i + 1] == 'f' && name[j] == 'q'
  }

  /** `.f*q*` matches exactly the names that start with `.f` and hold a later `q`. */
  lemma DotFTailMatch(t: string)
    ensures StarPattern(".f*q*")
    ensures Match(".f*q*", t) <==> |t| >= 2 && t[0] == '.' && t[1] == 'f' && exists m :: 2 <= m < |t| && t[m] == 'q'
  {
    var tail := ".f*q*";
    assert tail[1..] == "f*q*";
    assert tail[1..][1..] == ['*', 'q', '*'];
    if |t| >= 2 {
      StarCharStar('q', t[2..]);
      assert t[1..][1..] == t[2..];
      if exists m :: 0 <= m < |t[2..]| && t[2..][m] == 'q' {
        var m :| 0 <= m < |t[2..]| && t[2..][m] == 'q';
        assert t[m + 2] == 'q';
      }
      if exists m :: 2 <= m < |t| && t[m] == 'q' {
        var m :| 2 <= m < |t| && t[m] == 'q';
        assert t[2..][m - 2] == 'q';
      }
    }
  }

  /** The glob `*.f*q*` keeps exactly the names with a `.f` followed somewhere by
      a `q`: `x.fastq.gz`, `x.fq` and `x.fasta.qual` all match; `x.FASTQ` and
      `x_fastq` do not. */
  lemma ReadPatternMeaning(name: string)
    ensures IsReadName(name) <==> DotFThenQ(name)
  {
    var tail := ".f*q*";
    assert ReadPattern == ['*'] + tail;
    StarMatch(tail, name);
    if IsReadName(name) {
      var k :| 0 <= k <= |name| && Match(tail, name[k..]);
      DotFTailMatch(name[k..]);
      var m :| 2 <= m < |name[k..]| && name[k..][m] == 'q';
      assert name[k] == '.' && name[k + 1] == 'f' && name[k + m] == 'q';
    }
    if DotFThenQ(name) {
      var i, j :| 0 <= i && i + 2 <= j < |name| && name[i] == '.' && name[i + 1] == 'f' && name[j] == 'q';
      DotFTailMatch(name[i..]);
      assert name[i..][j - i] == 'q';
    }
  }

  /** `retrieve_fastqgz`: the entries of the directory listing whose names
      match the glob, in listing order. Only the listing itself is searched:
      the glob does not descend into subdirectories. */
  function RetrieveFastq(listing: seq<string>): (files: seq<string>)
    ensures forall n :: n in files <==> n in listing && IsReadName(n)
    ensures |files| <= |listing|
    ensures Distinct(listing) ==> Distinct(files)
    ensures SubSequence(files, listing)
  {
    if listing == [] then []
    else
      var rest := RetrieveFastq(listing[1..]);
      assert forall n :: n in listing <==> n == listing[0] || n in listing[1..];
      if IsReadName(listing[0]) then
        assert Distinct(listing) ==> listing[0] !in listing[1..];
        assert ([listing[0]] + rest)[1..] == rest;
        [listing[0]] + rest
      else rest
  }

  // ---------------------------------------------------------------------------
  // Sample ids
  // ---------------------------------------------------------------------------

  /** The sample id of a name without `_` is the whole name; that of a name
      starting with `_` is empty. */
  lemma SampleIdEdgeCases(name: string)
    ensures '_' !in name ==> SampleId(name) == name
    ensures name != [] && name[0] == '_' ==> SampleId(name) == ""
  {
    if '_' !in name {
      FirstFieldUnique(name, '_', name);
    }
    if name != [] && name[0] == '_' {
      FirstFieldUnique(name, '_', "");
    }
  }

  /** `retrieve_sampleids`: the sample id of every file, with duplicates removed
      by going through a set. The order of the result is the set's iteration
      order, which nothing fixes, so any order may come out. */
  method RetrieveSampleIds(files: seq<string>) returns (ids: seq<string>)
    ensures Distinct(ids)
    ensures forall id :: id in ids <==> exists f :: f in files && SampleId(f) == id
  {
    var idList: seq<string> := [];
    for i := 0 to |files|
      invariant |idList| == i
      invariant forall k :: 0 <= k < i ==> idList[k] == SampleId(files[k])
    {
      idList := idList + [SampleId(files[i])];
    }
    var unique := set id | id in idList;
    ids := [];
    var remaining := unique;
    while remaining != {}
      invariant remaining <= unique
      invariant Distinct(ids)
      invariant forall id :: id in ids <==> id in unique && id !in remaining
      decreases |remaining|
    {
      var id :| id in remaining;
      ids := ids + [id];
      remaining := remaining - {id};
    }
    forall id | (exists f :: f in files && SampleId(f) == id) ensures id in unique {
      var f :| f in files && SampleId(f) == id;
      var k :| 0 <= k < |files| && files[k] == f;
      assert idList[k] == id;
    }
  }

  // ---------------------------------------------------------------------------
  // Pairing the reads of one sample
  // ---------------------------------------------------------------------------

  datatype ReadPair = ReadPair(fwd: string, rev: string)

  datatype Role = Forward | Reverse

  /** The slot of `get_readpair` a file name fills for a sample: it must
      contain the sample id; then the forward marker makes it the forward read,
      and only failing that (`elif`) the reverse marker the reverse read. */
  predicate HasRole(name: string, sampleId: string, fwdId: string, revId: string, role: Role)
  {
    Contains(name, sampleId) &&
    match role
    case Forward => Contains(name, fwdId)
    case Reverse => !Contains(name, fwdId) && Contains(name, revId)
  }

  /** The file a slot ends up holding: each match overwrites the previous one,
      so it is the last file in list order with that role, if any. */
  function LastWithRole(files: seq<string>, sampleId: string, fwdId: string, revId: string, role: Role): Option<string>
    decreases |files|
  {
    if files == [] then None
    else if HasRole(files[|files| - 1], sampleId, fwdId, revId, role) then Some(files[|files| - 1])
    else LastWithRole(files[..|files| - 1], sampleId, fwdId, revId, role)
  }

  /** A slot stays empty exactly when no file has its role; otherwise it holds
      a file with that role after which no file has it (last match wins). */
  lemma {:induction false} LastWithRoleMeaning(files: seq<string>, sampleId: string, fwdId: string, revId: string, role: Role)
    ensures var r := LastWithRole(files, sampleId, fwdId, revId, role);
            r.None? <==> forall k :: 0 <= k < |files| ==> !HasRole(files[k], sampleId, fwdId, revId, role)
    ensures var r := LastWithRole(files, sampleId, fwdId, revId, role);
            r.Some? ==> exists k :: 0 <= k < |files| && files[k] == r.value && HasRole(files[k], sampleId, fwdId, revId, role) &&
                                    forall m :: k < m < |files| ==> !HasRole(files[m], sampleId, fwdId, revId, role)
    decreases |files|
  {
    if files != [] {
      var n := |files| - 1;
      var init := files[..n];
      assert forall k :: 0 <= k < n ==> files[k] == init[k];
      if !HasRole(files[n], sampleId, fwdId, revId, role) {
        LastWithRoleMeaning(init, sampleId, fwdId, revId, role);
        var r := LastWithRole(init, sampleId, fwdId, revId, role);
        if r.Some? {
          var k :| 0 <= k < |init| && init[k] == r.value && HasRole(init[k], sampleId, fwdId, revId, role) &&
                   forall m :: k < m < |init| ==> !HasRole(init[m], sampleId, fwdId, revId, role);
          assert files[k] == init[k];
        }
      } else {
        assert files[n] == LastWithRole(files, sampleId, fwdId, revId, role).value;
      }
    }
  }

  /** What `get_readpair` returns: a pair when both slots were filled, else nothing. */
  function ReadPairOf(files: seq<string>, sampleId: string, fwdId: string, revId: string): Option<ReadPair>
  {
    var r1 := LastWithRole(files, sampleId, fwdId, revId, Forward);
    var r2 := LastWithRole(files, sampleId, fwdId, revId, Reverse);
    if r1.Some? && r2.Some? then Some(ReadPair(r1.value, r2.value)) else None
  }

  /** A pair comes back exactly when some file fills each slot; its forward
      read contains the sample id and the forward marker, its reverse read the
      sample id and the reverse marker but, because of the `elif`, not the
      forward marker. Each is the last file in list order that qualifies. */
  lemma ReadPairOfMeaning(files: seq<string>, sampleId: string, fwdId: string, revId: string)
    ensures var pair := ReadPairOf(files, sampleId, fwdId, revId);
            (pair.Some? <==>
              (exists k :: 0 <= k < |files| && HasRole(files[k], sampleId, fwdId, revId, Forward)) &&
              (exists k :: 0 <= k < |files| && HasRole(files[k], sampleId, fwdId, revId, Reverse))) &&
            (pair.Some? ==>
              pair.value.fwd in files && Contains(pair.value.fwd, sampleId) && Contains(pair.value.fwd, fwdId) &&
              pair.value.rev in files && Contains(pair.value.rev, sampleId) && Contains(pair.value.rev, revId) &&
              !Contains(pair.value.rev, fwdId))
    ensures var pair := ReadPairOf(files, sampleId, fwdId, revId);
            pair.Some? ==>
              (exists k :: 0 <= k < |files| && files[k] == pair.value.fwd &&
                 forall m :: k < m < |files| ==> !HasRole(files[m], sampleId, fwdId, revId, Forward)) &&
              (exists k :: 0 <= k < |files| && files[k] == pair.value.rev &&
                 forall m :: k < m < |files| ==> !HasRole(files[m], sampleId, fwdId, revId, Reverse))
  {
    var r1 := LastWithRole(files, sampleId, fwdId, revId, Forward);
    var r2 := LastWithRole(files, sampleId, fwdId, revId, Reverse);
    LastWithRoleMeaning(files, sampleId, fwdId, revId, Forward);
    LastWithRoleMeaning(files, sampleId, fwdId, revId, Reverse);
    if r1.Some? && r2.Some? {
      var k1 :| 0 <= k1 < |files| && files[k1] == r1.value && HasRole(files[k1], sampleId, fwdId, revId, Forward) &&
                forall m :: k1 < m < |files| ==> !HasRole(files[m], sampleId, fwdId, revId, Forward);
      var k2 :| 0 <= k2 < |files| && files[k2] == r2.value && HasRole(files[k2], sampleId, fwdId, revId, Reverse) &&
                forall m :: k2 < m < |files| ==> !HasRole(files[m], sampleId, fwdId, revId, Reverse);
    }
  }

  /** `get_readpair`: one pass over the files, overwriting `r1` or `r2` at each match. */
  method GetReadPair(sampleId: string, files: seq<string>, fwdId: string, revId: string) returns (pair: Option<ReadPair>)
    ensures pair == ReadPairOf(files, sampleId, fwdId, revId)
  {
    var r1: Option<string> := None;
    var r2: Option<string> := None;
    for i := 0 to |files|
      invariant r1 == LastWithRole(files[..i], sampleId, fwdId, revId, Forward)
      invariant r2 == LastWithRole(files[..i], sampleId, fwdId, revId, Reverse)
    {
      var f := files[i];
      assert files[..i + 1][..i] == files[..i];
      if Contains(f, sampleId) {
        if Contains(f, fwdId) {
          r1 := Some(f);
        } else if Contains(f, revId) {
          r2 := Some(f);
        }
      }
    }
    assert files[..|files|] == files;
    if r1.Some? && r2.Some? {
      pair := Some(ReadPair(r1.value, r2.value));
    } else {
      pair := None;
    }
  }

  /** With a forward marker that no file name contains, no sample can be paired. */
  lemma UnknownMarkerPairsNothing(files: seq<string>, sampleId: string, fwdId: string, revId: string)
    requires forall k :: 0 <= k < |files| ==> !Contains(files[k], fwdId)
    ensures ReadPairOf(files, sampleId, fwdId, revId).None?
  {
    assert forall k :: 0 <= k < |files| ==> !HasRole(files[k], sampleId, fwdId, revId, Forward);
    ReadPairOfMeaning(files, sampleId, fwdId, revId);
  }

  /** Sample ids are matched as substrings, so a sample whose id occurs inside
      another's (`S1` inside `S10`) competes for that sample's files: each file
      that would fill a slot of the longer id fills the same slot of the
      shorter one. */
  lemma ContainedIdSharesFiles(name: string, sampleId: string, longerId: string, fwdId: string, revId: string, role: Role)
    requires Contains(longerId, sampleId)
    ensures HasRole(name, longerId, fwdId, revId, role) ==> HasRole(name, sampleId, fwdId, revId, role)
  {
    if Contains(name, longerId) {
      ContainsTransitive(name, longerId, sampleId);
    }
  }

  /** So when the last file with a role belongs to the longer id, the shorter
      id's slot ends up holding it too: with `S1_R2` listed before `S10_R2`,
      sample `S1` is paired with `S10`'s reverse read. */
  lemma ContainedIdTakesLastFile(files: seq<string>, sampleId: string, longerId: string, fwdId: string, revId: string, role: Role)
    requires Contains(longerId, sampleId)
    requires files != [] && HasRole(files[|files| - 1], longerId, fwdId, revId, role)
    ensures LastWithRole(files, sampleId, fwdId, revId, role) == Some(files[|files| - 1])
    ensures LastWithRole(files, longerId, fwdId, revId, role) == Some(files[|files| - 1])
  {
    ContainedIdSharesFiles(files[|files| - 1], sampleId, longerId, fwdId, revId, role);
  }

  // ---------------------------------------------------------------------------
  // The batch loop
  // ---------------------------------------------------------------------------

  /** A side effect of `assemble_dir`, in the order it happens. */
  datatype Step =
    | MakeDirs(dir: Path)
    | RunPipeline(fwdReads: Path, revReads: Path, outDir: Path, sampleId: string)
    | CleanUp(dir: Path)

  /** A run either goes through every sample or stops at the first sample whose
      reads cannot be paired: unpacking the `None` that `get_readpair` returns
      raises `TypeError`. */
  datatype Outcome = Completed | UnpackFailed(sampleId: string)

  /** The steps for one paired sample: its output directory `outDir / sampleId`
      is created, the pipeline is run into it, and it is cleaned up. */
  function SampleSteps(inputDir: Path, outDir: Path, sampleId: string, pair: ReadPair): seq<Step>
  {
    var sampleOutDir := Child(outDir, sampleId);
    [MakeDirs(sampleOutDir),
     RunPipeline(Child(inputDir, pair.fwd), Child(inputDir, pair.rev), sampleOutDir, sampleId),
     CleanUp(sampleOutDir)]
  }

  /** What `get_readpair` gives for each sample id, in the order of the ids. */
  function Pairings(files: seq<string>, ids: seq<string>, fwdId: string, revId: string): seq<Option<ReadPair>>
  {
    seq(|ids|, k requires 0 <= k < |ids| => ReadPairOf(files, ids[k], fwdId, revId))
  }

  /** The number of samples, taken in order, that are paired before the
      first one that is not. */
  function PairedPrefix(pairings: seq<Option<ReadPair>>): (n: nat)
    ensures n <= |pairings|
    ensures forall k :: 0 <= k < n ==> pairings[k].Some?
    ensures n < |pairings| ==> pairings[n].None?
    decreases |pairings|
  {
    if pairings == [] || pairings[0].None? then 0
    else
      var n := PairedPrefix(pairings[1..]);
      assert forall k :: 1 <= k < |pairings| ==> pairings[k] == pairings[1..][k - 1];
      1 + n
  }

  /** What the loop over the samples does, given the sample ids in their
      order and what pairing gave for each: the steps of each sample in turn,
      up to the first sample that was not paired, where the run aborts. So the
      run covers the samples paired before the first failure, three steps each,
      and it completes exactly when that is every sample; otherwise it fails on
      the first unpaired one. */
  function BatchRun(inputDir: Path, outDir: Path, ids: seq<string>, pairings: seq<Option<ReadPair>>): (run: (seq<Step>, Outcome))
    requires |ids| == |pairings|
    ensures var n := PairedPrefix(pairings);
            |run.0| == 3 * n && run.1 == if n == |ids| then Completed else UnpackFailed(ids[n])
    decreases |ids|
  {
    if ids == [] then ([], Completed)
    else match pairings[0]
      case None => ([], UnpackFailed(ids[0]))
      case Some(pair) =>
        var rest := BatchRun(inputDir, outDir, ids[1..], pairings[1..]);
        assert forall k :: 1 <= k < |ids| ==> ids[1..][k - 1] == ids[k];
        (SampleSteps(inputDir, outDir, ids[0], pair) + rest.0, rest.1)
  }

  /** One pipeline call per sample, in sample order: the `k`-th block of
      three steps creates `outDir / ids[k]`, runs the pipeline on that sample's
      read pair into it, and cleans it up. */
  lemma {:induction false} BatchRunBlock(inputDir: Path, outDir: Path, ids: seq<string>, pairings: seq<Option<ReadPair>>, k: nat)
    requires |ids| == |pairings| && k < PairedPrefix(pairings)
    ensures BatchRun(inputDir, outDir, ids, pairings).0[3 * k .. 3 * k + 3] ==
            SampleSteps(inputDir, outDir, ids[k], pairings[k].value)
    decreases k
  {
    assert pairings[0].Some?;
    var first := SampleSteps(inputDir, outDir, ids[0], pairings[0].value);
    var rest := BatchRun(inputDir, outDir, ids[1..], pairings[1..]).0;
    assert BatchRun(inputDir, outDir, ids, pairings).0 == first + rest;
    assert |first| == 3;
    if k == 0 {
      SliceOfAppend(first, rest, 0, 3);
    } else {
      var j := k - 1;
      assert PairedPrefix(pairings) == 1 + PairedPrefix(pairings[1..]);
      BatchRunBlock(inputDir, outDir, ids[1..], pairings[1..], j);
      SliceAfterPrefix(first, rest, 3 * j, 3 * j + 3);
      assert 3 * k == |first| + 3 * j;
      assert ids[1..][j] == ids[k];
      assert pairings[1..][j] == pairings[k];
    }
  }

  /** Nothing fixes the order of the sample ids, and it decides how much work
      is done before an unpaired sample stops the run: with one paired sample
      `a` and one unpaired sample `b`, taking `a` first runs its pipeline and
      then fails on `b`, while taking `b` first fails before any pipeline runs. */
  lemma OrderDecidesWork(inputDir: Path, outDir: Path, files: seq<string>, a: string, b: string, fwdId: string, revId: string)
    requires ReadPairOf(files, a, fwdId, revId).Some? && ReadPairOf(files, b, fwdId, revId).None?
    ensures BatchRun(inputDir, outDir, [a, b], Pairings(files, [a, b], fwdId, revId)) ==
            (SampleSteps(inputDir, outDir, a, ReadPairOf(files, a, fwdId, revId).value), UnpackFailed(b))
    ensures BatchRun(inputDir, outDir, [b, a], Pairings(files, [b, a], fwdId, revId)) == ([], UnpackFailed(b))
  {
    var ab := Pairings(files, [a, b], fwdId, revId);
    assert ab[0] == ReadPairOf(files, a, fwdId, revId);
    assert ab[1..] == [None] && [a, b][1..] == [b];
    assert BatchRun(inputDir, outDir, [b], [None]) == ([], UnpackFailed(b));
    var first := SampleSteps(inputDir, outDir, a, ab[0].value);
    assert first + [] == first;
    assert Pairings(files, [b, a], fwdId, revId)[0].None?;
  }

  /** `assemble_dir`'s loop over the sample ids, in their order: each sample's
      reads are paired and its steps recorded after `before`, until a sample
      cannot be paired. */
  method ProcessSamples(inputDir: Path, outDir: Path, files: seq<string>, sampleIds: seq<string>,
                        fwdId: string, revId: string, before: seq<Step>)
    returns (steps: seq<Step>, outcome: Outcome)
    ensures var run := BatchRun(inputDir, outDir, sampleIds, Pairings(files, sampleIds, fwdId, revId));
            steps == before + run.0 && outcome == run.1
  {
    ghost var pairings := Pairings(files, sampleIds, fwdId, revId);
    ghost var run := BatchRun(inputDir, outDir, sampleIds, pairings);
    steps := before;
    var i := 0;
    while i < |sampleIds|
      invariant 0 <= i <= |sampleIds|
      invariant before + run.0 == steps + BatchRun(inputDir, outDir, sampleIds[i..], pairings[i..]).0
      invariant run.1 == BatchRun(inputDir, outDir, sampleIds[i..], pairings[i..]).1
    {
      var sampleId := sampleIds[i];
      assert sampleIds[i..][0] == sampleId && sampleIds[i..][1..] == sampleIds[i + 1..];
      assert pairings[i..][0] == pairings[i] && pairings[i..][1..] == pairings[i + 1..];
      var pair := GetReadPair(sampleId, files, fwdId, revId);
      if pair.None? {
        outcome := UnpackFailed(sampleId);
        return;
      }
      var sampleOutDir := Child(outDir, sampleId);
      steps := steps + [MakeDirs(sampleOutDir),
                        RunPipeline(Child(inputDir, pair.value.fwd), Child(inputDir, pair.value.rev), sampleOutDir, sampleId),
                        CleanUp(sampleOutDir)];
      i := i + 1;
    }
    assert sampleIds[i..] == [] && pairings[i..] == [];
    outcome := Completed;
  }

  /** `assemble_dir`: creates `outDir`, finds the read files and the sample
      ids, and runs the loop over the samples. */
  method AssembleDir(inputDir: Path, outDir: Path, listing: seq<string>, fwdId: string, revId: string)
    returns (sampleIds: seq<string>, steps: seq<Step>, outcome: Outcome)
    ensures Distinct(sampleIds)
    ensures forall id :: id in sampleIds <==> exists f :: f in RetrieveFastq(listing) && SampleId(f) == id
    ensures var run := BatchRun(inputDir, outDir, sampleIds, Pairings(RetrieveFastq(listing), sampleIds, fwdId, revId));
            steps == [MakeDirs(outDir)] + run.0 && outcome == run.1
  {
    var files := RetrieveFastq(listing);
    sampleIds := RetrieveSampleIds(files);
    steps, outcome := ProcessSamples(inputDir, outDir, files, sampleIds, fwdId, revId, [MakeDirs(outDir)]);
  }
}
