/** The file-name logic of the single-sample assembler: the sample id taken
    from a read file's name, the name of the file each pipeline stage writes
    into the output directory, and the entries each cleanup routine deletes.
    The stages' external tools are not modelled; only the names they are given
    and the names the pipeline expects back are. */
module ProkaryoteAssemble {
  import opened Wrappers
  import opened Strings
  import opened Sequences
  import opened Paths

  /** The sample id in a read file's name: the text before its first `_`. */
  function SampleId(name: string): string
  {
    FirstField(name, '_')
  }

  /** `get_id`: the shared sample id of the two read files, or nothing (the
      source falls off the end and returns `None`) when they disagree. */
  function GetId(fwdReads: Path, revReads: Path): (id: Option<string>)
    ensures id.Some? <==> SampleId(Name(fwdReads)) == SampleId(Name(revReads))
    ensures id.Some? ==> id.value <= Name(fwdReads) && id.value <= Name(revReads) && '_' !in id.value
    ensures id.Some? && id.value != Name(fwdReads) ==> Name(fwdReads)[|id.value|] == '_'
    ensures id.Some? && id.value != Name(revReads) ==> Name(revReads)[|id.value|] == '_'
  {
    var element1 := SampleId(Name(fwdReads));
    var element2 := SampleId(Name(revReads));
    if element1 == element2 then Some(element1) else None
  }

  // ---------------------------------------------------------------------------
  // Names of the files written by each pipeline stage
  // ---------------------------------------------------------------------------

  /** `call_repair`: the repaired reads keep their names, inside `outDir`. */
  function CallRepair(fwdReads: Path, revReads: Path, outDir: Path): (r: (Path, Path))
    ensures Name(fwdReads) != "" && Name(fwdReads) != "." ==>
              |r.0| == |outDir| + 1 && r.0[..|outDir|] == outDir && Name(r.0) == Name(fwdReads)
    ensures Name(revReads) != "" && Name(revReads) != "." ==>
              |r.1| == |outDir| + 1 && r.1[..|outDir|] == outDir && Name(r.1) == Name(revReads)
  {
    (Child(outDir, Name(fwdReads)), Child(outDir, Name(revReads)))
  }

  function TrimmedName(name: string): string
  {
    ReplaceAll(name, ".fastq.gz", ".cleaned.fastq.gz")
  }

  function FilteredName(name: string): string
  {
    ReplaceAll(name, ".fastq.gz", ".filtered.fastq.gz")
  }

  function CorrectedName(name: string): string
  {
    ReplaceAll(name, ".filtered.", ".corrected.")
  }

  /** `bbduk_trim_adapters`: the adapter-trimmed reads. */
  function BbdukTrimAdapters(fwdReads: Path, revReads: Path, outDir: Path): (Path, Path)
  {
    (Child(outDir, TrimmedName(Name(fwdReads))), Child(outDir, TrimmedName(Name(revReads))))
  }

  /** `bbduk_qc_filtering`: the quality-filtered reads. */
  function BbdukQcFiltering(fwdReads: Path, revReads: Path, outDir: Path): (Path, Path)
  {
    (Child(outDir, FilteredName(Name(fwdReads))), Child(outDir, FilteredName(Name(revReads))))
  }

  /** `call_bbduk`: trimming, then filtering of the trimmed reads. */
  function CallBbduk(fwdReads: Path, revReads: Path, outDir: Path): (Path, Path)
  {
    var trimmed := BbdukTrimAdapters(fwdReads, revReads, outDir);
    BbdukQcFiltering(trimmed.0, trimmed.1, outDir)
  }

  /** `call_tadpole`: the error-corrected reads. */
  function CallTadpole(fwdReads: Path, revReads: Path, outDir: Path): (Path, Path)
  {
    (Child(outDir, CorrectedName(Name(fwdReads))), Child(outDir, CorrectedName(Name(revReads))))
  }

  /** `call_skesa`: the contigs file of the sample. */
  function CallSkesa(outDir: Path, sampleId: string): Path
  {
    Child(outDir, sampleId + ".contigs.fa")
  }

  /** `call_bbmap`: when the alignment `outbam` already exists it is returned
      as it is; otherwise the mapping is run and the sorted alignment that the
      generated script writes is returned. `with_suffix` raises on an empty name. */
  function CallBbmap(outDir: Path, assembly: Path, alreadyMapped: bool): Path
    requires Name(assembly) != ""
  {
    var outbam := Child(outDir, WithSuffix(Name(assembly), ".bam"));
    if alreadyMapped then outbam
    else Child(outDir, ReplaceAll(Name(outbam), ".bam", "_sorted.bam"))
  }

  /** Line 112 of `assembly_pipeline`: where the polished assembly is moved to. */
  function PilonDestination(outDir: Path, polished: Path): Path
  {
    Child(outDir, ReplaceAll(Name(polished), ".fasta", ".pilon.fasta"))
  }

  /** Every file name `assembly_pipeline` derives, stage by stage. */
  datatype PipelineFiles = PipelineFiles(
    repaired: (Path, Path),
    filtered: (Path, Path),
    corrected: (Path, Path),
    assembly: Path,
    alignment: Path,
    polishedDestination: Path)

  /** `assembly_pipeline`, names only. `polished` is the first `*.fasta` that
      pilon left in `outDir/pilon`, which depends on the filesystem; `alreadyMapped`
      says whether the alignment existed before `call_bbmap`. */
  function AssemblyPipeline(fwdReads: Path, revReads: Path, outDir: Path, sampleId: string,
                            alreadyMapped: bool, polished: Path): PipelineFiles
  {
    var repaired := CallRepair(fwdReads, revReads, outDir);
    var filtered := CallBbduk(repaired.0, repaired.1, outDir);
    var corrected := CallTadpole(filtered.0, filtered.1, outDir);
    var assembly := CallSkesa(outDir, sampleId);
    assert Name(assembly) == sampleId + ".contigs.fa";
    var alignment := CallBbmap(outDir, assembly, alreadyMapped);
    PipelineFiles(repaired, filtered, corrected, assembly, alignment, PilonDestination(outDir, polished))
  }

  // ---------------------------------------------------------------------------
  // Properties of the derived names
  // ---------------------------------------------------------------------------

  /** A name without a dot, so no marker starting with `.` can begin inside it. */
  predicate DotFree(s: string)
  {
    '.' !in s
  }

  /** A name that `pathlib` does not drop is the name of the joined path. */
  lemma NameOfChild(outDir: Path, name: string)
    requires name != "" && name != "."
    ensures Name(Child(outDir, name)) == name
  {
  }

  /** A name without `.fastq.gz` comes back unchanged from trimming and filtering. */
  lemma UnmatchedNamesUnchanged(name: string)
    requires !Contains(name, ".fastq.gz")
    ensures TrimmedName(name) == name && FilteredName(name) == name
  {
    ReplaceAllAbsent(name, ".fastq.gz", ".cleaned.fastq.gz");
    ReplaceAllAbsent(name, ".fastq.gz", ".filtered.fastq.gz");
  }

  /** A dot-free stem, optionally followed by `.` and a word that does not
      begin like the second character of the `.`-led marker `pat`. */
  lemma StemAndWord(stem: string, word: string, pat: string)
    requires DotFree(stem) && |pat| >= 2 && pat[0] == '.'
    requires word == [] || (word[0] == '.' && HeadsNotFollowed(word, pat))
    ensures HeadsNotFollowed(stem + word, pat)
  {
    assert HeadsNotFollowed(stem, pat);
    HeadsNotFollowedConcat(stem, word, pat);
  }

  /** The marker literals of the trimming and filtering stages, glued
      together; kept apart so that the name lemmas reason about short pieces. */
  lemma CleanedPieces()
    ensures ".cleaned" + ".fastq.gz" == ".cleaned.fastq.gz"
    ensures ".cleaned" + ".filtered.fastq.gz" == ".cleaned.filtered.fastq.gz"
  {
  }

  /** The same for the marker literals of the tadpole stage. */
  lemma CorrectedPieces()
    ensures ".cleaned" + ".filtered." + "fastq.gz" == ".cleaned.filtered.fastq.gz"
    ensures ".cleaned" + ".corrected." + "fastq.gz" == ".cleaned.corrected.fastq.gz"
  {
  }

  /** Regrouping a name built from a stem and three pieces. */
  lemma Concat4(a: string, b: string, c: string, d: string, bcd: string)
    requires b + c + d == bcd
    ensures a + b + c + d == a + bcd
  {
    assert a + b + c + d == a + (b + c + d);
  }

  /** Gluing a name together from pieces, with the empty tail that a single
      replacement leaves. */
  lemma Concat3(a: string, b: string, c: string, bc: string)
    requires b + c == bc
    ensures a + b + c + [] == a + bc
  {
    assert a + b + c == a + (b + c);
  }

  /** `p + target + rest` with `target` occurring only where shown. */
  lemma ReplaceOnce(p: string, target: string, rest: string, repl: string)
    requires |target| >= 2 && HeadsNotFollowed(p, target) && !Contains(rest, target)
    ensures ReplaceAll(p + target + rest, target, repl) == p + repl + rest
  {
    assert p + target + rest == p + (target + rest);
    HeadsNotFollowedNoOccurrence(p, target + rest, target);
    ReplaceAllOnce(p, target, rest, repl);
  }

  /** `stem.fastq.gz` is trimmed to `stem.cleaned.fastq.gz`. */
  lemma TrimmedNameOfReads(stem: string)
    requires DotFree(stem)
    ensures TrimmedName(stem + ".fastq.gz") == stem + ".cleaned.fastq.gz"
  {
    StemAndWord(stem, [], ".fastq.gz");
    assert stem + [] == stem;
    ReplaceOnce(stem, ".fastq.gz", [], ".cleaned.fastq.gz");
    assert stem + ".fastq.gz" + [] == stem + ".fastq.gz";
    assert stem + ".cleaned.fastq.gz" + [] == stem + ".cleaned.fastq.gz";
  }

  /** `stem.cleaned.fastq.gz` is filtered to `stem.cleaned.filtered.fastq.gz`. */
  lemma FilteredNameOfTrimmed(stem: string)
    requires DotFree(stem)
    ensures FilteredName(stem + ".cleaned.fastq.gz") == stem + ".cleaned.filtered.fastq.gz"
  {
    var p := stem + ".cleaned";
    var word := ".cleaned";
    forall i | 0 <= i < |word| && word[i] == '.' ensures i + 1 < |word| && word[i + 1] != 'f' {
      assert word[i + 1] == 'c';
    }
    StemAndWord(stem, word, ".fastq.gz");
    assert !Contains([], ".fastq.gz");
    ReplaceOnce(p, ".fastq.gz", [], ".filtered.fastq.gz");
    CleanedPieces();
    Concat3(stem, ".cleaned", ".fastq.gz", ".cleaned.fastq.gz");
    Concat3(stem, ".cleaned", ".filtered.fastq.gz", ".cleaned.filtered.fastq.gz");
  }

  /** `stem.cleaned.filtered.fastq.gz` is corrected to `stem.cleaned.corrected.fastq.gz`. */
  lemma CorrectedNameOfFiltered(stem: string)
    requires DotFree(stem)
    ensures CorrectedName(stem + ".cleaned.filtered.fastq.gz") == stem + ".cleaned.corrected.fastq.gz"
  {
    var p := stem + ".cleaned";
    StemAndWord(stem, ".cleaned", ".filtered.");
    assert 'i' !in "fastq.gz";
    MissingCharNotContained("fastq.gz", ".filtered.", 2);
    ReplaceOnce(p, ".filtered.", "fastq.gz", ".corrected.");
    CorrectedPieces();
    Concat4(stem, ".cleaned", ".filtered.", "fastq.gz", ".cleaned.filtered.fastq.gz");
    Concat4(stem, ".cleaned", ".corrected.", "fastq.gz", ".cleaned.corrected.fastq.gz");
  }

  /** For a sample `S`: the contigs are `S.contigs.fa`, the alignment is
      `S.contigs.bam` (whatever `S` is), the sorted alignment `S.contigs_sorted.bam`
      and the polished assembly `S.fasta` is moved to `S.pilon.fasta`. */
  lemma SampleOutputNames(outDir: Path, sampleId: string)
    requires DotFree(sampleId)
    ensures Name(CallSkesa(outDir, sampleId)) == sampleId + ".contigs.fa"
    ensures CallBbmap(outDir, CallSkesa(outDir, sampleId), true) == Child(outDir, sampleId + ".contigs.bam")
    ensures CallBbmap(outDir, CallSkesa(outDir, sampleId), false) == Child(outDir, sampleId + ".contigs_sorted.bam")
    ensures PilonDestination(outDir, Child(outDir + ["pilon"], sampleId + ".fasta")) == Child(outDir, sampleId + ".pilon.fasta")
  {
    var contigs := sampleId + ".contigs.fa";
    NameOfChild(outDir, contigs);
    BamName(sampleId);
    SortedBamName(sampleId);
    NameOfChild(outDir, sampleId + ".contigs.bam");
    PilonName(sampleId);
    NameOfChild(outDir + ["pilon"], sampleId + ".fasta");
  }

  /** The names `assembly_pipeline` derives for reads `fwdStem.fastq.gz` and
      `revStem.fastq.gz` of sample `S`, when pilon leaves its result as
      `pilon/S.fasta`: the corrected reads, the contigs, the alignment and the
      final `S.pilon.fasta` all land in `outDir`. */
  lemma PipelineNames(fwdReads: Path, revReads: Path, outDir: Path, fwdStem: string, revStem: string,
                      sampleId: string, alreadyMapped: bool)
    requires DotFree(fwdStem) && DotFree(revStem) && DotFree(sampleId)
    requires Name(fwdReads) == fwdStem + ".fastq.gz" && Name(revReads) == revStem + ".fastq.gz"
    ensures var files := AssemblyPipeline(fwdReads, revReads, outDir, sampleId, alreadyMapped,
                                          Child(outDir + ["pilon"], sampleId + ".fasta"));
            files.repaired == (Child(outDir, fwdStem + ".fastq.gz"), Child(outDir, revStem + ".fastq.gz")) &&
            files.filtered == (Child(outDir, fwdStem + ".cleaned.filtered.fastq.gz"),
                               Child(outDir, revStem + ".cleaned.filtered.fastq.gz")) &&
            files.corrected == (Child(outDir, fwdStem + ".cleaned.corrected.fastq.gz"),
                                Child(outDir, revStem + ".cleaned.corrected.fastq.gz")) &&
            files.assembly == Child(outDir, sampleId + ".contigs.fa") &&
            files.alignment == Child(outDir, if alreadyMapped then sampleId + ".contigs.bam" else sampleId + ".contigs_sorted.bam") &&
            files.polishedDestination == Child(outDir, sampleId + ".pilon.fasta")
  {
    ReadNames(outDir, fwdStem);
    ReadNames(outDir, revStem);
    SampleOutputNames(outDir, sampleId);
  }

  /** The read names one file goes through, from the repaired copy to the
      corrected reads. */
  lemma ReadNames(outDir: Path, stem: string)
    requires DotFree(stem)
    ensures var trimmed := Child(outDir, TrimmedName(Name(Child(outDir, stem + ".fastq.gz"))));
            var filtered := Child(outDir, FilteredName(Name(trimmed)));
            filtered == Child(outDir, stem + ".cleaned.filtered.fastq.gz") &&
            Child(outDir, CorrectedName(Name(filtered))) == Child(outDir, stem + ".cleaned.corrected.fastq.gz")
  {
    NameOfChild(outDir, stem + ".fastq.gz");
    TrimmedNameOfReads(stem);
    NameOfChild(outDir, stem + ".cleaned.fastq.gz");
    FilteredNameOfTrimmed(stem);
    NameOfChild(outDir, stem + ".cleaned.filtered.fastq.gz");
    CorrectedNameOfFiltered(stem);
  }

  lemma SortedBamName(sampleId: string)
    requires DotFree(sampleId)
    ensures ReplaceAll(sampleId + ".contigs.bam", ".bam", "_sorted.bam") == sampleId + ".contigs_sorted.bam"
  {
    var p := sampleId + ".contigs";
    StemAndWord(sampleId, ".contigs", ".bam");
    assert !Contains([], ".bam");
    ReplaceOnce(p, ".bam", [], "_sorted.bam");
    assert p + ".bam" + [] == sampleId + ".contigs.bam";
    assert p + "_sorted.bam" + [] == sampleId + ".contigs_sorted.bam";
  }

  lemma PilonName(sampleId: string)
    requires DotFree(sampleId)
    ensures ReplaceAll(sampleId + ".fasta", ".fasta", ".pilon.fasta") == sampleId + ".pilon.fasta"
  {
    StemAndWord(sampleId, [], ".fasta");
    assert sampleId + [] == sampleId;
    assert !Contains([], ".fasta");
    ReplaceOnce(sampleId, ".fasta", [], ".pilon.fasta");
    assert sampleId + ".fasta" + [] == sampleId + ".fasta";
    assert sampleId + ".pilon.fasta" + [] == sampleId + ".pilon.fasta";
  }

  /** `with_suffix(".bam")` swaps only the final `.fa`, whatever the sample id holds. */
  lemma BamName(sampleId: string)
    ensures WithSuffix(sampleId + ".contigs.fa", ".bam") == sampleId + ".contigs.bam"
  {
    var name := sampleId + ".contigs.fa";
    var r := WithSuffix(name, ".bam");
    assert Suffix(name) == ".fa" by {
      assert name[|name| - 3] == '.' && name[|name| - 2] == 'f' && name[|name| - 1] == 'a';
      assert LastIndexOf(name, '.') == |name| - 3;
    }
    assert r[..|r| - 4] == name[..|name| - 3];
    assert Suffix(r) == ".bam";
    assert r == r[..|r| - 4] + r[|r| - 4..];
    assert name[..|name| - 3] == sampleId + ".contigs";
  }

  // ---------------------------------------------------------------------------
  // Cleanup: which entries of the output directory are deleted
  // ---------------------------------------------------------------------------

  datatype Kind = File | Directory

  /** The top level of a directory: each entry's name and kind. */
  type Entries = map<string, Kind>

  /** A `glob("*")` listing of `dir`: every entry once, in some order. */
  ghost predicate IsListing(dir: Entries, listing: seq<string>)
  {
    Distinct(listing) && forall n :: n in listing <==> n in dir
  }

  /** The names `basic_cleanup` passes to `os.remove`. */
  predicate BasicTarget(name: string)
  {
    Contains(name, ".filtered") || Contains(name, ".contigs.bam") || Contains(name, ".contigs.fa")
  }

  /** The names `total_cleanup` passes to `os.remove`. */
  predicate TotalTarget(name: string)
  {
    !Contains(name, ".fasta")
  }

  /** `basic_cleanup`: removes every listed entry with a target name, then the
      `pilon` subdirectory. `os.remove` on a directory raises, and so does
      `rmtree` on a file called `pilon`; either aborts the routine (`completed`
      false), and the entries removed before the failure stay removed. */
  method BasicCleanup(dir: Entries, listing: seq<string>) returns (after: Entries, completed: bool)
    requires IsListing(dir, listing)
    ensures completed <==>
              (forall n :: n in dir && BasicTarget(n) ==> dir[n] == File) &&
              ("pilon" in dir ==> dir["pilon"] == Directory)
    ensures completed ==> after == map n | n in dir && !BasicTarget(n) && n != "pilon" :: dir[n]
    ensures forall n :: n in dir && !BasicTarget(n) && (n != "pilon" || !completed) ==> n in after && after[n] == dir[n]
    ensures forall n :: n in after ==> n in dir && after[n] == dir[n]
  {
    after := dir;
    var i := 0;
    while i < |listing|
      invariant 0 <= i <= |listing|
      invariant forall n :: n in listing[..i] && BasicTarget(n) ==> dir[n] == File
      invariant forall n :: n in after <==> n in dir && !(n in listing[..i] && BasicTarget(n))
      invariant forall n :: n in after ==> after[n] == dir[n]
    {
      var name := listing[i];
      assert listing[..i + 1] == listing[..i] + [name];
      if BasicTarget(name) {
        assert name !in listing[..i] by {
          assert forall k :: 0 <= k < i ==> listing[..i][k] == listing[k];
        }
        if after[name] == Directory {
          completed := false;
          return;
        }
        after := after - {name};
      }
      i := i + 1;
    }
    assert listing[..i] == listing;
    if "pilon" in after {
      if after["pilon"] == File {
        completed := false;
        return;
      }
      after := after - {"pilon"};
    }
    completed := true;
  }

  /** `total_cleanup`: tries to remove every listed entry whose name lacks
      `.fasta`, swallowing the error that `os.remove` raises for a directory,
      then removes the `pilon` subdirectory. It always completes. */
  method TotalCleanup(dir: Entries, listing: seq<string>) returns (after: Entries)
    requires IsListing(dir, listing)
    ensures after == map n | n in dir && (!TotalTarget(n) || (dir[n] == Directory && n != "pilon")) :: dir[n]
  {
    after := dir;
    var i := 0;
    while i < |listing|
      invariant 0 <= i <= |listing|
      invariant forall n :: n in after <==> n in dir && !(n in listing[..i] && TotalTarget(n) && dir[n] == File)
      invariant forall n :: n in after ==> after[n] == dir[n]
    {
      var name := listing[i];
      assert listing[..i + 1] == listing[..i] + [name];
      if TotalTarget(name) && after[name] == File {
        after := after - {name};
      }
      i := i + 1;
    }
    assert listing[..i] == listing;
    if "pilon" in after {
      // A file called `pilon` was removed by the loop, so this is the directory.
      after := after - {"pilon"};
    }
  }

  /** `basic_cleanup` deletes, of the files the pipeline names for a sample
      `S` and read stem `stem`, the filtered reads, the contigs and the unsorted
      alignment. A `S.contigs.fasta` would be deleted too, since `.contigs.fa`
      occurs in it. */
  lemma BasicCleanupRemovesIntermediates(stem: string, sampleId: string)
    ensures BasicTarget(stem + ".cleaned.filtered.fastq.gz")
    ensures BasicTarget(sampleId + ".contigs.fa")
    ensures BasicTarget(sampleId + ".contigs.bam")
    ensures BasicTarget(sampleId + ".contigs.fasta")
  {
    assert OccursAt(stem + ".cleaned.filtered.fastq.gz", ".filtered", |stem| + 8);
    assert OccursAt(sampleId + ".contigs.fa", ".contigs.fa", |sampleId|);
    assert OccursAt(sampleId + ".contigs.bam", ".contigs.bam", |sampleId|);
    assert OccursAt(sampleId + ".contigs.fasta", ".contigs.fa", |sampleId|);
  }

  /** A marker starting with `.` occurs after a dot-free stem only in what follows it. */
  lemma ContainsAfterStem(stem: string, rest: string, pat: string)
    requires DotFree(stem) && |pat| >= 2 && pat[0] == '.'
    ensures Contains(stem + rest, pat) == Contains(rest, pat)
  {
    assert HeadsNotFollowed(stem, pat);
    HeadsNotFollowedNoOccurrence(stem, rest, pat);
    ContainsSkipsPrefix(stem, rest, pat);
  }

  /** ... nor when what follows lacks one of the marker's characters. */
  lemma NotAfterStem(stem: string, rest: string, pat: string, k: nat)
    requires DotFree(stem) && |pat| >= 2 && pat[0] == '.' && k < |pat| && pat[k] !in rest
    ensures !Contains(stem + rest, pat)
  {
    MissingCharNotContained(rest, pat, k);
    ContainsAfterStem(stem, rest, pat);
  }

  /** `basic_cleanup` keeps the corrected reads, the sorted alignment and the
      renamed polished assembly. */
  lemma BasicCleanupKeepsResults(stem: string, sampleId: string)
    requires DotFree(stem) && DotFree(sampleId)
    ensures !BasicTarget(stem + ".cleaned.corrected.fastq.gz")
    ensures !BasicTarget(sampleId + ".contigs_sorted.bam")
    ensures !BasicTarget(sampleId + ".pilon.fasta")
  {
    CorrectedReadsKept(stem);
    SortedAlignmentKept(sampleId);
    NotAfterStem(sampleId, ".pilon.fasta", ".filtered", 6);
    NotAfterStem(sampleId, ".pilon.fasta", ".contigs.bam", 1);
    NotAfterStem(sampleId, ".pilon.fasta", ".contigs.fa", 1);
  }

  lemma CorrectedReadsKept(stem: string)
    requires DotFree(stem)
    ensures !BasicTarget(stem + ".cleaned.corrected.fastq.gz")
  {
    NotAfterStem(stem, ".cleaned.corrected.fastq.gz", ".filtered", 2);
    NotAfterStem(stem, ".cleaned.corrected.fastq.gz", ".contigs.bam", 5);
    NotAfterStem(stem, ".cleaned.corrected.fastq.gz", ".contigs.fa", 5);
  }

  lemma SortedAlignmentKept(sampleId: string)
    requires DotFree(sampleId)
    ensures !BasicTarget(sampleId + ".contigs_sorted.bam")
  {
    var rest := ".contigs_sorted.bam";
    var pat := ".contigs.bam";
    NotAfterStem(sampleId, rest, ".filtered", 1);
    NotAfterStem(sampleId, rest, ".contigs.fa", 9);
    forall i: nat ensures !OccursAt(rest, pat, i) {
      if i + |pat| <= |rest| {
        assert rest[i..i + |pat|][0] == rest[i];
        assert rest[i..i + |pat|][8] == rest[i + 8];
      }
    }
    ContainsAfterStem(sampleId, rest, pat);
  }

  /** `total_cleanup` deletes the corrected reads and the sorted alignment and
      keeps the renamed polished assembly. */
  lemma TotalCleanupKeepsOnlyAssembly(stem: string, sampleId: string)
    requires DotFree(stem) && DotFree(sampleId)
    ensures TotalTarget(stem + ".cleaned.corrected.fastq.gz")
    ensures TotalTarget(sampleId + ".contigs_sorted.bam")
    ensures !TotalTarget(sampleId + ".pilon.fasta")
  {
    CorrectedReadsLackFasta(stem);
    NotAfterStem(sampleId, ".contigs_sorted.bam", ".fasta", 1);
    assert OccursAt(sampleId + ".pilon.fasta", ".fasta", |sampleId| + 6);
  }

  lemma CorrectedReadsLackFasta(stem: string)
    requires DotFree(stem)
    ensures !Contains(stem + ".cleaned.corrected.fastq.gz", ".fasta")
  {
    var pat := ".fasta";
    var word := ".cleaned.corrected";
    var rest := ".fastq.gz";
    forall i | 0 <= i < |word| && word[i] == pat[0] ensures i + 1 < |word| && word[i + 1] != pat[1] {
      assert word[i + 1] == 'c';
    }
    StemAndWord(stem, word, pat);
    forall i: nat ensures !OccursAt(rest, pat, i) {
      if i + |pat| <= |rest| {
        assert rest[i..i + |pat|][0] == rest[i];
        assert rest[i..i + |pat|][5] == rest[i + 5];
      }
    }
    HeadsNotFollowedNoOccurrence(stem + word, rest, pat);
    ContainsSkipsPrefix(stem + word, rest, pat);
    assert stem + word + rest == stem + ".cleaned.corrected.fastq.gz";
  }
}
