# ProkaryoteAssembly file-name logic, in Dafny

ProkaryoteAssembly assembles bacterial genomes from paired short reads. All
sequence work is done by external tools: repair.sh, bbduk, tadpole, skesa,
bbmap, samtools and pilon. The Python code itself only works with file names:

- it finds the read files in a directory;
- it groups the files into samples by the text before the first `_`;
- it pairs each sample's forward and reverse reads by substring markers;
- it predicts the name of the file each pipeline stage writes;
- it decides which entries of an output directory the two cleanup routines delete.

This project models that logic and proves what it does.

The project has seven files:

- `wrappers.dfy`: the `Option` type. It stands for Python's `None` results.
- `sequences.dfy`: facts about sequences of any element type: slices of a concatenation, subsequences that keep order, and sequences without repeats.
- `strings.dfy`: the Python string operations the code relies on:
  - the substring test `pat in s`;
  - `s.replace(target, repl)`, which replaces every occurrence, left to right and without overlaps;
  - `s.split('_')[0]`.
- `paths.dfy`: the parts of `pathlib` that are used:
  - joining with `/`, which drops empty and `.` components;
  - `.name`, `.suffix` and `.with_suffix`.
- `glob.dfy`: shell-style matching of one name against a pattern built from `*` and literal characters. This is the case `Path.glob` applies to each directory entry.
- `assemble.dfy` (module `ProkaryoteAssemble`): models `prokaryote_assemble.py`. It covers:
  - `get_id`;
  - the output names of `call_repair`, `bbduk_trim_adapters`, `bbduk_qc_filtering`, `call_bbduk`, `call_tadpole`, `call_skesa`, `call_bbmap` and the pilon rename in `assembly_pipeline`;
  - `basic_cleanup` and `total_cleanup`. Each is a method that loops over a directory listing and removes entries from a directory given as a map from entry name to kind.
- `assemble_dir.dfy` (module `ProkaryoteAssembleDir`): models `prokaryote_assemble_dir.py`. It covers:
  - the glob filter of `retrieve_fastqgz`;
  - `retrieve_sampleids`, a loop followed by de-duplication through a set;
  - `get_readpair`, a loop that overwrites two slots;
  - the per-sample loop of `assemble_dir`. It is a method that builds a trace of steps. Each step is creating a directory, running the pipeline or cleaning up.

A directory listing is a sequence of entry names, in whatever order the
filesystem gives them. The listing is an input to the model.

## Behaviour as written

The model follows the code. In three places the code does something other than
what its help texts and names suggest:

- **The glob.** The pattern `*.f*q*` at `prokaryote_assemble_dir.py:72` keeps a
  name only when it contains `.f` followed somewhere later by `q`. Matching is
  case-sensitive on POSIX systems (`pathlib` matches case-insensitively on Windows). So `x.fq` and `x.fastq.gz` are kept, while `x.FASTQ.GZ` and
  `x_fastq` are not. `x.fasta.qual` is kept even though it holds no reads.
- **An unpaired sample.** `get_readpair` returns `None` when a slot stays empty.
  Line 58 unpacks that result directly, so it raises and the whole batch stops
  at that sample. It is not skipped. Which samples were done before the stop
  depends on the set's iteration order.
- **Substring matching.** A sample id is matched by substring (line 104). So
  `S1` also picks up the files of `S10`. Because the last match wins, the pair
  chosen for `S1` can hold a read of `S10`.

Nothing fixes the order of the sample ids, because they pass through a `set`.
The model picks them in an arbitrary order and proves only what holds for every
order.

## Model

| member | source | states |
|---|---|---|
| Strings.FirstField | ProkaryoteAssembly/prokaryote_assemble_dir.py:84 | `split('_')[0]`: the result is a prefix of the name that holds no `_`, and it is either the whole name or is followed by `_` |
| Strings.FirstFieldUnique | ProkaryoteAssembly/prokaryote_assemble_dir.py:84 | those three properties pin the first field down: any string with them is the first field |
| Strings.Contains | ProkaryoteAssembly/prokaryote_assemble_dir.py:104-107 | the substring test `pat in s` holds exactly when `pat` occurs in `s` at some index |
| Strings.ContainsTransitive | ProkaryoteAssembly/prokaryote_assemble_dir.py:104 | a name containing a string contains everything that string contains |
| Strings.ReplaceAll | ProkaryoteAssembly/prokaryote_assemble.py:186-187 | Python's `str.replace`; no contract of its own. ReplaceAllAbsent, ReplaceAllOnce and the name lemmas below state what it gives |
| Strings.ReplaceAllAbsent | ProkaryoteAssembly/prokaryote_assemble.py:186-187 | `replace` leaves a name without the target unchanged |
| Strings.ReplaceAllOnce | ProkaryoteAssembly/prokaryote_assemble.py:196-197 | a name with exactly one occurrence of the target has exactly that occurrence replaced and all other text kept |
| Sequences.SubSequenceOrder | ProkaryoteAssembly/prokaryote_assemble_dir.py:72 | two elements of a subsequence occur in the longer sequence in the same order, which is what RetrieveFastq's subsequence clause promises about the listing |
| Paths.Child | ProkaryoteAssembly/prokaryote_assemble_dir.py:60 | `p / name` appends one component, or gives `p` back for an empty or `.` name |
| Paths.Name | ProkaryoteAssembly/prokaryote_assemble_dir.py:84 | `PurePath.name`: the last component, or the empty string for the empty path; no contract of its own. NameOfChild states that a joined name comes back |
| Paths.Suffix | ProkaryoteAssembly/prokaryote_assemble.py:159 | `suffix` is non-empty exactly when the name has a dot, neither its first nor its last character, with no dot after it; it is then the tail of the name from that dot, and otherwise empty |
| Paths.WithSuffix | ProkaryoteAssembly/prokaryote_assemble.py:159 | `with_suffix` gives a name whose suffix is the new one and whose stem is the old stem |
| Glob.Match | ProkaryoteAssembly/prokaryote_assemble_dir.py:72 | `fnmatch` for patterns of literals and `*`; no contract of its own. StarMatch, StarCharStar and ReadPatternMeaning state what it accepts |
| Glob.StarMatch | ProkaryoteAssembly/prokaryote_assemble_dir.py:72 | a leading `*` matches exactly when the rest of the pattern matches some tail of the name |
| Glob.StarCharStar | ProkaryoteAssembly/prokaryote_assemble_dir.py:72 | `*c*` matches exactly the names containing `c` |
| ProkaryoteAssembleDir.IsReadName | ProkaryoteAssembly/prokaryote_assemble_dir.py:72 | whether an entry matches the glob `*.f*q*`; no contract of its own. ReadPatternMeaning states which names do |
| ProkaryoteAssembleDir.ReadPatternMeaning | ProkaryoteAssembly/prokaryote_assemble_dir.py:72 | a name matches `*.f*q*` if and only if it contains `.f` followed somewhere later by `q` |
| ProkaryoteAssembleDir.RetrieveFastq | ProkaryoteAssembly/prokaryote_assemble_dir.py:67-73 | the result holds exactly the listed names that match the glob, as a subsequence of the listing (listing order kept); it is no longer than the listing and has no duplicates when the listing has none |
| ProkaryoteAssembleDir.SampleIdEdgeCases | ProkaryoteAssembly/prokaryote_assemble_dir.py:84 | the sample id of a name without `_` is the whole name; that of a name starting with `_` is empty |
| ProkaryoteAssembleDir.RetrieveSampleIds | ProkaryoteAssembly/prokaryote_assemble_dir.py:76-89 | the ids are duplicate-free, and an id is in the result exactly when some file has it as its sample id; any order may come out |
| ProkaryoteAssembleDir.HasRole | ProkaryoteAssembly/prokaryote_assemble_dir.py:104-107 | the `if`/`elif` test that makes a file the forward or the reverse read of a sample; no contract of its own. ReadPairOfMeaning and ContainedIdSharesFiles state its consequences |
| ProkaryoteAssembleDir.LastWithRole | ProkaryoteAssembly/prokaryote_assemble_dir.py:103-108 | what one slot of `get_readpair` holds after the scan; no contract of its own. LastWithRoleMeaning states it |
| ProkaryoteAssembleDir.ReadPairOf | ProkaryoteAssembly/prokaryote_assemble_dir.py:109-113 | what `get_readpair` returns; no contract of its own. ReadPairOfMeaning states it, and GetReadPair is proved equal to it |
| ProkaryoteAssembleDir.LastWithRoleMeaning | ProkaryoteAssembly/prokaryote_assemble_dir.py:102-108 | a slot stays empty exactly when no file qualifies for it; otherwise it holds a qualifying file after which no file qualifies (last match wins) |
| ProkaryoteAssembleDir.ReadPairOfMeaning | ProkaryoteAssembly/prokaryote_assemble_dir.py:102-113 | a pair comes back if and only if both slots can be filled; the forward read is a listed file containing the id and the forward marker; the reverse read is a listed file containing the id and the reverse marker but not the forward marker; each is the last such file |
| ProkaryoteAssembleDir.GetReadPair | ProkaryoteAssembly/prokaryote_assemble_dir.py:92-113 | the scan that overwrites `r1` and `r2` returns exactly the pair that ReadPairOfMeaning characterises |
| ProkaryoteAssembleDir.UnknownMarkerPairsNothing | ProkaryoteAssembly/prokaryote_assemble_dir.py:105-113 | when no file contains the forward marker, no sample is paired |
| ProkaryoteAssembleDir.ContainedIdSharesFiles | ProkaryoteAssembly/prokaryote_assemble_dir.py:104 | when one id occurs inside another (`S1` in `S10`), every file that fills a slot for the longer id also fills that slot for the shorter one |
| ProkaryoteAssembleDir.ContainedIdTakesLastFile | ProkaryoteAssembly/prokaryote_assemble_dir.py:103-108 | so when the last file with a role belongs to the longer id, both ids end up holding that file in that slot |
| ProkaryoteAssembleDir.SampleSteps | ProkaryoteAssembly/prokaryote_assemble_dir.py:60-63 | the three steps of one paired sample; no contract of its own. BatchRunBlock places them in the trace |
| ProkaryoteAssembleDir.Pairings | ProkaryoteAssembly/prokaryote_assemble_dir.py:58 | what `get_readpair` gives for each sample id in order; no contract of its own. ProcessSamples ties each call of GetReadPair to it |
| ProkaryoteAssembleDir.PairedPrefix | ProkaryoteAssembly/prokaryote_assemble_dir.py:57-58 | counts the samples paired before the first unpaired one: every sample before it is paired, and the one at it is not |
| ProkaryoteAssembleDir.BatchRun | ProkaryoteAssembly/prokaryote_assemble_dir.py:57-63 | the run does three steps for each sample paired before the first failure; it completes exactly when every sample is paired, and otherwise fails on the first unpaired sample |
| ProkaryoteAssembleDir.BatchRunBlock | ProkaryoteAssembly/prokaryote_assemble_dir.py:60-63 | the `k`-th block of three steps creates `out_dir / ids[k]`, runs the pipeline on that sample's pair (joined to the input directory) into that directory, and cleans it up |
| ProkaryoteAssembleDir.OrderDecidesWork | ProkaryoteAssembly/prokaryote_assemble_dir.py:57-63 | with one paired and one unpaired sample, taking the paired one first runs its pipeline and then fails; taking the unpaired one first fails before any work |
| ProkaryoteAssembleDir.ProcessSamples | ProkaryoteAssembly/prokaryote_assemble_dir.py:57-63 | the loop issues exactly the steps of BatchRun, after the steps already taken, and ends with its outcome |
| ProkaryoteAssembleDir.AssembleDir | ProkaryoteAssembly/prokaryote_assemble_dir.py:45-63 | creates the output root, then issues the batch steps for the sample ids of the matching files; the ids are distinct and are exactly those files' sample ids |
| ProkaryoteAssemble.SampleId | ProkaryoteAssembly/prokaryote_assemble_dir.py:84 | a file's sample id, `name.split('_')[0]`; no contract of its own. FirstField's contract and SampleIdEdgeCases state it |
| ProkaryoteAssemble.GetId | ProkaryoteAssembly/prokaryote_assemble.py:125-130 | an id comes back if and only if the two names have the same text before the first `_`; it is then a `_`-free prefix of both names, followed in each by `_` unless it is the whole name |
| ProkaryoteAssemble.CallRepair | ProkaryoteAssembly/prokaryote_assemble.py:116-118 | each repaired file lies directly in `out_dir` and keeps its input's name |
| ProkaryoteAssemble.TrimmedName | ProkaryoteAssembly/prokaryote_assemble.py:186-187 | the trimmed-read name; no contract of its own. UnmatchedNamesUnchanged and TrimmedNameOfReads state it |
| ProkaryoteAssemble.BbdukTrimAdapters | ProkaryoteAssembly/prokaryote_assemble.py:185-192 | the trimmed reads in `out_dir`; no contract of its own. ReadNames states it for `stem.fastq.gz` |
| ProkaryoteAssemble.FilteredName | ProkaryoteAssembly/prokaryote_assemble.py:196-197 | the filtered-read name; no contract of its own. UnmatchedNamesUnchanged and FilteredNameOfTrimmed state it |
| ProkaryoteAssemble.BbdukQcFiltering | ProkaryoteAssembly/prokaryote_assemble.py:195-202 | the filtered reads in `out_dir`; no contract of its own. ReadNames states it |
| ProkaryoteAssemble.CallBbduk | ProkaryoteAssembly/prokaryote_assemble.py:205-217 | trimming then filtering; no contract of its own. ReadNames and PipelineNames state the result for `stem.fastq.gz` |
| ProkaryoteAssemble.CorrectedName | ProkaryoteAssembly/prokaryote_assemble.py:174-175 | the corrected-read name; no contract of its own. CorrectedNameOfFiltered states it |
| ProkaryoteAssemble.CallTadpole | ProkaryoteAssembly/prokaryote_assemble.py:173-182 | the corrected reads in `out_dir`; no contract of its own. ReadNames and PipelineNames state it |
| ProkaryoteAssemble.CallSkesa | ProkaryoteAssembly/prokaryote_assemble.py:142-150 | the contigs file `out_dir / (S + ".contigs.fa")`; no contract of its own. SampleOutputNames states its name |
| ProkaryoteAssemble.CallBbmap | ProkaryoteAssembly/prokaryote_assemble.py:158-170 | the alignment returned, in both branches of the existence check; no contract of its own. BamName, SortedBamName and SampleOutputNames state it |
| ProkaryoteAssemble.PilonDestination | ProkaryoteAssembly/prokaryote_assemble.py:112 | where the polished assembly is moved; no contract of its own. PilonName and SampleOutputNames state it |
| ProkaryoteAssemble.AssemblyPipeline | ProkaryoteAssembly/prokaryote_assemble.py:104-113 | every name the pipeline derives; no contract of its own. PipelineNames states them all |
| ProkaryoteAssemble.UnmatchedNamesUnchanged | ProkaryoteAssembly/prokaryote_assemble.py:185-197 | trimming and filtering leave a name without `.fastq.gz` unchanged |
| ProkaryoteAssemble.TrimmedNameOfReads | ProkaryoteAssembly/prokaryote_assemble.py:186-187 | for a dot-free stem, `stem.fastq.gz` is trimmed to `stem.cleaned.fastq.gz` |
| ProkaryoteAssemble.FilteredNameOfTrimmed | ProkaryoteAssembly/prokaryote_assemble.py:196-197 | for a dot-free stem, `stem.cleaned.fastq.gz` is filtered to `stem.cleaned.filtered.fastq.gz` |
| ProkaryoteAssemble.CorrectedNameOfFiltered | ProkaryoteAssembly/prokaryote_assemble.py:174-175 | for a dot-free stem, `stem.cleaned.filtered.fastq.gz` is corrected to `stem.cleaned.corrected.fastq.gz` |
| ProkaryoteAssemble.ReadNames | ProkaryoteAssembly/prokaryote_assemble.py:213-216 | for a dot-free stem, in `out_dir`, the repaired `stem.fastq.gz` becomes `stem.cleaned.filtered.fastq.gz` after `call_bbduk` and then `stem.cleaned.corrected.fastq.gz` after `call_tadpole` |
| ProkaryoteAssemble.BamName | ProkaryoteAssembly/prokaryote_assemble.py:159 | the alignment of `S.contigs.fa` is named `S.contigs.bam` |
| ProkaryoteAssemble.SortedBamName | ProkaryoteAssembly/prokaryote_assemble.py:168 | for a dot-free id, the sorted alignment is `S.contigs_sorted.bam` |
| ProkaryoteAssemble.PilonName | ProkaryoteAssembly/prokaryote_assemble.py:112 | for a dot-free id, `S.fasta` is renamed `S.pilon.fasta` |
| ProkaryoteAssemble.SampleOutputNames | ProkaryoteAssembly/prokaryote_assemble.py:142-170 | for a dot-free id `S`: the assembly is `S.contigs.fa`; the alignment is `S.contigs.bam` when it already exists and `S.contigs_sorted.bam` otherwise; pilon's `S.fasta` lands at `S.pilon.fasta` in `out_dir` |
| ProkaryoteAssemble.PipelineNames | ProkaryoteAssembly/prokaryote_assemble.py:104-113 | for dot-free stems `fwd` and `rev` and a dot-free sample id `S`, and with pilon's output taken to be `pilon/S.fasta`: every name `assembly_pipeline` derives for reads `fwd.fastq.gz` and `rev.fastq.gz` |
| ProkaryoteAssemble.BasicTarget | ProkaryoteAssembly/prokaryote_assemble.py:92-97 | the names `basic_cleanup` removes; no contract of its own. BasicCleanup, BasicCleanupRemovesIntermediates and BasicCleanupKeepsResults state it |
| ProkaryoteAssemble.TotalTarget | ProkaryoteAssembly/prokaryote_assemble.py:78 | the names `total_cleanup` tries to remove; no contract of its own. TotalCleanup and TotalCleanupKeepsOnlyAssembly state it |
| ProkaryoteAssemble.IsListing | ProkaryoteAssembly/prokaryote_assemble.py:76 | what `glob("*")` gives here and at line 90: every entry of the directory exactly once; no contract of its own. BasicCleanup and TotalCleanup require it |
| ProkaryoteAssemble.BasicCleanup | ProkaryoteAssembly/prokaryote_assemble.py:89-101 | completes exactly when every target entry is a file and `pilon`, if present, is a directory; it then leaves exactly the non-target entries other than `pilon`; non-target entries other than `pilon` always survive unchanged, and `pilon` too when the routine fails; nothing is added |
| ProkaryoteAssemble.TotalCleanup | ProkaryoteAssembly/prokaryote_assemble.py:75-86 | leaves exactly the entries whose names contain `.fasta`, plus the directories (other than `pilon`) that `os.remove` could not delete |
| ProkaryoteAssemble.BasicCleanupRemovesIntermediates | ProkaryoteAssembly/prokaryote_assemble.py:91-97 | the filtered reads, the contigs and the unsorted alignment are deletion targets; so is `S.contigs.fasta` |
| ProkaryoteAssemble.BasicCleanupKeepsResults | ProkaryoteAssembly/prokaryote_assemble.py:91-97 | the corrected reads, the sorted alignment and `S.pilon.fasta` are not targets |
| ProkaryoteAssemble.TotalCleanupKeepsOnlyAssembly | ProkaryoteAssembly/prokaryote_assemble.py:77-82 | the corrected reads and the sorted alignment are targets; `S.pilon.fasta` is not |

## Left out

- The external tools run through `run_subprocess`: the commands, their outputs and their failures. Only the file names given to them and expected back are modelled.
- `os.makedirs` and `mkdir` are not modelled; the batch loop records them as steps.
- The existence checks that return early in `call_skesa`, `call_tadpole` and `call_bbmap`:
  - in `call_skesa` and `call_tadpole` they do not change the returned name, so they are left out;
  - in `call_bbmap` they do, so there they are the parameter `alreadyMapped`.
- The pilon stage. `call_pilon` returns the first `*.fasta` that the glob finds in `out_dir/pilon`, and that depends on filesystem order. In the model this path is a parameter of `AssemblyPipeline`.
- `shutil.move` at line 112 is not modelled; only the destination name is.
- `shutil.rmtree` of `pilon` is modelled as removing that entry. What the directory held is not modelled.
- The cleanup call at the end of the batch loop is recorded as a step and not modelled. `clean_up` is imported at `prokaryote_assemble_dir.py:8` but is not defined in `prokaryote_assemble.py`, which has only `total_cleanup` and `basic_cleanup`. As written, the import itself would fail before any step runs.
- The pipeline call in the batch loop is an opaque step, and so are its failures. Any exception it raises stops the batch in the source; the model records only the unpacking failure.
- Errors other than removing a directory are not modelled in the cleanup routines. This includes permissions and entries that vanish during the scan.
- The command-line layer is not modelled:
  - click option handling and the `--version` callback;
  - logging;
  - `check_all_dependencies`;
  - the `assemble` entry point's refusal of an existing output directory and its choice between the two cleanups.
- The `accessories` module is not part of this model, and neither is `setup.py`.
- Names are modelled as character sequences. `pathlib` anchors, absolute paths and normalisation beyond dropping empty and `.` components are not modelled.
- Glob patterns with `?` or `[...]` are not modelled, because the source uses only `*`.
- ProkaryoteAssemble.BasicCleanup: when a removal raises part-way, the contract says only that every non-target entry survives, `pilon` included, and that nothing is added. It does not say which targets were removed before the failure; that depends on listing order.
- ProkaryoteAssembleDir.RetrieveSampleIds: the contract promises no order, because the source's order comes from a `set`; any order satisfies it.
