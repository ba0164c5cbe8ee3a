# PathwayTrace text rules, in Dafny

This project models the pure text-processing core of three PathwayTrace
scripts and proves properties of it.

- `secStructureAnno.py` annotates protein sequences with secondary structure
  (Porter) and disorder (AUCpreD). The model covers:
  - the parsers of the two predictors' tables (`parse_porter`, `parse_aucpred`);
  - the job list (`prepare_annojobs`);
  - the one-record scratch FASTA file (`make_tmp_fasta`);
  - the result of one job (`run_anno_single`, with what the predictors leave behind as parameters);
  - the four-line `.structure` layout (`write_output`);
  - the output base name derived in `run_anno`.
- `groupfilter.py` removes identical sequences from a multi-FASTA file. The model covers:
  - `read_fasta`, a line-driven state machine that keeps the first record of every sequence and lists the headers of later copies;
  - `write_fasta` and `write_identical`;
  - the report that `main` prints and the outcome of `main`.
- `predictOrtho.py` prepares an ortholog search. The model covers:
  - `get_refspec`, which picks the first reference species found in a group file;
  - the query-ID rule and its format check in `parseQueryFa`;
  - the group-ID rule in `main`;
  - the CPU clamp in `prepare_data`.

Files:

- `wrappers.dfy`: `Option` and `Result`.
- `text.dfy` (module `Text`): Python's `str.split()`, `str.split(c)`, `''.join`, `lstrip` and `rstrip` for one character, and `readlines()` on text without `\r`, each with its laws.
- `numerals.dfy` (module `Numerals`): `str(n)` for integers and the decimal reading that inverts it.
- `dicts.dfy` (module `Dicts`): an insertion-ordered Python dict as a sequence of pairs.
- `structure_anno.dfy` (module `StructureAnno`): `secStructureAnno.py`.
- `groupfilter.dfy` (module `GroupFilter`): `groupfilter.py`.
- `predict_ortho.dfy` (module `PredictOrtho`): `predictOrtho.py`.

`read_fasta` is modelled in three layers:

- `GroupFilter.ScanLines` is the loop itself, one `Step` per line.
- `GroupFilter.Records` groups lines into (header, sequence) records.
- `GroupFilter.KeepAll` is the first-occurrence de-duplication of a record list.

`GroupFilter.ScanFollowsRecords` proves that the loop is the composition of the second and third layers. The properties of the reader are then stated about records, against independent reference definitions:

- `Firsts` is the first record of each sequence;
- `Dups` is the later headers of a sequence.

A file's contents are the list of lines `readlines()` returns, for text that holds no `\r`. Every line ends in a newline except possibly the last one, and `readline()` never returns an empty line before the end of the file.

## Model

| member | source | states |
|---|---|---|
| StructureAnno.ParsePorterSpec | PathwayTrace/secStructureAnno.py:33-39 | `parse_porter` succeeds exactly when every line is a comment or has a third whitespace field. It then returns the third fields of the non-comment lines, concatenated in file order. Otherwise the error names the first empty line or short row. |
| StructureAnno.ParsePorterOfTable | PathwayTrace/secStructureAnno.py:36-38 | On a table of whitespace-separated columns, the structure string is exactly the concatenation of the third column. |
| StructureAnno.ParseAucpredSpec | PathwayTrace/secStructureAnno.py:42-53 | `parse_aucpred` succeeds exactly when every non-comment row is marked `*` or `.`. It then returns one character per row, in order: `1` for `*` and `0` for `.`. Otherwise it names the first offending line and returns no partial string. |
| StructureAnno.ParseAucpredOfTable | PathwayTrace/secStructureAnno.py:45-50 | On a table marked with `*` and `.`, the disorder string has one digit per row, and a digit is `1` exactly on the `*` rows. |
| StructureAnno.PrepareAnnojobs | PathwayTrace/secStructureAnno.py:56-60 | There is one job per record, in record order. Each job keeps the record's id and sequence and the shared paths. Its CPU text is `str(cpus)`, which reads back as the CPU count. |
| StructureAnno.TmpFastaLines | PathwayTrace/secStructureAnno.py:78-80 | The scratch file `<path>/<header>.fasta` holds one header line, then the sequence with no final newline, when neither holds a line break. |
| StructureAnno.RunAnnoSingle | PathwayTrace/secStructureAnno.py:106-113 | A job yields a result exactly when both tools are configured and exit with status 0 and all three tables parse. A missing or failing tool is reported as such, Porter first. The result carries the job's id, the parsed ss3 and ss8 label columns, and the disorder digits of the AUCpreD table: one per row, `1` exactly on `*` rows. |
| StructureAnno.WriteOutputRoundTrip | PathwayTrace/secStructureAnno.py:100-103 | `write_output` writes to `<outpath>.structure`, four lines per result. When no field holds a newline or carriage return, splitting the text into 4-line groups gives back every result, in list order. |
| StructureAnno.OutputNameOfStem | PathwayTrace/secStructureAnno.py:84 | For an input `dir/stem.ext`, the output name is the stem with its dots deleted. This holds with or without a directory. |
| StructureAnno.OutputNameOfTwoParts | PathwayTrace/secStructureAnno.py:84 | `dir/a.b.ext` is named `ab`. |
| StructureAnno.OutputNameWithoutDot | PathwayTrace/secStructureAnno.py:84-96 | A file name without a dot gives the empty name, so the output lands in `<outpath>/.structure` for any output directory. |
| GroupFilter.ScanCount | PathwayTrace/groupfilter.py:48-67 | `count` is the number of lines that start with `>`. |
| GroupFilter.ScanFollowsRecords | PathwayTrace/groupfilter.py:45-67 | The loop invariant of `read_fasta` holds after every line. `count` is the number of records so far. `header` and `seq` are the last record's. The dicts are the de-duplication of the earlier records with a non-empty header. |
| GroupFilter.ReadFastaRecords | PathwayTrace/groupfilter.py:41-69 | Without a `>` line, the dict maps `None` to the concatenation of all lines, each with its trailing newline stripped. Otherwise the earlier named records are de-duplicated and the last record is stored as it is. |
| GroupFilter.MatchEntriesOnce | PathwayTrace/groupfilter.py:53-59 | While the kept sequences are distinct, the inner loop matches at most once. The header is listed under the one kept header with that sequence, and `tmp` is true exactly when there is none. |
| GroupFilter.AddDuplicateSpec | PathwayTrace/groupfilter.py:55-58 | Listing a header extends that key's list by the header, or creates it. No other list changes, and the total number of listed headers grows by one. |
| GroupFilter.KeepOnce | PathwayTrace/groupfilter.py:51-61 | A record with a new sequence is stored under its header. A record with a kept sequence is listed under that sequence's header. The kept sequences stay pairwise distinct. |
| GroupFilter.KeepAllDescribes | PathwayTrace/groupfilter.py:51-61 | For distinct headers, `fasta_dict` is the first record of every sequence and each list is the later headers of that sequence, in input order. Lists appear only under kept headers, and each record is counted exactly once. |
| GroupFilter.ReadFastaFirstOccurrence | PathwayTrace/groupfilter.py:41-69 | For distinct headers, first occurrence wins: `fasta_dict` is the first named record of each sequence before the last record, followed by the last record. `identical` lists every later named copy under the kept header and has no other key. |
| GroupFilter.ReadFastaConserves | PathwayTrace/groupfilter.py:51-69 | For a file with a `>` line, distinct headers and no empty header before the last, every `>` line is accounted for. Entries plus listed duplicates equal `count`. |
| GroupFilter.RepeatedHeaderOverwrites | PathwayTrace/groupfilter.py:61 | A repeated header replaces the kept entry in place: `>a X >a Y >b Z` reads as `{a: Y, b: Z}` with nothing listed, so `X` is in neither dict. |
| GroupFilter.HeaderOfWritten | PathwayTrace/groupfilter.py:62 | Stripping the `>` and the newline from a written header line gives back the header. |
| GroupFilter.WriteFastaRoundTrip | PathwayTrace/groupfilter.py:72-75 | Keys and sequences without newlines, carriage returns or a leading `>` are written without error as two lines per entry, in dict order. These lines group back into the dict's records. |
| GroupFilter.WriteFastaNoneLast | PathwayTrace/groupfilter.py:74-75 | A `None` key after the named entries raises, and the file keeps exactly the entries written before it. |
| GroupFilter.IdenticalRoundTrip | PathwayTrace/groupfilter.py:78-84 | `write_identical` writes one line per key: the key, then a tab before each listed header. When nothing holds a tab, newline or carriage return, splitting the lines at tabs gives back the dict. |
| GroupFilter.ReportRoundTrip | PathwayTrace/groupfilter.py:93 | Both numbers read back from the printed report. |
| GroupFilter.FinishOutcome | PathwayTrace/groupfilter.py:90-93 | After reading, `main` finishes exactly when no key is `None`. The identical file is written exactly when `info` is a non-empty path. The report reads back as `count` and the number of entries. |
| GroupFilter.MainOutcome | PathwayTrace/groupfilter.py:87-93 | `main` finishes exactly when the input has a `>` line. Without one, it stops in `write_fasta` with an empty output file. When it finishes, the report gives the `>` line count and the entry count. |
| GroupFilter.FinalRecordBypass | PathwayTrace/groupfilter.py:68 | The last record skips the duplicate check. Two records with one sequence are both kept, so the kept sequences are not distinct. |
| GroupFilter.EmptyHeaderDropped | PathwayTrace/groupfilter.py:51 | A bare `>` line is falsy, so its record is neither kept nor listed, and the counts stop adding up to `count`. |
| GroupFilter.ReadFastaCorrectedSpec | PathwayTrace/groupfilter.py:51-68 | With every record de-duplicated, the kept sequences are distinct on every input. For distinct headers, the first record of each sequence is kept, later copies are listed under it, and every `>` line is counted once. |
| GroupFilter.MainCorrectedOutcome | PathwayTrace/groupfilter.py:87-93 | With the corrected reader, `main` always finishes. The report reads back as the `>` line count and the entry count. For distinct headers, entries plus listed duplicates equal that count. |
| PredictOrtho.CoreSpecs | PathwayTrace/predictOrtho.py:51-54 | The first loop yields the second pipe-separated field of every record ID, in file order. It fails exactly when some ID has none, and names the first such record. |
| PredictOrtho.FirstIn | PathwayTrace/predictOrtho.py:55-58 | The second loop returns `None` exactly when no reference species is among the fields. Otherwise it returns a species that is in both lists. |
| PredictOrtho.FirstInEarliest | PathwayTrace/predictOrtho.py:55-57 | The species returned is the earliest one in list order that occurs among the fields. |
| PredictOrtho.GetRefspecSpec | PathwayTrace/predictOrtho.py:50-58 | `get_refspec` fails exactly when some record ID contains no pipe character. Otherwise it returns `None` exactly when no reference species is a second field. When it returns a species, that species is the earliest such one. |
| PredictOrtho.FileStemSpec | PathwayTrace/predictOrtho.py:62 | The query ID is the longest dot-free prefix of the path's last `/`-component. |
| PredictOrtho.FileStemOf | PathwayTrace/predictOrtho.py:172 | The group ID of `dir/group.ext` is `group`, for a dot-free `group`. |
| PredictOrtho.WellFormedIDOf | PathwayTrace/predictOrtho.py:63-64 | Three `@`-free fields joined by `@` split back into those fields. Such an ID passes the format check exactly when its middle field is an integer. |
| PredictOrtho.WellFormedIDParts | PathwayTrace/predictOrtho.py:63-64 | Conversely, an ID that passes the format check is its three `@`-free fields joined by `@`. |
| PredictOrtho.ParseQueryFaOutcome | PathwayTrace/predictOrtho.py:62-67 | The ID is kept as it is exactly when it is well formed. Otherwise the run stops exactly when the taxonomy ID is 0, and registers the taxon when it is not. |
| PredictOrtho.QueryIDOfPath | PathwayTrace/predictOrtho.py:62-64 | A query file `dir/name@taxid@version.ext` with an integer taxid is used under the ID `name@taxid@version`. |
| PredictOrtho.ClampCpus | PathwayTrace/predictOrtho.py:124-125 | The CPU count is below the machine's count and at most the request. It is unchanged when already below, and is the largest value within both bounds. |

## Left out

- Running Porter and AUCpreD: each tool's exit status and the files it leaves behind are parameters of `RunAnnoSingle`. `fdog.addTaxon` and `fdog.run` are covered by the lines below. Nothing is said about whether the label lengths match the sequence, which only the tools guarantee.
- The `fdog.addTaxon` branch of `parseQueryFa` (predictOrtho.py:68-81): the model stops at the decision `AddTaxon`, because its result comes from an external process.
- Universal-newline translation of `open(path, 'r')`: `\r` and `\r\n` line ends are not modelled. Files are taken to hold no `\r`, and the round trips require fields without `\r`.
- Reading FASTA files with `Bio.SeqIO`: the records (or their IDs) are given as a sequence.
- `fcat.searchOrtho.isInt` is a parameter, a predicate on strings.
- `multiprocessing`, `imap_unordered` and `tqdm` (secStructureAnno.py:89-95): `WriteOutput` takes the results in whatever order they completed.
- The `raise` of a string at secStructureAnno.py:94, which is itself a `TypeError`, is not modelled.
- Filesystem side effects: directories made or removed, scratch files removed, `shutil.copy`, `chmod`, and the timestamped `.checked` file. `os.path.abspath` is not modelled either.
- `prepareJob` (predictOrtho.py:93-116): it calls `checkRefspec`, which is commented out, so it cannot run.
- `runFdog` and its call to `fdog.run`, argument parsing, timing and the `print` calls, except the report of groupfilter.py:93, which is modelled as text.
- An optional disorder step and a structure-only output layout are not modelled, because the code has neither. `run_anno_single` always runs AUCpreD, and a missing AUCpreD path fails the job (`ToolMissing(AUCpreD)`). `write_output` only writes `.structure`.
- GroupFilter.ReadFastaFirstOccurrence, GroupFilter.ReadFastaConserves and GroupFilter.KeepAllDescribes assume distinct headers. With a repeated header, the script overwrites the kept entry in place (`GroupFilter.RepeatedHeaderOverwrites`), and the earlier record is lost without trace.
- The job failure is modelled as an `AnnoError`. Python propagates the exception, which carries no job id.
- StructureAnno.RunAnnoSingle: for a table that fails to parse, the contract says only that there is no result. Which table's error is reported is given by the body.

## Findings

| source | as written | input that shows it | evidently intended | confidence | as-written member | corrected member |
|---|---|---|---|---|---|---|
| PathwayTrace/groupfilter.py:68 | After the loop, the last record is stored with `fasta_dict[header] = seq`, so it skips the duplicate check. | The file `>a\nX\n>b\nX\n` keeps both `a` and `b` with the sequence `X`. | The last record goes through the same check as the others, so `b` is listed under `a` in `identical`. | not executed | GroupFilter.FinalRecordBypass | GroupFilter.ReadFastaCorrectedSpec |
| PathwayTrace/groupfilter.py:51 | `if header:` is false for the empty header of a bare `>` line, so that record is silently dropped. | The file `>\nX\n>b\nY\n` gives `count` 2 but only one entry and no listed duplicate. | Test `header is not None`, so that the record with the empty header is kept or listed like any other. | not executed | GroupFilter.EmptyHeaderDropped | GroupFilter.ReadFastaCorrectedSpec |
