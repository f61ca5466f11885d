# slakh-utils core, modelled in Dafny

A model of the data-preparation utilities for the Slakh2100 dataset. It covers four parts.

- **Submix engine** (`submixes/submixes.py`).
  - A submix definition maps bucket names to lists of classification values.
  - Loading a definition validates it and inverts it into a value → bucket index.
  - For one track directory, every stem is routed by its metadata value to one bucket. A stem with an unmapped value goes to the reserved `residuals` bucket.
  - The stems of each bucket are summed sample by sample. One file is written per bucket, and an empty bucket gets zeros as long as the mix.
- **FLAC converter** (`conversion/flac_converter.py`).
  - Selects a 1-based, end-exclusive subset of the sorted track directories.
  - Picks the converter and mix name from `compress`.
  - Plans the per-track copies and conversions.
  - Names each converted file after its input, with the extension replaced.
- **Split re-organisation** (`splits/resplit_slakh.py`, `splits/split_slakh.py`).
  - Moves track directories between the `train`, `validation`, `test` and `omitted` split directories, driven by a JSON split file.
  - `reset` puts every track back into its original split, chosen by string comparison of its id against `Track01500` and `Track01875`.

## Modules

| file | module | what it holds |
|---|---|---|
| `outcomes.dfy` | `Outcomes` | `Option` and `Result` |
| `lexicographic.dfy` | `Lexicographic` | Python's string order and `sorted()` over lists of strings |
| `posix_path.dfy` | `PosixPath` | the `posixpath` functions `join`, `basename`, `splitext` |
| `submixes.dfy` | `SubmixEngine` | the submix engine: class `Submixes`, with immutable fields set by `Load` |
| `flac_converter.dfy` | `FlacConverter` | track subsets, output names, and per-folder conversion plans |
| `split_tree.dfy` | `SplitTree` | the split directory tree (track id → split), `shutil.move`, and the fold over split-file entries |
| `split_slakh.dfy` | `SplitSlakh` | `do_all_moves` |
| `resplit_slakh.dfy` | `ResplitSlakh` | `do_all_updates` and `reset` |

### Representation choices

- **Directory tree.** The tree under the split directories is a map from track id to the split holding that track.
  - `shutil.move` updates one entry.
  - It fails with `FileNotFound` when the track is not in the named source split.
- **Split-file entries.** Each entry is a record of optional fields, so a missing key is a `KeyError`.
  - `action` and `moved` are JSON scalars with Python truthiness.
  - Each entry first yields a decision: stay, relocate, or an error.
  - One fold (`SplitTree.Run`) applies the decisions in file order and stops at the first error. Earlier moves are kept.
- **Submix run.** A `do_submix` run takes the track's metadata, the mix length and the stem files (name and samples) as parameters.
  - It returns the submix directory, the files written, in bucket order, and the error raised, if any.
- **Folder conversion.** A `_convert_folder` run returns its file operations in order: make directories, copy, copy tree, convert.
  - `_apply_ffmpeg` returns the chosen converter, the mix name, and one plan per selected track.
- **Values and samples.**
  - Recipe and metadata values are YAML scalars (`Scalar`).
  - Samples are integers.

### Behaviour of the code worth knowing

- **Error types.** Loading a submix file raises Python's own exceptions.
  - `KeyError` for a missing `Recipes` key (`submixes/submixes.py:35`) or a missing `Mixing key` (`submixes/submixes.py:43`).
  - `LookupError` for a repeated value (`submixes/submixes.py:37-39`).
  - `ValueError` for a recipe named `residuals` (`submixes/submixes.py:44-45`).
- **Missing metadata.** A stem id missing from the track metadata, or an entry without the mixing key, raises `KeyError` out of `do_submix` (`submixes/submixes.py:88`). Nothing catches it.
- **Reserved name.** Only a recipe key spelled exactly `residuals` is rejected (`submixes/submixes.py:44`).
  - A key such as `Residuals` is accepted. Sanitising sends its stems to the residuals bucket (`submixes/submixes.py:77-78`, `ResidualsAliasShares`).
- **Repeated values.** A value listed twice in one recipe is rejected, as is a value shared by two recipes (`submixes/submixes.py:37-39`).
- **Repeated recipe names.** `yaml.load` keeps one value per mapping key, so recipe names arrive distinct. The model does not require it, and no contract depends on it.
- **The `end` bound.** It is exclusive: the slice is `[start-1:end-1]` (`conversion/flac_converter.py:61-62`).
- **`start = 0`.** When `end` is not given, it selects only the last track directory (`conversion/flac_converter.py:63-64`).

## Model

| member | source | states |
|---|---|---|
| `SubmixEngine.FileReadyString` | submixes/submixes.py:17-24 | same length as the input; no space in the result; no upper-case ASCII letter in the result |
| `SubmixEngine.FileReadyIdempotent` | submixes/submixes.py:17-24 | sanitising twice equals sanitising once |
| `SubmixEngine.FileReadyExample` | submixes/submixes.py:19 | "Something Like This" becomes "something_like_this" |
| `SubmixEngine.ResidualsIsFileReady` | submixes/submixes.py:77-90 | the reserved bucket name is unchanged by sanitising, so the residuals route lands in the bucket created for it |
| `SubmixEngine.AllValues` | submixes/submixes.py:37 | a value is in the flattened list iff some recipe's list holds it |
| `SubmixEngine.AllValuesDistinct` | submixes/submixes.py:37-38 | the flattened list has no repeat iff every recipe's list is repeat-free and no two recipes share a value |
| `SubmixEngine.DistinctIffNoShrink` | submixes/submixes.py:38 | `len(set(xs)) != len(xs)` holds exactly when `xs` has a repeat |
| `SubmixEngine.InvertDictDomain` | submixes/submixes.py:51-63 | the inverted index's keys are exactly the union of all value lists |
| `SubmixEngine.InvertDictSound` | submixes/submixes.py:63 | every key of the index maps to the name of a recipe whose list holds it |
| `SubmixEngine.InvertDictLaw` | submixes/submixes.py:63 | with unique values, each value of recipe i maps to recipe i's name |
| `SubmixEngine.InvertDictLastWins` | submixes/submixes.py:63 | every inverted value maps to the name of the last bucket whose values list it: that bucket lists it, and no later bucket does |
| `SubmixEngine.InvertDictExample` | submixes/submixes.py:56-58 | the worked example inverts to {1:'a',2:'a',3:'a',4:'b',5:'b',6:'c',7:'c'} |
| `SubmixEngine.CheckSubmixFile` | submixes/submixes.py:34-45 | each error iff its cause, in source order: missing 'Recipes', then a repeated value, then a missing 'Mixing key', then a key equal to 'residuals'; no error iff none of these |
| `SubmixEngine.CapitalisedResidualsAccepted` | submixes/submixes.py:44-45 | a recipe key 'Residuals' passes validation although it sanitises to the reserved name |
| `SubmixEngine.ResidualsAliasShares` | submixes/submixes.py:77-78 | a 'Residuals' recipe and the reserved bucket collapse into the single bucket 'residuals' |
| `SubmixEngine.Dedup` | submixes/submixes.py:77 | no repeats; same members as its input |
| `SubmixEngine.InitialBuckets` | submixes/submixes.py:77-78 | the buckets are distinct, and are exactly 'residuals' plus the sanitised recipe names |
| `SubmixEngine.SanitisedNamesShareBucket` | submixes/submixes.py:77-90 | 'Lead Guitar' and 'lead guitar' share one bucket 'lead_guitar'; then 'residuals' |
| `SubmixEngine.SumRows` | submixes/submixes.py:108 | sample k of the sum is the sum of sample k of every row |
| `SubmixEngine.Mixdown` | submixes/submixes.py:101-108 | an empty bucket sums to zeros of the mix length; otherwise the elementwise sum of its stems |
| `SubmixEngine.MetadataDirs` | submixes/submixes.py:48-49 | a directory is listed iff some walked root contains 'metadata.yaml' |
| `SubmixEngine.MembersSameLength` | submixes/submixes.py:96-108 | the waves gathered in a bucket all have the common stem length |
| `SubmixEngine.MembersCount` | submixes/submixes.py:92-96 | a bucket receives as many stems as were routed to it |
| `SubmixEngine.BucketsPartitionStems` | submixes/submixes.py:77-96 | when every route is one of the distinct buckets, the bucket sizes sum to the number of stems |
| `SubmixEngine.Submixes.constructor` | submixes/submixes.py:30-45 | base directory, submix name = basename without extension, recipes, index = inversion of the recipes, mixing key |
| `SubmixEngine.Submixes.Load` | submixes/submixes.py:30-45 | fails exactly when validation reports an error, and with that error; otherwise a valid engine whose fields come from the file |
| `SubmixEngine.Submixes.GetAllSrcDirs` | submixes/submixes.py:47-49 | sorted; a permutation of the walked roots that contain 'metadata.yaml'; membership iff such a root |
| `SubmixEngine.Submixes.Route` | submixes/submixes.py:87-90 | succeeds iff the stem id and the mixing key are present; otherwise KeyError of the missing key; the bucket is one of the initial buckets |
| `SubmixEngine.Submixes.StemRouting` | submixes/submixes.py:88-90 | a value in recipe i routes to recipe i's sanitised name; an unmapped value routes to 'residuals' |
| `SubmixEngine.Submixes.RouteAll` | submixes/submixes.py:82-90 | on success, one bucket per stem |
| `SubmixEngine.Submixes.RouteAllRoutesEach` | submixes/submixes.py:82-90 | on success, the bucket of each stem is that stem's own route |
| `SubmixEngine.Submixes.AllRouted` | submixes/submixes.py:82-90 | routing all stems succeeds when every single lookup does |
| `SubmixEngine.Submixes.FirstErrorStops` | submixes/submixes.py:82-88 | the first failing lookup is the error of the whole loop |
| `SubmixEngine.Submixes.StemIds` | submixes/submixes.py:87 | one id per stem file |
| `SubmixEngine.Submixes.GatherStems` | submixes/submixes.py:77-96 | fails iff some lookup fails, with the first failure; otherwise the dictionary holds exactly the initial buckets, each with the stems routed to it in listing order |
| `SubmixEngine.Submixes.GatherStep` | submixes/submixes.py:92-96 | appending a routed stem to its bucket keeps every bucket equal to the stems routed to it so far |
| `SubmixEngine.Submixes.WriteBuckets` | submixes/submixes.py:99-109 | one file per bucket, in bucket order, with that bucket's path and mixdown |
| `SubmixEngine.Submixes.DoSubmix` | submixes/submixes.py:70-109 | the run's outcome equals the reference function `SubmixSpec`, whose meaning the three lemmas below state |
| `SubmixEngine.Submixes.SubmixWritesEveryBucket` | submixes/submixes.py:72-109 | when every lookup succeeds, every bucket is written to `<track>/<sanitised submix name>/<bucket>.wav`: zeros of the mix length when it is empty, otherwise the elementwise sum of its stems |
| `SubmixEngine.Submixes.SubmixPartitionsStems` | submixes/submixes.py:92-96 | when every lookup succeeds, each stem lands in exactly one bucket: the bucket sizes sum to the number of stems |
| `SubmixEngine.Submixes.SubmixStopsAtFirstMissingKey` | submixes/submixes.py:87-88 | the first stem with a missing id or mixing key raises KeyError of that key, and no file is written |
| `Lexicographic.Sort` | submixes/submixes.py:48 | `sorted()`: sorted in Python's string order and a permutation of its input |
| `Lexicographic.SortedPermutationUnique` | conversion/flac_converter.py:57 | a sorted permutation is unique, so the track order does not depend on listing order |
| `Lexicographic.LessEqTotal` | splits/resplit_slakh.py:50-52 | string comparison is total |
| `Lexicographic.LessEqTransitive` | splits/resplit_slakh.py:50-52 | string comparison is transitive |
| `Lexicographic.LessAtFirstDifference` | splits/resplit_slakh.py:50-55 | two strings compare as their first differing characters do |
| `PosixPath.Basename` | submixes/submixes.py:33 | contains no separator, is a suffix of the path, and follows a separator when shorter than it |
| `PosixPath.SplitExt` | submixes/submixes.py:33 | root + extension is the path; the extension is empty, or starts with the only '.' it has and has no separator |
| `PosixPath.SplitExtLeadingDots` | submixes/submixes.py:87 | the extension is empty iff the last path component has no dot after some non-dot character; a root split off from an extension keeps such a character, so leading dots stay in the root |
| `PosixPath.HiddenFileHasNoExtension` | submixes/submixes.py:33 | `.bashrc` has no extension: its root is the whole name |
| `PosixPath.JoinKeepsDirectory` | conversion/flac_converter.py:29-44 | joining a relative name onto a directory keeps the directory as a prefix |
| `PosixPath.BasenameOfJoin` | conversion/flac_converter.py:72-75 | the basename of `join(dir, name)` is `name` |
| `PosixPath.SplitExtOfAddedExt` | conversion/flac_converter.py:29 | `splitext(name + '.' + ext)` gives back `name` and `'.' + ext` |
| `FlacConverter.ReplaceExtension` | conversion/flac_converter.py:29-44 | the output is the output directory joined with its own basename (so it sits directly in that directory), and that basename is the input's basename minus its last extension, plus the new one |
| `FlacConverter.ConvertedBasename` | conversion/flac_converter.py:29-44 | `name.ext` converts to `name.newext` |
| `FlacConverter.WavFlacRoundTrip` | conversion/flac_converter.py:29-44 | naming `x.wav` to flac and back gives `x.wav` |
| `FlacConverter.ExtensionRoundTrip` | conversion/flac_converter.py:29-44 | replacing an extension by another and back gives the original basename |
| `FlacConverter.ConvertedName` | conversion/flac_converter.py:29-44 | `_wav_to_flac` targets `.flac` and `_flac_to_wav` targets `.wav`, keeping the root of the input's basename |
| `FlacConverter.SubdirPaths` | conversion/flac_converter.py:57-59 | a path is listed iff it joins the input directory with a listed entry that is a directory |
| `FlacConverter.TrackDirectories` | conversion/flac_converter.py:57-59 | sorted, and a permutation of the subdirectory paths |
| `FlacConverter.SliceBound` | conversion/flac_converter.py:62-66 | a Python slice bound clamped into `0..n` |
| `FlacConverter.PySlice` | conversion/flac_converter.py:62-66 | Python slicing, negative bounds included: its length and each element |
| `FlacConverter.PySliceOfNonNegative` | conversion/flac_converter.py:62-66 | with non-negative bounds, a Python slice is the run between the bounds clamped to the list |
| `FlacConverter.MakeTrackSubset` | conversion/flac_converter.py:48-68 | never longer than the full list of track directories |
| `FlacConverter.SelectTracks` | conversion/flac_converter.py:61-68 | the slice taken is never longer than the list it is taken of |
| `FlacConverter.SelectWithPositiveBounds` | conversion/flac_converter.py:61-68 | for bounds ≥ 1 (or absent), the slice of any list is the run `[min(start-1,n) : min(end-1,n)]` |
| `FlacConverter.SubsetOfPositiveBounds` | conversion/flac_converter.py:61-68 | for bounds ≥ 1 (or absent), the contiguous run `[min(start-1,n) : min(end-1,n)]`; its length is the clamped difference; with no bounds, all sorted directories |
| `FlacConverter.EndPositionExcluded` | conversion/flac_converter.py:61-62 | `start..end` converts `end - start` tracks: the track at position `end` is left out |
| `FlacConverter.StartZeroSelectsLast` | conversion/flac_converter.py:63-64 | `start = 0` with no `end` selects only the last track directory |
| `FlacConverter.ConvertFolder` | conversion/flac_converter.py:71-90 | makes the output stems directory, copies metadata, MIDI and the MIDI tree, converts the mix into the output track directory, then converts each stem entry, in listing order, into the output stems directory |
| `FlacConverter.FolderPlanTargets` | conversion/flac_converter.py:74-90 | the i-th stem conversion writes `<out>/<track>/stems/<stem root>.<target ext>` |
| `FlacConverter.SelectedMixConverts` | conversion/flac_converter.py:96-101 | the mix selected by `compress` converts to `mix.flac` when compressing and to `mix.wav` otherwise |
| `FlacConverter.FolderPlansSnoc` | conversion/flac_converter.py:103-111 | the plans of the first tracks followed by the next track's plan are the plans of one more track |
| `FlacConverter.ApplyFfmpeg` | conversion/flac_converter.py:93-111 | the converter and mix name follow `compress`; one folder plan per selected track |
| `SplitTree.Move` | splits/resplit_slakh.py:32 | succeeds iff the track is in the source split, else FileNotFound; only that track changes, to the destination split |
| `SplitTree.Run` | splits/split_slakh.py:12-18 | the set of tracks is unchanged; a track no entry names keeps its split |
| `SplitTree.RunAppend` | splits/split_slakh.py:12-18 | entries are processed in order: a run over `a + b` is a run over `a`, then over `b` unless `a` raised |
| `SplitTree.StopsAtFirstError` | splits/resplit_slakh.py:13-30 | the first failing entry ends the run with its error, and the moves before it are kept |
| `SplitTree.RunPlacesEachTrack` | splits/split_slakh.py:12-18 | without an error and with distinct ids, a relocated track was in its source split and ends in its destination; a staying track keeps its split |
| `SplitSlakh.MoveDecision` | splits/split_slakh.py:13-17 | KeyError 'moved' iff the flag is missing; stay iff it is falsy; KeyError 'source_split' iff it is truthy and the source is missing; KeyError 'destination_split' iff it is truthy, the source is given and the destination is missing; otherwise relocate from source to destination |
| `SplitSlakh.DoAllMoves` | splits/split_slakh.py:8-18 | the loop's final tree and error are those of the decision fold |
| `SplitSlakh.MovesPlaceEachTrack` | splits/split_slakh.py:13-18 | after a run with no error, a truthy-flagged track has moved from its source to its destination split, and a falsy-flagged one is unchanged |
| `SplitSlakh.MissingMovedKeyStops` | splits/split_slakh.py:12-13 | an entry without 'moved' raises KeyError there, and the earlier moves are kept |
| `ResplitSlakh.UpdateDecision` | splits/resplit_slakh.py:14-30 | KeyError 'action' iff missing; stay iff falsy; KeyError 'source_split' iff truthy without a source; KeyError 'destination_split' iff 'move' with a source but no destination; 'move' relocates source → destination, and only to its given destination; 'omit' relocates source → omitted; ValueError iff another truthy action with a source split |
| `ResplitSlakh.DoAllUpdates` | splits/resplit_slakh.py:9-32 | the loop's final tree and error are those of the decision fold |
| `ResplitSlakh.UpdatesPlaceEachTrack` | splits/resplit_slakh.py:16-32 | after a run with no error: falsy action means unchanged; 'move' means at the destination; 'omit' means in 'omitted' |
| `ResplitSlakh.UnknownActionStops` | splits/resplit_slakh.py:29-30 | an unknown truthy action raises ValueError at its entry, and the earlier moves are kept |
| `ResplitSlakh.ResetDestination` | splits/resplit_slakh.py:50-55 | train iff id ≤ 'Track01500'; test iff id > 'Track01875'; otherwise validation; never omitted |
| `ResplitSlakh.ResetDestinationMonotone` | splits/resplit_slakh.py:50-55 | the destination split is monotone in id order |
| `ResplitSlakh.TrainBoundary` | splits/resplit_slakh.py:50-51 | 'Track01500' goes to train |
| `ResplitSlakh.ValidationStart` | splits/resplit_slakh.py:50-53 | 'Track01501' goes to validation |
| `ResplitSlakh.ValidationBoundary` | splits/resplit_slakh.py:52-53 | 'Track01875' goes to validation |
| `ResplitSlakh.TestBoundary` | splits/resplit_slakh.py:54-55 | 'Track01876' goes to test |
| `ResplitSlakh.ResetTree` | splits/resplit_slakh.py:35-58 | same tracks; a collected track (a 'Track…' directory in one of the four splits) ends in its reset destination, never 'omitted'; the others are untouched |
| `ResplitSlakh.CollectTrackDirs` | splits/resplit_slakh.py:36-46 | collects exactly the 'Track…' directories of existing split directories, each once |
| `ResplitSlakh.AppendTrack` | splits/resplit_slakh.py:43-46 | appending a collected track not yet listed keeps every listed path collected and every id listed once |
| `ResplitSlakh.MovesOfMembers` | splits/resplit_slakh.py:48-58 | a track is moved iff one of its visited paths is outside its reset destination |
| `ResplitSlakh.MisplacedIsMoved` | splits/resplit_slakh.py:57-58 | every visited track outside its destination is moved |
| `ResplitSlakh.MovedOnlyMisplaced` | splits/resplit_slakh.py:57-58 | only visited tracks outside their destination are moved |
| `ResplitSlakh.MovesOfDistinct` | splits/resplit_slakh.py:48-58 | with distinct ids, no track is moved twice |
| `ResplitSlakh.MoveTracks` | splits/resplit_slakh.py:48-58 | the visited tracks end in their reset destination, every other track keeps its split, and the moves are those of the visited tracks outside their destination |
| `ResplitSlakh.Reset` | splits/resplit_slakh.py:35-58 | the new tree is `ResetTree`; the moved tracks are exactly those not already in their destination, each moved once |
| `ResplitSlakh.ResetMovesNothingTwice` | splits/resplit_slakh.py:57-58 | a second reset moves nothing |
| `ResplitSlakh.ResetIdempotent` | splits/resplit_slakh.py:35-58 | resetting twice equals resetting once |

## Left out

- `resampling/resample.py` is not part of this model. It is floating-point resampling, decoding and file copying.
- `conversion.py` is not part of this model. It builds a shell command for a hard-coded path, and the file does not parse.
- `read_flac_to_numpy` and `_read_flac_to_numpy2`: a temporary-file round trip through ffmpeg, and a function that always raises.
- The `__main__` argument-parsing blocks of all four files.
- `do_all_submixes`: the thread pool only runs `do_submix` over independent tracks. `GetAllSrcDirs` models the directory list it maps over.
- `to_flac` / `to_wav`: each fixes `compress` and calls `_apply_ffmpeg` (`ApplyFfmpeg`).
- Thread pools and `n_threads`: parallelism only.
- `verbose`: it logs nothing. It sets ffmpeg's `overwrite_output` to `not verbose` (`conversion/flac_converter.py:31`, `conversion/flac_converter.py:45`), and the mix conversion never passes it (`conversion/flac_converter.py:85`). Overwriting is not modelled.
- Audio I/O (`sf.read`, `sf.write`, `ffmpeg`).
  - Samples are integers, so the float sums of `np.sum` are exact here.
  - Stems are single-channel.
  - The mix length is a parameter.
- The filesystem is abstract.
  - `os.walk`, `os.listdir` and the per-track `stems` listings are parameters, in listing order.
  - `os.makedirs(omit_dir)` for an 'omit' action (`splits/resplit_slakh.py:26`) is not modelled: the 'omitted' directory is not created. The other two `os.makedirs` calls are modelled. `os.makedirs(out_stems_dir)` (`conversion/flac_converter.py:76`) is the `MakeDirs` step that opens every `ConvertFolder` plan. `os.makedirs(submix_dir)` (`submixes/submixes.py:73`) is the `submixDir` of every `SubmixOutcome`, including one that ends in a `KeyError`.
  - `shutil.copytree`'s failure when the target exists is not modelled.
  - `shutil.move` onto an existing destination is not modelled.
- `SubmixEngine.FileReadyString`: lower-cases ASCII letters only. Python's `str.lower` also maps non-ASCII letters.
- `SubmixEngine.Scalar`: YAML and JSON scalars are compared structurally. Python's `True == 1` and `hash(True) == hash(1)` equate a boolean with an integer as a dictionary key or set member, and that is not modelled.
- `SubmixEngine.Scalar` has no float, list or mapping case. Float metadata values cannot be represented.
- `SubmixEngine.RecipeEntry`: a recipe's values are always a list. A null recipe value (a `TypeError` when the flattening at `submixes/submixes.py:37` iterates it) cannot be represented. Neither can a string value, which Python would iterate character by character.
- `SubmixEngine.RecipeEntry`: recipe names are strings. A name that is not a string (a YAML key such as `1:`) passes the checks at `submixes/submixes.py:35-45`. Every `do_submix` then raises `AttributeError` in `_file_ready_string` (`submixes/submixes.py:77`), after the submix directory is created at `submixes/submixes.py:73`. That failure cannot be represented.
- `SubmixEngine.SubmixFile`: a `Recipes` entry that is present but null makes the flattening at `submixes/submixes.py:37` raise `AttributeError`. The model has only `None` for `recipes`, so it reports `KeyError('Recipes')`, which belongs to a missing entry (`submixes/submixes.py:35`).
- `SubmixEngine.SubmixFile`: the `Mixing key` is a string. A key of another type (`submixes/submixes.py:43`) cannot be represented, nor can the lookup with it at `submixes/submixes.py:88`.
- `SplitTree.Json` has no float, list or mapping case. Python's falsy `0.0`, `[]` and `{}` as a `moved` or `action` value cannot be represented.
- `SplitTree.Json`: split names are strings. A `source_split` or `destination_split` that is not a string cannot be represented.
- Unparseable YAML or JSON, and files that cannot be opened.
- `FlacConverter.WavToFlacOutput`, `FlacConverter.FlacToWavOutput`: stated through `ReplaceExtension`, `ConvertedName` and `WavFlacRoundTrip` rather than contracts of their own.
- `SubmixEngine.Submixes.DoSubmix`: requires `EqualLengths`, all stems of the track of one length. This is stronger than the source: `np.sum` at `submixes/submixes.py:108` only adds the stems of one bucket, so stems of different lengths in different buckets run fine there. Tracks like that are outside the model.
- `SubmixEngine.Submixes.SubmixSpec`, `SubmixEngine.Submixes.BucketFile`, `SubmixEngine.MembersSameLength`, `SubmixEngine.Submixes.WriteBuckets`, `SubmixEngine.Submixes.SubmixWritesEveryBucket`, `SubmixEngine.Submixes.SubmixStopsAtFirstMissingKey`: the same `EqualLengths` precondition as `DoSubmix`.
- `FlacConverter.ConvertFolder`: it records the conversions to run. ffmpeg's `run_async` processes and `overwrite_output` are not modelled.
- `ResplitSlakh.Reset`: `os.listdir` order is arbitrary, so the order in which tracks are collected and moved is left unspecified. The contract fixes only the resulting tree and the set of moves.
