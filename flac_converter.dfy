/**
 * Conversion of a Slakh2100 dataset between WAV and FLAC: which track
 * directories are converted, where each converted file lands, and which
 * file operations one track directory receives. The codec itself (ffmpeg)
 * is not modelled; a conversion appears as an operation naming its input
 * and output directory.
 */
module FlacConverter {
  import opened Outcomes
  import opened PosixPath
  import opened Lexicographic

  const WavExt: string := "wav"
  const FlacExt: string := "flac"

  /** `_wav_to_flac` or `_flac_to_wav`. */
  datatype Converter = WavToFlac | FlacToWav

  /** The name of an input file with its last extension replaced by `ext`, placed in `outputDir`. */
  function ReplaceExtension(inputPath: string, outputDir: string, ext: string): (r: string)
    requires Sep !in ext
    ensures Basename(r) == Root(Basename(inputPath)) + [ExtSep] + ext
    ensures |outputDir| <= |r| && r[..|outputDir|] == outputDir
    ensures r == Join(outputDir, Basename(r))
  {
    var base := Basename(inputPath);
    var root := Root(base);
    assert Sep !in root by {
      assert root + SplitExt(base).1 == base;
      assert forall k :: 0 <= k < |root| ==> root[k] == base[k];
    }
    var name := root + [ExtSep] + ext;
    assert Sep !in name && name != [];
    assert Basename(Join(outputDir, name)) == name by { BasenameOfJoin(outputDir, name); }
    assert |outputDir| <= |Join(outputDir, name)| && Join(outputDir, name)[..|outputDir|] == outputDir by {
      JoinKeepsDirectory(outputDir, name);
    }
    Join(outputDir, name)
  }

  /** Output path of `_wav_to_flac`: the input's basename, `.flac` in place of its extension, in `outputDir`. */
  function WavToFlacOutput(inputPath: string, outputDir: string): string
  {
    ReplaceExtension(inputPath, outputDir, FlacExt)
  }

  /** Output path of `_flac_to_wav`: the input's basename, `.wav` in place of its extension, in `outputDir`. */
  function FlacToWavOutput(inputPath: string, outputDir: string): string
  {
    ReplaceExtension(inputPath, outputDir, WavExt)
  }

  function ConverterOutput(c: Converter, inputPath: string, outputDir: string): string
  {
    match c
    case WavToFlac => WavToFlacOutput(inputPath, outputDir)
    case FlacToWav => FlacToWavOutput(inputPath, outputDir)
  }

  /** Converting a file named `name.ext` yields a file named `name.newExt`. */
  lemma ConvertedBasename(inputPath: string, outputDir: string, name: string, ext: string, newExt: string)
    requires Basename(inputPath) == name + [ExtSep] + ext
    requires ExtSep !in ext && Sep !in ext && Sep !in newExt
    requires exists k :: 0 <= k < |name| && name[k] != ExtSep
    ensures Basename(ReplaceExtension(inputPath, outputDir, newExt)) == name + [ExtSep] + newExt
  {
    assert name == Basename(inputPath)[..|name|];
    SplitExtOfAddedExt(name, ext);
  }

  /**
   * A `.wav` file whose name before the extension has a character other
   * than a dot comes back under its own name after a conversion to FLAC and
   * back to WAV.
   */
  lemma WavFlacRoundTrip(inputPath: string, name: string, flacDir: string, wavDir: string)
    requires Basename(inputPath) == name + [ExtSep] + WavExt
    requires exists k :: 0 <= k < |name| && name[k] != ExtSep
    ensures Basename(FlacToWavOutput(WavToFlacOutput(inputPath, flacDir), wavDir)) == Basename(inputPath)
  {
    assert ExtSep !in WavExt && Sep !in WavExt && ExtSep !in FlacExt && Sep !in FlacExt;
    ExtensionRoundTrip(inputPath, name, WavExt, FlacExt, flacDir, wavDir);
  }

  /** Replacing extension `ext` by `other` and then by `ext` again gives back the original name. */
  lemma ExtensionRoundTrip(inputPath: string, name: string, ext: string, other: string, dir1: string, dir2: string)
    requires Basename(inputPath) == name + [ExtSep] + ext
    requires exists k :: 0 <= k < |name| && name[k] != ExtSep
    requires ExtSep !in ext && Sep !in ext && ExtSep !in other && Sep !in other
    ensures Basename(ReplaceExtension(ReplaceExtension(inputPath, dir1, other), dir2, ext)) == Basename(inputPath)
  {
    ConvertedBasename(inputPath, dir1, name, ext, other);
    ConvertedBasename(ReplaceExtension(inputPath, dir1, other), dir2, name, other, ext);
  }

  // ------------------------------------------------------- track selection

  /** One entry of `os.listdir(input_dir)`. */
  datatype DirEntry = DirEntry(name: string, isDir: bool)

  /** `[os.path.join(input_dir, d) for d in os.listdir(input_dir) if os.path.isdir(...)]`. */
  function SubdirPaths(inputDir: string, listing: seq<DirEntry>): (r: seq<string>)
    ensures forall p :: p in r <==> exists k :: 0 <= k < |listing| && listing[k].isDir && p == Join(inputDir, listing[k].name)
  {
    if listing == [] then []
    else
      var rest := SubdirPaths(inputDir, listing[1..]);
      assert forall k :: 0 < k < |listing| ==> listing[k] == listing[1..][k - 1];
      (if listing[0].isDir then [Join(inputDir, listing[0].name)] else []) + rest
  }

  /** The track directories in sorted order. */
  function TrackDirectories(inputDir: string, listing: seq<DirEntry>): (r: seq<string>)
    ensures Sorted(r)
    ensures multiset(r) == multiset(SubdirPaths(inputDir, listing))
  {
    Sort(SubdirPaths(inputDir, listing))
  }

  /** A slice bound as Python normalises it against length `n`: negatives count from the end, then clamp to [0, n]. */
  function SliceBound(bound: Option<int>, n: nat, default: nat): (r: nat)
    requires default <= n
    ensures r <= n
  {
    match bound
    case None => default
    case Some(v) =>
      if v < 0 then (if v + n < 0 then 0 else v + n)
      else if v > n then n
      else v
  }

  /** `s[lo:hi]` in Python. */
  function PySlice<T>(s: seq<T>, lo: Option<int>, hi: Option<int>): (r: seq<T>)
    ensures |r| <= |s|
    ensures var i := SliceBound(lo, |s|, 0);
            var j := SliceBound(hi, |s|, |s|);
            |r| == (if i < j then j - i else 0) && forall k :: 0 <= k < |r| ==> r[k] == s[i + k]
  {
    var i := SliceBound(lo, |s|, 0);
    var j := SliceBound(hi, |s|, |s|);
    if i < j then s[i..j] else []
  }

  /** `_make_track_subset`: the sorted track directories, cut down by 1-based `start` and `end`. */
  function MakeTrackSubset(inputDir: string, listing: seq<DirEntry>, start: Option<int>, end: Option<int>): (r: seq<string>)
    ensures |r| <= |TrackDirectories(inputDir, listing)|
  {
    SelectTracks(TrackDirectories(inputDir, listing), start, end)
  }

  /** The slice `_make_track_subset` takes of the sorted track directories. */
  function SelectTracks(trackDirectories: seq<string>, start: Option<int>, end: Option<int>): (r: seq<string>)
    ensures |r| <= |trackDirectories|
  {
    if start.Some? && end.Some? then PySlice(trackDirectories, Some(start.value - 1), Some(end.value - 1))
    else if start.Some? then PySlice(trackDirectories, Some(start.value - 1), None)
    else if end.Some? then PySlice(trackDirectories, None, Some(end.value - 1))
    else trackDirectories
  }

  function Min(a: int, b: int): int { if a < b then a else b }

  /**
   * With positive bounds (or none) the subset is the contiguous run of
   * sorted track directories from position `start` up to, but not
   * including, position `end`, clamped to the list.
   */
  lemma SubsetOfPositiveBounds(inputDir: string, listing: seq<DirEntry>, start: Option<int>, end: Option<int>)
    requires start.Some? ==> start.value >= 1
    requires end.Some? ==> end.value >= 1
    ensures var all := TrackDirectories(inputDir, listing);
            var lo := if start.Some? then Min(start.value - 1, |all|) else 0;
            var hi := if end.Some? then Min(end.value - 1, |all|) else |all|;
            var r := MakeTrackSubset(inputDir, listing, start, end);
            r == (if lo < hi then all[lo..hi] else []) &&
            |r| == (if lo < hi then hi - lo else 0)
  {
    SelectWithPositiveBounds(TrackDirectories(inputDir, listing), start, end);
  }

  /** `SubsetOfPositiveBounds` for any list of track directories. */
  lemma SelectWithPositiveBounds(all: seq<string>, start: Option<int>, end: Option<int>)
    requires start.Some? ==> start.value >= 1
    requires end.Some? ==> end.value >= 1
    ensures var lo := if start.Some? then Min(start.value - 1, |all|) else 0;
            var hi := if end.Some? then Min(end.value - 1, |all|) else |all|;
            var r := SelectTracks(all, start, end);
            r == (if lo < hi then all[lo..hi] else []) &&
            |r| == (if lo < hi then hi - lo else 0)
  {
    var lo := if start.Some? then Some(start.value - 1) else None;
    var hi := if end.Some? then Some(end.value - 1) else None;
    var r := SelectTracks(all, start, end);
    assert r == PySlice(all, lo, hi);
    PySliceOfNonNegative(all, lo, hi);
    var i := if start.Some? then Min(start.value - 1, |all|) else 0;
    var j := if end.Some? then Min(end.value - 1, |all|) else |all|;
    assert i == (if lo.Some? then Min(lo.value, |all|) else 0);
    assert j == (if hi.Some? then Min(hi.value, |all|) else |all|);
    assert r == (if i < j then all[i..j] else []);
  }

  /** With non-negative bounds (or none) a Python slice is the run between the bounds, clamped to the list. */
  lemma PySliceOfNonNegative<T>(s: seq<T>, lo: Option<int>, hi: Option<int>)
    requires lo.Some? ==> lo.value >= 0
    requires hi.Some? ==> hi.value >= 0
    ensures var i := if lo.Some? then Min(lo.value, |s|) else 0;
            var j := if hi.Some? then Min(hi.value, |s|) else |s|;
            PySlice(s, lo, hi) == (if i < j then s[i..j] else [])
  {
    var i := if lo.Some? then Min(lo.value, |s|) else 0;
    var j := if hi.Some? then Min(hi.value, |s|) else |s|;
    assert SliceBound(lo, |s|, 0) == i && SliceBound(hi, |s|, |s|) == j;
  }

  /** Converting tracks `start` to `end` converts `end - start` of them: the track at position `end` is left out. */
  lemma EndPositionExcluded(inputDir: string, listing: seq<DirEntry>, start: int, end: int)
    requires 1 <= start <= end <= |TrackDirectories(inputDir, listing)|
    ensures var all := TrackDirectories(inputDir, listing);
            var r := MakeTrackSubset(inputDir, listing, Some(start), Some(end));
            |r| == end - start && r == all[start - 1..end - 1]
  {
    SubsetOfPositiveBounds(inputDir, listing, Some(start), Some(end));
  }

  /** `start = 0` becomes Python index -1, so only the last track directory is converted. */
  lemma StartZeroSelectsLast(inputDir: string, listing: seq<DirEntry>)
    requires |TrackDirectories(inputDir, listing)| > 0
    ensures var all := TrackDirectories(inputDir, listing);
            MakeTrackSubset(inputDir, listing, Some(0), None) == [all[|all| - 1]]
  {
  }

  // --------------------------------------------------- converting a folder

  /** An effect on the file system. */
  datatype FileOp =
    | MakeDirs(path: string)
    | CopyFile(source: string, target: string)
    | CopyTree(source: string, target: string)
    | Convert(converter: Converter, input: string, outputDir: string)

  const StemsDir: string := "stems"

  /**
   * The effects of `_convert_folder` for one track: create the output stems
   * directory, copy `metadata.yaml`, `all_src.mid` and the `MIDI` tree,
   * convert the mix into the output track directory, then convert each
   * entry of the input stems directory, in listing order, into the output
   * stems directory.
   */
  ghost predicate IsFolderPlan(ops: seq<FileOp>, inTrackDir: string, mixName: string, outputBaseDir: string,
                               c: Converter, stemEntries: seq<string>)
  {
    var outTrackDir := Join(outputBaseDir, Basename(inTrackDir));
    var outStemsDir := Join(outTrackDir, StemsDir);
    var inStemsDir := Join(inTrackDir, StemsDir);
    && |ops| == 5 + |stemEntries|
    && ops[0] == MakeDirs(outStemsDir)
    && ops[1] == CopyFile(Join(inTrackDir, "metadata.yaml"), Join(outTrackDir, "metadata.yaml"))
    && ops[2] == CopyFile(Join(inTrackDir, "all_src.mid"), Join(outTrackDir, "all_src.mid"))
    && ops[3] == CopyTree(Join(inTrackDir, "MIDI"), Join(outTrackDir, "MIDI"))
    && ops[4] == Convert(c, Join(inTrackDir, mixName), outTrackDir)
    && forall i :: 0 <= i < |stemEntries| ==> ops[5 + i] == Convert(c, Join(inStemsDir, stemEntries[i]), outStemsDir)
  }

  /** `_convert_folder`, returning the file operations it performs. */
  method ConvertFolder(inTrackDir: string, mixName: string, outputBaseDir: string, c: Converter, stemEntries: seq<string>)
    returns (ops: seq<FileOp>)
    ensures IsFolderPlan(ops, inTrackDir, mixName, outputBaseDir, c, stemEntries)
  {
    var trackDirBasename := Basename(inTrackDir);
    var inMixPath := Join(inTrackDir, mixName);
    var outTrackDir := Join(outputBaseDir, trackDirBasename);
    var outStemsDir := Join(outTrackDir, StemsDir);
    var header := [MakeDirs(outStemsDir),
                   CopyFile(Join(inTrackDir, "metadata.yaml"), Join(outTrackDir, "metadata.yaml")),
                   CopyFile(Join(inTrackDir, "all_src.mid"), Join(outTrackDir, "all_src.mid")),
                   CopyTree(Join(inTrackDir, "MIDI"), Join(outTrackDir, "MIDI")),
                   Convert(c, inMixPath, outTrackDir)];
    ops := header;
    var inStemsDir := Join(inTrackDir, StemsDir);
    for i := 0 to |stemEntries|
      invariant |ops| == 5 + i
      invariant ops[..5] == header
      invariant forall k :: 0 <= k < i ==> ops[5 + k] == Convert(c, Join(inStemsDir, stemEntries[k]), outStemsDir)
    {
      var srcPath := Join(inStemsDir, stemEntries[i]);
      ops := ops + [Convert(c, srcPath, outStemsDir)];
    }
    assert ops[0] == header[0] && ops[1] == header[1] && ops[2] == header[2];
    assert ops[3] == header[3] && ops[4] == header[4];
  }

  /**
   * Where the conversion of stem entry `i` (a plain file name) lands:
   * `<output>/<track>/stems/<entry without extension>.<new extension>`.
   */
  lemma FolderPlanTargets(ops: seq<FileOp>, inTrackDir: string, mixName: string, outputBaseDir: string,
                          c: Converter, stemEntries: seq<string>, i: nat)
    requires IsFolderPlan(ops, inTrackDir, mixName, outputBaseDir, c, stemEntries)
    requires i < |stemEntries| && stemEntries[i] != [] && Sep !in stemEntries[i]
    ensures ops[5 + i].Convert?
    ensures ops[5 + i].outputDir == Join(Join(outputBaseDir, Basename(inTrackDir)), StemsDir)
    ensures Basename(ConverterOutput(c, ops[5 + i].input, ops[5 + i].outputDir)) ==
              Root(stemEntries[i]) + [ExtSep] + (if c == WavToFlac then FlacExt else WavExt)
  {
    var op := ops[5 + i];
    assert op == Convert(c, Join(Join(inTrackDir, StemsDir), stemEntries[i]), Join(Join(outputBaseDir, Basename(inTrackDir)), StemsDir));
    BasenameOfJoin(Join(inTrackDir, StemsDir), stemEntries[i]);
    ConvertedName(c, op.input, op.outputDir);
  }

  /** A conversion keeps the input's name up to its extension and puts the converter's target extension on it. */
  lemma ConvertedName(c: Converter, inputPath: string, outputDir: string)
    ensures Basename(ConverterOutput(c, inputPath, outputDir)) ==
              Root(Basename(inputPath)) + [ExtSep] + (if c == WavToFlac then FlacExt else WavExt)
  {
    if c == WavToFlac {
      assert ConverterOutput(c, inputPath, outputDir) == ReplaceExtension(inputPath, outputDir, FlacExt);
    } else {
      assert ConverterOutput(c, inputPath, outputDir) == ReplaceExtension(inputPath, outputDir, WavExt);
    }
  }

  // --------------------------------------------------------- _apply_ffmpeg

  /** `compress` picks the converter and the name of the mix file it reads. */
  function SelectConverter(compress: bool): (Converter, string)
  {
    if compress then (WavToFlac, "mix.wav") else (FlacToWav, "mix.flac")
  }

  /** The selected mix file is the one the selected converter turns into the other format. */
  lemma SelectedMixConverts(compress: bool, inTrackDir: string, outTrackDir: string)
    ensures var (c, mixName) := SelectConverter(compress);
            Basename(ConverterOutput(c, Join(inTrackDir, mixName), outTrackDir)) ==
              "mix" + [ExtSep] + (if compress then FlacExt else WavExt)
  {
    var mix := "mix";
    assert mix[0] != ExtSep;
    if compress {
      var mixName := mix + [ExtSep] + WavExt;
      assert mixName == "mix.wav";
      BasenameOfJoin(inTrackDir, mixName);
      ConvertedBasename(Join(inTrackDir, mixName), outTrackDir, mix, WavExt, FlacExt);
    } else {
      var mixName := mix + [ExtSep] + FlacExt;
      assert mixName == "mix.flac";
      BasenameOfJoin(inTrackDir, mixName);
      ConvertedBasename(Join(inTrackDir, mixName), outTrackDir, mix, FlacExt, WavExt);
    }
  }

  /** The plans for the first tracks, followed by the plan for the next one, are the plans for one more track. */
  lemma FolderPlansSnoc(plans: seq<seq<FileOp>>, ops: seq<FileOp>, tracks: seq<string>, mixName: string,
                        outputDir: string, c: Converter, stemsOf: string -> seq<string>)
    requires |plans| < |tracks|
    requires forall k :: 0 <= k < |plans| ==> IsFolderPlan(plans[k], tracks[k], mixName, outputDir, c, stemsOf(tracks[k]))
    requires IsFolderPlan(ops, tracks[|plans|], mixName, outputDir, c, stemsOf(tracks[|plans|]))
    ensures forall k :: 0 <= k < |plans| + 1 ==>
              IsFolderPlan((plans + [ops])[k], tracks[k], mixName, outputDir, c, stemsOf(tracks[k]))
  {
    forall k | 0 <= k < |plans| + 1
      ensures IsFolderPlan((plans + [ops])[k], tracks[k], mixName, outputDir, c, stemsOf(tracks[k]))
    {
      if k < |plans| {
        assert (plans + [ops])[k] == plans[k];
      } else {
        assert (plans + [ops])[k] == ops;
      }
    }
  }

  /**
   * `_apply_ffmpeg`: picks the converter and mix name, selects the tracks,
   * and plans `_convert_folder` for each selected track; `stemsOf` lists a
   * track's input stems directory.
   */
  method ApplyFfmpeg(baseDir: string, listing: seq<DirEntry>, outputDir: string, compress: bool,
                     start: Option<int>, end: Option<int>, stemsOf: string -> seq<string>)
    returns (c: Converter, mixName: string, plans: seq<seq<FileOp>>)
    ensures (c, mixName) == SelectConverter(compress)
    ensures var tracks := MakeTrackSubset(baseDir, listing, start, end);
            |plans| == |tracks| &&
            forall i :: 0 <= i < |tracks| ==> IsFolderPlan(plans[i], tracks[i], mixName, outputDir, c, stemsOf(tracks[i]))
  {
    if compress {
      c, mixName := WavToFlac, "mix.wav";
    } else {
      c, mixName := FlacToWav, "mix.flac";
    }
    var trackDirectories := MakeTrackSubset(baseDir, listing, start, end);
    plans := [];
    for i := 0 to |trackDirectories|
      invariant |plans| == i
      invariant forall k :: 0 <= k < i ==>
                  IsFolderPlan(plans[k], trackDirectories[k], mixName, outputDir, c, stemsOf(trackDirectories[k]))
    {
      var ops := ConvertFolder(trackDirectories[i], mixName, outputDir, c, stemsOf(trackDirectories[i]));
      FolderPlansSnoc(plans, ops, trackDirectories, mixName, outputDir, c, stemsOf);
      plans := plans + [ops];
    }
  }
}
