/**
 * `do_all_moves`: applies a split file (splits_v2.json) whose entries say
 * whether a track was moved and from which split to which.
 */
module SplitSlakh {
  import opened Outcomes
  import opened SplitTree

  /** One entry of the split file; `None` is a key the entry lacks. */
  datatype MoveEntry = MoveEntry(moved: Option<Json>, sourceSplit: Option<string>, destinationSplit: Option<string>)

  /** What one entry asks for: nothing when `moved` is falsy, a move when it is truthy. */
  function MoveDecision(e: MoveEntry): (r: Result<Decision, SplitError>)
    ensures r == Err(KeyError("moved")) <==> e.moved.None?
    ensures r == Ok(Stay) <==> e.moved.Some? && !Truthy(e.moved.value)
    ensures r.Ok? && r.value.Relocate? <==>
              e.moved.Some? && Truthy(e.moved.value) && e.sourceSplit.Some? && e.destinationSplit.Some?
    ensures r.Ok? && r.value.Relocate? ==>
              r.value == Relocate(e.sourceSplit.value, e.destinationSplit.value)
    ensures r == Err(KeyError("source_split")) <==>
              e.moved.Some? && Truthy(e.moved.value) && e.sourceSplit.None?
    ensures r == Err(KeyError("destination_split")) <==>
              e.moved.Some? && Truthy(e.moved.value) && e.sourceSplit.Some? && e.destinationSplit.None?
    ensures r.Err? ==> r.error.KeyError?
  {
    if e.moved.None? then Err(KeyError("moved"))
    else if !Truthy(e.moved.value) then Ok(Stay)
    else if e.sourceSplit.None? then Err(KeyError("source_split"))
    else if e.destinationSplit.None? then Err(KeyError("destination_split"))
    else Ok(Relocate(e.sourceSplit.value, e.destinationSplit.value))
  }

  function MoveDecisions(newSplits: seq<(string, MoveEntry)>): (ds: seq<(string, Result<Decision, SplitError>)>)
    ensures |ds| == |newSplits|
    ensures forall k :: 0 <= k < |ds| ==> ds[k] == (newSplits[k].0, MoveDecision(newSplits[k].1))
  {
    seq(|newSplits|, k requires 0 <= k < |newSplits| => (newSplits[k].0, MoveDecision(newSplits[k].1)))
  }

  /**
   * Processes the entries in file order, moving each flagged track from its
   * source split to its destination split; the first exception stops the
   * loop and is returned together with the tree as it then is.
   */
  method DoAllMoves(tree: Tree, newSplits: seq<(string, MoveEntry)>) returns (result: Tree, error: Option<SplitError>)
    ensures RunOutcome(result, error) == Run(tree, MoveDecisions(newSplits))
  {
    var ds := MoveDecisions(newSplits);
    result := tree;
    for i := 0 to |newSplits|
      invariant Run(tree, ds) == Run(result, ds[i..])
    {
      assert ds[i..][0] == ds[i] && ds[i..][1..] == ds[i + 1..];
      var (trackId, trackDict) := newSplits[i];
      if trackDict.moved.None? {
        return result, Some(KeyError("moved"));
      }
      if Truthy(trackDict.moved.value) {
        if trackDict.sourceSplit.None? {
          return result, Some(KeyError("source_split"));
        }
        var sourceDir := trackDict.sourceSplit.value;
        if trackDict.destinationSplit.None? {
          return result, Some(KeyError("destination_split"));
        }
        var destDir := trackDict.destinationSplit.value;
        if !(trackId in result && result[trackId] == sourceDir) {
          return result, Some(FileNotFound(sourceDir, trackId));
        }
        result := result[trackId := destDir];
      }
    }
    error := None;
  }

  /**
   * A complete run over a file naming distinct tracks leaves every flagged
   * track in its destination split and every unflagged track where it was.
   */
  lemma MovesPlaceEachTrack(tree: Tree, newSplits: seq<(string, MoveEntry)>, k: nat)
    requires k < |newSplits| && Run(tree, MoveDecisions(newSplits)).error.None?
    requires forall i, j :: 0 <= i < j < |newSplits| ==> newSplits[i].0 != newSplits[j].0
    ensures newSplits[k].1.moved.Some?
    ensures var (id, e) := newSplits[k];
            var after := Run(tree, MoveDecisions(newSplits)).tree;
            if Truthy(e.moved.value) then
              id in tree && e.sourceSplit == Some(tree[id]) && e.destinationSplit == Some(after[id])
            else
              id in tree ==> after[id] == tree[id]
  {
    var ds := MoveDecisions(newSplits);
    RunPlacesEachTrack(tree, ds, k);
  }

  /**
   * An entry without a `moved` key raises `KeyError` at that entry; the
   * entries before it stay moved.
   */
  lemma MissingMovedKeyStops(tree: Tree, newSplits: seq<(string, MoveEntry)>, k: nat)
    requires k < |newSplits| && newSplits[k].1.moved.None?
    requires Run(tree, MoveDecisions(newSplits[..k])).error.None?
    ensures Run(tree, MoveDecisions(newSplits)) ==
            RunOutcome(Run(tree, MoveDecisions(newSplits[..k])).tree, Some(KeyError("moved")))
  {
    var ds := MoveDecisions(newSplits);
    assert ds[..k] == MoveDecisions(newSplits[..k]);
    StopsAtFirstError(tree, ds, k);
  }
}
