/**
 * `do_all_updates` applies a split file (splits_v2.json or redux.json) whose
 * entries carry an action; `reset` puts every track back into the split its
 * id belongs to in the original Slakh2100 layout.
 */
module ResplitSlakh {
  import opened Outcomes
  import opened SplitTree
  import opened Lexicographic

  const OmittedSplit: string := "omitted"
  const TrainSplit: string := "train"
  const ValidationSplit: string := "validation"
  const TestSplit: string := "test"

  /** The split directories `reset` looks into, in the order it visits them. */
  const SplitDirs: seq<string> := [TrainSplit, ValidationSplit, TestSplit, OmittedSplit]

  /** The last ids of the original train and validation splits. */
  const LastTrainId: string := "Track01500"
  const LastValidationId: string := "Track01875"

  /** One entry of the split file; `None` is a key the entry lacks. */
  datatype UpdateEntry = UpdateEntry(action: Option<Json>, sourceSplit: Option<string>, destinationSplit: Option<string>)

  /**
   * The action dispatch of one entry: a falsy action does nothing, 'move'
   * relocates to the destination split, 'omit' to the omitted split, and any
   * other truthy action raises `ValueError`.
   */
  function UpdateDecision(e: UpdateEntry): (r: Result<Decision, SplitError>)
    ensures r == Err(KeyError("action")) <==> e.action.None?
    ensures r == Ok(Stay) <==> e.action.Some? && !Truthy(e.action.value)
    ensures r == Err(KeyError("source_split")) <==>
              e.action.Some? && Truthy(e.action.value) && e.sourceSplit.None?
    ensures r == Err(KeyError("destination_split")) <==>
              e.action == Some(JStr("move")) && e.sourceSplit.Some? && e.destinationSplit.None?
    ensures r.Ok? && r.value.Relocate? ==> e.sourceSplit == Some(r.value.source)
    ensures r.Ok? && r.value.Relocate? && e.action == Some(JStr("move")) ==>
              e.destinationSplit == Some(r.value.destination)
    ensures e.action == Some(JStr("move")) && e.sourceSplit.Some? && e.destinationSplit.Some? ==>
              r == Ok(Relocate(e.sourceSplit.value, e.destinationSplit.value))
    ensures e.action == Some(JStr("omit")) && e.sourceSplit.Some? ==>
              r == Ok(Relocate(e.sourceSplit.value, OmittedSplit))
    ensures r.Err? && r.error.ValueError? <==>
              e.action.Some? && Truthy(e.action.value) && e.sourceSplit.Some? &&
              e.action.value != JStr("move") && e.action.value != JStr("omit")
  {
    if e.action.None? then Err(KeyError("action"))
    else
      var action := e.action.value;
      if !Truthy(action) then Ok(Stay)
      else if e.sourceSplit.None? then Err(KeyError("source_split"))
      else if action == JStr("move") then
        if e.destinationSplit.None? then Err(KeyError("destination_split"))
        else Ok(Relocate(e.sourceSplit.value, e.destinationSplit.value))
      else if action == JStr("omit") then Ok(Relocate(e.sourceSplit.value, OmittedSplit))
      else Err(ValueError(action))
  }

  function UpdateDecisions(newSplits: seq<(string, UpdateEntry)>): (ds: seq<(string, Result<Decision, SplitError>)>)
    ensures |ds| == |newSplits|
    ensures forall k :: 0 <= k < |ds| ==> ds[k] == (newSplits[k].0, UpdateDecision(newSplits[k].1))
  {
    seq(|newSplits|, k requires 0 <= k < |newSplits| => (newSplits[k].0, UpdateDecision(newSplits[k].1)))
  }

  /**
   * Processes the entries in file order; the first exception stops the loop
   * and is returned with the tree as it then is (earlier moves stay made).
   */
  method DoAllUpdates(tree: Tree, newSplits: seq<(string, UpdateEntry)>) returns (result: Tree, error: Option<SplitError>)
    ensures RunOutcome(result, error) == Run(tree, UpdateDecisions(newSplits))
  {
    var ds := UpdateDecisions(newSplits);
    result := tree;
    for i := 0 to |newSplits|
      invariant Run(tree, ds) == Run(result, ds[i..])
    {
      assert ds[i..][0] == ds[i] && ds[i..][1..] == ds[i + 1..];
      var (trackId, trackDict) := newSplits[i];
      if trackDict.action.None? {
        return result, Some(KeyError("action"));
      }
      var action := trackDict.action.value;
      if Truthy(action) {
        if trackDict.sourceSplit.None? {
          return result, Some(KeyError("source_split"));
        }
        var sourceDir := trackDict.sourceSplit.value;
        var destDir;
        if action == JStr("move") {
          if trackDict.destinationSplit.None? {
            return result, Some(KeyError("destination_split"));
          }
          destDir := trackDict.destinationSplit.value;
        } else if action == JStr("omit") {
          // the omitted split directory is created first; the tree keeps no empty directories
          destDir := OmittedSplit;
        } else {
          return result, Some(ValueError(action));
        }
        if !(trackId in result && result[trackId] == sourceDir) {
          return result, Some(FileNotFound(sourceDir, trackId));
        }
        result := result[trackId := destDir];
      }
    }
    error := None;
  }

  /**
   * A complete run over a file naming distinct tracks leaves each 'move'
   * track in its destination split, each 'omit' track in the omitted split,
   * and each track with a falsy action where it was.
   */
  lemma UpdatesPlaceEachTrack(tree: Tree, newSplits: seq<(string, UpdateEntry)>, k: nat)
    requires k < |newSplits| && Run(tree, UpdateDecisions(newSplits)).error.None?
    requires forall i, j :: 0 <= i < j < |newSplits| ==> newSplits[i].0 != newSplits[j].0
    ensures newSplits[k].1.action.Some?
    ensures var (id, e) := newSplits[k];
            var after := Run(tree, UpdateDecisions(newSplits)).tree;
            (!Truthy(e.action.value) ==> id in tree ==> after[id] == tree[id]) &&
            (e.action.value == JStr("move") ==>
               id in tree && e.sourceSplit == Some(tree[id]) && e.destinationSplit == Some(after[id])) &&
            (e.action.value == JStr("omit") ==>
               id in tree && e.sourceSplit == Some(tree[id]) && after[id] == OmittedSplit)
  {
    RunPlacesEachTrack(tree, UpdateDecisions(newSplits), k);
  }

  /** An unknown truthy action raises `ValueError` at its entry; the entries before it stay moved. */
  lemma UnknownActionStops(tree: Tree, newSplits: seq<(string, UpdateEntry)>, k: nat)
    requires k < |newSplits|
    requires var e := newSplits[k].1;
             e.action.Some? && Truthy(e.action.value) && e.sourceSplit.Some? &&
             e.action.value != JStr("move") && e.action.value != JStr("omit")
    requires Run(tree, UpdateDecisions(newSplits[..k])).error.None?
    ensures Run(tree, UpdateDecisions(newSplits)) ==
            RunOutcome(Run(tree, UpdateDecisions(newSplits[..k])).tree, Some(ValueError(newSplits[k].1.action.value)))
  {
    var ds := UpdateDecisions(newSplits);
    assert ds[..k] == UpdateDecisions(newSplits[..k]);
    StopsAtFirstError(tree, ds, k);
  }

  // ---------------------------------------------------------------- reset

  /** `track[:5] == 'Track'`. */
  predicate IsTrackName(name: string)
  {
    |name| >= 5 && name[..5] == "Track"
  }

  /** The split of the original layout, by string comparison of the id against the two boundaries. */
  function ResetDestination(id: string): (r: string)
    ensures r == TrainSplit || r == ValidationSplit || r == TestSplit
    ensures r == TrainSplit <==> LessEq(id, LastTrainId)
    ensures r == TestSplit <==> !LessEq(id, LastValidationId)
  {
    if LessEq(id, LastTrainId) then
      assert LessEq(id, LastValidationId) by { LessEqTransitive(id, LastTrainId, LastValidationId); }
      TrainSplit
    else if LessEq(id, LastValidationId) then ValidationSplit
    else TestSplit
  }

  /** Position of a split in the original order train, validation, test. */
  function SplitRank(split: string): nat
  {
    if split == TrainSplit then 0 else if split == ValidationSplit then 1 else 2
  }

  /** Lower ids never land in a later split than higher ids. */
  lemma ResetDestinationMonotone(a: string, b: string)
    requires LessEq(a, b)
    ensures SplitRank(ResetDestination(a)) <= SplitRank(ResetDestination(b))
  {
    if LessEq(b, LastTrainId) { LessEqTransitive(a, b, LastTrainId); }
    if LessEq(b, LastValidationId) { LessEqTransitive(a, b, LastValidationId); }
  }

  /** A track directory `reset` collects: a 'Track…' id inside one of the four split directories. */
  predicate Collected(tree: Tree, id: string)
  {
    id in tree && IsTrackName(id) && tree[id] in SplitDirs
  }

  /** The tree after `reset`: collected tracks sit in their original split, everything else is untouched. */
  function ResetTree(tree: Tree): (r: Tree)
    ensures r.Keys == tree.Keys
    ensures forall id :: id in tree && !Collected(tree, id) ==> r[id] == tree[id]
    ensures forall id :: Collected(tree, id) ==> r[id] == ResetDestination(id) && r[id] != OmittedSplit
  {
    map id | id in tree :: if Collected(tree, id) then ResetDestination(id) else tree[id]
  }

  /** The tracks `reset` moves: collected ones whose original split is not their current one. */
  function ResetMoves(tree: Tree): set<string>
  {
    set id | id in tree && Collected(tree, id) && ResetDestination(id) != tree[id]
  }

  /** Ids of a list of (split, id) track paths. */
  function IdsOf(trackDirs: seq<(string, string)>): (r: set<string>)
    ensures forall x :: x in r <==> exists k :: 0 <= k < |trackDirs| && trackDirs[k].1 == x
  {
    set k | 0 <= k < |trackDirs| :: trackDirs[k].1
  }

  /**
   * The first half of `reset`: every 'Track…' directory of the four split
   * directories (each listed in whatever order the directory yields), as
   * (split, id) paths.
   */
  method CollectTrackDirs(tree: Tree) returns (trackDirs: seq<(string, string)>)
    ensures forall k :: 0 <= k < |trackDirs| ==>
              Collected(tree, trackDirs[k].1) && trackDirs[k].0 == tree[trackDirs[k].1]
    ensures forall i, j :: 0 <= i < j < |trackDirs| ==> trackDirs[i].1 != trackDirs[j].1
    ensures forall id :: id in IdsOf(trackDirs) <==> Collected(tree, id)
  {
    trackDirs := [];
    for s := 0 to |SplitDirs|
      invariant forall k :: 0 <= k < |trackDirs| ==>
                  Collected(tree, trackDirs[k].1) && trackDirs[k].0 == tree[trackDirs[k].1]
      invariant forall i, j :: 0 <= i < j < |trackDirs| ==> trackDirs[i].1 != trackDirs[j].1
      invariant forall id :: id in IdsOf(trackDirs) <==> Collected(tree, id) && tree[id] in SplitDirs[..s]
    {
      var split := SplitDirs[s];
      // os.listdir of the split directory; a split directory that does not exist lists nothing
      var listing := set id | id in tree && tree[id] == split;
      assert forall k :: 0 <= k < s ==> SplitDirs[k] != split;
      while listing != {}
        invariant listing <= set id | id in tree && tree[id] == split
        invariant forall k :: 0 <= k < |trackDirs| ==>
                    Collected(tree, trackDirs[k].1) && trackDirs[k].0 == tree[trackDirs[k].1]
        invariant forall i, j :: 0 <= i < j < |trackDirs| ==> trackDirs[i].1 != trackDirs[j].1
        invariant forall id :: id in IdsOf(trackDirs) <==>
                    Collected(tree, id) && (tree[id] in SplitDirs[..s] || (tree[id] == split && id !in listing))
        decreases listing
      {
        var track :| track in listing;
        if IsTrackName(track) {
          AppendTrack(tree, trackDirs, split, track);
          trackDirs := trackDirs + [(split, track)];
        }
        listing := listing - {track};
      }
      assert SplitDirs[..s + 1] == SplitDirs[..s] + [split];
    }
    assert SplitDirs[..|SplitDirs|] == SplitDirs;
  }

  /** Appending a collected track that is not yet listed keeps the list's invariants and adds its id. */
  lemma AppendTrack(tree: Tree, before: seq<(string, string)>, split: string, track: string)
    requires forall k :: 0 <= k < |before| ==> Collected(tree, before[k].1) && before[k].0 == tree[before[k].1]
    requires forall i, j :: 0 <= i < j < |before| ==> before[i].1 != before[j].1
    requires track !in IdsOf(before) && Collected(tree, track) && tree[track] == split
    ensures var after := before + [(split, track)];
            && (forall k :: 0 <= k < |after| ==> Collected(tree, after[k].1) && after[k].0 == tree[after[k].1])
            && (forall i, j :: 0 <= i < j < |after| ==> after[i].1 != after[j].1)
            && IdsOf(after) == IdsOf(before) + {track}
  {
    var after := before + [(split, track)];
    assert forall k :: 0 <= k < |before| ==> after[k] == before[k];
    assert after[|before|] == (split, track);
  }

  /**
   * The tracks among the first `n` (split, id) paths whose original split
   * is not the one they are in, in list order.
   */
  function MovesOf(trackDirs: seq<(string, string)>, n: nat): seq<string>
    requires n <= |trackDirs|
  {
    if n == 0 then []
    else MovesOf(trackDirs, n - 1) + if ResetDestination(trackDirs[n - 1].1) != trackDirs[n - 1].0 then [trackDirs[n - 1].1] else []
  }

  /** A track is among the moves iff one of its first `n` paths is outside its original split. */
  lemma MovesOfMembers(trackDirs: seq<(string, string)>, n: nat)
    requires n <= |trackDirs|
    ensures forall x :: x in MovesOf(trackDirs, n) <==>
              exists k :: 0 <= k < n && trackDirs[k].1 == x && ResetDestination(x) != trackDirs[k].0
  {
    forall x
      ensures x in MovesOf(trackDirs, n) <==>
                exists k :: 0 <= k < n && trackDirs[k].1 == x && ResetDestination(x) != trackDirs[k].0
    {
      MovedOnlyMisplaced(trackDirs, n, x);
      if exists k :: 0 <= k < n && trackDirs[k].1 == x && ResetDestination(x) != trackDirs[k].0 {
        var k :| 0 <= k < n && trackDirs[k].1 == x && ResetDestination(x) != trackDirs[k].0;
        MisplacedIsMoved(trackDirs, n, k);
      }
    }
  }

  /** Every misplaced track among the first `n` paths is moved. */
  lemma {:induction false} MisplacedIsMoved(trackDirs: seq<(string, string)>, n: nat, k: nat)
    requires k < n <= |trackDirs|
    ensures ResetDestination(trackDirs[k].1) != trackDirs[k].0 ==> trackDirs[k].1 in MovesOf(trackDirs, n)
  {
    if k < n - 1 {
      MisplacedIsMoved(trackDirs, n - 1, k);
    }
  }

  /** Only misplaced tracks among the first `n` paths are moved. */
  lemma {:induction false} MovedOnlyMisplaced(trackDirs: seq<(string, string)>, n: nat, x: string)
    requires n <= |trackDirs|
    ensures x in MovesOf(trackDirs, n) ==>
              exists k :: 0 <= k < n && trackDirs[k].1 == x && ResetDestination(x) != trackDirs[k].0
  {
    if n > 0 && x in MovesOf(trackDirs, n) {
      if x in MovesOf(trackDirs, n - 1) {
        MovedOnlyMisplaced(trackDirs, n - 1, x);
      } else {
        assert trackDirs[n - 1].1 == x;
      }
    }
  }

  /** With distinct ids, no track is moved twice. */
  lemma {:induction false} MovesOfDistinct(trackDirs: seq<(string, string)>, n: nat)
    requires n <= |trackDirs|
    requires forall i, j :: 0 <= i < j < |trackDirs| ==> trackDirs[i].1 != trackDirs[j].1
    ensures Distinct(MovesOf(trackDirs, n))
  {
    if n > 0 {
      MovesOfDistinct(trackDirs, n - 1);
      var last := trackDirs[n - 1];
      var m := MovesOf(trackDirs, n - 1);
      if ResetDestination(last.1) != last.0 {
        assert last.1 !in m by {
          MovedOnlyMisplaced(trackDirs, n - 1, last.1);
        }
        DistinctSnoc(m, last.1);
      }
    }
  }

  /**
   * `reset`: collects the track directories, then moves each one whose
   * original split differs from where it is. Returns the new tree and the
   * tracks moved, in the order they were moved.
   */
  method Reset(tree: Tree) returns (result: Tree, moved: seq<string>)
    ensures result == ResetTree(tree)
    ensures Distinct(moved)
    ensures forall id :: id in moved <==> id in ResetMoves(tree)
  {
    var trackDirs := CollectTrackDirs(tree);
    ghost var done;
    result, moved, done := MoveTracks(tree, trackDirs);
    ResetLoopTree(tree, trackDirs, done, result);
    ResetLoopMoves(tree, trackDirs, moved);
  }

  /**
   * The second half of `reset`: visits the collected track paths in order
   * and moves each track whose original split is not the one it is in.
   * `done` is the set of visited ids.
   */
  method MoveTracks(tree: Tree, trackDirs: seq<(string, string)>) returns (result: Tree, moved: seq<string>, ghost done: set<string>)
    requires forall k :: 0 <= k < |trackDirs| ==> trackDirs[k].1 in tree && trackDirs[k].0 == tree[trackDirs[k].1]
    ensures result.Keys == tree.Keys
    ensures done == IdsOf(trackDirs)
    ensures forall id :: id in tree ==> result[id] == if id in done then ResetDestination(id) else tree[id]
    ensures moved == MovesOf(trackDirs, |trackDirs|)
  {
    result, moved, done := tree, [], {};
    for i := 0 to |trackDirs|
      invariant result.Keys == tree.Keys
      invariant done == IdsOf(trackDirs[..i])
      invariant forall id :: id in tree ==> result[id] == if id in done then ResetDestination(id) else tree[id]
      invariant moved == MovesOf(trackDirs, i)
    {
      var (split, trackId) := trackDirs[i];
      IdsOfSnoc(trackDirs, i);
      var destSplit := ResetDestination(trackId);
      if destSplit != split {
        result := result[trackId := destSplit];
        moved := moved + [trackId];
      }
      done := done + {trackId};
    }
    assert trackDirs[..|trackDirs|] == trackDirs;
  }

  /** One more track path adds its id. */
  lemma IdsOfSnoc(trackDirs: seq<(string, string)>, i: nat)
    requires i < |trackDirs|
    ensures IdsOf(trackDirs[..i + 1]) == IdsOf(trackDirs[..i]) + {trackDirs[i].1}
  {
    var a, b := trackDirs[..i + 1], trackDirs[..i];
    assert forall k :: 0 <= k < i ==> a[k] == b[k];
    assert a[i] == trackDirs[i];
  }

  /** Once every collected track has been visited, the loop of `Reset` has produced `ResetTree`. */
  lemma ResetLoopTree(tree: Tree, trackDirs: seq<(string, string)>, done: set<string>, result: Tree)
    requires forall id :: id in IdsOf(trackDirs) <==> Collected(tree, id)
    requires done == IdsOf(trackDirs)
    requires result.Keys == tree.Keys
    requires forall id :: id in tree ==> result[id] == if id in done then ResetDestination(id) else tree[id]
    ensures result == ResetTree(tree)
  {
    forall id | id in tree
      ensures result[id] == ResetTree(tree)[id]
    {
      if Collected(tree, id) {
        assert id in IdsOf(trackDirs);
      }
    }
  }

  /** Once every collected track has been visited, the loop of `Reset` has moved exactly `ResetMoves`. */
  lemma ResetLoopMoves(tree: Tree, trackDirs: seq<(string, string)>, moved: seq<string>)
    requires forall k :: 0 <= k < |trackDirs| ==>
               Collected(tree, trackDirs[k].1) && trackDirs[k].0 == tree[trackDirs[k].1]
    requires forall i, j :: 0 <= i < j < |trackDirs| ==> trackDirs[i].1 != trackDirs[j].1
    requires forall id :: id in IdsOf(trackDirs) <==> Collected(tree, id)
    requires moved == MovesOf(trackDirs, |trackDirs|)
    ensures Distinct(moved)
    ensures forall id :: id in moved <==> id in ResetMoves(tree)
  {
    MovesOfMembers(trackDirs, |trackDirs|);
    MovesOfDistinct(trackDirs, |trackDirs|);
    forall id | id in ResetMoves(tree)
      ensures id in moved
    {
      assert id in IdsOf(trackDirs);
      var k :| 0 <= k < |trackDirs| && trackDirs[k].1 == id;
      assert ResetDestination(id) != trackDirs[k].0;
    }
    forall id | id in moved
      ensures id in ResetMoves(tree)
    {
      var k :| 0 <= k < |trackDirs| && trackDirs[k].1 == id && ResetDestination(id) != trackDirs[k].0;
      assert Collected(tree, id) && trackDirs[k].0 == tree[id];
    }
  }

  /** A second `reset` moves nothing. */
  lemma {:induction false} ResetMovesNothingTwice(tree: Tree)
    ensures ResetMoves(ResetTree(tree)) == {}
  {
    var once := ResetTree(tree);
    forall id | id in once && Collected(once, id)
      ensures ResetDestination(id) == once[id]
    {
      assert Collected(tree, id);
    }
  }

  /** `reset` is idempotent. */
  lemma {:induction false} ResetIdempotent(tree: Tree)
    ensures ResetTree(ResetTree(tree)) == ResetTree(tree)
  {
    var once := ResetTree(tree);
    forall id | id in once
      ensures ResetTree(once)[id] == once[id]
    {
      if Collected(once, id) && !Collected(tree, id) {
        assert once[id] == tree[id];
      }
    }
  }

  /** Track01500 is the last id of the train split. */
  lemma TrainBoundary(last: string)
    requires last == "Track01500"
    ensures ResetDestination(last) == TrainSplit
  {
    assert LessEq(last, LastTrainId) by { LessEqReflexive(last); }
  }

  /** Track01501 is the first id of the validation split. */
  lemma ValidationStart(first: string)
    requires first == "Track01501"
    ensures ResetDestination(first) == ValidationSplit
  {
    assert !LessEq(first, LastTrainId) by { LessAtFirstDifference(LastTrainId, first, 9); }
    assert LessEq(first, LastValidationId) by { LessAtFirstDifference(first, LastValidationId, 7); }
  }

  /** Track01875 is the last id of the validation split. */
  lemma ValidationBoundary(last: string)
    requires last == "Track01875"
    ensures ResetDestination(last) == ValidationSplit
  {
    assert LessEq(last, LastValidationId) by { LessEqReflexive(last); }
    assert !LessEq(last, LastTrainId) by { LessAtFirstDifference(LastTrainId, last, 7); }
  }

  /** Track01876 is the first id of the test split. */
  lemma TestBoundary(first: string)
    requires first == "Track01876"
    ensures ResetDestination(first) == TestSplit
  {
    LessAtFirstDifference(LastValidationId, first, 9);
  }
}
