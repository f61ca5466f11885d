/**
 * The Slakh2100 directory tree as the split scripts see it, and the one
 * thing they do to it: move a track directory from one split directory to
 * another. A JSON split file is processed entry by entry; each entry first
 * decides what to do (stay, relocate, or raise), then the move is made.
 */
module SplitTree {
  import opened Outcomes

  /** Each track directory `<base>/<split>/<id>`, keyed by its id, with the split directory that holds it. */
  type Tree = map<string, string>

  /** A JSON scalar as `json.load` returns it. */
  datatype Json = JNull | JBool(b: bool) | JInt(i: int) | JStr(s: string)

  /** Python truthiness of a JSON scalar. */
  predicate Truthy(j: Json)
  {
    match j
    case JNull => false
    case JBool(b) => b
    case JInt(i) => i != 0
    case JStr(s) => s != []
  }

  /** The exceptions the split scripts can raise. */
  datatype SplitError =
    | KeyError(key: string)           // a field missing from a split-file entry
    | ValueError(action: Json)        // an action that is neither 'move' nor 'omit'
    | FileNotFound(split: string, id: string)  // `<base>/<split>/<id>` does not exist

  /** What one split-file entry asks for. */
  datatype Decision = Stay | Relocate(source: string, destination: string)

  /**
   * `shutil.move(<base>/<source>/<id>, <base>/<destination>/<id>)`: fails when
   * the track is not in the source split; otherwise only that track changes
   * split (a missing destination split directory is created on the way).
   */
  function Move(t: Tree, id: string, source: string, destination: string): (r: Result<Tree, SplitError>)
    ensures r.Ok? <==> id in t && t[id] == source
    ensures r.Err? ==> r.error == FileNotFound(source, id)
    ensures r.Ok? ==> r.value.Keys == t.Keys && r.value[id] == destination
    ensures r.Ok? ==> forall x :: x in t && x != id ==> r.value[x] == t[x]
  {
    if id in t && t[id] == source then Ok(t[id := destination]) else Err(FileNotFound(source, id))
  }

  /** Carries out one entry's decision for track `id`. */
  function Step(t: Tree, id: string, d: Result<Decision, SplitError>): Result<Tree, SplitError>
  {
    match d
    case Err(e) => Err(e)
    case Ok(Stay) => Ok(t)
    case Ok(Relocate(source, destination)) => Move(t, id, source, destination)
  }

  /** The tree after a run and the exception that stopped it, if any. */
  datatype RunOutcome = RunOutcome(tree: Tree, error: Option<SplitError>)

  predicate Names(ds: seq<(string, Result<Decision, SplitError>)>, id: string)
  {
    exists k :: 0 <= k < |ds| && ds[k].0 == id
  }

  /**
   * Entries processed in file order; the first exception stops the run and
   * the moves made before it stay made. Tracks no entry names keep their split.
   */
  function Run(t: Tree, ds: seq<(string, Result<Decision, SplitError>)>): (r: RunOutcome)
    ensures r.tree.Keys == t.Keys
    ensures forall x :: x in t && !Names(ds, x) ==> r.tree[x] == t[x]
    decreases |ds|
  {
    if ds == [] then RunOutcome(t, None)
    else
      match Step(t, ds[0].0, ds[0].1)
      case Err(e) => RunOutcome(t, Some(e))
      case Ok(t') =>
        var r := Run(t', ds[1..]);
        assert forall x :: Names(ds[1..], x) ==> Names(ds, x) by {
          forall x | Names(ds[1..], x) ensures Names(ds, x) {
            var k :| 0 <= k < |ds[1..]| && ds[1..][k].0 == x;
            assert ds[k + 1].0 == x;
          }
        }
        r
  }

  /** Running two lists of entries back to back is running their concatenation. */
  lemma {:induction false} RunAppend(t: Tree, a: seq<(string, Result<Decision, SplitError>)>, b: seq<(string, Result<Decision, SplitError>)>)
    ensures Run(t, a + b) == if Run(t, a).error.Some? then Run(t, a) else Run(Run(t, a).tree, b)
    decreases |a|
  {
    if a == [] {
      assert a + b == b;
    } else {
      assert (a + b)[0] == a[0] && (a + b)[1..] == a[1..] + b;
      match Step(t, a[0].0, a[0].1)
      case Err(e) =>
      case Ok(t') => RunAppend(t', a[1..], b);
    }
  }

  /**
   * No rollback: when entry `k` raises after the entries before it went
   * through, the run ends with that exception and the tree the first `k`
   * entries left.
   */
  lemma StopsAtFirstError(t: Tree, ds: seq<(string, Result<Decision, SplitError>)>, k: nat)
    requires k < |ds| && Run(t, ds[..k]).error.None?
    requires Step(Run(t, ds[..k]).tree, ds[k].0, ds[k].1).Err?
    ensures Run(t, ds) == RunOutcome(Run(t, ds[..k]).tree, Some(Step(Run(t, ds[..k]).tree, ds[k].0, ds[k].1).error))
  {
    assert ds == ds[..k] + ds[k..];
    RunAppend(t, ds[..k], ds[k..]);
  }

  /**
   * When no entry raises and the entries name distinct tracks, a relocated
   * track ends in its destination split and a staying track where it was.
   */
  lemma {:induction false} RunPlacesEachTrack(t: Tree, ds: seq<(string, Result<Decision, SplitError>)>, k: nat)
    requires k < |ds| && Run(t, ds).error.None?
    requires forall i, j :: 0 <= i < j < |ds| ==> ds[i].0 != ds[j].0
    ensures ds[k].1.Ok?
    ensures ds[k].1 == Ok(Stay) ==> ds[k].0 in t ==> Run(t, ds).tree[ds[k].0] == t[ds[k].0]
    ensures ds[k].1.Ok? && ds[k].1.value.Relocate? ==>
              ds[k].0 in t && t[ds[k].0] == ds[k].1.value.source &&
              Run(t, ds).tree[ds[k].0] == ds[k].1.value.destination
    decreases |ds|
  {
    var t' := Step(t, ds[0].0, ds[0].1).value;
    var rest := ds[1..];
    if k == 0 {
      assert forall j :: 0 <= j < |rest| ==> rest[j].0 == ds[j + 1].0;
    } else {
      RunPlacesEachTrack(t', rest, k - 1);
      assert ds[k] == rest[k - 1];
    }
  }
}
