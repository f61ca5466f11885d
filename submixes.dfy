/**
 * The submix recipe engine of Slakh2100: a recipe names buckets and lists
 * the metadata values (instrument classes, program numbers, ...) that belong
 * to each; every stem of a track is routed into one bucket by its metadata
 * value, and each bucket is written as the sum of its stems.
 */
module SubmixEngine {
  import opened Outcomes
  import opened PosixPath
  import opened Lexicographic

  // ------------------------------------------------------ file-ready names

  /** ASCII lower case of one character. */
  function LowerChar(c: char): char
  {
    if 'A' <= c <= 'Z' then (c as int - 'A' as int + 'a' as int) as char else c
  }

  /** What `_file_ready_string` does to one character. */
  function FileReadyChar(c: char): char
  {
    if c == ' ' then '_' else LowerChar(c)
  }

  /** `_file_ready_string`: every space becomes `_`, then everything is lower-cased. */
  function FileReadyString(s: string): (r: string)
    ensures |r| == |s|
    ensures ' ' !in r
    ensures forall i :: 0 <= i < |r| ==> !('A' <= r[i] <= 'Z')
  {
    seq(|s|, i requires 0 <= i < |s| => FileReadyChar(s[i]))
  }

  /** A file-ready string is left alone by `_file_ready_string`. */
  lemma FileReadyIdempotent(s: string)
    ensures FileReadyString(FileReadyString(s)) == FileReadyString(s)
  {
    var once := FileReadyString(s);
    var twice := FileReadyString(once);
    assert forall i :: 0 <= i < |s| ==> twice[i] == once[i];
  }

  /** The docstring example: `'Something Like This'` becomes `'something_like_this'`. */
  lemma FileReadyExample()
    ensures FileReadyString("Something Like This") == "something_like_this"
  {
  }

  // ------------------------------------------------------------- recipes

  const ResidualsKey: string := "residuals"

  /** A scalar read from YAML. */
  datatype Scalar = Null | Bool(b: bool) | Int(i: int) | Str(s: string)

  /** One `name: [values]` item of the `Recipes` mapping, in file order. */
  datatype RecipeEntry = RecipeEntry(name: string, values: seq<Scalar>)

  /** `[i for s in recipes.values() for i in s]`. */
  function AllValues(rs: seq<RecipeEntry>): (r: seq<Scalar>)
    ensures forall v :: v in r <==> exists i :: 0 <= i < |rs| && v in rs[i].values
  {
    if rs == [] then []
    else
      var init := rs[..|rs| - 1];
      assert forall i :: 0 <= i < |init| ==> init[i] == rs[i];
      AllValues(init) + rs[|rs| - 1].values
  }

  /** `set(s)`. */
  function Elements<V(==)>(s: seq<V>): set<V>
  {
    set x | x in s
  }

  /** A sequence has a repeat exactly when turning it into a set shrinks it. */
  lemma {:induction false} DistinctIffNoShrink<V>(s: seq<V>)
    ensures Distinct(s) <==> |Elements(s)| == |s|
  {
    if s != [] {
      var rest := s[1..];
      DistinctIffNoShrink(rest);
      assert Elements(s) == {s[0]} + Elements(rest);
      assert |Elements(rest)| <= |rest| by {
        ElementsBound(rest);
      }
      if s[0] in rest {
        assert Elements(s) == Elements(rest);
        var k :| 0 <= k < |rest| && rest[k] == s[0];
        assert s[0] == s[k + 1];
        assert !Distinct(s);
      } else {
        assert Distinct(s) <==> Distinct(rest) by {
          if Distinct(rest) {
            forall i, j | 0 <= i < j < |s|
              ensures s[i] != s[j]
            {
              if i == 0 {
                assert s[j] == rest[j - 1];
              } else {
                assert s[i] == rest[i - 1] && s[j] == rest[j - 1];
              }
            }
          }
          if Distinct(s) {
            forall i, j | 0 <= i < j < |rest|
              ensures rest[i] != rest[j]
            {
              assert rest[i] == s[i + 1] && rest[j] == s[j + 1];
            }
          }
        }
      }
    }
  }

  lemma {:induction false} ElementsBound<V>(s: seq<V>)
    ensures |Elements(s)| <= |s|
  {
    if s != [] {
      ElementsBound(s[1..]);
      assert Elements(s) == {s[0]} + Elements(s[1..]);
    }
  }

  /**
   * No value appears twice anywhere in the recipe: not twice in one bucket
   * and not in two buckets.
   */
  predicate ValuesUnique(rs: seq<RecipeEntry>)
  {
    && (forall i :: 0 <= i < |rs| ==> Distinct(rs[i].values))
    && (forall i, j, v :: 0 <= i < j < |rs| && v in rs[i].values ==> v !in rs[j].values)
  }

  lemma DistinctConcat<V>(a: seq<V>, b: seq<V>)
    ensures Distinct(a + b) <==> Distinct(a) && Distinct(b) && (forall v :: v in a ==> v !in b)
  {
    var ab := a + b;
    if Distinct(ab) {
      forall i, j | 0 <= i < j < |b|
        ensures b[i] != b[j]
      {
        assert ab[|a| + i] == b[i] && ab[|a| + j] == b[j];
      }
      forall v | v in a
        ensures v !in b
      {
        var i :| 0 <= i < |a| && a[i] == v;
        forall j | 0 <= j < |b|
          ensures b[j] != v
        {
          assert ab[i] != ab[|a| + j];
        }
      }
      forall i, j | 0 <= i < j < |a|
        ensures a[i] != a[j]
      {
        assert ab[i] == a[i] && ab[j] == a[j];
      }
    }
    if Distinct(a) && Distinct(b) && (forall v :: v in a ==> v !in b) {
      forall i, j | 0 <= i < j < |ab|
        ensures ab[i] != ab[j]
      {
        if j < |a| {
          assert ab[i] == a[i] && ab[j] == a[j];
        } else if i >= |a| {
          assert ab[i] == b[i - |a|] && ab[j] == b[j - |a|];
        } else {
          assert ab[i] in a && ab[j] in b;
        }
      }
    }
  }

  /** The flattened values are free of repeats exactly when the recipe's values are unique. */
  lemma {:induction false} AllValuesDistinct(rs: seq<RecipeEntry>)
    ensures Distinct(AllValues(rs)) <==> ValuesUnique(rs)
  {
    if rs != [] {
      var init := rs[..|rs| - 1];
      var last := rs[|rs| - 1];
      AllValuesDistinct(init);
      DistinctConcat(AllValues(init), last.values);
      assert forall i :: 0 <= i < |init| ==> init[i] == rs[i];
      if ValuesUnique(rs) {
        assert ValuesUnique(init);
        forall v | v in AllValues(init)
          ensures v !in last.values
        {
          var i :| 0 <= i < |init| && v in init[i].values;
        }
      }
      if Distinct(AllValues(rs)) {
        forall i, j, v | 0 <= i < j < |rs| && v in rs[i].values
          ensures v !in rs[j].values
        {
          if j < |rs| - 1 {
            assert ValuesUnique(init);
          } else {
            assert v in AllValues(init);
          }
        }
      }
    }
  }

  /** `_invert_dict`: each value maps to the name of the bucket listing it; a later bucket overrides an earlier one. */
  function InvertDict(rs: seq<RecipeEntry>): map<Scalar, string>
  {
    if rs == [] then map[] else InvertDict(rs[..|rs| - 1]) + BucketMap(rs[|rs| - 1])
  }

  /** `{i: k for i in v}` for one bucket `k: v`. */
  function BucketMap(e: RecipeEntry): map<Scalar, string>
  {
    map v | v in e.values :: e.name
  }

  /** The inverted recipe is defined on exactly the values the recipe lists. */
  lemma {:induction false} InvertDictDomain(rs: seq<RecipeEntry>)
    ensures InvertDict(rs).Keys == Elements(AllValues(rs))
  {
    if rs != [] {
      InvertDictDomain(rs[..|rs| - 1]);
    }
  }

  /** Every value of the inverted recipe is sent to a bucket that lists it. */
  lemma {:induction false} InvertDictSound(rs: seq<RecipeEntry>, v: Scalar)
    requires v in InvertDict(rs)
    ensures exists i :: 0 <= i < |rs| && v in rs[i].values && InvertDict(rs)[v] == rs[i].name
  {
    var init := rs[..|rs| - 1];
    var last := rs[|rs| - 1];
    if v !in last.values {
      InvertDictSound(init, v);
      var i :| 0 <= i < |init| && v in init[i].values && InvertDict(init)[v] == init[i].name;
      assert init[i] == rs[i];
    }
  }

  /** With unique values, the inverted recipe sends every listed value to its own bucket. */
  lemma {:induction false} InvertDictLaw(rs: seq<RecipeEntry>, i: nat, v: Scalar)
    requires ValuesUnique(rs)
    requires i < |rs| && v in rs[i].values
    ensures v in InvertDict(rs) && InvertDict(rs)[v] == rs[i].name
  {
    var init := rs[..|rs| - 1];
    var last := rs[|rs| - 1];
    assert forall k :: 0 <= k < |init| ==> init[k] == rs[k];
    if i < |rs| - 1 {
      assert ValuesUnique(init);
      InvertDictLaw(init, i, v);
      assert v !in last.values;
    }
  }

  /**
   * Of the buckets listing a value, the inverted recipe sends it to the last one: the comprehension
   * writes the buckets in order, so a later bucket's entry overwrites an earlier one's.
   */
  lemma {:induction false} InvertDictLastWins(rs: seq<RecipeEntry>, v: Scalar)
    requires v in InvertDict(rs)
    ensures exists i :: 0 <= i < |rs| && v in rs[i].values && InvertDict(rs)[v] == rs[i].name &&
                        forall j :: i < j < |rs| ==> v !in rs[j].values
  {
    var init := rs[..|rs| - 1];
    var last := rs[|rs| - 1];
    if v !in last.values {
      assert v in InvertDict(init) && InvertDict(rs)[v] == InvertDict(init)[v];
      InvertDictLastWins(init, v);
      var i :| 0 <= i < |init| && v in init[i].values && InvertDict(init)[v] == init[i].name &&
               forall j :: i < j < |init| ==> v !in init[j].values;
      assert init[i] == rs[i];
      forall j | i < j < |rs|
        ensures v !in rs[j].values
      {
        if j < |init| {
          assert init[j] == rs[j];
        }
      }
    } else {
      assert InvertDict(rs)[v] == last.name;
    }
  }

  /** Inverting one more bucket adds its values, pointing at it, over the earlier inversion. */
  lemma InvertDictSnoc(rs: seq<RecipeEntry>, e: RecipeEntry)
    ensures InvertDict(rs + [e]) == InvertDict(rs) + BucketMap(e)
  {
    assert (rs + [e])[..|rs|] == rs;
  }

  /** The docstring example of `_invert_dict`. */
  lemma InvertDictExample(a: RecipeEntry, b: RecipeEntry, c: RecipeEntry)
    requires a == RecipeEntry("a", [Int(1), Int(2), Int(3)])
    requires b == RecipeEntry("b", [Int(4), Int(5)])
    requires c == RecipeEntry("c", [Int(6), Int(7)])
    ensures InvertDict([a, b, c]) ==
            map[Int(1) := "a", Int(2) := "a", Int(3) := "a", Int(4) := "b", Int(5) := "b", Int(6) := "c", Int(7) := "c"]
  {
    InvertDictSnoc([], a);
    InvertDictSnoc([a], b);
    InvertDictSnoc([a, b], c);
    assert [] + [a] == [a] && [a] + [b] == [a, b] && [a, b] + [c] == [a, b, c];
    BucketOfThree(a);
    BucketOfTwo(b);
    BucketOfTwo(c);
    MergeExample(InvertDict([]), BucketMap(a), BucketMap(b), BucketMap(c));
  }

  lemma MergeExample(m0: map<Scalar, string>, ma: map<Scalar, string>, mb: map<Scalar, string>, mc: map<Scalar, string>)
    requires m0 == map[]
    requires ma == map[Int(1) := "a", Int(2) := "a", Int(3) := "a"]
    requires mb == map[Int(4) := "b", Int(5) := "b"]
    requires mc == map[Int(6) := "c", Int(7) := "c"]
    ensures m0 + ma + mb + mc ==
            map[Int(1) := "a", Int(2) := "a", Int(3) := "a", Int(4) := "b", Int(5) := "b", Int(6) := "c", Int(7) := "c"]
  {
  }

  lemma BucketOfTwo(e: RecipeEntry)
    requires |e.values| == 2
    ensures BucketMap(e) == map[e.values[0] := e.name, e.values[1] := e.name]
  {
  }

  lemma BucketOfThree(e: RecipeEntry)
    requires |e.values| == 3
    ensures BucketMap(e) == map[e.values[0] := e.name, e.values[1] := e.name, e.values[2] := e.name]
  {
  }

  // ---------------------------------------------------------- validation

  /** The parts of a submix definition file that `__init__` reads. */
  datatype SubmixFile = SubmixFile(recipes: Option<seq<RecipeEntry>>, mixingKey: Option<string>)

  datatype InitError =
    | MissingKey(key: string)      // KeyError
    | RepeatedValue                // LookupError
    | ReservedName(name: string)   // ValueError

  function RecipeNames(rs: seq<RecipeEntry>): (r: seq<string>)
    ensures |r| == |rs| && forall i :: 0 <= i < |rs| ==> r[i] == rs[i].name
  {
    seq(|rs|, i requires 0 <= i < |rs| => rs[i].name)
  }

  /**
   * The first check of `__init__` that fails, in the order the constructor
   * runs them, or `None` when the definition is accepted.
   */
  function CheckSubmixFile(file: SubmixFile): (r: Option<InitError>)
    ensures r == Some(MissingKey("Recipes")) <==> file.recipes.None?
    ensures r == Some(RepeatedValue) <==> file.recipes.Some? && !ValuesUnique(file.recipes.value)
    ensures r == Some(MissingKey("Mixing key")) <==>
              file.recipes.Some? && ValuesUnique(file.recipes.value) && file.mixingKey.None?
    ensures r == Some(ReservedName(ResidualsKey)) <==>
              file.recipes.Some? && ValuesUnique(file.recipes.value) && file.mixingKey.Some? &&
              ResidualsKey in RecipeNames(file.recipes.value)
    ensures r == None <==>
              file.recipes.Some? && ValuesUnique(file.recipes.value) && file.mixingKey.Some? &&
              ResidualsKey !in RecipeNames(file.recipes.value)
  {
    if file.recipes.None? then Some(MissingKey("Recipes"))
    else
      var allVals := AllValues(file.recipes.value);
      AllValuesDistinct(file.recipes.value);
      DistinctIffNoShrink(allVals);
      if |Elements(allVals)| != |allVals| then Some(RepeatedValue)
      else if file.mixingKey.None? then Some(MissingKey("Mixing key"))
      else if ResidualsKey in RecipeNames(file.recipes.value) then Some(ReservedName(ResidualsKey))
      else None
  }

  /** A recipe bucket named `'Residuals'` sanitises onto `residuals`, so there is one bucket for both. */
  lemma ResidualsAliasShares(rs: seq<RecipeEntry>)
    requires rs == [RecipeEntry("Residuals", [Str("Bass")])]
    ensures InitialBuckets(rs) == [ResidualsKey]
  {
    assert FileReadyString("Residuals") == ResidualsKey;
    var sanitized := seq(|rs|, i requires 0 <= i < |rs| => FileReadyString(rs[i].name));
    assert sanitized == [ResidualsKey];
    assert sanitized[..0] == [];
    assert Dedup(sanitized) == [ResidualsKey];
  }

  /** `'Residuals'` is not the reserved name: the check compares raw names, before sanitising. */
  lemma CapitalisedResidualsAccepted()
    ensures CheckSubmixFile(SubmixFile(Some([RecipeEntry("Residuals", [Str("Bass")])]), Some("inst_class"))) == None
    ensures FileReadyString("Residuals") == ResidualsKey
  {
    var rs := [RecipeEntry("Residuals", [Str("Bass")])];
    assert RecipeNames(rs) == ["Residuals"];
    assert ValuesUnique(rs);
  }

  // -------------------------------------------------------------- buckets

  /** `s` without repeats, each element kept where it first occurs. */
  function Dedup(s: seq<string>): (r: seq<string>)
    ensures Distinct(r)
    ensures forall x :: x in r <==> x in s
  {
    if s == [] then []
    else
      var init := Dedup(s[..|s| - 1]);
      assert s == s[..|s| - 1] + [s[|s| - 1]];
      if s[|s| - 1] in init then init else init + [s[|s| - 1]]
  }

  /**
   * The keys of `submixes_dict` in insertion order: the sanitised recipe
   * names (names that sanitise alike share one key), then `residuals` unless
   * a recipe name already sanitised to it.
   */
  function InitialBuckets(rs: seq<RecipeEntry>): (r: seq<string>)
    ensures Distinct(r)
    ensures forall b :: b in r <==> b == ResidualsKey || exists i :: 0 <= i < |rs| && b == FileReadyString(rs[i].name)
  {
    var sanitized := seq(|rs|, i requires 0 <= i < |rs| => FileReadyString(rs[i].name));
    var keys := Dedup(sanitized);
    assert forall b :: b in keys <==> exists i :: 0 <= i < |rs| && b == FileReadyString(rs[i].name) by {
      forall b | b in keys
        ensures exists i :: 0 <= i < |rs| && b == FileReadyString(rs[i].name)
      {
        var i :| 0 <= i < |sanitized| && sanitized[i] == b;
      }
      forall i | 0 <= i < |rs|
        ensures FileReadyString(rs[i].name) in keys
      {
        assert sanitized[i] == FileReadyString(rs[i].name);
      }
    }
    if ResidualsKey in keys then keys
    else
      assert forall i :: 0 <= i < |keys| ==> keys[i] != ResidualsKey;
      keys + [ResidualsKey]
  }

  /** Two recipe names that differ only in case and spaces share one bucket, next to `residuals`. */
  lemma SanitisedNamesShareBucket(rs: seq<RecipeEntry>)
    requires rs == [RecipeEntry("Lead Guitar", [Str("Guitar")]), RecipeEntry("lead guitar", [Str("Distorted Guitar")])]
    ensures InitialBuckets(rs) == ["lead_guitar", ResidualsKey]
  {
    assert FileReadyString("Lead Guitar") == "lead_guitar";
    assert FileReadyString("lead guitar") == "lead_guitar";
    var sanitized := seq(|rs|, i requires 0 <= i < |rs| => FileReadyString(rs[i].name));
    assert sanitized == ["lead_guitar", "lead_guitar"];
    assert sanitized[..1] == ["lead_guitar"];
    assert Dedup(sanitized[..1]) == ["lead_guitar"];
  }

  // ---------------------------------------------------------------- audio

  type Wave = seq<int>

  /** `np.zeros(n)`. */
  function Zeros(n: nat): (r: Wave)
    ensures |r| == n && forall k :: 0 <= k < n ==> r[k] == 0
  {
    seq(n, _ => 0)
  }

  predicate SameLength(ws: seq<Wave>, n: nat)
  {
    forall i :: 0 <= i < |ws| ==> |ws[i]| == n
  }

  /** The sum of sample `k` over all rows. */
  function ColumnSum(ws: seq<Wave>, k: nat): int
    requires forall i :: 0 <= i < |ws| ==> k < |ws[i]|
  {
    if ws == [] then 0 else ColumnSum(ws[..|ws| - 1], k) + ws[|ws| - 1][k]
  }

  /** `np.sum(ws, axis=0)` over rows of length `n`, as a fold of elementwise additions. */
  function SumRows(ws: seq<Wave>, n: nat): (r: Wave)
    requires SameLength(ws, n)
    ensures |r| == n
    ensures forall k :: 0 <= k < n ==> r[k] == ColumnSum(ws, k)
  {
    if ws == [] then Zeros(n)
    else
      var init := ws[..|ws| - 1];
      assert forall i :: 0 <= i < |init| ==> init[i] == ws[i];
      var acc := SumRows(init, n);
      var last := ws[|ws| - 1];
      seq(n, k requires 0 <= k < n => acc[k] + last[k])
  }

  /**
   * What one bucket is written as: the elementwise sum of its stems, or,
   * for an empty bucket, a row of zeros as long as the mix.
   */
  function Mixdown(ws: seq<Wave>, n: nat, mixLength: nat): (r: Wave)
    requires SameLength(ws, n)
    ensures |ws| == 0 ==> r == Zeros(mixLength)
    ensures |ws| > 0 ==> |r| == n && forall k :: 0 <= k < n ==> r[k] == ColumnSum(ws, k)
  {
    if |ws| <= 0 then SumRows([Zeros(mixLength)], mixLength) else SumRows(ws, n)
  }

  // --------------------------------------------------------- stems, runs

  /** One file of a track's `stems` directory, in listing order, with its samples. */
  datatype StemFile = StemFile(name: string, samples: Wave)

  /** A track's `metadata.yaml`: stem id to that stem's fields. */
  type Metadata = map<string, map<string, Scalar>>

  datatype SubmixError = KeyError(key: string)

  datatype OutFile = OutFile(path: string, samples: Wave)

  /** What `do_submix` leaves behind: the directory it created, the files it wrote, and the exception it raised. */
  datatype SubmixOutcome = SubmixOutcome(submixDir: string, written: seq<OutFile>, error: Option<SubmixError>)

  /** One item of `os.walk`: a directory, its sub-directories and its files. */
  datatype WalkEntry = WalkEntry(root: string, dirs: seq<string>, files: seq<string>)

  const MetadataFile: string := "metadata.yaml"

  /** `[root for root, dirs, files in walk if 'metadata.yaml' in files]`. */
  function MetadataDirs(walk: seq<WalkEntry>): (r: seq<string>)
    ensures forall d :: d in r <==> exists i :: 0 <= i < |walk| && walk[i].root == d && MetadataFile in walk[i].files
  {
    if walk == [] then []
    else
      var init := walk[..|walk| - 1];
      assert forall i :: 0 <= i < |init| ==> init[i] == walk[i];
      var last := walk[|walk| - 1];
      MetadataDirs(init) + (if MetadataFile in last.files then [last.root] else [])
  }

  /** The stems routed to bucket `b`, in listing order. */
  function Members(routes: seq<string>, stems: seq<StemFile>, b: string): (r: seq<Wave>)
    requires |routes| == |stems|
    ensures forall w :: w in r ==> exists i :: 0 <= i < |stems| && stems[i].samples == w
  {
    if routes == [] then []
    else
      var n := |routes| - 1;
      var init := Members(routes[..n], stems[..n], b);
      assert forall w :: w in init ==> exists i :: 0 <= i < n && stems[..n][i].samples == w;
      init + (if routes[n] == b then [stems[n].samples] else [])
  }

  lemma PrefixSnoc<T>(s: seq<T>, i: nat)
    requires i < |s|
    ensures s[..i + 1] == s[..i] + [s[i]]
  {
  }

  /** Appending a stem adds it to the end of its own bucket and nowhere else. */
  lemma MembersSnoc(routes: seq<string>, stems: seq<StemFile>, r: string, s: StemFile)
    requires |routes| == |stems|
    ensures forall b :: Members(routes + [r], stems + [s], b) ==
                        Members(routes, stems, b) + (if r == b then [s.samples] else [])
  {
    assert (routes + [r])[..|routes|] == routes;
    assert (stems + [s])[..|stems|] == stems;
  }

  function StemLength(stems: seq<StemFile>): nat
  {
    if stems == [] then 0 else |stems[0].samples|
  }

  /** All stems of a track have one length. */
  predicate EqualLengths(stems: seq<StemFile>)
  {
    forall i :: 0 <= i < |stems| ==> |stems[i].samples| == StemLength(stems)
  }

  lemma MembersSameLength(routes: seq<string>, stems: seq<StemFile>, b: string)
    requires |routes| == |stems| && EqualLengths(stems)
    ensures SameLength(Members(routes, stems, b), StemLength(stems))
  {
  }

  // -------------------------------------------------------- the partition

  /** The number of stems over all buckets of `order`. */
  function BucketTotal(routes: seq<string>, stems: seq<StemFile>, order: seq<string>): nat
    requires |routes| == |stems|
  {
    if order == [] then 0
    else BucketTotal(routes, stems, order[..|order| - 1]) + |Members(routes, stems, order[|order| - 1])|
  }

  lemma {:induction false} MembersCount(routes: seq<string>, stems: seq<StemFile>, b: string)
    requires |routes| == |stems|
    ensures |Members(routes, stems, b)| == multiset(routes)[b]
  {
    if routes != [] {
      var n := |routes| - 1;
      MembersCount(routes[..n], stems[..n], b);
      assert routes == routes[..n] + [routes[n]];
    }
  }

  function CountTotal(routes: seq<string>, order: seq<string>): nat
  {
    if order == [] then 0 else CountTotal(routes, order[..|order| - 1]) + multiset(routes)[order[|order| - 1]]
  }

  lemma {:induction false} BucketTotalIsCount(routes: seq<string>, stems: seq<StemFile>, order: seq<string>)
    requires |routes| == |stems|
    ensures BucketTotal(routes, stems, order) == CountTotal(routes, order)
  {
    if order != [] {
      BucketTotalIsCount(routes, stems, order[..|order| - 1]);
      MembersCount(routes, stems, order[|order| - 1]);
    }
  }

  lemma {:induction false} CountTotalSnoc(routes: seq<string>, x: string, order: seq<string>)
    ensures CountTotal(routes + [x], order) == CountTotal(routes, order) + multiset(order)[x]
  {
    if order != [] {
      var init := order[..|order| - 1];
      CountTotalSnoc(routes, x, init);
      assert order == init + [order[|order| - 1]];
    }
  }

  lemma {:induction false} CountTotalEmpty(order: seq<string>)
    ensures CountTotal([], order) == 0
  {
    if order != [] {
      CountTotalEmpty(order[..|order| - 1]);
    }
  }

  lemma {:induction false} DistinctCountOne(order: seq<string>, x: string)
    requires Distinct(order) && x in order
    ensures multiset(order)[x] == 1
  {
    var init := order[..|order| - 1];
    var last := order[|order| - 1];
    assert order == init + [last];
    if x == last {
      assert x !in init;
    } else {
      DistinctCountOne(init, x);
    }
  }

  /** When every route names one of a list of distinct buckets, the buckets hold every stem exactly once. */
  lemma {:induction false} BucketsPartitionStems(routes: seq<string>, stems: seq<StemFile>, order: seq<string>)
    requires |routes| == |stems|
    requires Distinct(order) && forall i :: 0 <= i < |routes| ==> routes[i] in order
    ensures BucketTotal(routes, stems, order) == |stems|
  {
    BucketTotalIsCount(routes, stems, order);
    CountTotalIsLength(routes, order);
  }

  lemma {:induction false} CountTotalIsLength(routes: seq<string>, order: seq<string>)
    requires Distinct(order) && forall i :: 0 <= i < |routes| ==> routes[i] in order
    ensures CountTotal(routes, order) == |routes|
  {
    if routes == [] {
      CountTotalEmpty(order);
    } else {
      var init := routes[..|routes| - 1];
      var last := routes[|routes| - 1];
      CountTotalIsLength(init, order);
      assert routes == init + [last];
      CountTotalSnoc(init, last, order);
      DistinctCountOne(order, last);
    }
  }

  // ------------------------------------------------------------ the class

  /** A loaded submix definition. */
  class Submixes {
    const baseDirectory: string
    const submixName: string
    const submixRecipes: seq<RecipeEntry>
    const invSm: map<Scalar, string>
    const submixKey: string

    /** What a successful `__init__` guarantees. */
    ghost predicate Valid()
    {
      && ValuesUnique(submixRecipes)
      && invSm == InvertDict(submixRecipes)
      && ResidualsKey !in RecipeNames(submixRecipes)
    }

    constructor (baseDir: string, submixFile: string, recipes: seq<RecipeEntry>, mixingKey: string)
      requires ValuesUnique(recipes) && ResidualsKey !in RecipeNames(recipes)
      ensures Valid()
      ensures baseDirectory == baseDir && submixName == Root(Basename(submixFile))
      ensures submixRecipes == recipes && submixKey == mixingKey
    {
      baseDirectory := baseDir;
      submixName := Root(Basename(submixFile));
      submixRecipes := recipes;
      invSm := InvertDict(recipes);
      submixKey := mixingKey;
    }

    /**
     * `Submixes(base_dir, submix_file)` with the file already parsed into
     * `data`: the new object, or the first exception `__init__` raises.
     */
    static method Load(baseDir: string, submixFile: string, data: SubmixFile) returns (r: Result<Submixes, InitError>)
      ensures r.Err? <==> CheckSubmixFile(data).Some?
      ensures r.Err? ==> CheckSubmixFile(data) == Some(r.error)
      ensures r.Ok? ==> fresh(r.value) && r.value.Valid() && r.value.baseDirectory == baseDir &&
                        r.value.submixName == Root(Basename(submixFile)) &&
                        Some(r.value.submixRecipes) == data.recipes && Some(r.value.submixKey) == data.mixingKey
    {
      if data.recipes.None? {
        return Err(MissingKey("Recipes"));
      }
      var recipes := data.recipes.value;
      var allVals := AllValues(recipes);
      if |Elements(allVals)| != |allVals| {
        return Err(RepeatedValue);
      }
      AllValuesDistinct(recipes);
      DistinctIffNoShrink(allVals);
      if data.mixingKey.None? {
        return Err(MissingKey("Mixing key"));
      }
      if ResidualsKey in RecipeNames(recipes) {
        return Err(ReservedName(ResidualsKey));
      }
      var sm := new Submixes(baseDir, submixFile, recipes, data.mixingKey.value);
      return Ok(sm);
    }

    /** `_get_all_src_dirs`, given what `os.walk(base_directory)` yields. */
    function GetAllSrcDirs(walk: seq<WalkEntry>): (r: seq<string>)
      ensures Sorted(r)
      ensures multiset(r) == multiset(MetadataDirs(walk))
      ensures forall d :: d in r <==> exists i :: 0 <= i < |walk| && walk[i].root == d && MetadataFile in walk[i].files
    {
      var found := MetadataDirs(walk);
      var dirs := Sort(found);
      assert forall d :: d in dirs <==> d in found by {
        forall d
          ensures d in dirs <==> d in found
        {
          assert d in dirs <==> d in multiset(dirs);
          assert d in found <==> d in multiset(found);
        }
      }
      dirs
    }

    /** The bucket the stem with id `srcId` is routed to, or the `KeyError` its lookup raises. */
    function Route(metadata: Metadata, srcId: string): (r: Result<string, SubmixError>)
      requires Valid()
      ensures r.Ok? <==> srcId in metadata && submixKey in metadata[srcId]
      ensures r.Err? ==> r.error == KeyError(if srcId in metadata then submixKey else srcId)
      ensures r.Ok? ==> r.value in InitialBuckets(submixRecipes)
    {
      if srcId !in metadata then Err(KeyError(srcId))
      else if submixKey !in metadata[srcId] then Err(KeyError(submixKey))
      else
        var srcSubmixName := metadata[srcId][submixKey];
        if srcSubmixName in invSm then
          InvertDictSound(submixRecipes, srcSubmixName);
          Ok(FileReadyString(invSm[srcSubmixName]))
        else
          ResidualsIsFileReady();
          Ok(FileReadyString(ResidualsKey))
    }

    /**
     * Routing: a stem whose value is listed in a recipe bucket goes to that
     * bucket's sanitised name, any other stem to `residuals`.
     */
    lemma StemRouting(metadata: Metadata, srcId: string)
      requires Valid()
      requires srcId in metadata && submixKey in metadata[srcId]
      ensures var v := metadata[srcId][submixKey];
              && (forall i :: 0 <= i < |submixRecipes| && v in submixRecipes[i].values ==>
                    Route(metadata, srcId) == Ok(FileReadyString(submixRecipes[i].name)))
              && ((forall i :: 0 <= i < |submixRecipes| ==> v !in submixRecipes[i].values) ==>
                    Route(metadata, srcId) == Ok(ResidualsKey))
    {
      var v := metadata[srcId][submixKey];
      forall i | 0 <= i < |submixRecipes| && v in submixRecipes[i].values
        ensures Route(metadata, srcId) == Ok(FileReadyString(submixRecipes[i].name))
      {
        InvertDictLaw(submixRecipes, i, v);
      }
      if forall i :: 0 <= i < |submixRecipes| ==> v !in submixRecipes[i].values {
        InvertDictDomain(submixRecipes);
        assert v !in AllValues(submixRecipes);
        ResidualsIsFileReady();
      }
    }

    /** The buckets of all stems in listing order, or the error of the first stem whose lookup fails. */
    function RouteAll(metadata: Metadata, ids: seq<string>): (r: Result<seq<string>, SubmixError>)
      requires Valid()
      ensures r.Ok? ==> |r.value| == |ids|
    {
      if ids == [] then Ok([])
      else
        var n := |ids| - 1;
        match RouteAll(metadata, ids[..n])
        case Err(e) => Err(e)
        case Ok(routes) =>
          match Route(metadata, ids[n])
          case Err(e) => Err(e)
          case Ok(b) => Ok(routes + [b])
    }

    /** On success, each stem's bucket is that stem's own route. */
    lemma {:induction false} RouteAllRoutesEach(metadata: Metadata, ids: seq<string>)
      requires Valid()
      requires RouteAll(metadata, ids).Ok?
      ensures forall i :: 0 <= i < |ids| ==> Route(metadata, ids[i]) == Ok(RouteAll(metadata, ids).value[i])
    {
      if ids != [] {
        var n := |ids| - 1;
        RouteAllRoutesEach(metadata, ids[..n]);
        var routes := RouteAll(metadata, ids[..n]).value;
        assert RouteAll(metadata, ids).value == routes + [Route(metadata, ids[n]).value];
        forall i | 0 <= i < |ids|
          ensures Route(metadata, ids[i]) == Ok(RouteAll(metadata, ids).value[i])
        {
          if i < n {
            assert ids[..n][i] == ids[i];
          }
        }
      }
    }

    /** Routing one more stem after a successful prefix appends its bucket. */
    lemma RouteAllSnoc(metadata: Metadata, ids: seq<string>, i: nat)
      requires Valid()
      requires i < |ids| && RouteAll(metadata, ids[..i]).Ok? && Route(metadata, ids[i]).Ok?
      ensures RouteAll(metadata, ids[..i + 1]) == Ok(RouteAll(metadata, ids[..i]).value + [Route(metadata, ids[i]).value])
    {
      assert ids[..i + 1][..i] == ids[..i];
    }

    /** Every stem is routed when each lookup succeeds. */
    lemma {:induction false} AllRouted(metadata: Metadata, ids: seq<string>)
      requires Valid()
      requires forall i :: 0 <= i < |ids| ==> Route(metadata, ids[i]).Ok?
      ensures RouteAll(metadata, ids).Ok?
    {
      if ids != [] {
        var n := |ids| - 1;
        assert forall i :: 0 <= i < n ==> ids[..n][i] == ids[i];
        AllRouted(metadata, ids[..n]);
      }
    }

    /** `os.path.splitext(s)[0]` for every stem file. */
    function StemIds(stems: seq<StemFile>): (r: seq<string>)
      ensures |r| == |stems|
    {
      seq(|stems|, i requires 0 <= i < |stems| => Root(stems[i].name))
    }

    /** The bucket names in the order `submixes_dict` holds them. */
    function BucketOrder(): (r: seq<string>)
    {
      InitialBuckets(submixRecipes)
    }

    /** `os.path.join(srcs_dir, _file_ready_string(submix_name))`. */
    function SubmixDir(srcsDir: string): string
    {
      Join(srcsDir, FileReadyString(submixName))
    }

    /** The file written for bucket `b`. */
    function BucketFile(srcsDir: string, routes: seq<string>, stems: seq<StemFile>, mixLength: nat, b: string): OutFile
      requires |routes| == |stems| && EqualLengths(stems)
    {
      MembersSameLength(routes, stems, b);
      OutFile(Join(SubmixDir(srcsDir), b + ".wav"), Mixdown(Members(routes, stems, b), StemLength(stems), mixLength))
    }

    /** What `do_submix(srcs_dir)` does, given the track's metadata, mix length and stem files. */
    function SubmixSpec(srcsDir: string, metadata: Metadata, mixLength: nat, stems: seq<StemFile>): SubmixOutcome
      requires Valid() && EqualLengths(stems)
    {
      match RouteAll(metadata, StemIds(stems))
      case Err(e) => SubmixOutcome(SubmixDir(srcsDir), [], Some(e))
      case Ok(routes) =>
        var order := BucketOrder();
        SubmixOutcome(SubmixDir(srcsDir),
                      seq(|order|, j requires 0 <= j < |order| => BucketFile(srcsDir, routes, stems, mixLength, order[j])),
                      None)
    }

    /** `do_submix`. */
    method DoSubmix(srcsDir: string, metadata: Metadata, mixLength: nat, stems: seq<StemFile>)
      returns (outcome: SubmixOutcome)
      requires Valid() && EqualLengths(stems)
      ensures outcome == SubmixSpec(srcsDir, metadata, mixLength, stems)
    {
      var submixDir := Join(srcsDir, FileReadyString(submixName));
      var order := InitialBuckets(submixRecipes);
      var ids := StemIds(stems);
      var submixesDict, error := GatherStems(metadata, ids, stems, order);
      if error.Some? {
        return SubmixOutcome(submixDir, [], error);
      }
      var written := WriteBuckets(srcsDir, submixDir, mixLength, stems, order, submixesDict,
                                  RouteAll(metadata, StemIds(stems)).value);
      return SubmixOutcome(submixDir, written, None);
    }

    /**
     * The loop of `do_submix` over the stem files: each stem is appended to
     * the list of its bucket; the first failing lookup ends the loop.
     */
    method GatherStems(metadata: Metadata, ids: seq<string>, stems: seq<StemFile>, order: seq<string>)
      returns (submixesDict: map<string, seq<Wave>>, error: Option<SubmixError>)
      requires Valid() && order == InitialBuckets(submixRecipes) && |ids| == |stems|
      ensures error.Some? <==> RouteAll(metadata, ids).Err?
      ensures error.Some? ==> error.value == RouteAll(metadata, ids).error
      ensures error.None? ==>
                (forall b :: b in submixesDict <==> b in order) &&
                forall b :: b in order ==> submixesDict[b] == Members(RouteAll(metadata, ids).value, stems, b)
    {
      submixesDict := map b | b in order :: [];
      for i := 0 to |stems|
        invariant RouteAll(metadata, ids[..i]).Ok?
        invariant forall b :: b in submixesDict <==> b in order
        invariant forall b :: b in order ==> submixesDict[b] == Members(RouteAll(metadata, ids[..i]).value, stems[..i], b)
      {
        var srcId := ids[i];
        if srcId !in metadata {
          FirstErrorStops(metadata, ids, i);
          return submixesDict, Some(KeyError(srcId));
        }
        if submixKey !in metadata[srcId] {
          FirstErrorStops(metadata, ids, i);
          return submixesDict, Some(KeyError(submixKey));
        }
        var srcSubmixName := metadata[srcId][submixKey];
        var key := if srcSubmixName in invSm then invSm[srcSubmixName] else ResidualsKey;
        key := FileReadyString(key);
        assert Route(metadata, srcId) == Ok(key);
        if key !in submixesDict {
          assert false;
        }
        GatherStep(metadata, ids, stems, i, submixesDict, order, key);
        submixesDict := submixesDict[key := submixesDict[key] + [stems[i].samples]];
      }
      assert ids[..|stems|] == ids && stems[..|stems|] == stems;
      error := None;
    }

    /** One step of the stem loop of `do_submix`: appending the stem to its bucket keeps every bucket equal to its members. */
    lemma GatherStep(metadata: Metadata, ids: seq<string>, stems: seq<StemFile>, i: nat,
                     dict: map<string, seq<Wave>>, order: seq<string>, key: string)
      requires Valid() && |ids| == |stems| && i < |ids|
      requires RouteAll(metadata, ids[..i]).Ok? && Route(metadata, ids[i]) == Ok(key) && key in dict
      requires forall b :: b in order ==> b in dict && dict[b] == Members(RouteAll(metadata, ids[..i]).value, stems[..i], b)
      ensures RouteAll(metadata, ids[..i + 1]).Ok?
      ensures forall b :: b in order ==>
                dict[key := dict[key] + [stems[i].samples]][b] == Members(RouteAll(metadata, ids[..i + 1]).value, stems[..i + 1], b)
    {
      var routes := RouteAll(metadata, ids[..i]).value;
      RouteAllSnoc(metadata, ids, i);
      MembersSnoc(routes, stems[..i], key, stems[i]);
      PrefixSnoc(stems, i);
    }

    /** The loop of `do_submix` over the buckets: one file per bucket, in dictionary order. */
    method WriteBuckets(srcsDir: string, submixDir: string, mixLength: nat, stems: seq<StemFile>, order: seq<string>,
                        submixesDict: map<string, seq<Wave>>, ghost routes: seq<string>)
      returns (written: seq<OutFile>)
      requires submixDir == SubmixDir(srcsDir)
      requires |routes| == |stems| && EqualLengths(stems)
      requires forall b :: b in order ==> b in submixesDict && submixesDict[b] == Members(routes, stems, b)
      ensures written == seq(|order|, j requires 0 <= j < |order| => BucketFile(srcsDir, routes, stems, mixLength, order[j]))
    {
      written := [];
      for j := 0 to |order|
        invariant |written| == j
        invariant forall k :: 0 <= k < j ==> written[k] == BucketFile(srcsDir, routes, stems, mixLength, order[k])
      {
        var srcData := submixesDict[order[j]];
        var srcPath := Join(submixDir, order[j] + ".wav");
        MembersSameLength(routes, stems, order[j]);
        var submix := Mixdown(srcData, StemLength(stems), mixLength);
        written := written + [OutFile(srcPath, submix)];
      }
    }

    /**
     * A run whose lookups all succeed writes one file per bucket, to
     * `<track>/<sanitised submix name>/<bucket>.wav`: the elementwise sum of
     * the stems routed there, or zeros as long as the mix for an empty
     * bucket.
     */
    lemma SubmixWritesEveryBucket(srcsDir: string, metadata: Metadata, mixLength: nat, stems: seq<StemFile>)
      requires Valid() && EqualLengths(stems)
      requires forall i :: 0 <= i < |stems| ==> Route(metadata, Root(stems[i].name)).Ok?
      ensures RouteAll(metadata, StemIds(stems)).Ok?
      ensures var out := SubmixSpec(srcsDir, metadata, mixLength, stems);
              var routes := RouteAll(metadata, StemIds(stems)).value;
              var order := BucketOrder();
              && out.error == None
              && |out.written| == |order|
              && forall j :: 0 <= j < |order| ==>
                   var members := Members(routes, stems, order[j]);
                   && out.written[j].path == Join(Join(srcsDir, FileReadyString(submixName)), order[j] + ".wav")
                   && (members == [] ==> out.written[j].samples == Zeros(mixLength))
                   && SameLength(members, StemLength(stems))
                   && (members != [] ==>
                         && |out.written[j].samples| == StemLength(stems)
                         && forall k :: 0 <= k < StemLength(stems) ==> out.written[j].samples[k] == ColumnSum(members, k))
    {
      var ids := StemIds(stems);
      assert forall i :: 0 <= i < |stems| ==> ids[i] == Root(stems[i].name);
      AllRouted(metadata, ids);
      var routes := RouteAll(metadata, ids).value;
      forall b | b in BucketOrder()
        ensures SameLength(Members(routes, stems, b), StemLength(stems))
      {
        MembersSameLength(routes, stems, b);
      }
    }

    /** Each stem of a fully routed run lands in exactly one of the written buckets. */
    lemma SubmixPartitionsStems(metadata: Metadata, stems: seq<StemFile>)
      requires Valid()
      requires forall i :: 0 <= i < |stems| ==> Route(metadata, Root(stems[i].name)).Ok?
      ensures RouteAll(metadata, StemIds(stems)).Ok?
      ensures BucketTotal(RouteAll(metadata, StemIds(stems)).value, stems, BucketOrder()) == |stems|
    {
      var ids := StemIds(stems);
      assert forall i :: 0 <= i < |stems| ==> ids[i] == Root(stems[i].name);
      AllRouted(metadata, ids);
      RouteAllRoutesEach(metadata, ids);
      BucketsPartitionStems(RouteAll(metadata, ids).value, stems, BucketOrder());
    }

    /**
     * The first stem whose id is missing from the metadata, or whose entry
     * lacks the mixing key, raises `KeyError` before any file is written.
     */
    lemma SubmixStopsAtFirstMissingKey(srcsDir: string, metadata: Metadata, mixLength: nat, stems: seq<StemFile>, i: nat)
      requires Valid() && EqualLengths(stems)
      requires i < |stems|
      requires forall j :: 0 <= j < i ==> Route(metadata, Root(stems[j].name)).Ok?
      requires var id := Root(stems[i].name); id !in metadata || submixKey !in metadata[id]
      ensures var out := SubmixSpec(srcsDir, metadata, mixLength, stems);
              var id := Root(stems[i].name);
              out.written == [] && out.error == Some(KeyError(if id in metadata then submixKey else id))
    {
      var ids := StemIds(stems);
      assert ids[i] == Root(stems[i].name);
      assert forall j :: 0 <= j < i ==> ids[..i][j] == Root(stems[j].name);
      AllRouted(metadata, ids[..i]);
      FirstErrorStops(metadata, ids, i);
    }

    /**
     * A stem whose lookup fails after all earlier stems were routed makes
     * the whole run fail with its error: later stems are never looked at.
     */
    lemma {:induction false} FirstErrorStops(metadata: Metadata, ids: seq<string>, i: nat)
      requires Valid()
      requires i < |ids| && RouteAll(metadata, ids[..i]).Ok? && Route(metadata, ids[i]).Err?
      ensures RouteAll(metadata, ids) == Err(Route(metadata, ids[i]).error)
    {
      var n := |ids| - 1;
      var e := Route(metadata, ids[i]).error;
      if i < n {
        assert RouteAll(metadata, ids[..n]) == Err(e) by {
          assert ids[..n][..i] == ids[..i];
          assert ids[..n][i] == ids[i];
          FirstErrorStops(metadata, ids[..n], i);
        }
      } else {
        assert RouteAll(metadata, ids[..n]).Ok? && Route(metadata, ids[n]) == Err(e) by {
          assert ids[..n] == ids[..i];
        }
      }
    }
  }

  lemma ResidualsIsFileReady()
    ensures FileReadyString(ResidualsKey) == ResidualsKey
  {
  }
}
