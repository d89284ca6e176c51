/** The older tree builder, TechnologyTree::create (tech_tree/src/model/technology/tree.rs).
    Its technologies carry no successor lists, and it converts the inputs one at a time,
    so the first failing input decides the error. */
module Legacy {
  import opened Wrappers
  import opened Seqs
  import opened Error
  import opened Name
  import opened Model
  import Creation

  /** A technology of the older model: id, name and predecessor ids. */
  datatype LegacyTechnology = LegacyTechnology(id: nat, name: TechnologyName, predecessors: seq<nat>)

  datatype TechnologyTree = TechnologyTree(technologies: seq<LegacyTechnology>)

  /** convert_technology: the predecessor ids are collected first, then the name is
      converted; the `?` on the name comes before the `?` on the ids, so an invalid name
      wins over an unknown predecessor of the same input. */
  function ConvertTechnology(t: Input, id: nat, nameToId: map<string, nat>): (r: Result<LegacyTechnology, AddError>)
    ensures r.Ok? <==> NewName(t.name).Ok? && Creation.UnresolvedNames(t.predecessors, nameToId.Keys) == []
    ensures NewName(t.name).Err? ==> r == Err(InvalidName(t.name))
    ensures NewName(t.name).Ok? && r.Err? ==>
      r == Err(UnknownPredecessor(Creation.UnresolvedNames(t.predecessors, nameToId.Keys)[0]))
    ensures r.Ok? ==> r.value.id == id && NewName(t.name) == Ok(r.value.name)
    ensures r.Ok? ==> |r.value.predecessors| == |t.predecessors|
    ensures r.Ok? ==> forall j :: 0 <= j < |t.predecessors| ==>
      t.predecessors[j] in nameToId && r.value.predecessors[j] == nameToId[t.predecessors[j]]
  {
    var requirements := Creation.ResolveNames(t.predecessors, nameToId);
    match NewName(t.name)
    case Err(e) => Err(e)
    case Ok(name) =>
      match requirements
      case Err(e) => Err(e)
      case Ok(ids) => Ok(LegacyTechnology(id, name, ids))
  }

  /** The position of the first failed result. */
  function FirstErr<T>(rs: seq<Result<T, AddError>>): (r: Option<nat>)
    ensures r.None? <==> forall k :: 0 <= k < |rs| ==> rs[k].Ok?
    ensures r.Some? ==> r.value < |rs| && rs[r.value].Err? && forall k :: 0 <= k < r.value ==> rs[k].Ok?
  {
    if rs == [] then None
    else if rs[0].Err? then Some(0)
    else
      match FirstErr(rs[1..])
      case None => None
      case Some(k) => Some(k + 1)
  }

  /** Collecting an iterator of results into a result of a sequence: the values in
      order if every result is Ok, otherwise the first error. */
  function Collect<T>(rs: seq<Result<T, AddError>>): (r: Result<seq<T>, AddError>)
    ensures r.Ok? <==> FirstErr(rs).None?
    ensures r.Ok? ==> |r.value| == |rs| && forall i :: 0 <= i < |rs| ==> rs[i] == Ok(r.value[i])
    ensures r.Err? ==> rs[FirstErr(rs).value] == Err(r.error)
  {
    if rs == [] then Ok([])
    else
      match rs[0]
      case Err(e) => Err(e)
      case Ok(t) =>
        match Collect(rs[1..])
        case Err(e) => Err(e)
        case Ok(rest) =>
          var r := [t] + rest;
          assert forall i :: 1 <= i < |rs| ==> r[i] == rest[i - 1] && rs[i] == rs[1..][i - 1];
          Ok(r)
  }

  /** The enumerate/map pipeline: each input converted with its position as id. */
  function ConvertAll(inputs: seq<Input>, nameToId: map<string, nat>): (r: seq<Result<LegacyTechnology, AddError>>)
    ensures |r| == |inputs| && forall k :: 0 <= k < |inputs| ==> r[k] == ConvertTechnology(inputs[k], k, nameToId)
  {
    seq(|inputs|, k requires 0 <= k < |inputs| => ConvertTechnology(inputs[k], k, nameToId))
  }

  /** Whether the input at position k converts, given the set of raw names: its name is
      not blank (so NewName accepts it) and every predecessor names an input. */
  ghost predicate ItemOk(inputs: seq<Input>, k: nat)
    requires k < |inputs|
  {
    !IsBlank(inputs[k].name) && Creation.UnresolvedNames(inputs[k].predecessors, Elements(Creation.Names(inputs))) == []
  }

  /** The error of a failing input: its invalid name first, then its first unknown predecessor. */
  ghost function ItemError(inputs: seq<Input>, k: nat): AddError
    requires k < |inputs| && !ItemOk(inputs, k)
  {
    if NewName(inputs[k].name).Err? then InvalidName(inputs[k].name)
    else UnknownPredecessor(Creation.UnresolvedNames(inputs[k].predecessors, Elements(Creation.Names(inputs)))[0])
  }

  /** The position of the first input that does not convert. */
  ghost function FirstFailing(inputs: seq<Input>, start: nat): (r: Option<nat>)
    requires start <= |inputs|
    ensures r.None? <==> forall k :: start <= k < |inputs| ==> ItemOk(inputs, k)
    ensures r.Some? ==> start <= r.value < |inputs| && !ItemOk(inputs, r.value)
    ensures r.Some? ==> forall k :: start <= k < r.value ==> ItemOk(inputs, k)
    decreases |inputs| - start
  {
    if start == |inputs| then None
    else if !ItemOk(inputs, start) then Some(start)
    else FirstFailing(inputs, start + 1)
  }

  /** What a successful run yields: the i-th technology has id i, the name of the i-th
      input, and as its j-th predecessor the position of the input with the j-th declared name. */
  ghost predicate LegacyBuilt(inputs: seq<Input>, techs: seq<LegacyTechnology>) {
    && |techs| == |inputs|
    && (forall i :: 0 <= i < |techs| ==> techs[i].id == i && NewName(inputs[i].name) == Ok(techs[i].name))
    && (forall i :: 0 <= i < |techs| ==> |techs[i].predecessors| == |inputs[i].predecessors|)
    && (forall i, j :: 0 <= i < |techs| && 0 <= j < |techs[i].predecessors| ==>
          techs[i].predecessors[j] < |techs| && inputs[techs[i].predecessors[j]].name == inputs[i].predecessors[j])
  }

  /** The outcome of TechnologyTree::create: NameExists for the first repeated raw name;
      otherwise the error of the first failing input; otherwise the built tree. */
  ghost predicate LegacyOutcome(inputs: seq<Input>, r: Result<TechnologyTree, AddError>) {
    var names := Creation.Names(inputs);
    if !Distinct(names) then r == Err(NameExists(names[Creation.FirstRepeat(names)]))
    else
      match FirstFailing(inputs, 0)
      case Some(k) => r == Err(ItemError(inputs, k))
      case None => r.Ok? && LegacyBuilt(inputs, r.value.technologies)
  }

  /** With the map of raw names to positions, converting input k succeeds exactly when
      the input is ItemOk, and fails with ItemError otherwise. */
  lemma ConvertMatchesItem(inputs: seq<Input>, m: map<string, nat>, k: nat)
    requires m.Keys == Elements(Creation.Names(inputs))
    requires k < |inputs|
    ensures ConvertTechnology(inputs[k], k, m).Ok? <==> ItemOk(inputs, k)
    ensures !ItemOk(inputs, k) ==> ConvertTechnology(inputs[k], k, m) == Err(ItemError(inputs, k))
  {
  }

  /** TechnologyTree::create. The name map is the one of create_name_to_id_map, which
      the older module spells out exactly as tech_tree/src/usecase/creation.rs does. */
  method Create(inputs: seq<Input>) returns (r: Result<TechnologyTree, AddError>)
    ensures LegacyOutcome(inputs, r)
  {
    var mapped := Creation.CreateNameToIdMap(inputs);
    if mapped.Err? {
      return Err(mapped.error);
    }
    var m := mapped.value;
    var results := ConvertAll(inputs, m);
    var converted := Collect(results);
    forall k | 0 <= k < |inputs| ensures results[k].Ok? <==> ItemOk(inputs, k) {
      ConvertMatchesItem(inputs, m, k);
    }
    if converted.Err? {
      FirstFailingIsFirstErr(inputs, m, results);
      return Err(converted.error);
    }
    var techs := converted.value;
    LegacyBuiltFromConversions(inputs, m, techs);
    r := Ok(TechnologyTree(techs));
  }

  lemma FirstFailingIsFirstErr(inputs: seq<Input>, m: map<string, nat>, results: seq<Result<LegacyTechnology, AddError>>)
    requires m.Keys == Elements(Creation.Names(inputs))
    requires results == ConvertAll(inputs, m)
    requires FirstErr(results).Some?
    ensures FirstFailing(inputs, 0) == FirstErr(results)
    ensures results[FirstErr(results).value] == Err(ItemError(inputs, FirstErr(results).value))
  {
    var k := FirstErr(results).value;
    ConvertMatchesItem(inputs, m, k);
    var f := FirstFailing(inputs, 0);
    assert f.Some?;
    if f.value < k {
      ConvertMatchesItem(inputs, m, f.value);
    } else if f.value > k {
      assert false;
    }
  }

  /** The predecessor ids of one converted input point at the inputs they name. */
  lemma ConvertedPredecessors(inputs: seq<Input>, m: map<string, nat>, i: nat, t: LegacyTechnology)
    requires m.Keys == Elements(Creation.Names(inputs))
    requires forall k :: 0 <= k < |inputs| ==> m[inputs[k].name] == k
    requires i < |inputs| && ConvertTechnology(inputs[i], i, m) == Ok(t)
    ensures forall j :: 0 <= j < |t.predecessors| ==>
      t.predecessors[j] < |inputs| && inputs[t.predecessors[j]].name == inputs[i].predecessors[j]
  {
    forall j | 0 <= j < |t.predecessors|
      ensures t.predecessors[j] < |inputs| && inputs[t.predecessors[j]].name == inputs[i].predecessors[j]
    {
      var p := inputs[i].predecessors[j];
      assert p in Elements(Creation.Names(inputs));
      var q :| 0 <= q < |inputs| && Creation.Names(inputs)[q] == p;
      assert m[inputs[q].name] == q;
    }
  }

  lemma LegacyBuiltFromConversions(inputs: seq<Input>, m: map<string, nat>, techs: seq<LegacyTechnology>)
    requires m.Keys == Elements(Creation.Names(inputs))
    requires forall i :: 0 <= i < |inputs| ==> m[inputs[i].name] == i
    requires |techs| == |inputs|
    requires forall i :: 0 <= i < |inputs| ==> ConvertTechnology(inputs[i], i, m) == Ok(techs[i])
    ensures LegacyBuilt(inputs, techs)
  {
    forall i | 0 <= i < |techs|
      ensures forall j :: 0 <= j < |techs[i].predecessors| ==>
        techs[i].predecessors[j] < |techs| && inputs[techs[i].predecessors[j]].name == inputs[i].predecessors[j]
    {
      ConvertedPredecessors(inputs, m, i, techs[i]);
    }
  }

  lemma LegacyBuiltUnique(inputs: seq<Input>, t1: seq<LegacyTechnology>, t2: seq<LegacyTechnology>)
    requires Distinct(Creation.Names(inputs))
    requires LegacyBuilt(inputs, t1) && LegacyBuilt(inputs, t2)
    ensures t1 == t2
  {
    var names := Creation.Names(inputs);
    forall i | 0 <= i < |t1| ensures t1[i] == t2[i] {
      assert NewName(inputs[i].name) == Ok(t1[i].name) && NewName(inputs[i].name) == Ok(t2[i].name);
      forall j | 0 <= j < |t1[i].predecessors| ensures t1[i].predecessors[j] == t2[i].predecessors[j] {
        var x, y := t1[i].predecessors[j], t2[i].predecessors[j];
        assert names[x] == names[y];
      }
    }
  }

  /** The outcome is a function of the inputs. */
  lemma LegacyOutcomeUnique(inputs: seq<Input>, r1: Result<TechnologyTree, AddError>, r2: Result<TechnologyTree, AddError>)
    requires LegacyOutcome(inputs, r1) && LegacyOutcome(inputs, r2)
    ensures r1 == r2
  {
    if r1.Ok? && r2.Ok? {
      LegacyBuiltUnique(inputs, r1.value.technologies, r2.value.technologies);
    }
  }

  /** When both builders succeed they agree on ids, names and predecessor lists; the
      newer one only adds the successor lists. */
  lemma AgreesWithCreateTree(inputs: seq<Input>, tree: Tree, techs: seq<LegacyTechnology>)
    requires Distinct(Creation.Names(inputs))
    requires Creation.Built(inputs, tree) && LegacyBuilt(inputs, techs)
    ensures |techs| == |tree|
    ensures forall i :: 0 <= i < |tree| ==>
      techs[i] == LegacyTechnology(tree[i].id, tree[i].name, tree[i].predecessors)
  {
    var names := Creation.Names(inputs);
    forall i | 0 <= i < |tree| ensures techs[i] == LegacyTechnology(tree[i].id, tree[i].name, tree[i].predecessors) {
      assert NewName(inputs[i].name) == Ok(tree[i].name) && NewName(inputs[i].name) == Ok(techs[i].name);
      forall j | 0 <= j < |tree[i].predecessors| ensures tree[i].predecessors[j] == techs[i].predecessors[j] {
        var x, y := tree[i].predecessors[j], techs[i].predecessors[j];
        assert names[x] == names[y];
      }
    }
  }

  function MixedInputs(): seq<Input> {
    [Input(" ", []), Input("a", ["b"])]
  }

  lemma MixedNames()
    ensures Creation.Names(MixedInputs()) == [" ", "a"]
    ensures Distinct(Creation.Names(MixedInputs()))
    ensures Elements(Creation.Names(MixedInputs())) == {" ", "a"}
  {
    assert Creation.Names(MixedInputs()) == [" ", "a"];
  }

  /** The two builders order their errors differently: a blank first name and an
      unknown predecessor of a later input give InvalidName here ... */
  lemma MixedLegacy()
    ensures LegacyOutcome(MixedInputs(), Err(InvalidName(" ")))
  {
    MixedNames();
    assert IsBlank(" ");
    assert !ItemOk(MixedInputs(), 0);
    assert FirstFailing(MixedInputs(), 0) == Some(0);
  }

  /** ... and UnknownPredecessor in create_tree, which resolves every predecessor first. */
  lemma MixedCreateTree()
    ensures Creation.Outcome(MixedInputs(), Err(UnknownPredecessor("b")))
  {
    MixedNames();
    assert Creation.UnresolvedNames(["b"], {" ", "a"}) == ["b"];
    assert Creation.UnresolvedNames([], {" ", "a"}) == [];
    assert Creation.Unresolved(MixedInputs()[1..], {" ", "a"}) == ["b"];
    assert Creation.Unresolved(MixedInputs(), {" ", "a"}) == ["b"];
  }

  function ExampleInputs(): seq<Input> {
    [ Input("t0", []), Input("t1", []), Input("t2", ["t0", "t1"]),
      Input("t3", ["t2"]), Input("t4", ["t2"]) ]
  }

  function ExampleTechnologies(): seq<LegacyTechnology> {
    [ LegacyTechnology(0, Simple("t0"), []),
      LegacyTechnology(1, Simple("t1"), []),
      LegacyTechnology(2, Simple("t2"), [0, 1]),
      LegacyTechnology(3, Simple("t3"), [2]),
      LegacyTechnology(4, Simple("t4"), [2]) ]
  }

  lemma ExampleNames()
    ensures Creation.Names(ExampleInputs()) == ["t0", "t1", "t2", "t3", "t4"]
    ensures Distinct(Creation.Names(ExampleInputs()))
    ensures Elements(Creation.Names(ExampleInputs())) == {"t0", "t1", "t2", "t3", "t4"}
  {
    assert Creation.Names(ExampleInputs()) == ["t0", "t1", "t2", "t3", "t4"];
  }

  lemma ExampleItems()
    ensures forall i :: 0 <= i < 5 ==> NewName(ExampleInputs()[i].name) == Ok(ExampleTechnologies()[i].name)
    ensures forall i :: 0 <= i < 5 ==>
      Creation.UnresolvedNames(ExampleInputs()[i].predecessors, {"t0", "t1", "t2", "t3", "t4"}) == []
  {
    ExampleParsedNames();
    ExampleKnownPredecessors();
  }

  lemma ExampleParsedNames()
    ensures forall i :: 0 <= i < 5 ==> NewName(ExampleInputs()[i].name) == Ok(ExampleTechnologies()[i].name)
  {
    var raw := ["t0", "t1", "t2", "t3", "t4"];
    assert forall i :: 0 <= i < 5 ==> ExampleInputs()[i].name == raw[i];
    assert forall i :: 0 <= i < 5 ==> ExampleTechnologies()[i].name == Simple(raw[i]);
    forall i | 0 <= i < 5 ensures NewName(raw[i]) == Ok(Simple(raw[i])) {
      Creation.PlainName(raw[i]);
    }
  }

  lemma ExampleKnownPredecessors()
    ensures forall i :: 0 <= i < 5 ==>
      Creation.UnresolvedNames(ExampleInputs()[i].predecessors, {"t0", "t1", "t2", "t3", "t4"}) == []
  {
    var known := {"t0", "t1", "t2", "t3", "t4"};
    forall i | 0 <= i < 5 ensures Creation.UnresolvedNames(ExampleInputs()[i].predecessors, known) == [] {
      var preds := ExampleInputs()[i].predecessors;
      assert forall j :: 0 <= j < |preds| ==> preds[j] in known;
    }
  }

  lemma ExampleShape()
    ensures |ExampleTechnologies()| == |ExampleInputs()| == 5
    ensures forall i :: 0 <= i < 5 ==> ExampleTechnologies()[i].id == i
    ensures forall i :: 0 <= i < 5 ==> |ExampleTechnologies()[i].predecessors| == |ExampleInputs()[i].predecessors|
    ensures forall i, j :: 0 <= i < 5 && 0 <= j < |ExampleTechnologies()[i].predecessors| ==>
      ExampleTechnologies()[i].predecessors[j] < 5 &&
      ExampleInputs()[ExampleTechnologies()[i].predecessors[j]].name == ExampleInputs()[i].predecessors[j]
  {
    var inputs, techs := ExampleInputs(), ExampleTechnologies();
    forall i, j | 0 <= i < 5 && 0 <= j < |techs[i].predecessors|
      ensures techs[i].predecessors[j] < 5 && inputs[techs[i].predecessors[j]].name == inputs[i].predecessors[j]
    {
      assert i >= 2;
      if i == 2 {
        assert j == 0 || j == 1;
      }
    }
  }

  lemma LegacyOutcomeOk(inputs: seq<Input>, techs: seq<LegacyTechnology>)
    requires Distinct(Creation.Names(inputs))
    requires forall k :: 0 <= k < |inputs| ==> ItemOk(inputs, k)
    requires LegacyBuilt(inputs, techs)
    ensures LegacyOutcome(inputs, Ok(TechnologyTree(techs)))
  {
  }

  lemma ExampleItemsOk()
    ensures forall k :: 0 <= k < 5 ==> ItemOk(ExampleInputs(), k)
  {
    ExampleNames();
    ExampleItems();
  }

  lemma ExampleBuilt()
    ensures LegacyBuilt(ExampleInputs(), ExampleTechnologies())
  {
    ExampleItems();
    ExampleShape();
  }

  /** test_create_tree of the older module. */
  lemma CreateExample()
    ensures LegacyOutcome(ExampleInputs(), Ok(TechnologyTree(ExampleTechnologies())))
  {
    ExampleNames();
    ExampleItemsOk();
    ExampleBuilt();
    LegacyOutcomeOk(ExampleInputs(), ExampleTechnologies());
  }
}
