/** The serialisable form of a tree (tech_tree_serde/src/definition/technology/mod.rs and
    tree.rs): each technology as its raw name and the raw names of its predecessors. */
module Definitions {
  import opened Wrappers
  import opened Seqs
  import opened Error
  import opened Name
  import opened Model
  import Creation

  datatype TechnologyDefinition = TechnologyDefinition(name: string, predecessors: seq<string>)

  datatype TechnologyTreeDefinition = TechnologyTreeDefinition(technologies: seq<TechnologyDefinition>)

  /** TechnologyDefinition::to_model: the input with the same name and predecessor list. */
  function ToInput(definition: TechnologyDefinition): (input: Input)
    ensures input.name == definition.name && input.predecessors == definition.predecessors
  {
    Input(definition.name, definition.predecessors)
  }

  /** The full name of a predecessor id, or "UNKNOWN" when the tree has no such id. */
  function PredecessorName(tree: Tree, id: nat): (name: string)
    ensures id < |tree| ==> name == GetFull(tree[id].name)
    ensures id >= |tree| ==> name == "UNKNOWN"
  {
    match Get(tree, id)
    case Some(technology) => GetFull(technology.name)
    case None => "UNKNOWN"
  }

  /** TechnologyDefinition::from_model: the full name, and for each predecessor id in
      order the full name of that technology. */
  function FromTechnology(technology: Technology, tree: Tree): (definition: TechnologyDefinition)
    ensures definition.name == GetFull(technology.name)
    ensures |definition.predecessors| == |technology.predecessors|
    ensures forall j :: 0 <= j < |technology.predecessors| ==>
      definition.predecessors[j] == PredecessorName(tree, technology.predecessors[j])
  {
    TechnologyDefinition(
      GetFull(technology.name),
      seq(|technology.predecessors|, j requires 0 <= j < |technology.predecessors| =>
        PredecessorName(tree, technology.predecessors[j])))
  }

  /** The inputs of a tree definition, in order. */
  function Inputs(definition: TechnologyTreeDefinition): (inputs: seq<Input>)
    ensures |inputs| == |definition.technologies|
    ensures forall i :: 0 <= i < |inputs| ==> inputs[i] == ToInput(definition.technologies[i])
  {
    seq(|definition.technologies|, i requires 0 <= i < |definition.technologies| => ToInput(definition.technologies[i]))
  }

  /** TechnologyTreeDefinition::to_model: create_tree on the converted definitions; its
      errors pass through as they are. */
  method TreeToModel(definition: TechnologyTreeDefinition) returns (r: Result<Tree, AddError>)
    ensures Creation.Outcome(Inputs(definition), r)
  {
    r := Creation.CreateTree(Inputs(definition));
  }

  /** TechnologyTreeDefinition::from_model: one definition per technology, in tree order. */
  function TreeFromModel(tree: Tree): (definition: TechnologyTreeDefinition)
    ensures |definition.technologies| == |tree|
  {
    TechnologyTreeDefinition(seq(|tree|, i requires 0 <= i < |tree| => FromTechnology(tree[i], tree)))
  }

  /** The raw name is what the parsed name prints back. */
  predicate NamePreserved(raw: string) {
    NewName(raw).Ok? ==> GetFull(NewName(raw).value) == raw
  }

  lemma PredecessorRoundTrip(definition: TechnologyTreeDefinition, tree: Tree, i: nat, j: nat)
    requires Creation.Built(Inputs(definition), tree)
    requires forall k :: 0 <= k < |definition.technologies| ==> NamePreserved(definition.technologies[k].name)
    requires i < |tree| && j < |tree[i].predecessors|
    ensures j < |definition.technologies[i].predecessors|
    ensures PredecessorName(tree, tree[i].predecessors[j]) == definition.technologies[i].predecessors[j]
  {
    var inputs := Inputs(definition);
    var p := tree[i].predecessors[j];
    assert p < |tree| && inputs[p].name == inputs[i].predecessors[j];
    assert NewName(inputs[p].name) == Ok(tree[p].name);
    assert NamePreserved(definition.technologies[p].name);
  }

  lemma TechnologyRoundTrip(definition: TechnologyTreeDefinition, tree: Tree, i: nat)
    requires Creation.Built(Inputs(definition), tree)
    requires forall k :: 0 <= k < |definition.technologies| ==> NamePreserved(definition.technologies[k].name)
    requires i < |tree|
    ensures FromTechnology(tree[i], tree) == definition.technologies[i]
  {
    var inputs := Inputs(definition);
    var d := definition.technologies[i];
    var b := FromTechnology(tree[i], tree);
    assert NewName(inputs[i].name) == Ok(tree[i].name);
    assert NamePreserved(d.name);
    assert b.name == d.name;
    forall j | 0 <= j < |d.predecessors| ensures b.predecessors[j] == d.predecessors[j] {
      PredecessorRoundTrip(definition, tree, i, j);
    }
  }

  /** Converting back what create_tree built gives the definition again, provided every
      name prints back as written. */
  lemma RoundTrip(definition: TechnologyTreeDefinition, tree: Tree)
    requires Creation.Outcome(Inputs(definition), Ok(tree))
    requires forall i :: 0 <= i < |definition.technologies| ==> NamePreserved(definition.technologies[i].name)
    ensures TreeFromModel(tree) == definition
  {
    assert Creation.Built(Inputs(definition), tree);
    var back := TreeFromModel(tree);
    forall i | 0 <= i < |tree| ensures back.technologies[i] == definition.technologies[i] {
      TechnologyRoundTrip(definition, tree, i);
    }
  }

  /** The definition of test_converting. */
  function TestDefinition(): TechnologyTreeDefinition {
    TechnologyTreeDefinition([
      TechnologyDefinition("t0", []),
      TechnologyDefinition("t1", ["t0"]),
      TechnologyDefinition("t2", ["t0", "t1"])])
  }

  lemma TestNames()
    ensures Creation.Names(Inputs(TestDefinition())) == ["t0", "t1", "t2"]
    ensures Distinct(Creation.Names(Inputs(TestDefinition())))
    ensures Creation.Unresolved(Inputs(TestDefinition()), Elements(Creation.Names(Inputs(TestDefinition())))) == []
  {
    assert Creation.Names(Inputs(TestDefinition())) == ["t0", "t1", "t2"];
    assert Elements(["t0", "t1", "t2"]) == {"t0", "t1", "t2"};
  }

  lemma TestNamesPlain()
    ensures Creation.FirstBlank(["t0", "t1", "t2"]).None?
    ensures forall i :: 0 <= i < 3 ==> NamePreserved(TestDefinition().technologies[i].name)
  {
    var raw := ["t0", "t1", "t2"];
    assert forall i :: 0 <= i < 3 ==> TestDefinition().technologies[i].name == raw[i];
    forall i | 0 <= i < 3 ensures NewName(raw[i]) == Ok(Simple(raw[i])) && !IsBlank(raw[i]) {
      Creation.PlainName(raw[i]);
    }
  }

  /** test_converting: from_model(to_model(d)) == d. */
  method ConvertingExample() returns (back: TechnologyTreeDefinition)
    ensures back == TestDefinition()
  {
    var definition := TestDefinition();
    TestNames();
    TestNamesPlain();
    var r := TreeToModel(definition);
    assert r.Ok?;
    RoundTrip(definition, r.value);
    back := TreeFromModel(r.value);
  }
}
