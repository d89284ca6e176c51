/** Technologies, inputs and the tree (tech_tree/src/model/technology/mod.rs and tree.rs).
    A technology carries its successors as well as its predecessors, and the tree is the
    sequence of its technologies indexed by id. */
module Model {
  import opened Wrappers
  import opened Name

  /** One entry of the input list: a raw name and the raw names of its predecessors. */
  datatype Input = Input(name: string, predecessors: seq<string>)

  datatype Technology = Technology(
    id: nat,
    name: TechnologyName,
    predecessors: seq<nat>,
    successors: seq<nat>)

  /** TechnologyTree: the technologies in id order. */
  type Tree = seq<Technology>

  /** TechnologyTree::get: the technology at position id, if there is one. */
  function Get(tree: Tree, id: nat): (r: Option<Technology>)
    ensures r.Some? <==> id < |tree|
    ensures r.Some? ==> r.value == tree[id]
  {
    if id < |tree| then Some(tree[id]) else None
  }
}
