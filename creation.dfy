/** Building a tree from the input list (tech_tree/src/usecase/creation.rs). */
module Creation {
  import opened Wrappers
  import opened Seqs
  import opened Error
  import opened Name
  import opened Model
  import opened Graph

  /** The raw names of the inputs, in input order. */
  function Names(inputs: seq<Input>): (r: seq<string>)
    ensures |r| == |inputs|
    ensures forall i :: 0 <= i < |inputs| ==> r[i] == inputs[i].name
  {
    seq(|inputs|, i requires 0 <= i < |inputs| => inputs[i].name)
  }

  /** Position of the first name that already occurs earlier. */
  function FirstRepeat(s: seq<string>): (j: nat)
    requires !Distinct(s)
    ensures j < |s| && s[j] in s[..j] && Distinct(s[..j])
  {
    var t := s[..|s| - 1];
    if Distinct(t) then
      assert s[|s| - 1] in t by {
        var a, b :| 0 <= a < b < |s| && s[a] == s[b];
        assert b == |s| - 1 && t[a] == s[a];
      }
      |s| - 1
    else
      var j := FirstRepeat(t);
      assert t[..j] == s[..j];
      j
  }

  /** Any position whose name repeats an earlier one, while the names before it are
      all different, is the first repeat. */
  lemma FirstRepeatUnique(s: seq<string>, j: nat)
    requires j < |s| && s[j] in s[..j] && Distinct(s[..j])
    ensures !Distinct(s) && FirstRepeat(s) == j
  {
    RepeatBreaksDistinct(s, j, |s|);
    assert s[..|s|] == s;
    var f := FirstRepeat(s);
    if f < j {
      RepeatBreaksDistinct(s, f, j);
      assert false;
    } else if f > j {
      RepeatBreaksDistinct(s, j, f);
      assert false;
    }
  }

  /** A name that repeats an earlier one makes every longer prefix non-distinct. */
  lemma RepeatBreaksDistinct(s: seq<string>, m: nat, n: nat)
    requires m < n <= |s| && s[m] in s[..m]
    ensures !Distinct(s[..n])
  {
    var k :| 0 <= k < m && s[..m][k] == s[m];
    assert s[..n][k] == s[..n][m];
  }

  /** create_name_to_id_map: the raw names of the inputs mapped to their positions,
      or NameExists for the first name that repeats an earlier one. */
  method CreateNameToIdMap(inputs: seq<Input>) returns (r: Result<map<string, nat>, AddError>)
    ensures r.Ok? <==> Distinct(Names(inputs))
    ensures r.Ok? ==> r.value.Keys == Elements(Names(inputs))
    ensures r.Ok? ==> forall i :: 0 <= i < |inputs| ==> r.value[inputs[i].name] == i
    ensures r.Err? ==> r.error == NameExists(Names(inputs)[FirstRepeat(Names(inputs))])
  {
    var names := Names(inputs);
    var m: map<string, nat> := map[];
    var i := 0;
    while i < |inputs|
      invariant 0 <= i <= |inputs|
      invariant Distinct(names[..i])
      invariant m.Keys == Elements(names[..i])
      invariant forall k :: 0 <= k < i ==> m[names[k]] == k
      invariant |m| == i
    {
      var name := inputs[i].name;
      var previous := if name in m then Some(m[name]) else None;
      ElementsCard(names[..i]);
      m := m[name := |m|];
      if previous.Some? {
        assert names[i] in names[..i];
        FirstRepeatUnique(names, i);
        return Err(NameExists(name));
      }
      NameMapStep(names, m, i);
      i := i + 1;
    }
    assert names[..i] == names;
    return Ok(m);
  }

  /** A new name inserted at the next position keeps the names seen so far distinct
      and each mapped to its position. */
  lemma NameMapStep(names: seq<string>, m: map<string, nat>, i: nat)
    requires i < |names| && Distinct(names[..i]) && names[i] !in Elements(names[..i])
    requires m.Keys == Elements(names[..i]) + {names[i]} && m[names[i]] == i
    requires forall k :: 0 <= k < i ==> m[names[k]] == k
    ensures Distinct(names[..i + 1]) && m.Keys == Elements(names[..i + 1])
    ensures forall k :: 0 <= k < i + 1 ==> m[names[k]] == k
  {
    var seen, next := names[..i], names[..i + 1];
    assert next == seen + [names[i]];
    forall a, b | 0 <= a < b < |next| ensures next[a] != next[b] {
      if b == i {
        assert next[a] in Elements(seen) by {
          assert seen[a] == next[a];
        }
      } else {
        assert seen[a] != seen[b];
      }
    }
  }

  /** The names among `names` that are not known, in order. */
  function UnresolvedNames(names: seq<string>, known: set<string>): (r: seq<string>)
    ensures forall x :: x in r ==> x in names && x !in known
    ensures r == [] <==> forall j :: 0 <= j < |names| ==> names[j] in known
  {
    if names == [] then []
    else (if names[0] in known then [] else [names[0]]) + UnresolvedNames(names[1..], known)
  }

  /** The predecessor names of all inputs that are not known, in input order. */
  function Unresolved(inputs: seq<Input>, known: set<string>): (r: seq<string>)
    ensures r == [] <==> forall i, j :: 0 <= i < |inputs| && 0 <= j < |inputs[i].predecessors| ==>
      inputs[i].predecessors[j] in known
  {
    if inputs == [] then []
    else UnresolvedNames(inputs[0].predecessors, known) + Unresolved(inputs[1..], known)
  }

  /** into_id: the id of a predecessor name, or UnknownPredecessor. */
  function IntoId(name: string, nameToId: map<string, nat>): (r: Result<nat, AddError>)
    ensures r.Ok? <==> name in nameToId
    ensures r.Ok? ==> r.value == nameToId[name]
    ensures r.Err? ==> r.error == UnknownPredecessor(name)
  {
    if name in nameToId then Ok(nameToId[name]) else Err(UnknownPredecessor(name))
  }

  /** The ids of a list of predecessor names; collecting stops at the first miss. */
  function ResolveNames(names: seq<string>, nameToId: map<string, nat>): (r: Result<seq<nat>, AddError>)
    ensures r.Ok? <==> UnresolvedNames(names, nameToId.Keys) == []
    ensures r.Err? ==> r.error == UnknownPredecessor(UnresolvedNames(names, nameToId.Keys)[0])
    ensures r.Ok? ==> |r.value| == |names|
    ensures r.Ok? ==> forall j :: 0 <= j < |names| ==> names[j] in nameToId && r.value[j] == nameToId[names[j]]
  {
    if names == [] then Ok([])
    else
      match IntoId(names[0], nameToId)
      case Err(e) => Err(e)
      case Ok(id) =>
        match ResolveNames(names[1..], nameToId)
        case Err(e) => Err(e)
        case Ok(ids) => Ok([id] + ids)
  }

  /** process_predecessors: the predecessor ids of every input, or UnknownPredecessor
      for the first unknown name in input order. */
  function ProcessPredecessors(inputs: seq<Input>, nameToId: map<string, nat>): (r: Result<seq<seq<nat>>, AddError>)
    ensures r.Ok? <==> Unresolved(inputs, nameToId.Keys) == []
    ensures r.Err? ==> r.error == UnknownPredecessor(Unresolved(inputs, nameToId.Keys)[0])
    ensures r.Ok? ==> |r.value| == |inputs|
  {
    if inputs == [] then Ok([])
    else
      match ResolveNames(inputs[0].predecessors, nameToId)
      case Err(e) => Err(e)
      case Ok(ids) =>
        match ProcessPredecessors(inputs[1..], nameToId)
        case Err(e) =>
          assert UnresolvedNames(inputs[0].predecessors, nameToId.Keys) == [];
          Err(e)
        case Ok(rest) => Ok([ids] + rest)
  }

  /** The i-th list holds, in order, the ids of the i-th input's predecessor names. */
  lemma {:induction false} ProcessPredecessorsIds(inputs: seq<Input>, nameToId: map<string, nat>)
    requires ProcessPredecessors(inputs, nameToId).Ok?
    ensures var lists := ProcessPredecessors(inputs, nameToId).value;
      && (forall i :: 0 <= i < |inputs| ==> |lists[i]| == |inputs[i].predecessors|)
      && (forall i, j :: 0 <= i < |inputs| && 0 <= j < |inputs[i].predecessors| ==>
            lists[i][j] == nameToId[inputs[i].predecessors[j]])
  {
    if inputs != [] {
      var rest := inputs[1..];
      ProcessPredecessorsIds(rest, nameToId);
      var ids := ResolveNames(inputs[0].predecessors, nameToId).value;
      var tail := ProcessPredecessors(rest, nameToId).value;
      var lists := ProcessPredecessors(inputs, nameToId).value;
      assert lists == [ids] + tail;
      forall i | 0 <= i < |inputs|
        ensures |lists[i]| == |inputs[i].predecessors|
        ensures forall j :: 0 <= j < |inputs[i].predecessors| ==> lists[i][j] == nameToId[inputs[i].predecessors[j]]
      {
        if i > 0 {
          assert lists[i] == tail[i - 1] && inputs[i] == rest[i - 1];
        }
      }
    }
  }

  function Repeat(x: nat, c: nat): (r: seq<nat>)
    ensures |r| == c && forall i :: 0 <= i < c ==> r[i] == x
  {
    seq(c, _ => x)
  }

  /** The successor list that inverting the predecessor lists of the first k
      technologies gives technology a: each b < k in ascending order, repeated as
      often as a occurs among b's predecessors. */
  function Inverse(preds: seq<seq<nat>>, a: nat, k: nat): seq<nat>
    requires k <= |preds|
  {
    if k == 0 then [] else Inverse(preds, a, k - 1) + Repeat(k - 1, Count(preds[k - 1], a))
  }

  lemma InverseStep(preds: seq<seq<nat>>, a: nat, k: nat)
    requires k < |preds|
    ensures Inverse(preds, a, k + 1) == Inverse(preds, a, k) + Repeat(k, Count(preds[k], a))
  {
  }

  /** b occurs in the inverse list of a as often as a occurs among b's predecessors. */
  lemma {:induction false} InverseCount(preds: seq<seq<nat>>, a: nat, k: nat, b: nat)
    requires k <= |preds|
    ensures Count(Inverse(preds, a, k), b) == if b < k then Count(preds[b], a) else 0
  {
    if k > 0 {
      InverseCount(preds, a, k - 1, b);
      CountAppend(Inverse(preds, a, k - 1), Repeat(k - 1, Count(preds[k - 1], a)), b);
      RepeatCount(k - 1, Count(preds[k - 1], a), b);
    }
  }

  lemma {:induction false} RepeatCount(x: nat, c: nat, b: nat)
    ensures Count(Repeat(x, c), b) == if b == x then c else 0
  {
    if c > 0 {
      assert Repeat(x, c)[..c - 1] == Repeat(x, c - 1);
      RepeatCount(x, c - 1, b);
    }
  }

  /** Inverse lists are in ascending id order and hold only ids below k. */
  lemma {:induction false} InverseAscending(preds: seq<seq<nat>>, a: nat, k: nat)
    requires k <= |preds|
    ensures Ascending(Inverse(preds, a, k))
    ensures forall x :: x in Inverse(preds, a, k) ==> x < k
  {
    if k > 0 {
      var front := Inverse(preds, a, k - 1);
      var back := Repeat(k - 1, Count(preds[k - 1], a));
      InverseAscending(preds, a, k - 1);
      var all := front + back;
      forall i, j | 0 <= i < j < |all| ensures all[i] <= all[j] {
        if j < |front| {
          assert all[i] == front[i] && all[j] == front[j];
        } else if i < |front| {
          assert all[i] == front[i] && front[i] in front;
        }
      }
    }
  }

  /** process_successors: the successor lists obtained by inverting the predecessor
      lists, filled in predecessor-list order. */
  method ProcessSuccessors(preds: seq<seq<nat>>) returns (succ: seq<seq<nat>>)
    requires forall i, j :: 0 <= i < |preds| && 0 <= j < |preds[i]| ==> preds[i][j] < |preds|
    ensures |succ| == |preds|
    ensures forall a: nat :: a < |preds| ==> succ[a] == Inverse(preds, a, |preds|)
  {
    succ := seq(|preds|, _ => []);
    var id := 0;
    while id < |preds|
      invariant 0 <= id <= |preds|
      invariant |succ| == |preds|
      invariant forall a: nat :: a < |preds| ==> succ[a] == Inverse(preds, a, id)
    {
      var j := 0;
      while j < |preds[id]|
        invariant 0 <= j <= |preds[id]|
        invariant |succ| == |preds|
        invariant forall a: nat :: a < |preds| ==>
          succ[a] == Inverse(preds, a, id) + Repeat(id, Count(preds[id][..j], a))
      {
        var p := preds[id][j];
        ghost var before := succ;
        succ := succ[p := succ[p] + [id]];
        forall a: nat | a < |preds|
          ensures succ[a] == Inverse(preds, a, id) + Repeat(id, Count(preds[id][..j + 1], a))
        {
          SuccessorStep(preds, id, j, a, before[a], succ[a]);
        }
        j := j + 1;
      }
      assert preds[id][..j] == preds[id];
      forall a: nat | a < |preds|
        ensures succ[a] == Inverse(preds, a, id + 1)
      {
        assert succ[a] == Inverse(preds, a, id) + Repeat(id, Count(preds[id][..j], a));
        InverseStep(preds, a, id);
      }
      id := id + 1;
    }
  }

  /** Appending id to the list of its j-th predecessor, and to no other list, extends
      the inverse by the j-th entry. */
  lemma SuccessorStep(preds: seq<seq<nat>>, id: nat, j: nat, a: nat, before: seq<nat>, after: seq<nat>)
    requires id < |preds| && j < |preds[id]|
    requires before == Inverse(preds, a, id) + Repeat(id, Count(preds[id][..j], a))
    requires after == if a == preds[id][j] then before + [id] else before
    ensures after == Inverse(preds, a, id) + Repeat(id, Count(preds[id][..j + 1], a))
  {
    var prefix := preds[id][..j + 1];
    assert prefix[..j] == preds[id][..j] && prefix[j] == preds[id][j];
    var c := Count(preds[id][..j], a);
    if a == preds[id][j] {
      assert Count(prefix, a) == c + 1;
      assert Repeat(id, c + 1) == Repeat(id, c) + [id];
    } else {
      assert Count(prefix, a) == c;
    }
  }

  /** The position of the first blank name, if any. */
  function FirstBlank(names: seq<string>): (r: Option<nat>)
    ensures r.None? <==> forall i :: 0 <= i < |names| ==> !IsBlank(names[i])
    ensures r.Some? ==> r.value < |names| && IsBlank(names[r.value])
    ensures r.Some? ==> forall i :: 0 <= i < r.value ==> !IsBlank(names[i])
  {
    if names == [] then None
    else if IsBlank(names[0]) then Some(0)
    else
      match FirstBlank(names[1..])
      case None => None
      case Some(k) => Some(k + 1)
  }

  /** The predecessor lists of a tree, by id. */
  function PredecessorLists(tree: Tree): (r: seq<seq<nat>>)
    ensures |r| == |tree| && forall i :: 0 <= i < |tree| ==> r[i] == tree[i].predecessors
  {
    seq(|tree|, i requires 0 <= i < |tree| => tree[i].predecessors)
  }

  /** What a successful construction yields: one technology per input, the i-th with
      id i and the name of the i-th input; the j-th predecessor of technology i is the
      position of the input named by its j-th declared predecessor; the successor lists
      invert the predecessor lists. */
  ghost predicate Built(inputs: seq<Input>, tree: Tree) {
    && |tree| == |inputs|
    && (forall i :: 0 <= i < |tree| ==> tree[i].id == i && NewName(inputs[i].name) == Ok(tree[i].name))
    && (forall i :: 0 <= i < |tree| ==> |tree[i].predecessors| == |inputs[i].predecessors|)
    && (forall i, j :: 0 <= i < |tree| && 0 <= j < |tree[i].predecessors| ==>
          tree[i].predecessors[j] < |tree| && inputs[tree[i].predecessors[j]].name == inputs[i].predecessors[j])
    && (forall a: nat :: a < |tree| ==> tree[a].successors == Inverse(PredecessorLists(tree), a, |tree|))
  }

  /** The outcome of create_tree, with its errors in their fixed order: NameExists
      for the first repeated raw name, then UnknownPredecessor for the first unknown
      predecessor name in input order, then InvalidName for the first blank name. */
  ghost predicate Outcome(inputs: seq<Input>, r: Result<Tree, AddError>) {
    var names := Names(inputs);
    if !Distinct(names) then r == Err(NameExists(names[FirstRepeat(names)]))
    else if Unresolved(inputs, Elements(names)) != [] then
      r == Err(UnknownPredecessor(Unresolved(inputs, Elements(names))[0]))
    else if FirstBlank(names).Some? then r == Err(InvalidName(names[FirstBlank(names).value]))
    else r.Ok? && Built(inputs, r.value)
  }

  lemma BuiltFromParts(inputs: seq<Input>, m: map<string, nat>, preds: seq<seq<nat>>, succs: seq<seq<nat>>, tree: Tree)
    requires m.Keys == Elements(Names(inputs))
    requires forall i :: 0 <= i < |inputs| ==> m[inputs[i].name] == i
    requires ProcessPredecessors(inputs, m) == Ok(preds)
    requires |succs| == |preds|
    requires forall a: nat :: a < |preds| ==> succs[a] == Inverse(preds, a, |preds|)
    requires |tree| == |inputs|
    requires forall k :: 0 <= k < |inputs| ==> NewName(inputs[k].name).Ok?
    requires forall k :: 0 <= k < |inputs| ==> tree[k] == Technology(k, NewName(inputs[k].name).value, preds[k], succs[k])
    ensures Built(inputs, tree)
  {
    var lists := PredecessorLists(tree);
    assert lists == preds by {
      forall i | 0 <= i < |tree| ensures lists[i] == preds[i] {
        assert tree[i] == Technology(i, NewName(inputs[i].name).value, preds[i], succs[i]);
      }
    }
    PredecessorsPointToNames(inputs, m, preds);
    forall i | 0 <= i < |tree|
      ensures tree[i].id == i && NewName(inputs[i].name) == Ok(tree[i].name)
      ensures tree[i].predecessors == preds[i] && tree[i].successors == succs[i]
    {
      assert tree[i] == Technology(i, NewName(inputs[i].name).value, preds[i], succs[i]);
    }
  }

  lemma PredecessorsPointToNames(inputs: seq<Input>, m: map<string, nat>, preds: seq<seq<nat>>)
    requires m.Keys == Elements(Names(inputs))
    requires forall i :: 0 <= i < |inputs| ==> m[inputs[i].name] == i
    requires ProcessPredecessors(inputs, m) == Ok(preds)
    ensures forall i :: 0 <= i < |inputs| ==> |preds[i]| == |inputs[i].predecessors|
    ensures forall i, j :: 0 <= i < |inputs| && 0 <= j < |preds[i]| ==>
      preds[i][j] < |inputs| && inputs[preds[i][j]].name == inputs[i].predecessors[j]
  {
    ProcessPredecessorsIds(inputs, m);
    forall i, j | 0 <= i < |inputs| && 0 <= j < |preds[i]|
      ensures preds[i][j] < |inputs| && inputs[preds[i][j]].name == inputs[i].predecessors[j]
    {
      var name := inputs[i].predecessors[j];
      assert name in Elements(Names(inputs));
      var k :| 0 <= k < |inputs| && Names(inputs)[k] == name;
      assert m[inputs[k].name] == k;
    }
  }

  /** create_tree. */
  method CreateTree(inputs: seq<Input>) returns (r: Result<Tree, AddError>)
    ensures Outcome(inputs, r)
  {
    var names := Names(inputs);
    var nameToId := CreateNameToIdMap(inputs);
    if nameToId.Err? {
      return Err(nameToId.error);
    }
    var m := nameToId.value;
    var predecessorsList := ProcessPredecessors(inputs, m);
    if predecessorsList.Err? {
      return Err(predecessorsList.error);
    }
    var preds := predecessorsList.value;
    PredecessorsPointToNames(inputs, m, preds);
    var succs := ProcessSuccessors(preds);
    r := CreateTechnologies(inputs, preds, succs);
    if r.Ok? {
      BuiltFromParts(inputs, m, preds, succs, r.value);
    }
  }

  /** create_tree's loop: technology k gets id k, the parsed name of input k and the
      k-th predecessor and successor lists; the first name that does not parse ends it
      with InvalidName. */
  method CreateTechnologies(inputs: seq<Input>, preds: seq<seq<nat>>, succs: seq<seq<nat>>)
    returns (r: Result<Tree, AddError>)
    requires |preds| == |inputs| && |succs| == |inputs|
    ensures FirstBlank(Names(inputs)).Some? ==>
      r == Err(InvalidName(Names(inputs)[FirstBlank(Names(inputs)).value]))
    ensures FirstBlank(Names(inputs)).None? ==> r.Ok? && |r.value| == |inputs|
    ensures r.Ok? ==> forall k :: 0 <= k < |inputs| ==> NewName(inputs[k].name).Ok?
    ensures r.Ok? ==> |r.value| == |inputs| && forall k :: 0 <= k < |inputs| ==>
      r.value[k] == Technology(k, NewName(inputs[k].name).value, preds[k], succs[k])
  {
    var names := Names(inputs);
    var technologies: seq<Technology> := [];
    var i := 0;
    while i < |inputs|
      invariant 0 <= i <= |inputs| && |technologies| == i
      invariant forall k :: 0 <= k < i ==> !IsBlank(names[k])
      invariant forall k :: 0 <= k < i ==> technologies[k].id == k
      invariant forall k :: 0 <= k < i ==> Ok(technologies[k].name) == NewName(inputs[k].name)
      invariant forall k :: 0 <= k < i ==>
        technologies[k].predecessors == preds[k] && technologies[k].successors == succs[k]
    {
      var name := NewName(inputs[i].name);
      if name.Err? {
        FirstBlankAt(names, i);
        return Err(name.error);
      }
      technologies := technologies + [Technology(|technologies|, name.value, preds[i], succs[i])];
      i := i + 1;
    }
    return Ok(technologies);
  }

  /** A blank name after only non-blank ones is the first blank name. */
  lemma {:induction false} FirstBlankAt(names: seq<string>, i: nat)
    requires i < |names| && IsBlank(names[i])
    requires forall k :: 0 <= k < i ==> !IsBlank(names[k])
    ensures FirstBlank(names) == Some(i)
  {
    if i > 0 {
      var rest := names[1..];
      assert !IsBlank(names[0]);
      assert rest[i - 1] == names[i];
      forall k | 0 <= k < i - 1 ensures !IsBlank(rest[k]) {
        assert rest[k] == names[k + 1];
      }
      FirstBlankAt(rest, i - 1);
    }
  }

  /** Successor lists that are the inverse lists of the predecessor lists. */
  lemma InverseListsInvert(tree: Tree)
    requires forall a: nat :: a < |tree| ==> tree[a].successors == Inverse(PredecessorLists(tree), a, |tree|)
    ensures forall a: nat, b: nat :: a < |tree| && b < |tree| ==>
      Count(tree[a].successors, b) == Count(tree[b].predecessors, a)
    ensures forall a :: 0 <= a < |tree| ==> Ascending(tree[a].successors)
    ensures forall i, k :: 0 <= i < |tree| && 0 <= k < |tree[i].successors| ==> tree[i].successors[k] < |tree|
  {
    var lists := PredecessorLists(tree);
    forall a: nat, b: nat | a < |tree| && b < |tree|
      ensures Count(tree[a].successors, b) == Count(tree[b].predecessors, a)
    {
      InverseCount(lists, a, |tree|, b);
    }
    forall a: nat | a < |tree|
      ensures Ascending(tree[a].successors)
      ensures forall k :: 0 <= k < |tree[a].successors| ==> tree[a].successors[k] < |tree|
    {
      InverseAscending(lists, a, |tree|);
      forall k | 0 <= k < |tree[a].successors| ensures tree[a].successors[k] < |tree| {
        assert tree[a].successors[k] in Inverse(lists, a, |tree|);
      }
    }
  }

  /** A built tree is well formed, and its successor lists are the exact inverse of
      its predecessor lists: b occurs in the successors of a as often as a occurs
      among the predecessors of b, and every successor list is in ascending id order. */
  lemma BuiltTreeInvertsPredecessors(inputs: seq<Input>, tree: Tree)
    requires Built(inputs, tree)
    ensures WellFormed(tree) && Consistent(tree)
    ensures forall a: nat, b: nat :: a < |tree| && b < |tree| ==>
      Count(tree[a].successors, b) == Count(tree[b].predecessors, a)
    ensures forall a :: 0 <= a < |tree| ==> Ascending(tree[a].successors)
  {
    InverseListsInvert(tree);
    forall a: nat, b: nat | a < |tree| && b < |tree|
      ensures b in tree[a].successors <==> a in tree[b].predecessors
    {
      assert Count(tree[a].successors, b) == Count(tree[b].predecessors, a);
    }
  }

  /** Two trees built from the same inputs with distinct names are equal. */
  lemma BuiltUnique(inputs: seq<Input>, t1: Tree, t2: Tree)
    requires Distinct(Names(inputs))
    requires Built(inputs, t1) && Built(inputs, t2)
    ensures t1 == t2
  {
    var names := Names(inputs);
    forall i | 0 <= i < |t1| ensures t1[i].predecessors == t2[i].predecessors {
      forall j | 0 <= j < |t1[i].predecessors|
        ensures t1[i].predecessors[j] == t2[i].predecessors[j]
      {
        var x, y := t1[i].predecessors[j], t2[i].predecessors[j];
        assert names[x] == names[y];
      }
    }
    assert PredecessorLists(t1) == PredecessorLists(t2);
    forall i | 0 <= i < |t1| ensures t1[i] == t2[i] {
      assert NewName(inputs[i].name) == Ok(t1[i].name) && NewName(inputs[i].name) == Ok(t2[i].name);
      assert t1[i].successors == t2[i].successors;
    }
  }

  /** The outcome is a function of the inputs: create_tree's contract leaves no choice. */
  lemma OutcomeUnique(inputs: seq<Input>, r1: Result<Tree, AddError>, r2: Result<Tree, AddError>)
    requires Outcome(inputs, r1) && Outcome(inputs, r2)
    ensures r1 == r2
  {
    if r1.Ok? && r2.Ok? {
      BuiltUnique(inputs, r1.value, r2.value);
    }
  }

  /** A name with no surrounding whitespace is its own simple name. */
  lemma PlainName(s: string)
    requires |s| > 0 && !IsWhitespace(s[0]) && !IsWhitespace(s[|s| - 1])
    ensures NewName(s) == Ok(Simple(s)) && !IsBlank(s)
  {
    assert BlankSuffixStart(s) == |s|;
    assert s[..|s|] == s;
    assert BlankPrefix(s) == 0;
  }

  function ExampleInputs(): seq<Input> {
    [ Input("t0", []), Input("t1", []), Input("t2", ["t0", "t1"]),
      Input("t3", ["t2"]), Input("t4", ["t2"]) ]
  }

  /** The tree that test_create_tree expects. */
  function ExampleTree(): Tree {
    [ Technology(0, Simple("t0"), [], [2]),
      Technology(1, Simple("t1"), [], [2]),
      Technology(2, Simple("t2"), [0, 1], [3, 4]),
      Technology(3, Simple("t3"), [2], []),
      Technology(4, Simple("t4"), [2], []) ]
  }

  lemma ExampleInverse()
    ensures forall a: nat :: a < 5 ==>
      ExampleTree()[a].successors == Inverse(PredecessorLists(ExampleTree()), a, 5)
  {
    var lists: seq<seq<nat>> := [[], [], [0, 1], [2], [2]];
    assert PredecessorLists(ExampleTree()) == lists;
    forall a: nat | a < 5 ensures ExampleTree()[a].successors == Inverse(lists, a, 5) {
      ExampleInverseShape(a);
      assert Count([0, 1], a) == if a < 2 then 1 else 0;
      assert Count([2], a) == if a == 2 then 1 else 0;
      assert Repeat(2, 1) == [2] && Repeat(3, 1) == [3] && Repeat(4, 1) == [4];
    }
  }

  /** The inverse lists of the example, written out by predecessor list. */
  lemma ExampleInverseShape(a: nat)
    ensures Inverse([[], [], [0, 1], [2], [2]], a, 5) ==
      Repeat(2, Count([0, 1], a)) + Repeat(3, Count([2], a)) + Repeat(4, Count([2], a))
  {
    var lists: seq<seq<nat>> := [[], [], [0, 1], [2], [2]];
    assert Count(lists[0], a) == 0 && Count(lists[1], a) == 0;
    assert Repeat(0, 0) == [] && Repeat(1, 0) == [];
    assert Inverse(lists, a, 1) == [];
    assert Inverse(lists, a, 2) == [];
    assert Inverse(lists, a, 3) == Repeat(2, Count([0, 1], a));
    assert Inverse(lists, a, 4) == Repeat(2, Count([0, 1], a)) + Repeat(3, Count([2], a));
  }

  lemma ExampleNamesPlain()
    ensures FirstBlank(["t0", "t1", "t2", "t3", "t4"]).None?
    ensures forall i :: 0 <= i < 5 ==> NewName(ExampleInputs()[i].name) == Ok(ExampleTree()[i].name)
  {
    var raw := ["t0", "t1", "t2", "t3", "t4"];
    assert forall i :: 0 <= i < 5 ==> ExampleInputs()[i].name == raw[i];
    assert forall i :: 0 <= i < 5 ==> ExampleTree()[i].name == Simple(raw[i]);
    forall i | 0 <= i < 5 ensures NewName(raw[i]) == Ok(Simple(raw[i])) && !IsBlank(raw[i]) {
      PlainName(raw[i]);
    }
  }

  lemma ExampleNames()
    ensures Names(ExampleInputs()) == ["t0", "t1", "t2", "t3", "t4"]
    ensures Distinct(Names(ExampleInputs()))
    ensures Unresolved(ExampleInputs(), Elements(Names(ExampleInputs()))) == []
  {
    ExampleNameList();
    var known := Elements(Names(ExampleInputs()));
    assert known == {"t0", "t1", "t2", "t3", "t4"};
    var inputs := ExampleInputs();
    forall i, j | 0 <= i < |inputs| && 0 <= j < |inputs[i].predecessors|
      ensures inputs[i].predecessors[j] in known
    {
      assert inputs[i].predecessors[j] in {"t0", "t1", "t2"};
    }
  }

  lemma ExampleNameList()
    ensures Names(ExampleInputs()) == ["t0", "t1", "t2", "t3", "t4"]
    ensures Distinct(Names(ExampleInputs()))
  {
    assert Names(ExampleInputs()) == ["t0", "t1", "t2", "t3", "t4"];
  }

  lemma ExampleIds()
    ensures |ExampleTree()| == |ExampleInputs()| == 5
    ensures forall i :: 0 <= i < 5 ==> ExampleTree()[i].id == i
  {
  }

  lemma ExamplePredecessors()
    ensures forall i :: 0 <= i < 5 ==> |ExampleTree()[i].predecessors| == |ExampleInputs()[i].predecessors|
    ensures forall i, j :: 0 <= i < 5 && 0 <= j < |ExampleTree()[i].predecessors| ==>
      ExampleTree()[i].predecessors[j] < 5 &&
      ExampleInputs()[ExampleTree()[i].predecessors[j]].name == ExampleInputs()[i].predecessors[j]
  {
    var inputs, tree := ExampleInputs(), ExampleTree();
    forall i, j | 0 <= i < 5 && 0 <= j < |tree[i].predecessors|
      ensures tree[i].predecessors[j] < 5 && inputs[tree[i].predecessors[j]].name == inputs[i].predecessors[j]
    {
      assert i >= 2;
      if i == 2 {
        assert j == 0 || j == 1;
      }
    }
  }

  /** The successful outcome, once the three error checks pass. */
  lemma OutcomeOk(inputs: seq<Input>, tree: Tree)
    requires Distinct(Names(inputs))
    requires Unresolved(inputs, Elements(Names(inputs))) == []
    requires FirstBlank(Names(inputs)).None?
    requires Built(inputs, tree)
    ensures Outcome(inputs, Ok(tree))
  {
  }

  lemma ExampleBuilt()
    ensures Built(ExampleInputs(), ExampleTree())
  {
    ExampleIds();
    ExampleNamesPlain();
    ExamplePredecessors();
    ExampleInverse();
    BuiltIntro(ExampleInputs(), ExampleTree());
  }

  /** The parts of Built, each as its own fact. */
  lemma BuiltIntro(inputs: seq<Input>, tree: Tree)
    requires |tree| == |inputs|
    requires forall i :: 0 <= i < |tree| ==> tree[i].id == i
    requires forall i :: 0 <= i < |tree| ==> NewName(inputs[i].name) == Ok(tree[i].name)
    requires forall i :: 0 <= i < |tree| ==> |tree[i].predecessors| == |inputs[i].predecessors|
    requires forall i, j :: 0 <= i < |tree| && 0 <= j < |tree[i].predecessors| ==>
      tree[i].predecessors[j] < |tree| && inputs[tree[i].predecessors[j]].name == inputs[i].predecessors[j]
    requires forall a: nat :: a < |tree| ==> tree[a].successors == Inverse(PredecessorLists(tree), a, |tree|)
    ensures Built(inputs, tree)
  {
  }

  /** test_create_tree. */
  lemma CreateTreeExample()
    ensures Outcome(ExampleInputs(), Ok(ExampleTree()))
  {
    ExampleNames();
    ExampleNamesPlain();
    ExampleBuilt();
    OutcomeOk(ExampleInputs(), ExampleTree());
  }

  function WrongOrderInputs(): seq<Input> {
    [Input("t0", ["t1"]), Input("t1", [])]
  }

  function WrongOrderTree(): Tree {
    [Technology(0, Simple("t0"), [1], []), Technology(1, Simple("t1"), [], [0])]
  }

  lemma WrongOrderNames()
    ensures Names(WrongOrderInputs()) == ["t0", "t1"]
    ensures Distinct(Names(WrongOrderInputs()))
    ensures Unresolved(WrongOrderInputs(), Elements(Names(WrongOrderInputs()))) == []
  {
    assert Names(WrongOrderInputs()) == ["t0", "t1"];
    assert Elements(["t0", "t1"]) == {"t0", "t1"};
  }

  lemma WrongOrderNamesPlain()
    ensures FirstBlank(["t0", "t1"]).None?
    ensures forall i :: 0 <= i < 2 ==> NewName(WrongOrderInputs()[i].name) == Ok(WrongOrderTree()[i].name)
  {
    var raw := ["t0", "t1"];
    assert forall i :: 0 <= i < 2 ==> WrongOrderInputs()[i].name == raw[i];
    assert forall i :: 0 <= i < 2 ==> WrongOrderTree()[i].name == Simple(raw[i]);
    forall i | 0 <= i < 2 ensures NewName(raw[i]) == Ok(Simple(raw[i])) && !IsBlank(raw[i]) {
      PlainName(raw[i]);
    }
  }

  lemma WrongOrderShape()
    ensures |WrongOrderTree()| == |WrongOrderInputs()| == 2
    ensures forall i :: 0 <= i < 2 ==> WrongOrderTree()[i].id == i
    ensures forall i :: 0 <= i < 2 ==> |WrongOrderTree()[i].predecessors| == |WrongOrderInputs()[i].predecessors|
    ensures forall i, j :: 0 <= i < 2 && 0 <= j < |WrongOrderTree()[i].predecessors| ==>
      WrongOrderTree()[i].predecessors[j] < 2 &&
      WrongOrderInputs()[WrongOrderTree()[i].predecessors[j]].name == WrongOrderInputs()[i].predecessors[j]
  {
  }

  lemma WrongOrderInverse()
    ensures forall a: nat :: a < 2 ==>
      WrongOrderTree()[a].successors == Inverse(PredecessorLists(WrongOrderTree()), a, 2)
  {
    var lists: seq<seq<nat>> := [[1], []];
    assert PredecessorLists(WrongOrderTree()) == lists;
    assert Inverse(lists, 0, 2) == [];
    assert Inverse(lists, 1, 2) == [0];
  }

  lemma WrongOrderBuilt()
    ensures Built(WrongOrderInputs(), WrongOrderTree())
  {
    WrongOrderShape();
    WrongOrderNamesPlain();
    WrongOrderInverse();
  }

  /** test_wrong_order: a predecessor may be declared after the technology naming it. */
  lemma WrongOrderExample()
    ensures Outcome(WrongOrderInputs(), Ok(WrongOrderTree()))
  {
    WrongOrderNames();
    WrongOrderNamesPlain();
    WrongOrderBuilt();
    OutcomeOk(WrongOrderInputs(), WrongOrderTree());
  }

  /** test_invalid_name, test_duplicate_name and test_unknown_predecessor. */
  lemma ErrorExamples()
    ensures Outcome([Input("   ", [])], Err(InvalidName("   ")))
    ensures Outcome([Input("duplicate", []), Input("duplicate", [])], Err(NameExists("duplicate")))
    ensures Outcome([Input("name", ["unknown"])], Err(UnknownPredecessor("unknown")))
  {
    assert Names([Input("   ", [])]) == ["   "];
    assert IsBlank("   ");
    var dup := ["duplicate", "duplicate"];
    assert Names([Input("duplicate", []), Input("duplicate", [])]) == dup;
    assert dup[..1] == ["duplicate"];
    FirstRepeatUnique(dup, 1);
    assert Names([Input("name", ["unknown"])]) == ["name"];
    assert Elements(["name"]) == {"name"};
  }
}
