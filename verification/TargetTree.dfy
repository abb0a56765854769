/**
 The tree of backup targets.

 Targets are folded into a tree of path components, which is then unrolled: a directory that
 is a target and also contains other targets is replaced by its entries, so that only leaves
 carry a path.  Paths are absolute and clean and are given by their components.
 */
module TargetTree {
  import opened Wrappers

  type Path = seq<string>

  datatype Tree = Tree(nodes: map<string, Tree>, path: Option<Path>, explicit: bool, fileInfoPath: Option<Path>)

  const EMPTY := Tree(map[], None, false, None)

  // ---------------------------------------------------------------------------------------
  // Adding targets
  // ---------------------------------------------------------------------------------------

  /** Adds the target `root + pc` below the node at `root`. */
  function Add(t: Tree, root: Path, pc: seq<string>, explicit: bool): Result<Tree>
    decreases |pc|
  {
    if pc == [] then Err
    else
      var name, here := pc[0], root + [pc[0]];
      if |pc| == 1 then
        if name !in t.nodes then Ok(t.(nodes := t.nodes[name := EMPTY.(path := Some(here), explicit := explicit)]))
        else if t.nodes[name].path.Some? then Err
        else Ok(t.(nodes := t.nodes[name := t.nodes[name].(path := Some(here), explicit := explicit)]))
      else
        var node := ChildOrEmpty(t, name);
        match Add(node.(fileInfoPath := Some(here)), here, pc[1..], explicit)
        case Err => Err
        case Ok(node') => Ok(t.(nodes := t.nodes[name := node']))
  }

  /** Adds a target to the whole tree; unlike below, a target of one component replaces the path
      that is there. */
  function AddTop(t: Tree, target: Path, explicit: bool): Result<Tree> {
    if target == [] then Err
    else
      var name := target[0];
      var node := ChildOrEmpty(t, name);
      if |target| == 1 then Ok(t.(nodes := t.nodes[name := node.(path := Some(target), explicit := explicit)]))
      else
        match Add(node, [name], target[1..], explicit)
        case Err => Err
        case Ok(node') => Ok(t.(nodes := t.nodes[name := node'.(fileInfoPath := Some([name]))]))
  }

  /** The targets with their flags. */
  type Targets = map<Path, bool>

  /** Some target lies at or below `at`. */
  ghost predicate Below(targets: Targets, at: Path) {
    exists p :: p in targets && at <= p
  }

  /** The tree is the one for these targets: a node for every prefix of a target and no other,
      with the path exactly at the targets, and metadata exactly at the inner nodes. */
  ghost predicate Represents(t: Tree, at: Path, targets: Targets)
    decreases t, 1
  {
    Shape(t, at, targets) && t.fileInfoPath == (if at != [] && t.nodes != map[] then Some(at) else None)
  }

  /** All of the above except for the metadata path of the node itself. */
  ghost predicate Shape(t: Tree, at: Path, targets: Targets)
    decreases t, 0
  {
    && t.path == (if at in targets then Some(at) else None)
    && t.explicit == (at in targets && targets[at])
    && (forall name :: name in t.nodes <==> Below(targets, at + [name]))
    && (forall name :: name in t.nodes ==> Represents(t.nodes[name], at + [name], targets))
  }

  /** The targets determine the tree. */
  lemma {:induction false} RepresentsUnique(t: Tree, u: Tree, at: Path, targets: Targets)
    requires Represents(t, at, targets) && Represents(u, at, targets)
    ensures t == u
    decreases t
  {
    assert t.nodes.Keys == u.nodes.Keys;
    forall name | name in t.nodes ensures t.nodes[name] == u.nodes[name] {
      RepresentsUnique(t.nodes[name], u.nodes[name], at + [name], targets);
    }
    assert t.nodes == u.nodes;
  }

  /** A new target elsewhere does not concern a subtree. */
  lemma {:induction false} RepresentsElsewhere(t: Tree, at: Path, targets: Targets, p: Path, explicit: bool)
    requires Represents(t, at, targets) && !(at <= p)
    ensures Represents(t, at, targets[p := explicit])
    decreases t
  {
    var targets' := targets[p := explicit];
    forall name ensures Below(targets', at + [name]) <==> Below(targets, at + [name]) {
      BelowAfterAdd(targets, p, explicit, at + [name]);
    }
    forall name | name in t.nodes ensures Represents(t.nodes[name], at + [name], targets') {
      RepresentsElsewhere(t.nodes[name], at + [name], targets, p, explicit);
    }
  }

  lemma BelowAfterAdd(targets: Targets, p: Path, explicit: bool, at: Path)
    ensures Below(targets[p := explicit], at) <==> Below(targets, at) || at <= p
  {
    var targets' := targets[p := explicit];
    if Below(targets, at) {
      var q :| q in targets && at <= q;
      assert q in targets';
    }
    if at <= p {
      assert p in targets';
    }
  }

  /** Components below `at` name different subtrees. */
  lemma OtherBranch(at: Path, pc: seq<string>, name: string)
    requires pc != []
    ensures at + [name] <= at + pc <==> name == pc[0]
  {
    if at + [name] <= at + pc {
      assert (at + [name])[|at|] == (at + pc)[|at|];
    }
    if name == pc[0] {
      assert at + pc == at + [name] + pc[1..];
    }
  }

  /** Replacing the subtree that a new target lies in. */
  lemma ReplaceChild(t: Tree, at: Path, targets: Targets, pc: seq<string>, explicit: bool, node: Tree)
    requires Shape(t, at, targets) && pc != []
    requires Represents(node, at + [pc[0]], targets[at + pc := explicit])
    ensures Shape(t.(nodes := t.nodes[pc[0] := node]), at, targets[at + pc := explicit])
  {
    var targets', t' := targets[at + pc := explicit], t.(nodes := t.nodes[pc[0] := node]);
    assert at + pc != at;
    forall name ensures name in t'.nodes <==> Below(targets', at + [name]) {
      BelowAfterAdd(targets, at + pc, explicit, at + [name]);
      OtherBranch(at, pc, name);
    }
    forall name | name in t'.nodes ensures Represents(t'.nodes[name], at + [name], targets') {
      OtherBranch(at, pc, name);
      if name != pc[0] {
        RepresentsElsewhere(t.nodes[name], at + [name], targets, at + pc, explicit);
      }
    }
  }

  lemma NothingThere(at: Path, targets: Targets)
    requires !Below(targets, at)
    ensures Shape(EMPTY, at, targets)
  {
    forall name ensures !Below(targets, at + [name]) {
      assert forall p :: p in targets && at + [name] <= p ==> at <= p;
    }
    assert at in targets ==> at <= at;
  }

  /** A prefix of a target becomes a target itself. */
  lemma SetPath(node: Tree, here: Path, explicit: bool, targets: Targets)
    requires Represents(node, here, targets) && here != [] && here !in targets
    ensures Represents(node.(path := Some(here), explicit := explicit), here, targets[here := explicit])
  {
    var targets' := targets[here := explicit];
    forall name ensures Below(targets', here + [name]) <==> Below(targets, here + [name]) {
      BelowAfterAdd(targets, here, explicit, here + [name]);
    }
    forall name | name in node.nodes ensures Represents(node.nodes[name], here + [name], targets') {
      RepresentsElsewhere(node.nodes[name], here + [name], targets, here, explicit);
    }
  }

  function ChildOrEmpty(t: Tree, name: string): Tree {
    if name in t.nodes then t.nodes[name] else EMPTY
  }

  lemma ChildRepresents(t: Tree, at: Path, name: string, targets: Targets)
    requires Shape(t, at, targets)
    ensures Represents(ChildOrEmpty(t, name), at + [name], targets)
  {
    if name !in t.nodes {
      NothingThere(at + [name], targets);
    }
  }

  lemma ShapeIgnoresInfo(t: Tree, at: Path, targets: Targets, info: Option<Path>)
    requires Shape(t, at, targets)
    ensures Shape(t.(fileInfoPath := info), at, targets)
  {
  }

  lemma AddLast(t: Tree, at: Path, name: string, explicit: bool, targets: Targets)
    requires Shape(t, at, targets) && at + [name] !in targets
    ensures var node := ChildOrEmpty(t, name).(path := Some(at + [name]), explicit := explicit);
      Shape(t.(nodes := t.nodes[name := node]), at, targets[at + [name] := explicit])
  {
    ChildRepresents(t, at, name, targets);
    SetPath(ChildOrEmpty(t, name), at + [name], explicit, targets);
    ReplaceChild(t, at, targets, [name], explicit, ChildOrEmpty(t, name).(path := Some(at + [name]), explicit := explicit));
  }

  lemma AddInner(t: Tree, at: Path, pc: seq<string>, explicit: bool, targets: Targets, node: Tree)
    requires Shape(t, at, targets) && pc != []
    requires Shape(node, at + [pc[0]], targets[at + pc := explicit]) && node.nodes != map[] && node.fileInfoPath == Some(at + [pc[0]])
    ensures Shape(t.(nodes := t.nodes[pc[0] := node]), at, targets[at + pc := explicit])
  {
    ReplaceChild(t, at, targets, pc, explicit, node);
  }

  /** Adding a target succeeds exactly when it is not there yet, and gives the tree for one target more. */
  lemma {:induction false} AddRepresents(t: Tree, at: Path, pc: seq<string>, explicit: bool, targets: Targets)
    requires Shape(t, at, targets) && pc != []
    ensures Add(t, at, pc, explicit).Ok? <==> at + pc !in targets
    ensures var r := Add(t, at, pc, explicit); r.Ok? ==>
      && Shape(r.value, at, targets[at + pc := explicit])
      && r.value.fileInfoPath == t.fileInfoPath && pc[0] in r.value.nodes
    decreases |pc|
  {
    var name, here := pc[0], at + [pc[0]];
    ChildRepresents(t, at, name, targets);
    if |pc| == 1 {
      assert pc == [name];
      if here !in targets {
        AddLast(t, at, name, explicit, targets);
      }
    } else {
      var inner := ChildOrEmpty(t, name).(fileInfoPath := Some(here));
      ShapeIgnoresInfo(ChildOrEmpty(t, name), here, targets, Some(here));
      assert here + pc[1..] == at + pc;
      AddRepresents(inner, here, pc[1..], explicit, targets);
      var r := Add(inner, here, pc[1..], explicit);
      if r.Ok? {
        AddInner(t, at, pc, explicit, targets, r.value);
      }
    }
  }

  lemma AddTopRepresents(t: Tree, target: Path, explicit: bool, targets: Targets)
    requires Represents(t, [], targets) && target !in targets
    ensures AddTop(t, target, explicit).Ok? <==> target != []
    ensures target != [] ==> Represents(AddTop(t, target, explicit).value, [], targets[target := explicit])
  {
    if target != [] {
      var name := target[0];
      assert [] + [name] == [name] && [] + target == target;
      ChildRepresents(t, [], name, targets);
      if |target| == 1 {
        assert target == [name];
        AddLast(t, [], name, explicit, targets);
      } else {
        var node := ChildOrEmpty(t, name);
        assert [name] + target[1..] == target;
        AddRepresents(node, [name], target[1..], explicit, targets);
        var r := Add(node, [name], target[1..], explicit);
        ShapeIgnoresInfo(r.value, [name], targets[target := explicit], Some([name]));
        AddInner(t, [], target, explicit, targets, r.value.(fileInfoPath := Some([name])));
      }
    }
  }

  // ---------------------------------------------------------------------------------------
  // Unrolling
  // ---------------------------------------------------------------------------------------

  /** The directories of the file system with their entries. */
  type Listing = map<Path, set<string>>

  /** A child after its parent `p` has been replaced by its entries. */
  function ExpandedChild(t: Tree, p: Path, name: string, listed: bool): Tree {
    var node := ChildOrEmpty(t, name);
    if listed && node.path.None? then node.(path := Some(p + [name])) else node
  }

  predicate Collides(t: Tree, p: Path, name: string) {
    name in t.nodes && t.nodes[name].path.Some? && t.nodes[name].path.value != p + [name]
  }

  predicate MustExpand(t: Tree) {
    t.path.Some? && t.nodes != map[]
  }

  /** A node with a path and children is replaced by its directory's entries. */
  function Expand(fs: Listing, t: Tree): Result<Tree> {
    if !MustExpand(t) then Ok(t)
    else
      var p := t.path.value;
      if p !in fs || exists name :: name in fs[p] && Collides(t, p, name) then Err
      else Ok(Tree(map name | name in t.nodes.Keys + fs[p] :: ExpandedChild(t, p, name, name in fs[p]), None, false, t.fileInfoPath))
  }

  ghost function MaxOf(s: set<nat>): nat {
    if s == {} then 0 else
      var x :| x in s;
      var m := MaxOf(s - {x});
      if x > m then x else m
  }

  lemma {:induction false} MaxOfBounds(s: set<nat>, x: nat)
    requires x in s
    ensures x <= MaxOf(s)
    decreases s
  {
    var y :| y in s && MaxOf(s) == (if y > MaxOf(s - {y}) then y else MaxOf(s - {y}));
    if x != y {
      MaxOfBounds(s - {y}, x);
    }
  }

  ghost function Depth(t: Tree): nat {
    if t.nodes == map[] then 0 else 1 + MaxOf(set name | name in t.nodes :: Depth(t.nodes[name]))
  }

  lemma ChildDepth(t: Tree, name: string)
    requires name in t.nodes
    ensures Depth(t.nodes[name]) < Depth(t)
  {
    MaxOfBounds(set n | n in t.nodes :: Depth(t.nodes[n]), Depth(t.nodes[name]));
  }

  lemma ExpandDepth(fs: Listing, t: Tree, name: string)
    requires Expand(fs, t).Ok? && name in Expand(fs, t).value.nodes
    ensures Depth(Expand(fs, t).value.nodes[name]) < Depth(t)
  {
    var node := Expand(fs, t).value.nodes[name];
    if name in t.nodes {
      ChildDepth(t, name);
      assert node.nodes == t.nodes[name].nodes;
      assert Depth(node) == Depth(t.nodes[name]);
    }
  }

  /** Unrolls the node and then everything below it. */
  ghost function Unrolled(fs: Listing, t: Tree): Result<Tree>
    decreases Depth(t), 1
  {
    var e := Expand(fs, t);
    if e.Err? then Err
    else if exists name :: name in e.value.nodes && UnrolledChild(fs, t, name).Err? then Err
    else Ok(e.value.(nodes := map name | name in e.value.nodes :: UnrolledChild(fs, t, name).value))
  }

  ghost function UnrolledChild(fs: Listing, t: Tree, name: string): Result<Tree>
    requires Expand(fs, t).Ok? && name in Expand(fs, t).value.nodes
    decreases Depth(t), 0
  {
    ExpandDepth(fs, t, name);
    Unrolled(fs, Expand(fs, t).value.nodes[name])
  }

  /** Replaces a directory by its entries, one entry after the other. */
  method ExpandNode(fs: Listing, t: Tree) returns (r: Result<Tree>)
    ensures r == Expand(fs, t)
  {
    if !(t.path.Some? && t.nodes != map[]) {
      return Ok(t);
    }
    var p := t.path.value;
    if p !in fs {
      return Err;
    }
    var nodes := t.nodes;
    var left := fs[p];
    while left != {}
      invariant left <= fs[p]
      invariant nodes == map name | name in t.nodes.Keys + (fs[p] - left) :: ExpandedChild(t, p, name, name in fs[p] - left)
      invariant forall name :: name in fs[p] - left ==> !Collides(t, p, name)
      decreases left
    {
      var entry :| entry in left;
      if entry in nodes {
        var node := nodes[entry];
        if node.path.None? {
          nodes := nodes[entry := node.(path := Some(p + [entry]))];
        } else if node.path.value != p + [entry] {
          assert Collides(t, p, entry);
          return Err;
        }
      } else {
        nodes := nodes[entry := EMPTY.(path := Some(p + [entry]))];
      }
      left := left - {entry};
    }
    assert fs[p] - left == fs[p];
    return Ok(Tree(nodes, None, false, t.fileInfoPath));
  }

  /** Unrolls a tree; the subtrees are unrolled in any order. */
  method Unroll(fs: Listing, t: Tree) returns (r: Result<Tree>)
    ensures r == Unrolled(fs, t)
    decreases Depth(t)
  {
    var e := ExpandNode(fs, t);
    if e.Err? {
      return Err;
    }
    var nodes := e.value.nodes;
    var left := nodes.Keys;
    while left != {}
      invariant left <= e.value.nodes.Keys == nodes.Keys
      invariant forall name :: name in e.value.nodes && name in left ==> nodes[name] == e.value.nodes[name]
      invariant forall name :: name in e.value.nodes && name !in left ==> UnrolledChild(fs, t, name) == Ok(nodes[name])
      decreases left
    {
      var name :| name in left;
      ExpandDepth(fs, t, name);
      var sub := Unroll(fs, nodes[name]);
      if sub.Err? {
        assert UnrolledChild(fs, t, name).Err?;
        return Err;
      }
      nodes := nodes[name := sub.value];
      left := left - {name};
    }
    assert nodes == map name | name in e.value.nodes :: UnrolledChild(fs, t, name).value;
    return Ok(e.value.(nodes := nodes));
  }

  // ---------------------------------------------------------------------------------------
  // Only leaves carry paths
  // ---------------------------------------------------------------------------------------

  ghost predicate OnlyLeaves(t: Tree) {
    (t.path.Some? ==> t.nodes == map[]) && forall name :: name in t.nodes ==> OnlyLeaves(t.nodes[name])
  }

  lemma {:induction false} UnrolledOnlyLeaves(fs: Listing, t: Tree)
    requires Unrolled(fs, t).Ok?
    ensures OnlyLeaves(Unrolled(fs, t).value)
    decreases Depth(t)
  {
    var u := Unrolled(fs, t).value;
    forall name | name in u.nodes ensures OnlyLeaves(u.nodes[name]) {
      ExpandDepth(fs, t, name);
      UnrolledOnlyLeaves(fs, Expand(fs, t).value.nodes[name]);
    }
    assert u.path.Some? ==> u.nodes.Keys == {};
  }

  // ---------------------------------------------------------------------------------------
  // A path is where it belongs
  // ---------------------------------------------------------------------------------------

  /** A node's path, if set, is the position of the node. */
  ghost predicate Canonical(t: Tree, at: Path) {
    (t.path.Some? ==> t.path.value == at) && forall name :: name in t.nodes ==> Canonical(t.nodes[name], at + [name])
  }

  lemma {:induction false} RepresentsCanonical(t: Tree, at: Path, targets: Targets)
    requires Represents(t, at, targets)
    ensures Canonical(t, at)
    decreases t
  {
    forall name | name in t.nodes ensures Canonical(t.nodes[name], at + [name]) {
      RepresentsCanonical(t.nodes[name], at + [name], targets);
    }
  }

  /** A node in its place never collides: expanding fails only for what cannot be listed. */
  lemma ExpandCanonical(fs: Listing, t: Tree, at: Path)
    requires Canonical(t, at)
    ensures Expand(fs, t).Err? <==> MustExpand(t) && at !in fs
    ensures Expand(fs, t).Ok? ==> Canonical(Expand(fs, t).value, at)
  {
    if MustExpand(t) && at in fs {
      forall name ensures !Collides(t, at, name) {
      }
      var e := Expand(fs, t).value;
      forall name | name in e.nodes ensures Canonical(e.nodes[name], at + [name]) {
        if name in t.nodes {
          assert e.nodes[name].nodes == t.nodes[name].nodes;
        }
      }
    }
  }

  lemma {:induction false} UnrolledCanonical(fs: Listing, t: Tree, at: Path)
    requires Canonical(t, at) && Unrolled(fs, t).Ok?
    ensures Canonical(Unrolled(fs, t).value, at)
    decreases Depth(t)
  {
    ExpandCanonical(fs, t, at);
    var u, e := Unrolled(fs, t).value, Expand(fs, t).value;
    forall name | name in u.nodes ensures Canonical(u.nodes[name], at + [name]) {
      ExpandDepth(fs, t, name);
      UnrolledCanonical(fs, e.nodes[name], at + [name]);
    }
  }

  // ---------------------------------------------------------------------------------------
  // Every file under a target is covered once
  // ---------------------------------------------------------------------------------------

  /** How many nodes on the way down `rest` carry a path; in a canonical tree these are the nodes
      whose path is a prefix of the file's. */
  function CoverCount(t: Tree, rest: Path): nat
    decreases |rest|
  {
    (if t.path.Some? then 1 else 0)
    + (if rest != [] && rest[0] in t.nodes then CoverCount(t.nodes[rest[0]], rest[1..]) else 0)
  }

  /** `at + rest` is an existing file: every directory on the way lists the next component. */
  predicate FileBelow(fs: Listing, at: Path, rest: Path)
    decreases |rest|
  {
    if rest == [] then at !in fs
    else at in fs && rest[0] in fs[at] && FileBelow(fs, at + [rest[0]], rest[1..])
  }

  lemma {:induction false} UnrolledCovers(fs: Listing, t: Tree, at: Path, rest: Path)
    requires Canonical(t, at) && Unrolled(fs, t).Ok? && FileBelow(fs, at, rest)
    ensures CoverCount(Unrolled(fs, t).value, rest) == if CoverCount(t, rest) > 0 then 1 else 0
    decreases |rest|
  {
    ExpandCanonical(fs, t, at);
    var u, e := Unrolled(fs, t).value, Expand(fs, t).value;
    if rest != [] && rest[0] in e.nodes {
      UnrolledCovers(fs, e.nodes[rest[0]], at + [rest[0]], rest[1..]);
    }
    if MustExpand(t) {
      assert rest[0] in e.nodes && e.nodes[rest[0]].path.Some?;
    }
  }

  /** Some target at or below `at` is a prefix of `f`. */
  ghost predicate Covering(targets: Targets, at: Path, f: Path) {
    exists p :: p in targets && at <= p <= f
  }

  /** Before unrolling, a file is covered if some target is a prefix of it. */
  lemma {:induction false} RepresentsCovers(t: Tree, at: Path, rest: Path, targets: Targets)
    requires Represents(t, at, targets)
    ensures CoverCount(t, rest) > 0 <==> Covering(targets, at, at + rest)
    decreases |rest|
  {
    if t.path.Some? {
      assert at in targets && at <= at <= at + rest;
    }
    if rest != [] {
      var name := rest[0];
      assert at + [name] + rest[1..] == at + rest;
      if name in t.nodes {
        RepresentsCovers(t.nodes[name], at + [name], rest[1..], targets);
      }
      forall p | p in targets && at <= p <= at + rest && p != at ensures name in t.nodes && at + [name] <= p {
        assert p[|at|] == (at + rest)[|at|] == name;
        assert Below(targets, at + [name]);
      }
    } else {
      forall p | p in targets && at <= p <= at + rest ensures p == at {
      }
    }
  }

  // ---------------------------------------------------------------------------------------
  // When unrolling succeeds
  // ---------------------------------------------------------------------------------------

  /** Every directory from `a` on lists the next component of `p`. */
  predicate Listed(fs: Listing, a: Path, p: Path) {
    forall k :: |a| <= k < |p| ==> p[..k] in fs && p[k] in fs[p[..k]]
  }

  /** `p` cannot be listed although it has to be: it is found below `a` and contains the target `b`. */
  predicate Blocked(fs: Listing, targets: Targets, a: Path, p: Path, b: Path) {
    b in targets && a <= p && p < b && p !in fs && Listed(fs, a, p)
  }

  /** `t` is the node at `at`, to which an expanded parent may have given a path. */
  ghost predicate Grown(t: Tree, shape: Tree, at: Path, targets: Targets) {
    && Represents(shape, at, targets)
    && t == shape.(path := t.path)
    && (t.path == shape.path || t.path == Some(at))
  }

  /** `a` is a place at or below `at` that carries a path. */
  predicate Carries(t: Tree, at: Path, targets: Targets, a: Path) {
    at <= a && (a in targets || (a == at && t.path.Some?))
  }

  lemma {:induction false} GrownCanonical(t: Tree, shape: Tree, at: Path, targets: Targets)
    requires Grown(t, shape, at, targets)
    ensures Canonical(t, at)
  {
    RepresentsCanonical(shape, at, targets);
  }

  /** The children of an expanded node that were there before. */
  lemma GrownChild(fs: Listing, t: Tree, shape: Tree, at: Path, targets: Targets, name: string)
    requires Grown(t, shape, at, targets) && Expand(fs, t).Ok? && name in shape.nodes
    ensures name in Expand(fs, t).value.nodes
    ensures Grown(Expand(fs, t).value.nodes[name], shape.nodes[name], at + [name], targets)
    ensures Expand(fs, t).value.nodes[name].path.Some? <==>
      at + [name] in targets || (MustExpand(t) && at in fs && name in fs[at])
  {
    GrownCanonical(t, shape, at, targets);
    ExpandCanonical(fs, t, at);
    assert Shape(shape, at, targets);
    var c := shape.nodes[name];
    assert Represents(c, at + [name], targets);
    assert Shape(c, at + [name], targets);
  }

  /** What is between `at` and `p` lies in one child. */
  lemma FirstStep(at: Path, a: Path, p: Path)
    requires at <= a && a <= p && at != p
    ensures at + [p[|at|]] <= p
    ensures a != at ==> at + [p[|at|]] <= a
  {
  }

  lemma BelowFirst(at: Path, b: Path, targets: Targets)
    requires at < b && b in targets
    ensures Below(targets, at + [b[|at|]])
  {
    FirstStep(at, at, b);
  }

  lemma ListedStep(fs: Listing, at: Path, p: Path)
    requires at <= p && at != p
    ensures Listed(fs, at, p) <==> at in fs && p[|at|] in fs[at] && Listed(fs, at + [p[|at|]], p)
  {
    assert p[..|at|] == at;
  }

  /** Expanding a node fails if it carries a path, contains a target and cannot be listed. */
  lemma GrownExpand(fs: Listing, t: Tree, shape: Tree, at: Path, targets: Targets)
    requires Grown(t, shape, at, targets)
    ensures Expand(fs, t).Err? ==> t.path.Some? && at !in fs && exists b :: b in targets && at < b
    ensures Carries(t, at, targets, at) && at !in fs && (exists b :: b in targets && at < b) ==> Expand(fs, t).Err?
  {
    GrownCanonical(t, shape, at, targets);
    ExpandCanonical(fs, t, at);
    assert Shape(shape, at, targets);
    if name :| name in t.nodes {
      assert Below(targets, at + [name]);
      var b :| b in targets && at + [name] <= b;
      assert at < b;
    }
    if b :| b in targets && at < b {
      BelowFirst(at, b, targets);
    }
  }

  lemma GrownHas(t: Tree, shape: Tree, at: Path, targets: Targets, b: Path)
    requires Grown(t, shape, at, targets) && b in targets && at < b
    ensures b[|at|] in shape.nodes && t.nodes == shape.nodes
    ensures Carries(t, at, targets, at) ==> MustExpand(t)
  {
    BelowFirst(at, b, targets);
    assert Shape(shape, at, targets);
  }

  lemma ChildFails(fs: Listing, t: Tree, name: string)
    requires Expand(fs, t).Ok? && name in Expand(fs, t).value.nodes
    requires Unrolled(fs, Expand(fs, t).value.nodes[name]).Err?
    ensures Unrolled(fs, t).Err?
  {
    assert UnrolledChild(fs, t, name).Err?;
  }

  lemma {:induction false} BlockedFails(fs: Listing, t: Tree, shape: Tree, at: Path, targets: Targets,
      a: Path, p: Path, b: Path)
    requires Grown(t, shape, at, targets) && Carries(t, at, targets, a) && Blocked(fs, targets, a, p, b)
    ensures Unrolled(fs, t).Err?
    decreases |p| - |at|
  {
    GrownExpand(fs, t, shape, at, targets);
    assert b in targets && at < b;
    if p == at {
      assert a == at;
    } else if Expand(fs, t).Ok? {
      FirstStep(at, a, p);
      var name := p[|at|];
      assert b[|at|] == name;
      GrownHas(t, shape, at, targets, b);
      GrownChild(fs, t, shape, at, targets, name);
      if a == at {
        ListedStep(fs, at, p);
      }
      BlockedFails(fs, Expand(fs, t).value.nodes[name], shape.nodes[name], at + [name], targets,
        if a == at then at + [name] else a, p, b);
      ChildFails(fs, t, name);
    }
  }

  lemma {:induction false} FailsBlocked(fs: Listing, t: Tree, shape: Tree, at: Path, targets: Targets)
    returns (a: Path, p: Path, b: Path)
    requires Grown(t, shape, at, targets) && Unrolled(fs, t).Err?
    ensures Carries(t, at, targets, a) && Blocked(fs, targets, a, p, b)
    decreases Depth(t)
  {
    GrownExpand(fs, t, shape, at, targets);
    if Expand(fs, t).Err? {
      a, p := at, at;
      b :| b in targets && at < b;
    } else {
      var name := FailingChild(fs, t);
      ExpandDepth(fs, t, name);
      GrownChild(fs, t, shape, at, targets, name);
      a, p, b := FailsBlocked(fs, Expand(fs, t).value.nodes[name], shape.nodes[name], at + [name], targets);
      assert p[|at|] == name;
      if a !in targets {
        ListedStep(fs, at, p);
        a := at;
      }
    }
  }

  lemma FailingChild(fs: Listing, t: Tree) returns (name: string)
    requires Expand(fs, t).Ok? && Unrolled(fs, t).Err?
    ensures name in t.nodes && name in Expand(fs, t).value.nodes
    ensures Unrolled(fs, Expand(fs, t).value.nodes[name]).Err?
  {
    name :| name in Expand(fs, t).value.nodes && UnrolledChild(fs, t, name).Err?;
    OnlyOldFail(fs, t, name);
  }

  /** An entry that is only listed has nothing to unroll. */
  lemma OnlyOldFail(fs: Listing, t: Tree, name: string)
    requires Expand(fs, t).Ok? && name in Expand(fs, t).value.nodes && UnrolledChild(fs, t, name).Err?
    ensures name in t.nodes
  {
    var c := Expand(fs, t).value.nodes[name];
    assert c.nodes == map[] ==> Unrolled(fs, c).Ok?;
  }

  /** Unrolling fails exactly when something between two nested targets is found but cannot be listed. */
  lemma UnrollFailsWhen(fs: Listing, t: Tree, targets: Targets)
    requires Represents(t, [], targets) && [] !in targets
    ensures Unrolled(fs, t).Err? <==> exists a, p, b :: a in targets && Blocked(fs, targets, a, p, b)
  {
    if Unrolled(fs, t).Err? {
      var a, p, b := FailsBlocked(fs, t, t, [], targets);
    }
    if a, p, b :| a in targets && Blocked(fs, targets, a, p, b) {
      BlockedFails(fs, t, t, [], targets, a, p, b);
    }
  }

  // ---------------------------------------------------------------------------------------
  // What the nodes are labelled with
  // ---------------------------------------------------------------------------------------

  /** Metadata is taken exactly at the inner nodes, each from its own place; and a node is explicit
      exactly if it carries the path of a target that is. */
  ghost predicate Labelled(u: Tree, at: Path, targets: Targets) {
    && u.fileInfoPath == (if at != [] && u.nodes != map[] then Some(at) else None)
    && (u.explicit <==> u.path.Some? && at in targets && targets[at])
    && forall name :: name in u.nodes ==> Labelled(u.nodes[name], at + [name], targets)
  }

  /** The node itself, before its children are looked at. */
  lemma ExpandLabels(fs: Listing, t: Tree, shape: Tree, at: Path, targets: Targets)
    requires Grown(t, shape, at, targets) && Expand(fs, t).Ok?
    ensures var e := Expand(fs, t).value;
      && (e.nodes != map[] <==> shape.nodes != map[])
      && e.fileInfoPath == (if at != [] && e.nodes != map[] then Some(at) else None)
      && (e.explicit <==> e.path.Some? && at in targets && targets[at])
  {
    assert Shape(shape, at, targets);
    var e := Expand(fs, t).value;
    assert forall name :: name in t.nodes ==> name in e.nodes;
  }

  /** An entry that is only listed becomes a leaf. */
  lemma ListedLabels(fs: Listing, t: Tree, shape: Tree, at: Path, targets: Targets, name: string)
    requires Grown(t, shape, at, targets) && Expand(fs, t).Ok? && name in Expand(fs, t).value.nodes && name !in shape.nodes
    ensures Unrolled(fs, Expand(fs, t).value.nodes[name]) == Ok(Expand(fs, t).value.nodes[name])
    ensures Labelled(Expand(fs, t).value.nodes[name], at + [name], targets)
  {
    assert Shape(shape, at, targets);
    assert at + [name] in targets ==> at + [name] <= at + [name] && Below(targets, at + [name]);
    var c := Expand(fs, t).value.nodes[name];
    assert c == EMPTY.(path := c.path);
    assert Unrolled(fs, c).Ok? && Unrolled(fs, c).value.nodes == map[];
  }

  lemma {:induction false} UnrolledLabelled(fs: Listing, t: Tree, shape: Tree, at: Path, targets: Targets)
    requires Grown(t, shape, at, targets) && Unrolled(fs, t).Ok?
    ensures Labelled(Unrolled(fs, t).value, at, targets)
    decreases Depth(t)
  {
    var e, u := Expand(fs, t).value, Unrolled(fs, t).value;
    ExpandLabels(fs, t, shape, at, targets);
    assert u.nodes.Keys == e.nodes.Keys;
    forall name | name in u.nodes ensures Labelled(u.nodes[name], at + [name], targets) {
      if name in shape.nodes {
        ExpandDepth(fs, t, name);
        GrownChild(fs, t, shape, at, targets, name);
        UnrolledLabelled(fs, e.nodes[name], shape.nodes[name], at + [name], targets);
      } else {
        ListedLabels(fs, t, shape, at, targets, name);
      }
    }
  }

  // ---------------------------------------------------------------------------------------
  // The whole construction
  // ---------------------------------------------------------------------------------------

  datatype Target = Target(path: Path, explicit: bool)

  /** The targets in a list; of repeated paths the first counts. */
  function TargetsOf(ts: seq<Target>): Targets {
    if ts == [] then map[]
    else
      var last, before := ts[|ts| - 1], TargetsOf(ts[..|ts| - 1]);
      if last.path in before then before else before[last.path := last.explicit]
  }

  lemma {:induction false} TargetsOfPaths(ts: seq<Target>, p: Path)
    ensures p in TargetsOf(ts) <==> exists i :: 0 <= i < |ts| && ts[i].path == p
    ensures p in TargetsOf(ts) ==> exists i :: 0 <= i < |ts| && ts[i] == Target(p, TargetsOf(ts)[p])
  {
    if ts != [] {
      var last := |ts| - 1;
      TargetsOfPaths(ts[..last], p);
      if i :| 0 <= i < last && ts[..last][i].path == p {
        assert ts[i].path == p;
      }
      if p in TargetsOf(ts[..last]) {
        var i :| 0 <= i < last && ts[..last][i] == Target(p, TargetsOf(ts[..last])[p]);
        assert ts[i] == Target(p, TargetsOf(ts)[p]);
      }
      if i :| 0 <= i < |ts| && ts[i].path == p {
        if i < last { assert ts[..last][i].path == p; }
      }
    }
  }

  /** The same targets in any order, with a consistent flag for each path, are the same targets. */
  lemma OrderIrrelevant(ts: seq<Target>, us: seq<Target>)
    requires forall x :: x in ts <==> x in us
    requires forall x, y :: x in ts && y in ts && x.path == y.path ==> x == y
    ensures TargetsOf(ts) == TargetsOf(us)
  {
    forall p ensures p in TargetsOf(ts) <==> p in TargetsOf(us)
      ensures p in TargetsOf(ts) ==> p in TargetsOf(us) && TargetsOf(ts)[p] == TargetsOf(us)[p]
    {
      TargetsOfPaths(ts, p);
      TargetsOfPaths(us, p);
      if i :| 0 <= i < |ts| && ts[i].path == p {
        var j :| 0 <= j < |us| && us[j] == ts[i];
      }
      if i :| 0 <= i < |us| && us[i].path == p {
        assert us[i] in ts;
        var j :| 0 <= j < |ts| && ts[j] == us[i];
      }
    }
  }

  /** One more target, unless its path was seen before. */
  lemma FoldOne(t: Tree, ts: seq<Target>, i: nat)
    requires i < |ts| && Represents(t, [], TargetsOf(ts[..i]))
    ensures ts[i].path in TargetsOf(ts[..i]) ==> TargetsOf(ts[..i + 1]) == TargetsOf(ts[..i])
    ensures ts[i].path !in TargetsOf(ts[..i]) ==>
      && TargetsOf(ts[..i + 1]) == TargetsOf(ts[..i])[ts[i].path := ts[i].explicit]
      && (AddTop(t, ts[i].path, ts[i].explicit).Ok? <==> ts[i].path != [])
      && (ts[i].path != [] ==> Represents(AddTop(t, ts[i].path, ts[i].explicit).value, [], TargetsOf(ts[..i + 1])))
  {
    assert ts[..i + 1][..i] == ts[..i];
    if ts[i].path !in TargetsOf(ts[..i]) {
      AddTopRepresents(t, ts[i].path, ts[i].explicit, TargetsOf(ts[..i]));
    }
  }

  /** Folds the targets into a tree, skipping repeated paths. */
  method FoldTargets(ts: seq<Target>) returns (r: Result<Tree>)
    ensures r.Ok? <==> forall i :: 0 <= i < |ts| ==> ts[i].path != []
    ensures r.Ok? ==> Represents(r.value, [], TargetsOf(ts))
  {
    var t := EMPTY;
    var seen: set<Path> := {};
    ghost var soFar: Targets := map[];
    NothingThere([], soFar);
    for i := 0 to |ts|
      invariant soFar == TargetsOf(ts[..i]) && seen == soFar.Keys
      invariant Represents(t, [], soFar)
      invariant forall k :: 0 <= k < i ==> ts[k].path != []
    {
      FoldOne(t, ts, i);
      soFar := TargetsOf(ts[..i + 1]);
      if ts[i].path !in seen {
        seen := seen + {ts[i].path};
        var added := AddTop(t, ts[i].path, ts[i].explicit);
        if added.Err? {
          return Err;
        }
        t := added.value;
      } else {
        SeenNotEmpty(ts, i);
      }
    }
    assert ts[..|ts|] == ts;
    return Ok(t);
  }

  lemma SeenNotEmpty(ts: seq<Target>, i: nat)
    requires i < |ts| && ts[i].path in TargetsOf(ts[..i]) && forall k :: 0 <= k < i ==> ts[k].path != []
    ensures ts[i].path != []
  {
    TargetsOfPaths(ts[..i], ts[i].path);
  }

  ghost predicate UnderTarget(ts: seq<Target>, f: Path) {
    exists i :: 0 <= i < |ts| && ts[i].path <= f
  }

  lemma UnderTargetIff(ts: seq<Target>, f: Path)
    ensures UnderTarget(ts, f) <==> Covering(TargetsOf(ts), [], f)
  {
    if i :| 0 <= i < |ts| && ts[i].path <= f {
      TargetsOfPaths(ts, ts[i].path);
      assert [] <= ts[i].path <= f;
    }
    if p :| p in TargetsOf(ts) && [] <= p <= f {
      TargetsOfPaths(ts, p);
      var i :| 0 <= i < |ts| && ts[i].path == p;
    }
  }

  /** Every existing file is covered by exactly one leaf if it is under a target, and by none if not. */
  lemma CoveredOnce(fs: Listing, ts: seq<Target>, t: Tree, f: Path)
    requires Represents(t, [], TargetsOf(ts)) && Unrolled(fs, t).Ok? && FileBelow(fs, [], f)
    ensures CoverCount(Unrolled(fs, t).value, f) == if UnderTarget(ts, f) then 1 else 0
  {
    RepresentsCanonical(t, [], TargetsOf(ts));
    UnrolledCovers(fs, t, [], f);
    RepresentsCovers(t, [], f, TargetsOf(ts));
    assert [] + f == f;
    UnderTargetIff(ts, f);
  }

  lemma NoEmptyTarget(ts: seq<Target>)
    requires forall i :: 0 <= i < |ts| ==> ts[i].path != []
    ensures [] !in TargetsOf(ts)
  {
    TargetsOfPaths(ts, []);
  }

  /** The tree for a list of targets: only leaves carry a path, each leaf's path is its position, the
      inner nodes are labelled with theirs, and the leaves at the targets with their flag,
      and every file is covered by exactly one leaf if it is under a target and by none if not.
      The tree depends only on the targets, and the construction fails only for an empty path or
      for a path between two nested targets that is found but cannot be listed. */
  method NewTree(fs: Listing, ts: seq<Target>) returns (r: Result<Tree>)
    ensures r.Ok? ==> OnlyLeaves(r.value) && Canonical(r.value, [])
    ensures r.Ok? ==> Labelled(r.value, [], TargetsOf(ts))
    ensures r.Ok? ==> forall f :: FileBelow(fs, [], f) ==> CoverCount(r.value, f) == if UnderTarget(ts, f) then 1 else 0
    ensures r.Ok? ==> forall t :: Represents(t, [], TargetsOf(ts)) ==> r == Unrolled(fs, t)
    ensures r.Err? <==>
      || (exists i :: 0 <= i < |ts| && ts[i].path == [])
      || (exists a, p, b :: a in TargetsOf(ts) && Blocked(fs, TargetsOf(ts), a, p, b))
  {
    var folded := FoldTargets(ts);
    if folded.Err? {
      return Err;
    }
    var t := folded.value;
    r := Unroll(fs, t);
    NoEmptyTarget(ts);
    UnrollFailsWhen(fs, t, TargetsOf(ts));
    if r.Ok? {
      UnrolledOnlyLeaves(fs, t);
      RepresentsCanonical(t, [], TargetsOf(ts));
      UnrolledCanonical(fs, t, []);
      UnrolledLabelled(fs, t, t, [], TargetsOf(ts));
      forall f | FileBelow(fs, [], f) ensures CoverCount(r.value, f) == if UnderTarget(ts, f) then 1 else 0 {
        CoveredOnce(fs, ts, t, f);
      }
      forall u | Represents(u, [], TargetsOf(ts)) ensures u == t {
        RepresentsUnique(u, t, [], TargetsOf(ts));
      }
    }
  }
}
