/**
 Merging the trees of several snapshots, oldest first.

 Directories are merged recursively, anything else is replaced by the newer entry.  The
 merge works on IDs and saves a new tree for every merged directory, so that a directory
 present in three snapshots is merged with the tree that was saved a moment before.
 */
module MergeTrees {
  import opened SnapshotStore
  import opened Wrappers

  type Path = seq<string>

  function Entries(t: Tree): map<string, Node> {
    if t == [] then map[] else Entries(t[..|t| - 1])[t[|t| - 1].name := t[|t| - 1]]
  }

  /** A node without the identity of its subtree, which a merge has to change. */
  function Face(n: Node): Node {
    n.(subtree := if n.subtree.Some? then Some(0) else None)
  }

  /** The node at a path below the given entries. */
  function At(s: Store, entries: map<string, Node>, p: Path): Option<Node>
    decreases |p|, 0
  {
    if p == [] || p[0] !in entries then None
    else if |p| == 1 then Some(Face(entries[p[0]]))
    else if IsDir(entries[p[0]]) then AtTree(s, entries[p[0]].subtree.value, p[1..])
    else None
  }

  function TreeEntries(s: Store, id: ID): map<string, Node> {
    if id in s then Entries(s[id]) else map[]
  }

  function AtTree(s: Store, id: ID, p: Path): Option<Node>
    decreases |p|, 1
  {
    At(s, TreeEntries(s, id), p)
  }

  /** A proper prefix of the path is an entry that cannot be followed. */
  ghost predicate Blocked(s: Store, entries: map<string, Node>, p: Path) {
    exists k :: 0 < k < |p| && At(s, entries, p[..k]).Some? && !IsDir(At(s, entries, p[..k]).value)
  }

  /** What a newer tree leaves of an older result at one path. */
  ghost function Over(older: Option<Node>, s: Store, newer: map<string, Node>, p: Path): Option<Node> {
    if At(s, newer, p).Some? then At(s, newer, p)
    else if Blocked(s, newer, p) then None
    else older
  }

  /** Reference: lay the trees over each other one after the other. */
  ghost function Merged(s: Store, trees: seq<ID>, p: Path): Option<Node> {
    if trees == [] then None
    else Over(Merged(s, trees[..|trees| - 1], p), s, TreeEntries(s, trees[|trees| - 1]), p)
  }

  // ---------------------------------------------------------------------------------------
  // The newest tree that decides a path wins
  // ---------------------------------------------------------------------------------------

  /** The tree has an entry at the path, or hides it behind something that is no directory. */
  ghost predicate Decides(s: Store, id: ID, p: Path) {
    AtTree(s, id, p).Some? || Blocked(s, TreeEntries(s, id), p)
  }

  lemma {:induction false} BlockedIsAbsent(s: Store, entries: map<string, Node>, p: Path, k: nat)
    requires 0 < k < |p| && At(s, entries, p[..k]).Some? && !IsDir(At(s, entries, p[..k]).value)
    ensures At(s, entries, p).None?
    decreases |p|
  {
    var n := entries[p[0]];
    if k > 1 {
      assert p[..k][1..] == p[1..][..k - 1];
      BlockedIsAbsent(s, TreeEntries(s, n.subtree.value), p[1..], k - 1);
    }
  }

  /** The n-way merge, path by path: the newest tree that has the path, unless a still newer one
      has something other than a directory at a proper prefix, which makes the path absent. */
  lemma {:induction false} NewestWins(s: Store, trees: seq<ID>, p: Path, i: nat)
    requires i < |trees| && Decides(s, trees[i], p)
    requires forall k :: i < k < |trees| ==> !Decides(s, trees[k], p)
    ensures Merged(s, trees, p) == AtTree(s, trees[i], p)
    ensures Blocked(s, TreeEntries(s, trees[i]), p) ==> Merged(s, trees, p).None?
  {
    var last, entries := |trees| - 1, TreeEntries(s, trees[i]);
    if Blocked(s, entries, p) {
      var k :| 0 < k < |p| && At(s, entries, p[..k]).Some? && !IsDir(At(s, entries, p[..k]).value);
      BlockedIsAbsent(s, entries, p, k);
    }
    if i < last {
      NewestWins(s, trees[..last], p, i);
      assert !Decides(s, trees[last], p);
    }
  }

  /** Tree `i` has the path, and every newer tree neither has it nor hides it. */
  ghost predicate Shown(s: Store, trees: seq<ID>, p: Path, i: int) {
    0 <= i < |trees| && AtTree(s, trees[i], p).Some? && forall k :: i < k < |trees| ==> !Decides(s, trees[k], p)
  }

  /** A path is in the merge exactly when some tree shows it, and then with that tree's node. */
  lemma {:induction false} MergeLookup(s: Store, trees: seq<ID>, p: Path)
    ensures Merged(s, trees, p).Some? <==> exists i :: Shown(s, trees, p, i)
    ensures forall i :: Shown(s, trees, p, i) ==> Merged(s, trees, p) == AtTree(s, trees[i], p)
  {
    forall i | Shown(s, trees, p, i) ensures Merged(s, trees, p) == AtTree(s, trees[i], p) {
      NewestWins(s, trees, p, i);
    }
    if k :| 0 <= k < |trees| && Decides(s, trees[k], p) {
      var i := NewestDeciding(s, trees, p, k);
      NewestWins(s, trees, p, i);
      assert Merged(s, trees, p).Some? ==> Shown(s, trees, p, i);
    } else {
      UndecidedIsAbsent(s, trees, p);
    }
  }

  lemma NewestDeciding(s: Store, trees: seq<ID>, p: Path, k: nat) returns (i: nat)
    requires k < |trees| && Decides(s, trees[k], p)
    ensures i < |trees| && Decides(s, trees[i], p) && forall j :: i < j < |trees| ==> !Decides(s, trees[j], p)
    decreases |trees| - k
  {
    if j :| k < j < |trees| && Decides(s, trees[j], p) {
      i := NewestDeciding(s, trees, p, j);
    } else {
      i := k;
    }
  }

  lemma {:induction false} UndecidedIsAbsent(s: Store, trees: seq<ID>, p: Path)
    requires forall k :: 0 <= k < |trees| ==> !Decides(s, trees[k], p)
    ensures Merged(s, trees, p).None?
  {
    if trees != [] {
      UndecidedIsAbsent(s, trees[..|trees| - 1], p);
    }
  }

  // ---------------------------------------------------------------------------------------
  // Stores that only grow
  // ---------------------------------------------------------------------------------------

  ghost predicate Extends(s: Store, s': Store) {
    forall id :: id in s ==> id in s' && s'[id] == s[id]
  }

  lemma ExtendsFurther(s: Store, s': Store, s'': Store)
    requires Extends(s, s') && Extends(s', s'')
    ensures Extends(s, s'')
  {
  }

  // ---------------------------------------------------------------------------------------
  // One step of the merge: a node of the newer tree meets the entries so far
  // ---------------------------------------------------------------------------------------

  lemma {:induction false} BlockedTail(s: Store, entries: map<string, Node>, p: Path)
    requires |p| > 1 && p[0] in entries && IsDir(entries[p[0]]) && entries[p[0]].subtree.value in s
    ensures Blocked(s, entries, p) <==> Blocked(s, Entries(s[entries[p[0]].subtree.value]), p[1..])
  {
    var sub := Entries(s[entries[p[0]].subtree.value]);
    if Blocked(s, entries, p) {
      var k :| 0 < k < |p| && At(s, entries, p[..k]).Some? && !IsDir(At(s, entries, p[..k]).value);
      assert p[..k][0] == p[0];
      assert k != 1;
      assert p[..k][1..] == p[1..][..k - 1];
      assert At(s, entries, p[..k]) == At(s, sub, p[1..][..k - 1]);
    }
    if Blocked(s, sub, p[1..]) {
      var k :| 0 < k < |p[1..]| && At(s, sub, p[1..][..k]).Some? && !IsDir(At(s, sub, p[1..][..k]).value);
      assert p[..k + 1][0] == p[0] && p[..k + 1][1..] == p[1..][..k];
      assert At(s, entries, p[..k + 1]) == At(s, sub, p[1..][..k]);
    }
  }

  /** Entries below other names do not matter for a path. */
  lemma OtherName(s: Store, a: map<string, Node>, b: map<string, Node>, p: Path)
    requires p != [] ==> (p[0] in a <==> p[0] in b) && (p[0] in a ==> a[p[0]] == b[p[0]])
    ensures At(s, a, p) == At(s, b, p)
    ensures Blocked(s, a, p) <==> Blocked(s, b, p)
  {
    forall k | 0 < k < |p| ensures At(s, a, p[..k]) == At(s, b, p[..k]) {
      assert p[..k][0] == p[0];
    }
  }

  /** A tree that does not have the first name of a path says nothing about the path. */
  lemma NoName(s: Store, entries: map<string, Node>, p: Path)
    requires p != [] ==> p[0] !in entries
    ensures At(s, entries, p).None? && !Blocked(s, entries, p)
  {
    forall k | 0 < k < |p| ensures At(s, entries, p[..k]).None? {
      assert p[..k][0] == p[0];
    }
  }

  /** Tree `m` shows tree `b` laid over tree `a`. */
  ghost predicate ShowsOverlay(s: Store, m: ID, a: ID, b: ID) {
    forall q: Path :: AtTree(s, m, q) == Over(AtTree(s, a, q), s, TreeEntries(s, b), q)
  }

  /** It does so now and after any further trees are saved, even ones that were missing. */
  ghost predicate IsOverlay(s: Store, m: ID, a: ID, b: ID) {
    forall s' :: Extends(s, s') ==> ShowsOverlay(s', m, a, b)
  }

  /** What the merge does with node `n` when `older` are the entries so far: `n'` is what it adds. */
  ghost predicate Meets(s: Store, older: map<string, Node>, n: Node, n': Node) {
    if n.name in older && IsDir(older[n.name]) && IsDir(n) then
      && n' == n.(subtree := n'.subtree) && n'.subtree.Some? && n.subtree.value in s
      && IsOverlay(s, n'.subtree.value, older[n.name].subtree.value, n.subtree.value)
    else n' == n
  }

  lemma MeetsStable(s: Store, s': Store, older: map<string, Node>, n: Node, n': Node)
    requires Meets(s, older, n, n') && Extends(s, s')
    ensures Meets(s', older, n, n')
  {
    if n.name in older && IsDir(older[n.name]) && IsDir(n) {
      var m, a, b := n'.subtree.value, older[n.name].subtree.value, n.subtree.value;
      forall t | Extends(s', t) ensures ShowsOverlay(t, m, a, b) {
        ExtendsFurther(s, s', t);
      }
    }
  }

  /** Something that is no directory replaces the older entry and all that was below it. */
  lemma MeetsOther(s: Store, older: map<string, Node>, n: Node, p: Path)
    requires |p| > 1 && p[0] == n.name && !IsDir(n)
    ensures At(s, map[n.name := n], p) == Over(At(s, older, p), s, map[n.name := n], p)
  {
    var single := map[n.name := n];
    assert p[..1] == [n.name];
    assert At(s, single, p[..1]) == Some(Face(n));
    assert Blocked(s, single, p);
    BlockedIsAbsent(s, single, p, 1);
  }

  /** Two directories: below the name, the merged tree is the overlay of the two. */
  lemma MeetsDir(s: Store, older: map<string, Node>, n: Node, n': Node, p: Path)
    requires Meets(s, older, n, n') && |p| > 1 && p[0] == n.name
    requires IsDir(n) && n.name in older && IsDir(older[n.name])
    ensures At(s, map[n.name := n'], p) == Over(At(s, older, p), s, map[n.name := n], p)
  {
    BlockedTail(s, map[n.name := n], p);
    var q, a, b := p[1..], older[n.name].subtree.value, n.subtree.value;
    assert Extends(s, s) && ShowsOverlay(s, n'.subtree.value, a, b);
    assert AtTree(s, n'.subtree.value, q) == Over(AtTree(s, a, q), s, TreeEntries(s, b), q);
    assert At(s, map[n.name := n], p) == At(s, Entries(s[b]), q);
  }

  lemma MeetsBelow(s: Store, older: map<string, Node>, n: Node, n': Node, p: Path)
    requires Meets(s, older, n, n') && p != [] && p[0] == n.name
    ensures At(s, map[n.name := n'], p) == Over(At(s, older, p), s, map[n.name := n], p)
  {
    if |p| > 1 {
      if !IsDir(n) {
        MeetsOther(s, older, n, p);
      } else if n.name in older && IsDir(older[n.name]) {
        MeetsDir(s, older, n, n', p);
      } else {
        assert At(s, older, p).None?;
      }
    }
  }

  /** The entries show the newer tree laid over the trees merged so far, at every path. */
  ghost predicate ShowsOver(s: Store, entries: map<string, Node>, ids: seq<ID>, newer: map<string, Node>) {
    forall p: Path :: At(s, entries, p) == Over(Merged(s, ids, p), s, newer, p)
  }

  ghost predicate AlwaysOver(s: Store, entries: map<string, Node>, ids: seq<ID>, newer: map<string, Node>) {
    forall s' :: Extends(s, s') ==> ShowsOver(s', entries, ids, newer)
  }

  /** The loop body: adding node `n` of the newer tree keeps the entries equal to the overlay. */
  lemma MeetKeepsOverlay(s: Store, ids: seq<ID>, older: map<string, Node>, newer: map<string, Node>, n: Node, n': Node, p: Path)
    requires n.name !in newer && Meets(s, older, n, n') && ShowsOver(s, older, ids, newer)
    ensures At(s, older[n.name := n'], p) == Over(Merged(s, ids, p), s, newer[n.name := n], p)
  {
    var older', newer' := older[n.name := n'], newer[n.name := n];
    if p != [] && p[0] == n.name {
      NoName(s, newer, p);
      assert At(s, older, p) == Merged(s, ids, p);
      MeetsBelow(s, older, n, n', p);
      OtherName(s, map[n.name := n], newer', p);
      OtherName(s, older', map[n.name := n'], p);
    } else {
      OtherName(s, older', older, p);
      OtherName(s, newer', newer, p);
    }
  }

  lemma MeetKeepsAlways(before: Store, s: Store, ids: seq<ID>, older: map<string, Node>, newer: map<string, Node>, n: Node, n': Node)
    requires Extends(before, s) && n.name !in newer && Meets(s, older, n, n') && AlwaysOver(before, older, ids, newer)
    ensures AlwaysOver(s, older[n.name := n'], ids, newer[n.name := n])
  {
    forall s' | Extends(s, s') ensures ShowsOver(s', older[n.name := n'], ids, newer[n.name := n]) {
      ExtendsFurther(before, s, s');
      MeetsStable(s, s', older, n, n');
      forall p: Path ensures At(s', older[n.name := n'], p) == Over(Merged(s', ids, p), s', newer[n.name := n], p) {
        MeetKeepsOverlay(s', ids, older, newer, n, n', p);
      }
    }
  }

  // ---------------------------------------------------------------------------------------
  // Trees as entries
  // ---------------------------------------------------------------------------------------

  lemma {:induction false} EntriesOrigin(t: Tree, name: string)
    requires name in Entries(t)
    ensures exists i :: 0 <= i < |t| && t[i] == Entries(t)[name] && t[i].name == name
  {
    var last := |t| - 1;
    if t[last].name == name {
    } else {
      EntriesOrigin(t[..last], name);
      var i :| 0 <= i < last && t[..last][i] == Entries(t[..last])[name] && t[..last][i].name == name;
      assert t[i] == Entries(t)[name];
    }
  }

  lemma {:induction false} EntriesHave(t: Tree, i: nat)
    requires Sorted(t) && i < |t|
    ensures t[i].name in Entries(t) && Entries(t)[t[i].name] == t[i]
  {
    var last := |t| - 1;
    if i < last {
      SortedPrefix(t, last);
      EntriesHave(t[..last], i);
      LessTotal(t[i].name, t[last].name);
    }
  }

  lemma SortedPrefix(t: Tree, j: nat)
    requires Sorted(t) && j <= |t|
    ensures Sorted(t[..j])
  {
  }

  /** The next node of a sorted tree has a name that the nodes before it do not have. */
  lemma NextNameNew(t: Tree, j: nat)
    requires Sorted(t) && j < |t|
    ensures t[j].name !in Entries(t[..j])
    ensures Entries(t[..j + 1]) == Entries(t[..j])[t[j].name := t[j]]
  {
    assert t[..j + 1][..j] == t[..j];
    if t[j].name in Entries(t[..j]) {
      EntriesOrigin(t[..j], t[j].name);
      var i :| 0 <= i < j && t[..j][i].name == t[j].name;
      SortedDistinct(t, i, j);
    }
  }

  // ---------------------------------------------------------------------------------------
  // From entries back to a sorted tree
  // ---------------------------------------------------------------------------------------

  predicate IsLeast(names: set<string>, least: string) {
    least in names && forall name :: name in names && name != least ==> Less(least, name)
  }

  lemma LeastIsLess(names: set<string>, least: string, name: string)
    requires IsLeast(names, least) && name in names && name != least
    ensures Less(least, name)
  {
  }

  lemma {:induction false} LeastName(names: set<string>) returns (least: string)
    requires names != {}
    ensures IsLeast(names, least)
    decreases names
  {
    var first :| first in names;
    var rest := names - {first};
    assert names == rest + {first};
    if rest == {} {
      least := first;
    } else {
      var other := LeastName(rest);
      LessTotal(first, other);
      least := if Less(first, other) then first else other;
      forall name | name in names && name != least ensures Less(least, name) {
        if least == first && name != other {
          LessTransitive(first, other, name);
        }
      }
    }
  }

  lemma EntriesSnoc(t: Tree, n: Node)
    ensures Entries(t + [n]) == Entries(t)[n.name := n]
  {
    assert (t + [n])[..|t|] == t;
  }

  ghost predicate Named(nodes: map<string, Node>) {
    forall name :: name in nodes ==> nodes[name].name == name && name != ""
  }

  /** The nodes in ascending order of their names: of two names the earlier one is a proper prefix of the
      later one, or has the smaller character where they first differ. */
  method SortedNodes(nodes: map<string, Node>) returns (t: Tree)
    requires Named(nodes)
    ensures Ascending(t) && Sorted(t) && Entries(t) == nodes
  {
    t := [];
    var left := nodes.Keys;
    while left != {}
      invariant left <= nodes.Keys
      invariant Sorted(t)
      invariant Entries(t) == map name | name in nodes && name !in left :: nodes[name]
      invariant forall i, name :: 0 <= i < |t| && name in left ==> Less(t[i].name, name)
      decreases left
    {
      ghost var least := LeastName(left);
      assert IsLeast(left, least);
      var name :| name in left && IsLeast(left, name);
      EntriesSnoc(t, nodes[name]);
      ghost var before, t0, shown := left, t, Entries(t);
      t := t + [nodes[name]];
      left := left - {name};
      assert Entries(t) == shown[name := nodes[name]];
      forall i, other | 0 <= i < |t| && other in left ensures Less(t[i].name, other) {
        if i < |t0| {
          assert t[i] == t0[i] && other in before && Less(t0[i].name, other);
        } else {
          assert t[i].name == name;
          LeastIsLess(before, name, other);
        }
      }
    }
    SortedAscending(t);
  }

  // ---------------------------------------------------------------------------------------
  // The repository
  // ---------------------------------------------------------------------------------------

  ghost predicate Injective(hash: Tree -> ID) {
    forall t, t' :: hash(t) == hash(t') ==> t == t'
  }

  /** The hash of a tree is made from the hashes of its subtrees, so no tree can contain itself. */
  ghost predicate Acyclic(hash: Tree -> ID, rank: ID -> nat) {
    forall t :: RankedBelow(t, rank, rank(hash(t)))
  }

  /** The entries show the trees merged so far, now and after any further trees are saved. */
  ghost predicate AlwaysMerged(s: Store, entries: map<string, Node>, ids: seq<ID>) {
    forall s' :: Extends(s, s') ==> ShowsMerged(s', entries, ids)
  }

  ghost predicate ShowsMerged(s: Store, entries: map<string, Node>, ids: seq<ID>) {
    forall p: Path :: At(s, entries, p) == Merged(s, ids, p)
  }

  /** Tree `id` shows the merge of the given trees. */
  ghost predicate ShowsTree(s: Store, id: ID, ids: seq<ID>) {
    forall p: Path :: AtTree(s, id, p) == Merged(s, ids, p)
  }

  ghost predicate IsMerge(s: Store, id: ID, ids: seq<ID>) {
    forall s' :: Extends(s, s') ==> ShowsTree(s', id, ids)
  }

  /** A repository that new trees are saved into; an ID is the hash of the tree.  Trees may be missing. */
  class Repository {
    const hash: Tree -> ID
    var trees: Store
    ghost const rank: ID -> nat

    ghost predicate Valid()
      reads this
    {
      && Injective(hash) && Acyclic(hash, rank)
      && forall id :: id in trees ==> hash(trees[id]) == id && Sorted(trees[id])
    }

    constructor (hash: Tree -> ID, ghost rank: ID -> nat)
      requires Injective(hash) && Acyclic(hash, rank)
      ensures Valid() && trees == map[] && this.hash == hash && this.rank == rank
    {
      this.hash, this.rank, trees := hash, rank, map[];
    }

    /** Loading fails for unknown trees and may fail for any other reason. */
    method LoadTree(id: ID) returns (r: Result<Tree>)
      ensures r.Ok? ==> id in trees && r.value == trees[id]
    {
      if id in trees {
        if * {
          return Ok(trees[id]);
        }
      }
      return Err;
    }

    method SaveTree(t: Tree) returns (r: Result<ID>)
      requires Valid() && Sorted(t)
      modifies this
      ensures Valid() && Extends(old(trees), trees)
      ensures r.Ok? ==> r.value in trees && trees[r.value] == t
    {
      if * {
        return Err;
      }
      var id := hash(t);
      if id !in trees {
        trees := trees[id := t];
      }
      return Ok(id);
    }

    /** One node of the newer tree meets the entries so far. */
    method MeetNode(nodes: map<string, Node>, node: Node, ghost bound: nat) returns (r: Result<Node>)
      requires Valid()
      requires node.name in nodes && IsDir(node) ==> rank(node.subtree.value) < bound
      modifies this
      ensures Valid() && Extends(old(trees), trees)
      ensures r.Ok? ==> Meets(trees, nodes, node, r.value) && r.value.name == node.name
      decreases bound, 0
    {
      if node.name in nodes && IsDir(nodes[node.name]) && IsDir(node) {
        var a, b := nodes[node.name].subtree.value, node.subtree.value;
        var merged := MergeTrees([a, b], rank(b));
        if merged.Err? {
          return Err;
        }
        assert [a, b][1] == b;
        MergeIsOverlay(trees, merged.value, a, b);
        return Ok(node.(subtree := Some(merged.value)));
      }
      return Ok(node);
    }

    /** Adds node `j` of the newer tree. */
    method AddNode(nodes: map<string, Node>, tree: Tree, j: nat, ghost ids: seq<ID>, ghost bound: nat)
      returns (r: Result<map<string, Node>>)
      requires Valid() && j < |tree| && Sorted(tree) && Named(nodes)
      requires tree[j].name in nodes && IsDir(tree[j]) ==> rank(tree[j].subtree.value) < bound
      requires AlwaysOver(trees, nodes, ids, Entries(tree[..j]))
      modifies this
      ensures Valid() && Extends(old(trees), trees)
      ensures r.Ok? ==> Named(r.value) && r.value.Keys == nodes.Keys + {tree[j].name}
      ensures r.Ok? ==> AlwaysOver(trees, r.value, ids, Entries(tree[..j + 1]))
      decreases bound, 1
    {
      var met := MeetNode(nodes, tree[j], bound);
      if met.Err? {
        return Err;
      }
      NextNameNew(tree, j);
      MeetKeepsAlways(old(trees), trees, ids, nodes, Entries(tree[..j]), tree[j], met.value);
      return Ok(nodes[met.value.name := met.value]);
    }

    /** Lays one tree over the entries that the older trees have left, path by path.  The first tree
        meets nothing. */
    method MergeOne(entries: map<string, Node>, tree: Tree, ghost ids: seq<ID>, ghost bound: nat)
      returns (r: Result<map<string, Node>>)
      requires Valid() && Named(entries) && Sorted(tree)
      requires entries == map[] || RankedBelow(tree, rank, bound)
      requires AlwaysOver(trees, entries, ids, map[])
      modifies this
      ensures Valid() && Extends(old(trees), trees)
      ensures r.Ok? ==> Named(r.value) && AlwaysOver(trees, r.value, ids, Entries(tree))
      decreases bound, 2
    {
      var nodes := entries;
      for j := 0 to |tree|
        invariant Valid() && Extends(old(trees), trees) && Named(nodes)
        invariant entries == map[] ==> nodes.Keys == Entries(tree[..j]).Keys
        invariant AlwaysOver(trees, nodes, ids, Entries(tree[..j]))
      {
        NextNameNew(tree, j);
        var added := AddNode(nodes, tree, j, ids, bound);
        if added.Err? {
          return Err;
        }
        nodes := added.value;
      }
      assert tree[..|tree|] == tree;
      return Ok(nodes);
    }

    /** Loads one more tree and lays it over what the trees before it have left. */
    method AddTree(nodes: map<string, Node>, id: ID, ghost done: seq<ID>, ghost bound: nat)
      returns (r: Result<map<string, Node>>)
      requires Valid() && Named(nodes) && AlwaysMerged(trees, nodes, done)
      requires nodes == map[] || rank(id) <= bound
      modifies this
      ensures Valid() && Extends(old(trees), trees)
      ensures r.Ok? ==> id in old(trees) && Named(r.value) && AlwaysMerged(trees, r.value, done + [id])
      decreases bound, 3
    {
      var loaded := LoadTree(id);
      if loaded.Err? {
        return Err;
      }
      StartOverlay(trees, nodes, done);
      assert RankedBelow(loaded.value, rank, rank(id));
      r := MergeOne(nodes, loaded.value, done, bound);
      if r.Ok? {
        EndOverlay(trees, r.value, done, id, loaded.value);
      }
    }

    /** Merges the trees, oldest first.  On success all of them were there, and every path of the saved
        tree shows what the reference merge of the given trees shows, now and in every later state of
        the repository; no tree that was there before is changed. */
    method MergeTrees(ids: seq<ID>, ghost bound: nat) returns (r: Result<ID>)
      requires Valid() && forall i :: 1 <= i < |ids| ==> rank(ids[i]) <= bound
      modifies this
      ensures Valid() && Extends(old(trees), trees)
      ensures r.Ok? ==> r.value in trees && IsMerge(trees, r.value, ids) && ShowsTree(trees, r.value, ids)
      ensures r.Ok? ==> Ascending(trees[r.value])
      ensures r.Ok? ==> forall i :: 0 <= i < |ids| ==> ids[i] in trees
      decreases bound, 4
    {
      var nodes: map<string, Node> := map[];
      NothingMerged(trees);
      for i := 0 to |ids|
        invariant Valid() && Extends(old(trees), trees) && Named(nodes)
        invariant i == 0 ==> nodes == map[]
        invariant AlwaysMerged(trees, nodes, ids[..i])
        invariant forall k :: 0 <= k < i ==> ids[k] in trees
      {
        PrefixSnoc(ids, i);
        var added := AddTree(nodes, ids[i], ids[..i], bound);
        if added.Err? {
          return Err;
        }
        nodes := added.value;
      }
      PrefixAll(ids);
      var tree := SortedNodes(nodes);
      ghost var s := trees;
      r := SaveTree(tree);
      if r.Ok? {
        SavedShows(s, trees, nodes, ids, r.value);
        SortedAscending(trees[r.value]);
      }
    }
  }

  lemma PrefixSnoc(ids: seq<ID>, i: nat)
    requires i < |ids|
    ensures ids[..i + 1] == ids[..i] + [ids[i]]
  {
  }

  lemma PrefixAll(ids: seq<ID>)
    ensures ids[..|ids|] == ids
  {
  }

  lemma NothingMerged(s: Store)
    ensures AlwaysMerged(s, map[], [])
  {
  }

  lemma StartOverlay(s: Store, entries: map<string, Node>, ids: seq<ID>)
    requires AlwaysMerged(s, entries, ids)
    ensures AlwaysOver(s, entries, ids, map[])
  {
    forall s' | Extends(s, s') ensures ShowsOver(s', entries, ids, map[]) {
      forall p: Path ensures At(s', entries, p) == Over(Merged(s', ids, p), s', map[], p) {
        NoName(s', map[], p);
        assert ShowsMerged(s', entries, ids);
      }
    }
  }

  lemma EndOverlay(s: Store, entries: map<string, Node>, ids: seq<ID>, id: ID, tree: Tree)
    requires id in s && s[id] == tree && AlwaysOver(s, entries, ids, Entries(tree))
    ensures AlwaysMerged(s, entries, ids + [id])
  {
    forall s' | Extends(s, s') ensures ShowsMerged(s', entries, ids + [id]) {
      assert ShowsOver(s', entries, ids, Entries(tree));
      forall p: Path ensures At(s', entries, p) == Merged(s', ids + [id], p) {
        assert (ids + [id])[..|ids|] == ids;
      }
    }
  }

  lemma SavedShows(s: Store, saved: Store, entries: map<string, Node>, ids: seq<ID>, id: ID)
    requires AlwaysMerged(s, entries, ids) && Extends(s, saved) && id in saved && Entries(saved[id]) == entries
    ensures IsMerge(saved, id, ids) && ShowsTree(saved, id, ids)
  {
    forall s' | Extends(saved, s') ensures ShowsTree(s', id, ids) {
      ExtendsFurther(s, saved, s');
      assert ShowsMerged(s', entries, ids);
    }
    assert Extends(saved, saved);
  }

  lemma MergeIsOverlay(s: Store, m: ID, a: ID, b: ID)
    requires IsMerge(s, m, [a, b])
    ensures IsOverlay(s, m, a, b)
  {
    forall s' | Extends(s, s') ensures ShowsOverlay(s', m, a, b) {
      assert ShowsTree(s', m, [a, b]);
      forall q: Path ensures AtTree(s', m, q) == Over(AtTree(s', a, q), s', TreeEntries(s', b), q) {
        MergedPair(s', a, b, q);
      }
    }
  }

  lemma MergedPair(s: Store, a: ID, b: ID, p: Path)
    ensures Merged(s, [a, b], p) == Over(AtTree(s, a, p), s, TreeEntries(s, b), p)
  {
    assert [a, b][..1] == [a] && [a][..0] == [];
    assert Merged(s, [a], p) == Over(None, s, TreeEntries(s, a), p);
  }

  // ---------------------------------------------------------------------------------------
  // Consequences
  // ---------------------------------------------------------------------------------------

  /** No tree that is referred to is missing. */
  ghost predicate ClosedStore(s: Store) {
    forall id, i :: id in s && 0 <= i < |s[id]| && IsDir(s[id][i]) ==> s[id][i].subtree.value in s
  }

  lemma {:induction false} TreeStable(s: Store, s': Store, id: ID, p: Path)
    requires Extends(s, s') && ClosedStore(s) && id in s
    ensures AtTree(s', id, p) == AtTree(s, id, p)
    decreases |p|
  {
    var entries := Entries(s[id]);
    if |p| > 1 && p[0] in entries && IsDir(entries[p[0]]) {
      EntriesOrigin(s[id], p[0]);
      TreeStable(s, s', entries[p[0]].subtree.value, p[1..]);
    }
  }

  /** If nothing was missing, the merge shows what the trees showed before it. */
  lemma {:induction false} MergedStable(s: Store, s': Store, ids: seq<ID>, p: Path)
    requires Extends(s, s') && ClosedStore(s) && forall i :: 0 <= i < |ids| ==> ids[i] in s
    ensures Merged(s', ids, p) == Merged(s, ids, p)
  {
    if ids != [] {
      var last := |ids| - 1;
      MergedStable(s, s', ids[..last], p);
      forall k | 0 <= k <= |p| ensures AtTree(s', ids[last], p[..k]) == AtTree(s, ids[last], p[..k]) {
        TreeStable(s, s', ids[last], p[..k]);
      }
      assert p[..|p|] == p;
    }
  }

  /** Merging one more snapshot is merging it with the result so far. */
  lemma MergeStepwise(s: Store, xs: seq<ID>, merged: ID, c: ID, p: Path)
    requires AtTree(s, merged, p) == Merged(s, xs, p)
    ensures Merged(s, [merged, c], p) == Merged(s, xs + [c], p)
  {
    MergedPair(s, merged, c, p);
    assert (xs + [c])[..|xs|] == xs;
  }

  /** A directory without a subtree hides what older snapshots have below it, although no newer
      snapshot has anything but a directory there. */
  lemma NilSubtreeHides()
    ensures var file := Node("x", File, [7], None, 0);
      var s := map[1 := [file], 2 := [Node("d", Dir, [], Some(1), 0)], 3 := [Node("d", Dir, [], None, 0)]];
      && Merged(s, [2], ["d", "x"]) == Some(file)
      && Merged(s, [2, 3], ["d", "x"]).None?
      && Merged(s, [2, 3], ["d"]).value.kind.Dir?
  {
    var file := Node("x", File, [7], None, 0);
    var d1, d2 := Node("d", Dir, [], Some(1), 0), Node("d", Dir, [], None, 0);
    var s := map[1 := [file], 2 := [d1], 3 := [d2]];
    assert [file][..0] == [] && [d1][..0] == [] && [d2][..0] == [];
    assert Entries([file]) == map["x" := file] && Entries([d1]) == map["d" := d1] && Entries([d2]) == map["d" := d2];
    var p := ["d", "x"];
    assert p[1..] == ["x"] && p[..1] == ["d"];
    assert [2][..0] == [] && [2, 3][..1] == [2];
    assert At(s, Entries([d1]), p) == Some(file);
    assert At(s, Entries([d2]), p[..1]) == Some(d2);
    assert Blocked(s, Entries([d2]), p);
    assert At(s, Entries([d2]), p).None?;
    assert Merged(s, [2], p) == Over(None, s, Entries([d1]), p);
  }
}
