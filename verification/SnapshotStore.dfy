/**
 The content-addressed tree store that snapshots live in.

 A tree is a list of nodes in strictly ascending order of their names, as the tree writer
 enforces; a directory node points to its tree by ID.  IDs are hashes of contents, so no
 tree can contain itself: some rank decreases from every tree to its subtrees.
 */
module SnapshotStore {
  import opened Wrappers

  type ID = nat

  datatype NodeType = File | Dir | Other

  datatype Node = Node(name: string, kind: NodeType, content: seq<ID>, subtree: Option<ID>, meta: nat)

  type Tree = seq<Node>

  type Store = map<ID, Tree>

  // ---------------------------------------------------------------------------------------
  // Names and their order
  // ---------------------------------------------------------------------------------------

  /** Byte-wise lexicographic order, as Go compares strings. */
  predicate Less(a: string, b: string) {
    b != [] && (a == [] || a[0] < b[0] || (a[0] == b[0] && Less(a[1..], b[1..])))
  }

  lemma {:induction false} LessTransitive(a: string, b: string, c: string)
    requires Less(a, b) && Less(b, c)
    ensures Less(a, c)
  {
    if a != [] && a[0] == b[0] == c[0] {
      LessTransitive(a[1..], b[1..], c[1..]);
    }
  }

  lemma {:induction false} LessTotal(a: string, b: string)
    ensures !(Less(a, b) && Less(b, a))
    ensures !Less(a, a)
    ensures a != b ==> Less(a, b) || Less(b, a)
  {
    if a != [] && b != [] {
      LessTotal(a[1..], b[1..]);
      assert a == [a[0]] + a[1..] && b == [b[0]] + b[1..];
    }
    if a != [] {
      LessTotal(a[1..], a[1..]);
    }
  }

  predicate DifferAt(a: string, b: string, k: nat) {
    k < |a| && k < |b| && a[..k] == b[..k] && a[k] != b[k]
  }

  /** `a` is a proper prefix of `b`, or has the smaller character where the two first differ. */
  ghost predicate Precedes(a: string, b: string) {
    a < b || exists k: nat :: DifferAt(a, b, k) && a[k] < b[k]
  }

  lemma {:induction false} LessPrecedes(a: string, b: string)
    ensures Less(a, b) <==> Precedes(a, b)
  {
    if a != [] && b != [] && a[0] == b[0] {
      LessPrecedes(a[1..], b[1..]);
      assert a[1..] < b[1..] <==> a < b by {
        assert a == [a[0]] + a[1..] && b == [b[0]] + b[1..];
      }
      DifferShift(a, b);
    } else if a != [] && b != [] {
      assert DifferAt(a, b, 0);
      assert forall k: nat :: DifferAt(a, b, k) && k > 0 ==> a[..k][0] == b[..k][0];
    }
  }

  lemma DifferShift(a: string, b: string)
    requires a != [] && b != [] && a[0] == b[0]
    ensures (exists k: nat :: DifferAt(a, b, k) && a[k] < b[k])
       <==> (exists k: nat :: DifferAt(a[1..], b[1..], k) && a[1..][k] < b[1..][k])
  {
    if k: nat :| DifferAt(a, b, k) && a[k] < b[k] {
      assert a[1..][..k - 1] == a[..k][1..] && b[1..][..k - 1] == b[..k][1..];
      assert DifferAt(a[1..], b[1..], k - 1) && a[1..][k - 1] < b[1..][k - 1];
    }
    if k: nat :| DifferAt(a[1..], b[1..], k) && a[1..][k] < b[1..][k] {
      assert a[..k + 1] == [a[0]] + a[1..][..k] && b[..k + 1] == [b[0]] + b[1..][..k];
      assert DifferAt(a, b, k + 1) && a[k + 1] < b[k + 1];
    }
  }

  /** What the tree writer accepts: non-empty names in strictly ascending order. */
  ghost predicate Sorted(t: Tree) {
    && (forall i :: 0 <= i < |t| ==> t[i].name != "")
    && (forall i, j :: 0 <= i < j < |t| ==> Less(t[i].name, t[j].name))
  }

  ghost predicate Ascending(t: Tree) {
    forall i, j :: 0 <= i < j < |t| ==> Precedes(t[i].name, t[j].name)
  }

  lemma SortedAscending(t: Tree)
    ensures Sorted(t) <==> Ascending(t) && forall i :: 0 <= i < |t| ==> t[i].name != ""
  {
    forall i, j | 0 <= i < j < |t| ensures Less(t[i].name, t[j].name) <==> Precedes(t[i].name, t[j].name) {
      LessPrecedes(t[i].name, t[j].name);
    }
  }

  lemma SortedDistinct(t: Tree, i: nat, j: nat)
    requires Sorted(t) && i < |t| && j < |t| && t[i].name == t[j].name
    ensures i == j
  {
    LessTotal(t[i].name, t[j].name);
  }

  // ---------------------------------------------------------------------------------------
  // Directories and ranks
  // ---------------------------------------------------------------------------------------

  /** A directory whose entries can be followed. */
  predicate IsDir(n: Node) {
    n.kind.Dir? && n.subtree.Some?
  }

  /** A node as the archiver writes it: every directory has a subtree, and only files have content. */
  predicate NodeOk(n: Node) {
    (n.kind.Dir? ==> n.subtree.Some?) && (n.content != [] ==> n.kind.File?)
  }

  ghost predicate RankedBelow(nodes: seq<Node>, rank: ID -> nat, bound: nat) {
    forall i :: 0 <= i < |nodes| && IsDir(nodes[i]) ==> rank(nodes[i].subtree.value) < bound
  }

  ghost predicate Ranked(s: Store, rank: ID -> nat) {
    forall id :: id in s ==> RankedBelow(s[id], rank, rank(id))
  }

  // ---------------------------------------------------------------------------------------
  // Blobs reachable from a tree
  // ---------------------------------------------------------------------------------------

  datatype Blob = DataBlob(id: ID) | TreeBlob(id: ID)

  function DataBlobs(content: seq<ID>): set<Blob> {
    set id | id in content :: DataBlob(id)
  }

  /** Everything a snapshot of tree `id` needs: the tree, its files' data, and its subtrees. */
  ghost function Reach(s: Store, rank: ID -> nat, id: ID): set<Blob>
    requires Ranked(s, rank)
    decreases rank(id), 1, 0
  {
    {TreeBlob(id)} + if id in s then ReachAll(s, rank, s[id], rank(id)) else {}
  }

  ghost function ReachAll(s: Store, rank: ID -> nat, nodes: seq<Node>, bound: nat): set<Blob>
    requires Ranked(s, rank) && RankedBelow(nodes, rank, bound)
    decreases bound, 0, |nodes|
  {
    if nodes == [] then {} else
      assert IsDir(nodes[0]) ==> rank(nodes[0].subtree.value) < bound;
      DataBlobs(nodes[0].content)
      + (if IsDir(nodes[0]) then Reach(s, rank, nodes[0].subtree.value) else {})
      + ReachAll(s, rank, nodes[1..], bound)
  }

  /** The blobs reachable through one node. */
  ghost function NodeReach(s: Store, rank: ID -> nat, n: Node): set<Blob>
    requires Ranked(s, rank)
  {
    DataBlobs(n.content) + (if IsDir(n) then Reach(s, rank, n.subtree.value) else {})
  }

  lemma {:induction false} ReachAllMembers(s: Store, rank: ID -> nat, nodes: seq<Node>, bound: nat, b: Blob)
    requires Ranked(s, rank) && RankedBelow(nodes, rank, bound)
    ensures b in ReachAll(s, rank, nodes, bound) <==> exists i :: 0 <= i < |nodes| && b in NodeReach(s, rank, nodes[i])
  {
    if nodes != [] {
      ReachAllMembers(s, rank, nodes[1..], bound, b);
      assert ReachAll(s, rank, nodes, bound) == NodeReach(s, rank, nodes[0]) + ReachAll(s, rank, nodes[1..], bound);
      if i :| 0 <= i < |nodes| && b in NodeReach(s, rank, nodes[i]) {
        if i > 0 { assert b in NodeReach(s, rank, nodes[1..][i - 1]); }
      }
      if i :| 0 <= i < |nodes[1..]| && b in NodeReach(s, rank, nodes[1..][i]) {
        assert b in NodeReach(s, rank, nodes[i + 1]);
      }
    }
  }

  /** All trees below `id` can be loaded. */
  ghost predicate Loads(s: Store, rank: ID -> nat, id: ID)
    requires Ranked(s, rank)
    decreases rank(id), 1, 0
  {
    id in s && LoadsAll(s, rank, s[id], rank(id))
  }

  ghost predicate LoadsAll(s: Store, rank: ID -> nat, nodes: seq<Node>, bound: nat)
    requires Ranked(s, rank) && RankedBelow(nodes, rank, bound)
    decreases bound, 0, 0
  {
    forall i :: 0 <= i < |nodes| && IsDir(nodes[i]) ==>
      rank(nodes[i].subtree.value) < bound && Loads(s, rank, nodes[i].subtree.value)
  }

  // ---------------------------------------------------------------------------------------
  // The same by chains of subtrees
  // ---------------------------------------------------------------------------------------

  /** Tree `parent` is stored and lists a directory whose subtree is `child`. */
  ghost predicate Lists(s: Store, parent: ID, child: ID) {
    parent in s && exists i :: 0 <= i < |s[parent]| && s[parent][i].kind.Dir? && s[parent][i].subtree == Some(child)
  }

  ghost predicate IsChain(s: Store, chain: seq<ID>, from: ID, to: ID) {
    && chain != [] && chain[0] == from && chain[|chain| - 1] == to
    && forall k :: 0 <= k < |chain| - 1 ==> Lists(s, chain[k], chain[k + 1])
  }

  ghost predicate LeadsTo(s: Store, from: ID, to: ID) {
    exists chain :: IsChain(s, chain, from, to)
  }

  /** Data blob `d` stands in the content of some node of tree `t`. */
  ghost predicate HoldsData(s: Store, t: ID, d: ID) {
    t in s && exists i, k :: 0 <= i < |s[t]| && 0 <= k < |s[t][i].content| && s[t][i].content[k] == d
  }

  /** Some chain of subtrees starting at `id` ends at the tree, or at a tree that holds the data. */
  ghost predicate Reaches(s: Store, id: ID, b: Blob) {
    match b
    case TreeBlob(t) => LeadsTo(s, id, t)
    case DataBlob(d) => exists t :: LeadsTo(s, id, t) && HoldsData(s, t, d)
  }

  lemma LeadsToSelf(s: Store, id: ID)
    ensures LeadsTo(s, id, id)
  {
    assert IsChain(s, [id], id, id);
  }

  /** A chain is empty or goes on through one of the first tree's directories. */
  lemma LeadsToNext(s: Store, from: ID, to: ID)
    ensures LeadsTo(s, from, to) <==> from == to || exists next :: Lists(s, from, next) && LeadsTo(s, next, to)
  {
    if chain :| IsChain(s, chain, from, to) {
      if |chain| > 1 {
        var rest := chain[1..];
        forall k | 0 <= k < |rest| - 1 ensures Lists(s, rest[k], rest[k + 1]) {
          assert Lists(s, chain[k + 1], chain[k + 1 + 1]);
        }
        assert IsChain(s, rest, chain[1], to);
        assert Lists(s, chain[0], chain[0 + 1]);
      }
    }
    if from == to {
      LeadsToSelf(s, from);
    }
    if next: ID :| Lists(s, from, next) && LeadsTo(s, next, to) {
      var chain :| IsChain(s, chain, next, to);
      var longer := [from] + chain;
      forall k | 0 <= k < |longer| - 1 ensures Lists(s, longer[k], longer[k + 1]) {
        assert k > 0 ==> Lists(s, chain[k - 1], chain[k - 1 + 1]);
      }
      assert IsChain(s, longer, from, to);
    }
  }

  lemma ReachesNext(s: Store, id: ID, b: Blob)
    ensures Reaches(s, id, b) <==>
      b == TreeBlob(id) || (b.DataBlob? && HoldsData(s, id, b.id)) || exists next :: Lists(s, id, next) && Reaches(s, next, b)
  {
    match b
    case TreeBlob(t) => LeadsToNext(s, id, t);
    case DataBlob(d) =>
      LeadsToSelf(s, id);
      if t :| LeadsTo(s, id, t) && HoldsData(s, t, d) {
        LeadsToNext(s, id, t);
        if t != id {
          var next :| Lists(s, id, next) && LeadsTo(s, next, t);
          assert Reaches(s, next, b);
        }
      }
      if next: ID :| Lists(s, id, next) && Reaches(s, next, b) {
        var t :| LeadsTo(s, next, t) && HoldsData(s, t, d);
        LeadsToNext(s, id, t);
      }
  }

  /** What a snapshot needs, without the recursion: a tree is needed when a chain of subtrees leads to it,
      data when a chain leads to a tree that holds it. */
  lemma {:induction false} ReachByChains(s: Store, rank: ID -> nat, id: ID, b: Blob)
    requires Ranked(s, rank)
    ensures b in Reach(s, rank, id) <==> Reaches(s, id, b)
    decreases rank(id)
  {
    ReachesNext(s, id, b);
    if id in s {
      ReachAllMembers(s, rank, s[id], rank(id), b);
      forall next: ID | Lists(s, id, next) ensures b in Reach(s, rank, next) <==> Reaches(s, next, b) {
        ReachByChains(s, rank, next, b);
      }
      ThroughNodes(s, rank, id, b);
    }
  }

  lemma ThroughNodes(s: Store, rank: ID -> nat, id: ID, b: Blob)
    requires Ranked(s, rank) && id in s
    ensures (exists i :: 0 <= i < |s[id]| && b in NodeReach(s, rank, s[id][i])) <==>
      (b.DataBlob? && HoldsData(s, id, b.id)) || exists next :: Lists(s, id, next) && b in Reach(s, rank, next)
  {
    var nodes := s[id];
    if i :| 0 <= i < |nodes| && b in NodeReach(s, rank, nodes[i]) {
      if b in DataBlobs(nodes[i].content) {
        var k :| 0 <= k < |nodes[i].content| && nodes[i].content[k] == b.id;
      } else {
        assert Lists(s, id, nodes[i].subtree.value);
      }
    }
    if b.DataBlob? && HoldsData(s, id, b.id) {
      var i, k :| 0 <= i < |nodes| && 0 <= k < |nodes[i].content| && nodes[i].content[k] == b.id;
      assert b in NodeReach(s, rank, nodes[i]);
    }
    if next: ID :| Lists(s, id, next) && b in Reach(s, rank, next) {
      var i :| 0 <= i < |nodes| && nodes[i].kind.Dir? && nodes[i].subtree == Some(next);
      assert b in NodeReach(s, rank, nodes[i]);
    }
  }

  /** Everything below `id` loads exactly when every chain of subtrees from `id` ends at a stored tree. */
  lemma {:induction false} LoadsByChains(s: Store, rank: ID -> nat, id: ID)
    requires Ranked(s, rank)
    ensures Loads(s, rank, id) <==> forall t :: LeadsTo(s, id, t) ==> t in s
    decreases rank(id)
  {
    LeadsToSelf(s, id);
    if id in s {
      forall next: ID | Lists(s, id, next)
        ensures Loads(s, rank, next) <==> forall t :: LeadsTo(s, next, t) ==> t in s {
        LoadsByChains(s, rank, next);
      }
      forall t ensures LeadsTo(s, id, t) <==> id == t || exists next :: Lists(s, id, next) && LeadsTo(s, next, t) {
        LeadsToNext(s, id, t);
      }
      LoadsThroughNodes(s, rank, id);
    }
  }

  lemma LoadsThroughNodes(s: Store, rank: ID -> nat, id: ID)
    requires Ranked(s, rank) && id in s
    ensures LoadsAll(s, rank, s[id], rank(id)) <==> forall next :: Lists(s, id, next) ==> Loads(s, rank, next)
  {
    var nodes := s[id];
    if LoadsAll(s, rank, nodes, rank(id)) {
      forall next: ID | Lists(s, id, next) ensures Loads(s, rank, next) {
        var i :| 0 <= i < |nodes| && nodes[i].kind.Dir? && nodes[i].subtree == Some(next);
        assert IsDir(nodes[i]);
      }
    }
    if forall next :: Lists(s, id, next) ==> Loads(s, rank, next) {
      forall i | 0 <= i < |nodes| && IsDir(nodes[i]) ensures Loads(s, rank, nodes[i].subtree.value) {
        assert Lists(s, id, nodes[i].subtree.value);
      }
    }
  }
}
