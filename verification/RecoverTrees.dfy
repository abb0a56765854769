/**
 Recovering trees that no snapshot refers to.

 All trees in the index are listed, the children of every loadable tree and the trees of all
 snapshots are marked, and what stays unmarked becomes the root directories of a new
 snapshot.
 */
module RecoverTrees {
  import opened SnapshotStore
  import opened Wrappers

  /** `child` is the subtree of an entry of `nodes`. */
  predicate HasChild(nodes: seq<Node>, child: ID) {
    exists i :: 0 <= i < |nodes| && IsDir(nodes[i]) && nodes[i].subtree.value == child
  }

  /** Some tree that can be loaded refers to `child`. */
  ghost predicate IsChild(s: Store, child: ID) {
    exists parent :: parent in s && HasChild(s[parent], child)
  }

  function IndexedTrees(blobs: seq<Blob>): set<ID> {
    set i | 0 <= i < |blobs| && blobs[i].TreeBlob? :: blobs[i].id
  }

  // ---------------------------------------------------------------------------------------
  // Marking
  // ---------------------------------------------------------------------------------------

  method ListTrees(blobs: seq<Blob>) returns (trees: map<ID, bool>)
    ensures trees == map id | id in IndexedTrees(blobs) :: false
  {
    trees := map[];
    for i := 0 to |blobs|
      invariant trees == map id | id in IndexedTrees(blobs[..i]) :: false
    {
      IndexedSnoc(blobs[..i], blobs[i]);
      assert blobs[..i + 1] == blobs[..i] + [blobs[i]];
      if blobs[i].TreeBlob? {
        trees := trees[blobs[i].id := false];
      }
    }
    assert blobs[..|blobs|] == blobs;
  }

  lemma IndexedSnoc(blobs: seq<Blob>, b: Blob)
    ensures IndexedTrees(blobs + [b]) == IndexedTrees(blobs) + if b.TreeBlob? then {b.id} else {}
  {
    var all := blobs + [b];
    forall x | x in IndexedTrees(blobs) ensures x in IndexedTrees(all) {
      var i :| 0 <= i < |blobs| && blobs[i].TreeBlob? && blobs[i].id == x;
      assert all[i] == blobs[i];
    }
    if b.TreeBlob? {
      assert all[|blobs|] == b;
    }
  }

  /** Marks the children of one loaded tree. */
  method MarkChildren(nodes: seq<Node>, trees: map<ID, bool>) returns (marked: map<ID, bool>)
    ensures forall x :: x in marked <==> x in trees || HasChild(nodes, x)
    ensures forall x :: x in marked ==> (marked[x] <==> HasChild(nodes, x) || (x in trees && trees[x]))
  {
    marked := trees;
    for i := 0 to |nodes|
      invariant forall x :: x in marked <==> x in trees || HasChild(nodes[..i], x)
      invariant forall x :: x in marked ==> (marked[x] <==> HasChild(nodes[..i], x) || (x in trees && trees[x]))
    {
      ChildSnoc(nodes, i);
      if IsDir(nodes[i]) {
        marked := marked[nodes[i].subtree.value := true];
      }
    }
    assert nodes[..|nodes|] == nodes;
  }

  lemma ChildSnoc(nodes: seq<Node>, i: nat)
    requires i < |nodes|
    ensures forall x :: HasChild(nodes[..i + 1], x) <==> HasChild(nodes[..i], x) || (IsDir(nodes[i]) && nodes[i].subtree.value == x)
  {
    forall x ensures HasChild(nodes[..i + 1], x) <==> HasChild(nodes[..i], x) || (IsDir(nodes[i]) && nodes[i].subtree.value == x) {
      if HasChild(nodes[..i], x) {
        var k :| 0 <= k < i && IsDir(nodes[..i][k]) && nodes[..i][k].subtree.value == x;
        assert nodes[..i + 1][k] == nodes[k];
      }
      if IsDir(nodes[i]) && nodes[i].subtree.value == x {
        assert nodes[..i + 1][i] == nodes[i];
      }
      if HasChild(nodes[..i + 1], x) {
        var k :| 0 <= k < i + 1 && IsDir(nodes[..i + 1][k]) && nodes[..i + 1][k].subtree.value == x;
        if k < i { assert nodes[..i][k] == nodes[k]; }
      }
    }
  }

  /** The marks after looking at the trees `done`. */
  ghost predicate Marks(s: Store, indexed: set<ID>, done: set<ID>, trees: map<ID, bool>) {
    && (forall x :: x in trees <==> x in indexed || ChildOfSome(s, done, x))
    && (forall x :: x in trees ==> (trees[x] <==> ChildOfSome(s, done, x)))
  }

  ghost predicate ChildOfSome(s: Store, done: set<ID>, x: ID) {
    exists parent :: parent in done && parent in s && HasChild(s[parent], x)
  }

  lemma MarksStep(s: Store, indexed: set<ID>, done: set<ID>, trees: map<ID, bool>, id: ID, trees': map<ID, bool>)
    requires Marks(s, indexed, done, trees)
    requires id !in s ==> trees' == trees
    requires id in s ==> forall x :: x in trees' <==> x in trees || HasChild(s[id], x)
    requires id in s ==> forall x :: x in trees' ==> (trees'[x] <==> HasChild(s[id], x) || (x in trees && trees[x]))
    ensures Marks(s, indexed, done + {id}, trees')
  {
    forall x ensures ChildOfSome(s, done + {id}, x) <==> ChildOfSome(s, done, x) || (id in s && HasChild(s[id], x)) {
      if ChildOfSome(s, done, x) {
        var p :| p in done && p in s && HasChild(s[p], x);
        assert p in done + {id};
      }
      if id in s && HasChild(s[id], x) {
        assert id in done + {id};
      }
    }
  }

  lemma DoneAll(s: Store, done: set<ID>)
    requires forall id :: id in s ==> id in done
    ensures forall x :: ChildOfSome(s, done, x) <==> ChildOfSome(s, s.Keys, x)
  {
    forall x | ChildOfSome(s, s.Keys, x) ensures ChildOfSome(s, done, x) {
      var p :| p in s.Keys && p in s && HasChild(s[p], x);
      assert p in done;
    }
  }

  /** Loads every indexed tree and marks its children.  Keys that are added while the map is
      traversed may or may not be visited themselves.  A tree that does not load is passed over;
      an entry that cannot be decoded ends the search. */
  method FindRecoverTrees(blobs: seq<Blob>, s: Store, undecodable: set<ID>) returns (failed: bool, trees: map<ID, bool>)
    requires s.Keys <= IndexedTrees(blobs)
    ensures failed <==> exists id :: id in s && id in undecodable
    ensures !failed ==> Marks(s, IndexedTrees(blobs), s.Keys, trees)
  {
    trees := ListTrees(blobs);
    var todo := trees.Keys;
    ghost var indexed, done := IndexedTrees(blobs), {};
    while todo != {}
      invariant forall x :: x in indexed ==> x in todo || x in done
      invariant forall x :: x in done && x in s ==> x !in undecodable
      invariant Marks(s, indexed, done, trees)
      invariant forall x :: x in todo ==> x in trees && x !in done
      invariant forall x :: x in done ==> x in trees
      decreases s.Keys - done, todo
    {
      var id :| id in todo;
      todo := todo - {id};
      if id in s {
        if id in undecodable {
          return true, trees;
        }
        var marked := MarkChildren(s[id], trees);
        MarksStep(s, indexed, done, trees, id, marked);
        var visited: set<ID> := *;
        todo := todo + set x | x in visited && x in marked && x !in trees;
        trees := marked;
      } else {
        MarksStep(s, indexed, done, trees, id, trees);
      }
      done := done + {id};
    }
    failed := false;
    DoneAll(s, done);
  }

  // ---------------------------------------------------------------------------------------
  // The recovered roots
  // ---------------------------------------------------------------------------------------

  /** The trees that stay unmarked once the trees of the existing snapshots are marked too. */
  method RecoverRoots(blobs: seq<Blob>, s: Store, undecodable: set<ID>, snapshots: seq<ID>) returns (failed: bool, roots: set<ID>)
    requires s.Keys <= IndexedTrees(blobs)
    ensures failed <==> exists id :: id in s && id in undecodable
    ensures !failed ==> forall x :: x in roots <==> x in IndexedTrees(blobs) && !IsChild(s, x) && x !in snapshots
  {
    var trees;
    failed, trees := FindRecoverTrees(blobs, s, undecodable);
    if failed {
      return failed, {};
    }
    forall x ensures ChildOfSome(s, s.Keys, x) <==> IsChild(s, x) {
    }
    ghost var found := trees;
    for i := 0 to |snapshots|
      invariant forall x :: x in trees <==> x in found || x in snapshots[..i]
      invariant forall x :: x in trees ==> (trees[x] <==> x in snapshots[..i] || (x in found && found[x]))
    {
      assert snapshots[..i + 1] == snapshots[..i] + [snapshots[i]];
      trees := trees[snapshots[i] := true];
    }
    assert snapshots[..|snapshots|] == snapshots;
    roots := set x | x in trees && !trees[x];
  }

  /** No recovered root is a child of any loadable indexed tree (that is how they were chosen);
      and nothing is lost: every indexed tree is reachable from a recovered root or from an
      existing snapshot. */
  lemma NothingLost(s: Store, rank: ID -> nat, indexed: set<ID>, snapshots: seq<ID>, roots: set<ID>, t: ID)
    requires Ranked(s, rank) && s.Keys <= indexed && t in indexed
    requires forall x :: x in roots <==> x in indexed && !IsChild(s, x) && x !in snapshots
    ensures exists r :: (r in roots || r in snapshots) && TreeBlob(t) in Reach(s, rank, r)
  {
    var bound := RankBound(s.Keys, rank);
    Climb(s, rank, indexed, snapshots, roots, t, bound);
  }

  lemma RankBound(ids: set<ID>, rank: ID -> nat) returns (bound: nat)
    ensures forall id :: id in ids ==> rank(id) <= bound
    decreases ids
  {
    if ids == {} {
      bound := 0;
    } else {
      var id :| id in ids;
      var rest := RankBound(ids - {id}, rank);
      bound := if rank(id) > rest then rank(id) else rest;
    }
  }

  /** From any indexed tree the way up through loadable parents ends at a root or a snapshot. */
  lemma {:induction false} Climb(s: Store, rank: ID -> nat, indexed: set<ID>, snapshots: seq<ID>, roots: set<ID>, t: ID, bound: nat)
    requires Ranked(s, rank) && s.Keys <= indexed && t in indexed
    requires forall x :: x in roots <==> x in indexed && !IsChild(s, x) && x !in snapshots
    requires forall id :: id in s ==> rank(id) <= bound
    ensures exists r :: (r in roots || r in snapshots) && TreeBlob(t) in Reach(s, rank, r)
    decreases bound - rank(t), if rank(t) > bound then 1 else 0
  {
    if t in roots || t in snapshots {
      assert TreeBlob(t) in Reach(s, rank, t);
    } else {
      var p :| p in s && HasChild(s[p], t);
      var i :| 0 <= i < |s[p]| && IsDir(s[p][i]) && s[p][i].subtree.value == t;
      assert rank(t) < rank(p);
      Climb(s, rank, indexed, snapshots, roots, p, bound);
      var r :| (r in roots || r in snapshots) && TreeBlob(p) in Reach(s, rank, r);
      ReachAllMembers(s, rank, s[p], rank(p), TreeBlob(t));
      assert TreeBlob(t) in NodeReach(s, rank, s[p][i]);
      ReachTransitive(s, rank, r, p);
    }
  }

  lemma {:induction false} ReachTransitive(s: Store, rank: ID -> nat, r: ID, p: ID)
    requires Ranked(s, rank) && TreeBlob(p) in Reach(s, rank, r)
    ensures Reach(s, rank, p) <= Reach(s, rank, r)
    decreases rank(r)
  {
    if p != r {
      var nodes := s[r];
      ReachAllMembers(s, rank, nodes, rank(r), TreeBlob(p));
      var i :| 0 <= i < |nodes| && TreeBlob(p) in NodeReach(s, rank, nodes[i]);
      ReachTransitive(s, rank, nodes[i].subtree.value, p);
      forall b | b in Reach(s, rank, p) ensures b in Reach(s, rank, r) {
        ReachAllMembers(s, rank, nodes, rank(r), b);
        assert b in NodeReach(s, rank, nodes[i]);
      }
    }
  }

  // ---------------------------------------------------------------------------------------
  // Writing the recovered roots
  // ---------------------------------------------------------------------------------------

  /** The names the roots get: the beginning of their IDs. */
  predicate Ascending(order: seq<ID>, short: ID -> string) {
    forall i, j :: 0 <= i < j < |order| ==> Less(short(order[i]), short(order[j]))
  }

  /** The tree writer takes the roots in the order in which the set is traversed, and accepts a
      name only if it is greater than the one before: the new tree is written exactly when the
      traversal happens to be in ascending order of the short names. */
  method WriteRoots(order: seq<ID>, short: ID -> string) returns (failed: bool, tree: Tree)
    requires forall i :: 0 <= i < |order| ==> short(order[i]) != ""
    ensures failed <==> !Ascending(order, short)
    ensures !failed ==> Sorted(tree) && |tree| == |order|
    ensures !failed ==> forall i :: 0 <= i < |order| ==> IsDir(tree[i]) && tree[i].subtree.value == order[i] && tree[i].name == short(order[i])
  {
    tree := [];
    var lastName := "";
    for i := 0 to |order|
      invariant |tree| == i && lastName == (if i == 0 then "" else short(order[i - 1]))
      invariant Ascending(order[..i], short)
      invariant forall k :: 0 <= k < i ==> IsDir(tree[k]) && tree[k].subtree.value == order[k] && tree[k].name == short(order[k])
    {
      var name := short(order[i]);
      LessTotal(name, lastName);
      if !Less(lastName, name) {
        assert i > 0 && !Less(short(order[i - 1]), short(order[i]));
        return true, tree;
      }
      AscendingSnoc(order, short, i);
      tree := tree + [Node(name, Dir, [], Some(order[i]), 0)];
      lastName := name;
    }
    assert order[..|order|] == order;
    failed := false;
  }

  lemma AscendingSnoc(order: seq<ID>, short: ID -> string, i: nat)
    requires i < |order| && Ascending(order[..i], short)
    requires i == 0 || Less(short(order[i - 1]), short(order[i]))
    ensures Ascending(order[..i + 1], short)
  {
    forall j, k | 0 <= j < k < i + 1 ensures Less(short(order[j]), short(order[k])) {
      if k < i {
        assert Less(short(order[..i][j]), short(order[..i][k]));
      } else if j < i - 1 {
        assert Less(short(order[..i][j]), short(order[..i][i - 1]));
        LessTransitive(short(order[j]), short(order[i - 1]), short(order[i]));
      }
    }
  }

  /** A traversal of a set: every element once. */
  ghost predicate OrderOf(order: seq<ID>, roots: set<ID>) {
    && (forall id :: id in order <==> id in roots)
    && forall i, j :: 0 <= i < j < |order| ==> order[i] != order[j]
  }

  lemma {:induction false} OrderLength(order: seq<ID>, roots: set<ID>)
    requires OrderOf(order, roots)
    ensures |order| == |roots|
  {
    if order == [] {
      assert roots == {};
    } else {
      OrderTail(order, roots);
      OrderLength(order[1..], roots - {order[0]});
    }
  }

  lemma OrderTail(order: seq<ID>, roots: set<ID>)
    requires OrderOf(order, roots) && order != []
    ensures order[0] in roots && OrderOf(order[1..], roots - {order[0]})
  {
    var rest := order[1..];
    assert forall i :: 0 <= i < |rest| ==> rest[i] == order[i + 1];
    forall id ensures id in rest <==> id in roots - {order[0]} {
      if id in order && id != order[0] {
        var k :| 0 <= k < |order| && order[k] == id;
        assert rest[k - 1] == id;
      }
    }
  }

  lemma OrderCons(id: ID, rest: seq<ID>, roots: set<ID>)
    requires id in roots && OrderOf(rest, roots - {id})
    ensures OrderOf([id] + rest, roots)
  {
    var order := [id] + rest;
    assert forall i :: 0 < i < |order| ==> order[i] == rest[i - 1] && order[i] in rest;
    assert forall x :: x in order <==> x == id || x in rest;
  }

  lemma {:induction false} SomeOrder(roots: set<ID>) returns (order: seq<ID>)
    ensures OrderOf(order, roots)
    decreases |roots|
  {
    if roots == {} {
      order := [];
    } else {
      var id :| id in roots;
      var rest := SomeOrder(roots - {id});
      OrderCons(id, rest, roots);
      order := [id] + rest;
    }
  }

  lemma SwapFirst(order: seq<ID>, roots: set<ID>) returns (swapped: seq<ID>)
    requires OrderOf(order, roots) && |order| >= 2
    ensures OrderOf(swapped, roots) && |swapped| >= 2 && swapped[0] == order[1] && swapped[1] == order[0]
  {
    swapped := order[0 := order[1]][1 := order[0]];
    forall id ensures id in swapped <==> id in order {
      if id in order {
        var k :| 0 <= k < |order| && order[k] == id;
        assert swapped[if k == 0 then 1 else if k == 1 then 0 else k] == id;
      }
    }
  }

  /** As soon as there are two roots, some traversal of them is refused. */
  lemma SomeOrderFails(roots: set<ID>, short: ID -> string) returns (order: seq<ID>)
    requires |roots| >= 2
    ensures OrderOf(order, roots) && !Ascending(order, short)
  {
    order := SomeOrder(roots);
    OrderLength(order, roots);
    if Ascending(order, short) {
      var swapped := SwapFirst(order, roots);
      LessTotal(short(order[0]), short(order[1]));
      order := swapped;
    }
  }

  /** Every traversal is accepted exactly when there is at most one root. */
  lemma AcceptedAlways(roots: set<ID>, short: ID -> string)
    ensures (forall order :: OrderOf(order, roots) ==> Ascending(order, short)) <==> |roots| <= 1
  {
    if |roots| <= 1 {
      forall order | OrderOf(order, roots) ensures Ascending(order, short) {
        OrderLength(order, roots);
      }
    } else {
      var order := SomeOrderFails(roots, short);
    }
  }

  /** Of all traversals of a set at most one is accepted. */
  lemma {:induction false} AcceptedOnce(a: seq<ID>, b: seq<ID>, roots: set<ID>, short: ID -> string)
    requires OrderOf(a, roots) && OrderOf(b, roots) && Ascending(a, short) && Ascending(b, short)
    ensures a == b
    decreases |a|
  {
    OrderLength(a, roots);
    OrderLength(b, roots);
    if a != [] {
      SameFirst(a, b, roots, short);
      OrderTail(a, roots);
      OrderTail(b, roots);
      AscendingTail(a, short);
      AscendingTail(b, short);
      AcceptedOnce(a[1..], b[1..], roots - {a[0]}, short);
      assert a == [a[0]] + a[1..] && b == [b[0]] + b[1..];
    }
  }

  lemma AscendingTail(order: seq<ID>, short: ID -> string)
    requires order != [] && Ascending(order, short)
    ensures Ascending(order[1..], short)
  {
    assert forall i :: 0 <= i < |order[1..]| ==> order[1..][i] == order[i + 1];
  }

  lemma SameFirst(a: seq<ID>, b: seq<ID>, roots: set<ID>, short: ID -> string)
    requires OrderOf(a, roots) && OrderOf(b, roots) && Ascending(a, short) && Ascending(b, short) && a != [] && b != []
    ensures a[0] == b[0]
  {
    assert a[0] in roots && b[0] in roots;
    var k :| 0 <= k < |b| && b[k] == a[0];
    var m :| 0 <= m < |a| && a[m] == b[0];
    LessTotal(short(a[0]), short(b[0]));
  }

  ghost predicate NamesDiffer(roots: set<ID>, short: ID -> string) {
    forall a, b :: a in roots && b in roots && a != b ==> short(a) != short(b)
  }

  ghost predicate IsFirst(roots: set<ID>, short: ID -> string, first: ID) {
    first in roots && forall id :: id in roots && id != first ==> Less(short(first), short(id))
  }

  lemma {:induction false} FirstRoot(roots: set<ID>, short: ID -> string) returns (first: ID)
    requires roots != {} && NamesDiffer(roots, short)
    ensures IsFirst(roots, short, first)
    decreases |roots|
  {
    first :| first in roots;
    if roots != {first} {
      var rest := roots - {first};
      assert rest != {};
      var other := FirstRoot(rest, short);
      LessTotal(short(first), short(other));
      if Less(short(other), short(first)) {
        first := other;
      } else {
        forall id | id in roots && id != first ensures Less(short(first), short(id)) {
          if id != other {
            LessTransitive(short(first), short(other), short(id));
          }
        }
      }
    }
  }

  lemma {:induction false} SortedOrder(roots: set<ID>, short: ID -> string) returns (order: seq<ID>)
    requires NamesDiffer(roots, short)
    ensures OrderOf(order, roots) && Ascending(order, short)
    decreases |roots|
  {
    if roots == {} {
      order := [];
    } else {
      var first := FirstRoot(roots, short);
      var rest := SortedOrder(roots - {first}, short);
      OrderCons(first, rest, roots);
      order := [first] + rest;
      assert forall i :: 0 < i < |order| ==> order[i] == rest[i - 1] && order[i] in rest;
    }
  }

  /** Some traversal is accepted exactly when the short names differ. */
  lemma AcceptedSometimes(roots: set<ID>, short: ID -> string)
    ensures (exists order :: OrderOf(order, roots) && Ascending(order, short)) <==> NamesDiffer(roots, short)
  {
    if NamesDiffer(roots, short) {
      var order := SortedOrder(roots, short);
    }
    if order :| OrderOf(order, roots) && Ascending(order, short) {
      forall a, b | a in roots && b in roots && a != b ensures short(a) != short(b) {
        var i :| 0 <= i < |order| && order[i] == a;
        var j :| 0 <= j < |order| && order[j] == b;
        LessTotal(short(a), short(b));
      }
    }
  }
}
