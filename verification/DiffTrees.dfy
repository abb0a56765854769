/**
 Comparing two snapshots.

 The comparison walks both trees in step.  An identical subtree is not compared: its blobs
 are only collected into a common set.  The blobs reported as removed and added are then
 computed from the three collected sets, and must be the ones that only one of the snapshots
 reaches.
 */
module DiffTrees {
  import opened SnapshotStore
  import opened Wrappers

  /** The sets the walk fills in.  `missed1` and `missed2` are the blobs of directories it does
      not descend into because the other side has something that is no directory under the same
      name. */
  datatype Sets = Sets(before: set<Blob>, after: set<Blob>, common: set<Blob>, missed1: set<Blob>, missed2: set<Blob>)

  const EMPTY := Sets({}, {}, {}, {}, {})

  function Plus(a: Sets, b: Sets): Sets {
    Sets(a.before + b.before, a.after + b.after, a.common + b.common, a.missed1 + b.missed1, a.missed2 + b.missed2)
  }

  lemma PlusAssociative(a: Sets, b: Sets, c: Sets)
    ensures Plus(Plus(a, b), c) == Plus(a, Plus(b, c))
  {
  }

  /** What `addBlobs` inserts for one node. */
  function OwnBlobs(n: Node): set<Blob> {
    match n.kind
    case File => DataBlobs(n.content)
    case Dir => if n.subtree.Some? then {TreeBlob(n.subtree.value)} else {}
    case Other => {}
  }

  /** The blobs below a directory node, without the blob of its own tree. */
  ghost function Below(s: Store, rank: ID -> nat, n: Node): set<Blob>
    requires Ranked(s, rank)
  {
    if IsDir(n) && n.subtree.value in s then ReachAll(s, rank, s[n.subtree.value], rank(n.subtree.value)) else {}
  }

  /** What an entry without a counterpart contributes. */
  ghost function OnlyBefore(s: Store, rank: ID -> nat, n: Node): Sets
    requires Ranked(s, rank)
  {
    EMPTY.(before := OwnBlobs(n) + Below(s, rank, n))
  }

  ghost function OnlyAfter(s: Store, rank: ID -> nat, n: Node): Sets
    requires Ranked(s, rank)
  {
    EMPTY.(after := OwnBlobs(n) + Below(s, rank, n))
  }

  // ---------------------------------------------------------------------------------------
  // Specification of the walk
  // ---------------------------------------------------------------------------------------

  ghost function Walk(s: Store, rank: ID -> nat, id1: ID, id2: ID): Sets
    requires Ranked(s, rank)
    decreases rank(id1), 2, 0
  {
    if id1 in s && id2 in s then WalkNodes(s, rank, s[id1], s[id2], rank(id1)) else EMPTY
  }

  /** The two node lists in step, paired by name. */
  ghost function WalkNodes(s: Store, rank: ID -> nat, n1: seq<Node>, n2: seq<Node>, bound: nat): Sets
    requires Ranked(s, rank) && RankedBelow(n1, rank, bound)
    decreases bound, 1, |n1| + |n2|
  {
    if n1 == [] && n2 == [] then EMPTY
    else if n2 == [] || (n1 != [] && Less(n1[0].name, n2[0].name)) then
      Plus(OnlyBefore(s, rank, n1[0]), WalkNodes(s, rank, n1[1..], n2, bound))
    else if n1 == [] || Less(n2[0].name, n1[0].name) then
      Plus(OnlyAfter(s, rank, n2[0]), WalkNodes(s, rank, n1, n2[1..], bound))
    else
      assert IsDir(n1[0]) ==> rank(n1[0].subtree.value) < bound;
      Plus(WalkPair(s, rank, n1[0], n2[0], bound), WalkNodes(s, rank, n1[1..], n2[1..], bound))
  }

  /** Two nodes of the same name. */
  ghost function WalkPair(s: Store, rank: ID -> nat, a: Node, b: Node, bound: nat): Sets
    requires Ranked(s, rank) && (IsDir(a) ==> rank(a.subtree.value) < bound)
    decreases bound, 0, 0
  {
    var own := EMPTY.(before := OwnBlobs(a), after := OwnBlobs(b));
    if IsDir(a) && IsDir(b) then
      if a.subtree == b.subtree then own.(common := Below(s, rank, a))
      else Plus(own, Walk(s, rank, a.subtree.value, b.subtree.value))
    else own.(missed1 := Below(s, rank, a), missed2 := Below(s, rank, b))
  }

  // ---------------------------------------------------------------------------------------
  // The walk together with what it misses covers both snapshots
  // ---------------------------------------------------------------------------------------

  ghost predicate NodesOk(s: Store) {
    forall id, i :: id in s && 0 <= i < |s[id]| ==> NodeOk(s[id][i])
  }

  ghost predicate AllOk(nodes: seq<Node>) {
    forall i :: 0 <= i < |nodes| ==> NodeOk(nodes[i])
  }

  lemma OwnAndBelow(s: Store, rank: ID -> nat, n: Node)
    requires Ranked(s, rank) && NodeOk(n)
    ensures OwnBlobs(n) + Below(s, rank, n) == NodeReach(s, rank, n)
  {
  }

  lemma ReachAllSplit(s: Store, rank: ID -> nat, nodes: seq<Node>, bound: nat)
    requires Ranked(s, rank) && RankedBelow(nodes, rank, bound) && nodes != []
    ensures RankedBelow(nodes[1..], rank, bound)
    ensures ReachAll(s, rank, nodes, bound) == NodeReach(s, rank, nodes[0]) + ReachAll(s, rank, nodes[1..], bound)
  {
  }

  ghost predicate Covers(w: Sets, reach1: set<Blob>, reach2: set<Blob>) {
    w.before + w.common + w.missed1 == reach1 && w.after + w.common + w.missed2 == reach2
  }

  lemma CoversPlus(w: Sets, v: Sets, r1: set<Blob>, r2: set<Blob>, q1: set<Blob>, q2: set<Blob>)
    requires Covers(w, r1, r2) && Covers(v, q1, q2)
    ensures Covers(Plus(w, v), r1 + q1, r2 + q2)
    ensures {} + q1 == q1 && {} + q2 == q2
  {
  }

  lemma {:induction false} WalkCovers(s: Store, rank: ID -> nat, id1: ID, id2: ID)
    requires Ranked(s, rank) && NodesOk(s) && Loads(s, rank, id1) && Loads(s, rank, id2)
    ensures Covers(Walk(s, rank, id1, id2), ReachAll(s, rank, s[id1], rank(id1)), ReachAll(s, rank, s[id2], rank(id2)))
    decreases rank(id1), 2, 0
  {
    WalkNodesCovers(s, rank, s[id1], s[id2], rank(id1), rank(id2));
  }

  lemma {:induction false} WalkNodesCovers(s: Store, rank: ID -> nat, n1: seq<Node>, n2: seq<Node>, bound: nat, bound2: nat)
    requires Ranked(s, rank) && NodesOk(s) && AllOk(n1) && AllOk(n2)
    requires RankedBelow(n1, rank, bound) && RankedBelow(n2, rank, bound2)
    requires LoadsAll(s, rank, n1, bound) && LoadsAll(s, rank, n2, bound2)
    ensures Covers(WalkNodes(s, rank, n1, n2, bound), ReachAll(s, rank, n1, bound), ReachAll(s, rank, n2, bound2))
    decreases bound, 1, |n1| + |n2|
  {
    if n1 == [] && n2 == [] {
    } else if n2 == [] || (n1 != [] && Less(n1[0].name, n2[0].name)) {
      ReachAllSplit(s, rank, n1, bound);
      OwnAndBelow(s, rank, n1[0]);
      WalkNodesCovers(s, rank, n1[1..], n2, bound, bound2);
      var own := NodeReach(s, rank, n1[0]);
      CoversPlus(OnlyBefore(s, rank, n1[0]), WalkNodes(s, rank, n1[1..], n2, bound), own, {},
                 ReachAll(s, rank, n1[1..], bound), ReachAll(s, rank, n2, bound2));
    } else if n1 == [] || Less(n2[0].name, n1[0].name) {
      ReachAllSplit(s, rank, n2, bound2);
      OwnAndBelow(s, rank, n2[0]);
      WalkNodesCovers(s, rank, n1, n2[1..], bound, bound2);
      var own := NodeReach(s, rank, n2[0]);
      CoversPlus(OnlyAfter(s, rank, n2[0]), WalkNodes(s, rank, n1, n2[1..], bound), {}, own,
                 ReachAll(s, rank, n1, bound), ReachAll(s, rank, n2[1..], bound2));
    } else {
      ReachAllSplit(s, rank, n1, bound);
      ReachAllSplit(s, rank, n2, bound2);
      WalkPairCovers(s, rank, n1[0], n2[0], bound);
      WalkNodesCovers(s, rank, n1[1..], n2[1..], bound, bound2);
      CoversPlus(WalkPair(s, rank, n1[0], n2[0], bound), WalkNodes(s, rank, n1[1..], n2[1..], bound),
                 NodeReach(s, rank, n1[0]), NodeReach(s, rank, n2[0]),
                 ReachAll(s, rank, n1[1..], bound), ReachAll(s, rank, n2[1..], bound2));
    }
  }

  lemma {:induction false} WalkPairCovers(s: Store, rank: ID -> nat, a: Node, b: Node, bound: nat)
    requires Ranked(s, rank) && NodesOk(s) && NodeOk(a) && NodeOk(b)
    requires IsDir(a) ==> rank(a.subtree.value) < bound && Loads(s, rank, a.subtree.value)
    requires IsDir(b) ==> Loads(s, rank, b.subtree.value)
    ensures Covers(WalkPair(s, rank, a, b, bound), NodeReach(s, rank, a), NodeReach(s, rank, b))
    decreases bound, 0, 0
  {
    OwnAndBelow(s, rank, a);
    OwnAndBelow(s, rank, b);
    if IsDir(a) && IsDir(b) && a.subtree != b.subtree {
      WalkCovers(s, rank, a.subtree.value, b.subtree.value);
    }
  }

  // ---------------------------------------------------------------------------------------
  // The reported blobs
  // ---------------------------------------------------------------------------------------

  /** The final set arithmetic: what is reported as present on one side only. */
  function Reported(one: set<Blob>, other: set<Blob>, common: set<Blob>): set<Blob> {
    (one - one * other) - common
  }

  /** The sets collected for two snapshots, including the blobs of the root trees. */
  ghost function Compare(s: Store, rank: ID -> nat, id1: ID, id2: ID): Sets
    requires Ranked(s, rank)
  {
    Plus(EMPTY.(before := {TreeBlob(id1)}, after := {TreeBlob(id2)}), Walk(s, rank, id1, id2))
  }

  ghost predicate Removed(s: Store, rank: ID -> nat, id1: ID, id2: ID)
    requires Ranked(s, rank)
  {
    var w := Compare(s, rank, id1, id2);
    Reported(w.before, w.after, w.common) == Reach(s, rank, id1) - Reach(s, rank, id2)
  }

  ghost predicate Added(s: Store, rank: ID -> nat, id1: ID, id2: ID)
    requires Ranked(s, rank)
  {
    var w := Compare(s, rank, id1, id2);
    Reported(w.after, w.before, w.common) == Reach(s, rank, id2) - Reach(s, rank, id1)
  }

  /** The condition for a correct report in terms of the sets that the walk collects. */
  lemma ReportedBySets(s: Store, rank: ID -> nat, id1: ID, id2: ID)
    requires Ranked(s, rank) && NodesOk(s) && Loads(s, rank, id1) && Loads(s, rank, id2)
    ensures var w := Compare(s, rank, id1, id2);
      && (Removed(s, rank, id1, id2) <==>
            w.missed1 <= w.before + Reach(s, rank, id2) && w.missed2 * w.before <= w.after + w.common)
      && (Added(s, rank, id1, id2) <==>
            w.missed2 <= w.after + Reach(s, rank, id1) && w.missed1 * w.after <= w.before + w.common)
  {
    WalkCovers(s, rank, id1, id2);
    var w := Compare(s, rank, id1, id2);
    assert Covers(w, Reach(s, rank, id1), Reach(s, rank, id2));
    ReportedAlgebra(w.before, w.after, w.common, w.missed1, w.missed2, Reach(s, rank, id1), Reach(s, rank, id2));
    ReportedAlgebra(w.after, w.before, w.common, w.missed2, w.missed1, Reach(s, rank, id2), Reach(s, rank, id1));
  }

  lemma ReportedAlgebra(one: set<Blob>, other: set<Blob>, common: set<Blob>, missedOne: set<Blob>, missedOther: set<Blob>, reachOne: set<Blob>, reachOther: set<Blob>)
    requires one + common + missedOne == reachOne && other + common + missedOther == reachOther
    ensures Reported(one, other, common) == reachOne - reachOther <==>
      missedOne <= one + reachOther && missedOther * one <= other + common
  {
    if Reported(one, other, common) == reachOne - reachOther {
      forall b | b in missedOne ensures b in one + reachOther {
        assert b in reachOne;
        assert b in reachOne - reachOther ==> b in Reported(one, other, common);
      }
      forall b | b in missedOther * one ensures b in other + common {
        assert b in reachOther;
        assert b !in reachOne - reachOther;
        assert b !in Reported(one, other, common);
      }
    }
    if missedOne <= one + reachOther && missedOther * one <= other + common {
      forall b ensures b in Reported(one, other, common) <==> b in reachOne - reachOther {
        assert b in missedOther * one <==> b in missedOther && b in one;
      }
    }
  }

  /** No name switches between directory and non-directory anywhere the two snapshots meet. */
  ghost predicate SameKinds(s: Store, rank: ID -> nat, id1: ID, id2: ID)
    requires Ranked(s, rank)
    decreases rank(id1)
  {
    id1 in s && id2 in s ==>
      forall i, j :: 0 <= i < |s[id1]| && 0 <= j < |s[id2]| && s[id1][i].name == s[id2][j].name ==>
        var a, b := s[id1][i], s[id2][j];
        && (IsDir(a) <==> IsDir(b))
        && (IsDir(a) ==> rank(a.subtree.value) < rank(id1) && SameKinds(s, rank, a.subtree.value, b.subtree.value))
  }

  ghost predicate SameKindNodes(s: Store, rank: ID -> nat, n1: seq<Node>, n2: seq<Node>)
    requires Ranked(s, rank)
  {
    forall i, j :: 0 <= i < |n1| && 0 <= j < |n2| && n1[i].name == n2[j].name ==>
      && (IsDir(n1[i]) <==> IsDir(n2[j]))
      && (IsDir(n1[i]) ==> SameKinds(s, rank, n1[i].subtree.value, n2[j].subtree.value))
  }

  lemma {:induction false} NothingMissed(s: Store, rank: ID -> nat, id1: ID, id2: ID)
    requires Ranked(s, rank) && SameKinds(s, rank, id1, id2)
    ensures Walk(s, rank, id1, id2).missed1 == {} && Walk(s, rank, id1, id2).missed2 == {}
    decreases rank(id1), 1, 0
  {
    if id1 in s && id2 in s {
      NothingMissedNodes(s, rank, s[id1], s[id2], rank(id1));
    }
  }

  lemma {:induction false} NothingMissedNodes(s: Store, rank: ID -> nat, n1: seq<Node>, n2: seq<Node>, bound: nat)
    requires Ranked(s, rank) && RankedBelow(n1, rank, bound) && SameKindNodes(s, rank, n1, n2)
    ensures WalkNodes(s, rank, n1, n2, bound).missed1 == {} && WalkNodes(s, rank, n1, n2, bound).missed2 == {}
    decreases bound, 0, |n1| + |n2|
  {
    if n1 == [] && n2 == [] {
    } else if n2 == [] || (n1 != [] && Less(n1[0].name, n2[0].name)) {
      NothingMissedNodes(s, rank, n1[1..], n2, bound);
    } else if n1 == [] || Less(n2[0].name, n1[0].name) {
      NothingMissedNodes(s, rank, n1, n2[1..], bound);
    } else {
      LessTotal(n1[0].name, n2[0].name);
      if IsDir(n1[0]) {
        NothingMissed(s, rank, n1[0].subtree.value, n2[0].subtree.value);
      }
      NothingMissedNodes(s, rank, n1[1..], n2[1..], bound);
    }
  }

  /** Without such a switch the report is right: exactly the blobs that only one of the snapshots
      reaches, although identical subtrees are never compared. */
  lemma DiffIsExact(s: Store, rank: ID -> nat, id1: ID, id2: ID)
    requires Ranked(s, rank) && NodesOk(s) && Loads(s, rank, id1) && Loads(s, rank, id2)
    requires SameKinds(s, rank, id1, id2)
    ensures Removed(s, rank, id1, id2) && Added(s, rank, id1, id2)
  {
    NothingMissed(s, rank, id1, id2);
    ReportedBySets(s, rank, id1, id2);
  }

  // ---------------------------------------------------------------------------------------
  // The walk as the program performs it
  // ---------------------------------------------------------------------------------------

  /** Which of the blob sets a recursive collection writes to. */
  datatype Target = Before | After | Common

  function Only(target: Target, blobs: set<Blob>): Sets {
    match target
    case Before => EMPTY.(before := blobs)
    case After => EMPTY.(after := blobs)
    case Common => EMPTY.(common := blobs)
  }

  /** Collecting the first of some nodes and then the rest is collecting them all. */
  lemma CollectStep(s: Store, rank: ID -> nat, nodes: seq<Node>, bound: nat, v: Sets, target: Target)
    requires Ranked(s, rank) && RankedBelow(nodes, rank, bound) && nodes != []
    ensures RankedBelow(nodes[1..], rank, bound)
    ensures Plus(Plus(v, Only(target, NodeReach(s, rank, nodes[0]))), Only(target, ReachAll(s, rank, nodes[1..], bound)))
         == Plus(v, Only(target, ReachAll(s, rank, nodes, bound)))
  {
    ReachAllSplit(s, rank, nodes, bound);
    var x, y := NodeReach(s, rank, nodes[0]), ReachAll(s, rank, nodes[1..], bound);
    PlusAssociative(v, Only(target, x), Only(target, y));
    assert Plus(Only(target, x), Only(target, y)) == Only(target, x + y);
  }

  /** The three blob sets that the recursive walks fill in. */
  class Comparer {
    const repo: Store
    var before: set<Blob>
    var after: set<Blob>
    var common: set<Blob>
    ghost var missed1: set<Blob>
    ghost var missed2: set<Blob>

    ghost function View(): Sets
      reads this
    {
      Sets(before, after, common, missed1, missed2)
    }

    constructor (repo: Store)
      ensures this.repo == repo && View() == EMPTY
    {
      this.repo := repo;
      before, after, common, missed1, missed2 := {}, {}, {}, {}, {};
    }

    method AddBlobs(target: Target, n: Node)
      modifies this
      ensures View() == Plus(old(View()), Only(target, OwnBlobs(n)))
    {
      match target {
        case Before => before := before + OwnBlobs(n);
        case After => after := after + OwnBlobs(n);
        case Common => common := common + OwnBlobs(n);
      }
    }

    /** One node of a collected directory, with everything below it. */
    method CollectNode(target: Target, n: Node, ghost rank: ID -> nat, ghost bound: nat)
      requires Ranked(repo, rank) && NodesOk(repo) && NodeOk(n) && (IsDir(n) ==> rank(n.subtree.value) < bound)
      modifies this
      ensures View() == Plus(old(View()), Only(target, NodeReach(repo, rank, n)))
      decreases bound, 0
    {
      AddBlobs(target, n);
      ghost var v := View();
      OwnAndBelow(repo, rank, n);
      if n.kind.Dir? {
        var _ := CollectDir(target, n.subtree.value, rank);
      }
      assert View() == Plus(v, Only(target, Below(repo, rank, n)));
    }

    /** Collects the blobs below a directory: into the common set for an identical subtree, into
        one side's set for a subtree that only this side has.  A tree that cannot be loaded adds
        nothing. */
    method CollectDir(target: Target, id: ID, ghost rank: ID -> nat) returns (failed: bool)
      requires Ranked(repo, rank) && NodesOk(repo)
      modifies this
      ensures failed <==> id !in repo
      ensures View() == Plus(old(View()), Only(target, if failed then {} else ReachAll(repo, rank, repo[id], rank(id))))
      decreases rank(id), 1
    {
      if id !in repo {
        return true;
      }
      var nodes := repo[id];
      for i := 0 to |nodes|
        invariant RankedBelow(nodes[i..], rank, rank(id))
        invariant Plus(View(), Only(target, ReachAll(repo, rank, nodes[i..], rank(id))))
               == Plus(old(View()), Only(target, ReachAll(repo, rank, nodes, rank(id))))
      {
        CollectStep(repo, rank, nodes[i..], rank(id), View(), target);
        assert nodes[i..][1..] == nodes[i + 1..];
        CollectNode(target, nodes[i], rank, rank(id));
      }
      return false;
    }

    /** Two nodes of the same name: a common subtree is only collected, different subtrees are
        compared, and anything else is not followed. */
    method DiffPair(a: Node, b: Node, ghost rank: ID -> nat, ghost bound: nat)
      requires Ranked(repo, rank) && NodesOk(repo) && NodeOk(a) && NodeOk(b) && (IsDir(a) ==> rank(a.subtree.value) < bound)
      modifies this
      ensures View() == Plus(old(View()), WalkPair(repo, rank, a, b, bound))
      decreases bound, 0
    {
      AddBlobs(Before, a);
      AddBlobs(After, b);
      ghost var own := EMPTY.(before := OwnBlobs(a), after := OwnBlobs(b));
      assert View() == Plus(old(View()), own);
      if a.kind.Dir? && b.kind.Dir? {
        if a.subtree == b.subtree {
          var _ := CollectDir(Common, a.subtree.value, rank);
          assert View() == Plus(Plus(old(View()), own), Only(Common, Below(repo, rank, a)));
          PlusAssociative(old(View()), own, Only(Common, Below(repo, rank, a)));
          assert Plus(own, Only(Common, Below(repo, rank, a))) == own.(common := Below(repo, rank, a));
        } else {
          var _ := DiffTree(a.subtree.value, b.subtree.value, rank);
          PlusAssociative(old(View()), own, Walk(repo, rank, a.subtree.value, b.subtree.value));
        }
      } else {
        missed1, missed2 := missed1 + Below(repo, rank, a), missed2 + Below(repo, rank, b);
      }
    }

    /** Walks the two trees in step, paired by name as the dual iterator does. */
    method DiffTree(id1: ID, id2: ID, ghost rank: ID -> nat) returns (failed: bool)
      requires Ranked(repo, rank) && NodesOk(repo)
      modifies this
      ensures failed <==> id1 !in repo || id2 !in repo
      ensures View() == Plus(old(View()), Walk(repo, rank, id1, id2))
      decreases rank(id1), 1
    {
      if id1 !in repo || id2 !in repo {
        return true;
      }
      var n1, n2 := repo[id1], repo[id2];
      var i, j := 0, 0;
      while i < |n1| || j < |n2|
        invariant i <= |n1| && j <= |n2| && RankedBelow(n1[i..], rank, rank(id1))
        invariant Plus(View(), WalkNodes(repo, rank, n1[i..], n2[j..], rank(id1))) == Plus(old(View()), Walk(repo, rank, id1, id2))
        decreases |n1| - i + |n2| - j
      {
        ghost var v, bound := View(), rank(id1);
        if j == |n2| || (i < |n1| && Less(n1[i].name, n2[j].name)) {
          WalkStep(repo, rank, n1[i..], n2[j..], bound, v, OnlyBefore(repo, rank, n1[i]), n1[i + 1..], n2[j..]);
          OwnAndBelow(repo, rank, n1[i]);
          CollectNode(Before, n1[i], rank, bound);
          i := i + 1;
        } else if i == |n1| || Less(n2[j].name, n1[i].name) {
          WalkStep(repo, rank, n1[i..], n2[j..], bound, v, OnlyAfter(repo, rank, n2[j]), n1[i..], n2[j + 1..]);
          OwnAndBelow(repo, rank, n2[j]);
          CollectNode(After, n2[j], rank, rank(id2));
          j := j + 1;
        } else {
          WalkStep(repo, rank, n1[i..], n2[j..], bound, v, WalkPair(repo, rank, n1[i], n2[j], bound), n1[i + 1..], n2[j + 1..]);
          DiffPair(n1[i], n2[j], rank, bound);
          i, j := i + 1, j + 1;
        }
      }
      return false;
    }
  }

  /** One round of the loop over two node lists. */
  lemma WalkStep(s: Store, rank: ID -> nat, n1: seq<Node>, n2: seq<Node>, bound: nat, v: Sets, own: Sets, m1: seq<Node>, m2: seq<Node>)
    requires Ranked(s, rank) && RankedBelow(n1, rank, bound) && n1 + n2 != []
    requires
      if n2 == [] || (n1 != [] && Less(n1[0].name, n2[0].name)) then own == OnlyBefore(s, rank, n1[0]) && m1 == n1[1..] && m2 == n2
      else if n1 == [] || Less(n2[0].name, n1[0].name) then own == OnlyAfter(s, rank, n2[0]) && m1 == n1 && m2 == n2[1..]
      else (IsDir(n1[0]) ==> rank(n1[0].subtree.value) < bound) && own == WalkPair(s, rank, n1[0], n2[0], bound) && m1 == n1[1..] && m2 == n2[1..]
    ensures RankedBelow(m1, rank, bound)
    ensures Plus(Plus(v, own), WalkNodes(s, rank, m1, m2, bound)) == Plus(v, WalkNodes(s, rank, n1, n2, bound))
  {
    PlusAssociative(v, own, WalkNodes(s, rank, m1, m2, bound));
  }

  /** The whole comparison: the blobs reported as removed and as added. */
  method RunDiff(repo: Store, id1: ID, id2: ID, ghost rank: ID -> nat) returns (failed: bool, removed: set<Blob>, added: set<Blob>)
    requires Ranked(repo, rank) && NodesOk(repo)
    ensures failed <==> id1 !in repo || id2 !in repo
    ensures var w := Compare(repo, rank, id1, id2);
      removed == Reported(w.before, w.after, w.common) && added == Reported(w.after, w.before, w.common)
    ensures SortedStore(repo) ==> forall b ::
      && (b in removed <==> Visible(repo, rank, id1, id2, b) && !Visible(repo, rank, id2, id1, b))
      && (b in added <==> Visible(repo, rank, id2, id1, b) && !Visible(repo, rank, id1, id2, b))
    ensures Loads(repo, rank, id1) && Loads(repo, rank, id2) && SameKinds(repo, rank, id1, id2) ==>
      && !failed
      && removed == Reach(repo, rank, id1) - Reach(repo, rank, id2)
      && added == Reach(repo, rank, id2) - Reach(repo, rank, id1)
      && forall b ::
        && (b in removed <==> Reaches(repo, id1, b) && !Reaches(repo, id2, b))
        && (b in added <==> Reaches(repo, id2, b) && !Reaches(repo, id1, b))
  {
    var c := new Comparer(repo);
    c.before := c.before + {TreeBlob(id1)};
    c.after := c.after + {TreeBlob(id2)};
    failed := c.DiffTree(id1, id2, rank);
    var both := c.before * c.after;
    removed := (c.before - both) - c.common;
    added := (c.after - both) - c.common;
    assert c.View() == Compare(repo, rank, id1, id2);
    assert removed == Reported(c.before, c.after, c.common);
    assert added == Reported(c.after, c.before, c.common);
    if SortedStore(repo) {
      forall b ensures b in removed <==> Visible(repo, rank, id1, id2, b) && !Visible(repo, rank, id2, id1, b)
        ensures b in added <==> Visible(repo, rank, id2, id1, b) && !Visible(repo, rank, id1, id2, b) {
        ReportsVisible(repo, rank, id1, id2, b);
      }
    }
    if Loads(repo, rank, id1) && Loads(repo, rank, id2) && SameKinds(repo, rank, id1, id2) {
      DiffIsExact(repo, rank, id1, id2);
      DifferenceByChains(repo, rank, id1, id2);
      DifferenceByChains(repo, rank, id2, id1);
    }
  }

  lemma DifferenceByChains(s: Store, rank: ID -> nat, id1: ID, id2: ID)
    requires Ranked(s, rank)
    ensures forall b :: b in Reach(s, rank, id1) - Reach(s, rank, id2) <==> Reaches(s, id1, b) && !Reaches(s, id2, b)
  {
    forall b ensures b in Reach(s, rank, id1) - Reach(s, rank, id2) <==> Reaches(s, id1, b) && !Reaches(s, id2, b) {
      ReachByChains(s, rank, id1, b);
      ReachByChains(s, rank, id2, b);
    }
  }

  function SizeOf(sizes: map<Blob, nat>, b: Blob): nat {
    if b in sizes then sizes[b] else 0
  }

  ghost function TotalSize(sizes: map<Blob, nat>, blobs: set<Blob>): nat {
    if blobs == {} then 0 else
      var b :| b in blobs;
      SizeOf(sizes, b) + TotalSize(sizes, blobs - {b})
  }

  lemma {:induction false} TotalSizeRemove(sizes: map<Blob, nat>, blobs: set<Blob>, b: Blob)
    requires b in blobs
    ensures TotalSize(sizes, blobs) == SizeOf(sizes, b) + TotalSize(sizes, blobs - {b})
    decreases blobs
  {
    var c :| c in blobs && TotalSize(sizes, blobs) == SizeOf(sizes, c) + TotalSize(sizes, blobs - {c});
    if c != b {
      TotalSizeRemove(sizes, blobs - {c}, b);
      TotalSizeRemove(sizes, blobs - {b}, c);
      assert blobs - {c} - {b} == blobs - {b} - {c};
    }
  }

  ghost function DataOf(blobs: set<Blob>): set<Blob> {
    set b | b in blobs && b.DataBlob?
  }

  ghost function TreesOf(blobs: set<Blob>): set<Blob> {
    set b | b in blobs && b.TreeBlob?
  }

  lemma KindsRemove(blobs: set<Blob>, b: Blob)
    requires b in blobs
    ensures |DataOf(blobs)| == |DataOf(blobs - {b})| + (if b.DataBlob? then 1 else 0)
    ensures |TreesOf(blobs)| == |TreesOf(blobs - {b})| + (if b.TreeBlob? then 1 else 0)
  {
    assert DataOf(blobs) == if b.DataBlob? then DataOf(blobs - {b}) + {b} else DataOf(blobs - {b});
    assert TreesOf(blobs) == if b.TreeBlob? then TreesOf(blobs - {b}) + {b} else TreesOf(blobs - {b});
  }

  /** The counters shown for a set of blobs; blobs of unknown size count, but add no bytes. */
  method UpdateBlobs(blobs: set<Blob>, sizes: map<Blob, nat>) returns (dataBlobs: nat, treeBlobs: nat, bytes: nat)
    ensures dataBlobs == |DataOf(blobs)| && treeBlobs == |TreesOf(blobs)|
    ensures bytes == TotalSize(sizes, blobs)
  {
    dataBlobs, treeBlobs, bytes := 0, 0, 0;
    var left := blobs;
    while left != {}
      invariant left <= blobs
      invariant dataBlobs + |DataOf(left)| == |DataOf(blobs)|
      invariant treeBlobs + |TreesOf(left)| == |TreesOf(blobs)|
      invariant bytes + TotalSize(sizes, left) == TotalSize(sizes, blobs)
      decreases left
    {
      var b :| b in left;
      TotalSizeRemove(sizes, left, b);
      KindsRemove(left, b);
      match b {
        case DataBlob(_) => dataBlobs := dataBlobs + 1;
        case TreeBlob(_) => treeBlobs := treeBlobs + 1;
      }
      if b in sizes {
        bytes := bytes + sizes[b];
      }
      left := left - {b};
    }
  }

  // ---------------------------------------------------------------------------------------
  // What a snapshot shows and what it hides
  // ---------------------------------------------------------------------------------------

  predicate HasName(nodes: seq<Node>, name: string) {
    exists j :: 0 <= j < |nodes| && nodes[j].name == name
  }

  /** Whether tree `id`, laid beside tree `other`, has the blob in a hidden place or in a visible one.
      Hidden is what lies below a directory that meets something else under the same path, at any
      depth; everything else is visible. */
  ghost predicate Has(s: Store, rank: ID -> nat, id: ID, other: ID, b: Blob, hidden: bool)
    requires Ranked(s, rank)
    decreases rank(id), 2
  {
    id in s && other in s && NodesHave(s, rank, s[id], s[other], b, hidden, rank(id))
  }

  ghost predicate NodesHave(s: Store, rank: ID -> nat, nodes: seq<Node>, others: seq<Node>, b: Blob, hidden: bool, bound: nat)
    requires Ranked(s, rank) && RankedBelow(nodes, rank, bound)
    decreases bound, 1, 1
  {
    exists i :: 0 <= i < |nodes| && NodeHas(s, rank, nodes[i], others, b, hidden, bound)
  }

  ghost predicate NodeHas(s: Store, rank: ID -> nat, a: Node, others: seq<Node>, b: Blob, hidden: bool, bound: nat)
    requires Ranked(s, rank) && (IsDir(a) ==> rank(a.subtree.value) < bound)
    decreases bound, 1, 0
  {
    || (!hidden && b in OwnBlobs(a))
    || (!hidden && !HasName(others, a.name) && b in Below(s, rank, a))
    || exists j :: 0 <= j < |others| && others[j].name == a.name && MeetingHas(s, rank, a, others[j], b, hidden, bound)
  }

  /** What `a` has below it when `c` is the node of the same name. */
  ghost predicate MeetingHas(s: Store, rank: ID -> nat, a: Node, c: Node, b: Blob, hidden: bool, bound: nat)
    requires Ranked(s, rank) && (IsDir(a) ==> rank(a.subtree.value) < bound)
    decreases bound, 0
  {
    IsDir(a) &&
    if !IsDir(c) then hidden && b in Below(s, rank, a)
    else if a.subtree == c.subtree then !hidden && b in Below(s, rank, a)
    else Has(s, rank, a.subtree.value, c.subtree.value, b, hidden)
  }

  /** The blob occurs in a visible place; the root tree always does. */
  ghost predicate Visible(s: Store, rank: ID -> nat, id: ID, other: ID, b: Blob)
    requires Ranked(s, rank)
  {
    b == TreeBlob(id) || Has(s, rank, id, other, b, false)
  }

  ghost predicate Hidden(s: Store, rank: ID -> nat, id: ID, other: ID, b: Blob)
    requires Ranked(s, rank)
  {
    Has(s, rank, id, other, b, true)
  }

  ghost predicate SortedStore(s: Store) {
    forall id :: id in s ==> Sorted(s[id])
  }

  // ---------------------------------------------------------------------------------------
  // The walk collects what is visible and misses what is hidden
  // ---------------------------------------------------------------------------------------

  function First(w: Sets, hidden: bool): set<Blob> {
    if hidden then w.missed1 else w.before + w.common
  }

  function Second(w: Sets, hidden: bool): set<Blob> {
    if hidden then w.missed2 else w.after + w.common
  }

  lemma SidesPlus(w: Sets, v: Sets, hidden: bool)
    ensures First(Plus(w, v), hidden) == First(w, hidden) + First(v, hidden)
    ensures Second(Plus(w, v), hidden) == Second(w, hidden) + Second(v, hidden)
  {
  }

  lemma SortedTail(nodes: seq<Node>)
    requires Sorted(nodes) && nodes != []
    ensures Sorted(nodes[1..])
  {
    assert forall i :: 0 <= i < |nodes[1..]| ==> nodes[1..][i] == nodes[i + 1];
  }

  /** A head of another name does not matter. */
  lemma DropOther(s: Store, rank: ID -> nat, a: Node, others: seq<Node>, b: Blob, hidden: bool, bound: nat)
    requires Ranked(s, rank) && (IsDir(a) ==> rank(a.subtree.value) < bound) && others != [] && others[0].name != a.name
    ensures NodeHas(s, rank, a, others, b, hidden, bound) <==> NodeHas(s, rank, a, others[1..], b, hidden, bound)
  {
    var rest := others[1..];
    assert forall j :: 0 <= j < |rest| ==> rest[j] == others[j + 1];
    if j :| 0 <= j < |others| && others[j].name == a.name && MeetingHas(s, rank, a, others[j], b, hidden, bound) {
      assert rest[j - 1] == others[j];
    }
    if j :| 0 <= j < |rest| && rest[j].name == a.name && MeetingHas(s, rank, a, rest[j], b, hidden, bound) {
      assert others[j + 1] == rest[j];
    }
    DropName(others, a.name);
  }

  lemma DropName(nodes: seq<Node>, name: string)
    requires nodes != [] && nodes[0].name != name
    ensures HasName(nodes, name) <==> HasName(nodes[1..], name)
  {
    var rest := nodes[1..];
    if j :| 0 <= j < |nodes| && nodes[j].name == name {
      assert rest[j - 1].name == name;
    }
    if j :| 0 <= j < |rest| && rest[j].name == name {
      assert nodes[j + 1].name == name;
    }
  }

  /** The other list loses a head that no node is paired with. */
  lemma DropUnpaired(s: Store, rank: ID -> nat, nodes: seq<Node>, others: seq<Node>, b: Blob, hidden: bool, bound: nat)
    requires Ranked(s, rank) && RankedBelow(nodes, rank, bound) && others != []
    requires forall i :: 0 <= i < |nodes| ==> nodes[i].name != others[0].name
    ensures NodesHave(s, rank, nodes, others, b, hidden, bound) <==> NodesHave(s, rank, nodes, others[1..], b, hidden, bound)
  {
    forall i | 0 <= i < |nodes|
      ensures NodeHas(s, rank, nodes[i], others, b, hidden, bound) <==> NodeHas(s, rank, nodes[i], others[1..], b, hidden, bound) {
      DropOther(s, rank, nodes[i], others, b, hidden, bound);
    }
  }

  lemma SplitHead(s: Store, rank: ID -> nat, nodes: seq<Node>, others: seq<Node>, b: Blob, hidden: bool, bound: nat)
    requires Ranked(s, rank) && RankedBelow(nodes, rank, bound) && nodes != []
    ensures RankedBelow(nodes[1..], rank, bound) && (IsDir(nodes[0]) ==> rank(nodes[0].subtree.value) < bound)
    ensures NodesHave(s, rank, nodes, others, b, hidden, bound) <==>
      NodeHas(s, rank, nodes[0], others, b, hidden, bound) || NodesHave(s, rank, nodes[1..], others, b, hidden, bound)
  {
    var rest := nodes[1..];
    assert forall i :: 0 <= i < |rest| ==> rest[i] == nodes[i + 1];
    if i :| 0 <= i < |nodes| && NodeHas(s, rank, nodes[i], others, b, hidden, bound) {
      assert i > 0 ==> rest[i - 1] == nodes[i];
    }
    if i :| 0 <= i < |rest| && NodeHas(s, rank, rest[i], others, b, hidden, bound) {
      assert nodes[i + 1] == rest[i];
    }
  }

  /** A name less than the head of a sorted list is not in the list. */
  lemma NotThere(nodes: seq<Node>, name: string)
    requires Sorted(nodes) && (nodes != [] ==> Less(name, nodes[0].name))
    ensures forall j :: 0 <= j < |nodes| ==> nodes[j].name != name
    ensures !HasName(nodes, name)
  {
    forall j | 0 <= j < |nodes| ensures nodes[j].name != name {
      if j > 0 {
        LessTransitive(name, nodes[0].name, nodes[j].name);
      }
      LessTotal(name, nodes[j].name);
    }
  }

  lemma NotInTail(nodes: seq<Node>)
    requires Sorted(nodes) && nodes != []
    ensures forall j :: 0 <= j < |nodes[1..]| ==> nodes[1..][j].name != nodes[0].name
  {
    SortedTail(nodes);
    NotThere(nodes[1..], nodes[0].name);
  }

  /** A node without a partner is visible with all that is below it. */
  lemma LoneHas(s: Store, rank: ID -> nat, a: Node, others: seq<Node>, b: Blob, hidden: bool, bound: nat)
    requires Ranked(s, rank) && (IsDir(a) ==> rank(a.subtree.value) < bound) && !HasName(others, a.name)
    ensures NodeHas(s, rank, a, others, b, hidden, bound) <==> !hidden && b in OwnBlobs(a) + Below(s, rank, a)
  {
  }

  /** A node whose partner is the head of the other list. */
  lemma PairedHas(s: Store, rank: ID -> nat, a: Node, others: seq<Node>, b: Blob, hidden: bool, bound: nat)
    requires Ranked(s, rank) && (IsDir(a) ==> rank(a.subtree.value) < bound)
    requires Sorted(others) && others != [] && others[0].name == a.name
    ensures NodeHas(s, rank, a, others, b, hidden, bound) <==>
      (!hidden && b in OwnBlobs(a)) || MeetingHas(s, rank, a, others[0], b, hidden, bound)
  {
    NotInTail(others);
    assert forall j :: 0 < j < |others| ==> others[j] == others[1..][j - 1];
    assert HasName(others, a.name);
  }

  lemma {:induction false} WalkFinds(s: Store, rank: ID -> nat, id1: ID, id2: ID, b: Blob, hidden: bool)
    requires Ranked(s, rank) && SortedStore(s)
    ensures b in First(Walk(s, rank, id1, id2), hidden) <==> Has(s, rank, id1, id2, b, hidden)
    ensures b in Second(Walk(s, rank, id1, id2), hidden) <==> Has(s, rank, id2, id1, b, hidden)
    decreases rank(id1), 2, 0
  {
    if id1 in s && id2 in s {
      WalkNodesFind(s, rank, s[id1], s[id2], rank(id1), rank(id2), b, hidden);
    }
  }

  lemma {:induction false} WalkNodesFind(s: Store, rank: ID -> nat, n1: seq<Node>, n2: seq<Node>, bound: nat, bound2: nat, b: Blob, hidden: bool)
    requires Ranked(s, rank) && SortedStore(s) && Sorted(n1) && Sorted(n2)
    requires RankedBelow(n1, rank, bound) && RankedBelow(n2, rank, bound2)
    ensures b in First(WalkNodes(s, rank, n1, n2, bound), hidden) <==> NodesHave(s, rank, n1, n2, b, hidden, bound)
    ensures b in Second(WalkNodes(s, rank, n1, n2, bound), hidden) <==> NodesHave(s, rank, n2, n1, b, hidden, bound2)
    decreases bound, 1, |n1| + |n2|
  {
    if n1 == [] && n2 == [] {
    } else if n2 == [] || (n1 != [] && Less(n1[0].name, n2[0].name)) {
      SortedTail(n1);
      NotThere(n2, n1[0].name);
      SplitHead(s, rank, n1, n2, b, hidden, bound);
      LoneHas(s, rank, n1[0], n2, b, hidden, bound);
      DropUnpaired(s, rank, n2, n1, b, hidden, bound2);
      WalkNodesFind(s, rank, n1[1..], n2, bound, bound2, b, hidden);
      SidesPlus(OnlyBefore(s, rank, n1[0]), WalkNodes(s, rank, n1[1..], n2, bound), hidden);
    } else if n1 == [] || Less(n2[0].name, n1[0].name) {
      SortedTail(n2);
      NotThere(n1, n2[0].name);
      SplitHead(s, rank, n2, n1, b, hidden, bound2);
      LoneHas(s, rank, n2[0], n1, b, hidden, bound2);
      DropUnpaired(s, rank, n1, n2, b, hidden, bound);
      WalkNodesFind(s, rank, n1, n2[1..], bound, bound2, b, hidden);
      SidesPlus(OnlyAfter(s, rank, n2[0]), WalkNodes(s, rank, n1, n2[1..], bound), hidden);
    } else {
      LessTotal(n1[0].name, n2[0].name);
      PairStep(s, rank, n1, n2, bound, b, hidden);
      PairStep(s, rank, n2, n1, bound2, b, hidden);
      SortedTail(n1);
      SortedTail(n2);
      WalkPairFinds(s, rank, n1[0], n2[0], bound, bound2, b, hidden);
      WalkNodesFind(s, rank, n1[1..], n2[1..], bound, bound2, b, hidden);
      SidesPlus(WalkPair(s, rank, n1[0], n2[0], bound), WalkNodes(s, rank, n1[1..], n2[1..], bound), hidden);
    }
  }

  /** Two heads of the same name can be taken off together. */
  lemma PairStep(s: Store, rank: ID -> nat, nodes: seq<Node>, others: seq<Node>, bound: nat, b: Blob, hidden: bool)
    requires Ranked(s, rank) && RankedBelow(nodes, rank, bound) && Sorted(nodes) && Sorted(others)
    requires nodes != [] && others != [] && nodes[0].name == others[0].name
    ensures RankedBelow(nodes[1..], rank, bound) && (IsDir(nodes[0]) ==> rank(nodes[0].subtree.value) < bound)
    ensures NodesHave(s, rank, nodes, others, b, hidden, bound) <==>
      || (!hidden && b in OwnBlobs(nodes[0]))
      || MeetingHas(s, rank, nodes[0], others[0], b, hidden, bound)
      || NodesHave(s, rank, nodes[1..], others[1..], b, hidden, bound)
  {
    SplitHead(s, rank, nodes, others, b, hidden, bound);
    PairedHas(s, rank, nodes[0], others, b, hidden, bound);
    NotInTail(nodes);
    DropUnpaired(s, rank, nodes[1..], others, b, hidden, bound);
  }

  lemma {:induction false} WalkPairFinds(s: Store, rank: ID -> nat, a: Node, c: Node, bound: nat, bound2: nat, b: Blob, hidden: bool)
    requires Ranked(s, rank) && SortedStore(s)
    requires (IsDir(a) ==> rank(a.subtree.value) < bound) && (IsDir(c) ==> rank(c.subtree.value) < bound2)
    ensures b in First(WalkPair(s, rank, a, c, bound), hidden) <==>
      (!hidden && b in OwnBlobs(a)) || MeetingHas(s, rank, a, c, b, hidden, bound)
    ensures b in Second(WalkPair(s, rank, a, c, bound), hidden) <==>
      (!hidden && b in OwnBlobs(c)) || MeetingHas(s, rank, c, a, b, hidden, bound2)
    decreases bound, 0, 0
  {
    if IsDir(a) && IsDir(c) && a.subtree != c.subtree {
      WalkFinds(s, rank, a.subtree.value, c.subtree.value, b, hidden);
      SidesPlus(EMPTY.(before := OwnBlobs(a), after := OwnBlobs(c)), Walk(s, rank, a.subtree.value, c.subtree.value), hidden);
    }
  }

  // ---------------------------------------------------------------------------------------
  // The exact condition for a right report
  // ---------------------------------------------------------------------------------------

  /** The sets of a whole comparison, blob by blob. */
  lemma CompareFinds(s: Store, rank: ID -> nat, id1: ID, id2: ID, b: Blob)
    requires Ranked(s, rank) && SortedStore(s)
    ensures var w := Compare(s, rank, id1, id2);
      && (b in w.before + w.common <==> Visible(s, rank, id1, id2, b)) && (b in w.missed1 <==> Hidden(s, rank, id1, id2, b))
      && (b in w.after + w.common <==> Visible(s, rank, id2, id1, b)) && (b in w.missed2 <==> Hidden(s, rank, id2, id1, b))
  {
    WalkFinds(s, rank, id1, id2, b, false);
    WalkFinds(s, rank, id1, id2, b, true);
  }

  /** A snapshot reaches what it shows and what it hides. */
  lemma ReachIsVisibleOrHidden(s: Store, rank: ID -> nat, id1: ID, id2: ID, b: Blob)
    requires Ranked(s, rank) && SortedStore(s) && NodesOk(s) && Loads(s, rank, id1) && Loads(s, rank, id2)
    ensures b in Reach(s, rank, id1) <==> Visible(s, rank, id1, id2, b) || Hidden(s, rank, id1, id2, b)
    ensures b in Reach(s, rank, id2) <==> Visible(s, rank, id2, id1, b) || Hidden(s, rank, id2, id1, b)
  {
    WalkCovers(s, rank, id1, id2);
    CompareFinds(s, rank, id1, id2, b);
    var w := Compare(s, rank, id1, id2);
    assert Covers(w, Reach(s, rank, id1), Reach(s, rank, id2));
  }

  ghost function ReportedRemoved(s: Store, rank: ID -> nat, id1: ID, id2: ID): set<Blob>
    requires Ranked(s, rank)
  {
    var w := Compare(s, rank, id1, id2);
    Reported(w.before, w.after, w.common)
  }

  ghost function ReportedAdded(s: Store, rank: ID -> nat, id1: ID, id2: ID): set<Blob>
    requires Ranked(s, rank)
  {
    var w := Compare(s, rank, id1, id2);
    Reported(w.after, w.before, w.common)
  }

  /** For any two snapshots: reported as removed is what the first shows and the second does not, and as
      added the other way round. */
  lemma ReportsVisible(s: Store, rank: ID -> nat, id1: ID, id2: ID, b: Blob)
    requires Ranked(s, rank) && SortedStore(s)
    ensures b in ReportedRemoved(s, rank, id1, id2) <==> Visible(s, rank, id1, id2, b) && !Visible(s, rank, id2, id1, b)
    ensures b in ReportedAdded(s, rank, id1, id2) <==> Visible(s, rank, id2, id1, b) && !Visible(s, rank, id1, id2, b)
  {
    CompareFinds(s, rank, id1, id2, b);
  }

  /** Some blob of `id` alone is hidden there, or some blob that `other` has as well is hidden in it. */
  ghost predicate Misled(s: Store, rank: ID -> nat, id: ID, other: ID, b: Blob)
    requires Ranked(s, rank)
  {
    || (Hidden(s, rank, id, other, b) && !Visible(s, rank, id, other, b) && b !in Reach(s, rank, other))
    || (Hidden(s, rank, other, id, b) && !Visible(s, rank, other, id, b) && Visible(s, rank, id, other, b))
  }

  /** Blob by blob, the report of what `id1` alone has is wrong exactly when a type change hides the
      blob on one side: it is then missing from the report or reported although both have it. */
  lemma WrongWhenMisled(s: Store, rank: ID -> nat, id1: ID, id2: ID, b: Blob)
    requires Ranked(s, rank) && SortedStore(s) && NodesOk(s) && Loads(s, rank, id1) && Loads(s, rank, id2)
    ensures (b in ReportedRemoved(s, rank, id1, id2) <==> b in Reach(s, rank, id1) - Reach(s, rank, id2)) <==> !Misled(s, rank, id1, id2, b)
    ensures (b in ReportedAdded(s, rank, id1, id2) <==> b in Reach(s, rank, id2) - Reach(s, rank, id1)) <==> !Misled(s, rank, id2, id1, b)
  {
    ReportsVisible(s, rank, id1, id2, b);
    ReachIsVisibleOrHidden(s, rank, id1, id2, b);
  }

  /** The exact condition for a right report, on the trees alone. */
  lemma ReportedExactly(s: Store, rank: ID -> nat, id1: ID, id2: ID)
    requires Ranked(s, rank) && SortedStore(s) && NodesOk(s) && Loads(s, rank, id1) && Loads(s, rank, id2)
    ensures Removed(s, rank, id1, id2) <==> forall b :: !Misled(s, rank, id1, id2, b)
    ensures Added(s, rank, id1, id2) <==> forall b :: !Misled(s, rank, id2, id1, b)
  {
    forall b ensures (b in ReportedRemoved(s, rank, id1, id2) <==> b in Reach(s, rank, id1) - Reach(s, rank, id2)) <==> !Misled(s, rank, id1, id2, b)
      ensures (b in ReportedAdded(s, rank, id1, id2) <==> b in Reach(s, rank, id2) - Reach(s, rank, id1)) <==> !Misled(s, rank, id2, id1, b) {
      WrongWhenMisled(s, rank, id1, id2, b);
    }
    assert Removed(s, rank, id1, id2) <==> ReportedRemoved(s, rank, id1, id2) == Reach(s, rank, id1) - Reach(s, rank, id2);
    assert Added(s, rank, id1, id2) <==> ReportedAdded(s, rank, id1, id2) == Reach(s, rank, id2) - Reach(s, rank, id1);
  }

  /** So whenever a directory becomes something else, at any depth, a blob that is only below such
      directories and that the second snapshot does not use is not reported as removed. */
  lemma TypeChangeIsMissed(s: Store, rank: ID -> nat, id1: ID, id2: ID, b: Blob)
    requires Ranked(s, rank) && SortedStore(s) && NodesOk(s) && Loads(s, rank, id1) && Loads(s, rank, id2)
    requires Hidden(s, rank, id1, id2, b) && !Visible(s, rank, id1, id2, b) && b !in Reach(s, rank, id2)
    ensures b in Reach(s, rank, id1) - Reach(s, rank, id2) && b !in ReportedRemoved(s, rank, id1, id2)
    ensures !Removed(s, rank, id1, id2)
  {
    ReportsVisible(s, rank, id1, id2, b);
    ReachIsVisibleOrHidden(s, rank, id1, id2, b);
  }

  const D_X: Node := Node("x", File, [7], None, 0)
  const D_DIR: Node := Node("d", Dir, [], Some(1), 0)
  const D_FILE: Node := Node("d", File, [], None, 0)

  /** Tree 2 holds `d/x` with one data blob, and tree 3 a file `d`. */
  const CHANGED: Store := map[1 := [D_X], 2 := [D_DIR], 3 := [D_FILE]]

  ghost function OwnID(id: ID): nat {
    id
  }

  lemma ChangedLoads()
    ensures Ranked(CHANGED, OwnID) && SortedStore(CHANGED) && NodesOk(CHANGED)
    ensures Loads(CHANGED, OwnID, 2) && Loads(CHANGED, OwnID, 3)
  {
    assert Loads(CHANGED, OwnID, 1);
  }

  lemma ChangedReach()
    requires Ranked(CHANGED, OwnID)
    ensures DataBlob(7) in Below(CHANGED, OwnID, D_DIR) && DataBlob(7) !in Reach(CHANGED, OwnID, 3)
  {
    ReachAllSplit(CHANGED, OwnID, [D_X], 1);
    assert 7 in D_X.content;
    ReachAllSplit(CHANGED, OwnID, [D_FILE], 3);
    assert ReachAll(CHANGED, OwnID, [D_FILE][1..], 3) == {};
  }

  lemma ChangedHides()
    requires Ranked(CHANGED, OwnID) && DataBlob(7) in Below(CHANGED, OwnID, D_DIR)
    ensures Hidden(CHANGED, OwnID, 2, 3, DataBlob(7)) && !Visible(CHANGED, OwnID, 2, 3, DataBlob(7))
  {
    assert MeetingHas(CHANGED, OwnID, D_DIR, CHANGED[3][0], DataBlob(7), true, 2);
    assert NodeHas(CHANGED, OwnID, CHANGED[2][0], CHANGED[3], DataBlob(7), true, 2);
    assert CHANGED[3][0].name == "d" && HasName(CHANGED[3], "d");
    assert !NodeHas(CHANGED, OwnID, CHANGED[2][0], CHANGED[3], DataBlob(7), false, 2);
    assert !NodesHave(CHANGED, OwnID, CHANGED[2], CHANGED[3], DataBlob(7), false, 2);
    assert NodesHave(CHANGED, OwnID, CHANGED[2], CHANGED[3], DataBlob(7), true, 2);
  }

  /** The data blob is not reported as removed. */
  lemma TypeChangeExample()
    ensures Ranked(CHANGED, OwnID) && !Removed(CHANGED, OwnID, 2, 3)
  {
    ChangedLoads();
    ChangedReach();
    ChangedHides();
    TypeChangeIsMissed(CHANGED, OwnID, 2, 3, DataBlob(7));
  }
}
