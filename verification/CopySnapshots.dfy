/**
 Copying snapshots to another repository.

 Snapshots are copied in batches.  Trees that an earlier snapshot or batch has visited are
 not visited again, blobs become durable at the latest when their batch is flushed, and the
 snapshots of a batch are saved only after that.  A blob that the source's index does not list
 is passed over without an error, so a saved snapshot has all its blobs exactly if each of them
 was in the destination before or is listed by the source.
 */
module CopySnapshots {
  import opened SnapshotStore
  import opened Wrappers

  datatype Snapshot = Snapshot(id: ID, tree: ID, parent: Option<ID>, original: Option<ID>, meta: nat)

  /** What the iterator over the selected snapshots yields. */
  datatype Selected = Chosen(snapshot: Snapshot) | Broken

  /** The snapshot as it is saved in the destination. */
  function Copied(sn: Snapshot): Snapshot {
    sn.(parent := None, original := if sn.original.None? then Some(sn.id) else sn.original)
  }

  /** `c` stands in the destination for `sn`: the same tree, no parent, and as its original the first snapshot
      in the chain of copies. */
  predicate IsCopy(c: Snapshot, sn: Snapshot) {
    && c.tree == sn.tree && c.meta == sn.meta && c.parent.None?
    && (if sn.original.Some? then c.original == sn.original else c.original == Some(sn.id))
  }

  /** What an observer of the destination sees. */
  datatype Observed = Observed(blobs: set<Blob>, saved: seq<Snapshot>)

  /** What the saved snapshots from position `base` on lack is exactly what was never available. */
  ghost predicate Exact(o: Observed, base: nat, src: Store, rank: ID -> nat, available: set<Blob>)
    requires Ranked(src, rank)
  {
    forall i :: base <= i < |o.saved| ==> Lacks(o, src, rank, o.saved[i]) == Reach(src, rank, o.saved[i].tree) - available
  }

  ghost function Lacks(o: Observed, src: Store, rank: ID -> nat, sn: Snapshot): set<Blob>
    requires Ranked(src, rank)
  {
    Reach(src, rank, sn.tree) - o.blobs
  }

  /** A snapshot is complete if the destination holds everything it reaches. */
  ghost predicate Complete(o: Observed, src: Store, rank: ID -> nat, sn: Snapshot)
    requires Ranked(src, rank)
  {
    Reach(src, rank, sn.tree) <= o.blobs
  }

  lemma NothingLacking(a: set<Blob>, b: set<Blob>)
    ensures a <= b <==> a - b == {}
  {
    if a - b == {} {
      forall x | x in a ensures x in b {
        assert x !in a - b;
      }
    }
  }

  /** So a snapshot is complete exactly when everything it reaches was available. */
  lemma CompleteWhen(o: Observed, base: nat, src: Store, rank: ID -> nat, available: set<Blob>, i: nat)
    requires Ranked(src, rank) && Exact(o, base, src, rank, available) && base <= i < |o.saved|
    ensures Complete(o, src, rank, o.saved[i]) <==> Reach(src, rank, o.saved[i].tree) <= available
  {
    var reach := Reach(src, rank, o.saved[i].tree);
    assert Lacks(o, src, rank, o.saved[i]) == reach - available;
    NothingLacking(reach, o.blobs);
    NothingLacking(reach, available);
  }

  // ---------------------------------------------------------------------------------------
  // Visited trees
  // ---------------------------------------------------------------------------------------

  /** The blobs of a tree itself: the tree and its files' data, without its subtrees. */
  function OwnBlobs(id: ID, nodes: seq<Node>): set<Blob> {
    {TreeBlob(id)} + set i, d | 0 <= i < |nodes| && d in nodes[i].content :: DataBlob(d)
  }

  function Subtrees(nodes: seq<Node>): set<ID> {
    set i | 0 <= i < |nodes| && IsDir(nodes[i]) :: nodes[i].subtree.value
  }

  /** Every visited tree was loaded, its own blobs are in `have` if they are available at all, and its
      subtrees are visited or still waiting. */
  ghost predicate Visited(src: Store, available: set<Blob>, visited: set<ID>, backlog: set<ID>, have: set<Blob>) {
    forall id :: id in visited ==>
      id in src && OwnBlobs(id, src[id]) * available <= have && Subtrees(src[id]) <= visited + backlog
  }

  /** When nothing is waiting, everything available and reachable from a visited tree is there. */
  lemma {:induction false} VisitedReach(src: Store, rank: ID -> nat, available: set<Blob>, visited: set<ID>, have: set<Blob>, id: ID)
    requires Ranked(src, rank) && Visited(src, available, visited, {}, have) && id in visited
    ensures Reach(src, rank, id) * available <= have
    decreases rank(id)
  {
    var nodes := src[id];
    forall b | b in ReachAll(src, rank, nodes, rank(id)) && b in available ensures b in have {
      ReachAllMembers(src, rank, nodes, rank(id), b);
      var i :| 0 <= i < |nodes| && b in NodeReach(src, rank, nodes[i]);
      if IsDir(nodes[i]) && b in Reach(src, rank, nodes[i].subtree.value) {
        assert nodes[i].subtree.value in Subtrees(nodes);
        VisitedReach(src, rank, available, visited, have, nodes[i].subtree.value);
      } else {
        assert b in OwnBlobs(id, nodes);
      }
    }
  }

  // ---------------------------------------------------------------------------------------
  // The destination
  // ---------------------------------------------------------------------------------------

  class Destination {
    var blobs: set<Blob>
    var pending: set<Blob>
    var saved: seq<Snapshot>
    /** Whether no operation of the repositories fails. */
    const reliable: bool
    ghost var history: seq<Observed>

    /** The history ends with the present state. */
    ghost predicate Tracked()
      reads this
    {
      history != [] && history[|history| - 1] == Observed(blobs, saved)
    }

    constructor (blobs: set<Blob>, reliable: bool)
      ensures this.blobs == blobs && pending == {} && saved == [] && history == [Observed(blobs, [])]
      ensures this.reliable == reliable
    {
      this.blobs, this.reliable := blobs, reliable;
      pending, saved, history := {}, [], [Observed(blobs, [])];
    }

    /** Whether a blob is known; blobs handed to the uploader may already count as known. */
    method LookupBlob(b: Blob) returns (found: bool)
      ensures found ==> b in blobs + pending
    {
      if b in blobs {
        return true;
      }
      if b in pending {
        if * {
          return true;
        }
      }
      return false;
    }

    /** Hands the blobs that the source's index lists to the uploader; a blob that no pack holds is
        passed over.  Packs may become durable at any time, and a failure may leave any part of the
        blobs behind. */
    method CopyBlobs(copy: set<Blob>, indexed: set<Blob>) returns (failed: bool)
      modifies this
      ensures old(blobs + pending) <= blobs + pending <= old(blobs + pending) + copy * indexed
      ensures blobs >= old(blobs) && saved == old(saved)
      ensures !failed ==> copy * indexed <= blobs + pending
      ensures reliable ==> !failed
      ensures history == old(history) + [Observed(blobs, saved)]
    {
      var part: set<Blob> := *;
      part, failed := part * copy * indexed, true;
      if reliable {
        part, failed := copy * indexed, false;
      } else if * {
        part, failed := copy * indexed, false;
      }
      pending := pending + part;
      var durable: set<Blob> := *;
      durable := durable * pending;
      blobs, pending := blobs + durable, pending - durable;
      history := history + [Observed(blobs, saved)];
    }

    /** The end of the uploader's scope: everything handed over is durable, or the scope fails. */
    method Flush() returns (failed: bool)
      modifies this
      ensures blobs + pending == old(blobs + pending) && blobs >= old(blobs) && saved == old(saved)
      ensures !failed ==> blobs == old(blobs + pending) && pending == {}
      ensures reliable ==> !failed
      ensures history == old(history) + [Observed(blobs, saved)]
    {
      failed := true;
      var durable: set<Blob> := *;
      durable := durable * pending;
      if reliable {
        durable, failed := pending, false;
      } else if * {
        durable, failed := pending, false;
      }
      blobs, pending := blobs + durable, pending - durable;
      history := history + [Observed(blobs, saved)];
    }

    method SaveSnapshot(sn: Snapshot) returns (failed: bool)
      modifies this
      ensures blobs == old(blobs) && pending == old(pending)
      ensures saved == old(saved) + if failed then [] else [sn]
      ensures reliable ==> !failed
      ensures history == old(history) + [Observed(blobs, saved)]
    {
      failed := true;
      if reliable {
        failed := false;
      } else if * {
        failed := false;
      }
      if !failed {
        saved := saved + [sn];
      }
      history := history + [Observed(blobs, saved)];
    }
  }

  // ---------------------------------------------------------------------------------------
  // The copy
  // ---------------------------------------------------------------------------------------

  ghost function Elements(ids: seq<ID>): set<ID> {
    set id | id in ids
  }

  lemma VisitedGrows(src: Store, available: set<Blob>, visited: set<ID>, backlog: set<ID>, have: set<Blob>, more: set<Blob>)
    requires Visited(src, available, visited, backlog, have) && have * available <= more
    ensures Visited(src, available, visited, backlog, more)
  {
  }

  /** Taking a tree from the backlog: it becomes visited, and its subtrees join the backlog. */
  lemma VisitOne(src: Store, available: set<Blob>, visited: set<ID>, backlog: set<ID>, backlog': set<ID>, have: set<Blob>, id: ID)
    requires Visited(src, available, visited, backlog, have)
    requires id in src && OwnBlobs(id, src[id]) <= have
    requires backlog <= backlog' + {id} && Subtrees(src[id]) <= backlog'
    ensures Visited(src, available, visited + {id}, backlog', have)
  {
  }

  lemma ElementsPop(rest: seq<ID>, id: ID)
    ensures Elements(rest + [id]) == Elements(rest) + {id}
  {
  }

  lemma ElementsJoin(a: seq<ID>, b: seq<ID>)
    ensures Elements(a + b) == Elements(a) + Elements(b)
  {
  }

  /** Trees that all load, with everything below them. */
  ghost predicate AllLoad(src: Store, rank: ID -> nat, ids: set<ID>)
    requires Ranked(src, rank)
  {
    forall id :: id in ids ==> Loads(src, rank, id)
  }

  lemma SubtreesLoad(src: Store, rank: ID -> nat, id: ID)
    requires Ranked(src, rank) && Loads(src, rank, id)
    ensures AllLoad(src, rank, Subtrees(src[id]))
  {
  }

  class Copier {
    const src: Store
    /** The blobs that the source's index lists. */
    const indexed: set<Blob>
    const dst: Destination
    var visited: set<ID>
    /** The destination's blobs, and how much it had saved and seen, when the copy began. */
    ghost const start: set<Blob>
    ghost const base: nat
    ghost const since: nat

    constructor (src: Store, indexed: set<Blob>, dst: Destination)
      requires dst.pending == {} && dst.Tracked()
      ensures this.src == src && this.indexed == indexed && this.dst == dst && visited == {}
      ensures start == dst.blobs && base == |dst.saved| && since == |dst.history|
    {
      this.src, this.indexed, this.dst := src, indexed, dst;
      visited, start, base, since := {}, dst.blobs, |dst.saved|, |dst.history|;
    }

    /** Everything handed to the destination so far. */
    ghost function Have(): set<Blob>
      reads dst
    {
      dst.blobs + dst.pending
    }

    /** What was in the destination when the copy began, or can be copied. */
    ghost function Available(): set<Blob> {
      start + indexed
    }

    /** The blobs of one loaded tree that have to be copied. */
    method EnqueueTree(id: ID, copy: set<Blob>) returns (copy': set<Blob>)
      requires id in src
      ensures copy <= copy' && OwnBlobs(id, src[id]) <= dst.blobs + dst.pending + copy'
    {
      var found := dst.LookupBlob(TreeBlob(id));
      copy' := if found then copy else copy + {TreeBlob(id)};
      var nodes := src[id];
      for i := 0 to |nodes|
        invariant copy <= copy' && TreeBlob(id) in dst.blobs + dst.pending + copy'
        invariant forall k, d :: 0 <= k < i && d in nodes[k].content ==> DataBlob(d) in dst.blobs + dst.pending + copy'
      {
        var content := nodes[i].content;
        for j := 0 to |content|
          invariant copy <= copy' && TreeBlob(id) in dst.blobs + dst.pending + copy'
          invariant forall k, d :: 0 <= k < i && d in nodes[k].content ==> DataBlob(d) in dst.blobs + dst.pending + copy'
          invariant forall k :: 0 <= k < j ==> DataBlob(content[k]) in dst.blobs + dst.pending + copy'
        {
          found := dst.LookupBlob(DataBlob(content[j]));
          if !found {
            copy' := copy' + {DataBlob(content[j])};
          }
        }
      }
    }

    /** Visits every tree below `root` that was not visited before; a tree that does not load ends
        the copy. */
    method StreamTrees(root: ID, ghost rank: ID -> nat) returns (failed: bool, copy: set<Blob>)
      requires Ranked(src, rank) && Visited(src, Available(), visited, {}, Have())
      modifies this
      ensures visited >= old(visited)
      ensures !failed ==> root in visited && Visited(src, Available(), visited, {}, Have() + copy)
      ensures dst.reliable && Loads(src, rank, root) ==> !failed
    {
      copy := {};
      var backlog := [root];
      while backlog != []
        invariant visited >= old(visited)
        invariant Visited(src, Available(), visited, Elements(backlog), Have() + copy)
        invariant root in visited || root in backlog
        invariant Loads(src, rank, root) ==> AllLoad(src, rank, Elements(backlog))
        decreases src.Keys - visited, |backlog|
      {
        ghost var waiting := Elements(backlog);
        var id := backlog[|backlog| - 1];
        assert backlog == backlog[..|backlog| - 1] + [id];
        backlog := backlog[..|backlog| - 1];
        assert waiting == Elements(backlog + [id]);
        ElementsPop(backlog, id);
        if id !in visited {
          var unreadable: bool := *;
          if (unreadable && !dst.reliable) || id !in src {
            return true, {};
          }
          var more := EnqueueTree(id, copy);
          VisitedGrows(src, Available(), visited, waiting, Have() + copy, Have() + more);
          copy := more;
          var subtrees := SubtreeIDs(src[id]);
          ElementsJoin(backlog, subtrees);
          backlog := backlog + subtrees;
          VisitOne(src, Available(), visited, waiting, Elements(backlog), Have() + copy, id);
          if Loads(src, rank, root) {
            SubtreesLoad(src, rank, id);
          }
          visited := visited + {id};
        }
      }
      failed := false;
    }

    /** In every state since the copy began, what a saved snapshot lacks was never available. */
    ghost predicate Safe(rank: ID -> nat)
      requires Ranked(src, rank)
      reads dst
    {
      && dst.Tracked() && start <= dst.blobs && Have() <= Available()
      && since <= |dst.history| && base <= |dst.saved|
      && Exact(Observed(dst.blobs, dst.saved), base, src, rank, Available())
      && forall k :: since <= k < |dst.history| ==> Exact(dst.history[k], base, src, rank, Available())
    }

    method CopyTree(root: ID, ghost rank: ID -> nat) returns (failed: bool, size: nat)
      requires Ranked(src, rank) && Safe(rank) && Visited(src, Available(), visited, {}, Have())
      modifies this, dst
      ensures visited >= old(visited) && dst.saved == old(dst.saved) && dst.blobs >= old(dst.blobs)
      ensures Safe(rank) && old(dst.history) <= dst.history
      ensures !failed ==> root in visited && Visited(src, Available(), visited, {}, Have())
      ensures dst.reliable && Loads(src, rank, root) ==> !failed
    {
      size := *;
      var copy;
      failed, copy := StreamTrees(root, rank);
      if failed {
        return;
      }
      failed := dst.CopyBlobs(copy, indexed);
      ExactGrows(old(dst.blobs), dst.blobs, dst.saved, base, src, rank, Available());
      if !failed {
        VisitedGrows(src, Available(), visited, {}, old(Have()) + copy, Have());
      }
    }

    /** Saves the snapshots of a batch for which everything available is durable. */
    method SaveBatch(batch: seq<Snapshot>, ghost rank: ID -> nat) returns (failed: bool, count: nat)
      requires Ranked(src, rank) && Safe(rank)
      requires forall i :: 0 <= i < |batch| ==> Reach(src, rank, batch[i].tree) * Available() <= dst.blobs
      modifies dst
      ensures Safe(rank) && old(dst.history) <= dst.history
      ensures dst.blobs == old(dst.blobs) && dst.pending == old(dst.pending)
      ensures count <= |batch| && (!failed ==> count == |batch|) && (dst.reliable ==> !failed)
      ensures dst.saved == old(dst.saved) + CopiedSnapshots(batch[..count])
    {
      count := 0;
      assert batch[..0] == [];
      while count < |batch|
        invariant count <= |batch| && Safe(rank) && old(dst.history) <= dst.history
        invariant dst.blobs == old(dst.blobs) && dst.pending == old(dst.pending)
        invariant dst.saved == old(dst.saved) + CopiedSnapshots(batch[..count])
      {
        ExactSnoc(dst.blobs, dst.saved, Copied(batch[count]), base, src, rank, Available());
        failed := dst.SaveSnapshot(Copied(batch[count]));
        if failed {
          return;
        }
        CopiedSnoc(batch, count);
        count := count + 1;
      }
      failed := false;
    }

    /** One uploader scope: snapshots are taken from the iterator and their trees copied until the
        batch is large and old enough, or the iterator is exhausted. */
    method FillBatch(selected: seq<Selected>, from: nat, targetSize: nat, ghost rank: ID -> nat)
      returns (failed: bool, batch: seq<Snapshot>)
      requires Ranked(src, rank) && Safe(rank) && Visited(src, Available(), visited, {}, Have()) && from <= |selected|
      modifies this, dst
      ensures Safe(rank) && old(dst.history) <= dst.history
      ensures dst.saved == old(dst.saved) && from + |batch| <= |selected|
      ensures forall i :: 0 <= i < |batch| ==> selected[from + i] == Chosen(batch[i])
      ensures !failed ==> Visited(src, Available(), visited, {}, Have()) && forall i :: 0 <= i < |batch| ==> batch[i].tree in visited
      ensures !failed && targetSize > 0 && batch == [] ==> from == |selected|
      ensures dst.reliable && Copyable(src, rank, selected) ==> !failed
    {
      batch := [];
      var batchSize := 0;
      while true
        invariant Safe(rank) && old(dst.history) <= dst.history
        invariant dst.saved == old(dst.saved) && from + |batch| <= |selected|
        invariant forall i :: 0 <= i < |batch| ==> selected[from + i] == Chosen(batch[i])
        invariant Visited(src, Available(), visited, {}, Have()) && forall i :: 0 <= i < |batch| ==> batch[i].tree in visited
        invariant batch == [] ==> batchSize == 0
        decreases |selected| - from - |batch|
      {
        var young: bool := *;
        if !(batchSize < targetSize || young) || from + |batch| == |selected| {
          return false, batch;
        }
        match selected[from + |batch|] {
          case Broken =>
            return true, batch;
          case Chosen(sn) =>
            var size;
            failed, size := CopyTree(sn.tree, rank);
            batch := batch + [sn];
            if failed {
              return;
            }
            batchSize := batchSize + size;
        }
      }
    }

    /** The end of the uploader scope: on success everything available that the batch needs is durable. */
    method FlushBatch(batch: seq<Snapshot>, ghost rank: ID -> nat) returns (failed: bool)
      requires Ranked(src, rank) && Safe(rank) && Visited(src, Available(), visited, {}, Have())
      requires forall i :: 0 <= i < |batch| ==> batch[i].tree in visited
      modifies dst
      ensures Safe(rank) && old(dst.history) <= dst.history && dst.saved == old(dst.saved)
      ensures !failed ==> Visited(src, Available(), visited, {}, Have()) && dst.pending == {}
      ensures !failed ==> forall i :: 0 <= i < |batch| ==> Reach(src, rank, batch[i].tree) * Available() <= dst.blobs
      ensures dst.reliable ==> !failed
    {
      failed := dst.Flush();
      ExactGrows(old(dst.blobs), dst.blobs, dst.saved, base, src, rank, Available());
      if !failed {
        VisitedGrows(src, Available(), visited, {}, old(Have()), dst.blobs);
        assert Have() == dst.blobs;
        forall i | 0 <= i < |batch| ensures Reach(src, rank, batch[i].tree) * Available() <= dst.blobs {
          VisitedReach(src, rank, Available(), visited, dst.blobs, batch[i].tree);
        }
      }
    }

    /** Copies the selected snapshots batch by batch.  In every state the destination passes through,
        what a saved snapshot lacks is exactly what it reaches and what neither the destination had
        nor the source's index lists.  The snapshots are saved in order and each once, all of them
        when nothing fails; and nothing fails if the repositories work and all the trees load. */
    method CopyTreeBatched(selected: seq<Selected>, targetSize: nat, ghost rank: ID -> nat) returns (failed: bool, count: nat)
      requires Ranked(src, rank) && Safe(rank) && Visited(src, Available(), visited, {}, Have()) && dst.pending == {}
      modifies this, dst
      ensures Safe(rank) && old(dst.history) <= dst.history
      ensures count <= |selected| && forall i :: 0 <= i < count ==> selected[i].Chosen?
      ensures dst.saved == old(dst.saved) + CopiedSnapshots(Snapshots(selected, count))
      ensures !failed && targetSize > 0 ==> count == |selected|
      ensures dst.reliable && Copyable(src, rank, selected) ==> !failed
    {
      count := 0;
      while true
        invariant Safe(rank) && old(dst.history) <= dst.history
        invariant Visited(src, Available(), visited, {}, Have()) && dst.pending == {} && count <= |selected|
        invariant forall i :: 0 <= i < count ==> selected[i].Chosen?
        invariant dst.saved == old(dst.saved) + CopiedSnapshots(Snapshots(selected, count))
        decreases |selected| - count
      {
        var batch;
        failed, batch := FillBatch(selected, count, targetSize, rank);
        if failed {
          return;
        }
        failed := FlushBatch(batch, rank);
        if failed {
          return;
        }
        if |batch| == 0 {
          return;
        }
        var saved;
        failed, saved := SaveBatch(batch, rank);
        CopiedConcat(old(dst.saved), selected, count, batch, saved);
        count := count + saved;
        if failed {
          return;
        }
      }
    }
  }

  /** The iterator yields snapshots only, and all their trees load. */
  ghost predicate Copyable(src: Store, rank: ID -> nat, selected: seq<Selected>)
    requires Ranked(src, rank)
  {
    forall i :: 0 <= i < |selected| ==> selected[i].Chosen? && Loads(src, rank, selected[i].snapshot.tree)
  }

  /** Copies into a repository that has nothing saved yet.  In every state a saved snapshot is complete
      if and only if everything it reaches was there before or is listed by the source's index. */
  method CopyInto(src: Store, indexed: set<Blob>, blobs: set<Blob>, reliable: bool, selected: seq<Selected>, targetSize: nat, ghost rank: ID -> nat)
    returns (failed: bool, after: set<Blob>, saved: seq<Snapshot>, ghost history: seq<Observed>)
    requires Ranked(src, rank) && targetSize > 0
    ensures history != [] && history[|history| - 1] == Observed(after, saved)
    ensures forall k, i :: 0 <= k < |history| && 0 <= i < |history[k].saved| ==>
      (Complete(history[k], src, rank, history[k].saved[i]) <==> Reach(src, rank, history[k].saved[i].tree) <= blobs + indexed)
    ensures blobs <= after <= blobs + indexed
    ensures !failed ==> forall i :: 0 <= i < |selected| ==> selected[i].Chosen?
    ensures !failed ==> saved == CopiedSnapshots(Snapshots(selected, |selected|))
    ensures |saved| <= |selected| && forall i :: 0 <= i < |saved| ==> selected[i].Chosen? && IsCopy(saved[i], selected[i].snapshot)
    ensures reliable && Copyable(src, rank, selected) ==> !failed
  {
    var dst := new Destination(blobs, reliable);
    var copier := new Copier(src, indexed, dst);
    var count;
    failed, count := copier.CopyTreeBatched(selected, targetSize, rank);
    after, saved, history := dst.blobs, dst.saved, dst.history;
    forall k, i | 0 <= k < |history| && 0 <= i < |history[k].saved|
      ensures Complete(history[k], src, rank, history[k].saved[i]) <==> Reach(src, rank, history[k].saved[i].tree) <= blobs + indexed {
      if k > 0 {
        CompleteWhen(history[k], 0, src, rank, blobs + indexed, i);
      }
    }
  }

  /** A tree with one file. */
  const ONE_FILE: Store := map[1 := [Node("x", File, [7], None, 0)]]

  ghost function NoRank(id: ID): nat {
    0
  }

  /** Its index lists the tree but not the file's content: all trees load, so that nothing stops the
      copy, and yet the snapshot reaches a blob that is not available. */
  lemma UnlistedBlob()
    ensures Ranked(ONE_FILE, NoRank) && Copyable(ONE_FILE, NoRank, [Chosen(Snapshot(1, 1, None, None, 0))])
    ensures DataBlob(7) in Reach(ONE_FILE, NoRank, 1) && DataBlob(7) !in {TreeBlob(1)}
  {
    assert Loads(ONE_FILE, NoRank, 1);
    assert DataBlob(7) in DataBlobs([7]);
    assert DataBlob(7) in ReachAll(ONE_FILE, NoRank, ONE_FILE[1], 0);
  }

  /** Copying it succeeds and saves the snapshot without the file's content. */
  method UnlistedBlobIsLost(targetSize: nat) returns (failed: bool, after: set<Blob>, saved: seq<Snapshot>)
    requires targetSize > 0
    ensures !failed && saved == [Copied(Snapshot(1, 1, None, None, 0))] && DataBlob(7) !in after
  {
    UnlistedBlob();
    ghost var history;
    failed, after, saved, history := CopyInto(ONE_FILE, {TreeBlob(1)}, {}, true, [Chosen(Snapshot(1, 1, None, None, 0))], targetSize, NoRank);
  }

  function Snapshots(selected: seq<Selected>, count: nat): seq<Snapshot>
    requires count <= |selected| && forall i :: 0 <= i < count ==> selected[i].Chosen?
  {
    seq(count, i requires 0 <= i < count && selected[i].Chosen? => selected[i].snapshot)
  }

  function CopiedSnapshots(sns: seq<Snapshot>): seq<Snapshot> {
    seq(|sns|, i requires 0 <= i < |sns| => Copied(sns[i]))
  }

  lemma CopiedSnoc(sns: seq<Snapshot>, k: nat)
    requires k < |sns|
    ensures CopiedSnapshots(sns[..k + 1]) == CopiedSnapshots(sns[..k]) + [Copied(sns[k])]
  {
  }

  lemma CopiedConcat(base: seq<Snapshot>, selected: seq<Selected>, count: nat, batch: seq<Snapshot>, more: nat)
    requires count + |batch| <= |selected| && more <= |batch|
    requires forall i :: 0 <= i < count ==> selected[i].Chosen?
    requires forall i :: 0 <= i < |batch| ==> selected[count + i] == Chosen(batch[i])
    ensures forall i :: 0 <= i < count + more ==> selected[i].Chosen?
    ensures base + CopiedSnapshots(Snapshots(selected, count)) + CopiedSnapshots(batch[..more])
         == base + CopiedSnapshots(Snapshots(selected, count + more))
  {
    forall i | 0 <= i < count + more ensures selected[i].Chosen? {
      if i >= count { assert selected[count + (i - count)] == Chosen(batch[i - count]); }
    }
  }

  lemma ExactGrows(blobs: set<Blob>, more: set<Blob>, saved: seq<Snapshot>, base: nat, src: Store, rank: ID -> nat, available: set<Blob>)
    requires Ranked(src, rank) && Exact(Observed(blobs, saved), base, src, rank, available) && blobs <= more <= available
    ensures Exact(Observed(more, saved), base, src, rank, available)
  {
    forall i | base <= i < |saved|
      ensures Lacks(Observed(more, saved), src, rank, saved[i]) == Reach(src, rank, saved[i].tree) - available {
      assert Lacks(Observed(blobs, saved), src, rank, saved[i]) == Reach(src, rank, saved[i].tree) - available;
    }
  }

  lemma ExactSnoc(blobs: set<Blob>, saved: seq<Snapshot>, sn: Snapshot, base: nat, src: Store, rank: ID -> nat, available: set<Blob>)
    requires Ranked(src, rank) && Exact(Observed(blobs, saved), base, src, rank, available) && blobs <= available
    requires Reach(src, rank, sn.tree) * available <= blobs
    ensures Exact(Observed(blobs, saved + [sn]), base, src, rank, available)
  {
    var o := Observed(blobs, saved + [sn]);
    assert Reach(src, rank, sn.tree) - blobs == Reach(src, rank, sn.tree) - available;
    forall i | base <= i < |o.saved| ensures Lacks(o, src, rank, o.saved[i]) == Reach(src, rank, o.saved[i].tree) - available {
      if i < |saved| {
        assert Lacks(Observed(blobs, saved), src, rank, saved[i]) == Reach(src, rank, saved[i].tree) - available;
      }
    }
  }

  lemma SubtreesSnoc(nodes: seq<Node>, n: Node)
    ensures Subtrees(nodes + [n]) == Subtrees(nodes) + if IsDir(n) then {n.subtree.value} else {}
  {
    var all := nodes + [n];
    forall x | x in Subtrees(nodes) ensures x in Subtrees(all) {
      var k :| 0 <= k < |nodes| && IsDir(nodes[k]) && x == nodes[k].subtree.value;
      assert all[k] == nodes[k];
    }
    if IsDir(n) {
      assert all[|nodes|] == n;
    }
  }

  method SubtreeIDs(nodes: seq<Node>) returns (ids: seq<ID>)
    ensures Elements(ids) == Subtrees(nodes)
  {
    ids := [];
    for i := 0 to |nodes|
      invariant Elements(ids) == Subtrees(nodes[..i])
    {
      SubtreesSnoc(nodes[..i], nodes[i]);
      assert nodes[..i + 1] == nodes[..i] + [nodes[i]];
      if IsDir(nodes[i]) {
        ghost var done := ids;
        ids := ids + [nodes[i].subtree.value];
        assert Elements(ids) == Elements(done) + {nodes[i].subtree.value};
      }
    }
    assert nodes[..|nodes|] == nodes;
  }
}
