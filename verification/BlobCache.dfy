/**
 The cache of blob contents: a least-recently-used list under a byte budget.

 The underlying LRU list is an ordered map with an entry limit of its own and a callback for
 every entry that leaves it.  The cache evicts from the list itself to stay within its budget.
 */
module BlobCache {
  import opened Wrappers

  type ID = nat

  /** A buffer; its length stands for the capacity of the slice. */
  type Buffer = array<int>

  datatype Entry = Entry(id: ID, blob: Buffer)

  /** A 32-byte ID, a list node and some pointers. */
  const OVERHEAD: nat := 32 + 64

  function Charge(blob: Buffer): nat {
    blob.Length + OVERHEAD
  }

  /** What a list of entries, oldest first, costs. */
  function Used(entries: seq<Entry>): nat {
    if entries == [] then 0 else Charge(entries[0].blob) + Used(entries[1..])
  }

  lemma {:induction false} UsedAppend(a: seq<Entry>, b: seq<Entry>)
    ensures Used(a + b) == Used(a) + Used(b)
  {
    if a == [] {
      assert a + b == b;
    } else {
      assert (a + b)[1..] == a[1..] + b;
      UsedAppend(a[1..], b);
    }
  }

  lemma {:induction false} UsedBoundsCount(entries: seq<Entry>)
    ensures |entries| * OVERHEAD <= Used(entries)
  {
    if entries != [] {
      UsedBoundsCount(entries[1..]);
    }
  }

  predicate Holds(entries: seq<Entry>, id: ID) {
    exists i :: 0 <= i < |entries| && entries[i].id == id
  }

  ghost predicate Distinct(entries: seq<Entry>) {
    forall i, j :: 0 <= i < j < |entries| ==> entries[i].id != entries[j].id
  }

  // ---------------------------------------------------------------------------------------
  // The operations on values
  // ---------------------------------------------------------------------------------------

  /** How many of the oldest entries must go for the rest to fit the budget. */
  function DropCount(entries: seq<Entry>, budget: nat): nat {
    if Used(entries) <= budget then 0 else 1 + DropCount(entries[1..], budget)
  }

  /** The rest is the longest suffix that fits. */
  lemma {:induction false} DropCountIsLeast(entries: seq<Entry>, budget: nat)
    ensures DropCount(entries, budget) <= |entries|
    ensures Used(entries[DropCount(entries, budget)..]) <= budget
    ensures forall k :: 0 <= k < DropCount(entries, budget) ==> Used(entries[k..]) > budget
  {
    if Used(entries) <= budget {
      assert entries[0..] == entries;
    } else {
      var d := DropCount(entries[1..], budget);
      DropCountIsLeast(entries[1..], budget);
      assert entries[1..][d..] == entries[1 + d..];
      forall k | 0 <= k < 1 + d ensures Used(entries[k..]) > budget {
        if k == 0 {
          assert entries[0..] == entries;
        } else {
          assert entries[1..][k - 1..] == entries[k..];
        }
      }
    }
  }

  datatype State = State(entries: seq<Entry>, free: int)

  /** The budget is exact and kept, every ID occurs once, and the list is within its own limit. */
  ghost predicate Balanced(s: State, size: nat) {
    && s.free >= 0
    && s.free + Used(s.entries) == size
    && Distinct(s.entries)
    && |s.entries| <= size / OVERHEAD
  }

  function Added(s: State, size: nat, id: ID, blob: Buffer): State {
    if Charge(blob) > size || Holds(s.entries, id) then s
    else
      var kept := s.entries[DroppedBy(s, size, blob)..];
      State(kept + [Entry(id, blob)], size - Used(kept) - Charge(blob))
  }

  function DroppedBy(s: State, size: nat, blob: Buffer): (k: nat)
    requires Charge(blob) <= size
    ensures k <= |s.entries|
  {
    DropCountIsLeast(s.entries, size - Charge(blob));
    DropCount(s.entries, size - Charge(blob))
  }

  /** The entry moves to the newest end. */
  function Touched(s: State, i: nat): State
    requires i < |s.entries|
  {
    s.(entries := s.entries[..i] + s.entries[i + 1..] + [s.entries[i]])
  }

  lemma AddedBalanced(s: State, size: nat, id: ID, blob: Buffer)
    requires Balanced(s, size)
    ensures Balanced(Added(s, size, id, blob), size)
  {
    if Charge(blob) <= size && !Holds(s.entries, id) {
      DropCountIsLeast(s.entries, size - Charge(blob));
      var k := DroppedBy(s, size, blob);
      var kept, s' := s.entries[k..], Added(s, size, id, blob);
      UsedAppend(kept, [Entry(id, blob)]);
      assert Used([Entry(id, blob)]) == Charge(blob);
      UsedBoundsCount(s'.entries);
      CountWithin(|s'.entries|, Used(s'.entries), size);
    }
  }

  lemma UsedSuffix(entries: seq<Entry>, k: nat, i: nat)
    requires k <= i <= |entries|
    ensures Used(entries[i..]) <= Used(entries[k..])
  {
    assert entries[k..] == entries[k..i] + entries[i..];
    UsedAppend(entries[k..i], entries[i..]);
  }

  lemma InSuffix(entries: seq<Entry>, k: nat, i: nat)
    requires Distinct(entries) && k <= |entries| && i < |entries|
    ensures entries[i] in entries[k..] <==> k <= i
  {
    if k <= i {
      assert entries[k..][i - k] == entries[i];
    }
  }

  /** An entry survives exactly when it, everything used after it and the new blob fit together. */
  lemma SurvivesWhen(s: State, size: nat, id: ID, blob: Buffer, i: nat)
    requires Balanced(s, size) && i < |s.entries| && Charge(blob) <= size && !Holds(s.entries, id)
    ensures s.entries[i] in Added(s, size, id, blob).entries <==> Used(s.entries[i..]) + Charge(blob) <= size
  {
    var k := DroppedBy(s, size, blob);
    DropCountIsLeast(s.entries, size - Charge(blob));
    InSuffix(s.entries, k, i);
    assert s.entries[i] != Entry(id, blob);
    if i >= k {
      UsedSuffix(s.entries, k, i);
    }
  }

  lemma CountWithin(n: nat, used: nat, size: nat)
    requires n * OVERHEAD <= used <= size
    ensures n <= size / OVERHEAD
  {
  }

  lemma MovedDistinct(a: seq<Entry>, e: Entry, b: seq<Entry>)
    requires Distinct(a + ([e] + b))
    ensures Distinct(a + b + [e])
  {
    var was, now := a + ([e] + b), a + b + [e];
    forall i, j | 0 <= i < j < |now| ensures now[i].id != now[j].id {
      assert now[i] == was[if i < |a| then i else i + 1];
      assert now[j] == was[if j < |a| then j else if j < |a| + |b| then j + 1 else |a|];
    }
  }

  lemma TouchedBalanced(s: State, size: nat, i: nat)
    requires Balanced(s, size) && i < |s.entries|
    ensures Balanced(Touched(s, i), size)
  {
    var a, e, b := s.entries[..i], s.entries[i], s.entries[i + 1..];
    assert s.entries == a + ([e] + b);
    UsedAppend(a, [e] + b);
    UsedAppend([e], b);
    UsedAppend(a + b, [e]);
    UsedAppend(a, b);
    MovedDistinct(a, e, b);
  }

  // ---------------------------------------------------------------------------------------
  // Any sequence of operations
  // ---------------------------------------------------------------------------------------

  datatype Op = Add(id: ID, blob: Buffer) | Get(id: ID) | Clear

  function Find(entries: seq<Entry>, id: ID): (r: Option<nat>)
    ensures r.Some? ==> r.value < |entries| && entries[r.value].id == id
    ensures r.None? ==> !Holds(entries, id)
  {
    if entries == [] then None
    else if entries[|entries| - 1].id == id then Some(|entries| - 1)
    else
      NotInFront(entries, id);
      Find(entries[..|entries| - 1], id)
  }

  lemma NotInFront(entries: seq<Entry>, id: ID)
    requires entries != [] && entries[|entries| - 1].id != id
    ensures Holds(entries[..|entries| - 1], id) <==> Holds(entries, id)
  {
    var front := entries[..|entries| - 1];
    forall i | 0 <= i < |front| ensures front[i] == entries[i] {
    }
    if i :| 0 <= i < |entries| && entries[i].id == id {
      assert front[i].id == id;
    }
  }

  function Apply(s: State, size: nat, op: Op): State {
    match op
    case Add(id, blob) => Added(s, size, id, blob)
    case Get(id) => (match Find(s.entries, id) case None => s case Some(i) => Touched(s, i))
    case Clear => State([], size)
  }

  function After(size: nat, ops: seq<Op>): State {
    if ops == [] then State([], size) else Apply(After(size, ops[..|ops| - 1]), size, ops[|ops| - 1])
  }

  function TotalLength(entries: seq<Entry>): nat {
    if entries == [] then 0 else entries[0].blob.Length + TotalLength(entries[1..])
  }

  /** An entry costs the length of its buffer and 96 bytes. */
  lemma {:induction false} UsedIsTotal(entries: seq<Entry>)
    ensures Used(entries) == TotalLength(entries) + 96 * |entries|
  {
    if entries != [] {
      UsedIsTotal(entries[1..]);
    }
  }

  lemma {:induction false} AlwaysBalanced(size: nat, ops: seq<Op>)
    ensures Balanced(After(size, ops), size)
    ensures var s := After(size, ops); 0 <= s.free == size - TotalLength(s.entries) - 96 * |s.entries|
  {
    UsedIsTotal(After(size, ops).entries);
    if ops != [] {
      var s, op := After(size, ops[..|ops| - 1]), ops[|ops| - 1];
      AlwaysBalanced(size, ops[..|ops| - 1]);
      match op {
        case Add(id, blob) => AddedBalanced(s, size, id, blob);
        case Get(id) =>
          if Find(s.entries, id).Some? {
            TouchedBalanced(s, size, Find(s.entries, id).value);
          }
        case Clear =>
      }
    }
  }

  /** The cache holds nothing that was not put in under the same ID. */
  lemma {:induction false} OnlyWhatWasAdded(size: nat, ops: seq<Op>, e: Entry)
    requires e in After(size, ops).entries
    ensures exists i :: 0 <= i < |ops| && ops[i] == Add(e.id, e.blob)
  {
    var before, op := ops[..|ops| - 1], ops[|ops| - 1];
    var s := After(size, before);
    if e in s.entries {
      OnlyWhatWasAdded(size, before, e);
      var i :| 0 <= i < |before| && before[i] == Add(e.id, e.blob);
      assert ops[i] == Add(e.id, e.blob);
    } else {
      match op {
        case Add(id, blob) => assert ops[|ops| - 1] == Add(e.id, e.blob);
        case Get(id) =>
        case Clear =>
      }
    }
  }

  // ---------------------------------------------------------------------------------------
  // The list is in the order of last use
  // ---------------------------------------------------------------------------------------

  /** The operation asks for the ID, or puts it in where it is not. */
  predicate Uses(s: State, op: Op, id: ID) {
    op == Get(id) || (op.Add? && op.id == id && !Holds(s.entries, id))
  }

  /** The position of the last operation that used the ID; -1 if there is none. */
  function LastUse(size: nat, ops: seq<Op>, id: ID): (k: int)
    ensures k < |ops|
  {
    if ops == [] then -1
    else if Uses(After(size, ops[..|ops| - 1]), ops[|ops| - 1], id) then |ops| - 1
    else LastUse(size, ops[..|ops| - 1], id)
  }

  /** Every entry was used before the entries that follow it. */
  ghost predicate InUseOrder(entries: seq<Entry>, size: nat, ops: seq<Op>) {
    forall i, j :: 0 <= i < j < |entries| ==> LastUse(size, ops, entries[i].id) < LastUse(size, ops, entries[j].id)
  }

  lemma SuffixInOrder(entries: seq<Entry>, size: nat, ops: seq<Op>, k: nat)
    requires InUseOrder(entries, size, ops) && k <= |entries|
    ensures InUseOrder(entries[k..], size, ops)
  {
  }

  /** Dropping an entry, and using it last, keeps the order of the others. */
  lemma UsedLastInOrder(a: seq<Entry>, b: seq<Entry>, e: Entry, size: nat, ops: seq<Op>)
    requires ops != [] && InUseOrder(a + b, size, ops[..|ops| - 1]) && Uses(After(size, ops[..|ops| - 1]), ops[|ops| - 1], e.id)
    requires forall i :: 0 <= i < |a + b| ==> (a + b)[i].id != e.id
    ensures InUseOrder(a + b + [e], size, ops)
  {
    var rest, all := a + b, a + b + [e];
    forall i, j | 0 <= i < j < |all| ensures LastUse(size, ops, all[i].id) < LastUse(size, ops, all[j].id) {
      assert all[i] == rest[i] && !Uses(After(size, ops[..|ops| - 1]), ops[|ops| - 1], rest[i].id);
      if j < |rest| {
        assert all[j] == rest[j] && !Uses(After(size, ops[..|ops| - 1]), ops[|ops| - 1], rest[j].id);
      }
    }
  }

  lemma UnusedInOrder(entries: seq<Entry>, size: nat, ops: seq<Op>)
    requires ops != [] && InUseOrder(entries, size, ops[..|ops| - 1])
    requires forall e :: e in entries ==> !Uses(After(size, ops[..|ops| - 1]), ops[|ops| - 1], e.id)
    ensures InUseOrder(entries, size, ops)
  {
  }

  lemma WithoutInOrder(a: seq<Entry>, e: Entry, b: seq<Entry>, size: nat, ops: seq<Op>)
    requires InUseOrder(a + ([e] + b), size, ops)
    ensures InUseOrder(a + b, size, ops)
  {
    var all, rest := a + ([e] + b), a + b;
    forall i | 0 <= i < |rest| ensures rest[i] == all[if i < |a| then i else i + 1] {
    }
  }

  lemma AddInUseOrder(size: nat, before: seq<Op>, ops: seq<Op>, id: ID, blob: Buffer)
    requires ops != [] && before == ops[..|ops| - 1] && ops[|ops| - 1] == Add(id, blob)
    requires InUseOrder(After(size, before).entries, size, before)
    ensures InUseOrder(Added(After(size, before), size, id, blob).entries, size, ops)
  {
    var s := After(size, before);
    if Charge(blob) <= size && !Holds(s.entries, id) {
      var kept := s.entries[DroppedBy(s, size, blob)..];
      SuffixInOrder(s.entries, size, before, DroppedBy(s, size, blob));
      assert kept + [] == kept;
      forall i | 0 <= i < |kept| ensures kept[i].id != id {
        assert kept[i] == s.entries[DroppedBy(s, size, blob) + i];
      }
      UsedLastInOrder(kept, [], Entry(id, blob), size, ops);
    } else {
      UnusedInOrder(s.entries, size, ops);
    }
  }

  lemma TouchInUseOrder(size: nat, before: seq<Op>, ops: seq<Op>, i: nat)
    requires ops != [] && before == ops[..|ops| - 1]
    requires var es := After(size, before).entries;
      i < |es| && ops[|ops| - 1] == Get(es[i].id) && Distinct(es) && InUseOrder(es, size, before)
    ensures InUseOrder(Touched(After(size, before), i).entries, size, ops)
  {
    var es := After(size, before).entries;
    var a, e, b := es[..i], es[i], es[i + 1..];
    assert es == a + ([e] + b);
    WithoutInOrder(a, e, b, size, before);
    forall k | 0 <= k < |a + b| ensures (a + b)[k].id != e.id {
      assert (a + b)[k] == es[if k < i then k else k + 1];
    }
    UsedLastInOrder(a, b, e, size, ops);
  }

  /** The list is least recently used first, whatever the operations were: of two entries the one used
      longer ago is the first to go. */
  lemma {:induction false} AlwaysInUseOrder(size: nat, ops: seq<Op>)
    ensures InUseOrder(After(size, ops).entries, size, ops)
  {
    if ops != [] {
      var before, op := ops[..|ops| - 1], ops[|ops| - 1];
      AlwaysInUseOrder(size, before);
      AlwaysBalanced(size, before);
      var found := if op.Get? then Find(After(size, before).entries, op.id) else None;
      if op.Add? {
        AddInUseOrder(size, before, ops, op.id, op.blob);
      } else if found.Some? {
        TouchInUseOrder(size, before, ops, found.value);
      } else if op.Get? {
        UnusedInOrder(After(size, before).entries, size, ops);
      }
    }
  }

  // ---------------------------------------------------------------------------------------
  // The cache object
  // ---------------------------------------------------------------------------------------

  /** `spare` is the first of the largest buffers, or nothing if all have capacity zero. */
  ghost predicate LargestOf(evicted: seq<Entry>, spare: Option<Buffer>) {
    match spare
    case None => forall i :: 0 <= i < |evicted| ==> evicted[i].blob.Length == 0
    case Some(b) =>
      && b.Length > 0
      && (forall i :: 0 <= i < |evicted| ==> evicted[i].blob.Length <= b.Length)
      && exists k :: 0 <= k < |evicted| && evicted[k].blob == b && forall i :: 0 <= i < k ==> evicted[i].blob.Length < b.Length
  }

  lemma LargestSnoc(evicted: seq<Entry>, spare: Option<Buffer>, e: Entry)
    requires LargestOf(evicted, spare)
    ensures LargestOf(evicted + [e], if e.blob.Length > (if spare.Some? then spare.value.Length else 0) then Some(e.blob) else spare)
  {
    var more := evicted + [e];
    if e.blob.Length > (if spare.Some? then spare.value.Length else 0) {
      assert more[|evicted|].blob == e.blob;
    } else if spare.Some? {
      var k :| 0 <= k < |evicted| && evicted[k].blob == spare.value
        && forall i :: 0 <= i < k ==> evicted[i].blob.Length < spare.value.Length;
      assert more[k].blob == spare.value;
    }
  }

  class Cache {
    var entries: seq<Entry>
    var free: int
    const size: nat
    const limit: nat

    ghost function View(): State
      reads this
    {
      State(entries, free)
    }

    ghost predicate Valid()
      reads this
    {
      Balanced(View(), size) && limit == size / OVERHEAD && limit > 0
    }

    /** A cache too small for one entry is refused: the list cannot be made. */
    constructor (size: nat)
      requires size / OVERHEAD > 0
      ensures Valid() && View() == State([], size) && this.size == size
    {
      this.entries, this.free, this.size, this.limit := [], size, size, size / OVERHEAD;
    }

    /** The callback for an entry that leaves the list. */
    method Evict(e: Entry)
      modifies `free
      ensures free == old(free) + Charge(e.blob)
    {
      free := free + e.blob.Length + OVERHEAD;
    }

    /** The list's removal of its oldest entry. */
    method RemoveOldest() returns (e: Entry)
      requires entries != []
      modifies `entries, `free
      ensures e == old(entries)[0] && entries == old(entries)[1..]
      ensures free == old(free) + Charge(e.blob)
    {
      e := entries[0];
      entries := entries[1..];
      Evict(e);
    }

    /** The list's own insertion of a new key, which enforces the list's own limit. */
    method Insert(id: ID, blob: Buffer) returns (evicted: bool)
      requires !Holds(entries, id) && limit > 0
      modifies `entries, `free
      ensures evicted <==> |old(entries)| >= limit
      ensures !evicted ==> entries == old(entries) + [Entry(id, blob)] && free == old(free)
      ensures evicted ==> entries == (old(entries) + [Entry(id, blob)])[1..]
    {
      entries := entries + [Entry(id, blob)];
      evicted := |entries| > limit;
      if evicted {
        var _ := RemoveOldest();
      }
    }

    /** Makes room, oldest entries first; the list never runs empty. */
    method MakeRoom(charge: nat) returns (spare: Option<Buffer>)
      requires Balanced(View(), size) && charge <= size
      modifies `entries, `free
      ensures DropCount(old(entries), size - charge) <= |old(entries)|
      ensures entries == old(entries)[DropCount(old(entries), size - charge)..]
      ensures free == size - Used(entries)
      ensures LargestOf(old(entries)[..DropCount(old(entries), size - charge)], spare)
    {
      ghost var was := entries;
      ghost var k := 0;
      spare := None;
      while charge > free
        invariant k <= |was| && entries == was[k..] && free == size - Used(entries)
        invariant DropCount(was, size - charge) == k + DropCount(entries, size - charge)
        invariant LargestOf(was[..k], spare)
        decreases |entries|
      {
        LargestSnoc(was[..k], spare, entries[0]);
        assert was[..k] + [entries[0]] == was[..k + 1];
        var e := RemoveOldest();
        if e.blob.Length > (if spare.Some? then spare.value.Length else 0) {
          spare := Some(e.blob);
        }
        k := k + 1;
      }
    }

    /** Adds a blob and returns the largest evicted buffer.  The list's own limit never evicts. */
    method Add(id: ID, blob: Buffer) returns (spare: Option<Buffer>)
      requires Valid()
      modifies this
      ensures Valid() && View() == Added(old(View()), size, id, blob)
      ensures View() == old(View()) ==> spare.None?
      ensures View() != old(View()) ==> LargestOf(old(entries)[..DroppedBy(old(View()), size, blob)], spare)
    {
      AddedBalanced(View(), size, id, blob);
      var charge := blob.Length + OVERHEAD;
      if charge > size {
        return None;
      }
      if Holds(entries, id) {
        return None;
      }
      ghost var s := View();
      spare := MakeRoom(charge);
      NotHeld(s.entries, DroppedBy(s, size, blob), id);
      var evicted := Insert(id, blob);
      assert !evicted;
      free := free - charge;
      assert entries[|entries| - 1] == Entry(id, blob);
    }

    /** Looks a blob up and makes it the newest. */
    method Get(id: ID) returns (r: Option<Buffer>)
      requires Valid()
      modifies this
      ensures Valid() && View() == Apply(old(View()), size, Op.Get(id))
      ensures r.Some? <==> Holds(old(entries), id)
      ensures r.Some? ==> Entry(id, r.value) in old(entries)
    {
      var at := Find(entries, id);
      match at {
        case None => r := None;
        case Some(i) =>
          TouchedBalanced(View(), size, i);
          r := Some(entries[i].blob);
          entries := entries[..i] + entries[i + 1..] + [entries[i]];
      }
    }

    /** Overwrites every cached buffer and empties the list through the callback. */
    method Clear()
      requires Valid()
      modifies this, set e | e in entries :: e.blob
      ensures Valid() && View() == State([], size)
      ensures forall e, k :: e in old(entries) && 0 <= k < e.blob.Length ==> e.blob[k] == 0
    {
      ghost var was := entries;
      for i := 0 to |entries|
        invariant entries == was && free == old(free)
        invariant forall j, k :: 0 <= j < i && 0 <= k < was[j].blob.Length ==> was[j].blob[k] == 0
      {
        ClearBuffer(entries[i].blob);
      }
      while entries != []
        invariant free + Used(entries) == size
        invariant forall j, k :: 0 <= j < |was| && 0 <= k < was[j].blob.Length ==> was[j].blob[k] == 0
        decreases |entries|
      {
        var _ := RemoveOldest();
      }
    }
  }

  method ClearBuffer(blob: Buffer)
    modifies blob
    ensures forall k :: 0 <= k < blob.Length ==> blob[k] == 0
  {
    for k := 0 to blob.Length
      invariant forall j :: 0 <= j < k ==> blob[j] == 0
    {
      blob[k] := 0;
    }
  }

  lemma NotHeld(entries: seq<Entry>, k: nat, id: ID)
    requires k <= |entries| && !Holds(entries, id)
    ensures !Holds(entries[k..], id)
  {
    forall i | 0 <= i < |entries[k..]| ensures entries[k..][i].id != id {
      assert entries[k..][i] == entries[k + i];
    }
  }
}
