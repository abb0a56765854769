/**
 Forgetting snapshots in two phases.

 A plan is made while other writers may still work, and made again under an exclusive lock.
 Only what both plans select is deleted.
 */
module Forget {
  import opened Wrappers

  type ID = nat

  datatype DeleteOption = DeleteOption(never: bool, after: Option<int>)

  /** A snapshot; `group` is the key of its group under the chosen grouping. */
  datatype Snapshot = Snapshot(id: ID, group: string, delete: Option<DeleteOption>)

  /** The retention policy as an arbitrary choice of what to remove from a group. */
  datatype Policy = Policy(empty: bool, removes: seq<Snapshot> -> set<ID>)

  datatype Options = Options(explicit: bool, override: bool, unsafeAllowRemoveAll: bool, filterEmpty: bool, policy: Policy)

  /** One look at the repository: what the filter or the given IDs found, at what time, and whether
      the listing failed or the work was cancelled. */
  datatype Observation = Observation(found: seq<Snapshot>, now: int, listed: bool, cancelled: bool)

  predicate MustKeep(d: DeleteOption, now: int) {
    d.never || (d.after.Some? && d.after.value >= now)
  }

  predicate Protected(options: Options, s: Snapshot, now: int) {
    !options.override && s.delete.Some? && MustKeep(s.delete.value, now)
  }

  /** An ID stands for one snapshot. */
  ghost predicate Consistent(snapshots: seq<Snapshot>) {
    forall s, t :: s in snapshots && t in snapshots && s.id == t.id ==> s == t
  }

  // ---------------------------------------------------------------------------------------
  // What a plan selects
  // ---------------------------------------------------------------------------------------

  function Unprotected(options: Options, found: seq<Snapshot>, now: int): seq<Snapshot> {
    if found == [] then []
    else
      Unprotected(options, found[..|found| - 1], now)
      + if Protected(options, found[|found| - 1], now) then [] else [found[|found| - 1]]
  }

  /** A snapshot that was found is passed over exactly if the protection is not overridden and the snapshot is
      never to be deleted, or not before a time that has not passed. */
  lemma {:induction false} UnprotectedMembers(options: Options, found: seq<Snapshot>, now: int, s: Snapshot)
    ensures s in Unprotected(options, found, now) <==> s in found && !Protected(options, s, now)
    ensures s in found && s !in Unprotected(options, found, now) <==>
      && s in found && !options.override
      && exists d :: s.delete == Some(d) && (d.never || exists t :: d.after == Some(t) && now <= t)
  {
    if found != [] {
      assert found == found[..|found| - 1] + [found[|found| - 1]];
      UnprotectedMembers(options, found[..|found| - 1], now, s);
    }
  }

  /** The members of a group, in order. */
  function Members(snapshots: seq<Snapshot>, key: string): seq<Snapshot> {
    if snapshots == [] then []
    else
      Members(snapshots[..|snapshots| - 1], key)
      + if snapshots[|snapshots| - 1].group == key then [snapshots[|snapshots| - 1]] else []
  }

  lemma {:induction false} MembersOf(snapshots: seq<Snapshot>, key: string, s: Snapshot)
    ensures s in Members(snapshots, key) <==> s in snapshots && s.group == key
  {
    if snapshots != [] {
      assert snapshots == snapshots[..|snapshots| - 1] + [snapshots[|snapshots| - 1]];
      MembersOf(snapshots[..|snapshots| - 1], key, s);
    }
  }

  /** The snapshot is removed by the policy applied to its group. */
  predicate Removed(policy: Policy, snapshots: seq<Snapshot>, s: Snapshot) {
    s.id in policy.removes(Members(snapshots, s.group))
  }

  /** The IDs a plan selects for an observation. */
  function Selected(options: Options, o: Observation): set<ID> {
    var candidates := Unprotected(options, o.found, o.now);
    if options.explicit then set s | s in candidates :: s.id
    else set s | s in candidates && Removed(options.policy, candidates, s) :: s.id
  }

  predicate ValidPolicy(options: Options) {
    !options.policy.empty || (options.unsafeAllowRemoveAll && !options.filterEmpty)
  }

  /** The policy would leave nothing of the group. */
  predicate LeavesNothing(policy: Policy, snapshots: seq<Snapshot>, key: string) {
    forall s :: s in snapshots && s.group == key ==> Removed(policy, snapshots, s)
  }

  /** A plan cannot be made: listing failed, or there is no policy, or a group would be emptied. */
  predicate Refused(options: Options, o: Observation) {
    var candidates := Unprotected(options, o.found, o.now);
    || !o.listed
    || (!options.explicit && (
      || !ValidPolicy(options)
      || (o.cancelled && candidates != [])
      || (!options.policy.empty && exists s :: s in candidates && LeavesNothing(options.policy, candidates, s.group))))
  }

  // ---------------------------------------------------------------------------------------
  // Plans
  // ---------------------------------------------------------------------------------------

  /** A group of a plan, with what is kept and what is removed of it. */
  datatype ForgetGroup = ForgetGroup(key: string, keep: seq<Snapshot>, remove: seq<Snapshot>)

  datatype Plan = Plan(remove: set<ID>, groups: seq<ForgetGroup>, protected: nat)

  function Filter(snapshots: seq<Snapshot>, ids: set<ID>, present: bool): seq<Snapshot> {
    if snapshots == [] then []
    else
      Filter(snapshots[..|snapshots| - 1], ids, present)
      + if (snapshots[|snapshots| - 1].id in ids) == present then [snapshots[|snapshots| - 1]] else []
  }

  lemma {:induction false} FilterMembers(snapshots: seq<Snapshot>, ids: set<ID>, present: bool, s: Snapshot)
    ensures s in Filter(snapshots, ids, present) <==> s in snapshots && (s.id in ids) == present
  {
    if snapshots != [] {
      assert snapshots == snapshots[..|snapshots| - 1] + [snapshots[|snapshots| - 1]];
      FilterMembers(snapshots[..|snapshots| - 1], ids, present, s);
    }
  }

  /** The members of a group, split by the policy. */
  ghost predicate IsSplit(g: ForgetGroup, policy: Policy, candidates: seq<Snapshot>) {
    var members := Members(candidates, g.key);
    g.keep == Filter(members, policy.removes(members), false) && g.remove == Filter(members, policy.removes(members), true)
  }

  method GroupSnapshots(snapshots: seq<Snapshot>) returns (groups: map<string, seq<Snapshot>>)
    ensures groups.Keys == set s | s in snapshots :: s.group
    ensures forall key :: key in groups ==> groups[key] == Members(snapshots, key)
  {
    groups := map[];
    for i := 0 to |snapshots|
      invariant groups.Keys == set s | s in snapshots[..i] :: s.group
      invariant forall key :: key in groups ==> groups[key] == Members(snapshots[..i], key)
    {
      var s := snapshots[i];
      assert snapshots[..i + 1] == snapshots[..i] + [s];
      forall key ensures Members(snapshots[..i + 1], key) == Members(snapshots[..i], key) + (if s.group == key then [s] else []) {
        assert snapshots[..i + 1][..i] == snapshots[..i];
      }
      if s.group !in groups {
        NoMembers(snapshots[..i], s.group);
      }
      groups := groups[s.group := (if s.group in groups then groups[s.group] else []) + [s]];
    }
    assert snapshots[..|snapshots|] == snapshots;
  }

  lemma NoMembers(snapshots: seq<Snapshot>, key: string)
    requires !exists s :: s in snapshots && s.group == key
    ensures Members(snapshots, key) == []
  {
    if Members(snapshots, key) != [] {
      MembersOf(snapshots, key, Members(snapshots, key)[0]);
    }
  }

  method ListUnprotected(options: Options, o: Observation) returns (candidates: seq<Snapshot>, protected: nat)
    ensures candidates == Unprotected(options, o.found, o.now)
    ensures protected + |candidates| == |o.found|
  {
    candidates, protected := [], 0;
    for i := 0 to |o.found|
      invariant candidates == Unprotected(options, o.found[..i], o.now) && protected + |candidates| == i
    {
      assert o.found[..i + 1][..i] == o.found[..i];
      if Protected(options, o.found[i], o.now) {
        protected := protected + 1;
      } else {
        candidates := candidates + [o.found[i]];
      }
    }
    assert o.found[..|o.found|] == o.found;
  }

  /** Splits one group. */
  method SplitGroup(policy: Policy, ghost candidates: seq<Snapshot>, key: string, members: seq<Snapshot>) returns (g: ForgetGroup)
    requires members == Members(candidates, key)
    ensures g.key == key && IsSplit(g, policy, candidates)
  {
    var removes := policy.removes(members);
    var keep: seq<Snapshot>, remove: seq<Snapshot> := [], [];
    for i := 0 to |members|
      invariant keep == Filter(members[..i], removes, false) && remove == Filter(members[..i], removes, true)
    {
      assert members[..i + 1][..i] == members[..i];
      if members[i].id in removes {
        remove := remove + [members[i]];
      } else {
        keep := keep + [members[i]];
      }
    }
    assert members[..|members|] == members;
    g := ForgetGroup(key, keep, remove);
  }

  /** A group keeps nothing exactly when the policy removes all its members. */
  lemma KeepsNothing(policy: Policy, candidates: seq<Snapshot>, key: string)
    ensures var members := Members(candidates, key);
      Filter(members, policy.removes(members), false) == [] <==> LeavesNothing(policy, candidates, key)
  {
    var members := Members(candidates, key);
    var keep := Filter(members, policy.removes(members), false);
    forall s ensures s in keep <==> s in candidates && s.group == key && !Removed(policy, candidates, s) {
      FilterMembers(members, policy.removes(members), false, s);
      MembersOf(candidates, key, s);
    }
    if keep != [] {
      assert keep[0] in keep;
    }
  }

  /** The IDs of a group's removed members. */
  lemma RemovedInGroup(policy: Policy, candidates: seq<Snapshot>, key: string, id: ID)
    ensures var members := Members(candidates, key);
      (exists s :: s in Filter(members, policy.removes(members), true) && s.id == id)
      <==> exists s :: s in candidates && s.group == key && Removed(policy, candidates, s) && s.id == id
  {
    var members := Members(candidates, key);
    forall s ensures s in Filter(members, policy.removes(members), true)
        <==> s in candidates && s.group == key && Removed(policy, candidates, s) {
      FilterMembers(members, policy.removes(members), true, s);
      MembersOf(candidates, key, s);
    }
  }

  // ---------------------------------------------------------------------------------------
  // Making a plan
  // ---------------------------------------------------------------------------------------

  /** The ID is removed from a group that is not left to do. */
  ghost predicate Doomed(policy: Policy, candidates: seq<Snapshot>, left: set<string>, id: ID) {
    exists s :: s in candidates && s.group !in left && Removed(policy, candidates, s) && s.id == id
  }

  lemma DoomedStep(policy: Policy, candidates: seq<Snapshot>, left: set<string>, key: string, id: ID)
    requires key in left
    ensures var members := Members(candidates, key);
      Doomed(policy, candidates, left - {key}, id) <==>
      Doomed(policy, candidates, left, id) || exists s :: s in Filter(members, policy.removes(members), true) && s.id == id
  {
    RemovedInGroup(policy, candidates, key, id);
    if Doomed(policy, candidates, left - {key}, id) {
      var s :| s in candidates && s.group !in left - {key} && Removed(policy, candidates, s) && s.id == id;
      assert s.group == key || s.group !in left;
    }
  }

  /** The groups of a plan: one for each key, split by the policy. */
  ghost predicate AreGroups(groups: seq<ForgetGroup>, policy: Policy, candidates: seq<Snapshot>, left: set<string>) {
    && (forall g :: g in groups ==> IsSplit(g, policy, candidates))
    && (forall i, j :: 0 <= i < j < |groups| ==> groups[i].key != groups[j].key)
    && (forall g :: g in groups ==> g.key !in left)
    && (forall s :: s in candidates && s.group !in left ==> exists g :: g in groups && g.key == s.group)
  }

  lemma GroupsStep(groups: seq<ForgetGroup>, policy: Policy, candidates: seq<Snapshot>, left: set<string>, g: ForgetGroup)
    requires AreGroups(groups, policy, candidates, left) && g.key in left && IsSplit(g, policy, candidates)
    ensures AreGroups(groups + [g], policy, candidates, left - {g.key})
  {
    var more := groups + [g];
    assert more[|groups|] == g;
    forall s | s in candidates && s.group !in left - {g.key} ensures exists h :: h in more && h.key == s.group {
      if s.group == g.key {
        assert g in more;
      } else {
        var h :| h in groups && h.key == s.group;
        assert h in more;
      }
    }
    forall i, j | 0 <= i < j < |more| ensures more[i].key != more[j].key {
      assert i < |groups| && more[i] in groups;
    }
  }

  /** Plans one group, or refuses to empty it. */
  method PlanGroup(options: Options, candidates: seq<Snapshot>, key: string, members: seq<Snapshot>, remove: set<ID>, ghost left: set<string>)
    returns (g: ForgetGroup, more: set<ID>, refused: bool)
    requires members == Members(candidates, key) && key in left
    requires forall id :: id in remove <==> Doomed(options.policy, candidates, left, id)
    ensures g.key == key && IsSplit(g, options.policy, candidates)
    ensures refused <==> !options.policy.empty && LeavesNothing(options.policy, candidates, key)
    ensures forall id :: id in more <==> Doomed(options.policy, candidates, left - {key}, id)
  {
    g := SplitGroup(options.policy, candidates, key, members);
    KeepsNothing(options.policy, candidates, key);
    refused := !options.policy.empty && g.keep == [];
    more := remove + set s | s in g.remove :: s.id;
    forall id ensures Doomed(options.policy, candidates, left - {key}, id) <==> id in more {
      DoomedStep(options.policy, candidates, left, key, id);
    }
  }

  method PlanGroups(options: Options, cancelled: bool, candidates: seq<Snapshot>) returns (r: Result<(set<ID>, seq<ForgetGroup>)>)
    ensures r.Err? <==>
      || (cancelled && candidates != [])
      || (!options.policy.empty && exists s :: s in candidates && LeavesNothing(options.policy, candidates, s.group))
    ensures r.Ok? ==> forall id :: id in r.value.0 <==> Doomed(options.policy, candidates, {}, id)
    ensures r.Ok? ==> AreGroups(r.value.1, options.policy, candidates, {})
  {
    var groups := GroupSnapshots(candidates);
    var left := groups.Keys;
    var remove: set<ID>, plans: seq<ForgetGroup> := {}, [];
    if candidates != [] {
      assert candidates[0].group in left;
    }
    while left != {}
      invariant left <= groups.Keys
      invariant left != groups.Keys ==> !cancelled
      invariant forall id :: id in remove <==> Doomed(options.policy, candidates, left, id)
      invariant AreGroups(plans, options.policy, candidates, left)
      invariant !options.policy.empty ==> forall s :: s in candidates && s.group !in left ==> !LeavesNothing(options.policy, candidates, s.group)
      decreases left
    {
      if cancelled {
        return Err;
      }
      var key :| key in left;
      var g, more, refused := PlanGroup(options, candidates, key, groups[key], remove, left);
      if refused {
        return Err;
      }
      GroupsStep(plans, options.policy, candidates, left, g);
      remove := more;
      plans := plans + [g];
      left := left - {key};
    }
    return Ok((remove, plans));
  }

  /** Makes a plan for what was observed, without changing anything. */
  method BuildPlan(options: Options, o: Observation) returns (r: Result<Plan>)
    ensures r.Err? <==> Refused(options, o)
    ensures r.Ok? ==> r.value.remove == Selected(options, o)
    ensures r.Ok? ==> r.value.protected + |Unprotected(options, o.found, o.now)| == |o.found|
    ensures r.Ok? && options.explicit ==> r.value.groups == []
    ensures r.Ok? && !options.explicit ==> AreGroups(r.value.groups, options.policy, Unprotected(options, o.found, o.now), {})
  {
    if !o.listed {
      return Err;
    }
    var candidates, protected := ListUnprotected(options, o);
    if options.explicit {
      return Ok(Plan(set s | s in candidates :: s.id, [], protected));
    }
    if options.policy.empty {
      if !options.unsafeAllowRemoveAll {
        return Err;
      }
      if options.filterEmpty {
        return Err;
      }
    }
    var plan := PlanGroups(options, o.cancelled, candidates);
    if plan.Err? {
      return Err;
    }
    forall id ensures id in Selected(options, o) <==> Doomed(options.policy, candidates, {}, id) {
    }
    return Ok(Plan(plan.value.0, plan.value.1, protected));
  }

  // ---------------------------------------------------------------------------------------
  // Revalidation
  // ---------------------------------------------------------------------------------------

  /** Filters in place; what is written never reaches what is still to be read. */
  method FilterInPlace(a: array<Snapshot>, ids: set<ID>) returns (n: nat)
    modifies a
    ensures n <= a.Length && a[..n] == Filter(old(a[..]), ids, true)
  {
    ghost var was := a[..];
    n := 0;
    for i := 0 to a.Length
      invariant n <= i
      invariant forall k :: i <= k < a.Length ==> a[k] == was[k]
      invariant a[..n] == Filter(was[..i], ids, true)
    {
      assert was[..i + 1][..i] == was[..i];
      var s := a[i];
      if s.id in ids {
        ghost var kept := a[..n];
        a[n] := s;
        n := n + 1;
        assert a[..n] == kept + [s];
      }
    }
    assert was[..a.Length] == was;
  }

  method FilterSlice(snapshots: seq<Snapshot>, ids: set<ID>) returns (kept: seq<Snapshot>)
    ensures kept == Filter(snapshots, ids, true)
  {
    var a := new Snapshot[|snapshots|](i requires 0 <= i < |snapshots| => snapshots[i]);
    assert a[..] == snapshots;
    var n := FilterInPlace(a, ids);
    kept := a[..n];
  }

  /** Keeps of the second plan what the first one selected as well. */
  method RevalidatedAgainst(plan: Plan, initial: set<ID>) returns (r: Plan)
    ensures r.remove == plan.remove * initial && r.protected == plan.protected && |r.groups| == |plan.groups|
    ensures forall i :: 0 <= i < |r.groups| ==>
      r.groups[i] == plan.groups[i].(remove := Filter(plan.groups[i].remove, r.remove, true))
  {
    var remove, groups := plan.remove * initial, plan.groups;
    for i := 0 to |groups|
      invariant |groups| == |plan.groups|
      invariant forall k :: 0 <= k < i ==> groups[k] == plan.groups[k].(remove := Filter(plan.groups[k].remove, remove, true))
      invariant forall k :: i <= k < |groups| ==> groups[k] == plan.groups[k]
    {
      var filtered := FilterSlice(groups[i].remove, remove);
      groups := groups[i := groups[i].(remove := filtered)];
    }
    r := Plan(remove, groups, plan.protected);
  }

  /** After revalidation the groups list exactly what is to be removed. */
  lemma GroupsListRemoved(options: Options, o: Observation, plan: Plan, r: Plan, id: ID)
    requires !options.explicit && plan.remove == Selected(options, o)
    requires AreGroups(plan.groups, options.policy, Unprotected(options, o.found, o.now), {})
    requires r.remove <= plan.remove && |r.groups| == |plan.groups|
    requires forall i :: 0 <= i < |r.groups| ==>
      r.groups[i] == plan.groups[i].(remove := Filter(plan.groups[i].remove, r.remove, true))
    ensures id in r.remove <==> exists i, s :: 0 <= i < |r.groups| && s in r.groups[i].remove && s.id == id
  {
    var candidates := Unprotected(options, o.found, o.now);
    if id in r.remove {
      var s :| s in candidates && Removed(options.policy, candidates, s) && s.id == id;
      var g :| g in plan.groups && g.key == s.group;
      var i :| 0 <= i < |plan.groups| && plan.groups[i] == g;
      var members := Members(candidates, s.group);
      MembersOf(candidates, s.group, s);
      assert IsSplit(g, options.policy, candidates);
      FilterMembers(members, options.policy.removes(members), true, s);
      FilterMembers(g.remove, r.remove, true, s);
      assert s in r.groups[i].remove;
    }
    if i, s :| 0 <= i < |r.groups| && s in r.groups[i].remove && s.id == id {
      FilterMembers(plan.groups[i].remove, r.remove, true, s);
    }
  }

  // ---------------------------------------------------------------------------------------
  // Both phases
  // ---------------------------------------------------------------------------------------

  /** The snapshot files of a repository. */
  type Files = map<ID, Snapshot>

  /** Deletes snapshots; any of the deletions may fail. */
  method DeleteSnapshots(repo: Files, ids: set<ID>) returns (after: Files, failed: set<ID>)
    ensures failed <= ids && after == repo - (ids - failed)
  {
    after, failed := repo, {};
    var left := ids;
    while left != {}
      invariant left <= ids && failed <= ids - left && after == repo - (ids - left - failed)
      decreases left
    {
      var id :| id in left;
      var fails: bool := *;
      if fails {
        failed := failed + {id};
      } else {
        after := after - {id};
      }
      left := left - {id};
    }
  }

  /** What is selected was found and is not protected. */
  lemma SelectedMeans(options: Options, o: Observation, id: ID)
    requires id in Selected(options, o)
    ensures exists s :: s in o.found && s.id == id && !Protected(options, s, o.now)
  {
    var candidates := Unprotected(options, o.found, o.now);
    var s :| s in candidates && s.id == id;
    UnprotectedMembers(options, o.found, o.now, s);
  }

  /** Under a policy that is not empty, every group that was found keeps a member. */
  lemma GroupKeepsMember(options: Options, o: Observation, s: Snapshot)
    requires !Refused(options, o) && !options.explicit && !options.policy.empty && Consistent(o.found) && s in o.found
    ensures exists t :: t in o.found && t.group == s.group && t.id !in Selected(options, o)
  {
    var candidates := Unprotected(options, o.found, o.now);
    UnprotectedMembers(options, o.found, o.now, s);
    forall t | t in candidates ensures t in o.found {
      UnprotectedMembers(options, o.found, o.now, t);
    }
    if s in candidates {
      var t :| t in candidates && t.group == s.group && !Removed(options.policy, candidates, t);
      assert t.id !in Selected(options, o);
    } else {
      assert s.id !in Selected(options, o);
    }
  }

  /** What the repository loses between two states. */
  function Lost(before: Files, after: Files): set<ID> {
    before.Keys - after.Keys
  }

  /** The second plan, cut down to what the first one selected. */
  method Revalidate(options: Options, second: Observation, initial: set<ID>) returns (r: Result<set<ID>>)
    ensures r.Err? <==> Refused(options, second)
    ensures r.Ok? ==> r.value == Selected(options, second) * initial
  {
    var current := BuildPlan(options, second);
    if current.Err? {
      return Err;
    }
    var plan := RevalidatedAgainst(current.value, initial);
    return Ok(plan.remove);
  }

  /** What a run may do to the repository: it loses only snapshots that both observations select, none
      that the first did not find, and unless overridden none that is never to be deleted or not before
      a time that has not passed; and under a policy that is not empty, every group found the second time
      keeps a member. */
  ghost predicate Allowed(options: Options, first: Observation, second: Observation, before: Files, after: Files) {
    && after.Keys <= before.Keys && (forall id :: id in after ==> after[id] == before[id])
    && Lost(before, after) <= Selected(options, first) * Selected(options, second)
    && (forall id :: id in Lost(before, after) ==>
      !Protected(options, before[id], second.now) && exists s :: s in first.found && s.id == id)
    && (!options.override ==> forall id, d :: id in Lost(before, after) && before[id].delete == Some(d) ==>
      !d.never && (d.after.Some? ==> d.after.value < second.now))
    && (!options.explicit && !options.policy.empty ==> forall s :: s in second.found ==> Survives(second.found, s.group, after))
  }

  ghost predicate Survives(found: seq<Snapshot>, key: string, after: Files) {
    exists t :: t in found && t.group == key && t.id in after
  }

  /** The listing under the exclusive lock shows what is in the repository. */
  ghost predicate Lists(o: Observation, repo: Files) {
    Consistent(o.found) && forall s :: s in o.found ==> s.id in repo && repo[s.id] == s
  }

  lemma NothingLost(options: Options, first: Observation, second: Observation, repo: Files)
    requires Lists(second, repo)
    ensures Lost(repo, repo) == {} && Allowed(options, first, second, repo, repo)
  {
  }

  lemma SelectedLost(options: Options, first: Observation, second: Observation, repo: Files, lost: set<ID>)
    requires Lists(second, repo) && !Refused(options, second)
    requires lost <= Selected(options, first) * Selected(options, second)
    ensures Lost(repo, repo - lost) == lost && Allowed(options, first, second, repo, repo - lost)
  {
    forall id | id in lost
      ensures id in repo && !Protected(options, repo[id], second.now) && exists s :: s in first.found && s.id == id {
      SelectedMeans(options, first, id);
      SelectedMeans(options, second, id);
    }
    if !options.explicit && !options.policy.empty {
      forall s | s in second.found ensures Survives(second.found, s.group, repo - lost) {
        GroupKeepsMember(options, second, s);
      }
    }
  }

  /** Some member of the group is not selected in one of the two observations. */
  ghost predicate Spared(options: Options, first: Observation, second: Observation, key: string) {
    exists t :: t in second.found && t.group == key && !(t.id in Selected(options, first) && t.id in Selected(options, second))
  }

  lemma SurvivesWhenSpared(options: Options, first: Observation, second: Observation, repo: Files)
    requires Lists(second, repo)
    ensures GroupsSpared(options, first, second, repo - Selected(options, first) * Selected(options, second))
  {
    forall key ensures Survives(second.found, key, repo - Selected(options, first) * Selected(options, second)) <==> Spared(options, first, second, key) {
      GroupSurvivesWhen(options, first, second, repo, key);
    }
  }

  /** A group keeps a member exactly if one of its members is spared. */
  ghost predicate GroupsSpared(options: Options, first: Observation, second: Observation, after: Files) {
    forall key :: Survives(second.found, key, after) <==> Spared(options, first, second, key)
  }

  lemma GroupSurvivesWhen(options: Options, first: Observation, second: Observation, repo: Files, key: string)
    requires Lists(second, repo)
    ensures Survives(second.found, key, repo - Selected(options, first) * Selected(options, second)) <==> Spared(options, first, second, key)
  {
    var after := repo - Selected(options, first) * Selected(options, second);
    if t :| t in second.found && t.group == key && t.id in after {
      assert t.id !in Selected(options, first) * Selected(options, second);
    }
    if t :| t in second.found && t.group == key && !(t.id in Selected(options, first) && t.id in Selected(options, second)) {
      assert t.id in after;
    }
  }

  /** Snapshots that were named are spared exactly if they are protected in the second observation, or in
      the first were protected or not found. */
  lemma ExplicitSpares(options: Options, first: Observation, second: Observation, key: string)
    requires options.explicit && Consistent(second.found)
    ensures Spared(options, first, second, key) <==> exists t :: t in second.found && t.group == key && NamedInVain(options, first, second, t)
  {
    forall t | t in second.found
      ensures !(t.id in Selected(options, first) && t.id in Selected(options, second)) <==> NamedInVain(options, first, second, t) {
      ExplicitSelects(options, first, t.id);
      ExplicitSelects(options, second, t.id);
    }
  }

  ghost predicate NamedInVain(options: Options, first: Observation, second: Observation, t: Snapshot) {
    Protected(options, t, second.now) || forall s :: s in first.found && s.id == t.id ==> Protected(options, s, first.now)
  }

  /** Runs both phases.  `repo` is the repository when the exclusive lock is held; between the phases
      other writers may have added, protected or replaced anything. */
  method RunForget(options: Options, dryRun: bool, first: Observation, second: Observation, repo: Files)
    returns (after: Files, ok: bool)
    requires Lists(second, repo)
    ensures Allowed(options, first, second, repo, after)
    ensures dryRun || Refused(options, first) || Refused(options, second) ==> after == repo
    ensures ok && !dryRun ==> Lost(repo, after) == Selected(options, first) * Selected(options, second)
    ensures ok && !dryRun ==> GroupsSpared(options, first, second, after)
  {
    NothingLost(options, first, second, repo);
    var initial := BuildPlan(options, first);
    if dryRun {
      return repo, initial.Ok?;
    }
    if initial.Err? {
      return repo, false;
    }
    var remove := Revalidate(options, second, initial.value.remove);
    if remove.Err? {
      return repo, false;
    }
    var failed: set<ID>;
    after, failed := DeleteSnapshots(repo, remove.value);
    SelectedLost(options, first, second, repo, remove.value - failed);
    assert failed == {} ==> remove.value - failed == remove.value;
    SurvivesWhenSpared(options, first, second, repo);
    return after, failed == {};
  }

  /** With snapshots named explicitly, selected is exactly what was found and is not protected: a group
      then keeps a member only if one is protected or was not found. */
  lemma ExplicitSelects(options: Options, o: Observation, id: ID)
    requires options.explicit
    ensures id in Selected(options, o) <==> exists s :: s in o.found && s.id == id && !Protected(options, s, o.now)
  {
    forall s ensures s in Unprotected(options, o.found, o.now) <==> s in o.found && !Protected(options, s, o.now) {
      UnprotectedMembers(options, o.found, o.now, s);
    }
  }

  /** With snapshots named explicitly the policy is not asked, and a group can lose all its members. */
  lemma ExplicitCanEmptyGroup()
    ensures exists options: Options, o: Observation ::
      && options.explicit && !options.policy.empty && !Refused(options, o)
      && o.found != [] && forall s :: s in o.found ==> s.id in Selected(options, o)
  {
    var s := Snapshot(1, "host", None);
    var options := Options(true, false, false, true, Policy(false, (members: seq<Snapshot>) => {}));
    var o := Observation([s], 0, true, false);
    assert o.found == [] + [s] && o.found[..0] == [];
    assert Unprotected(options, o.found, o.now) == [s];
    assert !Refused(options, o) && options.explicit;
    assert s.id in Selected(options, o);
  }
}
