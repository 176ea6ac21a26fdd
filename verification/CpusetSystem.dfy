/** The cpuset code as it runs: cpuset objects changed in place under cpuset_mutex.  `model` is the value of
    the whole hierarchy; every operation moves it by the matching step of CpusetTree. */
module CpusetSystem {
  import opened CpusetTree
  import opened CpusetRules
  import opened CpusetRuns
  import opened CpusetDomains
  import opened CpusetEvents
  import opened SchedDomains
  import opened PartitionChange
  import P = Partition

  class Hierarchy {
    var sets: seq<Cpuset>
    var home: map<Task, nat>
    var count: int  // number_of_cpusets
    var active: set<Cpu>  // cpu_active_mask, as the hotplug worker last found it
    var nodes: set<MemNode>  // node_states[N_MEMORY]
    var domains: seq<set<Cpu>>  // what partition_sched_domains() was last given
    ghost var model: Sys

    /** `model` is the value of the objects. */
    ghost predicate Mirrors()
      reads this, sets
    {
      && Distinct(sets) && |model.sets| == |sets|
      && (forall i :: 0 <= i < |sets| ==> sets[i].View() == model.sets[i])
      && home == model.home && count == model.count && active == model.active && nodes == model.nodes
    }

    /** What the methods need; that the rules of Inv hold as well is a matter of the steps alone. */
    ghost predicate Valid()
      reads this, sets
    {
      && Mirrors() && WellFormed(model.sets) && HomesOnline(model)
      && model.sets[0].cpus == model.active
    }

    /** cpuset_init and cpuset_init_smp */
    constructor (cpus: set<Cpu>, mems: set<MemNode>, tasks: set<Task>)
      requires cpus != {} && mems != {}
      ensures Valid() && model == Boot(cpus, mems, tasks) && Inv(model) && Current(domains, model.sets)
      ensures fresh(sets)
    {
      var top := new Cpuset(0, {Online, CpuExclusive, MemExclusive, SchedLoadBalance}, cpus, mems);
      sets, home, count := [top], map k | k in tasks :: 0, 1;
      active, nodes, domains := cpus, mems, [cpus];
      model := Boot(cpus, mems, tasks);
      new;
      BootKeepsRules(cpus, mems, tasks);
      WholeDomain(model.sets, cpus);
    }

    /** validate_change */
    method ValidateChange(cur: nat, trial: Cs) returns (e: Errno)
      requires Valid() && cur < |sets|
      ensures e == Validate(model, cur, trial)
    {
      for c := 1 to |sets|
        invariant forall x: nat :: 1 <= x < c && IsChild(model.sets, x, cur) ==> IsSubset(model.sets[x], trial)
      {
        if sets[c].parent == cur && Online in sets[c].flags && !IsSubset(sets[c].View(), trial) {
          assert IsChild(model.sets, c, cur);
          return EBUSY;
        }
      }
      if cur == 0 {
        return Ok;
      }
      var par := sets[cur].parent;
      assert par == model.sets[cur].parent;
      if !IsSubset(trial, sets[par].View()) {
        return EACCES;
      }
      for c := 1 to |sets|
        invariant forall x: nat :: 1 <= x < c && IsChild(model.sets, x, par) && x != cur ==> !Conflict(trial, model.sets[x])
      {
        if sets[c].parent == par && Online in sets[c].flags && c != cur && Conflict(trial, sets[c].View()) {
          assert IsChild(model.sets, c, par);
          return EINVAL;
        }
      }
      var hasTasks := exists k | k in home.Keys :: home[k] == cur;
      if (hasTasks || sets[cur].attaching > 0) && (trial.cpus == {} || trial.mems == {}) {
        return ENOSPC;
      }
      return Ok;
    }

    /** The walk at the head of generate_sched_domains(), which skips what lies below a balanced or an empty
        cpuset. */
    method Walk() returns (csa: seq<Cpuset>)
      requires Mirrors() && WellFormed(model.sets)
      ensures var index := SelectedBelow(model.sets, |model.sets|);
        |csa| == |index| && forall a :: 0 <= a < |csa| ==> csa[a] == sets[index[a]]
    {
      hide Reached, SelectedBelow, Selected;
      csa := [];
      var skipped: set<int> := {};
      ghost var t := model.sets;
      WalkStart(t);
      for i := 1 to |sets|
        invariant Skipped(t, i, skipped)
        invariant |csa| == |SelectedBelow(t, i)| && forall a :: 0 <= a < |csa| ==> csa[a] == sets[SelectedBelow(t, i)[a]]
      {
        var cp := sets[i];
        assert cp.View() == t[i];
        WalkStep(t, i, skipped);
        if cp.parent in skipped {
          skipped := skipped + {i};
        } else if Online in cp.flags && (cp.cpus == {} || SchedLoadBalance in cp.flags) {
          if SchedLoadBalance in cp.flags {
            csa := csa + [cp];
          }
          skipped := skipped + {i};
        }
      }
    }

    /** The array `csa`.  When number_of_cpusets counts the online cpusets, the room allocated for it is
        never used up. */
    method Collect() returns (csa: seq<Cpuset>, ghost m: seq<set<Cpu>>)
      requires Valid() && SchedLoadBalance !in model.sets[0].flags
      ensures Distinct(csa) && HasMasks(csa, m) && (forall a :: 0 <= a < |csa| ==> csa[a] in sets)
      ensures P.NonEmpty(m) == BalancedMap(model.sets).Values
      ensures count == |OnlineSet(model.sets)| ==> |csa| < count
    {
      csa := Walk();
      ghost var t := model.sets;
      ghost var index := SelectedBelow(t, |t|);
      SelectedBelowIs(t, |t|);
      m := seq(|csa|, a requires 0 <= a < |csa| reads csa => csa[a].cpus);
      assert forall a :: 0 <= a < |csa| ==> sets[index[a]].View() == t[index[a]];
      CollectedMasks(t, index, m);
      SelectedFewer(t);
    }

    /** generate_sched_domains() */
    method GenerateSchedDomains() returns (doms: seq<set<Cpu>>)
      requires Valid()
      modifies sets`pn
      ensures Valid() && Current(doms, model.sets)
    {
      assert sets[0].View() == model.sets[0];
      if SchedLoadBalance in sets[0].flags {
        doms := [sets[0].cpus];
        WholeDomain(model.sets, doms[0]);
        return;
      }
      var csa, m := Collect();
      assert forall a :: 0 <= a < |csa| ==> csa[a] in sets;
      doms := BuildDomains(csa, m);
    }

    /** rebuild_sched_domains_locked() */
    method Rebuild()
      requires Valid()
      modifies this`domains, sets`pn
      ensures Valid() && Current(domains, model.sets)
    {
      assert sets[0].View() == model.sets[0];
      if sets[0].cpus != active {
        return;
      }
      domains := GenerateSchedDomains();
    }

    method Install(cur: nat, trial: Cs)
      requires Valid() && cur < |sets| && trial.parent == model.sets[cur].parent && trial.attaching == model.sets[cur].attaching
      requires IsOnline(trial) == IsOnline(model.sets[cur])
      requires cur == 0 ==> trial.cpus == model.sets[0].cpus
      modifies this`model, sets[cur]
      ensures Valid() && model == Put(old(model), cur, trial)
    {
      sets[cur].flags, sets[cur].cpus, sets[cur].mems := trial.flags, trial.cpus, trial.mems;
      model := Put(model, cur, trial);
    }

    /** update_cpumask, behind the checks of cpuset_write_resmask */
    method UpdateCpumask(cur: nat, w: MaskWrite) returns (e: Errno)
      requires Valid() && cur < |sets|
      modifies this, sets
      ensures Valid() && sets == old(sets) && (e, model) == WriteCpus(old(model), cur, w)
      ensures DomainsAfter(old(model), OpWriteCpus(cur, w), old(domains), domains)
    {
      var trial := sets[cur].View();
      if Online !in trial.flags {
        return ENODEV;
      }
      if cur == 0 {
        return EACCES;
      }
      match w {
        case Blank => trial := trial.(cpus := {});
        case Malformed => return EINVAL;
        case Listed(mask) =>
          trial := trial.(cpus := mask);
          if !(mask <= active) {
            return EINVAL;
          }
      }
      e := ValidateChange(cur, trial);
      if e != Ok {
        return;
      }
      if sets[cur].cpus == trial.cpus {
        assert Put(model, cur, trial) == model;
        return;
      }
      Install(cur, trial);
      if SchedLoadBalance in trial.flags {
        Rebuild();
      }
    }

    /** update_nodemask */
    method UpdateNodemask(cur: nat, w: MaskWrite) returns (e: Errno)
      requires Valid() && cur < |sets|
      modifies this, sets
      ensures Valid() && sets == old(sets) && (e, model) == WriteMems(old(model), cur, w)
      ensures DomainsAfter(old(model), OpWriteMems(cur, w), old(domains), domains)
    {
      var trial := sets[cur].View();
      if Online !in trial.flags {
        return ENODEV;
      }
      if cur == 0 {
        return EACCES;
      }
      match w {
        case Blank => trial := trial.(mems := {});
        case Malformed => return EINVAL;
        case Listed(mask) =>
          trial := trial.(mems := mask);
          if !(mask <= nodes) {
            return EINVAL;
          }
      }
      if sets[cur].mems == trial.mems {
        return Ok;
      }
      e := ValidateChange(cur, trial);
      if e == Ok {
        Install(cur, trial);
      }
    }

    /** update_flag */
    method SetFlag(f: Flag, cur: nat, on: bool) returns (e: Errno)
      requires Valid() && cur < |sets| && Online in sets[cur].flags && f != Online
      modifies this, sets
      ensures Valid() && sets == old(sets) && (e, model) == UpdateFlag(old(model), cur, f, on)
      ensures DomainsAfter(old(model), OpWriteFlag(cur, f, on), old(domains), domains)
    {
      assert sets[cur].View() == model.sets[cur];
      var trial := WithFlag(sets[cur].View(), f, on);
      e := ValidateChange(cur, trial);
      if e != Ok {
        return;
      }
      var balanceChanged := (SchedLoadBalance in sets[cur].flags) != (SchedLoadBalance in trial.flags);
      Install(cur, trial);
      if trial.cpus != {} && balanceChanged {
        Rebuild();
      }
    }

    /** Whether cpuset_css_online may copy the parent's masks: no online child of it is exclusive. */
    method NoExclusiveChild(par: nat) returns (none: bool)
      requires Valid() && par < |sets|
      ensures none <==> !AnyExclusiveChild(model.sets, par)
    {
      for c := 1 to |sets|
        invariant forall x: nat :: 1 <= x < c && IsChild(model.sets, x, par) ==>
                    CpuExclusive !in model.sets[x].flags && MemExclusive !in model.sets[x].flags
      {
        var cs := sets[c];
        assert cs.View() == model.sets[c];
        if cs.parent == par && Online in cs.flags && (MemExclusive in cs.flags || CpuExclusive in cs.flags) {
          assert IsChild(model.sets, c, par);
          return false;
        }
      }
      return true;
    }

    method Append(cs: Cpuset, ghost s': Sys)
      requires Valid() && cs !in sets && cs.parent < |sets| && IsOnline(model.sets[cs.parent])
      requires s' == model.(sets := model.sets + [cs.View()], count := model.count + 1)
      modifies this`sets, this`count, this`model
      ensures Valid() && model == s' && sets == old(sets) + [cs]
    {
      GrownShape(model, cs.View());
      sets, count, model := sets + [cs], count + 1, s';
    }

    /** cpuset_css_alloc and cpuset_css_online */
    method CssOnline(par: nat, clone: bool)
      requires Valid() && par < |sets| && Online in sets[par].flags
      modifies this
      ensures Valid() && model == Create(old(model), par, clone) && domains == old(domains)
      ensures |sets| == |old(sets)| + 1 && sets[..|old(sets)|] == old(sets) && fresh(sets[|old(sets)|])
    {
      var p := sets[par];
      assert p.View() == model.sets[par];
      var none := NoExclusiveChild(par);
      var flags := {SchedLoadBalance, Online};
      if SpreadPage in p.flags {
        flags := flags + {SpreadPage};
      }
      if SpreadSlab in p.flags {
        flags := flags + {SpreadSlab};
      }
      assert flags == {SchedLoadBalance, Online} + Inherited(model.sets[par]);
      var copy := clone && none;
      var cs := new Cpuset(par, flags, if copy then p.cpus else {}, if copy then p.mems else {});
      assert cs.View() == Create(model, par, clone).sets[|sets|];
      Append(cs, Create(model, par, clone));
    }

    /** Clearing CS_ONLINE, once nothing is left in or below the cpuset */
    method ClearOnline(cur: nat)
      requires Valid() && Removable(model, cur)
      modifies this`model, this`count, sets[cur]
      ensures Valid() && model == Put(old(model), cur, WithFlag(old(model).sets[cur], Online, false)).(count := old(model).count - 1)
    {
      assert sets[cur].View() == model.sets[cur];
      GoneShape(model, cur);
      count := count - 1;
      sets[cur].flags := sets[cur].flags - {Online};
      model := Put(model, cur, WithFlag(model.sets[cur], Online, false)).(count := model.count - 1);
    }

    /** cpuset_css_offline */
    method CssOffline(cur: nat)
      requires Valid() && Removable(model, cur)
      modifies this, sets
      ensures Valid() && sets == old(sets) && model == Remove(old(model), cur)
      ensures DomainsAfter(old(model), OpRemove(cur), old(domains), domains)
    {
      assert sets[cur].View() == model.sets[cur];
      if SchedLoadBalance in sets[cur].flags {
        StillRemovable(model, cur);
        var e := SetFlag(SchedLoadBalance, cur, false);
      }
      ClearOnline(cur);
    }

    /** remove_tasks_in_empty_cpuset: walk up to a cpuset with both kinds of resources, and move there every
        task that can be moved */
    method RemoveTasks(cur: nat, stuck: set<Task>)
      requires Mirrors() && WellFormed(model.sets) && 0 < cur < |sets|
      requires !HasResources(model.sets[cur]) && HasResources(model.sets[0])
      modifies this`home, this`model
      ensures Mirrors() && model == old(model).(home := home)
      ensures home == map k | k in old(home) ::
                        if old(home)[k] == cur && k !in stuck then Nearest(model.sets, cur) else old(home)[k]
      ensures forall k :: k in old(home) && old(home)[k] == cur && k !in stuck ==> IsNearest(model.sets, cur, home[k])
    {
      assert sets[cur].View() == model.sets[cur];
      var parent: nat := sets[cur].parent;
      while sets[parent].cpus == {} || sets[parent].mems == {}
        invariant parent < |sets| && Nearest(model.sets, parent) == Nearest(model.sets, cur)
        decreases parent
      {
        assert sets[parent].View() == model.sets[parent];
        parent := sets[parent].parent;
      }
      assert sets[parent].View() == model.sets[parent];
      home := map k | k in home :: if home[k] == cur && k !in stuck then parent else home[k];
      model := model.(home := home);
    }

    /** The part of cpuset_propagate_hotplug_workfn under the mutex: the masks of one cpuset */
    method PropagateMasks(cur: nat)
      requires Mirrors() && 0 < cur < |sets|
      modifies this`model, sets[cur]
      ensures Mirrors() && model == Put(old(model), cur, Propagated(old(model).sets[cur], old(model).sets[0].cpus, old(model).sets[0].mems))
    {
      var cs, top := sets[cur], sets[0];
      assert cs.View() == model.sets[cur] && top.View() == model.sets[0];
      var offCpus, offMems := cs.cpus - top.cpus, cs.mems - top.mems;
      if offCpus != {} && cs.cpus * top.cpus == {} {
        cs.cpus := cs.cpus - offCpus;
      }
      if offMems != {} {
        cs.mems := cs.mems - offMems;
      }
      model := Put(model, cur, Propagated(model.sets[cur], top.cpus, top.mems));
    }

    /** cpuset_propagate_hotplug_workfn */
    method Propagate(cur: nat, stuck: set<Task>)
      requires Mirrors() && WellFormed(model.sets) && 0 < cur < |sets| && HasResources(model.sets[0])
      modifies this`home, this`model, sets[cur]
      ensures Mirrors() && WellFormed(model.sets)
      ensures model.sets == old(model.sets)[cur := Propagated(old(model).sets[cur], old(model).sets[0].cpus, old(model).sets[0].mems)]
      ensures model == old(model).(sets := model.sets, home := home)
      ensures home == map k | k in old(home) ::
                        if old(home)[k] == cur && k !in stuck then Nearest(model.sets, cur) else old(home)[k]
    {
      PropagateMasks(cur);
      assert sets[cur].View() == model.sets[cur];
      if sets[cur].cpus == {} || sets[cur].mems == {} {
        RemoveTasks(cur, stuck);
      }
    }

    method SyncRoot(cpus: set<Cpu>, mems: set<MemNode>)
      requires Valid()
      modifies this`active, this`nodes, this`model, sets[0]
      ensures Valid()
      ensures model == old(model).(sets := old(model).sets[0 := old(model).sets[0].(cpus := cpus, mems := mems)], active := cpus, nodes := mems)
    {
      assert sets[0].View() == model.sets[0];
      active, nodes := cpus, mems;
      sets[0].cpus, sets[0].mems := cpus, mems;
      model := model.(sets := model.sets[0 := model.sets[0].(cpus := cpus, mems := mems)], active := cpus, nodes := mems);
    }

    method PropagateNext(i: nat, stuck: set<Task>, ghost s: Sys, ghost target: seq<Cs>)
      requires Mirrors() && WellFormed(model.sets) && 0 < i < |sets| && |s.sets| > 0 && HasResources(s.sets[0])
      requires target == HotplugSets(s.sets, s.sets[0].cpus, s.sets[0].mems, true) && Swept(s, target, i, stuck, model)
      modifies this`home, this`model, sets[i]
      ensures Mirrors() && WellFormed(model.sets) && Swept(s, target, i + 1, stuck, model)
    {
      ghost var before := model;
      assert sets[i].View() == model.sets[i];
      if Online in sets[i].flags {
        Propagate(i, stuck);
      }
      SweptStep(s, target, i, stuck, before, model);
    }

    /** The queued propagations.  The queue is ordered, ancestors first. */
    method PropagateAll(stuck: set<Task>)
      requires Valid() && HasResources(model.sets[0])
      modifies this`home, this`model, sets
      ensures Mirrors()
      ensures var t := HotplugSets(old(model).sets, old(model).sets[0].cpus, old(model).sets[0].mems, true);
        WellFormed(t) && model == old(model).(sets := t, home := Evacuated(t, old(model).home, stuck))
    {
      ghost var s := model;
      ghost var target := HotplugSets(s.sets, s.sets[0].cpus, s.sets[0].mems, true);
      for i := 1 to |sets|
        invariant Mirrors() && WellFormed(model.sets) && Swept(s, target, i, stuck, model)
      {
        PropagateNext(i, stuck, s, target);
      }
      SweptAll(s, target, stuck, model);
    }

    /** cpuset_hotplug_workfn */
    method HotplugWork(cpus: set<Cpu>, mems: set<MemNode>, stuck: set<Task>)
      requires Valid() && cpus != {} && mems != {}
      modifies this, sets
      ensures Valid() && sets == old(sets) && model == Hotplug(old(model), cpus, mems, stuck)
      ensures DomainsAfter(old(model), OpHotplug(cpus, mems, stuck), old(domains), domains)
    {
      assert sets[0].View() == model.sets[0];
      var cpusUpdated := sets[0].cpus != cpus;
      var offlined := sets[0].cpus - cpus != {} || sets[0].mems - mems != {};
      SyncRoot(cpus, mems);
      ghost var s := model;
      SyncedHotplug(old(model), s, cpus, mems, stuck);
      if offlined {
        PropagateAll(stuck);
      }
      if cpusUpdated {
        Rebuild();
      }
      HotplugDomains(old(model), cpus, mems, stuck, old(domains), domains);
    }

    /** cpuset_update_active_cpus, up to scheduling the worker */
    method UpdateActiveCpus(cpus: set<Cpu>)
      requires Valid()
      modifies this`domains
      ensures Valid() && domains == DefaultDomain(cpus)
    {
      domains := [cpus];
    }

    /** CPU events, each of which leaves the given CPUs active, and then the worker, once for all of them */
    method CpuEvents(events: seq<set<Cpu>>, mems: set<MemNode>, stuck: set<Task>)
      requires Valid() && Inv(model) && events != [] && events[|events| - 1] != {} && mems != {}
      modifies this, sets
      ensures Valid() && Inv(model) && sets == old(sets)
      ensures model == Hotplug(old(model), events[|events| - 1], mems, stuck)
      ensures Current(domains, model.sets) <==>
        events[|events| - 1] != old(model).active || OneGroup(Masks(old(model).sets), old(model).active)
    {
      hide Inv, OneGroup, Current, DomainsAfter;
      for i := 0 to |events|
        invariant Valid() && model == old(model) && sets == old(sets) && domains == AfterEvents(old(domains), events[..i])
      {
        UpdateActiveCpus(events[i]);
        assert events[..i + 1][i] == events[i];
      }
      assert events[..|events|] == events;
      var last := events[|events| - 1];
      ghost var turn := Turn(events, OpHotplug(last, mems, stuck));
      StepKeepsRules(model, turn.op);
      ghost var s := model;
      HotplugWork(last, mems, stuck);
      TurnExactly(s, turn, old(domains), domains);
    }

    /** cpuset_can_attach for a task that may be moved */
    method CanAttach(cur: nat) returns (e: Errno)
      requires Valid() && cur < |sets|
      modifies this`model, sets[cur]
      ensures Valid() && (e, model) == BeginAttach(old(model), cur)
    {
      assert sets[cur].View() == model.sets[cur];
      if sets[cur].cpus == {} || sets[cur].mems == {} {
        return ENOSPC;
      }
      sets[cur].attaching := sets[cur].attaching + 1;
      model := BeginAttach(model, cur).1;
      return Ok;
    }

    /** cpuset_cancel_attach */
    method CancelAttaching(cur: nat)
      requires Valid() && cur < |sets| && sets[cur].attaching > 0
      modifies this`model, sets[cur]
      ensures Valid() && old(model).sets[cur].attaching > 0 && model == CancelAttach(old(model), cur)
    {
      assert sets[cur].View() == model.sets[cur];
      sets[cur].attaching := sets[cur].attaching - 1;
      model := CancelAttach(model, cur);
    }

    method MoveTask(k: Task, cur: nat)
      requires Valid() && cur < |sets| && sets[cur].attaching > 0
      modifies this`home, this`model, sets[cur]
      ensures Mirrors() && old(model).sets[cur].attaching > 0
      ensures model == CancelAttach(old(model), cur).(home := old(model).home[k := cur])
    {
      assert sets[cur].View() == model.sets[cur];
      sets[cur].attaching := sets[cur].attaching - 1;
      home := home[k := cur];
      model := CancelAttach(model, cur).(home := home);
    }

    /** cpuset_attach for task `k`, with the propagation it schedules when the cpuset has been emptied */
    method Attach(k: Task, cur: nat, stuck: set<Task>)
      requires Valid() && Enabled(model, OpFinishAttach(k, cur, stuck)) && HasResources(model.sets[0])
      modifies this`home, this`model, sets[cur]
      ensures Mirrors() && model == FinishAttach(old(model), k, cur, stuck)
    {
      assert sets[cur].View() == model.sets[cur];
      MoveTask(k, cur);
      assert sets[cur].View() == model.sets[cur];
      if sets[cur].cpus == {} || sets[cur].mems == {} {
        Propagate(cur, stuck);
      }
    }

    /** The writes to the files of a cpuset */
    method IssueWrite(op: Op)
      requires Valid() && Enabled(model, op) && (op.OpWriteCpus? || op.OpWriteMems? || op.OpWriteFlag?)
      modifies this, sets
      ensures Valid() && sets == old(sets) && model == Step(old(model), op)
      ensures DomainsAfter(old(model), op, old(domains), domains)
    {
      hide Validate, Current;
      assert sets[op.cur].View() == model.sets[op.cur];
      match op {
        case OpWriteCpus(cur, w) => var e := UpdateCpumask(cur, w);
        case OpWriteMems(cur, w) => var e := UpdateNodemask(cur, w);
        case OpWriteFlag(cur, f, on) =>
          if Online in sets[cur].flags { var e := SetFlag(f, cur, on); }
      }
    }

    /** The steps of attaching a task */
    method IssueAttach(op: Op)
      requires Valid() && Inv(model) && Enabled(model, op) && (op.OpBeginAttach? || op.OpFinishAttach? || op.OpCancelAttach?)
      modifies this, sets
      ensures Valid() && sets == old(sets) && model == Step(old(model), op)
      ensures DomainsAfter(old(model), op, old(domains), domains)
    {
      hide Validate, Current, SiblingsDisjoint, Nested, MasksLive, Propagated;
      StepKeepsRules(model, op);
      assert sets[op.cur].View() == model.sets[op.cur];
      match op {
        case OpBeginAttach(cur) => var e := CanAttach(cur);
        case OpFinishAttach(k, cur, stuck) => Attach(k, cur, stuck);
        case OpCancelAttach(cur) => CancelAttaching(cur);
      }
    }

    /** Any operation, issued where the kernel issues it: the objects follow the value step by step, the rules
        of Inv hold again, and the scheduler has the domains that the operation leaves. */
    method Issue(op: Op)
      requires Valid() && Inv(model) && Enabled(model, op)
      modifies this, sets
      ensures Valid() && Inv(model) && model == Step(old(model), op)
      ensures DomainsAfter(old(model), op, old(domains), domains)
      ensures forall x :: x in sets ==> x in old(sets) || fresh(x)
    {
      hide Inv, Current, Validate, Occupied, UpdateFlag, WriteCpus, WriteMems, WriteFlag, BeginAttach, FinishAttach, Removable;
      hide Nested, SiblingsDisjoint, MasksLive, HotplugSets, Evacuated, Nearest, IsNearest, Above, Propagated;
      StepKeepsRules(model, op);
      match op {
        case OpCreate(par, clone) =>
          assert sets[par].View() == model.sets[par];
          CssOnline(par, clone);
        case OpRemove(cur) => CssOffline(cur);
        case OpHotplug(cpus, mems, stuck) => HotplugWork(cpus, mems, stuck);
        case OpBeginAttach(_) => IssueAttach(op);
        case OpFinishAttach(_, _, _) => IssueAttach(op);
        case OpCancelAttach(_) => IssueAttach(op);
        case _ => IssueWrite(op);
      }
    }

    /** guarantee_online_cpus: the nearest cpuset at or above `cur` with an online CPU decides, and without
        one the whole online mask does. */
    method GuaranteeOnlineCpus(cur: nat, online: set<Cpu>) returns (pmask: set<Cpu>)
      requires Valid() && cur < |sets| && online != {}
      ensures pmask != {} && pmask <= online
      ensures model.sets[cur].cpus * online != {} ==> pmask == model.sets[cur].cpus * online
      ensures FirstOnline(model.sets, cur, online, pmask) && pmask == NearestOnline(model.sets, cur, online)
    {
      var cs: nat := cur;
      var top := false;
      while !top && sets[cs].cpus * online == {}
        invariant cs <= cur
        invariant model.sets[cur].cpus * online != {} ==> cs == cur && !top
        invariant NearestOnline(model.sets, cur, online) == if top then online else NearestOnline(model.sets, cs, online)
        decreases !top, cs
      {
        assert sets[cs].View() == model.sets[cs];
        if cs == 0 {
          top := true;
        } else {
          cs := sets[cs].parent;
        }
      }
      assert sets[cs].View() == model.sets[cs];
      pmask := if top then online else sets[cs].cpus * online;
    }
  }

  /** `a` is the first cpuset on the way up from `i` that has an online CPU. */
  ghost predicate IsFirstOnline(t: seq<Cs>, i: nat, online: set<Cpu>, a: nat)
    requires WellFormed(t) && i < |t|
  {
    && a < |t| && Above(t, i, a) && t[a].cpus * online != {}
    && forall j: nat :: j < |t| && Above(t, i, j) && t[j].cpus * online != {} ==> j <= a
  }

  /** The first cpuset on the way up with an online CPU decides, and if there is none all online CPUs do. */
  ghost predicate FirstOnline(t: seq<Cs>, i: nat, online: set<Cpu>, pmask: set<Cpu>)
    requires WellFormed(t) && i < |t|
  {
    || (exists a: nat :: IsFirstOnline(t, i, online, a) && pmask == t[a].cpus * online)
    || (pmask == online && forall j: nat :: j < |t| && Above(t, i, j) ==> t[j].cpus * online == {})
  }

  /** The online CPUs of the nearest cpuset at or above `i` that has some, or all of them. */
  ghost function NearestOnline(t: seq<Cs>, i: nat, online: set<Cpu>): (pmask: set<Cpu>)
    requires WellFormed(t) && i < |t|
    ensures FirstOnline(t, i, online, pmask)
  {
    if t[i].cpus * online != {} then assert IsFirstOnline(t, i, online, i); t[i].cpus * online
    else if i == 0 then online
    else NearestOnline(t, t[i].parent, online)
  }

  /** The propagation has reached the cpusets below `i`. */
  ghost predicate Swept(s: Sys, target: seq<Cs>, i: nat, stuck: set<Task>, now: Sys)
  {
    && WellFormed(s.sets) && WellFormed(target) && |target| == |s.sets| && HomesOnline(s)
    && |now.sets| == |s.sets| && now.home.Keys == s.home.Keys
    && now == s.(sets := now.sets, home := now.home)
    && (forall j :: 0 <= j < |s.sets| ==> now.sets[j] == if j < i then target[j] else s.sets[j])
    && (forall k :: k in s.home ==>
          now.home[k] == if k !in stuck && s.home[k] < i then Nearest(target, s.home[k]) else s.home[k])
  }

  lemma SyncedHotplug(s0: Sys, s: Sys, cpus: set<Cpu>, mems: set<MemNode>, stuck: set<Task>)
    requires WellFormed(s0.sets) && HomesOnline(s0)
    requires s == s0.(sets := s0.sets[0 := s0.sets[0].(cpus := cpus, mems := mems)], active := cpus, nodes := mems)
    ensures WellFormed(s.sets) && HomesOnline(s)
    ensures HotplugSets(s.sets, cpus, mems, true) == HotplugSets(s0.sets, cpus, mems, true)
    ensures HotplugSets(s0.sets, cpus, mems, false) == s.sets
    ensures var s' := Hotplug(s0, cpus, mems, stuck); WellFormed(s'.sets) && HomesOnline(s') && s'.sets[0].cpus == s'.active
  {
  }

  lemma SweptStep(s: Sys, target: seq<Cs>, i: nat, stuck: set<Task>, now: Sys, now': Sys)
    requires 0 < i < |s.sets| && target == HotplugSets(s.sets, s.sets[0].cpus, s.sets[0].mems, true)
    requires Swept(s, target, i, stuck, now) && WellFormed(now'.sets)
    requires if !IsOnline(s.sets[i]) then now' == now else
      && now' == now.(sets := now'.sets, home := now'.home)
      && now'.sets == now.sets[i := target[i]]
      && now'.home == map k | k in now.home ::
           if now.home[k] == i && k !in stuck then Nearest(now'.sets, i) else now.home[k]
    ensures Swept(s, target, i + 1, stuck, now')
  {
    if IsOnline(s.sets[i]) { NearestPrefix(now'.sets, target, i); }
  }

  lemma SweptAll(s: Sys, target: seq<Cs>, stuck: set<Task>, now: Sys)
    requires Swept(s, target, |s.sets|, stuck, now)
    ensures now.sets == target && now.home == Evacuated(target, s.home, stuck)
  {
  }

  lemma {:induction false} NearestPrefix(t: seq<Cs>, u: seq<Cs>, i: nat)
    requires WellFormed(t) && WellFormed(u) && i < |t| && i < |u|
    requires forall j :: 0 <= j <= i ==> t[j] == u[j]
    ensures Nearest(t, i) == Nearest(u, i)
  {
    if i != 0 && !HasResources(t[i]) { NearestPrefix(t, u, t[i].parent); }
  }

  lemma GrownShape(s: Sys, c: Cs)
    requires WellFormed(s.sets) && HomesOnline(s) && c.parent < |s.sets| && IsOnline(s.sets[c.parent])
    ensures WellFormed(s.sets + [c]) && HomesOnline(s.(sets := s.sets + [c]))
  {
    assert forall i :: 0 <= i < |s.sets| ==> (s.sets + [c])[i] == s.sets[i];
  }

  lemma GoneShape(s: Sys, cur: nat)
    requires WellFormed(s.sets) && HomesOnline(s) && Removable(s, cur)
    ensures var s' := Put(s, cur, WithFlag(s.sets[cur], Online, false)); WellFormed(s'.sets) && HomesOnline(s')
  {
    forall i | 0 < i < |s.sets| && IsOnline(s.sets[i]) ensures s.sets[i].parent != cur {
      assert !IsChild(s.sets, i, cur);
    }
    assert forall k :: k in s.home && s.home[k] == cur ==> Occupied(s, cur);
  }

  lemma StillRemovable(s: Sys, cur: nat)
    requires WellFormed(s.sets) && Removable(s, cur)
    ensures Removable(UpdateFlag(s, cur, SchedLoadBalance, false).1, cur)
  {
    var s1 := UpdateFlag(s, cur, SchedLoadBalance, false).1;
    forall c: nat ensures !IsChild(s1.sets, c, cur) { assert !IsChild(s.sets, c, cur); }
  }

  ghost predicate GoesOn(t: seq<Cs>, x: nat)
    requires WellFormed(t) && x < |t|
  {
    Reached(t, x) && Descends(t, x)
  }

  /** Below `i` the walk does not go on under the cpusets in `skipped`. */
  ghost predicate Skipped(t: seq<Cs>, i: nat, skipped: set<int>)
    requires WellFormed(t) && i <= |t|
  {
    forall x :: x in skipped <==> 1 <= x < i && !GoesOn(t, x)
  }

  lemma WalkStart(t: seq<Cs>)
    requires WellFormed(t)
    ensures Skipped(t, 1, {}) && SelectedBelow(t, 1) == []
  {
  }

  /** What the walk finds out at cpuset `i` */
  lemma WalkStep(t: seq<Cs>, i: nat, skipped: set<int>)
    requires WellFormed(t) && 0 < i < |t| && Skipped(t, i, skipped)
    ensures Skipped(t, i + 1, if t[i].parent in skipped || !Descends(t, i) then skipped + {i} else skipped)
    ensures SelectedBelow(t, i + 1) == SelectedBelow(t, i) +
      (if t[i].parent !in skipped && IsOnline(t[i]) && SchedLoadBalance in t[i].flags then [i] else [])
  {
    assert t[i].parent in skipped <==> !Reached(t, i);
    forall x ensures x in skipped + {i} <==> (1 <= x < i && !GoesOn(t, x)) || x == i { }
  }

  /** The collected cpusets numbered below `i`, in order. */
  ghost function SelectedBelow(t: seq<Cs>, i: nat): (r: seq<nat>)
    requires WellFormed(t) && i <= |t|
    ensures forall a :: 0 <= a < |r| ==> r[a] < i && Selected(t, r[a])
  {
    if i == 0 then []
    else if Selected(t, i - 1) then SelectedBelow(t, i - 1) + [i - 1]
    else SelectedBelow(t, i - 1)
  }

  lemma SelectedBelowIs(t: seq<Cs>, i: nat)
    requires WellFormed(t) && i <= |t|
    ensures forall x: nat :: x in SelectedBelow(t, i) <==> x < i && Selected(t, x)
    ensures forall a, b :: 0 <= a < b < |SelectedBelow(t, i)| ==> SelectedBelow(t, i)[a] < SelectedBelow(t, i)[b]
  {
  }

  lemma CollectedMasks(t: seq<Cs>, index: seq<nat>, m: seq<set<Cpu>>)
    requires WellFormed(t) && SchedLoadBalance !in t[0].flags && |m| == |index|
    requires forall a :: 0 <= a < |index| ==> Selected(t, index[a]) && m[a] == t[index[a]].cpus
    requires forall x: nat :: x < |t| && Selected(t, x) ==> x in index
    ensures P.NonEmpty(m) == BalancedMap(t).Values
  {
    forall c | c in P.NonEmpty(m) ensures c in BalancedMap(t).Values {
      var a :| 0 <= a < |m| && m[a] == c && c != {};
      assert BalancedMap(t)[index[a]] == c;
    }
    forall c | c in BalancedMap(t).Values ensures c in P.NonEmpty(m) {
      var x :| x in BalancedMap(t) && BalancedMap(t)[x] == c;
      var a :| 0 <= a < |index| && index[a] == x;
      assert m[a] == c;
    }
  }

  lemma IncreasingWithin(index: seq<nat>, s: set<nat>)
    requires forall a :: 0 <= a < |index| ==> index[a] in s
    requires forall a, b :: 0 <= a < b < |index| ==> index[a] < index[b]
    ensures |index| <= |s|
  {
    if index != [] {
      IncreasingWithin(index[..|index| - 1], s - {index[|index| - 1]});
    }
  }

  lemma SelectedFewer(t: seq<Cs>)
    requires WellFormed(t)
    ensures |SelectedBelow(t, |t|)| < |OnlineSet(t)|
  {
    SelectedBelowIs(t, |t|);
    var index := SelectedBelow(t, |t|);
    forall a | 0 <= a < |index| ensures index[a] in OnlineSet(t) - {0} { assert index[a] in index; }
    IncreasingWithin(index, OnlineSet(t) - {0});
  }

  lemma HotplugDomains(s: Sys, cpus: set<Cpu>, mems: set<MemNode>, stuck: set<Task>, doms: seq<set<Cpu>>, doms': seq<set<Cpu>>)
    requires WellFormed(s.sets) && HomesOnline(s) && cpus != {} && mems != {}
    requires WellFormed(Hotplug(s, cpus, mems, stuck).sets)
    requires if cpus != s.sets[0].cpus then Current(doms', Hotplug(s, cpus, mems, stuck).sets) else doms' == doms
    ensures DomainsAfter(s, OpHotplug(cpus, mems, stuck), doms, doms')
  {
  }

  /** A balanced root with CPUs makes one domain of the whole. */
  lemma WholeDomain(t: seq<Cs>, c: set<Cpu>)
    requires WellFormed(t) && SchedLoadBalance in t[0].flags && t[0].cpus == c
    ensures Current([c], t)
  {
    var m, where := [c], [0 as nat];
    P.ConnectedSelf(m, 0);
    assert P.HasMember(where, 0) by { assert where[0] == 0; }
    assert forall x :: x in c ==> where[0] == 0 && x in m[0];
    assert P.Domains([c], m, where);
    if c != {} {
      assert m[0] in P.NonEmpty(m) && BalancedMap(t)[0] == c;
    }
    assert P.NonEmpty(m) == BalancedMap(t).Values;
  }
}
