/** The cpuset rules over whole runs, and exactly when the stronger rule stated for the root's children holds. */
module CpusetRuns {
  import opened CpusetTree
  import opened CpusetRules

  lemma StepKeepsRules(s: Sys, op: Op)
    requires Inv(s) && Enabled(s, op)
    ensures Inv(Step(s, op))
    ensures !op.OpHotplug? && AllNested(s.sets) ==> AllNested(Step(s, op).sets)
  {
    match op
    case OpWriteCpus(cur, w) => WriteCpusKeepsRules(s, cur, w);
    case OpWriteMems(cur, w) => WriteMemsKeepsRules(s, cur, w);
    case OpWriteFlag(cur, f, on) => if IsOnline(s.sets[cur]) { UpdateFlagKeepsRules(s, cur, f, on); }
    case OpCreate(par, clone) => CreateKeepsRules(s, par, clone);
    case OpRemove(cur) => RemoveKeepsRules(s, cur);
    case OpBeginAttach(cur) => AttachCountKeepsRules(s, cur, s.sets[cur].attaching + 1);
    case OpFinishAttach(k, cur, stuck) => FinishAttachKeepsRules(s, k, cur, stuck);
    case OpCancelAttach(cur) => AttachCountKeepsRules(s, cur, s.sets[cur].attaching - 1);
    case OpHotplug(cpus, mems, stuck) => HotplugKeepsRules(s, cpus, mems, stuck);
  }

  ghost function Next(s: Sys, op: Op): Sys
    requires Inv(s)
  {
    if Enabled(s, op) then Step(s, op) else s
  }

  /** Operations that cannot be issued in the state they meet are passed over. */
  ghost function Run(s: Sys, ops: seq<Op>): (r: Sys)
    requires Inv(s)
    ensures Inv(r)
    decreases |ops|
  {
    if ops == [] then s
    else
      assert Inv(Next(s, ops[0])) by { if Enabled(s, ops[0]) { StepKeepsRules(s, ops[0]); } }
      Run(Next(s, ops[0]), ops[1..])
  }

  /** cpuset_init and cpuset_init_smp: only the root, holding every task */
  ghost function Boot(cpus: set<Cpu>, mems: set<MemNode>, tasks: set<Task>): Sys {
    Sys([Cs(0, {Online, CpuExclusive, MemExclusive, SchedLoadBalance}, cpus, mems, 0)],
        map k | k in tasks :: 0, 1, cpus, mems)
  }

  lemma BootKeepsRules(cpus: set<Cpu>, mems: set<MemNode>, tasks: set<Task>)
    requires cpus != {} && mems != {}
    ensures Inv(Boot(cpus, mems, tasks)) && AllNested(Boot(cpus, mems, tasks).sets)
    ensures TasksRunnable(Boot(cpus, mems, tasks), {})
  {
    assert OnlineSet(Boot(cpus, mems, tasks).sets) == {0};
  }

  /** From boot, whatever is written, created, removed, attached or plugged, in any order. */
  lemma RulesOverRuns(cpus: set<Cpu>, mems: set<MemNode>, tasks: set<Task>, ops: seq<Op>)
    requires cpus != {} && mems != {}
    ensures Inv(Boot(cpus, mems, tasks))
    ensures var s := Run(Boot(cpus, mems, tasks), ops);
      && SiblingsDisjoint(s.sets) && WellFormed(s.sets) && Nested(s.sets) && MasksLive(s)
      && s.count == |OnlineSet(s.sets)|
  {
    BootKeepsRules(cpus, mems, tasks);
  }

  lemma {:induction false} AllNestedWithoutHotplug(s: Sys, ops: seq<Op>)
    requires Inv(s) && AllNested(s.sets)
    requires forall i :: 0 <= i < |ops| ==> !ops[i].OpHotplug?
    ensures AllNested(Run(s, ops).sets)
    decreases |ops|
  {
    if ops != [] {
      if Enabled(s, ops[0]) { StepKeepsRules(s, ops[0]); }
      AllNestedWithoutHotplug(Next(s, ops[0]), ops[1..]);
    }
  }

  /** After a hotplug the root's children are subsets of the root exactly when none of them is left with
      both an active and an inactive CPU: the price of the A1000 rule. */
  lemma AllNestedAfterHotplug(s: Sys, cpus: set<Cpu>, mems: set<MemNode>, stuck: set<Task>)
    requires Inv(s) && cpus != {} && mems != {}
    ensures Inv(Hotplug(s, cpus, mems, stuck))
    ensures AllNested(Hotplug(s, cpus, mems, stuck).sets) <==>
      forall i: nat :: IsChild(s.sets, i, 0) ==> s.sets[i].cpus <= cpus || s.sets[i].cpus * cpus == {}
  {
    HotplugKeepsRules(s, cpus, mems, stuck);
    var off := Offlines(s.sets, cpus, mems);
    var t, u := s.sets, Hotplug(s, cpus, mems, stuck).sets;
    forall i: nat | IsChild(t, i, 0)
      ensures u[i].cpus <= u[0].cpus <==> t[i].cpus <= cpus || t[i].cpus * cpus == {}
    {
      PropagatedMask(t[i], cpus, mems);
      DifferenceEmpty(t[0].cpus, cpus);
      DisjointIff(t[i].cpus, s.active);
      DisjointIff(t[i].cpus, cpus);
    }
    assert forall i :: 0 < i < |t| ==> u[i].parent == t[i].parent && u[i].flags == t[i].flags;
    forall i | 0 < i < |t| && IsOnline(t[i]) && t[i].parent == 0 ensures IsChild(t, i, 0) {}
  }

  /** One CPU of two goes down: the child keeps both, and is no longer a subset of the root. */
  lemma StaleChildExample()
    ensures exists s, cpus, mems, stuck ::
      && Inv(s) && AllNested(s.sets) && cpus != {} && mems != {}
      && Inv(Hotplug(s, cpus, mems, stuck)) && !AllNested(Hotplug(s, cpus, mems, stuck).sets)
  {
    var root := Cs(0, {Online, CpuExclusive, MemExclusive}, {0, 1}, {0}, 0);
    var child := Cs(0, {Online, SchedLoadBalance}, {0, 1}, {0}, 0);
    var s := Sys([root, child], map[], 2, {0, 1}, {0});
    assert OnlineSet(s.sets) == {0, 1};
    assert 0 in child.cpus * s.active && 0 in child.cpus * {0};
    assert Inv(s);
    AllNestedAfterHotplug(s, {0}, {0}, {});
    assert IsChild(s.sets, 1, 0) && 1 in child.cpus && 1 !in {0};
  }

  // ---------------------------------------------------------------- the A1000 rule over hotplug sequences

  ghost predicate KeepsOneCpu(mask: set<Cpu>, ops: seq<Op>) {
    forall i :: 0 <= i < |ops| ==> ops[i].OpHotplug? && ops[i].cpus * mask != {}
  }

  /** A mask that never loses its last active CPU comes through any hotplug sequence unchanged. */
  lemma {:induction false} MaskSurvivesHotplugs(s: Sys, ops: seq<Op>, i: nat)
    requires Inv(s) && 0 < i < |s.sets| && IsOnline(s.sets[i])
    requires KeepsOneCpu(s.sets[i].cpus, ops)
    ensures i < |Run(s, ops).sets| && IsOnline(Run(s, ops).sets[i])
    ensures Run(s, ops).sets[i].cpus == s.sets[i].cpus
    decreases |ops|
  {
    if ops != [] {
      var s1 := Next(s, ops[0]);
      if Enabled(s, ops[0]) {
        StepKeepsRules(s, ops[0]);
        PropagatedMask(s.sets[i], ops[0].cpus, ops[0].mems);
        DisjointIff(s.sets[i].cpus, ops[0].cpus);
        DisjointIff(ops[0].cpus, s.sets[i].cpus);
      }
      MaskSurvivesHotplugs(s1, ops[1..], i);
    }
  }

  // ---------------------------------------------------------------- tasks

  /** Tasks whose transfer fails during the operation. */
  function Stuck(op: Op): set<Task> {
    if op.OpFinishAttach? || op.OpHotplug? then op.stuck else {}
  }

  lemma PutKeepsTasks(s: Sys, cur: nat, c: Cs, stranded: set<Task>)
    requires cur < |s.sets| && TasksRunnable(s, stranded)
    requires HasResources(c) || (forall k :: k in s.home && k !in stranded ==> s.home[k] != cur)
    ensures TasksRunnable(Put(s, cur, c), stranded)
  {
  }

  /** No write leaves a cpuset with tasks in it, or with tasks on their way to it, without resources. */
  lemma WriteCpusKeepsTasks(s: Sys, cur: nat, w: MaskWrite, stranded: set<Task>)
    requires cur < |s.sets| && TasksRunnable(s, stranded)
    ensures WriteCpus(s, cur, w).1.home == s.home && TasksRunnable(WriteCpus(s, cur, w).1, stranded)
  {
    var trial := s.sets[cur].(cpus := if w.Listed? then w.mask else {});
    if Validate(s, cur, trial) == Ok && cur != 0 {
      AcceptedHasResources(s, cur, trial);
      PutKeepsTasks(s, cur, trial, stranded);
    }
  }

  lemma WriteMemsKeepsTasks(s: Sys, cur: nat, w: MaskWrite, stranded: set<Task>)
    requires cur < |s.sets| && TasksRunnable(s, stranded)
    ensures WriteMems(s, cur, w).1.home == s.home && TasksRunnable(WriteMems(s, cur, w).1, stranded)
  {
    var trial := s.sets[cur].(mems := if w.Listed? then w.mask else {});
    if Validate(s, cur, trial) == Ok && cur != 0 {
      AcceptedHasResources(s, cur, trial);
      PutKeepsTasks(s, cur, trial, stranded);
    }
  }

  lemma UpdateFlagKeepsTasks(s: Sys, cur: nat, f: Flag, on: bool, stranded: set<Task>)
    requires cur < |s.sets| && TasksRunnable(s, stranded)
    ensures UpdateFlag(s, cur, f, on).1.home == s.home && TasksRunnable(UpdateFlag(s, cur, f, on).1, stranded)
  {
    assert HasResources(WithFlag(s.sets[cur], f, on)) == HasResources(s.sets[cur]);
    PutKeepsTasks(s, cur, WithFlag(s.sets[cur], f, on), stranded);
  }

  lemma AcceptedHasResources(s: Sys, cur: nat, trial: Cs)
    requires cur < |s.sets|
    ensures cur != 0 && Validate(s, cur, trial) == Ok ==>
      HasResources(trial) || (forall k :: k in s.home ==> s.home[k] != cur)
  {
  }

  lemma HotplugKeepsTasks(s: Sys, cpus: set<Cpu>, mems: set<MemNode>, stuck: set<Task>, stranded: set<Task>)
    requires Inv(s) && cpus != {} && mems != {} && TasksRunnable(s, stranded)
    ensures TasksRunnable(Hotplug(s, cpus, mems, stuck), stranded + stuck)
    ensures Hotplug(s, cpus, mems, stuck).home.Keys == s.home.Keys
  {
    HotplugKeepsRules(s, cpus, mems, stuck);
    var s' := Hotplug(s, cpus, mems, stuck);
    forall k | k in s'.home && k !in stranded + stuck ensures HasResources(s'.sets[s'.home[k]]) {
    }
  }

  /** Tasks of `cur` that can move are in `dest`; where they may have come from does not matter. */
  lemma MovedTasksRunnable(t: seq<Cs>, home: map<Task, nat>, home': map<Task, nat>, cur: nat, dest: nat,
                           stuck: set<Task>, runnable: set<Task>)
    requires dest < |t| && HasResources(t[dest]) && home'.Keys == home.Keys
    requires forall j :: j in home ==> home'[j] == if home[j] == cur && j !in stuck then dest else home[j]
    requires forall j :: j in runnable && j in home && home[j] != cur ==> home[j] < |t| && HasResources(t[home[j]])
    ensures forall j :: j in runnable && j in home && j !in stuck ==> home'[j] < |t| && HasResources(t[home'[j]])
  {
  }

  lemma FinishAttachKeepsTasks(s: Sys, k: Task, cur: nat, stuck: set<Task>, stranded: set<Task>)
    requires Inv(s) && Enabled(s, OpFinishAttach(k, cur, stuck)) && TasksRunnable(s, stranded)
    ensures TasksRunnable(FinishAttach(s, k, cur, stuck), stranded + stuck)
    ensures FinishAttach(s, k, cur, stuck).home.Keys == s.home.Keys
  {
    hide FinishAttach, Nested, SiblingsDisjoint, OnlineSet, Nearest;
    var s', home := FinishAttach(s, k, cur, stuck), s.home[k := cur];
    assert home.Keys == s.home.Keys;
    FinishAttachShape(s, k, cur, stuck);
    if !HasResources(s.sets[cur]) {
      var t := s'.sets;
      var dest := Nearest(t, cur);
      assert forall i :: 0 <= i < |t| ==> HasResources(t[i]) == HasResources(s.sets[i]);
      MovedTasksRunnable(t, home, s'.home, cur, dest, stuck, home.Keys - stranded);
    }
  }

  lemma RemoveKeepsTasks(s: Sys, cur: nat, stranded: set<Task>)
    requires Inv(s) && Removable(s, cur) && TasksRunnable(s, stranded)
    ensures Remove(s, cur).home == s.home && TasksRunnable(Remove(s, cur), stranded)
  {
    assert forall k :: k in s.home && s.home[k] == cur ==> Occupied(s, cur);
  }

  lemma CreateKeepsTasks(s: Sys, par: nat, clone: bool, stranded: set<Task>)
    requires Inv(s) && par < |s.sets| && TasksRunnable(s, stranded)
    ensures Create(s, par, clone).home == s.home && TasksRunnable(Create(s, par, clone), stranded)
  {
  }

  lemma CountKeepsTasks(s: Sys, cur: nat, n: nat, stranded: set<Task>)
    requires cur < |s.sets| && TasksRunnable(s, stranded)
    ensures TasksRunnable(Put(s, cur, s.sets[cur].(attaching := n)), stranded)
  {
  }

  lemma WriteStepKeepsTasks(s: Sys, op: Op, stranded: set<Task>)
    requires Inv(s) && Enabled(s, op) && TasksRunnable(s, stranded)
    requires op.OpWriteCpus? || op.OpWriteMems? || op.OpWriteFlag?
    ensures Step(s, op).home == s.home && TasksRunnable(Step(s, op), stranded)
  {
    match op
    case OpWriteCpus(cur, w) => WriteCpusKeepsTasks(s, cur, w, stranded);
    case OpWriteMems(cur, w) => WriteMemsKeepsTasks(s, cur, w, stranded);
    case OpWriteFlag(cur, f, on) => UpdateFlagKeepsTasks(s, cur, f, on, stranded);
  }

  /** One operation keeps every task somewhere it can run, unless its transfer failed, and loses none. */
  lemma StepKeepsTasks(s: Sys, op: Op, stranded: set<Task>)
    requires Inv(s) && Enabled(s, op) && TasksRunnable(s, stranded)
    ensures Step(s, op).home.Keys == s.home.Keys
    ensures TasksRunnable(Step(s, op), stranded + Stuck(op))
  {
    match op
    case OpFinishAttach(k, cur, stuck) => FinishAttachKeepsTasks(s, k, cur, stuck, stranded);
    case OpHotplug(cpus, mems, stuck) => HotplugKeepsTasks(s, cpus, mems, stuck, stranded);
    case OpCreate(par, clone) => CreateKeepsTasks(s, par, clone, stranded);
    case OpRemove(cur) => RemoveKeepsTasks(s, cur, stranded);
    case OpBeginAttach(cur) => CountKeepsTasks(s, cur, s.sets[cur].attaching + 1, stranded);
    case OpCancelAttach(cur) => CountKeepsTasks(s, cur, s.sets[cur].attaching - 1, stranded);
    case _ => WriteStepKeepsTasks(s, op, stranded);
  }

  ghost function StuckOver(ops: seq<Op>): set<Task> {
    if ops == [] then {} else Stuck(ops[0]) + StuckOver(ops[1..])
  }

  /** Over every run no task is lost, and only tasks whose transfer once failed can be left without
      CPUs or memory. */
  lemma {:induction false} TasksOverRuns(s: Sys, ops: seq<Op>, stranded: set<Task>)
    requires Inv(s) && TasksRunnable(s, stranded)
    ensures Run(s, ops).home.Keys == s.home.Keys
    ensures TasksRunnable(Run(s, ops), stranded + StuckOver(ops))
    decreases |ops|
  {
    if ops == [] {
      assert stranded + StuckOver(ops) == stranded;
    } else {
      if Enabled(s, ops[0]) { StepKeepsTasks(s, ops[0], stranded); StepKeepsRules(s, ops[0]); }
      TasksOverRuns(Next(s, ops[0]), ops[1..], stranded + Stuck(ops[0]));
      assert stranded + Stuck(ops[0]) + StuckOver(ops[1..]) == stranded + StuckOver(ops);
    }
  }
}
