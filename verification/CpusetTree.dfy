/** The cpuset hierarchy as a value: what each operation on it does, and the rules every run keeps.

    A cpuset is named by its position in creation order, so a parent's number is always below its
    children's, and number 0 is the root.  A removed cpuset keeps its number and loses `Online`.
    The mutable form of the same operations is in CpusetSystem.dfy. */
module CpusetTree {

  type Cpu = nat
  type MemNode = nat
  type Task = nat

  datatype Flag =
    Online | CpuExclusive | MemExclusive | MemHardwall | MemoryMigrate | SchedLoadBalance | SpreadPage | SpreadSlab

  datatype Errno = Ok | EBUSY | EACCES | EINVAL | ENOSPC | ENODEV

  datatype Cs = Cs(parent: nat, flags: set<Flag>, cpus: set<Cpu>, mems: set<MemNode>, attaching: nat)

  /** `home` says in which cpuset each task is; `active` is cpu_active_mask and `nodes` is N_MEMORY. */
  datatype Sys = Sys(sets: seq<Cs>, home: map<Task, nat>, count: int, active: set<Cpu>, nodes: set<MemNode>)

  /** What a user writes to a "cpus" or "mems" file: nothing, something the parser rejects, or a list. */
  datatype MaskWrite = Blank | Malformed | Listed(mask: set<nat>)

  // ---------------------------------------------------------------- structural predicates

  predicate IsOnline(c: Cs) { Online in c.flags }

  predicate HasResources(c: Cs) { c.cpus != {} && c.mems != {} }

  predicate FlagsWithin(p: Cs, q: Cs) {
    && (CpuExclusive in p.flags ==> CpuExclusive in q.flags)
    && (MemExclusive in p.flags ==> MemExclusive in q.flags)
  }

  /** is_cpuset_subset */
  predicate IsSubset(p: Cs, q: Cs) {
    p.cpus <= q.cpus && p.mems <= q.mems && FlagsWithin(p, q)
  }

  predicate IsChild(t: seq<Cs>, c: nat, par: nat) {
    0 < c < |t| && t[c].parent == par && IsOnline(t[c])
  }

  /** Two cpusets break the exclusive rule: one of them is exclusive and they overlap. */
  predicate Conflict(a: Cs, b: Cs) {
    || ((CpuExclusive in a.flags || CpuExclusive in b.flags) && a.cpus * b.cpus != {})
    || ((MemExclusive in a.flags || MemExclusive in b.flags) && a.mems * b.mems != {})
  }

  ghost predicate Occupied(s: Sys, cur: nat) {
    (exists k :: k in s.home && s.home[k] == cur) || (cur < |s.sets| && s.sets[cur].attaching > 0)
  }

  /** The numbering: every parent precedes its children, and an online cpuset hangs below online ones. */
  ghost predicate WellFormed(t: seq<Cs>) {
    && |t| > 0 && t[0].parent == 0 && IsOnline(t[0])
    && (forall i {:trigger t[i].parent} :: 0 < i < |t| ==> t[i].parent < i)
    && (forall i {:trigger t[i].parent} :: 0 < i < |t| && IsOnline(t[i]) ==> IsOnline(t[t[i].parent]))
  }

  ghost function OnlineSet(t: seq<Cs>): set<nat> {
    set i | 0 <= i < |t| && IsOnline(t[i])
  }

  // ---------------------------------------------------------------- the operations

  /** validate_change: the first rule that the trial value breaks, in the order the kernel tests them. */
  ghost function Validate(s: Sys, cur: nat, trial: Cs): Errno
    requires cur < |s.sets|
  {
    if exists c: nat :: IsChild(s.sets, c, cur) && !IsSubset(s.sets[c], trial) then EBUSY
    else if cur == 0 then Ok
    else if s.sets[cur].parent >= |s.sets| || !IsSubset(trial, s.sets[s.sets[cur].parent]) then EACCES
    else if exists c: nat :: IsChild(s.sets, c, s.sets[cur].parent) && c != cur && Conflict(trial, s.sets[c]) then EINVAL
    else if Occupied(s, cur) && !HasResources(trial) then ENOSPC
    else Ok
  }

  function Put(s: Sys, cur: nat, c: Cs): Sys
    requires cur < |s.sets|
  {
    s.(sets := s.sets[cur := c])
  }

  /** update_cpumask, behind the checks of cpuset_write_resmask */
  ghost function WriteCpus(s: Sys, cur: nat, w: MaskWrite): (Errno, Sys)
    requires cur < |s.sets|
  {
    if !IsOnline(s.sets[cur]) then (ENODEV, s)
    else if cur == 0 then (EACCES, s)
    else if w.Malformed? then (EINVAL, s)
    else if w.Listed? && !(w.mask <= s.active) then (EINVAL, s)
    else
      var trial := s.sets[cur].(cpus := if w.Listed? then w.mask else {});
      var e := Validate(s, cur, trial);
      if e != Ok then (e, s) else (Ok, Put(s, cur, trial))
  }

  /** update_nodemask: like update_cpumask, but an unchanged mask is accepted without validation */
  ghost function WriteMems(s: Sys, cur: nat, w: MaskWrite): (Errno, Sys)
    requires cur < |s.sets|
  {
    if !IsOnline(s.sets[cur]) then (ENODEV, s)
    else if cur == 0 then (EACCES, s)
    else if w.Malformed? then (EINVAL, s)
    else if w.Listed? && !(w.mask <= s.nodes) then (EINVAL, s)
    else
      var trial := s.sets[cur].(mems := if w.Listed? then w.mask else {});
      if trial.mems == s.sets[cur].mems then (Ok, s)
      else
        var e := Validate(s, cur, trial);
        if e != Ok then (e, s) else (Ok, Put(s, cur, trial))
  }

  function WithFlag(c: Cs, f: Flag, on: bool): Cs {
    c.(flags := if on then c.flags + {f} else c.flags - {f})
  }

  /** update_flag */
  ghost function UpdateFlag(s: Sys, cur: nat, f: Flag, on: bool): (Errno, Sys)
    requires cur < |s.sets|
  {
    var trial := WithFlag(s.sets[cur], f, on);
    var e := Validate(s, cur, trial);
    if e != Ok then (e, s) else (Ok, Put(s, cur, trial))
  }

  /** cpuset_write_u64 for the flag files */
  ghost function WriteFlag(s: Sys, cur: nat, f: Flag, on: bool): (Errno, Sys)
    requires cur < |s.sets|
  {
    if !IsOnline(s.sets[cur]) then (ENODEV, s) else UpdateFlag(s, cur, f, on)
  }

  ghost predicate AnyExclusiveChild(t: seq<Cs>, par: nat) {
    exists c: nat :: IsChild(t, c, par) && (CpuExclusive in t[c].flags || MemExclusive in t[c].flags)
  }

  function Inherited(p: Cs): set<Flag> {
    (if SpreadPage in p.flags then {SpreadPage} else {}) + (if SpreadSlab in p.flags then {SpreadSlab} else {})
  }

  /** cpuset_css_alloc followed by cpuset_css_online: the new cpuset gets the next number */
  ghost function Create(s: Sys, par: nat, clone: bool): Sys
    requires par < |s.sets|
  {
    var p := s.sets[par];
    var copy := clone && !AnyExclusiveChild(s.sets, par);
    var c := Cs(par, {SchedLoadBalance, Online} + Inherited(p),
                if copy then p.cpus else {}, if copy then p.mems else {}, 0);
    s.(sets := s.sets + [c], count := s.count + 1)
  }

  /** When cgroup removal reaches cpuset_css_offline: no children, no tasks, no attach under way. */
  ghost predicate Removable(s: Sys, cur: nat) {
    && 0 < cur < |s.sets| && IsOnline(s.sets[cur]) && !Occupied(s, cur)
    && (forall c: nat :: !IsChild(s.sets, c, cur))
  }

  /** cpuset_css_offline: simulate switching load balancing off, then leave the hierarchy */
  ghost function Remove(s: Sys, cur: nat): Sys
    requires cur < |s.sets|
  {
    var s1 := if SchedLoadBalance in s.sets[cur].flags then UpdateFlag(s, cur, SchedLoadBalance, false).1 else s;
    Put(s1, cur, WithFlag(s1.sets[cur], Online, false)).(count := s.count - 1)
  }

  /** A chain of parents leads from `i` up to `j`. */
  ghost predicate Above(t: seq<Cs>, i: nat, j: nat): (above: bool)
    requires WellFormed(t) && i < |t|
    ensures above ==> j <= i
  {
    j == i || (i > 0 && Above(t, t[i].parent, j))
  }

  /** `r` is the first cpuset on the way up from `i` that has both CPUs and memory, or the root if none has. */
  ghost predicate IsNearest(t: seq<Cs>, i: nat, r: nat)
    requires WellFormed(t) && i < |t|
  {
    && Above(t, i, r) && r <= i && (r == 0 || HasResources(t[r]))
    && forall j: nat :: j < |t| && Above(t, i, j) && HasResources(t[j]) ==> j <= r
  }

  /** The nearest cpuset at or above `i` that has both CPUs and memory; the root if there is none. */
  ghost function Nearest(t: seq<Cs>, i: nat): (r: nat)
    requires WellFormed(t) && i < |t|
    ensures IsNearest(t, i, r)
    ensures r <= i && (r == 0 || HasResources(t[r]))
    ensures HasResources(t[i]) ==> r == i
    ensures IsOnline(t[i]) ==> IsOnline(t[r])
  {
    if i == 0 || HasResources(t[i]) then i else Nearest(t, t[i].parent)
  }

  /** What cpuset_propagate_hotplug_workfn leaves in one cpuset, given the root's masks.  The CPU mask
      is cut only when it keeps no active CPU at all (the A1000 change). */
  function Propagated(c: Cs, cpus: set<Cpu>, mems: set<MemNode>): Cs {
    var offCpus := c.cpus - cpus;
    var offMems := c.mems - mems;
    c.(cpus := if offCpus != {} && c.cpus * cpus == {} then c.cpus - offCpus else c.cpus,
       mems := if offMems != {} then c.mems - offMems else c.mems)
  }

  /** Tasks of cpusets left without resources move to the nearest ancestor that has some, except the
      `stuck` ones, whose transfer fails. */
  ghost function Evacuated(t: seq<Cs>, home: map<Task, nat>, stuck: set<Task>): map<Task, nat>
    requires WellFormed(t) && forall k :: k in home ==> home[k] < |t|
  {
    map k | k in home :: if k in stuck then home[k] else Nearest(t, home[k])
  }

  ghost predicate HomesOnline(s: Sys) {
    forall k :: k in s.home ==> s.home[k] < |s.sets| && IsOnline(s.sets[s.home[k]])
  }

  function HotplugSets(t: seq<Cs>, cpus: set<Cpu>, mems: set<MemNode>, propagate: bool): (r: seq<Cs>)
    ensures |r| == |t|
  {
    seq(|t|, i requires 0 <= i < |t| =>
      if i == 0 then t[0].(cpus := cpus, mems := mems)
      else if propagate && IsOnline(t[i]) then Propagated(t[i], cpus, mems)
      else t[i])
  }

  predicate Offlines(t: seq<Cs>, cpus: set<Cpu>, mems: set<MemNode>)
    requires |t| > 0
  {
    t[0].cpus - cpus != {} || t[0].mems - mems != {}
  }

  /** cpuset_hotplug_workfn with the propagations it queues and flushes, as one step */
  ghost function Hotplug(s: Sys, cpus: set<Cpu>, mems: set<MemNode>, stuck: set<Task>): Sys
    requires WellFormed(s.sets) && HomesOnline(s)
  {
    var off := Offlines(s.sets, cpus, mems);
    var t := HotplugSets(s.sets, cpus, mems, off);
    assert WellFormed(t);
    Sys(t, if off then Evacuated(t, s.home, stuck) else s.home, s.count, cpus, mems)
  }

  /** cpuset_can_attach for one task that may be moved */
  function BeginAttach(s: Sys, cur: nat): (Errno, Sys)
    requires cur < |s.sets|
  {
    if !HasResources(s.sets[cur]) then (ENOSPC, s)
    else (Ok, Put(s, cur, s.sets[cur].(attaching := s.sets[cur].attaching + 1)))
  }

  /** cpuset_attach; if hotplug emptied the cpuset meanwhile, its tasks move on */
  ghost function FinishAttach(s: Sys, k: Task, cur: nat, stuck: set<Task>): Sys
    requires WellFormed(s.sets) && cur < |s.sets| && s.sets[cur].attaching > 0
  {
    var s1 := Put(s, cur, s.sets[cur].(attaching := s.sets[cur].attaching - 1)).(home := s.home[k := cur]);
    if HasResources(s.sets[cur]) then s1
    else
      var s2 := Put(s1, cur, Propagated(s1.sets[cur], s.sets[0].cpus, s.sets[0].mems));
      assert WellFormed(s2.sets);
      s2.(home := map j | j in s2.home ::
                    if s2.home[j] == cur && j !in stuck then Nearest(s2.sets, cur) else s2.home[j])
  }

  function CancelAttach(s: Sys, cur: nat): Sys
    requires cur < |s.sets| && s.sets[cur].attaching > 0
  {
    Put(s, cur, s.sets[cur].(attaching := s.sets[cur].attaching - 1))
  }

  datatype Op =
    | OpWriteCpus(cur: nat, w: MaskWrite)
    | OpWriteMems(cur: nat, w: MaskWrite)
    | OpWriteFlag(cur: nat, f: Flag, on: bool)
    | OpCreate(par: nat, clone: bool)
    | OpRemove(cur: nat)
    | OpBeginAttach(cur: nat)
    | OpFinishAttach(k: Task, cur: nat, stuck: set<Task>)
    | OpCancelAttach(cur: nat)
    | OpHotplug(cpus: set<Cpu>, mems: set<MemNode>, stuck: set<Task>)

  /** When the callers of the cpuset code can issue the operation.  A machine always keeps one active
      CPU and one memory node; CS_ONLINE has no file. */
  ghost predicate Enabled(s: Sys, op: Op) {
    match op
    case OpWriteCpus(cur, _) => cur < |s.sets|
    case OpWriteMems(cur, _) => cur < |s.sets|
    case OpWriteFlag(cur, f, _) => cur < |s.sets| && f != Online
    case OpCreate(par, _) => par < |s.sets| && IsOnline(s.sets[par])
    case OpRemove(cur) => Removable(s, cur)
    case OpBeginAttach(cur) => cur < |s.sets| && IsOnline(s.sets[cur])
    case OpFinishAttach(k, cur, _) => k in s.home && cur < |s.sets| && IsOnline(s.sets[cur]) && s.sets[cur].attaching > 0
    case OpCancelAttach(cur) => cur < |s.sets| && s.sets[cur].attaching > 0
    case OpHotplug(cpus, mems, _) => cpus != {} && mems != {}
  }

  ghost function Step(s: Sys, op: Op): Sys
    requires WellFormed(s.sets) && HomesOnline(s) && Enabled(s, op)
  {
    match op
    case OpWriteCpus(cur, w) => WriteCpus(s, cur, w).1
    case OpWriteMems(cur, w) => WriteMems(s, cur, w).1
    case OpWriteFlag(cur, f, on) => WriteFlag(s, cur, f, on).1
    case OpCreate(par, clone) => Create(s, par, clone)
    case OpRemove(cur) => Remove(s, cur)
    case OpBeginAttach(cur) => BeginAttach(s, cur).1
    case OpFinishAttach(k, cur, stuck) => FinishAttach(s, k, cur, stuck)
    case OpCancelAttach(cur) => CancelAttach(s, cur)
    case OpHotplug(cpus, mems, stuck) => Hotplug(s, cpus, mems, stuck)
  }

  // ---------------------------------------------------------------- the rules

  /** Below the root every cpuset is a subset of its parent.  A child of the root keeps memory nodes and
      exclusive flags within the root's; its CPUs may go stale after a hotplug. */
  ghost predicate Nested(t: seq<Cs>)
    requires WellFormed(t)
  {
    forall i {:trigger t[i].parent} :: 0 < i < |t| && IsOnline(t[i]) ==>
      && t[i].mems <= t[t[i].parent].mems
      && FlagsWithin(t[i], t[t[i].parent])
      && (t[i].parent != 0 ==> t[i].cpus <= t[t[i].parent].cpus)
  }

  /** Online siblings never overlap in what either holds exclusively. */
  ghost predicate SiblingsDisjoint(t: seq<Cs>) {
    forall i, j :: 0 < i < |t| && 0 < j < |t| && i != j && IsOnline(t[i]) && IsOnline(t[j]) && t[i].parent == t[j].parent
      ==> !Conflict(t[i], t[j])
  }

  ghost predicate RootTracks(s: Sys)
    requires |s.sets| > 0
  {
    s.sets[0].cpus == s.active != {} && s.sets[0].mems == s.nodes != {}
  }

  /** A mask below the root is empty or still has an active CPU. */
  ghost predicate MasksLive(s: Sys) {
    forall i :: 0 < i < |s.sets| && IsOnline(s.sets[i]) ==> s.sets[i].cpus == {} || s.sets[i].cpus * s.active != {}
  }

  ghost predicate Inv(s: Sys) {
    && WellFormed(s.sets) && HomesOnline(s) && RootTracks(s)
    && Nested(s.sets) && SiblingsDisjoint(s.sets) && MasksLive(s)
    && s.count == |OnlineSet(s.sets)|
  }

  /** The rule the kernel states for every cpuset, the root's children included. */
  ghost predicate AllNested(t: seq<Cs>)
    requires WellFormed(t)
  {
    forall i {:trigger t[i].parent} :: 0 < i < |t| && IsOnline(t[i]) ==> IsSubset(t[i], t[t[i].parent])
  }

  /** Every task, except those in `stranded`, is in a cpuset where it can run. */
  ghost predicate TasksRunnable(s: Sys, stranded: set<Task>) {
    forall k :: k in s.home && k !in stranded ==> s.home[k] < |s.sets| && HasResources(s.sets[s.home[k]])
  }
}
