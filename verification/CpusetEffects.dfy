/** What the operations on a hierarchy do, seen from the outside: when each succeeds, what it stores, and where
    the tasks go. */
module CpusetEffects {
  import opened CpusetTree
  import opened CpusetRules
  import opened CpusetDomains

  // ---------------------------------------------------------------- the rules

  /** The two rules that writes are held to, element by element. */
  lemma RulesExactly(t: seq<Cs>)
    requires WellFormed(t)
    ensures AllNested(t) <==>
      forall i {:trigger t[i].parent} :: 0 < i < |t| && IsOnline(t[i]) ==>
        && (forall x :: x in t[i].cpus ==> x in t[t[i].parent].cpus)
        && (forall x :: x in t[i].mems ==> x in t[t[i].parent].mems)
        && (forall f :: f in {CpuExclusive, MemExclusive} && f in t[i].flags ==> f in t[t[i].parent].flags)
    ensures SiblingsDisjoint(t) <==>
      forall i, j :: 0 < i < |t| && 0 < j < |t| && i != j && IsOnline(t[i]) && IsOnline(t[j]) && t[i].parent == t[j].parent ==>
        && (forall x :: CpuExclusive in t[i].flags && x in t[i].cpus ==> x !in t[j].cpus)
        && (forall x :: MemExclusive in t[i].flags && x in t[i].mems ==> x !in t[j].mems)
  {
    hide WellFormed;
    forall i, j | 0 < i < |t| && 0 < j < |t|
      ensures Conflict(t[i], t[j]) <==>
        || (exists x :: (CpuExclusive in t[i].flags || CpuExclusive in t[j].flags) && x in t[i].cpus && x in t[j].cpus)
        || (exists x :: (MemExclusive in t[i].flags || MemExclusive in t[j].flags) && x in t[i].mems && x in t[j].mems)
    {
      DisjointIff(t[i].cpus, t[j].cpus);
      DisjointIff(t[i].mems, t[j].mems);
    }
  }

  /** What a cpuset holds exclusively is in no other cpuset anywhere in the hierarchy, except those that it is
      below and those that are below it. */
  lemma {:induction false} ExclusiveApart(t: seq<Cs>, i: nat, j: nat)
    requires WellFormed(t) && Nested(t) && SiblingsDisjoint(t) && i < |t| && j < |t| && IsOnline(t[i]) && IsOnline(t[j])
    requires !Above(t, i, j) && !Above(t, j, i)
    ensures forall x :: (CpuExclusive in t[i].flags || CpuExclusive in t[j].flags) && x in t[i].cpus ==> x !in t[j].cpus
    ensures forall x :: (MemExclusive in t[i].flags || MemExclusive in t[j].flags) && x in t[i].mems ==> x !in t[j].mems
    decreases i + j
  {
    AboveZero(t, i);
    AboveZero(t, j);
    var p, q := t[i].parent, t[j].parent;
    AboveZero(t, p);
    if p == q {
      assert !Conflict(t[i], t[j]);
      DisjointIff(t[i].cpus, t[j].cpus);
      DisjointIff(t[i].mems, t[j].mems);
    } else if !Above(t, j, p) {
      ExclusiveApart(t, p, j);
    } else {
      ExclusiveApart(t, i, q);
    }
  }

  // ---------------------------------------------------------------- where tasks go

  /** There is one nearest cpuset with resources. */
  lemma NearestExactly(t: seq<Cs>, i: nat, r: nat)
    requires WellFormed(t) && i < |t|
    ensures IsNearest(t, i, r) <==> r == Nearest(t, i)
  {
    AboveZero(t, i);
  }

  lemma {:induction false} AboveZero(t: seq<Cs>, i: nat)
    requires WellFormed(t) && i < |t|
    ensures Above(t, i, 0)
    decreases i
  {
    if i > 0 { AboveZero(t, t[i].parent); }
  }

  lemma {:induction false} MemsBelowRoot(t: seq<Cs>, i: nat)
    requires WellFormed(t) && Nested(t) && i < |t| && IsOnline(t[i])
    ensures t[i].mems <= t[0].mems
    decreases i
  {
    if i > 0 { MemsBelowRoot(t, t[i].parent); }
  }

  /** A CPU mask without an active CPU is emptied and any other left whole; a node mask is cut. */
  function Cut(c: Cs, cpus: set<Cpu>, mems: set<MemNode>): Cs {
    c.(cpus := if exists x :: x in c.cpus && x in cpus then c.cpus else {}, mems := set x | x in c.mems && x in mems)
  }

  /** The masks after a hotplug: the root's are the active CPUs and the nodes with memory, the others are cut. */
  lemma HotplugMasks(s: Sys, cpus: set<Cpu>, mems: set<MemNode>, stuck: set<Task>)
    requires Inv(s) && cpus != {} && mems != {}
    ensures var s' := Hotplug(s, cpus, mems, stuck);
      && s' == s.(sets := s'.sets, home := s'.home, active := cpus, nodes := mems)
      && |s'.sets| == |s.sets| && s'.sets[0] == s.sets[0].(cpus := cpus, mems := mems)
      && (forall i :: 0 < i < |s.sets| && !IsOnline(s.sets[i]) ==> s'.sets[i] == s.sets[i])
      && (forall i :: 0 < i < |s.sets| && IsOnline(s.sets[i]) ==> s'.sets[i] == Cut(s.sets[i], cpus, mems))
  {
    forall i: nat | 0 < i < |s.sets| && IsOnline(s.sets[i])
      ensures Hotplug(s, cpus, mems, stuck).sets[i] == Cut(s.sets[i], cpus, mems)
    {
      HotplugCut(s, cpus, mems, stuck, i);
    }
  }

  lemma HotplugCut(s: Sys, cpus: set<Cpu>, mems: set<MemNode>, stuck: set<Task>, i: nat)
    requires Inv(s) && cpus != {} && mems != {} && 0 < i < |s.sets| && IsOnline(s.sets[i])
    ensures Hotplug(s, cpus, mems, stuck).sets[i] == Cut(s.sets[i], cpus, mems)
  {
    hide SiblingsDisjoint, MasksLive, OnlineSet, Evacuated, Above, IsNearest;
    DisjointIff(s.sets[i].cpus, cpus);
    HotplugMask(s, cpus, mems, stuck, i);
    PropagatedMask(s.sets[i], cpus, mems);
    MemsBelowRoot(s.sets, i);
  }

  /** The tasks after a hotplug: if a CPU or a node has gone, each task that can be moved is in the first
      cpuset on its way up that still has both resources, and otherwise all stay. */
  lemma HotplugHomes(s: Sys, cpus: set<Cpu>, mems: set<MemNode>, stuck: set<Task>)
    requires Inv(s) && cpus != {} && mems != {}
    ensures var s' := Hotplug(s, cpus, mems, stuck);
      && WellFormed(s'.sets) && |s'.sets| == |s.sets| && s'.home.Keys == s.home.Keys
      && forall k :: k in s.home ==>
           if k in stuck || (s.active <= cpus && s.nodes <= mems) then s'.home[k] == s.home[k]
           else IsNearest(s'.sets, s.home[k], s'.home[k])
  {
    hide HotplugSets, IsNearest, Nested, SiblingsDisjoint, MasksLive, OnlineSet;
    HotplugKeepsRules(s, cpus, mems, stuck);
    DifferenceEmpty(s.active, cpus);
    DifferenceEmpty(s.nodes, mems);
  }

  /** A task that arrives is where it was going, or, if that cpuset has been emptied meanwhile, the tasks there
      that can be moved are in the first one on the way up with both resources; all others stay. */
  lemma FinishAttachHomes(s: Sys, k: Task, cur: nat, stuck: set<Task>)
    requires Inv(s) && Enabled(s, OpFinishAttach(k, cur, stuck))
    ensures var s' := FinishAttach(s, k, cur, stuck);
      && s' == s.(sets := s.sets[cur := s.sets[cur].(attaching := s.sets[cur].attaching - 1)], home := s'.home)
      && WellFormed(s'.sets) && s'.home.Keys == s.home.Keys
      && forall j :: j in s.home ==>
           if j != k && s.home[j] != cur then s'.home[j] == s.home[j]
           else if HasResources(s.sets[cur]) || j in stuck then s'.home[j] == cur
           else IsNearest(s'.sets, cur, s'.home[j])
  {
    hide Inv, FinishAttach, Nested, SiblingsDisjoint, MasksLive;
    FinishAttachShape(s, k, cur, stuck);
  }

  /** A root with CPUs 0 and 1, its child A with both, A's child B with CPU 1, and task 7 in B */
  function TwoBelow(): Sys {
    Sys([Cs(0, {Online, CpuExclusive, MemExclusive}, {0, 1}, {0}, 0), Cs(0, {Online}, {0, 1}, {0}, 0), Cs(1, {Online}, {1}, {0}, 0)],
        map[7 := 2], 3, {0, 1}, {0})
  }

  lemma TwoBelowRules()
    ensures Inv(TwoBelow()) && HomesOnline(TwoBelow()) && WellFormed(TwoBelow().sets)
  {
    hide Nested, SiblingsDisjoint, MasksLive;
    TwoBelowMasks();
    assert OnlineSet(TwoBelow().sets) == {0, 1, 2};
  }

  lemma TwoBelowMasks()
    ensures var s := TwoBelow(); WellFormed(s.sets) && Nested(s.sets) && SiblingsDisjoint(s.sets) && MasksLive(s)
  {
    var s := TwoBelow();
    assert 0 in s.sets[1].cpus * s.active && 1 in s.sets[2].cpus * s.active;
  }

  /** CPU 1 goes down: A keeps CPU 0, B is emptied, and its task is then in A. */
  lemma EvacuationExample(s: Sys)
    requires s == TwoBelow()
    ensures Inv(s) && 7 in Hotplug(s, {0}, {0}, {}).home && Hotplug(s, {0}, {0}, {}).home[7] == 1
  {
    hide Inv, Hotplug, IsNearest, Nearest, HomesOnline;
    TwoBelowRules();
    var s' := Hotplug(s, {0}, {0}, {});
    HotplugMasks(s, {0}, {0}, {});
    HotplugHomes(s, {0}, {0}, {});
    assert 1 in s.active && 1 !in {0};
    TwoBelowCut(s, s'.sets, s'.home[7]);
  }

  lemma TwoBelowCut(s: Sys, t: seq<Cs>, r: nat)
    requires s == TwoBelow() && WellFormed(t) && |t| == 3
    requires t[1] == Cut(s.sets[1], {0}, {0}) && t[2] == Cut(s.sets[2], {0}, {0}) && IsNearest(t, 2, r)
    ensures r == 1
  {
    assert 0 in s.sets[1].cpus && 0 in s.sets[1].mems && s.sets[2].cpus == {1};
    assert Above(t, 1, 1);
    assert Above(t, 2, 1) && HasResources(t[1]) && !HasResources(t[2]);
  }

  // ---------------------------------------------------------------- writes

  /** Each error of validate_change has its reason, and comes before the reasons after it. */
  lemma ValidateReason(s: Sys, cur: nat, trial: Cs)
    requires WellFormed(s.sets) && cur < |s.sets|
    ensures var e, t, par := Validate(s, cur, trial), s.sets, s.sets[cur].parent;
      && (e == EBUSY <==> exists c: nat :: IsChild(t, c, cur) && !IsSubset(t[c], trial))
      && (e == EACCES ==> cur != 0 && !IsSubset(trial, t[par]))
      && (e == EINVAL ==> cur != 0 && exists c: nat :: IsChild(t, c, par) && c != cur && Conflict(trial, t[c]))
      && (e == ENOSPC ==> cur != 0 && Occupied(s, cur) && !HasResources(trial))
      && e != ENODEV
      && (e in {EINVAL, ENOSPC} ==> IsSubset(trial, t[par]))
  {
  }

  function Written(w: MaskWrite): set<nat>
    requires !w.Malformed?
  {
    if w.Listed? then w.mask else {}
  }

  /** Where the rules hold, a list of active CPUs written to an online cpuset below the root is stored exactly
      if the rules hold with it in place and no task loses its last CPU.  A write that fails changes nothing. */
  lemma WriteCpusExactly(s: Sys, cur: nat, w: MaskWrite)
    requires WellFormed(s.sets) && AllNested(s.sets) && SiblingsDisjoint(s.sets) && cur < |s.sets|
    ensures var (e, s') := WriteCpus(s, cur, w);
      && (e != Ok ==> s' == s)
      && (!IsOnline(s.sets[cur]) ==> e == ENODEV)
      && (IsOnline(s.sets[cur]) && cur == 0 ==> e == EACCES)
      && (IsOnline(s.sets[cur]) && cur != 0 && (w.Malformed? || !(Written(w) <= s.active)) ==> e == EINVAL)
      && (IsOnline(s.sets[cur]) && cur != 0 && !w.Malformed? && Written(w) <= s.active ==>
            var u := s.sets[cur := s.sets[cur].(cpus := Written(w))];
            && WellFormed(u)
            && (e == Ok <==> AllNested(u) && SiblingsDisjoint(u) && (Occupied(s, cur) ==> HasResources(u[cur])))
            && (e == Ok ==> s' == s.(sets := u)))
  {
    hide AllNested, SiblingsDisjoint, Occupied;
    if IsOnline(s.sets[cur]) && cur != 0 && !w.Malformed? {
      ValidateExactly(s, cur, s.sets[cur].(cpus := Written(w)));
    }
  }

  /** The same for memory nodes; writing the mask that is there always succeeds. */
  lemma WriteMemsExactly(s: Sys, cur: nat, w: MaskWrite)
    requires WellFormed(s.sets) && AllNested(s.sets) && SiblingsDisjoint(s.sets) && cur < |s.sets|
    ensures var (e, s') := WriteMems(s, cur, w);
      && (e != Ok ==> s' == s)
      && (!IsOnline(s.sets[cur]) ==> e == ENODEV)
      && (IsOnline(s.sets[cur]) && cur == 0 ==> e == EACCES)
      && (IsOnline(s.sets[cur]) && cur != 0 && (w.Malformed? || !(Written(w) <= s.nodes)) ==> e == EINVAL)
      && (IsOnline(s.sets[cur]) && cur != 0 && !w.Malformed? && Written(w) <= s.nodes ==>
            var u := s.sets[cur := s.sets[cur].(mems := Written(w))];
            && WellFormed(u)
            && (e == Ok <==> u == s.sets || (AllNested(u) && SiblingsDisjoint(u) && (Occupied(s, cur) ==> HasResources(u[cur]))))
            && (e == Ok ==> s' == s.(sets := u)))
  {
    hide AllNested, SiblingsDisjoint, Occupied;
    if IsOnline(s.sets[cur]) && cur != 0 && !w.Malformed? {
      ValidateExactly(s, cur, s.sets[cur].(mems := Written(w)));
      if Written(w) == s.sets[cur].mems { assert s.sets[cur := s.sets[cur]] == s.sets; }
    }
  }

  /** The same for a flag file: afterwards the flag is what was written, and every other one what it was. */
  lemma WriteFlagExactly(s: Sys, cur: nat, f: Flag, on: bool)
    requires WellFormed(s.sets) && AllNested(s.sets) && SiblingsDisjoint(s.sets) && cur < |s.sets| && f != Online
    ensures var (e, s') := WriteFlag(s, cur, f, on);
      && (e != Ok ==> s' == s)
      && (!IsOnline(s.sets[cur]) ==> e == ENODEV)
      && (e == Ok ==>
            && |s'.sets| == |s.sets| && s' == s.(sets := s.sets[cur := s.sets[cur].(flags := s'.sets[cur].flags)])
            && forall g :: g in s'.sets[cur].flags <==> if g == f then on else g in s.sets[cur].flags)
      && (IsOnline(s.sets[cur]) ==>
            var u := s.sets[cur := s.sets[cur].(flags := if on then s.sets[cur].flags + {f} else s.sets[cur].flags - {f})];
            && WellFormed(u)
            && (e == Ok <==> AllNested(u) && SiblingsDisjoint(u) && (cur != 0 && Occupied(s, cur) ==> HasResources(u[cur]))))
  {
    hide AllNested, SiblingsDisjoint, Occupied;
    if IsOnline(s.sets[cur]) { ValidateExactly(s, cur, WithFlag(s.sets[cur], f, on)); }
  }

  // ---------------------------------------------------------------- creation, removal, attaching

  /** A new cpuset comes last, balanced and not exclusive, with its parent's spreading, and with its parent's
      resources exactly if cloning is on and no child of the parent is exclusive. */
  lemma NewbornExactly(s: Sys, par: nat, clone: bool)
    requires par < |s.sets|
    ensures var s', p := Create(s, par, clone), s.sets[par];
      && |s'.sets| == |s.sets| + 1 && s'.sets[..|s.sets|] == s.sets && s' == s.(sets := s'.sets, count := s.count + 1)
      && var c := s'.sets[|s.sets|];
      && c.parent == par && c.attaching == 0
      && (forall f :: f in c.flags <==> f in {Online, SchedLoadBalance} || (f in {SpreadPage, SpreadSlab} && f in p.flags))
      && (c.cpus, c.mems) ==
           if clone && (forall x: nat :: IsChild(s.sets, x, par) ==> !(CpuExclusive in s.sets[x].flags || MemExclusive in s.sets[x].flags))
           then (p.cpus, p.mems) else ({}, {})
  {
  }

  /** A cpuset that is removed goes offline, unbalanced exactly if its CPUs lie within its parent's; nothing else
      changes but the count. */
  lemma RemoveExactly(s: Sys, cur: nat)
    requires Inv(s) && Removable(s, cur)
    ensures var s', c := Remove(s, cur), s.sets[cur];
      && |s'.sets| == |s.sets| && s' == s.(sets := s.sets[cur := c.(flags := s'.sets[cur].flags)], count := s.count - 1)
      && forall f :: f in s'.sets[cur].flags <==>
           f in c.flags && f != Online && (f == SchedLoadBalance ==> !(c.cpus <= s.sets[c.parent].cpus))
  {
    RemovalSwitchesOff(s, cur);
  }

  /** An attach can begin exactly where there are CPUs and memory, and calling it off restores everything. */
  lemma AttachUndone(s: Sys, cur: nat)
    requires cur < |s.sets|
    ensures var (e, s') := BeginAttach(s, cur);
      && (e == if s.sets[cur].cpus == {} || s.sets[cur].mems == {} then ENOSPC else Ok)
      && (e != Ok ==> s' == s)
      && (e == Ok ==> |s'.sets| == |s.sets| && s'.sets[cur].attaching == s.sets[cur].attaching + 1 && CancelAttach(s', cur) == s)
  {
    var (e, s') := BeginAttach(s, cur);
    if e == Ok { assert s'.sets[cur := s.sets[cur]] == s.sets; }
  }
}
