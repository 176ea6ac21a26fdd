/** Over every run of the cpuset operations the structural rules hold. */
module CpusetRules {
  import opened CpusetTree

  /** `trial` is a value that an operation may propose for `cur`, and validate_change accepts it. */
  ghost predicate Accepted(s: Sys, cur: nat, trial: Cs) {
    && WellFormed(s.sets) && cur < |s.sets| && IsOnline(s.sets[cur]) && IsOnline(trial)
    && trial.parent == s.sets[cur].parent
    && (cur == 0 ==> trial.cpus == s.sets[0].cpus && trial.mems == s.sets[0].mems)
    && (trial.cpus == s.sets[cur].cpus || trial.cpus <= s.active)
    && Validate(s, cur, trial) == Ok
  }

  lemma AcceptedNested(s: Sys, cur: nat, trial: Cs)
    requires Accepted(s, cur, trial) && Nested(s.sets)
    ensures WellFormed(Put(s, cur, trial).sets) && Nested(Put(s, cur, trial).sets)
    ensures AllNested(s.sets) ==> AllNested(Put(s, cur, trial).sets)
  {
    var t, u := s.sets, Put(s, cur, trial).sets;
    forall i | 0 < i < |u| && IsOnline(u[i])
      ensures u[i].mems <= u[u[i].parent].mems && FlagsWithin(u[i], u[u[i].parent])
      ensures u[i].parent != 0 ==> u[i].cpus <= u[u[i].parent].cpus
      ensures AllNested(t) ==> IsSubset(u[i], u[u[i].parent])
    {
      if i != cur && t[i].parent == cur { assert IsChild(t, i, cur); }
    }
  }

  lemma AcceptedDisjoint(s: Sys, cur: nat, trial: Cs)
    requires Accepted(s, cur, trial) && SiblingsDisjoint(s.sets)
    ensures SiblingsDisjoint(Put(s, cur, trial).sets)
  {
    var t, u := s.sets, Put(s, cur, trial).sets;
    forall i, j | 0 < i < |u| && 0 < j < |u| && i != j && IsOnline(u[i]) && IsOnline(u[j]) && u[i].parent == u[j].parent
      ensures !Conflict(u[i], u[j])
    {
      if i == cur {
        assert IsChild(t, j, t[cur].parent);
      } else if j == cur {
        assert IsChild(t, i, t[cur].parent);
      }
    }
  }

  /** The heart of validate_change: a trial value it accepts can be installed without breaking a rule. */
  lemma AcceptedKeepsRules(s: Sys, cur: nat, trial: Cs)
    requires Accepted(s, cur, trial) && Inv(s)
    ensures Inv(Put(s, cur, trial))
    ensures AllNested(s.sets) ==> AllNested(Put(s, cur, trial).sets)
  {
    AcceptedNested(s, cur, trial);
    AcceptedDisjoint(s, cur, trial);
    assert OnlineSet(Put(s, cur, trial).sets) == OnlineSet(s.sets);
  }

  /** validate_change is exact: where the rules hold, it accepts a trial value precisely when they still
      hold with the value in place and no cpuset with tasks loses its last CPU or memory node. */
  lemma ValidateExactly(s: Sys, cur: nat, trial: Cs)
    requires WellFormed(s.sets) && AllNested(s.sets) && SiblingsDisjoint(s.sets) && cur < |s.sets|
    requires IsOnline(s.sets[cur]) && IsOnline(trial) && trial.parent == s.sets[cur].parent
    ensures WellFormed(Put(s, cur, trial).sets)
    ensures Validate(s, cur, trial) == Ok <==>
      && AllNested(Put(s, cur, trial).sets) && SiblingsDisjoint(Put(s, cur, trial).sets)
      && (cur != 0 && Occupied(s, cur) ==> HasResources(trial))
  {
    hide AllNested, SiblingsDisjoint, Conflict, IsSubset;
    var t, u := s.sets, Put(s, cur, trial).sets;
    assert AllNested(u) <==>
      && (forall c: nat :: IsChild(t, c, cur) ==> IsSubset(t[c], trial))
      && (cur != 0 ==> IsSubset(trial, t[t[cur].parent])) by {
      NestedExactly(s, cur, trial);
    }
    assert cur != 0 ==> (SiblingsDisjoint(u) <==>
      forall c: nat :: IsChild(t, c, t[cur].parent) && c != cur ==> !Conflict(trial, t[c])) by {
      if cur != 0 { DisjointExactly(s, cur, trial); }
    }
    if cur == 0 { RootDisjoint(s, trial); }
  }

  lemma RootDisjoint(s: Sys, trial: Cs)
    requires WellFormed(s.sets) && SiblingsDisjoint(s.sets)
    ensures SiblingsDisjoint(Put(s, 0, trial).sets)
  {
  }

  lemma NestedExactly(s: Sys, cur: nat, trial: Cs)
    requires WellFormed(s.sets) && AllNested(s.sets) && cur < |s.sets|
    requires IsOnline(s.sets[cur]) && IsOnline(trial) && trial.parent == s.sets[cur].parent
    ensures WellFormed(Put(s, cur, trial).sets)
    ensures AllNested(Put(s, cur, trial).sets) <==>
      && (forall c: nat :: IsChild(s.sets, c, cur) ==> IsSubset(s.sets[c], trial))
      && (cur != 0 ==> IsSubset(trial, s.sets[s.sets[cur].parent]))
  {
    var t, u := s.sets, Put(s, cur, trial).sets;
    if AllNested(u) {
      forall c: nat | IsChild(t, c, cur) ensures IsSubset(t[c], trial) {
        assert u[c].parent == cur;
      }
      assert u[cur].parent == t[cur].parent;
    }
    if (forall c: nat :: IsChild(t, c, cur) ==> IsSubset(t[c], trial)) && (cur != 0 ==> IsSubset(trial, t[t[cur].parent])) {
      forall i | 0 < i < |u| && IsOnline(u[i]) ensures IsSubset(u[i], u[u[i].parent]) {
        if i != cur && t[i].parent == cur { assert IsChild(t, i, cur); }
      }
    }
  }

  lemma DisjointExactly(s: Sys, cur: nat, trial: Cs)
    requires WellFormed(s.sets) && SiblingsDisjoint(s.sets) && 0 < cur < |s.sets|
    requires IsOnline(s.sets[cur]) && IsOnline(trial) && trial.parent == s.sets[cur].parent
    ensures SiblingsDisjoint(Put(s, cur, trial).sets) <==>
      forall c: nat :: IsChild(s.sets, c, s.sets[cur].parent) && c != cur ==> !Conflict(trial, s.sets[c])
  {
    var t, u := s.sets, Put(s, cur, trial).sets;
    if SiblingsDisjoint(u) {
      forall c: nat | IsChild(t, c, t[cur].parent) && c != cur ensures !Conflict(trial, t[c]) {
        assert u[c] == t[c] && u[cur] == trial;
      }
    }
    if forall c: nat :: IsChild(t, c, t[cur].parent) && c != cur ==> !Conflict(trial, t[c]) {
      forall i, j | 0 < i < |u| && 0 < j < |u| && i != j && IsOnline(u[i]) && IsOnline(u[j]) && u[i].parent == u[j].parent
        ensures !Conflict(u[i], u[j])
      {
        if i == cur {
          assert IsChild(t, j, t[cur].parent);
        } else if j == cur {
          assert IsChild(t, i, t[cur].parent);
        }
      }
    }
  }

  // ---------------------------------------------------------------- one operation at a time

  lemma WriteCpusKeepsRules(s: Sys, cur: nat, w: MaskWrite)
    requires Inv(s) && cur < |s.sets|
    ensures Inv(WriteCpus(s, cur, w).1) && (AllNested(s.sets) ==> AllNested(WriteCpus(s, cur, w).1.sets))
  {
    var r := WriteCpus(s, cur, w);
    if r.0 == Ok {
      AcceptedKeepsRules(s, cur, s.sets[cur].(cpus := if w.Listed? then w.mask else {}));
    } else {
      assert r.1 == s;
    }
  }

  lemma WriteMemsKeepsRules(s: Sys, cur: nat, w: MaskWrite)
    requires Inv(s) && cur < |s.sets|
    ensures Inv(WriteMems(s, cur, w).1) && (AllNested(s.sets) ==> AllNested(WriteMems(s, cur, w).1.sets))
  {
    var r := WriteMems(s, cur, w);
    var trial := s.sets[cur].(mems := if w.Listed? then w.mask else {});
    if r.0 == Ok && trial.mems != s.sets[cur].mems {
      AcceptedKeepsRules(s, cur, trial);
    } else {
      assert r.1 == s;
    }
  }

  lemma UpdateFlagKeepsRules(s: Sys, cur: nat, f: Flag, on: bool)
    requires Inv(s) && cur < |s.sets| && IsOnline(s.sets[cur]) && f != Online
    ensures Inv(UpdateFlag(s, cur, f, on).1) && (AllNested(s.sets) ==> AllNested(UpdateFlag(s, cur, f, on).1.sets))
  {
    var r := UpdateFlag(s, cur, f, on);
    if r.0 == Ok {
      AcceptedKeepsRules(s, cur, WithFlag(s.sets[cur], f, on));
    } else {
      assert r.1 == s;
    }
  }

  /** The value cpuset_css_online gives a new child of `par`. */
  ghost predicate Newborn(s: Sys, par: nat, c: Cs) {
    && par < |s.sets| && IsOnline(s.sets[par]) && IsOnline(c) && c.parent == par
    && CpuExclusive !in c.flags && MemExclusive !in c.flags
    && ((c.cpus == {} && c.mems == {})
        || (!AnyExclusiveChild(s.sets, par) && c.cpus == s.sets[par].cpus && c.mems == s.sets[par].mems))
  }

  lemma NewbornNested(s: Sys, par: nat, c: Cs)
    requires WellFormed(s.sets) && Nested(s.sets) && Newborn(s, par, c)
    ensures WellFormed(s.sets + [c]) && Nested(s.sets + [c])
    ensures AllNested(s.sets) ==> AllNested(s.sets + [c])
  {
    var u := s.sets + [c];
    assert forall i :: 0 <= i < |s.sets| ==> u[i] == s.sets[i];
  }

  lemma NewbornDisjoint(s: Sys, par: nat, c: Cs)
    requires SiblingsDisjoint(s.sets) && Newborn(s, par, c)
    ensures SiblingsDisjoint(s.sets + [c])
  {
    var n := |s.sets|;
    forall j | 0 < j < n && IsOnline(s.sets[j]) && s.sets[j].parent == par
      ensures !Conflict(c, s.sets[j]) && !Conflict(s.sets[j], c)
    {
      assert IsChild(s.sets, j, par);
    }
    var u := s.sets + [c];
    assert forall i :: 0 <= i < n ==> u[i] == s.sets[i];
  }

  lemma NewbornRest(s: Sys, par: nat, c: Cs)
    requires MasksLive(s) && HomesOnline(s) && Newborn(s, par, c) && s.active == s.sets[0].cpus
    requires par == 0 || s.sets[par].cpus == {} || s.sets[par].cpus * s.active != {}
    ensures MasksLive(s.(sets := s.sets + [c])) && HomesOnline(s.(sets := s.sets + [c]))
  {
    var u := s.sets + [c];
    assert forall i :: 0 <= i < |s.sets| ==> u[i] == s.sets[i];
    assert s.active * s.active == s.active;
  }

  lemma OnlineSetGrows(t: seq<Cs>, c: Cs)
    requires IsOnline(c)
    ensures |OnlineSet(t + [c])| == |OnlineSet(t)| + 1
  {
    assert OnlineSet(t + [c]) == OnlineSet(t) + {|t|};
  }

  lemma CreateKeepsRules(s: Sys, par: nat, clone: bool)
    requires Inv(s) && par < |s.sets| && IsOnline(s.sets[par])
    ensures Inv(Create(s, par, clone))
    ensures AllNested(s.sets) ==> AllNested(Create(s, par, clone).sets)
  {
    var s' := Create(s, par, clone);
    var c := s'.sets[|s.sets|];
    assert s'.sets == s.sets + [c];
    NewbornNested(s, par, c);
    NewbornDisjoint(s, par, c);
    NewbornRest(s, par, c);
    OnlineSetGrows(s.sets, c);
    assert MasksLive(s.(sets := s.sets + [c])) ==> MasksLive(s');
    assert HomesOnline(s.(sets := s.sets + [c])) ==> HomesOnline(s');
  }

  /** `u` is `t` with the childless cpuset `cur` gone. */
  ghost predicate Gone(t: seq<Cs>, u: seq<Cs>, cur: nat) {
    && 0 < cur < |t| == |u| && WellFormed(t) && IsOnline(t[cur]) && !IsOnline(u[cur]) && u[cur].parent == t[cur].parent
    && (forall i :: 0 <= i < |u| && i != cur ==> u[i] == t[i])
    && (forall i :: 0 < i < |u| && IsOnline(t[i]) ==> t[i].parent != cur)
  }

  lemma GoneRules(t: seq<Cs>, u: seq<Cs>, cur: nat)
    requires Gone(t, u, cur) && Nested(t) && SiblingsDisjoint(t)
    ensures WellFormed(u) && Nested(u) && (AllNested(t) ==> AllNested(u))
    ensures SiblingsDisjoint(u)
    ensures |OnlineSet(u)| == |OnlineSet(t)| - 1
  {
    assert OnlineSet(u) == OnlineSet(t) - {cur};
  }

  lemma GoOffline(s: Sys, cur: nat)
    requires Inv(s) && Removable(s, cur)
    ensures Inv(Put(s, cur, WithFlag(s.sets[cur], Online, false)).(count := s.count - 1))
    ensures AllNested(s.sets) ==> AllNested(Put(s, cur, WithFlag(s.sets[cur], Online, false)).sets)
  {
    var s' := Put(s, cur, WithFlag(s.sets[cur], Online, false)).(count := s.count - 1);
    forall i | 0 < i < |s.sets| && IsOnline(s.sets[i]) ensures s.sets[i].parent != cur {
      assert !IsChild(s.sets, i, cur);
    }
    assert Gone(s.sets, s'.sets, cur);
    GoneRules(s.sets, s'.sets, cur);
    assert HomesOnline(s') && MasksLive(s') && RootTracks(s');
  }

  lemma RemoveKeepsRules(s: Sys, cur: nat)
    requires Inv(s) && Removable(s, cur)
    ensures Inv(Remove(s, cur))
    ensures AllNested(s.sets) ==> AllNested(Remove(s, cur).sets)
  {
    if SchedLoadBalance in s.sets[cur].flags {
      UpdateFlagKeepsRules(s, cur, SchedLoadBalance, false);
      var s1 := UpdateFlag(s, cur, SchedLoadBalance, false).1;
      forall c: nat ensures !IsChild(s1.sets, c, cur) {
        assert !IsChild(s.sets, c, cur);
      }
      GoOffline(s1, cur);
    } else {
      GoOffline(s, cur);
    }
  }

  lemma DisjointIff(a: set<nat>, b: set<nat>)
    ensures a * b == {} <==> forall x :: x in a ==> x !in b
  {
    forall x | x in a && x in b ensures x in a * b {}
  }

  lemma DifferenceEmpty(a: set<nat>, b: set<nat>)
    ensures a - b == {} <==> a <= b
  {
    forall x | x in a && x !in b ensures x in a - b {}
  }

  lemma EvacuatedHomes(t: seq<Cs>, home: map<Task, nat>, stuck: set<Task>)
    requires WellFormed(t) && forall k :: k in home ==> home[k] < |t| && IsOnline(t[home[k]])
    ensures forall k :: k in home ==> Evacuated(t, home, stuck)[k] < |t| && IsOnline(t[Evacuated(t, home, stuck)[k]])
  {
  }

  /** What propagation does to one cpuset below the root: memory nodes follow the root, the CPU mask is
      kept whole as long as one of its CPUs is active, and otherwise becomes empty. */
  lemma PropagatedMask(c: Cs, cpus: set<Cpu>, mems: set<MemNode>)
    ensures Propagated(c, cpus, mems).cpus == if c.cpus * cpus == {} then {} else c.cpus
    ensures Propagated(c, cpus, mems).mems == c.mems * mems
    ensures Propagated(c, cpus, mems).flags == c.flags && Propagated(c, cpus, mems).parent == c.parent
  {
    DisjointIff(c.cpus, cpus);
    assert c.cpus * cpus == {} ==> c.cpus - (c.cpus - cpus) == {};
    assert c.mems - (c.mems - mems) == c.mems * mems;
  }

  lemma HotplugNested(t: seq<Cs>, cpus: set<Cpu>, mems: set<MemNode>)
    requires WellFormed(t) && Nested(t)
    ensures WellFormed(HotplugSets(t, cpus, mems, Offlines(t, cpus, mems)))
    ensures Nested(HotplugSets(t, cpus, mems, Offlines(t, cpus, mems)))
  {
    var off := Offlines(t, cpus, mems);
    var u := HotplugSets(t, cpus, mems, off);
    forall i | 0 < i < |u| && IsOnline(u[i])
      ensures u[i].mems <= u[u[i].parent].mems && FlagsWithin(u[i], u[u[i].parent])
      ensures u[i].parent != 0 ==> u[i].cpus <= u[u[i].parent].cpus
    {
      var p := t[i].parent;
      PropagatedMask(t[i], cpus, mems);
      PropagatedMask(t[p], cpus, mems);
      DifferenceEmpty(t[0].mems, mems);
      DisjointIff(t[p].cpus, cpus);
      DisjointIff(t[i].cpus, cpus);
    }
  }

  lemma HotplugDisjoint(t: seq<Cs>, cpus: set<Cpu>, mems: set<MemNode>, off: bool)
    requires WellFormed(t) && SiblingsDisjoint(t)
    ensures SiblingsDisjoint(HotplugSets(t, cpus, mems, off))
  {
    var u := HotplugSets(t, cpus, mems, off);
    forall i, j | 0 < i < |u| && 0 < j < |u| && i != j && IsOnline(u[i]) && IsOnline(u[j]) && u[i].parent == u[j].parent
      ensures !Conflict(u[i], u[j])
    {
      PropagatedMask(t[i], cpus, mems);
      PropagatedMask(t[j], cpus, mems);
      assert !Conflict(t[i], t[j]);
      assert u[i].cpus * u[j].cpus <= t[i].cpus * t[j].cpus;
      assert u[i].mems * u[j].mems <= t[i].mems * t[j].mems;
    }
  }

  lemma HotplugKeepsRules(s: Sys, cpus: set<Cpu>, mems: set<MemNode>, stuck: set<Task>)
    requires Inv(s) && cpus != {} && mems != {}
    ensures Inv(Hotplug(s, cpus, mems, stuck))
  {
    var off := Offlines(s.sets, cpus, mems);
    var t, u := s.sets, Hotplug(s, cpus, mems, stuck).sets;
    HotplugNested(t, cpus, mems);
    HotplugDisjoint(t, cpus, mems, off);
    forall i | 0 < i < |u| && IsOnline(u[i]) ensures u[i].cpus == {} || u[i].cpus * cpus != {} {
      PropagatedMask(t[i], cpus, mems);
      if !off {
        DifferenceEmpty(s.active, cpus);
        DisjointIff(t[i].cpus, s.active);
        DisjointIff(t[i].cpus, cpus);
      }
    }
    forall i | 0 <= i < |u| ensures IsOnline(u[i]) == IsOnline(t[i]) { PropagatedMask(t[i], cpus, mems); }
    assert OnlineSet(u) == OnlineSet(t);
    EvacuatedHomes(u, s.home, stuck);
  }

  lemma AttachCountKeepsRules(s: Sys, cur: nat, n: nat)
    requires Inv(s) && cur < |s.sets|
    ensures Inv(Put(s, cur, s.sets[cur].(attaching := n)))
    ensures AllNested(s.sets) ==> AllNested(Put(s, cur, s.sets[cur].(attaching := n)).sets)
  {
    var s' := Put(s, cur, s.sets[cur].(attaching := n));
    SameShapeRules(s.sets, s'.sets);
    assert MasksLive(s') && HomesOnline(s');
  }

  ghost predicate SameShape(t: seq<Cs>, u: seq<Cs>) {
    |t| == |u| && forall i :: 0 <= i < |t| ==> u[i] == t[i].(attaching := u[i].attaching)
  }

  lemma SameShapeNested(t: seq<Cs>, u: seq<Cs>)
    requires SameShape(t, u) && WellFormed(t) && Nested(t)
    ensures WellFormed(u) && Nested(u) && OnlineSet(u) == OnlineSet(t)
    ensures AllNested(t) ==> AllNested(u)
  {
  }

  lemma SameShapeRules(t: seq<Cs>, u: seq<Cs>)
    requires SameShape(t, u) && WellFormed(t) && Nested(t) && SiblingsDisjoint(t)
    ensures WellFormed(u) && Nested(u) && SiblingsDisjoint(u) && OnlineSet(u) == OnlineSet(t)
    ensures AllNested(t) ==> AllNested(u)
  {
    SameShapeNested(t, u);
    forall i, j | 0 < i < |u| && 0 < j < |u| && i != j && IsOnline(u[i]) && IsOnline(u[j]) && u[i].parent == u[j].parent
      ensures !Conflict(u[i], u[j])
    {
      assert !Conflict(t[i], t[j]);
    }
  }

  /** A cpuset that already follows the root is left as it is by a late propagation. */
  lemma PropagationIdle(s: Sys, cur: nat)
    requires Inv(s) && cur < |s.sets| && IsOnline(s.sets[cur])
    ensures Propagated(s.sets[cur], s.sets[0].cpus, s.sets[0].mems) == s.sets[cur]
  {
    PropagatedMask(s.sets[cur], s.sets[0].cpus, s.sets[0].mems);
    MemsWithinRoot(s.sets, cur);
    DisjointIff(s.sets[cur].cpus, s.active);
    if cur == 0 { assert s.active * s.active == s.active; }
  }

  lemma MemsWithinRoot(t: seq<Cs>, i: nat)
    requires WellFormed(t) && Nested(t) && i < |t| && IsOnline(t[i])
    ensures t[i].mems <= t[0].mems
  {
    if i != 0 { MemsWithinRoot(t, t[i].parent); }
  }

  /** A late propagation moves tasks but changes no mask. */
  lemma FinishAttachShape(s: Sys, k: Task, cur: nat, stuck: set<Task>)
    requires Inv(s) && Enabled(s, OpFinishAttach(k, cur, stuck))
    ensures var s' := FinishAttach(s, k, cur, stuck);
      var t := s.sets[cur := s.sets[cur].(attaching := s.sets[cur].attaching - 1)];
      && WellFormed(t) && s' == s.(sets := t, home := s'.home)
      && s'.home == if HasResources(s.sets[cur]) then s.home[k := cur]
                    else map j | j in s.home[k := cur] ::
                           if s.home[k := cur][j] == cur && j !in stuck then Nearest(t, cur) else s.home[k := cur][j]
  {
    var c := s.sets[cur].(attaching := s.sets[cur].attaching - 1);
    AttachCountKeepsRules(s, cur, c.attaching);
    PropagationIdle(Put(s, cur, c), cur);
    assert s.sets[cur := c][cur := c] == s.sets[cur := c];
    if cur == 0 { PropagationIdle(s, 0); }
  }

  lemma RehomedKeepsRules(s: Sys, home: map<Task, nat>)
    requires Inv(s) && HomesOnline(s.(home := home))
    ensures Inv(s.(home := home))
  {
  }

  lemma FinishAttachHomes(s: Sys, k: Task, cur: nat, stuck: set<Task>)
    requires Inv(s) && Enabled(s, OpFinishAttach(k, cur, stuck))
    ensures HomesOnline(FinishAttach(s, k, cur, stuck))
  {
    FinishAttachShape(s, k, cur, stuck);
  }

  lemma FinishAttachKeepsRules(s: Sys, k: Task, cur: nat, stuck: set<Task>)
    requires Inv(s) && Enabled(s, OpFinishAttach(k, cur, stuck))
    ensures Inv(FinishAttach(s, k, cur, stuck))
    ensures AllNested(s.sets) ==> AllNested(FinishAttach(s, k, cur, stuck).sets)
  {
    var s', n := FinishAttach(s, k, cur, stuck), s.sets[cur].attaching - 1;
    var s1 := Put(s, cur, s.sets[cur].(attaching := n));
    FinishAttachHomes(s, k, cur, stuck);
    AttachCountKeepsRules(s, cur, n);
    assert s' == s1.(home := s'.home) by { FinishAttachShape(s, k, cur, stuck); }
    RehomedKeepsRules(s1, s'.home);
  }
}
