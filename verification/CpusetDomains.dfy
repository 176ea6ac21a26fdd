/** Which cpusets the scheduler domains are built from, and when the domains last built stay right. */
module CpusetDomains {
  import opened CpusetTree
  import opened CpusetRules
  import opened CpusetRuns
  import P = Partition
  import opened PartitionChange

  /** The walk of generate_sched_domains() goes on below `i` unless `i` is balanced or has no CPUs. */
  predicate Descends(t: seq<Cs>, i: nat)
    requires i < |t|
  {
    i == 0 || !IsOnline(t[i]) || (t[i].cpus != {} && SchedLoadBalance !in t[i].flags)
  }

  ghost predicate Reached(t: seq<Cs>, i: nat)
    requires WellFormed(t) && i < |t|
  {
    i == 0 || (Reached(t, t[i].parent) && Descends(t, t[i].parent))
  }

  /** The cpusets collected into `csa`: the topmost balanced ones. */
  ghost predicate Selected(t: seq<Cs>, i: nat)
    requires WellFormed(t)
  {
    0 < i < |t| && IsOnline(t[i]) && SchedLoadBalance in t[i].flags && Reached(t, i)
  }

  /** `i` is among the cpusets the domains are built from; a balanced root is the only one. */
  ghost predicate Collected(t: seq<Cs>, i: nat)
    requires WellFormed(t)
  {
    if SchedLoadBalance in t[0].flags then i == 0 else Selected(t, i)
  }

  /** The collected cpusets that have CPUs, with their masks. */
  ghost function BalancedMap(t: seq<Cs>): map<nat, set<Cpu>>
    requires WellFormed(t)
  {
    map i: nat | i < |t| && Collected(t, i) && t[i].cpus != {} :: t[i].cpus
  }

  /** `doms` is what generate_sched_domains() would hand over for the tree `t`, up to empty domains. */
  ghost predicate Current(doms: seq<set<Cpu>>, t: seq<Cs>)
    requires WellFormed(t)
  {
    RightFor(doms, BalancedMap(t).Values)
  }

  // ---------------------------------------------------------------- coverage

  /** An online cpuset with CPUs that the walk does not reach lies below a collected one, inside its mask. */
  lemma {:induction false} SelectedAbove(t: seq<Cs>, i: nat) returns (a: nat)
    requires WellFormed(t) && Nested(t) && 0 < i < |t| && IsOnline(t[i]) && t[i].cpus != {}
    requires SchedLoadBalance in t[i].flags || !Reached(t, i)
    ensures Selected(t, a) && t[i].cpus <= t[a].cpus
    decreases i
  {
    if Reached(t, i) {
      a := i;
    } else {
      var p := t[i].parent;
      a := SelectedAbove(t, p);
    }
  }

  /** With an unbalanced root, every balanced cpuset, however deep, keeps its CPUs together in exactly one
      domain, although only the topmost balanced cpusets are collected. */
  lemma EveryBalancedCovered(s: Sys, doms: seq<set<Cpu>>, i: nat)
    requires Inv(s) && Current(doms, s.sets) && SchedLoadBalance !in s.sets[0].flags
    requires 0 < i < |s.sets| && IsOnline(s.sets[i]) && SchedLoadBalance in s.sets[i].flags && s.sets[i].cpus != {}
    ensures exists d :: 0 <= d < |doms| && s.sets[i].cpus <= doms[d]
    ensures forall d, e :: 0 <= d < |doms| && 0 <= e < |doms| && s.sets[i].cpus <= doms[d] && s.sets[i].cpus <= doms[e] ==> d == e
  {
    var t := s.sets;
    var a := SelectedAbove(t, i);
    var m, where :| P.Domains(doms, m, where) && P.NonEmpty(m) == BalancedMap(t).Values;
    P.DomainsDisjoint(doms, m, where);
    P.DomainsUnion(doms, m, where);
    assert a in BalancedMap(t) && BalancedMap(t)[a] == t[a].cpus;
    assert t[a].cpus in P.NonEmpty(m);
    var k :| 0 <= k < |m| && m[k] == t[a].cpus;
    assert P.Within(doms, m[k]);
    var x :| x in t[i].cpus;
    forall d, e | 0 <= d < |doms| && 0 <= e < |doms| && t[i].cpus <= doms[d] && t[i].cpus <= doms[e] ensures d == e {
      assert x in doms[d] * doms[e] && x in doms[e] * doms[d];
    }
  }

  /** Every balanced cpuset below the root that has CPUs, with its mask */
  ghost function AllBalanced(t: seq<Cs>): map<nat, set<Cpu>> {
    map i: nat | 0 < i < |t| && IsOnline(t[i]) && SchedLoadBalance in t[i].flags && t[i].cpus != {} :: t[i].cpus
  }

  lemma BalancedInside(t: seq<Cs>, c: set<Cpu>)
    requires WellFormed(t) && Nested(t) && SchedLoadBalance !in t[0].flags && c in AllBalanced(t).Values
    ensures c != {} && exists a :: a in BalancedMap(t).Values && c <= a
  {
    var i :| i in AllBalanced(t) && AllBalanced(t)[i] == c;
    var a := SelectedAbove(t, i);
    assert a in BalancedMap(t) && BalancedMap(t)[a] == t[a].cpus;
  }

  lemma CollectedBalanced(t: seq<Cs>, c: set<Cpu>)
    requires WellFormed(t) && SchedLoadBalance !in t[0].flags && c in BalancedMap(t).Values
    ensures c in AllBalanced(t).Values
  {
    hide Reached;
    var i :| i in BalancedMap(t) && BalancedMap(t)[i] == c;
    assert i in AllBalanced(t) && AllBalanced(t)[i] == c;
  }

  /** Collecting the topmost balanced cpusets is enough: below an unbalanced root the domains are right for the
      walk's masks exactly when they are right for the masks of all balanced cpusets. */
  lemma TopmostExactly(s: Sys, doms: seq<set<Cpu>>)
    requires Inv(s) && SchedLoadBalance !in s.sets[0].flags
    ensures Current(doms, s.sets) <==> RightFor(doms, AllBalanced(s.sets).Values)
  {
    hide RightFor, BalancedMap, AllBalanced, Nested, SiblingsDisjoint, MasksLive;
    var some, all := BalancedMap(s.sets).Values, AllBalanced(s.sets).Values;
    forall c | c in all ensures c != {} && exists a :: a in some && c <= a { BalancedInside(s.sets, c); }
    forall c | c in some ensures c in all { CollectedBalanced(s.sets, c); }
    assert some + all == all;
    ManyInside(doms, some, all);
  }

  /** Which cpusets the walk collects: the balanced ones that have only unbalanced cpusets with CPUs between
      them and the root. */
  lemma WalkExactly(t: seq<Cs>, i: nat)
    requires WellFormed(t) && SchedLoadBalance !in t[0].flags && 0 < i < |t| && IsOnline(t[i])
    ensures Collected(t, i) <==>
      && SchedLoadBalance in t[i].flags
      && forall j: nat :: 0 < j < i && Above(t, i, j) ==> SchedLoadBalance !in t[j].flags && t[j].cpus != {}
  {
    ReachedExactly(t, i);
  }

  lemma {:induction false} ReachedExactly(t: seq<Cs>, i: nat)
    requires WellFormed(t) && i < |t| && IsOnline(t[i])
    ensures Reached(t, i) <==>
      forall j: nat :: 0 < j < i && Above(t, i, j) ==> SchedLoadBalance !in t[j].flags && t[j].cpus != {}
    decreases i
  {
    if i > 0 {
      var p := t[i].parent;
      ReachedExactly(t, p);
      assert Above(t, p, p) && Above(t, i, p);
      forall j: nat | j < i ensures Above(t, i, j) <==> Above(t, p, j) { }
    }
  }

  /** With a balanced root there is one domain, the active CPUs. */
  lemma BalancedRootExactly(s: Sys, doms: seq<set<Cpu>>)
    requires Inv(s) && SchedLoadBalance in s.sets[0].flags
    ensures Current(doms, s.sets) <==> RightFor(doms, {s.active})
  {
    var m := BalancedMap(s.sets);
    assert m.Keys == {0} && m[0] == s.active;
    assert m == map[0 := s.active];
  }

  /** Only active CPUs reach the scheduler exactly when no collected mask is stale: since the A1000 rule
      keeps stale masks, the care rebuild_sched_domains_locked() takes is not enough by itself. */
  lemma DomainsActiveExactly(s: Sys, doms: seq<set<Cpu>>)
    requires Inv(s) && Current(doms, s.sets)
    ensures P.Union(doms) <= s.active <==> forall i :: 0 <= i < |s.sets| && Collected(s.sets, i) ==> s.sets[i].cpus <= s.active
  {
    var t := s.sets;
    var m, where :| P.Domains(doms, m, where) && P.NonEmpty(m) == BalancedMap(t).Values;
    P.DomainsUnion(doms, m, where);
    forall i: nat | i < |t| && Collected(t, i) ensures t[i].cpus <= P.Union(m) {
      if t[i].cpus != {} {
        assert BalancedMap(t)[i] in P.NonEmpty(m);
        var k :| 0 <= k < |m| && m[k] == t[i].cpus;
      }
    }
    forall x | x in P.Union(m) ensures exists i :: 0 <= i < |t| && Collected(t, i) && x in t[i].cpus {
      var k :| 0 <= k < |m| && x in m[k];
      assert m[k] in P.NonEmpty(m);
      var i :| i in BalancedMap(t) && BalancedMap(t)[i] == m[k];
      assert x in t[i].cpus;
    }
  }

  // ---------------------------------------------------------------- when a rebuild can be left out

  /** The trees agree on everything the walk looks at. */
  ghost predicate SameSeen(t: seq<Cs>, u: seq<Cs>) {
    |t| == |u| && forall k :: 0 <= k < |t| ==> u[k].parent == t[k].parent && u[k].flags == t[k].flags && u[k].cpus == t[k].cpus
  }

  lemma {:induction false} SameWalk(t: seq<Cs>, u: seq<Cs>, i: nat)
    requires WellFormed(t) && WellFormed(u) && SameSeen(t, u) && i < |t|
    ensures Reached(u, i) == Reached(t, i)
  {
    if i != 0 { SameWalk(t, u, t[i].parent); }
  }

  lemma SameBalanced(t: seq<Cs>, u: seq<Cs>)
    requires WellFormed(t) && WellFormed(u) && SameSeen(t, u)
    ensures BalancedMap(u) == BalancedMap(t)
  {
    forall i: nat | i < |t| ensures Reached(u, i) == Reached(t, i) { SameWalk(t, u, i); }
  }

  /** `u` is `t` with `cur` changed in a way that the code does not answer with a rebuild. */
  ghost predicate QuietChange(t: seq<Cs>, u: seq<Cs>, cur: nat) {
    && 0 < cur < |t| == |u| && WellFormed(t) && WellFormed(u) && Nested(t) && Nested(u)
    && (forall k :: 0 <= k < |t| && k != cur ==> u[k] == t[k])
    && u[cur].parent == t[cur].parent && IsOnline(t[cur]) && IsOnline(u[cur])
    && ((SchedLoadBalance !in t[cur].flags && SchedLoadBalance !in u[cur].flags)
        || (t[cur].cpus == {} && u[cur].cpus == {})
        || (t[cur].cpus == u[cur].cpus && (SchedLoadBalance in t[cur].flags <==> SchedLoadBalance in u[cur].flags)))
  }

  /** Where such a change lets the walk in or keeps it out, there are no CPUs to be found. */
  lemma {:induction false} QuietWalk(t: seq<Cs>, u: seq<Cs>, cur: nat, i: nat)
    requires QuietChange(t, u, cur) && i < |t| && IsOnline(t[i])
    ensures Reached(u, i) == Reached(t, i) || (t[i].cpus == {} && u[i].cpus == {})
  {
    if i != 0 {
      var p := t[i].parent;
      QuietWalk(t, u, cur, p);
    }
  }

  lemma QuietBalanced(t: seq<Cs>, u: seq<Cs>, cur: nat)
    requires QuietChange(t, u, cur)
    ensures BalancedMap(u) == BalancedMap(t)
  {
    forall i: nat | i < |t| && (t[i].cpus != {} || u[i].cpus != {})
      ensures Collected(u, i) == Collected(t, i) && (Collected(t, i) ==> u[i].cpus == t[i].cpus)
    {
      if IsOnline(t[i]) { QuietWalk(t, u, cur, i); }
    }
  }

  lemma {:induction false} GoneWalk(t: seq<Cs>, u: seq<Cs>, cur: nat, i: nat)
    requires Gone(t, u, cur) && WellFormed(u) && i < |t| && IsOnline(u[i])
    ensures Reached(u, i) == Reached(t, i)
  {
    if i != 0 { GoneWalk(t, u, cur, t[i].parent); }
  }

  /** A childless cpuset that leaves takes its own mask along and nothing else. */
  lemma GoneBalanced(t: seq<Cs>, u: seq<Cs>, cur: nat)
    requires Gone(t, u, cur) && WellFormed(u) && u[0] == t[0]
    ensures BalancedMap(u) == BalancedMap(t) - {cur}
  {
    forall i: nat | i < |t| && i != cur ensures Collected(u, i) == Collected(t, i) {
      if IsOnline(u[i]) { GoneWalk(t, u, cur, i); }
    }
  }

  /** `u` is `t` with one more cpuset at the end. */
  ghost predicate Extended(t: seq<Cs>, u: seq<Cs>) {
    WellFormed(t) && WellFormed(u) && |u| == |t| + 1 && (forall i :: 0 <= i < |t| ==> u[i] == t[i])
  }

  lemma {:induction false} NewbornWalk(t: seq<Cs>, u: seq<Cs>, i: nat)
    requires Extended(t, u) && i < |t|
    ensures Reached(u, i) == Reached(t, i)
  {
    if i != 0 { NewbornWalk(t, u, t[i].parent); }
  }

  lemma NewbornCollected(t: seq<Cs>, u: seq<Cs>, i: nat)
    requires Extended(t, u) && i < |u|
    ensures i < |t| ==> Collected(u, i) == Collected(t, i)
    ensures i == |t| ==> (Collected(u, i) <==>
      && SchedLoadBalance !in t[0].flags && IsOnline(u[i]) && SchedLoadBalance in u[i].flags
      && Reached(t, u[i].parent) && Descends(t, u[i].parent))
  {
    if i < |t| { NewbornWalk(t, u, i); } else { NewbornWalk(t, u, u[i].parent); }
  }

  /** A new balanced cpuset counts when the walk goes on below its parent. */
  lemma NewbornBalanced(t: seq<Cs>, u: seq<Cs>)
    requires Extended(t, u) && IsOnline(u[|t|]) && SchedLoadBalance in u[|t|].flags
    ensures var c := u[|t|];
      BalancedMap(u) ==
        if SchedLoadBalance !in t[0].flags && c.cpus != {} && Reached(t, c.parent) && Descends(t, c.parent)
        then BalancedMap(t)[|t| := c.cpus] else BalancedMap(t)
  {
    NewbornCollected(t, u, |t|);
    forall i: nat | i < |t| ensures i in BalancedMap(u) <==> i in BalancedMap(t) { NewbornCollected(t, u, i); }
    OneMoreKey(BalancedMap(t), BalancedMap(u), |t|);
  }

  lemma OneMoreKey<V>(m: map<nat, V>, m': map<nat, V>, n: nat)
    requires n !in m && (forall i: nat :: i != n ==> (i in m' <==> i in m))
    requires forall i: nat :: i in m ==> m'[i] == m[i]
    ensures m' == if n in m' then m[n := m'[n]] else m
  {
  }

  // ---------------------------------------------------------------- which operations rebuild, and which should

  /** The operations at whose end the kernel calls rebuild_sched_domains. */
  ghost predicate Rebuilds(s: Sys, op: Op)
    requires WellFormed(s.sets) && Enabled(s, op)
  {
    match op
    case OpWriteCpus(cur, w) =>
      var r := WriteCpus(s, cur, w);
      r.0 == Ok && r.1.sets[cur].cpus != s.sets[cur].cpus && SchedLoadBalance in s.sets[cur].flags
    case OpWriteFlag(cur, f, on) =>
      var r := WriteFlag(s, cur, f, on);
      && r.0 == Ok && s.sets[cur].cpus != {}
      && (SchedLoadBalance in r.1.sets[cur].flags) != (SchedLoadBalance in s.sets[cur].flags)
    case OpRemove(cur) =>
      && SchedLoadBalance in s.sets[cur].flags && s.sets[cur].cpus != {}
      && UpdateFlag(s, cur, SchedLoadBalance, false).0 == Ok
    case OpHotplug(cpus, _, _) => cpus != s.sets[0].cpus
    case _ => false
  }

  /** Writing the mask or the flag that is there changes nothing and rebuilds nothing. */
  lemma RewriteQuiet(s: Sys, cur: nat, w: MaskWrite, f: Flag)
    requires Inv(s) && cur < |s.sets| && f != Online
    requires w == if s.sets[cur].cpus == {} then Blank else Listed(s.sets[cur].cpus)
    ensures Step(s, OpWriteCpus(cur, w)) == s && !Rebuilds(s, OpWriteCpus(cur, w))
    ensures var op := OpWriteFlag(cur, f, f in s.sets[cur].flags); Step(s, op) == s && !Rebuilds(s, op)
  {
    hide Validate, Nested, SiblingsDisjoint, MasksLive;
    var c := s.sets[cur];
    assert WithFlag(c, f, f in c.flags) == c && c.(cpus := c.cpus) == c && s.sets[cur := c] == s.sets;
  }

  /** The operations that change what the domains should be without a rebuild: cloning CPUs into a new
      balanced cpuset where the walk arrives, and removing a balanced child of the root whose mask went
      stale, because validate_change then refuses to switch its balancing off. */
  ghost predicate Missed(s: Sys, op: Op)
    requires WellFormed(s.sets) && Enabled(s, op)
  {
    && SchedLoadBalance !in s.sets[0].flags
    && match op
       case OpCreate(par, clone) =>
         && clone && !AnyExclusiveChild(s.sets, par) && s.sets[par].cpus != {}
         && Reached(s.sets, par) && Descends(s.sets, par)
       case OpRemove(cur) =>
         && SchedLoadBalance in s.sets[cur].flags && s.sets[cur].cpus != {}
         && !(s.sets[cur].cpus <= s.sets[s.sets[cur].parent].cpus)
       case _ => false
  }

  /** cpuset_css_offline can switch balancing off exactly when the mask lies within the parent's. */
  lemma RemovalSwitchesOff(s: Sys, cur: nat)
    requires Inv(s) && Removable(s, cur)
    ensures UpdateFlag(s, cur, SchedLoadBalance, false).0 == Ok <==> s.sets[cur].cpus <= s.sets[s.sets[cur].parent].cpus
    ensures !(s.sets[cur].cpus <= s.sets[s.sets[cur].parent].cpus) ==> s.sets[cur].parent == 0
  {
    var t, trial := s.sets, WithFlag(s.sets[cur], SchedLoadBalance, false);
    var par := t[cur].parent;
    forall c: nat | IsChild(t, c, par) && c != cur ensures !Conflict(trial, t[c]) {
      assert !Conflict(t[cur], t[c]);
    }
    assert IsSubset(trial, t[par]) <==> t[cur].cpus <= t[par].cpus;
  }

  lemma QuietWrite(s: Sys, cur: nat, trial: Cs)
    requires Inv(s) && Accepted(s, cur, trial)
    requires cur == 0 ==> (SchedLoadBalance in trial.flags <==> SchedLoadBalance in s.sets[0].flags)
    requires cur != 0 ==> QuietChange(s.sets, Put(s, cur, trial).sets, cur)
    ensures BalancedMap(Put(s, cur, trial).sets) == BalancedMap(s.sets)
  {
    var t, u := s.sets, Put(s, cur, trial).sets;
    if cur != 0 {
      QuietBalanced(t, u, cur);
    } else {
      RootBalanced(t, u);
    }
  }

  lemma RootBalanced(t: seq<Cs>, u: seq<Cs>)
    requires WellFormed(t) && WellFormed(u) && |u| == |t| && (forall k :: 0 < k < |t| ==> u[k] == t[k])
    requires u[0].cpus == t[0].cpus && (SchedLoadBalance in u[0].flags <==> SchedLoadBalance in t[0].flags)
    ensures BalancedMap(u) == BalancedMap(t)
  {
    forall i: nat | i < |t| ensures Collected(u, i) == Collected(t, i) { RootWalk(t, u, i); }
  }

  lemma {:induction false} RootWalk(t: seq<Cs>, u: seq<Cs>, i: nat)
    requires WellFormed(t) && WellFormed(u) && |u| == |t| && i < |t|
    requires forall k :: 0 < k < |t| ==> u[k] == t[k]
    ensures Reached(u, i) == Reached(t, i)
  {
    if i != 0 { RootWalk(t, u, t[i].parent); }
  }

  /** A write that fails, or one that is accepted and leaves what the walk finds in `cur` alone */
  ghost predicate QuietWritten(s: Sys, cur: nat, trial: Cs, s': Sys)
    requires cur < |s.sets|
  {
    var c := s.sets[cur];
    || s' == s
    || (&& Accepted(s, cur, trial) && s' == Put(s, cur, trial)
        && (cur == 0 ==> (SchedLoadBalance in trial.flags <==> SchedLoadBalance in c.flags))
        && (|| (SchedLoadBalance !in c.flags && SchedLoadBalance !in trial.flags)
            || (c.cpus == {} && trial.cpus == {})
            || (c.cpus == trial.cpus && (SchedLoadBalance in c.flags <==> SchedLoadBalance in trial.flags))))
  }

  lemma QuietOutcome(s: Sys, cur: nat, trial: Cs, s': Sys)
    requires Inv(s) && cur < |s.sets| && QuietWritten(s, cur, trial, s')
    ensures WellFormed(s'.sets) && BalancedMap(s'.sets) == BalancedMap(s.sets)
  {
    if s' != s {
      AcceptedNested(s, cur, trial);
      QuietWrite(s, cur, trial);
    }
  }

  lemma QuietWriteCpus(s: Sys, cur: nat, w: MaskWrite)
    requires Inv(s) && cur < |s.sets| && !Rebuilds(s, OpWriteCpus(cur, w))
    ensures WellFormed(WriteCpus(s, cur, w).1.sets) && BalancedMap(WriteCpus(s, cur, w).1.sets) == BalancedMap(s.sets)
  {
    var trial := s.sets[cur].(cpus := if w.Listed? then w.mask else {});
    QuietOutcome(s, cur, trial, WriteCpus(s, cur, w).1);
  }

  lemma QuietWriteMems(s: Sys, cur: nat, w: MaskWrite)
    requires Inv(s) && cur < |s.sets|
    ensures WellFormed(WriteMems(s, cur, w).1.sets) && BalancedMap(WriteMems(s, cur, w).1.sets) == BalancedMap(s.sets)
  {
    var trial := s.sets[cur].(mems := if w.Listed? then w.mask else {});
    QuietOutcome(s, cur, trial, WriteMems(s, cur, w).1);
  }

  lemma QuietWriteFlag(s: Sys, cur: nat, f: Flag, on: bool)
    requires Inv(s) && Enabled(s, OpWriteFlag(cur, f, on)) && !Rebuilds(s, OpWriteFlag(cur, f, on))
    ensures WellFormed(WriteFlag(s, cur, f, on).1.sets)
    ensures BalancedMap(WriteFlag(s, cur, f, on).1.sets) == BalancedMap(s.sets)
  {
    QuietOutcome(s, cur, WithFlag(s.sets[cur], f, on), WriteFlag(s, cur, f, on).1);
  }

  lemma QuietCreate(s: Sys, par: nat, clone: bool)
    requires Inv(s) && par < |s.sets| && IsOnline(s.sets[par])
    ensures WellFormed(Create(s, par, clone).sets)
    ensures BalancedMap(Create(s, par, clone).sets) == BalancedMap(s.sets) <==> !Missed(s, OpCreate(par, clone))
  {
    CreateKeepsRules(s, par, clone);
    NewbornBalanced(s.sets, Create(s, par, clone).sets);
    assert |s.sets| !in BalancedMap(s.sets);
  }

  lemma QuietGone(s: Sys, cur: nat)
    requires Inv(s) && Removable(s, cur)
    ensures var u := Put(s, cur, WithFlag(s.sets[cur], Online, false)).sets;
      WellFormed(u) && BalancedMap(u) == BalancedMap(s.sets) - {cur}
  {
    var u := Put(s, cur, WithFlag(s.sets[cur], Online, false)).sets;
    GoOffline(s, cur);
    forall i | 0 < i < |s.sets| && IsOnline(s.sets[i]) ensures s.sets[i].parent != cur {
      assert !IsChild(s.sets, i, cur);
    }
    GoneBalanced(s.sets, u, cur);
  }

  /** cpuset_css_offline in two steps: the flag, if it can be switched off, and then the cpuset. */
  ghost function SwitchedOff(s: Sys, cur: nat): Sys
    requires cur < |s.sets|
  {
    if SchedLoadBalance in s.sets[cur].flags then UpdateFlag(s, cur, SchedLoadBalance, false).1 else s
  }

  lemma SwitchedOffRules(s: Sys, cur: nat)
    requires Inv(s) && Removable(s, cur)
    ensures Inv(SwitchedOff(s, cur)) && Removable(SwitchedOff(s, cur), cur)
  {
    if SchedLoadBalance in s.sets[cur].flags { UpdateFlagKeepsRules(s, cur, SchedLoadBalance, false); }
    var s1 := SwitchedOff(s, cur);
    forall c: nat ensures !IsChild(s1.sets, c, cur) { assert !IsChild(s.sets, c, cur); }
  }

  lemma RemovedBalanced(s: Sys, cur: nat)
    requires Inv(s) && Removable(s, cur)
    ensures WellFormed(SwitchedOff(s, cur).sets) && WellFormed(Remove(s, cur).sets)
    ensures BalancedMap(Remove(s, cur).sets) == BalancedMap(SwitchedOff(s, cur).sets) - {cur}
  {
    SwitchedOffRules(s, cur);
    QuietGone(SwitchedOff(s, cur), cur);
  }

  lemma SwitchQuiet(s: Sys, cur: nat)
    requires Inv(s) && Removable(s, cur) && !Rebuilds(s, OpRemove(cur))
    ensures WellFormed(SwitchedOff(s, cur).sets) && BalancedMap(SwitchedOff(s, cur).sets) == BalancedMap(s.sets)
  {
    SwitchedOffRules(s, cur);
    if SwitchedOff(s, cur) != s {
      QuietBalanced(s.sets, SwitchedOff(s, cur).sets, cur);
    }
  }

  lemma QuietRemove(s: Sys, cur: nat)
    requires Inv(s) && Removable(s, cur) && !Rebuilds(s, OpRemove(cur))
    ensures WellFormed(Remove(s, cur).sets)
    ensures BalancedMap(Remove(s, cur).sets) == BalancedMap(s.sets) <==> !Missed(s, OpRemove(cur))
  {
    RemovedBalanced(s, cur);
    SwitchQuiet(s, cur);
    assert cur in BalancedMap(s.sets) <==> Missed(s, OpRemove(cur)) by {
      RemovalSwitchesOff(s, cur);
      assert Reached(s.sets, 0);
    }
  }

  lemma QuietHotplug(s: Sys, cpus: set<Cpu>, mems: set<MemNode>, stuck: set<Task>)
    requires Inv(s) && cpus == s.sets[0].cpus && mems != {}
    ensures WellFormed(Hotplug(s, cpus, mems, stuck).sets)
    ensures BalancedMap(Hotplug(s, cpus, mems, stuck).sets) == BalancedMap(s.sets)
  {
    HotplugKeepsRules(s, cpus, mems, stuck);
    var t, u := s.sets, Hotplug(s, cpus, mems, stuck).sets;
    forall i | 0 <= i < |t| ensures u[i].parent == t[i].parent && u[i].flags == t[i].flags && u[i].cpus == t[i].cpus {
      PropagatedMask(t[i], cpus, mems);
    }
    SameBalanced(t, u);
  }

  lemma AttachSeen(s: Sys, op: Op)
    requires Inv(s) && Enabled(s, op) && (op.OpBeginAttach? || op.OpFinishAttach? || op.OpCancelAttach?)
    ensures SameSeen(s.sets, Step(s, op).sets)
  {
    if op.OpFinishAttach? { FinishAttachShape(s, op.k, op.cur, op.stuck); }
  }

  lemma QuietAttach(s: Sys, op: Op)
    requires Inv(s) && Enabled(s, op) && (op.OpBeginAttach? || op.OpFinishAttach? || op.OpCancelAttach?)
    ensures WellFormed(Step(s, op).sets) && BalancedMap(Step(s, op).sets) == BalancedMap(s.sets)
  {
    AttachSeen(s, op);
    assert WellFormed(Step(s, op).sets) by { StepKeepsRules(s, op); }
    SameBalanced(s.sets, Step(s, op).sets);
  }

  /** An operation that does not rebuild leaves the collected masks alone, except exactly in the two cases
      of Missed. */
  lemma QuietExactly(s: Sys, op: Op)
    requires Inv(s) && Enabled(s, op) && !Rebuilds(s, op)
    ensures WellFormed(Step(s, op).sets)
    ensures BalancedMap(Step(s, op).sets) == BalancedMap(s.sets) <==> !Missed(s, op)
  {
    match op
    case OpCreate(par, clone) => QuietCreate(s, par, clone);
    case OpRemove(cur) => QuietRemove(s, cur);
    case OpWriteCpus(cur, w) => QuietWriteCpus(s, cur, w);
    case OpWriteMems(cur, w) => QuietWriteMems(s, cur, w);
    case OpWriteFlag(cur, f, on) => QuietWriteFlag(s, cur, f, on);
    case OpHotplug(cpus, mems, stuck) => QuietHotplug(s, cpus, mems, stuck);
    case _ => QuietAttach(s, op);
  }

  /** After the rebuild that precedes it, taking a cpuset out of the hierarchy changes no collected mask. */
  lemma RebuiltRemove(s: Sys, cur: nat)
    requires Inv(s) && Removable(s, cur) && Rebuilds(s, OpRemove(cur))
    ensures WellFormed(Remove(s, cur).sets) && WellFormed(UpdateFlag(s, cur, SchedLoadBalance, false).1.sets)
    ensures BalancedMap(Remove(s, cur).sets) == BalancedMap(UpdateFlag(s, cur, SchedLoadBalance, false).1.sets)
  {
    RemovedBalanced(s, cur);
    assert SwitchedOff(s, cur) == UpdateFlag(s, cur, SchedLoadBalance, false).1;
    assert cur !in BalancedMap(SwitchedOff(s, cur).sets);
  }

  /** What an operation may leave as the scheduler's domains: the old ones if it does not rebuild, and
      otherwise those of the tree it has when it rebuilds. */
  ghost predicate DomainsAfter(s: Sys, op: Op, doms: seq<set<Cpu>>, doms': seq<set<Cpu>>)
    requires WellFormed(s.sets) && HomesOnline(s) && Enabled(s, op)
  {
    if !Rebuilds(s, op) then doms' == doms
    else
      var t := if op.OpRemove? then UpdateFlag(s, op.cur, SchedLoadBalance, false).1.sets else Step(s, op).sets;
      WellFormed(t) && Current(doms', t)
  }

  // ---------------------------------------------------------------- domains after a hotplug

  /** Below the root a hotplug leaves a mask whole or empties it. */
  lemma HotplugMask(s: Sys, cpus: set<Cpu>, mems: set<MemNode>, stuck: set<Task>, i: nat)
    requires Inv(s) && cpus != {} && mems != {} && 0 < i < |s.sets| && IsOnline(s.sets[i])
    ensures var u := Hotplug(s, cpus, mems, stuck).sets;
      && u[i].cpus == (if s.sets[i].cpus * cpus == {} then {} else s.sets[i].cpus)
      && u[i].parent == s.sets[i].parent && u[i].flags == s.sets[i].flags
  {
    var c := s.sets[i];
    PropagatedMask(c, cpus, mems);
    DifferenceEmpty(s.active, cpus);
    DisjointIff(c.cpus, s.active);
    DisjointIff(c.cpus, cpus);
  }

  /** Where a mask is left, so is every mask above it, and the walk arrives as before. */
  lemma {:induction false} HotplugWalk(s: Sys, cpus: set<Cpu>, mems: set<MemNode>, stuck: set<Task>, i: nat)
    requires Inv(s) && cpus != {} && mems != {} && 0 < i < |s.sets| && IsOnline(s.sets[i])
    requires s.sets[i].cpus * cpus != {} && WellFormed(Hotplug(s, cpus, mems, stuck).sets)
    ensures Reached(Hotplug(s, cpus, mems, stuck).sets, i) == Reached(s.sets, i)
  {
    hide Propagated;
    var t, p := s.sets, s.sets[i].parent;
    HotplugMask(s, cpus, mems, stuck, i);
    if p != 0 {
      DisjointIff(t[i].cpus, cpus);
      DisjointIff(t[p].cpus, cpus);
      HotplugMask(s, cpus, mems, stuck, p);
      HotplugWalk(s, cpus, mems, stuck, p);
    }
  }

  /** A hotplug keeps inactive CPUs away from the scheduler exactly when the root is balanced, or every
      collected cpuset has only active CPUs left or none at all: what the A1000 rule keeps of a mask goes on
      into the domains. */
  lemma DomainsActiveAfterHotplug(s: Sys, cpus: set<Cpu>, mems: set<MemNode>, stuck: set<Task>, doms: seq<set<Cpu>>)
    requires Inv(s) && cpus != {} && mems != {} && WellFormed(Hotplug(s, cpus, mems, stuck).sets)
    requires Current(doms, Hotplug(s, cpus, mems, stuck).sets)
    ensures P.Union(doms) <= cpus <==>
      || SchedLoadBalance in s.sets[0].flags
      || forall i :: 0 < i < |s.sets| && Collected(s.sets, i) ==> s.sets[i].cpus <= cpus || s.sets[i].cpus * cpus == {}
  {
    hide Current, Propagated;
    var s', t := Hotplug(s, cpus, mems, stuck), s.sets;
    HotplugKeepsRules(s, cpus, mems, stuck);
    DomainsActiveExactly(s', doms);
    if SchedLoadBalance !in t[0].flags {
      forall i: nat | 0 < i < |t| && IsOnline(t[i]) && t[i].cpus * cpus != {}
        ensures s'.sets[i].cpus == t[i].cpus && Collected(s'.sets, i) == Collected(t, i)
      {
        HotplugMask(s, cpus, mems, stuck, i);
        HotplugWalk(s, cpus, mems, stuck, i);
      }
      forall i: nat | 0 < i < |t| && Collected(s'.sets, i) ensures s'.sets[i].cpus == {} || t[i].cpus * cpus != {} {
        assert IsOnline(t[i]) by { PropagatedFlags(s, cpus, mems, stuck, i); }
        HotplugMask(s, cpus, mems, stuck, i);
      }
    }
  }

  lemma PropagatedFlags(s: Sys, cpus: set<Cpu>, mems: set<MemNode>, stuck: set<Task>, i: nat)
    requires Inv(s) && i < |s.sets|
    ensures Hotplug(s, cpus, mems, stuck).sets[i].flags == s.sets[i].flags
  {
  }

  // ---------------------------------------------------------------- when a missed rebuild does no harm

  /** The masks that the walk collects besides that of `cur`, by number; empty for all other cpusets */
  ghost function Others(t: seq<Cs>, cur: nat): (m: seq<set<Cpu>>)
    requires WellFormed(t)
    ensures |m| == |t|
  {
    seq(|t|, i requires 0 <= i < |t| => if i != cur && Collected(t, i) then t[i].cpus else {})
  }

  lemma OthersMasks(t: seq<Cs>, cur: nat)
    requires WellFormed(t) && cur <= |t|
    ensures P.NonEmpty(Others(t, cur)) == (BalancedMap(t) - {cur}).Values
    ensures cur in BalancedMap(t) ==> BalancedMap(t).Values == P.NonEmpty(Others(t, cur)) + {t[cur].cpus}
  {
    var m, rest := Others(t, cur), BalancedMap(t) - {cur};
    forall c ensures c in P.NonEmpty(m) <==> c in rest.Values {
      if c in P.NonEmpty(m) {
        var i :| 0 <= i < |m| && m[i] == c && c != {};
        assert i in rest && rest[i] == c;
      }
      if c in rest.Values {
        var i :| i in rest && rest[i] == c;
        assert m[i] == c;
      }
    }
    if cur in BalancedMap(t) { OneKeyLess(BalancedMap(t), cur); }
  }

  lemma OneKeyLess<V>(m: map<nat, V>, n: nat)
    requires n in m
    ensures m.Values == (m - {n}).Values + {m[n]}
  {
    forall v ensures v in m.Values <==> v in (m - {n}).Values + {m[n]} {
      if v in m.Values {
        var k :| k in m && m[k] == v;
        if k != n { assert k in m - {n} && (m - {n})[k] == v; }
      }
      if v in (m - {n}).Values {
        var k :| k in m - {n} && (m - {n})[k] == v;
        assert k in m && m[k] == v;
      }
    }
  }

  lemma OneKeyAdded<V>(m: map<nat, V>, n: nat, v: V)
    requires n !in m
    ensures m[n := v].Values == m.Values + {v}
  {
    OneKeyLess(m[n := v], n);
    assert m[n := v] - {n} == m;
  }

  /** Why the domains can stay right although an operation of Missed changes the collected masks: the cloned
      mask lies inside a domain, or the other collected masks make up for the one that goes. */
  ghost predicate Harmless(s: Sys, op: Op, doms: seq<set<Cpu>>)
    requires WellFormed(s.sets) && Enabled(s, op)
  {
    match op
    case OpCreate(par, _) => P.Within(doms, s.sets[par].cpus)
    case OpRemove(cur) => Redundant(Others(s.sets, cur), s.sets[cur].cpus)
    case _ => true
  }

  lemma CreateExactly(s: Sys, par: nat, clone: bool, doms: seq<set<Cpu>>)
    requires Inv(s) && Enabled(s, OpCreate(par, clone)) && Current(doms, s.sets) && Missed(s, OpCreate(par, clone))
    ensures WellFormed(Create(s, par, clone).sets)
    ensures Current(doms, Create(s, par, clone).sets) <==> P.Within(doms, s.sets[par].cpus)
  {
    hide RightFor;
    var t, u, c := s.sets, Create(s, par, clone).sets, s.sets[par].cpus;
    assert WellFormed(u) && BalancedMap(u) == BalancedMap(t)[|t| := c] by {
      CreateKeepsRules(s, par, clone);
      NewbornBalanced(t, u);
    }
    OneKeyAdded(BalancedMap(t), |t|, c);
    GrownExactly(doms, BalancedMap(t).Values, c);
  }

  lemma RemoveExactly(s: Sys, cur: nat, doms: seq<set<Cpu>>)
    requires Inv(s) && Removable(s, cur) && Current(doms, s.sets) && Missed(s, OpRemove(cur))
    ensures WellFormed(Remove(s, cur).sets)
    ensures Current(doms, Remove(s, cur).sets) <==> Redundant(Others(s.sets, cur), s.sets[cur].cpus)
  {
    hide RightFor, Redundant;
    RemovedBalanced(s, cur);
    assert SwitchedOff(s, cur) == s && cur in BalancedMap(s.sets) by {
      RemovalSwitchesOff(s, cur);
      assert Reached(s.sets, 0);
    }
    OthersMasks(s.sets, cur);
    ShrunkExactly(doms, Others(s.sets, cur), s.sets[cur].cpus);
  }

  /** The scheduler's domains, right before an operation, are right after it exactly when it rebuilds them,
      changes no collected mask, or changes them in a way that does not matter. */
  lemma CurrentExactly(s: Sys, op: Op, doms: seq<set<Cpu>>, doms': seq<set<Cpu>>)
    requires Inv(s) && Enabled(s, op) && Current(doms, s.sets) && DomainsAfter(s, op, doms, doms')
    ensures WellFormed(Step(s, op).sets)
    ensures Current(doms', Step(s, op).sets) <==> !Missed(s, op) || Harmless(s, op, doms)
  {
    hide RightFor, Redundant;
    StepKeepsRules(s, op);
    if Missed(s, op) {
      NotRebuilt(s, op);
      match op
      case OpCreate(par, clone) => CreateExactly(s, par, clone, doms);
      case OpRemove(cur) => RemoveExactly(s, cur, doms);
    } else if Rebuilds(s, op) {
      if op.OpRemove? { RebuiltRemove(s, op.cur); }
    } else {
      QuietExactly(s, op);
    }
  }

  lemma NotRebuilt(s: Sys, op: Op)
    requires Inv(s) && Enabled(s, op) && Missed(s, op)
    ensures !Rebuilds(s, op)
  {
    if op.OpRemove? { RemovalSwitchesOff(s, op.cur); }
  }

  /** Nothing is collected, and there are no domains. */
  lemma NoDomains(t: seq<Cs>)
    requires WellFormed(t) && BalancedMap(t) == map[]
    ensures Current([], t)
  {
    var m: seq<set<Cpu>>, where: seq<nat> := [], [];
    assert P.Domains([], m, where) && P.NonEmpty(m) == {};
  }

  /** An unbalanced root with two CPUs and nothing below it */
  function BareRoot(): Sys {
    Sys([Cs(0, {Online, CpuExclusive, MemExclusive}, {0, 1}, {0}, 0)], map[], 1, {0, 1}, {0})
  }

  lemma BareRootRules()
    ensures Inv(BareRoot()) && Current([], BareRoot().sets)
  {
    assert OnlineSet(BareRoot().sets) == {0};
    NoDomains(BareRoot().sets);
  }

  /** Below an unbalanced root, cloning makes a balanced cpuset with CPUs, nothing rebuilds, and the scheduler
      goes on without a domain for it. */
  lemma MissedCloneExample() returns (s: Sys, doms: seq<set<Cpu>>)
    ensures Inv(s) && Enabled(s, OpCreate(0, true)) && Current(doms, s.sets) && !Rebuilds(s, OpCreate(0, true))
    ensures WellFormed(Create(s, 0, true).sets) && !Current(doms, Create(s, 0, true).sets)
  {
    hide Inv, Current, Create;
    s, doms := BareRoot(), [];
    BareRootRules();
    CreateExactly(s, 0, true, doms);
  }

  /** An unbalanced root with the active CPUs `a` and one balanced child with CPUs 0 and 1 */
  function OneChild(a: set<Cpu>): Sys {
    Sys([Cs(0, {Online, CpuExclusive, MemExclusive}, a, {0}, 0), Cs(0, {Online, SchedLoadBalance}, {0, 1}, {0}, 0)],
        map[], 2, a, {0})
  }

  lemma OneChildRules(a: set<Cpu>)
    requires 0 in a
    ensures Inv(OneChild(a)) && Current([{0, 1}], OneChild(a).sets)
  {
    var s := OneChild(a);
    assert OnlineSet(s.sets) == {0, 1};
    assert 0 in s.sets[1].cpus * s.active;
    OneDomain(s.sets);
  }

  /** One CPU of two goes down.  The rebuilt domains are right for the hierarchy and hold the inactive CPU. */
  lemma InactiveCpuExample() returns (s: Sys, doms: seq<set<Cpu>>)
    ensures Inv(s) && s.active == {0, 1} && WellFormed(Hotplug(s, {0}, {0}, {}).sets)
    ensures Current(doms, Hotplug(s, {0}, {0}, {}).sets) && 1 in P.Union(doms)
  {
    s, doms := OneChild({0, 1}), [{0, 1}];
    OneChildRules({0, 1});
    OneChildRules({0});
    assert s.sets[1].cpus * {0} == {0};
    assert Hotplug(s, {0}, {0}, {}).sets == OneChild({0}).sets;
    assert 1 in doms[0];
  }

  /** The same operation does no harm where a sibling already keeps those CPUs together. */
  lemma HarmlessCloneExample() returns (s: Sys, doms: seq<set<Cpu>>)
    ensures Inv(s) && Enabled(s, OpCreate(0, true)) && Current(doms, s.sets) && Missed(s, OpCreate(0, true))
    ensures WellFormed(Create(s, 0, true).sets) && Current(doms, Create(s, 0, true).sets)
  {
    hide Inv, Current, Create;
    s, doms := OneChild({0, 1}), [{0, 1}];
    OneChildRules({0, 1});
    CreateExactly(s, 0, true, doms);
    assert s.sets[0].cpus <= doms[0];
  }

  /** A single balanced child of an unbalanced root makes one domain. */
  lemma OneDomain(t: seq<Cs>)
    requires WellFormed(t) && |t| == 2 && SchedLoadBalance !in t[0].flags && IsOnline(t[1]) && SchedLoadBalance in t[1].flags
    requires t[1].cpus != {}
    ensures BalancedMap(t) == map[1 := t[1].cpus] && Current([t[1].cpus], t)
  {
    var c := t[1].cpus;
    assert t[1].parent == 0 && Reached(t, 0) && Reached(t, 1);
    var m, where := [c], [0 as nat];
    P.ConnectedSelf(m, 0);
    assert P.HasMember(where, 0) by { assert where[0] == 0; }
    assert forall x :: x in c ==> where[0] == 0 && x in m[0];
    assert P.Domains([c], m, where);
    assert m[0] in P.NonEmpty(m);
    OneKeyLess(BalancedMap(t), 1);
    assert BalancedMap(t) - {1} == map[];
  }

  /** The child of the root left stale by the A1000 rule leaves without a rebuild, and its domain stays
      behind. */
  lemma MissedRemovalExample() returns (s: Sys, doms: seq<set<Cpu>>)
    ensures Inv(s) && Enabled(s, OpRemove(1)) && Current(doms, s.sets) && !Rebuilds(s, OpRemove(1))
    ensures WellFormed(Remove(s, 1).sets) && !Current(doms, Remove(s, 1).sets)
  {
    hide Inv, Current, Remove;
    s, doms := OneChild({0}), [{0, 1}];
    OneChildRules({0});
    assert 1 in s.sets[1].cpus && 1 !in s.sets[0].cpus;
    assert Missed(s, OpRemove(1));
    NotRebuilt(s, OpRemove(1));
    RemoveExactly(s, 1, doms);
    assert forall i :: 0 <= i < 2 ==> Others(s.sets, 1)[i] == {};
  }
}
