/** CPU events as they reach the scheduler: each of them hands it one default domain at once, and the worker
    that follows, once for all of them, rebuilds the domains if it finds other CPUs than it knew. */
module CpusetEvents {
  import opened CpusetTree
  import opened CpusetRules
  import opened CpusetRuns
  import opened CpusetDomains
  import opened PartitionChange
  import P = Partition

  /** What cpuset_update_active_cpus gives the scheduler: a single domain of the active CPUs */
  function DefaultDomain(active: set<Cpu>): seq<set<Cpu>> { [active] }

  /** The scheduler's domains after CPU events that left `events[0]`, `events[1]`, ... active */
  function AfterEvents(doms: seq<set<Cpu>>, events: seq<set<Cpu>>): seq<set<Cpu>> {
    if events == [] then doms else DefaultDomain(events[|events| - 1])
  }

  /** CPU events and the worker they schedule, or with no events any other operation */
  datatype Turn = Turn(events: seq<set<Cpu>>, op: Op)

  /** The worker finds the CPUs active that the last event left so; without CPU events they are the same. */
  ghost predicate Possible(s: Sys, turn: Turn)
    requires WellFormed(s.sets)
  {
    && Enabled(s, turn.op)
    && if turn.events == [] then turn.op.OpHotplug? ==> turn.op.cpus == s.active
       else turn.op.OpHotplug? && turn.op.cpus == turn.events[|turn.events| - 1]
  }

  /** All collected masks, by number; empty for the other cpusets */
  ghost function Masks(t: seq<Cs>): (m: seq<set<Cpu>>)
    requires WellFormed(t)
    ensures |m| == |t|
  {
    Others(t, |t|)
  }

  /** Why the domains are right after a turn: without CPU events as CurrentExactly has it; after CPU events
      because other CPUs are active than before, or because the masks make up the default domain. */
  ghost predicate StaysRight(s: Sys, turn: Turn, doms: seq<set<Cpu>>)
    requires WellFormed(s.sets) && Possible(s, turn)
  {
    if turn.events == [] then !Missed(s, turn.op) || Harmless(s, turn.op, doms)
    else turn.op.cpus != s.active || OneGroup(Masks(s.sets), s.active)
  }

  /** The default domain is right exactly when the collected masks hold every active CPU and are all joined. */
  lemma DefaultExactly(s: Sys)
    requires Inv(s)
    ensures Current(DefaultDomain(s.active), s.sets) <==> OneGroup(Masks(s.sets), s.active)
  {
    hide RightFor, OneGroup;
    OthersMasks(s.sets, |s.sets|);
    assert BalancedMap(s.sets) - {|s.sets|} == BalancedMap(s.sets);
    OneDomainExactly(Masks(s.sets), s.active);
  }

  /** The worker does not repair what the events did if in the end the same CPUs are active as before. */
  lemma TurnExactly(s: Sys, turn: Turn, doms: seq<set<Cpu>>, doms': seq<set<Cpu>>)
    requires Inv(s) && Possible(s, turn) && (turn.events == [] ==> Current(doms, s.sets))
    requires DomainsAfter(s, turn.op, AfterEvents(doms, turn.events), doms')
    ensures WellFormed(Step(s, turn.op).sets)
    ensures Current(doms', Step(s, turn.op).sets) <==> StaysRight(s, turn, doms)
  {
    hide RightFor, OneGroup;
    StepKeepsRules(s, turn.op);
    if turn.events == [] {
      CurrentExactly(s, turn.op, doms, doms');
    } else if turn.op.cpus == s.active {
      QuietExactly(s, turn.op);
      DefaultExactly(s);
    }
  }

  /** With a balanced root the default domain is always the right one. */
  lemma BalancedRootUnharmed(s: Sys)
    requires Inv(s) && SchedLoadBalance in s.sets[0].flags
    ensures OneGroup(Masks(s.sets), s.active)
  {
    var m := Masks(s.sets);
    assert m[0] == s.active && forall i :: 0 < i < |m| ==> m[i] == {};
    P.ConnectedSelf(m, 0);
  }

  // ---------------------------------------------------------------- whole runs

  /** `doms[i]` is what the scheduler has before the i-th turn. */
  ghost predicate DomainTrace(s: Sys, turns: seq<Turn>, doms: seq<seq<set<Cpu>>>)
    requires Inv(s)
    decreases |turns|
  {
    && |doms| == |turns| + 1
    && (turns != [] ==>
      && Possible(s, turns[0]) && DomainsAfter(s, turns[0].op, AfterEvents(doms[0], turns[0].events), doms[1])
      && (StepKeepsRules(s, turns[0].op); DomainTrace(Step(s, turns[0].op), turns[1..], doms[1..])))
  }

  ghost predicate AlwaysRight(s: Sys, turns: seq<Turn>, doms: seq<seq<set<Cpu>>>)
    requires Inv(s) && DomainTrace(s, turns, doms)
    decreases |turns|
  {
    && Current(doms[0], s.sets)
    && (turns != [] ==> (StepKeepsRules(s, turns[0].op); AlwaysRight(Step(s, turns[0].op), turns[1..], doms[1..])))
  }

  ghost predicate NeverHarmed(s: Sys, turns: seq<Turn>, doms: seq<seq<set<Cpu>>>)
    requires Inv(s) && DomainTrace(s, turns, doms)
    decreases |turns|
  {
    turns == [] ||
    (&& StaysRight(s, turns[0], doms[0])
     && (StepKeepsRules(s, turns[0].op); NeverHarmed(Step(s, turns[0].op), turns[1..], doms[1..])))
  }

  /** Over every run the scheduler's domains are right after each turn exactly when each turn keeps them so. */
  lemma {:induction false} DomainsOverRuns(s: Sys, turns: seq<Turn>, doms: seq<seq<set<Cpu>>>)
    requires Inv(s) && DomainTrace(s, turns, doms) && Current(doms[0], s.sets)
    ensures AlwaysRight(s, turns, doms) <==> NeverHarmed(s, turns, doms)
    decreases |turns|
  {
    if turns != [] {
      var s' := Step(s, turns[0].op);
      StepKeepsRules(s, turns[0].op);
      TurnExactly(s, turns[0], doms[0], doms[1]);
      if Current(doms[1], s'.sets) { DomainsOverRuns(s', turns[1..], doms[1..]); }
    }
  }

  /** Below an unbalanced root with nothing collected, a CPU goes down and comes back before the worker runs:
      the scheduler keeps a domain that no cpuset asks for. */
  lemma CoalescedEventsExample() returns (s: Sys, turn: Turn, doms: seq<set<Cpu>>)
    ensures Inv(s) && Possible(s, turn) && turn.events == [{0}, {0, 1}] && Current(doms, s.sets)
    ensures var doms' := AfterEvents(doms, turn.events);
      DomainsAfter(s, turn.op, doms', doms') && WellFormed(Step(s, turn.op).sets) && !Current(doms', Step(s, turn.op).sets)
  {
    s, turn, doms := BareRoot(), Turn([{0}, {0, 1}], OpHotplug({0, 1}, {0}, {})), [];
    BareRootRules();
    var m := Masks(s.sets);
    assert 0 !in P.Union(m) by { assert m == [{}]; }
    assert 0 in s.active;
    TurnExactly(s, turn, doms, AfterEvents(doms, turn.events));
  }
}
