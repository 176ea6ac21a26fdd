/** The triple loop of generate_sched_domains() and the conversion of its labels into CPU masks, on the
    cpuset objects themselves. */
module SchedDomains {
  import opened Partition
  import Tree = CpusetTree

  /** struct cpuset; the parent never changes */
  class Cpuset {
    const parent: nat
    var flags: set<Tree.Flag>
    var cpus: set<Cpu>
    var mems: set<Tree.MemNode>
    var attaching: nat
    var pn: int  // partition number, scratch space of generate_sched_domains()

    constructor (parent: nat, flags: set<Tree.Flag>, cpus: set<Cpu>, mems: set<Tree.MemNode>)
      ensures View() == Tree.Cs(parent, flags, cpus, mems, 0)
    {
      this.parent, this.flags, this.cpus, this.mems := parent, flags, cpus, mems;
      attaching, pn := 0, 0;
    }

    function View(): Tree.Cs
      reads this
    {
      Tree.Cs(parent, flags, cpus, mems, attaching)
    }
  }

  predicate Distinct(csa: seq<Cpuset>) {
    forall i, j :: 0 <= i < j < |csa| ==> csa[i] != csa[j]
  }

  ghost predicate HasMasks(csa: seq<Cpuset>, m: seq<set<Cpu>>)
    reads csa`cpus
  {
    |m| == |csa| && forall i :: 0 <= i < |csa| ==> m[i] == csa[i].cpus
  }

  ghost predicate HasLabels(csa: seq<Cpuset>, l: seq<int>)
    reads csa`pn
  {
    |l| == |csa| && forall i :: 0 <= i < |csa| ==> l[i] == csa[i].pn
  }

  lemma InitialLabels(l: seq<int>)
    requires forall i :: 0 <= i < |l| ==> l[i] == i
    ensures |LabelSet(l)| == |l|
  {
    if l != [] {
      var k := l[..|l| - 1];
      InitialLabels(k);
      assert LabelSet(l) == LabelSet(k) + {|l| - 1} by {
        forall x | x in LabelSet(k) ensures x in LabelSet(l) { assert l[x] == x; }
        assert l[|l| - 1] in LabelSet(l);
      }
    }
  }

  /** The innermost loop: everything labelled `b` becomes `a`. */
  method Absorb(csa: seq<Cpuset>, a: int, b: int)
    requires Distinct(csa)
    modifies csa`pn
    ensures forall k :: 0 <= k < |csa| ==> csa[k].pn == if old(csa[k].pn) == b then a else old(csa[k].pn)
  {
    for k := 0 to |csa|
      invariant forall x :: 0 <= x < k ==> csa[x].pn == if old(csa[x].pn) == b then a else old(csa[x].pn)
      invariant forall x :: k <= x < |csa| ==> csa[x].pn == old(csa[x].pn)
    {
      if csa[k].pn == b {
        csa[k].pn := a;
      }
    }
  }

  /** The loops over i and j: the first overlapping pair that carries two different labels. */
  method FindOverlap(csa: seq<Cpuset>, ghost m: seq<set<Cpu>>, ghost l: seq<int>) returns (found: bool, i: nat, j: nat)
    requires HasMasks(csa, m) && HasLabels(csa, l)
    ensures found ==> i < |csa| && j < |csa| && l[i] != l[j] && Overlap(m, i, j)
    ensures !found ==> Settled(m, l)
  {
    found, i, j := false, 0, 0;
    while i < |csa|
      invariant i <= |csa|
      invariant forall x, y :: 0 <= x < i && 0 <= y < |csa| && Overlap(m, x, y) ==> l[x] == l[y]
    {
      var a, apn := csa[i], csa[i].pn;
      j := 0;
      while j < |csa|
        invariant j <= |csa|
        invariant forall y :: 0 <= y < j && Overlap(m, i, y) ==> l[i] == l[y]
      {
        if apn != csa[j].pn && a.cpus * csa[j].cpus != {} {
          found := true;
          return;
        }
        j := j + 1;
      }
      i := i + 1;
    }
  }

  /** What the restart loop keeps: labels stay sound, in range, and `ndoms` counts the distinct ones. */
  ghost predicate Progress(m: seq<set<Cpu>>, l: seq<int>, ndoms: int) {
    && Sound(m, l) && ndoms == |LabelSet(l)|
    && (forall k :: 0 <= k < |l| ==> 0 <= l[k] < |l|)
  }

  lemma MergeProgress(m: seq<set<Cpu>>, l: seq<int>, l': seq<int>, i: nat, j: nat, ndoms: int)
    requires Progress(m, l, ndoms) && i < |m| && j < |m| && l[i] != l[j] && Overlap(m, i, j)
    requires Merged(l, l', l[i], l[j])
    ensures Progress(m, l', ndoms - 1)
  {
    MergedSound(m, l, l', i, j);
    assert l[i] in LabelSet(l) && l[j] in LabelSet(l);
    MergedCount(l, l', l[i], l[j]);
  }

  lemma InitialProgress(m: seq<set<Cpu>>, l: seq<int>)
    requires |m| == |l| && forall i :: 0 <= i < |l| ==> l[i] == i
    ensures Progress(m, l, |l|)
  {
    InitialLabels(l);
    forall i | 0 <= i < |m| ensures Connected(m, i, i) { ConnectedSelf(m, i); }
  }

  method Number(csa: seq<Cpuset>, ghost m: seq<set<Cpu>>) returns (ghost l: seq<int>)
    requires Distinct(csa) && |m| == |csa|
    modifies csa`pn
    ensures HasLabels(csa, l) && Progress(m, l, |csa|)
  {
    for i := 0 to |csa|
      invariant forall x :: 0 <= x < i ==> csa[x].pn == x
    {
      csa[i].pn := i;
    }
    l := seq(|csa|, i => i);
    InitialProgress(m, l);
  }

  method Merge(csa: seq<Cpuset>, i: nat, j: nat, ghost m: seq<set<Cpu>>, ghost l: seq<int>, ghost ndoms: int)
    returns (ghost l': seq<int>)
    requires Distinct(csa) && |m| == |csa| && HasLabels(csa, l) && Progress(m, l, ndoms)
    requires i < |csa| && j < |csa| && l[i] != l[j] && Overlap(m, i, j)
    modifies csa`pn
    ensures HasLabels(csa, l') && Progress(m, l', ndoms - 1)
  {
    Absorb(csa, csa[i].pn, csa[j].pn);
    l' := seq(|csa|, k requires 0 <= k < |csa| => if l[k] == l[j] then l[i] else l[k]);
    MergeProgress(m, l, l', i, j, ndoms);
  }

  /** From the loop that numbers the cpusets to the end of the `restart` loop. */
  method FindPartition(csa: seq<Cpuset>, ghost m: seq<set<Cpu>>) returns (ndoms: nat, ghost l: seq<int>)
    requires Distinct(csa) && HasMasks(csa, m)
    modifies csa`pn
    ensures HasLabels(csa, l) && Progress(m, l, ndoms) && Settled(m, l)
  {
    l := Number(csa, m);
    ndoms := |csa|;
    var restart: bool, i: nat, j: nat := FindOverlap(csa, m, l);
    while restart
      invariant HasLabels(csa, l) && Progress(m, l, ndoms)
      invariant restart ==> i < |csa| && j < |csa| && l[i] != l[j] && Overlap(m, i, j)
      invariant !restart ==> Settled(m, l)
      decreases ndoms, restart
    {
      l := Merge(csa, i, j, m, l, ndoms);
      assert Progress(m, l, ndoms - 1);
      ndoms := ndoms - 1;
      restart, i, j := FindOverlap(csa, m, l);
    }
  }

  // ---------------------------------------------------------------- labels into masks

  /** `dp` is the union of the masks labelled `x`. */
  ghost predicate UnionOf(m: seq<set<Cpu>>, l: seq<int>, x: int, dp: set<Cpu>)
    requires |m| == |l|
  {
    && (forall k :: 0 <= k < |m| && l[k] == x ==> m[k] <= dp)
    && (forall c :: c in dp ==> exists k :: 0 <= k < |m| && l[k] == x && c in m[k])
  }

  /** Slot `d` of `doms` stands for the label `order[d]`; the cpusets with those labels are marked -1,
      all others still carry their label. */
  ghost predicate Filled(m: seq<set<Cpu>>, l: seq<int>, pns: seq<int>, order: seq<int>, doms: seq<set<Cpu>>) {
    && |m| == |l| == |pns| && |order| <= |doms|
    && (forall k :: 0 <= k < |l| ==> pns[k] == if l[k] in order then -1 else l[k])
    && (forall d :: 0 <= d < |order| ==> order[d] in l && UnionOf(m, l, order[d], doms[d]))
    && (forall d, e :: 0 <= d < e < |order| ==> order[d] != order[e])
  }

  ghost function SlotOf(order: seq<int>, x: int): (d: nat)
    requires x in order
    ensures d < |order| && order[d] == x
  {
    var d :| 0 <= d < |order| && order[d] == x; d
  }

  lemma DistinctWithin(order: seq<int>, s: set<int>)
    requires forall d :: 0 <= d < |order| ==> order[d] in s
    requires forall d, e :: 0 <= d < e < |order| ==> order[d] != order[e]
    ensures |order| <= |s|
    ensures |order| == |s| <==> forall x :: x in s ==> x in order
  {
    if order == [] {
      if forall x :: x in s ==> x in order { assert s == {}; }
    } else {
      var last := order[|order| - 1];
      DistinctWithin(order[..|order| - 1], s - {last});
      assert forall x :: x in order <==> x in order[..|order| - 1] || x == last;
    }
  }

  /** The loop over j for one slot: union the masks labelled `apn` into it and mark them done. */
  method FillSlot(csa: seq<Cpuset>, i: nat, apn: int, ghost m: seq<set<Cpu>>, ghost l: seq<int>) returns (dp: set<Cpu>)
    requires Distinct(csa) && i <= |csa| && apn >= 0 && HasMasks(csa, m) && HasLabels(csa, l)
    requires forall k :: 0 <= k < i ==> l[k] != apn
    modifies csa`pn
    ensures forall k :: 0 <= k < |csa| ==> csa[k].pn == if l[k] == apn then -1 else l[k]
    ensures UnionOf(m, l, apn, dp)
  {
    dp := {};
    for j := i to |csa|
      invariant forall k :: 0 <= k < j ==> csa[k].pn == if l[k] == apn then -1 else l[k]
      invariant forall k :: j <= k < |csa| ==> csa[k].pn == l[k]
      invariant forall k :: 0 <= k < j && l[k] == apn ==> m[k] <= dp
      invariant forall c :: c in dp ==> exists k :: 0 <= k < |csa| && l[k] == apn && c in m[k]
    {
      if csa[j].pn == apn {
        dp := dp + csa[j].cpus;
        csa[j].pn := -1;
      }
    }
  }

  lemma FilledStep(m: seq<set<Cpu>>, l: seq<int>, pns: seq<int>, order: seq<int>, doms: seq<set<Cpu>>,
                   pns': seq<int>, apn: int, dp: set<Cpu>)
    requires Filled(m, l, pns, order, doms) && |order| < |doms| && |pns'| == |pns|
    requires apn in l && apn !in order
    requires forall k :: 0 <= k < |pns| ==> pns'[k] == if pns[k] == apn then -1 else pns[k]
    requires UnionOf(m, l, apn, dp)
    ensures Filled(m, l, pns', order + [apn], doms[|order| := dp])
  {
    var order' := order + [apn];
    assert forall x :: x in order' <==> x in order || x == apn;
    var doms' := doms[|order| := dp];
    forall d | 0 <= d < |order'| ensures order'[d] in l && UnionOf(m, l, order'[d], doms'[d]) {
      if d < |order| { assert order'[d] == order[d] && doms'[d] == doms[d]; }
    }
  }

  lemma UnionSame(m: seq<set<Cpu>>, l: seq<int>, pns: seq<int>, x: int, dp: set<Cpu>)
    requires |m| == |l| == |pns| && UnionOf(m, pns, x, dp)
    requires forall k :: 0 <= k < |l| ==> (pns[k] == x <==> l[k] == x)
    ensures UnionOf(m, l, x, dp)
  {
  }

  lemma FilledIsDomains(m: seq<set<Cpu>>, l: seq<int>, pns: seq<int>, order: seq<int>, doms: seq<set<Cpu>>)
    requires Filled(m, l, pns, order, doms) && |order| == |doms|
    requires forall k :: 0 <= k < |l| ==> l[k] in order
    requires Sound(m, l) && Settled(m, l)
    ensures exists where :: Domains(doms, m, where)
  {
    SettledSound(m, l);
    var where := seq(|m|, k requires 0 <= k < |m| => SlotOf(order, l[k]));
    forall d | 0 <= d < |doms| ensures HasMember(where, d) {
      var k :| 0 <= k < |l| && l[k] == order[d];
      assert where[k] == d;
    }
    forall i | 0 <= i < |m| ensures where[i] < |doms| && m[i] <= doms[where[i]] {
      assert UnionOf(m, l, order[where[i]], doms[where[i]]);
    }
    forall d, c | 0 <= d < |doms| && c in doms[d] ensures exists i :: 0 <= i < |m| && where[i] == d && c in m[i] {
      assert UnionOf(m, l, order[d], doms[d]);
      var i :| 0 <= i < |m| && l[i] == order[d] && c in m[i];
      assert where[i] == d;
    }
    assert Domains(doms, m, where);
  }

  lemma SlotLeft(m: seq<set<Cpu>>, l: seq<int>, pns: seq<int>, order: seq<int>, doms: seq<set<Cpu>>, ndoms: int)
    requires Filled(m, l, pns, order, doms) && Progress(m, l, ndoms)
    ensures |order| <= ndoms
    ensures (exists k :: 0 <= k < |l| && l[k] !in order) ==> |order| < ndoms
    ensures (forall k :: 0 <= k < |l| ==> l[k] in order) ==> |order| == ndoms
  {
    DistinctWithin(order, LabelSet(l));
    if k :| 0 <= k < |l| && l[k] !in order { assert l[k] in LabelSet(l); }
  }

  /** One slot: the masks labelled like cpuset `i`, which is not done yet. */
  method NextSlot(csa: seq<Cpuset>, i: nat, doms: seq<set<Cpu>>, nslot: nat,
                  ghost m: seq<set<Cpu>>, ghost l: seq<int>, ghost pns: seq<int>, ghost order: seq<int>)
    returns (doms': seq<set<Cpu>>, ghost pns': seq<int>)
    requires Distinct(csa) && HasMasks(csa, m) && HasLabels(csa, pns) && i < |csa|
    requires Filled(m, l, pns, order, doms) && nslot == |order| < |doms|
    requires forall k :: 0 <= k < i ==> l[k] in order
    requires l[i] !in order && l[i] >= 0
    modifies csa`pn
    ensures HasLabels(csa, pns') && |doms'| == |doms| && Filled(m, l, pns', order + [l[i]], doms')
  {
    var dp := FillSlot(csa, i, csa[i].pn, m, pns);
    pns' := seq(|csa|, k requires 0 <= k < |csa| => if pns[k] == l[i] then -1 else pns[k]);
    doms' := doms[nslot := dp];
    UnionSame(m, l, pns, l[i], dp);
    FilledStep(m, l, pns, order, doms, pns', l[i], dp);
  }

  lemma NothingFilled(m: seq<set<Cpu>>, l: seq<int>, doms: seq<set<Cpu>>, ndoms: int)
    requires Progress(m, l, ndoms)
    ensures Filled(m, l, l, [], doms)
  {
  }

  /** A cpuset is marked exactly when its label has its slot. */
  lemma MarkedExactly(m: seq<set<Cpu>>, l: seq<int>, pns: seq<int>, order: seq<int>, doms: seq<set<Cpu>>, ndoms: int, i: nat)
    requires Filled(m, l, pns, order, doms) && Progress(m, l, ndoms) && i < |l|
    ensures |pns| == |l| && l[i] >= 0 && (pns[i] < 0 <==> l[i] in order)
  {
  }

  lemma BuiltDomains(m: seq<set<Cpu>>, l: seq<int>, pns: seq<int>, order: seq<int>, doms: seq<set<Cpu>>, ndoms: int)
    requires Filled(m, l, pns, order, doms) && Progress(m, l, ndoms) && Settled(m, l) && |order| == |doms|
    requires forall k :: 0 <= k < |l| ==> l[k] in order
    ensures exists where :: Domains(doms, m, where)
  {
    FilledIsDomains(m, l, pns, order, doms);
  }

  /** From the restart loop to the end of generate_sched_domains(): the masks handed to the scheduler.
      The array never has a slot too few (the "confused" branch) or too many (the BUG_ON). */
  method BuildDomains(csa: seq<Cpuset>, ghost m: seq<set<Cpu>>) returns (doms: seq<set<Cpu>>)
    requires Distinct(csa) && HasMasks(csa, m)
    modifies csa`pn
    ensures exists where :: Domains(doms, m, where)
  {
    hide Filled, Progress, Settled, Domains, Distinct;
    var ndoms, l := FindPartition(csa, m);
    ghost var pns, order: seq<int> := l, [];
    doms := seq(ndoms, _ => {});
    NothingFilled(m, l, doms, ndoms);
    var nslot := 0;
    for i := 0 to |csa|
      invariant HasLabels(csa, pns) && nslot == |order| && |doms| == ndoms
      invariant Filled(m, l, pns, order, doms)
      invariant |l| == |csa| && forall k :: 0 <= k < i ==> l[k] in order
    {
      MarkedExactly(m, l, pns, order, doms, ndoms, i);
      if csa[i].pn < 0 {
        continue;
      }
      SlotLeft(m, l, pns, order, doms, ndoms);
      assert nslot < ndoms;  // the "confused" branch is not taken
      doms, pns := NextSlot(csa, i, doms, nslot, m, l, pns, order);
      order := order + [l[i]];
      nslot := nslot + 1;
    }
    SlotLeft(m, l, pns, order, doms, ndoms);
    assert nslot == ndoms;  // the BUG_ON
    BuiltDomains(m, l, pns, order, doms, ndoms);
  }
}
