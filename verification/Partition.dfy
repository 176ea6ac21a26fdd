/** The finest partition of a list of CPU masks: what generate_sched_domains() promises to find. */
module Partition {

  type Cpu = nat

  predicate Overlap(m: seq<set<Cpu>>, i: nat, j: nat)
    requires i < |m| && j < |m|
  {
    m[i] * m[j] != {}
  }

  /** `path` leads from mask `i` to mask `j`, each step between two overlapping masks. */
  ghost predicate Chain(m: seq<set<Cpu>>, path: seq<nat>, i: nat, j: nat) {
    && |path| > 0 && path[0] == i && path[|path| - 1] == j
    && (forall k :: 0 <= k < |path| ==> path[k] < |m|)
    && (forall k :: 0 <= k < |path| - 1 ==> Overlap(m, path[k], path[k + 1]))
  }

  ghost predicate Connected(m: seq<set<Cpu>>, i: nat, j: nat) {
    exists path :: Chain(m, path, i, j)
  }

  lemma ConnectedSelf(m: seq<set<Cpu>>, i: nat)
    requires i < |m|
    ensures Connected(m, i, i)
  {
    assert Chain(m, [i], i, i);
  }

  lemma ConnectedStep(m: seq<set<Cpu>>, i: nat, j: nat)
    requires i < |m| && j < |m| && Overlap(m, i, j)
    ensures Connected(m, i, j) && Connected(m, j, i)
  {
    assert m[i] * m[j] == m[j] * m[i];
    assert Chain(m, [i, j], i, j) && Chain(m, [j, i], j, i);
  }

  lemma ConnectedJoin(m: seq<set<Cpu>>, i: nat, j: nat, k: nat)
    requires Connected(m, i, j) && Connected(m, j, k)
    ensures Connected(m, i, k)
  {
    var p :| Chain(m, p, i, j);
    var q :| Chain(m, q, j, k);
    var r := p + q[1..];
    forall x | 0 <= x < |r| - 1 ensures Overlap(m, r[x], r[x + 1]) {
      if x >= |p| - 1 { assert r[x] == q[x - (|p| - 1)] && r[x + 1] == q[x - (|p| - 1) + 1]; }
    }
    assert Chain(m, r, i, k);
  }

  // ---------------------------------------------------------------- labels

  ghost function LabelSet(l: seq<int>): set<int> {
    set i | 0 <= i < |l| :: l[i]
  }

  /** Masks with the same label are joined by a chain of overlaps. */
  ghost predicate Sound(m: seq<set<Cpu>>, l: seq<int>) {
    && |l| == |m|
    && (forall i, j :: 0 <= i < |m| && 0 <= j < |m| && l[i] == l[j] ==> Connected(m, i, j))
  }

  /** Overlapping masks have the same label. */
  ghost predicate Settled(m: seq<set<Cpu>>, l: seq<int>) {
    && |l| == |m|
    && (forall i, j :: 0 <= i < |m| && 0 <= j < |m| && Overlap(m, i, j) ==> l[i] == l[j])
  }

  /** The labels after one merge: `b` has become `a`. */
  ghost predicate Merged(l: seq<int>, l': seq<int>, a: int, b: int) {
    |l'| == |l| && forall k :: 0 <= k < |l| ==> l'[k] == if l[k] == b then a else l[k]
  }

  lemma MergedSound(m: seq<set<Cpu>>, l: seq<int>, l': seq<int>, i: nat, j: nat)
    requires Sound(m, l) && i < |m| && j < |m| && Overlap(m, i, j) && Merged(l, l', l[i], l[j])
    ensures Sound(m, l')
  {
    ConnectedStep(m, i, j);
    forall x, y | 0 <= x < |m| && 0 <= y < |m| && l'[x] == l'[y] ensures Connected(m, x, y) {
      if l[x] != l[y] {
        if l[x] == l[j] {
          ConnectedJoin(m, x, j, i);
          ConnectedJoin(m, x, i, y);
        } else {
          ConnectedJoin(m, x, i, j);
          ConnectedJoin(m, x, j, y);
        }
      }
    }
  }

  /** One merge takes exactly one label away: why the restarts come to an end. */
  lemma MergedCount(l: seq<int>, l': seq<int>, a: int, b: int)
    requires Merged(l, l', a, b) && a != b && a in LabelSet(l) && b in LabelSet(l)
    ensures |LabelSet(l')| == |LabelSet(l)| - 1
  {
    var i :| 0 <= i < |l| && l[i] == a;
    assert l'[i] == a;
    forall x | x in LabelSet(l) - {b} ensures x in LabelSet(l') {
      var k :| 0 <= k < |l| && l[k] == x;
      assert l'[k] == x;
    }
    assert LabelSet(l') == LabelSet(l) - {b};
  }

  lemma {:induction false} SettledChain(m: seq<set<Cpu>>, l: seq<int>, path: seq<nat>, i: nat, j: nat)
    requires Settled(m, l) && Chain(m, path, i, j)
    ensures l[i] == l[j]
    decreases |path|
  {
    if |path| > 1 {
      assert Overlap(m, path[0], path[1]);
      assert Chain(m, path[1..], path[1], j);
      SettledChain(m, l, path[1..], path[1], j);
    }
  }

  lemma SettledSound(m: seq<set<Cpu>>, l: seq<int>)
    requires Sound(m, l) && Settled(m, l)
    ensures forall i, j :: 0 <= i < |m| && 0 <= j < |m| ==> (l[i] == l[j] <==> Connected(m, i, j))
  {
    forall i, j | 0 <= i < |m| && 0 <= j < |m| && Connected(m, i, j) ensures l[i] == l[j] {
      var path :| Chain(m, path, i, j);
      SettledChain(m, l, path, i, j);
    }
  }

  // ---------------------------------------------------------------- domains

  ghost predicate HasMember(where: seq<nat>, d: nat) {
    exists i :: 0 <= i < |where| && where[i] == d
  }

  /** `where[i]` is the domain of mask `i`: each domain is the union of its masks, none is made up, and
      two masks share a domain exactly when a chain of overlaps joins them. */
  ghost predicate Domains(doms: seq<set<Cpu>>, m: seq<set<Cpu>>, where: seq<nat>) {
    && |where| == |m|
    && (forall i :: 0 <= i < |m| ==> where[i] < |doms| && m[i] <= doms[where[i]])
    && (forall d, x :: 0 <= d < |doms| && x in doms[d] ==> exists i :: 0 <= i < |m| && where[i] == d && x in m[i])
    && (forall d :: 0 <= d < |doms| ==> HasMember(where, d))
    && (forall i, j :: 0 <= i < |m| && 0 <= j < |m| ==> (where[i] == where[j] <==> Connected(m, i, j)))
  }

  ghost predicate PairwiseDisjoint(doms: seq<set<Cpu>>) {
    forall a, b :: 0 <= a < b < |doms| ==> doms[a] * doms[b] == {}
  }

  ghost predicate Within(parts: seq<set<Cpu>>, c: set<Cpu>) {
    exists p :: 0 <= p < |parts| && c <= parts[p]
  }

  /** No mask is split by `parts`. */
  ghost predicate Covers(parts: seq<set<Cpu>>, m: seq<set<Cpu>>) {
    forall i :: 0 <= i < |m| && m[i] != {} ==> Within(parts, m[i])
  }

  lemma DomainsDisjoint(doms: seq<set<Cpu>>, m: seq<set<Cpu>>, where: seq<nat>)
    requires Domains(doms, m, where)
    ensures PairwiseDisjoint(doms)
  {
    forall a, b | 0 <= a < b < |doms| ensures doms[a] * doms[b] == {} {
      forall x | x in doms[a] && x in doms[b] ensures false {
        var i :| 0 <= i < |m| && where[i] == a && x in m[i];
        var j :| 0 <= j < |m| && where[j] == b && x in m[j];
        assert x in m[i] * m[j];
        ConnectedStep(m, i, j);
      }
    }
  }

  ghost function Union(m: seq<set<Cpu>>): set<Cpu> {
    set i, x | 0 <= i < |m| && x in m[i] :: x
  }

  /** Nothing is lost and nothing added: the domains hold the CPUs of the masks and no others, and no
      mask is split. */
  lemma DomainsUnion(doms: seq<set<Cpu>>, m: seq<set<Cpu>>, where: seq<nat>)
    requires Domains(doms, m, where)
    ensures Union(doms) == Union(m) && Covers(doms, m)
  {
    forall i | 0 <= i < |m| ensures Within(doms, m[i]) { assert m[i] <= doms[where[i]]; }
  }

  lemma {:induction false} ChainInOnePart(parts: seq<set<Cpu>>, m: seq<set<Cpu>>, path: seq<nat>, i: nat, j: nat, p: nat)
    requires PairwiseDisjoint(parts) && Covers(parts, m) && Chain(m, path, i, j)
    requires p < |parts| && m[i] <= parts[p]
    ensures m[j] <= parts[p]
    decreases |path|
  {
    if |path| > 1 {
      var n := path[1];
      assert Overlap(m, i, n);
      var x :| x in m[i] * m[n];
      assert Within(parts, m[n]);
      var q :| 0 <= q < |parts| && m[n] <= parts[q];
      assert x in parts[p] * parts[q];
      assert q == p;
      assert Chain(m, path[1..], n, j);
      ChainInOnePart(parts, m, path[1..], n, j, p);
    }
  }

  lemma DomainInOnePart(doms: seq<set<Cpu>>, m: seq<set<Cpu>>, where: seq<nat>, parts: seq<set<Cpu>>, d: nat)
    requires Domains(doms, m, where) && PairwiseDisjoint(parts) && Covers(parts, m)
    requires d < |doms| && doms[d] != {}
    ensures Within(parts, doms[d])
  {
    var y :| y in doms[d];
    var i :| 0 <= i < |m| && where[i] == d && y in m[i];
    assert Within(parts, m[i]);
    var p :| 0 <= p < |parts| && m[i] <= parts[p];
    forall x | x in doms[d] ensures x in parts[p] {
      var j :| 0 <= j < |m| && where[j] == d && x in m[j];
      assert Connected(m, i, j);
      var path :| Chain(m, path, i, j);
      ChainInOnePart(parts, m, path, i, j, p);
    }
  }

  /** The finest partition: whichever disjoint sets split no mask, each non-empty domain lies inside one
      of them. */
  lemma DomainsFinest(doms: seq<set<Cpu>>, m: seq<set<Cpu>>, where: seq<nat>, parts: seq<set<Cpu>>)
    requires Domains(doms, m, where) && PairwiseDisjoint(parts) && Covers(parts, m)
    ensures Refines(doms, parts)
  {
    forall d | 0 <= d < |doms| && doms[d] != {} ensures Within(parts, doms[d]) {
      DomainInOnePart(doms, m, where, parts, d);
    }
  }

  ghost function NonEmpty(doms: seq<set<Cpu>>): set<set<Cpu>> {
    set d | 0 <= d < |doms| && doms[d] != {} :: doms[d]
  }

  lemma CoversSame(parts: seq<set<Cpu>>, m: seq<set<Cpu>>, m': seq<set<Cpu>>)
    requires Covers(parts, m) && NonEmpty(m) == NonEmpty(m')
    ensures Covers(parts, m')
  {
    forall i | 0 <= i < |m'| && m'[i] != {} ensures Within(parts, m'[i]) {
      assert m'[i] in NonEmpty(m);
    }
  }

  /** `a` is no coarser than `b`. */
  ghost predicate Refines(a: seq<set<Cpu>>, b: seq<set<Cpu>>) {
    forall d :: 0 <= d < |a| && a[d] != {} ==> Within(b, a[d])
  }

  lemma SamePart(a: seq<set<Cpu>>, d: nat, q: nat, x: Cpu)
    requires PairwiseDisjoint(a) && d < |a| && q < |a| && x in a[d] && x in a[q]
    ensures d == q
  {
    assert x in a[d] * a[q] && x in a[q] * a[d];
  }

  lemma MutualRefinement(a: seq<set<Cpu>>, b: seq<set<Cpu>>)
    requires PairwiseDisjoint(a) && Refines(a, b) && Refines(b, a)
    ensures NonEmpty(a) <= NonEmpty(b)
  {
    forall D | D in NonEmpty(a) ensures D in NonEmpty(b) {
      var d :| 0 <= d < |a| && a[d] == D;
      var x :| x in D;
      assert Within(b, D);
      var p :| 0 <= p < |b| && D <= b[p];
      assert Within(a, b[p]);
      var q :| 0 <= q < |a| && b[p] <= a[q];
      SamePart(a, d, q, x);
      assert b[p] == D;
    }
  }

  /** The non-empty domains depend only on the non-empty masks, not on the order in which the cpusets
      are listed nor on repetitions. */
  lemma DomainsUnique(doms: seq<set<Cpu>>, m: seq<set<Cpu>>, where: seq<nat>,
                      doms': seq<set<Cpu>>, m': seq<set<Cpu>>, where': seq<nat>)
    requires Domains(doms, m, where) && Domains(doms', m', where') && NonEmpty(m) == NonEmpty(m')
    ensures NonEmpty(doms) == NonEmpty(doms')
  {
    DomainsDisjoint(doms, m, where);
    DomainsDisjoint(doms', m', where');
    DomainsUnion(doms, m, where);
    DomainsUnion(doms', m', where');
    CoversSame(doms, m, m');
    CoversSame(doms', m', m);
    DomainsFinest(doms, m, where, doms');
    DomainsFinest(doms', m', where', doms);
    MutualRefinement(doms, doms');
    MutualRefinement(doms', doms);
  }
}
