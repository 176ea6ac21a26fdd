/** When one mask more or less leaves a partition as it is. */
module PartitionChange {
  import opened Partition

  /** The domains are right for the masks `masks`, up to empty ones. */
  ghost predicate RightFor(doms: seq<set<Cpu>>, masks: set<set<Cpu>>) {
    exists m, where :: Domains(doms, m, where) && NonEmpty(m) == masks
  }

  /** A chain can be followed in any other list that has the same masks. */
  lemma {:induction false} Relisted(m: seq<set<Cpu>>, path: seq<nat>, i: nat, j: nat, n: seq<set<Cpu>>, i': nat, j': nat)
    requires Chain(m, path, i, j) && m[i] != {} && NonEmpty(m) <= NonEmpty(n)
    requires i' < |n| && j' < |n| && n[i'] == m[i] && n[j'] == m[j]
    ensures Connected(n, i', j')
    decreases |path|
  {
    if |path| == 1 {
      ConnectedStep(n, i', j');
    } else {
      var k := path[1];
      assert Overlap(m, path[0], path[1]);
      assert m[k] in NonEmpty(m);
      var k' :| 0 <= k' < |n| && n[k'] == m[k];
      ConnectedStep(n, i', k');
      assert Chain(m, path[1..], k, j);
      Relisted(m, path[1..], k, j, n, k', j');
      ConnectedJoin(n, i', k', j');
    }
  }

  /** What joins neighbours joins the ends of every chain. */
  lemma {:induction false} Rejoined(m: seq<set<Cpu>>, path: seq<nat>, i: nat, j: nat, n: seq<set<Cpu>>)
    requires Chain(m, path, i, j) && |n| == |m|
    requires forall a: nat, b: nat :: a < |m| && b < |m| && Overlap(m, a, b) ==> Connected(n, a, b)
    ensures Connected(n, i, j)
    decreases |path|
  {
    if |path| == 1 {
      ConnectedSelf(n, i);
    } else {
      assert Overlap(m, path[0], path[1]);
      assert Chain(m, path[1..], path[1], j);
      Rejoined(m, path[1..], path[1], j, n);
      ConnectedJoin(n, i, path[1], j);
    }
  }

  /** Masks in disjoint sets: a chain stays in one of them. */
  lemma {:induction false} ChainStays(doms: seq<set<Cpu>>, m: seq<set<Cpu>>, where: seq<nat>, path: seq<nat>, i: nat, j: nat)
    requires PairwiseDisjoint(doms) && |where| == |m| && Chain(m, path, i, j)
    requires forall k :: 0 <= k < |m| ==> where[k] < |doms| && m[k] <= doms[where[k]]
    ensures where[i] == where[j]
    decreases |path|
  {
    if |path| > 1 {
      var n := path[1];
      assert Overlap(m, path[0], path[1]);
      var x :| x in m[i] * m[n];
      SamePart(doms, where[i], where[n], x);
      assert Chain(m, path[1..], n, j);
      ChainStays(doms, m, where, path[1..], n, j);
    }
  }

  /** Overlapping masks lie in the same domain. */
  lemma OverlapStays(doms: seq<set<Cpu>>, m: seq<set<Cpu>>, where: seq<nat>, d: nat, c: set<Cpu>, i: nat)
    requires PairwiseDisjoint(doms) && |where| == |m| && d < |doms| && c <= doms[d] && i < |m| && m[i] * c != {}
    requires forall k :: 0 <= k < |m| ==> where[k] < |doms| && m[k] <= doms[where[k]]
    ensures where[i] == d
  {
    var x :| x in m[i] * c;
    SamePart(doms, where[i], d, x);
  }

  // ---------------------------------------------------------------- one mask more

  lemma PrefixConnected(m: seq<set<Cpu>>, n: seq<set<Cpu>>, path: seq<nat>, i: nat, j: nat)
    requires Chain(m, path, i, j) && m <= n
    ensures Chain(n, path, i, j)
  {
    forall k | 0 <= k < |path| - 1 ensures Overlap(n, path[k], path[k + 1]) { assert Overlap(m, path[k], path[k + 1]); }
  }

  lemma Grown(doms: seq<set<Cpu>>, m: seq<set<Cpu>>, where: seq<nat>, c: set<Cpu>, d: nat)
    requires Domains(doms, m, where) && c != {} && d < |doms| && c <= doms[d]
    ensures Domains(doms, m + [c], where + [d])
  {
    var n: seq<set<Cpu>>, w: seq<nat>, last := m + [c], where + [d], |m|;
    DomainsDisjoint(doms, m, where);
    forall e | 0 <= e < |doms| ensures HasMember(w, e) {
      assert HasMember(where, e);
      var i :| 0 <= i < |where| && where[i] == e;
      assert w[i] == e;
    }
    forall e, x | 0 <= e < |doms| && x in doms[e] ensures exists i :: 0 <= i < |n| && w[i] == e && x in n[i] {
      var i :| 0 <= i < |m| && where[i] == e && x in m[i];
      assert w[i] == e && x in n[i];
    }
    var x :| x in c;
    var k :| 0 <= k < |m| && where[k] == d && x in m[k];
    assert x in n[k] * n[last] && x in n[last] * n[k];
    ConnectedStep(n, k, last);
    forall i: nat, j: nat | i < |n| && j < |n| ensures w[i] == w[j] <==> Connected(n, i, j) {
      if Connected(n, i, j) {
        var path :| Chain(n, path, i, j);
        ChainStays(doms, n, w, path, i, j);
      }
      if w[i] == w[j] {
        var i', j' := if i == last then k else i, if j == last then k else j;
        assert Connected(m, i', j');
        var path :| Chain(m, path, i', j');
        PrefixConnected(m, n, path, i', j');
        if i == last { ConnectedJoin(n, i, i', j'); }
        if j == last { ConnectedJoin(n, i, j', j); }
      }
    }
  }

  lemma GrownMasks(m: seq<set<Cpu>>, c: set<Cpu>)
    requires c != {}
    ensures NonEmpty(m + [c]) == NonEmpty(m) + {c}
  {
    forall x ensures x in NonEmpty(m + [c]) <==> x in NonEmpty(m) + {c} {
      if x in NonEmpty(m) { var i :| 0 <= i < |m| && m[i] == x; assert (m + [c])[i] == x; }
      if x == c { assert (m + [c])[|m|] == x; }
    }
  }

  lemma MaskWithin(doms: seq<set<Cpu>>, m: seq<set<Cpu>>, where: seq<nat>, c: set<Cpu>)
    requires Domains(doms, m, where) && c in NonEmpty(m)
    ensures Within(doms, c)
  {
    var i :| 0 <= i < |m| && m[i] == c;
    assert m[i] <= doms[where[i]];
  }

  /** With one mask more the domains stay right exactly when the mask lies inside one of them. */
  lemma GrownExactly(doms: seq<set<Cpu>>, masks: set<set<Cpu>>, c: set<Cpu>)
    requires RightFor(doms, masks) && c != {}
    ensures RightFor(doms, masks + {c}) <==> Within(doms, c)
  {
    hide Domains, NonEmpty;
    if Within(doms, c) {
      var m, where :| Domains(doms, m, where) && NonEmpty(m) == masks;
      var d :| 0 <= d < |doms| && c <= doms[d];
      Grown(doms, m, where, c, d);
      GrownMasks(m, c);
    }
    if RightFor(doms, masks + {c}) {
      var m, where :| Domains(doms, m, where) && NonEmpty(m) == masks + {c};
      MaskWithin(doms, m, where, c);
    }
  }

  // ---------------------------------------------------------------- one mask less

  /** The other masks `rest` make up for `c`: they have all its CPUs, and those that overlap it are joined
      without it. */
  ghost predicate Redundant(rest: seq<set<Cpu>>, c: set<Cpu>) {
    && (forall x :: x in c ==> exists i :: 0 <= i < |rest| && x in rest[i])
    && (forall i: nat, j: nat :: i < |rest| && j < |rest| && rest[i] * c != {} && rest[j] * c != {} ==> Connected(rest, i, j))
  }

  /** `m` with every `c` replaced by `o` */
  function Replaced(m: seq<set<Cpu>>, c: set<Cpu>, o: set<Cpu>): (n: seq<set<Cpu>>)
    ensures |n| == |m|
  {
    seq(|m|, i requires 0 <= i < |m| => if m[i] == c then o else m[i])
  }

  lemma StillConnected(m: seq<set<Cpu>>, n: seq<set<Cpu>>, rest: seq<set<Cpu>>, c: set<Cpu>, o: set<Cpu>, a: nat, b: nat)
    requires n == Replaced(m, c, o) && NonEmpty(rest) <= NonEmpty(n) && NonEmpty(m) == NonEmpty(rest) + {c}
    requires Redundant(rest, c) && o in NonEmpty(rest) && o * c != {}
    requires a < |m| && b < |m| && Overlap(m, a, b)
    ensures Connected(n, a, b)
  {
    if m[a] != c && m[b] != c {
      ConnectedStep(n, a, b);
    } else {
      if m[a] != c { assert m[a] in NonEmpty(m); }
      if m[b] != c { assert m[b] in NonEmpty(m); }
      assert n[a] in NonEmpty(rest) && n[b] in NonEmpty(rest) && n[a] * c != {} && n[b] * c != {};
      var i :| 0 <= i < |rest| && rest[i] == n[a];
      var j :| 0 <= j < |rest| && rest[j] == n[b];
      assert Connected(rest, i, j);
      var path :| Chain(rest, path, i, j);
      Relisted(rest, path, i, j, n, a, b);
    }
  }

  lemma ReplacedMasks(m: seq<set<Cpu>>, rest: seq<set<Cpu>>, c: set<Cpu>, o: set<Cpu>)
    requires NonEmpty(m) == NonEmpty(rest) + {c} && c !in NonEmpty(rest) && o in NonEmpty(rest)
    ensures NonEmpty(Replaced(m, c, o)) == NonEmpty(rest)
  {
    var n := Replaced(m, c, o);
    forall x ensures x in NonEmpty(n) <==> x in NonEmpty(rest) {
      if x in NonEmpty(n) {
        var i :| 0 <= i < |n| && n[i] == x;
        if m[i] != c { assert m[i] in NonEmpty(m); }
      }
      if x in NonEmpty(rest) {
        assert x in NonEmpty(m);
        var i :| 0 <= i < |m| && m[i] == x;
        assert n[i] == x;
      }
    }
  }

  lemma ShrunkInside(doms: seq<set<Cpu>>, m: seq<set<Cpu>>, where: seq<nat>, rest: seq<set<Cpu>>, c: set<Cpu>, o: set<Cpu>)
    requires Domains(doms, m, where) && NonEmpty(m) == NonEmpty(rest) + {c} && c !in NonEmpty(rest) && c != {}
    requires Redundant(rest, c) && o in NonEmpty(rest) && o * c != {}
    ensures forall i :: 0 <= i < |m| ==> Replaced(m, c, o)[i] <= doms[where[i]]
  {
    DomainsDisjoint(doms, m, where);
    assert o in NonEmpty(m);
    var k :| 0 <= k < |m| && m[k] == o;
    forall i: nat | i < |m| && m[i] == c ensures where[i] == where[k] {
      OverlapStays(doms, m, where, where[k], o, i);
    }
  }

  lemma ShrunkCovered(doms: seq<set<Cpu>>, m: seq<set<Cpu>>, where: seq<nat>, rest: seq<set<Cpu>>, c: set<Cpu>, o: set<Cpu>,
                      d: nat, x: Cpu)
    requires Domains(doms, m, where) && NonEmpty(m) == NonEmpty(rest) + {c} && c !in NonEmpty(rest) && c != {}
    requires Redundant(rest, c) && o in NonEmpty(rest) && o * c != {}
    requires d < |doms| && x in doms[d]
    ensures exists i :: 0 <= i < |m| && where[i] == d && x in Replaced(m, c, o)[i]
  {
    var i :| 0 <= i < |m| && where[i] == d && x in m[i];
    if m[i] == c {
      DomainsDisjoint(doms, m, where);
      var r :| 0 <= r < |rest| && x in rest[r];
      assert rest[r] in NonEmpty(rest) && rest[r] in NonEmpty(m);
      var j :| 0 <= j < |m| && m[j] == rest[r];
      SamePart(doms, where[j], d, x);
    }
  }

  lemma ShrunkConnected(doms: seq<set<Cpu>>, m: seq<set<Cpu>>, where: seq<nat>, rest: seq<set<Cpu>>, c: set<Cpu>, o: set<Cpu>,
                        i: nat, j: nat)
    requires Domains(doms, m, where) && NonEmpty(m) == NonEmpty(rest) + {c} && c !in NonEmpty(rest) && c != {}
    requires Redundant(rest, c) && o in NonEmpty(rest) && o * c != {}
    requires i < |m| && j < |m|
    ensures where[i] == where[j] <==> Connected(Replaced(m, c, o), i, j)
  {
    var n := Replaced(m, c, o);
    ReplacedMasks(m, rest, c, o);
    if Connected(n, i, j) {
      DomainsDisjoint(doms, m, where);
      ShrunkInside(doms, m, where, rest, c, o);
      var path :| Chain(n, path, i, j);
      ChainStays(doms, n, where, path, i, j);
    }
    if where[i] == where[j] {
      assert Connected(m, i, j);
      var path :| Chain(m, path, i, j);
      forall a: nat, b: nat | a < |m| && b < |m| && Overlap(m, a, b) ensures Connected(n, a, b) {
        StillConnected(m, n, rest, c, o, a, b);
      }
      Rejoined(m, path, i, j, n);
    }
  }

  lemma Shrunk(doms: seq<set<Cpu>>, m: seq<set<Cpu>>, where: seq<nat>, rest: seq<set<Cpu>>, c: set<Cpu>, o: set<Cpu>)
    requires Domains(doms, m, where) && NonEmpty(m) == NonEmpty(rest) + {c} && c !in NonEmpty(rest) && c != {}
    requires Redundant(rest, c) && o in NonEmpty(rest) && o * c != {}
    ensures Domains(doms, Replaced(m, c, o), where)
  {
    hide Redundant, NonEmpty, Connected;
    var n := Replaced(m, c, o);
    ShrunkInside(doms, m, where, rest, c, o);
    forall d: nat, x | d < |doms| && x in doms[d] ensures exists i :: 0 <= i < |n| && where[i] == d && x in n[i] {
      ShrunkCovered(doms, m, where, rest, c, o, d, x);
    }
    forall i: nat, j: nat | i < |n| && j < |n| ensures where[i] == where[j] <==> Connected(n, i, j) {
      ShrunkConnected(doms, m, where, rest, c, o, i, j);
    }
  }

  lemma ShrunkRight(doms: seq<set<Cpu>>, m: seq<set<Cpu>>, where: seq<nat>, rest: seq<set<Cpu>>, c: set<Cpu>)
    requires Domains(doms, m, where) && NonEmpty(m) == NonEmpty(rest) + {c} && c != {} && Redundant(rest, c)
    ensures RightFor(doms, NonEmpty(rest))
  {
    if c in NonEmpty(rest) {
      assert NonEmpty(m) == NonEmpty(rest);
    } else {
      var x :| x in c;
      var r :| 0 <= r < |rest| && x in rest[r];
      assert x in rest[r] * c;
      assert rest[r] in NonEmpty(rest);
      Shrunk(doms, m, where, rest, c, rest[r]);
      ReplacedMasks(m, rest, c, rest[r]);
    }
  }

  lemma ShrunkNeeds(doms: seq<set<Cpu>>, m: seq<set<Cpu>>, where: seq<nat>, n: seq<set<Cpu>>, w: seq<nat>,
                    rest: seq<set<Cpu>>, c: set<Cpu>)
    requires Domains(doms, m, where) && NonEmpty(m) == NonEmpty(rest) + {c}
    requires Domains(doms, n, w) && NonEmpty(n) == NonEmpty(rest)
    ensures c != {} ==> Redundant(rest, c)
  {
    if c != {} {
      DomainsDisjoint(doms, m, where);
      assert c in NonEmpty(m);
      var k :| 0 <= k < |m| && m[k] == c;
      forall x | x in c ensures exists i :: 0 <= i < |rest| && x in rest[i] {
        assert x in doms[where[k]];
        var i :| 0 <= i < |n| && w[i] == where[k] && x in n[i];
        assert n[i] in NonEmpty(rest);
        var r :| 0 <= r < |rest| && rest[r] == n[i];
      }
      forall i: nat, j: nat | i < |rest| && j < |rest| && rest[i] * c != {} && rest[j] * c != {}
        ensures Connected(rest, i, j)
      {
        assert rest[i] in NonEmpty(n) && rest[j] in NonEmpty(n);
        var a :| 0 <= a < |n| && n[a] == rest[i];
        var b :| 0 <= b < |n| && n[b] == rest[j];
        OverlapStays(doms, n, w, where[k], c, a);
        OverlapStays(doms, n, w, where[k], c, b);
        assert Connected(n, a, b);
        var path :| Chain(n, path, a, b);
        Relisted(n, path, a, b, rest, i, j);
      }
    }
  }

  /** Without one mask the domains stay right exactly when the others make up for it. */
  lemma ShrunkExactly(doms: seq<set<Cpu>>, rest: seq<set<Cpu>>, c: set<Cpu>)
    requires RightFor(doms, NonEmpty(rest) + {c}) && c != {}
    ensures RightFor(doms, NonEmpty(rest)) <==> Redundant(rest, c)
  {
    var m, where :| Domains(doms, m, where) && NonEmpty(m) == NonEmpty(rest) + {c};
    if Redundant(rest, c) { ShrunkRight(doms, m, where, rest, c); }
    if RightFor(doms, NonEmpty(rest)) {
      var n, w :| Domains(doms, n, w) && NonEmpty(n) == NonEmpty(rest);
      ShrunkNeeds(doms, m, where, n, w, rest, c);
    }
  }

  // ---------------------------------------------------------------- masks inside others

  /** A mask inside another one makes no difference. */
  lemma InsideRedundant(rest: seq<set<Cpu>>, c: set<Cpu>, a: set<Cpu>)
    requires c <= a && a in NonEmpty(rest)
    ensures Redundant(rest, c)
  {
    var k :| 0 <= k < |rest| && rest[k] == a;
    forall i: nat, j: nat | i < |rest| && j < |rest| && rest[i] * c != {} && rest[j] * c != {} ensures Connected(rest, i, j) {
      var x :| x in rest[i] * c;
      var y :| y in rest[j] * c;
      assert x in rest[i] * rest[k] && y in rest[j] * rest[k];
      ConnectedStep(rest, i, k);
      ConnectedStep(rest, j, k);
      ConnectedJoin(rest, i, k, j);
    }
  }

  lemma OneInside(doms: seq<set<Cpu>>, masks: set<set<Cpu>>, c: set<Cpu>, a: set<Cpu>)
    requires c != {} && c <= a && a in masks
    ensures RightFor(doms, masks + {c}) <==> RightFor(doms, masks)
  {
    hide Domains, Redundant;
    if RightFor(doms, masks) {
      var m, where :| Domains(doms, m, where) && NonEmpty(m) == masks;
      MaskWithin(doms, m, where, a);
      GrownExactly(doms, masks, c);
    }
    if RightFor(doms, masks + {c}) && c !in masks {
      var m, where :| Domains(doms, m, where) && NonEmpty(m) == masks + {c};
      var rest := Replaced(m, c, a);
      WithoutOne(m, masks, c, a);
      InsideRedundant(rest, c, a);
      ShrunkExactly(doms, rest, c);
    }
    if c in masks { assert masks + {c} == masks; }
  }

  lemma WithoutOne(m: seq<set<Cpu>>, masks: set<set<Cpu>>, c: set<Cpu>, a: set<Cpu>)
    requires NonEmpty(m) == masks + {c} && c !in masks && a in masks
    ensures NonEmpty(Replaced(m, c, a)) == masks
  {
    var n := Replaced(m, c, a);
    forall x ensures x in NonEmpty(n) <==> x in masks {
      if x in NonEmpty(n) {
        var i :| 0 <= i < |n| && n[i] == x;
        if m[i] != c { assert m[i] in NonEmpty(m); }
      }
      if x in masks {
        assert x in NonEmpty(m);
        var i :| 0 <= i < |m| && m[i] == x;
        assert n[i] == x;
      }
    }
  }

  /** Nor do any number of masks that each lie inside another one. */
  lemma {:induction false} ManyInside(doms: seq<set<Cpu>>, masks: set<set<Cpu>>, more: set<set<Cpu>>)
    requires forall c :: c in more ==> c != {} && exists a :: a in masks && c <= a
    ensures RightFor(doms, masks + more) <==> RightFor(doms, masks)
    decreases |more|
  {
    hide RightFor;
    if more == {} {
      assert masks + more == masks;
    } else {
      var c :| c in more;
      var a :| a in masks && c <= a;
      ManyInside(doms, masks, more - {c});
      OneInside(doms, masks + (more - {c}), c, a);
      assert masks + (more - {c}) + {c} == masks + more;
    }
  }

  // ---------------------------------------------------------------- one domain for all

  /** Together the masks hold exactly the CPUs `a`, and every two of them are joined. */
  ghost predicate OneGroup(m: seq<set<Cpu>>, a: set<Cpu>) {
    && Union(m) == a
    && forall i: nat, j: nat :: i < |m| && j < |m| && m[i] != {} && m[j] != {} ==> Connected(m, i, j)
  }

  lemma SameUnion(m: seq<set<Cpu>>, n: seq<set<Cpu>>)
    requires NonEmpty(m) <= NonEmpty(n)
    ensures Union(m) <= Union(n)
  {
    forall x | x in Union(m) ensures x in Union(n) {
      var i :| 0 <= i < |m| && x in m[i];
      assert m[i] in NonEmpty(n);
      var k :| 0 <= k < |n| && n[k] == m[i];
    }
  }

  lemma JoinedInOne(m: seq<set<Cpu>>, where: seq<nat>, n: seq<set<Cpu>>, a: set<Cpu>, i: nat, j: nat)
    requires Domains([a], m, where) && NonEmpty(n) == NonEmpty(m)
    requires i < |n| && j < |n| && n[i] != {} && n[j] != {}
    ensures Connected(n, i, j)
  {
    assert n[i] in NonEmpty(m) && n[j] in NonEmpty(m);
    var k :| 0 <= k < |m| && m[k] == n[i];
    var l :| 0 <= l < |m| && m[l] == n[j];
    assert where[k] == where[l];
    var path :| Chain(m, path, k, l);
    Relisted(m, path, k, l, n, i, j);
  }

  lemma OneDomainNeeds(m: seq<set<Cpu>>, where: seq<nat>, n: seq<set<Cpu>>, a: set<Cpu>)
    requires Domains([a], m, where) && NonEmpty(n) == NonEmpty(m)
    ensures OneGroup(n, a)
  {
    hide Domains, Connected;
    DomainsUnion([a], m, where);
    assert Union([a]) == a by { assert [a][0] == a; }
    SameUnion(m, n);
    SameUnion(n, m);
    forall i: nat, j: nat | i < |n| && j < |n| && n[i] != {} && n[j] != {} ensures Connected(n, i, j) {
      JoinedInOne(m, where, n, a, i, j);
    }
  }

  /** With a mask `o` in place of every empty one, all masks are joined. */
  lemma FilledConnected(m: seq<set<Cpu>>, o: set<Cpu>, a: set<Cpu>, i: nat, j: nat)
    requires OneGroup(m, a) && o in NonEmpty(m) && i < |m| && j < |m|
    ensures NonEmpty(m) <= NonEmpty(Replaced(m, {}, o)) && Connected(Replaced(m, {}, o), i, j)
  {
    var n := Replaced(m, {}, o);
    forall x | x in NonEmpty(m) ensures x in NonEmpty(n) {
      var k :| 0 <= k < |m| && m[k] == x;
      assert n[k] == x;
    }
    var k :| 0 <= k < |m| && m[k] == o;
    var i', j' := if m[i] == {} then k else i, if m[j] == {} then k else j;
    assert Connected(m, i', j');
    var path :| Chain(m, path, i', j');
    Relisted(m, path, i', j', n, i, j);
  }

  lemma FilledDomains(m: seq<set<Cpu>>, o: set<Cpu>, a: set<Cpu>)
    requires OneGroup(m, a) && o in NonEmpty(m)
    ensures RightFor([a], NonEmpty(m))
  {
    var n, where := Replaced(m, {}, o), seq(|m|, _ => 0 as nat);
    forall i: nat, j: nat | i < |m| && j < |m| ensures Connected(n, i, j) { FilledConnected(m, o, a, i, j); }
    var k :| 0 <= k < |m| && m[k] == o;
    FilledConnected(m, o, a, k, k);
    assert where[k] == 0;
    forall x | x in a ensures exists i :: 0 <= i < |n| && where[i] == 0 && x in n[i] {
      var i :| 0 <= i < |m| && x in m[i];
      assert where[i] == 0 && x in n[i];
    }
    assert Domains([a], n, where);
    assert NonEmpty(n) <= NonEmpty(m);
  }

  /** A single domain `a` is right exactly when the masks make one group of those CPUs. */
  lemma OneDomainExactly(m: seq<set<Cpu>>, a: set<Cpu>)
    requires a != {}
    ensures RightFor([a], NonEmpty(m)) <==> OneGroup(m, a)
  {
    hide Domains;
    if RightFor([a], NonEmpty(m)) {
      var n, where :| Domains([a], n, where) && NonEmpty(n) == NonEmpty(m);
      OneDomainNeeds(n, where, m, a);
    }
    if OneGroup(m, a) {
      var x :| x in a;
      var i :| 0 <= i < |m| && x in m[i];
      FilledDomains(m, m[i], a);
    }
  }
}
