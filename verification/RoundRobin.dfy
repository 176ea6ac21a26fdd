/** Tables that reuse their slots round robin: they keep the last distinct keys, first in first out. */
module RoundRobin {

  predicate Distinct<T(==)>(q: seq<T>) { forall i, j :: 0 <= i < j < |q| ==> q[i] != q[j] }

  /** A new key pushes the oldest one out of a full queue. */
  function Push(q: seq<int>, x: int, cap: nat): seq<int> {
    if x in q then q else (if |q| < cap || q == [] then q else q[1..]) + [x]
  }

  function PushAll(q: seq<int>, ys: seq<int>, cap: nat): seq<int>
    decreases |ys|
  {
    if ys == [] then q else PushAll(Push(q, ys[0], cap), ys[1..], cap)
  }

  /** How many of `ys` are not in the queue when they come */
  function Misses(q: seq<int>, ys: seq<int>, cap: nat): nat
    decreases |ys|
  {
    if ys == [] then 0 else (if ys[0] in q then 0 else 1) + Misses(Push(q, ys[0], cap), ys[1..], cap)
  }

  lemma PushDistinct(q: seq<int>, x: int, cap: nat)
    requires Distinct(q) && |q| <= cap && cap > 0
    ensures Distinct(Push(q, x, cap)) && |Push(q, x, cap)| <= cap && x in Push(q, x, cap)
  {
    assert Push(q, x, cap)[|Push(q, x, cap)| - 1] == x || x in q;
  }

  /** The slots `keys`, of which 0 is a free one, and the next victim `rr` hold the queue `q`. */
  ghost predicate Table(keys: seq<int>, rr: nat, q: seq<int>) {
    && rr < |keys| && Distinct(q) && 0 !in q && |q| <= |keys|
    && if |q| < |keys| then rr == 0 && keys[..|q|] == q && forall k :: |q| <= k < |keys| ==> keys[k] == 0
       else q == keys[rr..] + keys[..rr]
  }

  lemma TableHas(keys: seq<int>, rr: nat, q: seq<int>, x: int)
    requires Table(keys, rr, q) && x != 0
    ensures x in q <==> x in keys
  {
    if |q| < |keys| {
      if x in q {
        var i :| 0 <= i < |q| && q[i] == x;
        assert keys[..|q|][i] == keys[i];
      }
      forall k | 0 <= k < |q| ensures keys[k] in q { assert keys[..|q|][k] == keys[k]; }
    } else {
      assert keys == keys[..rr] + keys[rr..];
    }
  }

  lemma TableDistinct(keys: seq<int>, rr: nat, q: seq<int>, i: nat, j: nat)
    requires Table(keys, rr, q) && i < j < |keys| && keys[i] != 0
    ensures keys[i] != keys[j]
  {
    if |q| < |keys| {
      if j < |q| { assert q[i] == keys[i] && q[j] == keys[j]; }
    } else {
      var n := |keys|;
      assert keys[i] == q[if i < rr then n - rr + i else i - rr];
      assert keys[j] == q[if j < rr then n - rr + j else j - rr];
    }
  }

  /** The slot a new key goes to */
  function Victim(rr: nat, q: seq<int>, cap: nat): nat { if |q| < cap then |q| else rr }

  function NextRr(rr: nat, q: seq<int>, cap: nat): nat
    requires cap > 0
  {
    if |q| < cap then rr else if rr + 1 == cap then 0 else rr + 1
  }

  /** (rr + 1) % cap */
  lemma NextRrIs(rr: nat, q: seq<int>, cap: nat)
    requires rr < cap && |q| == cap
    ensures NextRr(rr, q, cap) == (rr + 1) % cap
  {
  }

  lemma FillSlot(keys: seq<int>, q: seq<int>, x: int)
    requires Table(keys, 0, q) && |q| < |keys| && x != 0 && x !in q
    ensures Table(keys[|q| := x], 0, q + [x])
  {
    var keys' := keys[|q| := x];
    assert keys'[..|q| + 1] == keys[..|q|] + [x];
    if |q| + 1 == |keys| {
      assert keys' == keys'[..|q| + 1];
      assert keys' == keys'[0..] + keys'[..0];
    }
  }

  lemma ReuseSlot(keys: seq<int>, rr: nat, q: seq<int>)
    requires rr < |keys| && q == keys[rr..] + keys[..rr]
    ensures q[0] == keys[rr] && q[1..] == keys[rr + 1..] + keys[..rr]
  {
  }

  lemma Rotation(keys: seq<int>, rr: nat, x: int)
    requires rr < |keys|
    ensures var rr', keys' := NextRr(rr, keys, |keys|), keys[rr := x];
      keys'[rr'..] + keys'[..rr'] == keys[rr + 1..] + keys[..rr] + [x]
  {
    var keys' := keys[rr := x];
    assert keys' == keys[..rr] + [x] + keys[rr + 1..];
    if rr + 1 < |keys| {
      assert keys'[rr + 1..] == keys[rr + 1..] && keys'[..rr + 1] == keys[..rr] + [x];
    } else {
      assert keys[rr + 1..] == [];
    }
  }

  /** Writing a new key into that slot is a push. */
  lemma TablePush(keys: seq<int>, rr: nat, q: seq<int>, x: int)
    requires Table(keys, rr, q) && x != 0 && x !in q
    ensures var n := |keys|;
      Victim(rr, q, n) < n && Table(keys[Victim(rr, q, n) := x], NextRr(rr, q, n), Push(q, x, n))
    ensures |q| == |keys| ==> keys[rr] == q[0]
  {
    PushDistinct(q, x, |keys|);
    if |q| < |keys| {
      FillSlot(keys, q, x);
    } else {
      ReuseSlot(keys, rr, q);
      Rotation(keys, rr, x);
    }
  }

  lemma OneSlot(keys: seq<int>, rr: nat, q: seq<int>, slot: nat)
    requires Table(keys, rr, q) && slot < |keys| && keys[slot] != 0
    ensures forall k :: 0 <= k < |keys| && k != slot ==> keys[k] != keys[slot]
  {
    forall k: nat | k < |keys| && k != slot ensures keys[k] != keys[slot] {
      if k < slot { if keys[k] != 0 { TableDistinct(keys, rr, q, k, slot); } } else { TableDistinct(keys, rr, q, slot, k); }
    }
  }

  /** The first free slot, if there is one, is the one after the queue. */
  lemma FreeIs(keys: seq<int>, rr: nat, q: seq<int>, freei: int)
    requires Table(keys, rr, q)
    requires if freei < 0 then 0 !in keys
             else freei < |keys| && keys[freei] == 0 && forall k :: 0 <= k < freei ==> keys[k] != 0
    ensures if freei < 0 then |q| == |keys| else freei == |q| < |keys|
  {
    if |q| < |keys| {
      assert keys[|q|] == 0;
      forall k | 0 <= k < |q| ensures keys[k] != 0 { assert keys[..|q|][k] in q; }
    } else {
      assert keys == keys[..rr] + keys[rr..];
      forall k | 0 <= k < |keys| ensures keys[k] != 0 { assert keys[k] in q; }
    }
  }

  /** A key other than the one pushed out stands in another slot. */
  lemma OthersKept(keys: seq<int>, rr: nat, q: seq<int>, slot: nat)
    requires Table(keys, rr, q) && slot == Victim(rr, q, |keys|)
    ensures forall k :: 0 <= k < |keys| && k != slot && keys[k] != 0 && |q| == |keys| ==> keys[k] != q[0]
  {
    if |q| == |keys| {
      ReuseSlot(keys, rr, q);
      forall k: nat | k < |keys| && k != slot && keys[k] != 0 ensures keys[k] != q[0] {
        if k < slot { TableDistinct(keys, rr, q, k, slot); } else { assert keys[slot] in q; TableDistinct(keys, rr, q, slot, k); }
      }
    }
  }

  // ---------------------------------------------------------------- how long a key stays

  function Elements(s: seq<int>): set<int> { set x | x in s }

  lemma {:induction false} DistinctCount(q: seq<int>, s: set<int>)
    requires Distinct(q) && forall x :: x in q ==> x in s
    ensures |q| <= |s|
    decreases |q|
  {
    if q != [] {
      var x := q[|q| - 1];
      forall y | y in q[..|q| - 1] ensures y in s - {x} {
        var i :| 0 <= i < |q| - 1 && q[i] == y;
      }
      DistinctCount(q[..|q| - 1], s - {x});
    }
  }

  /** `x` is at place `p` of the queue, and everything behind it is in `s`. */
  ghost predicate At(q: seq<int>, p: nat, x: int, s: set<int>) {
    p < |q| && q[p] == x && forall k :: p < k < |q| ==> q[k] in s
  }

  /** A key stays as long as fewer than `cap` other keys can have come behind it. */
  lemma {:induction false} StaysWithin(q: seq<int>, p: nat, x: int, s: set<int>, ys: seq<int>, cap: nat)
    requires Distinct(q) && |q| <= cap && At(q, p, x, s) && x !in s && |s| < cap
    requires forall y :: y in ys ==> y in s || y == x
    ensures x in PushAll(q, ys, cap)
    decreases |ys|
  {
    if ys != [] {
      var y, q' := ys[0], Push(q, ys[0], cap);
      assert y in ys;
      PushDistinct(q, y, cap);
      forall z | z in ys[1..] ensures z in s || z == x { assert z in ys; }
      if y in q || |q| < cap {
        StaysWithin(q', p, x, s, ys[1..], cap);
      } else {
        if p == 0 { TooMany(q, y, s, cap); }
        StaysWithin(q', p - 1, x, s, ys[1..], cap);
      }
    }
  }

  lemma TooMany(q: seq<int>, y: int, s: set<int>, cap: nat)
    requires Distinct(q) && |q| == cap > 0 && y !in q && y in s && forall k :: 0 < k < |q| ==> q[k] in s
    ensures cap <= |s|
  {
    forall z | z in q[1..] ensures z in s - {y} {
      var i :| 0 <= i < |q[1..]| && q[1..][i] == z;
      assert q[i + 1] == z;
    }
    DistinctCount(q[1..], s - {y});
  }

  /** A key that has just come stays as long as fewer than `cap` distinct others come after it. */
  lemma NewestStays(q: seq<int>, x: int, ys: seq<int>, cap: nat)
    requires Distinct(q) && 0 < |q| <= cap && q[|q| - 1] == x && |Elements(ys) - {x}| < cap
    ensures x in PushAll(q, ys, cap)
  {
    StaysWithin(q, |q| - 1, x, Elements(ys) - {x}, ys, cap);
  }

  /** Exactly: it stays until it has missed as many keys as there were places in front of it or free. */
  lemma {:induction false} StaysExactly(q: seq<int>, p: nat, x: int, ys: seq<int>, cap: nat)
    requires Distinct(q) && p < |q| <= cap && q[p] == x && x !in ys
    ensures x in PushAll(q, ys, cap) <==> Misses(q, ys, cap) <= cap - |q| + p
    decreases |ys|
  {
    if ys != [] {
      var y, q' := ys[0], Push(q, ys[0], cap);
      PushDistinct(q, y, cap);
      if y in q {
        StaysExactly(q, p, x, ys[1..], cap);
      } else if |q| < cap {
        StaysExactly(q', p, x, ys[1..], cap);
      } else if p > 0 {
        StaysExactly(q', p - 1, x, ys[1..], cap);
      } else {
        forall i | 0 <= i < |q'| ensures q'[i] != x {
          if i < |q| - 1 { assert q'[i] == q[i + 1]; }
        }
        StaysOut(q', x, ys[1..], cap);
      }
    }
  }

  lemma {:induction false} StaysOut(q: seq<int>, x: int, ys: seq<int>, cap: nat)
    requires x !in q && x !in ys
    ensures x !in PushAll(q, ys, cap)
    decreases |ys|
  {
    if ys != [] {
      assert ys[0] in ys;
      StaysOut(Push(q, ys[0], cap), x, ys[1..], cap);
    }
  }

  /** Distinct new keys all miss. */
  lemma {:induction false} NewMisses(q: seq<int>, ys: seq<int>, cap: nat)
    requires Distinct(ys) && forall i :: 0 <= i < |ys| ==> ys[i] !in q
    ensures Misses(q, ys, cap) == |ys|
    decreases |ys|
  {
    if ys != [] {
      var q' := Push(q, ys[0], cap);
      forall i | 0 <= i < |ys| - 1 ensures ys[1..][i] !in q' {
        assert ys[1..][i] == ys[i + 1] && ys[0] != ys[i + 1];
        forall k | 0 <= k < |q'| ensures q'[k] != ys[i + 1] {
          if k < |q'| - 1 && |q'| <= |q| { assert q'[k] == q[k + 1]; }
        }
      }
      NewMisses(q', ys[1..], cap);
    }
  }
}
