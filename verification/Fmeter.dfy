/** The frequency meter of a cpuset: a decaying rate in fixed-point arithmetic. */
module Fmeter {

  const FM_COEF: int := 933
  const FM_MAXTICKS: int := 99
  const FM_MAXCNT: int := 1000000
  const FM_SCALE: int := 1000
  const INT_MAX: int := 0x7FFF_FFFF

  /** One idle tick. */
  function Decay(v: nat): (r: nat)
    ensures 1000 * r <= 933 * v < 1000 * r + 1000 && r <= v
  {
    FM_COEF * v / FM_SCALE
  }

  function Decays(v: nat, n: nat): (r: nat)
    ensures r <= v
    decreases v, n
  {
    if n == 0 then v else Decays(Decay(v), n - 1)
  }

  function Ticks(elapsed: nat): nat {
    if FM_MAXTICKS < elapsed then FM_MAXTICKS else elapsed
  }

  class Fmeter {
    var cnt: int
    var val: int
    var time: int

    predicate Valid()
      reads this
    {
      0 <= val <= 1000000 && 0 <= cnt <= 1000000
    }

    /** fmeter_init */
    constructor ()
      ensures Valid() && cnt == 0 && val == 0 && time == 0
    {
      cnt, val, time := 0, 0, 0;
    }

    /** The loop of fmeter_update; a negative count of ticks makes none. */
    method Tick(ticks: int)
      requires Valid()
      modifies this`val
      ensures 0 <= val <= old(val) && (ticks > 0 ==> val <= 933000)
      ensures val == Decays(old(val), if ticks > 0 then ticks else 0)
    {
      var left := ticks;
      while left > 0
        invariant ticks > 0 ==> 0 <= left <= ticks
        invariant 0 <= val <= old(val) && (left < ticks ==> val <= 933000)
        invariant Decays(val, if left > 0 then left else 0) == Decays(old(val), if ticks > 0 then ticks else 0)
      {
        left := left - 1;
        assert 0 <= FM_COEF * val <= INT_MAX;
        val := Decay(val);
      }
    }

    /** fmeter_update: each elapsed second is one tick, up to FM_MAXTICKS; then the counted events go in.
        No intermediate value leaves the range of a 32-bit int.  When the clock is set back there is no
        tick at all, and only then can the value leave its bounds. */
    method Update(now: int)
      requires Valid()
      modifies this
      ensures time == now && (now >= old(time) ==> Valid())
      ensures now == old(time) ==> val == old(val) && cnt == old(cnt)
      ensures now > old(time) ==> cnt == 0 && val == Decays(old(val), Ticks(now - old(time))) + 67 * old(cnt) / 1000
      ensures now < old(time) ==> cnt == 0 && val == old(val) + 67 * old(cnt) / 1000
    {
      var ticks := now - time;
      if ticks == 0 {
        return;
      }
      Tick(if FM_MAXTICKS < ticks then FM_MAXTICKS else ticks);
      time := now;
      assert 0 <= (FM_SCALE - FM_COEF) * cnt <= INT_MAX;
      val := val + (FM_SCALE - FM_COEF) * cnt / FM_SCALE;
      cnt := 0;
    }

    /** fmeter_markevent */
    method MarkEvent(now: int)
      requires Valid()
      modifies this
      ensures time == now && (now >= old(time) ==> Valid())
      ensures now == old(time) ==> val == old(val) && cnt == (if old(cnt) > 999000 then 1000000 else old(cnt) + 1000)
      ensures now > old(time) ==> cnt == 1000 && val == Decays(old(val), Ticks(now - old(time))) + 67 * old(cnt) / 1000
    {
      Update(now);
      assert cnt + FM_SCALE <= INT_MAX;
      cnt := if FM_MAXCNT < cnt + FM_SCALE then FM_MAXCNT else cnt + FM_SCALE;
    }

    /** fmeter_getrate.  Without events the rate is at least halved every ten seconds. */
    method GetRate(now: int) returns (rate: int)
      requires Valid()
      modifies this
      ensures time == now && rate == val && (now >= old(time) ==> Valid())
      ensures now >= old(time) && old(cnt) == 0 ==> rate == Read(old(val), now - old(time))
      ensures now >= old(time) + 10 && old(cnt) == 0 ==> 2 * rate <= old(val)
    {
      if now >= time + 10 {
        IdleHalves(val, Ticks(now - time));
      }
      Update(now);
      rate := val;
    }
  }

  lemma {:induction false} DecaysAdd(v: nat, a: nat, b: nat)
    ensures Decays(v, a + b) == Decays(Decays(v, a), b)
    decreases a
  {
    if a > 0 { DecaysAdd(Decay(v), a - 1, b); }
  }

  lemma FiveTicks(v: nat)
    ensures 10000 * Decays(v, 5) <= 7071 * v
  {
    var v1 := Decay(v);
    var v2 := Decay(v1);
    var v3 := Decay(v2);
    var v4 := Decay(v3);
    assert Decays(v, 5) == Decays(v1, 4) == Decays(v2, 3) == Decays(v3, 2) == Decays(v4, 1) == Decay(v4);
  }

  /** A half-life of at most ten seconds, rounding included. */
  lemma TenHalve(v: nat)
    ensures 2 * Decays(v, 10) <= v
  {
    DecaysAdd(v, 5, 5);
    FiveTicks(v);
    FiveTicks(Decays(v, 5));
  }

  lemma IdleHalves(v: nat, n: nat)
    requires n >= 10
    ensures 2 * Decays(v, n) <= v
  {
    DecaysAdd(v, 10, n - 10);
    TenHalve(v);
  }

  /** What one read after `n` idle seconds shows. */
  function Read(v: nat, n: nat): nat {
    Decays(v, Ticks(n))
  }

  /** Reading in the middle of an idle span changes nothing as long as the span is no longer than 99
      seconds. */
  lemma SplitSpan(v: nat, a: nat, b: nat)
    requires a + b <= FM_MAXTICKS
    ensures Read(Read(v, a), b) == Read(v, a + b)
  {
    DecaysAdd(v, a, b);
  }

  lemma {:induction false} FixedPoints(v: nat, n: nat)
    ensures n > 0 && Decays(v, n) == v ==> v == 0
    decreases n
  {
    if n > 0 && v > 0 { assert Decay(v) < v; }
  }

  lemma FurtherDecay(v: nat, a: nat, b: nat, n: nat)
    requires a + b > n
    ensures Decays(Decays(v, a), b) == Decays(v, n) <==> Decays(v, n) == 0
  {
    DecaysAdd(v, a, b);
    DecaysAdd(v, n, a + b - n);
    FixedPoints(Decays(v, n), a + b - n);
  }

  lemma {:induction false} DecaysMonotone(v: nat, w: nat, n: nat)
    requires v <= w
    ensures Decays(v, n) <= Decays(w, n)
    decreases n
  {
    if n > 0 { DecaysMonotone(Decay(v), Decay(w), n - 1); }
  }

  /** The largest value that has died out after FM_MAXTICKS ticks, that is 8.4 events per second */
  const DIES_OUT: nat := 8407

  lemma OneTick(v: nat, n: nat, x: nat)
    requires Decays(v, n) == x
    ensures Decays(v, n + 1) == Decay(x)
  {
    DecaysAdd(v, n, 1);
  }

  /** Eleven more ticks, with every value on the way */
  lemma Eleven(v: nat, n: nat, x0: nat, x1: nat, x2: nat, x3: nat, x4: nat, x5: nat, x6: nat, x7: nat, x8: nat, x9: nat,
               x10: nat, x11: nat)
    requires Decays(v, n) == x0 && Decay(x0) == x1 && Decay(x1) == x2 && Decay(x2) == x3 && Decay(x3) == x4
    requires Decay(x4) == x5 && Decay(x5) == x6 && Decay(x6) == x7 && Decay(x7) == x8 && Decay(x8) == x9
    requires Decay(x9) == x10 && Decay(x10) == x11
    ensures Decays(v, n + 11) == x11
  {
    hide Decays, Decay;
    OneTick(v, n, x0);
    OneTick(v, n + 1, x1);
    OneTick(v, n + 2, x2);
    OneTick(v, n + 3, x3);
    OneTick(v, n + 4, x4);
    OneTick(v, n + 5, x5);
    OneTick(v, n + 6, x6);
    OneTick(v, n + 7, x7);
    OneTick(v, n + 8, x8);
    OneTick(v, n + 9, x9);
    OneTick(v, n + 10, x10);
  }

  lemma NoTicks(v: nat)
    ensures Decays(v, 0) == v
  {
  }

  lemma DyingOutFirst(v: nat, n: nat)
    requires v == DIES_OUT && n == 55
    ensures Decays(v, n) == 178
  {
    hide Decays;
    NoTicks(v);
    Eleven(v, 0, 8407, 7843, 7317, 6826, 6368, 5941, 5542, 5170, 4823, 4499, 4197, 3915);
    Eleven(v, 11, 3915, 3652, 3407, 3178, 2965, 2766, 2580, 2407, 2245, 2094, 1953, 1822);
    Eleven(v, 22, 1822, 1699, 1585, 1478, 1378, 1285, 1198, 1117, 1042, 972, 906, 845);
    Eleven(v, 33, 845, 788, 735, 685, 639, 596, 556, 518, 483, 450, 419, 390);
    Eleven(v, 44, 390, 363, 338, 315, 293, 273, 254, 236, 220, 205, 191, 178);
  }

  lemma DyingOut(v: nat, n: nat)
    requires v == DIES_OUT && n == 99
    ensures Decays(v, n) == 0
  {
    hide Decays;
    DyingOutFirst(v, 55);
    Eleven(v, 55, 178, 166, 154, 143, 133, 124, 115, 107, 99, 92, 85, 79);
    Eleven(v, 66, 79, 73, 68, 63, 58, 54, 50, 46, 42, 39, 36, 33);
    Eleven(v, 77, 33, 30, 27, 25, 23, 21, 19, 17, 15, 13, 12, 11);
    Eleven(v, 88, 11, 10, 9, 8, 7, 6, 5, 4, 3, 2, 1, 0);
  }

  lemma LivingOnFirst(v: nat, n: nat)
    requires v == DIES_OUT + 1 && n == 55
    ensures Decays(v, n) == 179
  {
    hide Decays;
    NoTicks(v);
    Eleven(v, 0, 8408, 7844, 7318, 6827, 6369, 5942, 5543, 5171, 4824, 4500, 4198, 3916);
    Eleven(v, 11, 3916, 3653, 3408, 3179, 2966, 2767, 2581, 2408, 2246, 2095, 1954, 1823);
    Eleven(v, 22, 1823, 1700, 1586, 1479, 1379, 1286, 1199, 1118, 1043, 973, 907, 846);
    Eleven(v, 33, 846, 789, 736, 686, 640, 597, 557, 519, 484, 451, 420, 391);
    Eleven(v, 44, 391, 364, 339, 316, 294, 274, 255, 237, 221, 206, 192, 179);
  }

  lemma LivingOn(v: nat, n: nat)
    requires v == DIES_OUT + 1 && n == 99
    ensures Decays(v, n) == 1
  {
    hide Decays;
    LivingOnFirst(v, 55);
    Eleven(v, 55, 179, 167, 155, 144, 134, 125, 116, 108, 100, 93, 86, 80);
    Eleven(v, 66, 80, 74, 69, 64, 59, 55, 51, 47, 43, 40, 37, 34);
    Eleven(v, 77, 34, 31, 28, 26, 24, 22, 20, 18, 16, 14, 13, 12);
    Eleven(v, 88, 12, 11, 10, 9, 8, 7, 6, 5, 4, 3, 2, 1);
  }

  lemma DiesOutExactly(v: nat, n: nat)
    requires n == 99
    ensures Decays(v, n) == 0 <==> v <= DIES_OUT
  {
    DyingOut(DIES_OUT, n);
    LivingOn(DIES_OUT + 1, n);
    if v <= DIES_OUT { DecaysMonotone(v, DIES_OUT, n); } else { DecaysMonotone(DIES_OUT + 1, v, n); }
  }

  /** Longer spans: two reads decay further than one, unless the meter started low enough to have died out
      by then.  Only for such values is the level stable after FM_MAXTICKS ticks. */
  lemma LongSpan(v: nat, a: nat, b: nat)
    requires a > 0 && b > 0 && a + b > FM_MAXTICKS
    ensures Read(Read(v, a), b) == Read(v, a + b) <==> v <= DIES_OUT
  {
    FurtherDecay(v, Ticks(a), Ticks(b), Ticks(a + b));
    DiesOutExactly(v, Ticks(a + b));
  }

  /** The highest value the meter can have is still falling after FM_MAXTICKS ticks. */
  lemma UnstableExample()
    ensures Decays(1000000, 100) < Decays(1000000, 99)
    ensures Read(Read(1000000, 99), 1) != Read(1000000, 100)
  {
    DiesOutExactly(1000000, 99);
    DecaysAdd(1000000, 99, 1);
    FurtherDecay(1000000, 99, 1, 99);
    LongSpan(1000000, 99, 1);
  }
}
