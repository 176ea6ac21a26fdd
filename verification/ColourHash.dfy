/** What the hash of a frame notices: every change of one channel of one pixel. */
module ColourHash {
  import opened Common
  import opened ColourPixels
  import opened ColourShim

  // ---------------------------------------------------------------- nothing is lost in one step

  lemma AddNotices(a: Sum, x: Sum, y: Sum)
    ensures x != y ==> Add(a, x) != Add(a, y) && Add(x, a) != Add(y, a)
  {
  }

  /** A factor with an inverse modulo 2^32 can be undone. */
  lemma Invertible(x: Sum, y: Sum, k: Sum, inverse: Sum, q: nat)
    requires k * inverse == 1 + WORD * q && Mul(x, k) == Mul(y, k)
    ensures x == y
  {
    var t := x * k / WORD - y * k / WORD;
    assert (x - y) * k == WORD * t;
    var d := t * inverse - (x - y) * q;
    calc {
      x - y;
      (x - y) * (1 + WORD * q) - (x - y) * (WORD * q);
      (x - y) * (k * inverse) - (x - y) * (WORD * q);
      WORD * t * inverse - (x - y) * (WORD * q);
      WORD * d;
    }
  }

  /** The factors are odd, and so have one. */
  lemma OddFactors(x: Sum, y: Sum)
    ensures x != y ==> Mul(x, 2654435761) != Mul(y, 2654435761) && Mul(x, 2246822519) != Mul(y, 2246822519)
    ensures x != y ==> Mul(x, 3266489917) != Mul(y, 3266489917) && Mul(x, 668265263) != Mul(y, 668265263) && Mul(x, 1) != Mul(y, 1)
  {
    hide Mul;
    if Mul(x, 2654435761) == Mul(y, 2654435761) { Invertible(x, y, 2654435761, 0x0E8B_2F51, 2654435761 * 0x0E8B_2F51 / WORD); }
    if Mul(x, 2246822519) == Mul(y, 2246822519) { Invertible(x, y, 2246822519, 0xB6C9_2F47, 2246822519 * 0xB6C9_2F47 / WORD); }
    if Mul(x, 3266489917) == Mul(y, 3266489917) { Invertible(x, y, 3266489917, 0xA89E_D915, 3266489917 * 0xA89E_D915 / WORD); }
    if Mul(x, 668265263) == Mul(y, 668265263) { Invertible(x, y, 668265263, 0xA0FE_3BCF, 668265263 * 0xA0FE_3BCF / WORD); }
    if Mul(x, 1) == Mul(y, 1) { Invertible(x, y, 1, 1, 0); }
  }

  lemma TailedNotices(h: Sum, k: Sum, v: Sum, w: Sum)
    ensures v != w ==> Tailed(h, v) != Tailed(h, w)
    ensures h != k ==> Tailed(h, v) != Tailed(k, v)
  {
    hide Add, Mul;
    AddNotices(Mul(h, 2654435761), v, w);
    OddFactors(h, k);
    AddNotices(v, Mul(h, 2654435761), Mul(k, 2654435761));
  }

  /** Two sums that differ in one place stay different whatever is added on the right. */
  lemma LaneRest(x: Sum, y: Sum, a: Sum, b: Sum, c: Sum)
    requires x != y
    ensures Add(x, c) != Add(y, c) && Add(Add(x, b), c) != Add(Add(y, b), c)
    ensures Add(Add(Add(x, a), b), c) != Add(Add(Add(y, a), b), c)
  {
    hide Add;
    AddNotices(c, x, y);
    AddNotices(b, x, y);
    AddNotices(c, Add(x, b), Add(y, b));
    AddNotices(a, x, y);
    AddNotices(b, Add(x, a), Add(y, a));
    AddNotices(c, Add(Add(x, a), b), Add(Add(y, a), b));
  }

  lemma LaneNoticesAcc(a: Sum, b: Sum, w0: Sum, w1: Sum, w2: Sum, w3: Sum)
    requires a != b
    ensures LaneSum(a, w0, w1, w2, w3) != LaneSum(b, w0, w1, w2, w3)
  {
    hide Add, Mul;
    OddFactors(a, b);
    AddNotices(Mul(w0, K0), Mul(a, C), Mul(b, C));
    LaneRest(Add(Mul(a, C), Mul(w0, K0)), Add(Mul(b, C), Mul(w0, K0)), Mul(w1, K1), Mul(w2, K2), Mul(w3, K3));
  }

  lemma LaneNotices0(acc: Sum, a: Sum, b: Sum, w1: Sum, w2: Sum, w3: Sum)
    requires a != b
    ensures LaneSum(acc, a, w1, w2, w3) != LaneSum(acc, b, w1, w2, w3)
  {
    hide Add, Mul;
    OddFactors(a, b);
    AddNotices(Mul(acc, C), Mul(a, K0), Mul(b, K0));
    LaneRest(Add(Mul(acc, C), Mul(a, K0)), Add(Mul(acc, C), Mul(b, K0)), Mul(w1, K1), Mul(w2, K2), Mul(w3, K3));
  }

  lemma LaneNotices1(acc: Sum, w0: Sum, a: Sum, b: Sum, w2: Sum, w3: Sum)
    requires a != b
    ensures LaneSum(acc, w0, a, w2, w3) != LaneSum(acc, w0, b, w2, w3)
  {
    hide Add, Mul;
    var h := Add(Mul(acc, C), Mul(w0, K0));
    OddFactors(a, b);
    AddNotices(h, Mul(a, K1), Mul(b, K1));
    LaneRest(Add(h, Mul(a, K1)), Add(h, Mul(b, K1)), 0, Mul(w2, K2), Mul(w3, K3));
  }

  lemma LaneNotices2(acc: Sum, w0: Sum, w1: Sum, a: Sum, b: Sum, w3: Sum)
    requires a != b
    ensures LaneSum(acc, w0, w1, a, w3) != LaneSum(acc, w0, w1, b, w3)
  {
    hide Add, Mul;
    var h := Add(Add(Mul(acc, C), Mul(w0, K0)), Mul(w1, K1));
    OddFactors(a, b);
    AddNotices(h, Mul(a, K2), Mul(b, K2));
    LaneRest(Add(h, Mul(a, K2)), Add(h, Mul(b, K2)), 0, 0, Mul(w3, K3));
  }

  lemma LaneNotices3(acc: Sum, w0: Sum, w1: Sum, w2: Sum, a: Sum, b: Sum)
    requires a != b
    ensures LaneSum(acc, w0, w1, w2, a) != LaneSum(acc, w0, w1, w2, b)
  {
    hide Add, Mul;
    OddFactors(a, b);
    AddNotices(Add(Add(Add(Mul(acc, C), Mul(w0, K0)), Mul(w1, K1)), Mul(w2, K2)), Mul(a, K3), Mul(b, K3));
  }

  /** One lane of two accumulators differs and the others do not. */
  predicate OneLane(x: Lanes, y: Lanes) {
    || (x.l0 != y.l0 && x.l1 == y.l1 && x.l2 == y.l2 && x.l3 == y.l3)
    || (x.l0 == y.l0 && x.l1 != y.l1 && x.l2 == y.l2 && x.l3 == y.l3)
    || (x.l0 == y.l0 && x.l1 == y.l1 && x.l2 != y.l2 && x.l3 == y.l3)
    || (x.l0 == y.l0 && x.l1 == y.l1 && x.l2 == y.l2 && x.l3 != y.l3)
  }

  lemma CombineNotices(x: Lanes, y: Lanes)
    requires OneLane(x, y)
    ensures Combine(x) != Combine(y)
  {
    hide Add, Mul;
    var m1, m2, m3 := Mul(x.l1, 2246822519), Mul(x.l2, 3266489917), Mul(x.l3, 668265263);
    var n0, n1, n2, n3 := Mul(y.l0, 1), Mul(y.l1, 2246822519), Mul(y.l2, 3266489917), Mul(y.l3, 668265263);
    OddFactors(x.l0, y.l0);
    OddFactors(x.l1, y.l1);
    OddFactors(x.l2, y.l2);
    OddFactors(x.l3, y.l3);
    if x.l0 != y.l0 {
      LaneRest(Mul(x.l0, 1), n0, m1, m2, m3);
    } else if x.l1 != y.l1 {
      AddNotices(n0, m1, n1);
      LaneRest(Add(n0, m1), Add(n0, n1), 0, m2, m3);
    } else if x.l2 != y.l2 {
      AddNotices(Add(n0, n1), m2, n2);
      LaneRest(Add(Add(n0, n1), m2), Add(Add(n0, n1), n2), 0, 0, m3);
    } else {
      AddNotices(Add(Add(n0, n1), n2), m3, n3);
    }
  }

  // ---------------------------------------------------------------- one channel of one pixel

  /** The pixels differ in one channel and no other. */
  predicate OneChannel(p: Pixel, q: Pixel) {
    || (p.r != q.r && p.g == q.g && p.b == q.b && p.a == q.a)
    || (p.r == q.r && p.g != q.g && p.b == q.b && p.a == q.a)
    || (p.r == q.r && p.g == q.g && p.b != q.b && p.a == q.a)
    || (p.r == q.r && p.g == q.g && p.b == q.b && p.a != q.a)
  }

  lemma SameWord(x: bv32)
    ensures (x as nat) as bv32 == x
  {
  }

  lemma PackNotices(p: Pixel, q: Pixel)
    requires p != q
    ensures Word4(p) != Word4(q)
  {
    hide Pack, Unpack;
    Unpacked(p);
    Unpacked(q);
    SameWord(Pack(p));
    SameWord(Pack(q));
  }

  function Get(p: Pixel, c: nat): Channel { if c == 0 then p.r else if c == 1 then p.g else if c == 2 then p.b else p.a }

  /** The pixels differ in the chosen channel and no other. */
  predicate Changed(p: Pixel, q: Pixel, c: nat) {
    forall d: nat :: d < 4 ==> (Get(p, d) == Get(q, d) <==> d != c)
  }

  lemma WhichChannel(p: Pixel, q: Pixel) returns (c: nat)
    requires OneChannel(p, q)
    ensures c < 4 && Changed(p, q, c)
  {
    c := if p.r != q.r then 0 else if p.g != q.g then 1 else if p.b != q.b then 2 else 3;
  }

  /** One plane of four pixels */
  function Plane(p: Pixel, q: Pixel, u: Pixel, v: Pixel, c: nat): Pixel {
    Pixel(Get(p, c), Get(q, c), Get(u, c), Get(v, c))
  }

  predicate OneOfFour(p: Pixel, q: Pixel, u: Pixel, v: Pixel, p': Pixel, q': Pixel, u': Pixel, v': Pixel, c: nat) {
    || (Changed(p, p', c) && q == q' && u == u' && v == v') || (p == p' && Changed(q, q', c) && u == u' && v == v')
    || (p == p' && q == q' && Changed(u, u', c) && v == v') || (p == p' && q == q' && u == u' && Changed(v, v', c))
  }

  lemma OnePlane(p: Pixel, q: Pixel, u: Pixel, v: Pixel, p': Pixel, q': Pixel, u': Pixel, v': Pixel, c: nat, d: nat)
    requires c < 4 && d < 4 && OneOfFour(p, q, u, v, p', q', u', v', c)
    ensures Plane(p, q, u, v, d) == Plane(p', q', u', v', d) <==> d != c
  {
    hide Get;
  }

  /** Four pixels of which one changes in one channel change one of the four words of the lane. */
  lemma FourNotice(acc: Sum, p: Pixel, q: Pixel, u: Pixel, v: Pixel, p': Pixel, q': Pixel, u': Pixel, v': Pixel, c: nat)
    requires c < 4 && OneOfFour(p, q, u, v, p', q', u', v', c)
    ensures FourStep(acc, p, q, u, v) != FourStep(acc, p', q', u', v')
  {
    hide LaneSum, Word4, OneOfFour, Plane;
    FourPlanes(acc, p, q, u, v);
    FourPlanes(acc, p', q', u', v');
    var r, g, b, a := Plane(p, q, u, v, 0), Plane(p, q, u, v, 1), Plane(p, q, u, v, 2), Plane(p, q, u, v, 3);
    var r', g', b', a' := Plane(p', q', u', v', 0), Plane(p', q', u', v', 1), Plane(p', q', u', v', 2), Plane(p', q', u', v', 3);
    OnePlane(p, q, u, v, p', q', u', v', c, 0);
    OnePlane(p, q, u, v, p', q', u', v', c, 1);
    OnePlane(p, q, u, v, p', q', u', v', c, 2);
    OnePlane(p, q, u, v, p', q', u', v', c, 3);
    if c == 0 {
      PackNotices(r, r');
      LaneNotices0(acc, Word4(r), Word4(r'), Word4(g), Word4(b), Word4(a));
    } else if c == 1 {
      PackNotices(g, g');
      LaneNotices1(acc, Word4(r), Word4(g), Word4(g'), Word4(b), Word4(a));
    } else if c == 2 {
      PackNotices(b, b');
      LaneNotices2(acc, Word4(r), Word4(g), Word4(b), Word4(b'), Word4(a));
    } else {
      PackNotices(a, a');
      LaneNotices3(acc, Word4(r), Word4(g), Word4(b), Word4(a), Word4(a'));
    }
  }

  lemma FourPlanes(acc: Sum, p: Pixel, q: Pixel, u: Pixel, v: Pixel)
    ensures FourStep(acc, p, q, u, v) ==
      LaneSum(acc, Word4(Plane(p, q, u, v, 0)), Word4(Plane(p, q, u, v, 1)), Word4(Plane(p, q, u, v, 2)), Word4(Plane(p, q, u, v, 3)))
  {
    hide LaneSum, Word4;
  }

  lemma LaneNotices(acc: Sum, s: seq<Pixel>, t: seq<Pixel>, j: nat, k: nat)
    requires |s| == |t| == 16 && j < 4 && 4 * j <= k < 4 * j + 4 && t == s[k := t[k]] && OneChannel(s[k], t[k])
    ensures LaneStep(acc, s, j) != LaneStep(acc, t, j)
  {
    hide FourStep, OneChannel, Changed;
    var n, c := 4 * j, 0;
    c := WhichChannel(s[k], t[k]);
    FourNotice(acc, s[n], s[n + 1], s[n + 2], s[n + 3], t[n], t[n + 1], t[n + 2], t[n + 3], c);
  }

  lemma LaneSame(acc: Sum, s: seq<Pixel>, t: seq<Pixel>, j: nat)
    requires |s| == |t| == 16 && j < 4 && forall k :: 4 * j <= k < 4 * j + 4 ==> s[k] == t[k]
    ensures LaneStep(acc, s, j) == LaneStep(acc, t, j)
  {
    hide FourStep;
  }

  lemma BlockNotices(acc: Lanes, s: seq<Pixel>, t: seq<Pixel>, k: nat)
    requires |s| == |t| == 16 && k < 16 && t == s[k := t[k]] && OneChannel(s[k], t[k])
    ensures OneLane(BlockStep(acc, s), BlockStep(acc, t))
  {
    hide LaneStep, OneChannel;
    if k < 4 { LaneNotices(acc.l0, s, t, 0, k); } else { LaneSame(acc.l0, s, t, 0); }
    if 4 <= k < 8 { LaneNotices(acc.l1, s, t, 1, k); } else { LaneSame(acc.l1, s, t, 1); }
    if 8 <= k < 12 { LaneNotices(acc.l2, s, t, 2, k); } else { LaneSame(acc.l2, s, t, 2); }
    if 12 <= k { LaneNotices(acc.l3, s, t, 3, k); } else { LaneSame(acc.l3, s, t, 3); }
  }

  lemma LaneKeepsNotice(a: Sum, b: Sum, s: seq<Pixel>, j: nat)
    requires |s| == 16 && j < 4
    ensures a != b ==> LaneStep(a, s, j) != LaneStep(b, s, j)
  {
    hide LaneSum, Word4;
    var (p, q, u, v) := (s[4 * j], s[4 * j + 1], s[4 * j + 2], s[4 * j + 3]);
    if a != b {
      LaneNoticesAcc(a, b, Word4(Pixel(p.r, q.r, u.r, v.r)), Word4(Pixel(p.g, q.g, u.g, v.g)),
                     Word4(Pixel(p.b, q.b, u.b, v.b)), Word4(Pixel(p.a, q.a, u.a, v.a)));
    }
  }

  lemma BlockKeepsNotice(x: Lanes, y: Lanes, s: seq<Pixel>)
    requires |s| == 16 && OneLane(x, y)
    ensures OneLane(BlockStep(x, s), BlockStep(y, s))
  {
    hide LaneStep;
    LaneKeepsNotice(x.l0, y.l0, s, 0);
    LaneKeepsNotice(x.l1, y.l1, s, 1);
    LaneKeepsNotice(x.l2, y.l2, s, 2);
    LaneKeepsNotice(x.l3, y.l3, s, 3);
  }

  lemma {:induction false} BlocksNotice(s: seq<Pixel>, t: seq<Pixel>, k: nat)
    requires |s| == |t| && |s| % 16 == 0 && k < |s| && t == s[k := t[k]] && OneChannel(s[k], t[k])
    ensures OneLane(Blocks(s), Blocks(t))
    decreases |s|
  {
    hide BlockStep, OneLane, OneChannel;
    var m := |s| - 16;
    if k >= m {
      assert s[..m] == t[..m];
      BlockNotices(Blocks(s[..m]), s[m..], t[m..], k - m);
    } else {
      assert s[m..] == t[m..];
      BlocksNotice(s[..m], t[..m], k);
      BlockKeepsNotice(Blocks(s[..m]), Blocks(t[..m]), s[m..]);
    }
  }

  lemma {:induction false} TailKeepsNotice(h: Sum, k: Sum, s: seq<Pixel>)
    requires h != k
    ensures Tail(h, s) != Tail(k, s)
    decreases |s|
  {
    hide Tailed, Word4;
    if s != [] {
      var front, p := s[..|s| - 1], s[|s| - 1];
      TailKeepsNotice(h, k, front);
      TailedNotices(Tail(h, front), Tail(k, front), Word4(p), Word4(p));
    }
  }

  lemma {:induction false} TailNotices(h: Sum, s: seq<Pixel>, t: seq<Pixel>, k: nat)
    requires |s| == |t| && k < |s| && t == s[k := t[k]] && s[k] != t[k]
    ensures Tail(h, s) != Tail(h, t)
    decreases |s|
  {
    hide Tailed, Word4;
    var m := |s| - 1;
    if k == m {
      assert s[..m] == t[..m];
      PackNotices(s[m], t[m]);
      TailedNotices(Tail(h, s[..m]), Tail(h, s[..m]), Word4(s[m]), Word4(t[m]));
    } else {
      TailNotices(h, s[..m], t[..m], k);
      TailedNotices(Tail(h, s[..m]), Tail(h, t[..m]), Word4(s[m]), Word4(s[m]));
    }
  }

  /** A frame of any size in which one channel of one pixel changes has another hash. */
  lemma OneChannelShows(s: seq<Pixel>, k: nat, p: Pixel)
    requires k < |s| && OneChannel(s[k], p)
    ensures Hash(s[k := p]) != Hash(s)
  {
    hide Blocks, Combine, Tail, OneChannel, OneLane;
    var t, m := s[k := p], |s| - |s| % 16;
    if k < m {
      assert t[..m] == s[..m][k := p] && t[m..] == s[m..];
      BlocksNotice(s[..m], t[..m], k);
      CombineNotices(Blocks(s[..m]), Blocks(t[..m]));
      TailKeepsNotice(Combine(Blocks(s[..m])), Combine(Blocks(t[..m])), s[m..]);
    } else {
      Different(s[k], p);
      assert t[..m] == s[..m] && t[m..] == s[m..][k - m := p];
      TailNotices(Combine(Blocks(s[..m])), s[m..], t[m..], k - m);
    }
  }

  lemma Different(p: Pixel, q: Pixel)
    requires OneChannel(p, q)
    ensures p != q
  {
  }

  // ---------------------------------------------------------------- a frame and its hash

  lemma ShiftedUp(x: bv32, y: Channel)
    requires x < 0x100_0000
    ensures ((x << 8) | (y as bv32)) as nat == 256 * (x as nat) + y as nat
  {
  }

  lemma OneUnder(x: bv32, y: Channel)
    requires x < 0x100_0000
    ensures Under(x, y) as nat == 256 * (x as nat) + y as nat
  {
    ShiftedUp(x, y);
  }

  lemma UnderSmall(x: bv32, y: Channel)
    ensures (x < 0x100 ==> Under(x, y) < 0x1_0000) && (x < 0x1_0000 ==> Under(x, y) < 0x100_0000)
  {
  }

  lemma ByteSmall(y: Channel)
    ensures y as bv32 < 0x100 && (y as bv32) as nat == y as nat
  {
  }

  /** The bytes of a word, the lowest first */
  lemma WordIs(p: Pixel)
    ensures Word4(p) == p.r as nat + 0x100 * (p.g as nat) + 0x1_0000 * (p.b as nat) + 0x100_0000 * (p.a as nat)
  {
    hide Under;
    var a := p.a as bv32;
    ByteSmall(p.a);
    UnderSmall(a, p.b);
    UnderSmall(Under(a, p.b), p.g);
    assert a < 0x100_0000 && Under(a, p.b) < 0x100_0000;
    OneUnder(a, p.b);
    OneUnder(Under(a, p.b), p.g);
    OneUnder(Under(Under(a, p.b), p.g), p.r);
  }

  function Bytes4(b0: Channel, b1: Channel, b2: Channel, b3: Channel): nat {
    b0 as nat + 0x100 * (b1 as nat) + 0x1_0000 * (b2 as nat) + 0x100_0000 * (b3 as nat)
  }

  lemma FourIs(acc: Sum, p: Pixel, q: Pixel, u: Pixel, v: Pixel, w0: Sum, w1: Sum, w2: Sum, w3: Sum)
    requires w0 == Bytes4(p.r, q.r, u.r, v.r) && w1 == Bytes4(p.g, q.g, u.g, v.g)
    requires w2 == Bytes4(p.b, q.b, u.b, v.b) && w3 == Bytes4(p.a, q.a, u.a, v.a)
    ensures FourStep(acc, p, q, u, v) == LaneSum(acc, w0, w1, w2, w3)
  {
    hide LaneSum, Word4;
    WordIs(Pixel(p.r, q.r, u.r, v.r));
    WordIs(Pixel(p.g, q.g, u.g, v.g));
    WordIs(Pixel(p.b, q.b, u.b, v.b));
    WordIs(Pixel(p.a, q.a, u.a, v.a));
  }

  lemma Wrapped(x: nat, y: nat, q: nat, r: nat)
    ensures (x % WORD + y % WORD) % WORD == (x + y) % WORD
    ensures x == WORD * q + r && r < WORD ==> x % WORD == r
  {
  }

  /** Sums that wrap at each step and a sum that wraps at the end */
  lemma FiveSums(a: nat, b: nat, c: nat, d: nat, e: nat)
    ensures Add(Add(Add(Add(a % WORD, b % WORD), c % WORD), d % WORD), e % WORD) == (a + b + c + d + e) % WORD
  {
    hide Add;
    TwoSums(a, b);
    TwoSums(a + b, c);
    TwoSums(a + b + c, d);
    TwoSums(a + b + c + d, e);
  }

  lemma TwoSums(x: nat, y: nat)
    ensures Add(x % WORD, y % WORD) == (x + y) % WORD
  {
    Wrapped(x, y, 0, 0);
  }

  lemma LaneIs(acc: Sum, w0: Sum, w1: Sum, w2: Sum, w3: Sum, q: nat, r: Sum)
    requires acc * 2654435761 + w0 * 2654435761 + w1 * 2246822519 + w2 * 3266489917 + w3 * 668265263 == WORD * q + r
    ensures LaneSum(acc, w0, w1, w2, w3) == r
  {
    hide Add;
    FiveSums(acc * C, w0 * K0, w1 * K1, w2 * K2, w3 * K3);
    Wrapped(acc * C + w0 * K0 + w1 * K1 + w2 * K2 + w3 * K3, 0, q, r);
  }

  lemma CombineIs(l: Lanes, q: nat, r: Sum)
    requires l.l0 + l.l1 * 2246822519 + l.l2 * 3266489917 + l.l3 * 668265263 == WORD * q + r
    ensures Combine(l) == r
  {
    hide Add;
    TwoSums(l.l0 * 1, l.l1 * 2246822519);
    TwoSums(l.l0 * 1 + l.l1 * 2246822519, l.l2 * 3266489917);
    TwoSums(l.l0 * 1 + l.l1 * 2246822519 + l.l2 * 3266489917, l.l3 * 668265263);
    Wrapped(l.l0 + l.l1 * 2246822519 + l.l2 * 3266489917 + l.l3 * 668265263, 0, q, r);
  }

  lemma TailedIs(h: Sum, v: Sum, q: nat, r: Sum)
    requires h * 2654435761 + v == WORD * q + r
    ensures Tailed(h, v) == r
  {
    Wrapped(h * 2654435761, v, 0, 0);
    Wrapped(h * 2654435761 + v, 0, q, r);
  }

  /** Two blocks and a last pixel, in which no two bytes are alike */
  const FIRST: seq<Pixel> :=
    [Pixel(0, 64, 128, 192), Pixel(1, 65, 129, 193), Pixel(2, 66, 130, 194), Pixel(3, 67, 131, 195),
     Pixel(4, 68, 132, 196), Pixel(5, 69, 133, 197), Pixel(6, 70, 134, 198), Pixel(7, 71, 135, 199),
     Pixel(8, 72, 136, 200), Pixel(9, 73, 137, 201), Pixel(10, 74, 138, 202), Pixel(11, 75, 139, 203),
     Pixel(12, 76, 140, 204), Pixel(13, 77, 141, 205), Pixel(14, 78, 142, 206), Pixel(15, 79, 143, 207)]

  const SECOND: seq<Pixel> :=
    [Pixel(16, 80, 144, 208), Pixel(17, 81, 145, 209), Pixel(18, 82, 146, 210), Pixel(19, 83, 147, 211),
     Pixel(20, 84, 148, 212), Pixel(21, 85, 149, 213), Pixel(22, 86, 150, 214), Pixel(23, 87, 151, 215),
     Pixel(24, 88, 152, 216), Pixel(25, 89, 153, 217), Pixel(26, 90, 154, 218), Pixel(27, 91, 155, 219),
     Pixel(28, 92, 156, 220), Pixel(29, 93, 157, 221), Pixel(30, 94, 158, 222), Pixel(31, 95, 159, 223)]

  const LAST: Pixel := Pixel(32, 96, 160, 224)

  lemma FirstLanes()
    ensures LaneSum(0, 0x0302_0100, 0x4342_4140, 0x8382_8180, 0xC3C2_C1C0) == 0x6F9F_3380
    ensures LaneSum(0, 0x0706_0504, 0x4746_4544, 0x8786_8584, 0xC7C6_C5C4) == 0x1C10_F9D0
    ensures LaneSum(0, 0x0B0A_0908, 0x4B4A_4948, 0x8B8A_8988, 0xCBCA_C9C8) == 0xC882_C020
    ensures LaneSum(0, 0x0F0E_0D0C, 0x4F4E_4D4C, 0x8F8E_8D8C, 0xCFCE_CDCC) == 0x74F4_8670
  {
    hide LaneSum;
    LaneIs(0, 0x0302_0100, 0x4342_4140, 0x8382_8180, 0xC3C2_C1C0, 2810539883, 0x6F9F_3380);
    LaneIs(0, 0x0706_0504, 0x4746_4544, 0x8786_8584, 0xC7C6_C5C4, 2949144016, 0x1C10_F9D0);
    LaneIs(0, 0x0B0A_0908, 0x4B4A_4948, 0x8B8A_8988, 0xCBCA_C9C8, 3087748148, 0xC882_C020);
    LaneIs(0, 0x0F0E_0D0C, 0x4F4E_4D4C, 0x8F8E_8D8C, 0xCFCE_CDCC, 3226352281, 0x74F4_8670);
  }

  lemma SecondLanes()
    ensures LaneSum(0x6F9F_3380, 0x1312_1110, 0x5352_5150, 0x9392_9190, 0xD3D2_D1D0) == 0x9E50_6840
    ensures LaneSum(0x1C10_F9D0, 0x1716_1514, 0x5756_5554, 0x9796_9594, 0xD7D6_D5D4) == 0x4758_1BE0
    ensures LaneSum(0xC882_C020, 0x1B1A_1918, 0x5B5A_5958, 0x9B9A_9998, 0xDBDA_D9D8) == 0xF05F_CF80
    ensures LaneSum(0x74F4_8670, 0x1F1E_1D1C, 0x5F5E_5D5C, 0x9F9E_9D9C, 0xDFDE_DDDC) == 0x9967_8320
  {
    hide LaneSum;
    LaneIs(0x6F9F_3380, 0x1312_1110, 0x5352_5150, 0x9392_9190, 0xD3D2_D1D0, 4522351370, 0x9E50_6840);
    LaneIs(0x1C10_F9D0, 0x1716_1514, 0x5756_5554, 0x9796_9594, 0xD7D6_D5D4, 3794577038, 0x4758_1BE0);
    LaneIs(0xC882_C020, 0x1B1A_1918, 0x5B5A_5958, 0x9B9A_9998, 0xDBDA_D9D8, 5721238466, 0xF05F_CF80);
    LaneIs(0x74F4_8670, 0x1F1E_1D1C, 0x5F5E_5D5C, 0x9F9E_9D9C, 0xDFDE_DDDC, 4993464134, 0x9967_8320);
  }

  lemma FirstBlock(s: seq<Pixel>)
    requires s == FIRST
    ensures BlockStep(Lanes(0, 0, 0, 0), s) == Lanes(0x6F9F_3380, 0x1C10_F9D0, 0xC882_C020, 0x74F4_8670)
  {
    hide LaneSum, FourStep;
    FourIs(0, s[0], s[1], s[2], s[3], 0x0302_0100, 0x4342_4140, 0x8382_8180, 0xC3C2_C1C0);
    FourIs(0, s[4], s[5], s[6], s[7], 0x0706_0504, 0x4746_4544, 0x8786_8584, 0xC7C6_C5C4);
    FourIs(0, s[8], s[9], s[10], s[11], 0x0B0A_0908, 0x4B4A_4948, 0x8B8A_8988, 0xCBCA_C9C8);
    FourIs(0, s[12], s[13], s[14], s[15], 0x0F0E_0D0C, 0x4F4E_4D4C, 0x8F8E_8D8C, 0xCFCE_CDCC);
    FirstLanes();
  }

  lemma SecondBlock(s: seq<Pixel>)
    requires s == SECOND
    ensures BlockStep(Lanes(0x6F9F_3380, 0x1C10_F9D0, 0xC882_C020, 0x74F4_8670), s) == Lanes(0x9E50_6840, 0x4758_1BE0, 0xF05F_CF80, 0x9967_8320)
  {
    hide LaneSum, FourStep;
    FourIs(0x6F9F_3380, s[0], s[1], s[2], s[3], 0x1312_1110, 0x5352_5150, 0x9392_9190, 0xD3D2_D1D0);
    FourIs(0x1C10_F9D0, s[4], s[5], s[6], s[7], 0x1716_1514, 0x5756_5554, 0x9796_9594, 0xD7D6_D5D4);
    FourIs(0xC882_C020, s[8], s[9], s[10], s[11], 0x1B1A_1918, 0x5B5A_5958, 0x9B9A_9998, 0xDBDA_D9D8);
    FourIs(0x74F4_8670, s[12], s[13], s[14], s[15], 0x1F1E_1D1C, 0x5F5E_5D5C, 0x9F9E_9D9C, 0xDFDE_DDDC);
    SecondLanes();
  }

  /** The hash of those 33 pixels, as the arithmetic of the source gives it */
  lemma HashExample()
    ensures Hash(FIRST + SECOND + [LAST]) == 0xB106_55E0
  {
    hide BlockStep, Combine, Tailed, Word4;
    var s := FIRST + SECOND + [LAST];
    assert s[..32] == FIRST + SECOND && s[32..] == [LAST] && [LAST][..0] == [];
    assert (FIRST + SECOND)[..16] == FIRST && (FIRST + SECOND)[16..] == SECOND && FIRST[..0] == [] && FIRST[0..] == FIRST;
    FirstBlock(FIRST);
    SecondBlock(SECOND);
    assert Blocks(FIRST) == BlockStep(Blocks(FIRST[..0]), FIRST);
    assert Blocks(FIRST + SECOND) == BlockStep(Blocks(FIRST), SECOND);
    LastSteps();
    WordIs(LAST);
    assert Tail(0x97A1_01C0, [LAST]) == Tailed(Tail(0x97A1_01C0, []), Word4(LAST));
  }

  lemma LastSteps()
    ensures Combine(Lanes(0x9E50_6840, 0x4758_1BE0, 0xF05F_CF80, 0x9967_8320)) == 0x97A1_01C0 && Tailed(0x97A1_01C0, 0xE0A0_6020) == 0xB106_55E0
  {
    hide Combine, Tailed;
    CombineIs(Lanes(0x9E50_6840, 0x4758_1BE0, 0xF05F_CF80, 0x9967_8320), 4093721058, 0x97A1_01C0);
    TailedIs(0x97A1_01C0, 0xE0A0_6020, 1572223680, 0xB106_55E0);
  }

  // ---------------------------------------------------------------- what the cache makes of it

  /** A buffer presented and then changed in one channel of one pixel is turned by its next present, if
      its descriptor has kept its slot: no such redrawing goes unnoticed. */
  lemma RedrawnTurned(m: Marks, bufs: Buffers, fd: int, i: nat, p: Pixel)
    requires MarksOk(m) && fd > 0 && Settled(m, bufs, fd) && i < |bufs[fd]| && OneChannel(bufs[fd][i], p)
    ensures Presented(m, fd, bufs[fd][i := p]).1 == AllTurned(bufs[fd][i := p])
  {
    hide Hash, AllTurned;
    OneChannelShows(bufs[fd], i, p);
    PresentedExactly(m, fd, bufs[fd][i := p]);
  }
}
