/** The table-driven CRC-32 of the framebuffer dump, against the bit-at-a-time definition of section 8 of
    RFC 1952. */
module Crc32 {

  type Byte = bv8

  const POLY: bv32 := 0xEDB8_8320

  const INIT: bv32 := 0xFFFF_FFFF

  const BITS: nat := 8

  /** One bit of the reflected division. */
  function Shift(c: bv32): bv32 {
    if c & 1 == 1 then POLY ^ (c >> 1) else c >> 1
  }

  function Iterate<T>(f: T -> T, x: T, n: nat): T
    decreases n, x
  {
    if n == 0 then x else Iterate(f, f(x), n - 1)
  }

  function Shifts(c: bv32, n: nat): bv32 {
    Iterate(Shift, c, n)
  }

  /** The reference: each byte goes into the low end, and eight bits are divided out. */
  function Update(c: bv32, data: seq<Byte>): bv32
    decreases |data|
  {
    if data == [] then c else Update(Shifts(Mix(c, data[0]), BITS), data[1..])
  }

  function Crc(data: seq<Byte>): bv32 {
    Update(INIT, data) ^ 0xFFFF_FFFF
  }

  // ---------------------------------------------------------------- linearity

  lemma XorShift(a: bv32, b: bv32)
    ensures (a ^ b) >> 1 == (a >> 1) ^ (b >> 1)
    ensures (a ^ b) & 1 == (a & 1) ^ (b & 1)
    ensures a & 1 == 0 || a & 1 == 1
  {
  }

  lemma XorCancel(p: bv32, x: bv32, y: bv32)
    ensures (p ^ x) ^ y == p ^ (x ^ y) && x ^ (p ^ y) == p ^ (x ^ y) && (p ^ x) ^ (p ^ y) == x ^ y
  {
  }

  lemma ShiftXor(a: bv32, b: bv32)
    ensures Shift(a ^ b) == Shift(a) ^ Shift(b)
  {
    XorShift(a, b);
    XorShift(b, a);
    XorCancel(POLY, a >> 1, b >> 1);
    if a & 1 == 1 {
      if b & 1 == 1 { OneOne(); }
    }
  }

  lemma OneOne()
    ensures (1 as bv32) ^ 1 == 0 && (1 as bv32) ^ 0 == 1 && (0 as bv32) ^ 1 == 1 && (0 as bv32) ^ 0 == 0
  {
  }

  /** Iterating a homomorphism gives a homomorphism. */
  lemma {:induction false} IterateHom<T(!new)>(f: T -> T, op: (T, T) -> T, a: T, b: T, n: nat)
    requires forall x, y :: f(op(x, y)) == op(f(x), f(y))
    ensures Iterate(f, op(a, b), n) == op(Iterate(f, a, n), Iterate(f, b, n))
    decreases n
  {
    if n > 0 { IterateHom(f, op, f(a), f(b), n - 1); }
  }

  function Xor(a: bv32, b: bv32): bv32 { a ^ b }

  lemma ShiftsXor(a: bv32, b: bv32, n: nat)
    ensures Shifts(Xor(a, b), n) == Xor(Shifts(a, n), Shifts(b, n))
  {
    forall x: bv32, y: bv32 ensures Shift(Xor(x, y)) == Xor(Shift(x), Shift(y)) { ShiftXor(x, y); }
    IterateHom(Shift, Xor, a, b, n);
  }

  lemma LowZeros(a: bv32)
    requires a & 0xFF == 0
    ensures a & 1 == 0 && (a >> 1) & 1 == 0 && (a >> 2) & 1 == 0 && (a >> 3) & 1 == 0
    ensures (a >> 4) & 1 == 0 && (a >> 5) & 1 == 0 && (a >> 6) & 1 == 0 && (a >> 7) & 1 == 0
    ensures (a >> 1) >> 1 == a >> 2 && (a >> 2) >> 1 == a >> 3 && (a >> 3) >> 1 == a >> 4 && (a >> 4) >> 1 == a >> 5
    ensures (a >> 5) >> 1 == a >> 6 && (a >> 6) >> 1 == a >> 7 && (a >> 7) >> 1 == a >> 8
  {
  }

  lemma EightIterations<T>(f: T -> T, x: T)
    ensures Iterate(f, x, 8) == f(f(f(f(f(f(f(f(x))))))))
  {
    var y := f(f(f(f(x))));
    assert Iterate(f, x, 8) == Iterate(f, f(f(x)), 6) == Iterate(f, y, 4);
    assert Iterate(f, y, 4) == Iterate(f, f(f(y)), 2) == Iterate(f, f(f(f(f(y)))), 0);
  }

  /** Eight zero bits at the low end are shifted out without touching the polynomial. */
  lemma HighPart(a: bv32)
    requires a & 0xFF == 0
    ensures Shifts(a, 8) == a >> 8
  {
    LowZeros(a);
    EightIterations(Shift, a);
  }

  function Low(x: bv32): bv32 { x & 0xFF }
  function High(x: bv32): bv32 { x & 0xFFFF_FF00 }
  function Down(x: bv32): bv32 { x >> 8 }

  lemma SplitWord(x: bv32)
    ensures x == Xor(Low(x), High(x))
    ensures High(x) & 0xFF == 0 && Down(High(x)) == Down(x)
  {
  }

  lemma HighDown(x: bv32, n: nat)
    requires n == 8
    ensures Shifts(High(x), n) == Down(x)
  {
    SplitWord(x);
    HighPart(High(x));
  }

  lemma ByParts<T(!new)>(f: T -> T, op: (T, T) -> T, x: T, low: T, high: T, down: T, n: nat)
    requires forall x, y :: f(op(x, y)) == op(f(x), f(y))
    requires x == op(low, high) && Iterate(f, high, n) == down
    ensures Iterate(f, x, n) == op(Iterate(f, low, n), down)
  {
    IterateHom(f, op, low, high, n);
  }

  /** The table step: the low byte is looked up, the rest moves down. */
  lemma TableStep(x: bv32, n: nat)
    requires n == 8
    ensures Shifts(x, n) == Xor(Shifts(Low(x), n), Down(x))
  {
    SplitWord(x);
    HighDown(x, n);
    forall x: bv32, y: bv32 ensures Shift(Xor(x, y)) == Xor(Shift(x), Shift(y)) { ShiftXor(x, y); }
    ByParts(Shift, Xor, x, Low(x), High(x), Down(x), n);
  }

  // ---------------------------------------------------------------- the program

  function Wide(b: Byte): bv32 { b as bv32 }

  function Mix(c: bv32, b: Byte): bv32 { Xor(c, Wide(b)) }

  lemma LowByte(x: bv32)
    ensures (Low(x) as int) < 256 && ((Low(x) as int) as bv32) == Low(x)
  {
  }

  lemma MixDown(c: bv32, b: Byte)
    ensures Down(Mix(c, b)) == Down(c)
  {
  }

  /** What the table has to give for byte `b` */
  lemma NextByte(c: bv32, b: Byte, n: nat)
    requires n == 8
    ensures Shifts(Mix(c, b), n) == Xor(Shifts(Low(Mix(c, b)), n), Down(c))
  {
    TableStep(Mix(c, b), n);
    MixDown(c, b);
  }

  lemma {:induction false} UpdateAppend(c: bv32, p: seq<Byte>, q: seq<Byte>)
    ensures Update(c, p + q) == Update(Update(c, p), q)
    decreases |p|
  {
    if p == [] {
      assert p + q == q;
    } else {
      assert (p + q)[1..] == p[1..] + q;
      UpdateAppend(Shifts(Mix(c, p[0]), BITS), p[1..], q);
    }
  }

  /** The static table of crc32_of and its `ready` flag */
  class Table {
    const entries: array<bv32>
    var ready: bool

    ghost predicate Valid()
      reads this, entries
    {
      entries.Length == 256 && (ready ==> forall i :: 0 <= i < 256 ==> entries[i] == Shifts(i as bv32, BITS))
    }

    constructor ()
      ensures Valid() && fresh(entries)
    {
      entries := new bv32[256];
      ready := false;
    }

    method Entry(i: nat) returns (c: bv32)
      requires i < 256
      ensures c == Shifts(i as bv32, BITS)
    {
      c := i as bv32;
      for k := 0 to 8
        invariant Shifts(c, 8 - k) == Shifts(i as bv32, BITS)
      {
        c := if c & 1 == 1 then POLY ^ (c >> 1) else c >> 1;
      }
    }

    method Fill()
      requires Valid()
      modifies this, entries
      ensures Valid() && ready
    {
      for i := 0 to 256
        invariant forall j :: 0 <= j < i ==> entries[j] == Shifts(j as bv32, BITS)
      {
        var c := Entry(i);
        entries[i] := c;
      }
      ready := true;
    }

    method Lookup(c: bv32, b: Byte) returns (next: bv32)
      requires Valid() && ready
      ensures next == Shifts(Mix(c, b), BITS)
    {
      LowByte(Mix(c, b));
      NextByte(c, b, BITS);
      next := Xor(entries[Low(Mix(c, b)) as int], Down(c));
    }

    /** crc32_of */
    method Crc32Of(p: seq<Byte>) returns (c: bv32)
      requires Valid()
      modifies this, entries
      ensures Valid() && ready && c == Crc(p)
    {
      if !ready {
        Fill();
      }
      c := INIT;
      for i := 0 to |p|
        invariant Valid() && ready && c == Update(INIT, p[..i])
      {
        UpdateAppend(INIT, p[..i], [p[i]]);
        assert p[..i + 1] == p[..i] + [p[i]];
        c := Lookup(c, p[i]);
      }
      assert p[..|p|] == p;
      c := c ^ 0xFFFF_FFFF;
    }
  }

  // ---------------------------------------------------------------- what a checksum shows

  function Unshift(y: bv32): bv32 {
    if y & 0x8000_0000 != 0 then ((y ^ POLY) << 1) | 1 else y << 1
  }

  lemma UnshiftShift(c: bv32)
    ensures Unshift(Shift(c)) == c
  {
  }

  lemma {:induction false} IterateInjective<T(!new)>(f: T -> T, g: T -> T, a: T, b: T, n: nat)
    requires forall x :: g(f(x)) == x
    requires Iterate(f, a, n) == Iterate(f, b, n)
    ensures a == b
    decreases n
  {
    if n > 0 {
      IterateInjective(f, g, f(a), f(b), n - 1);
      assert g(f(a)) == a && g(f(b)) == b;
    }
  }

  lemma ShiftsInjective(a: bv32, b: bv32, n: nat)
    requires Shifts(a, n) == Shifts(b, n)
    ensures a == b
  {
    forall x: bv32 ensures Unshift(Shift(x)) == x { UnshiftShift(x); }
    IterateInjective(Shift, Unshift, a, b, n);
  }

  function Fold<T>(push: (T, Byte) -> T, zero: T, d: seq<Byte>): T
    decreases |d|
  {
    if d == [] then zero else push(Fold(push, zero, d[1..]), d[0])
  }

  function Up(x: bv32): bv32 { x << 8 }

  function Push(x: bv32, b: Byte): bv32 { Mix(Up(x), b) }

  /** Up to four bytes as a little-endian word */
  function Word(d: seq<Byte>): bv32 { Fold(Push, 0, d) }

  predicate Fits(x: bv32, bytes: nat) { Iterate(Down, x, bytes) == 0 }

  lemma DownZero()
    ensures Down(0) == 0
  {
  }

  lemma ThreeBytes(x: bv32)
    requires Down(Down(Down(x))) == 0
    ensures x & 0xFF00_0000 == 0
  {
  }

  lemma UpDownBits(x: bv32, b: Byte)
    requires x & 0xFF00_0000 == 0
    ensures (x << 8) >> 8 == x && (x << 8) & 0xFF == 0 && ((x << 8) ^ (b as bv32)) >> 8 == x
  {
  }

  lemma {:induction false} IterateFixed<T>(f: T -> T, x: T, n: nat)
    requires f(x) == x
    ensures Iterate(f, x, n) == x
    decreases n
  {
    if n > 0 { IterateFixed(f, x, n - 1); }
  }

  lemma FitsMore(x: bv32, bytes: nat)
    requires bytes <= 3 && Fits(x, bytes)
    ensures x & 0xFF00_0000 == 0
  {
    DownZero();
    IterateFixed(Down, 0 as bv32, 3 - bytes);
    IterateAdd(Down, x, bytes, 3 - bytes);
    ThreeIterations(Down, x, 3);
    ThreeBytes(x);
  }

  lemma ThreeIterations<T>(f: T -> T, x: T, n: nat)
    requires n == 3
    ensures Iterate(f, x, n) == f(f(f(x)))
  {
    assert Iterate(f, x, n) == Iterate(f, f(x), 2) == Iterate(f, f(f(x)), 1) == Iterate(f, f(f(f(x))), 0);
  }

  lemma PushDown(x: bv32, b: Byte)
    requires x & 0xFF00_0000 == 0
    ensures Down(Push(x, b)) == x
  {
    UpDownBits(x, b);
  }

  lemma {:induction false} WordFits(d: seq<Byte>)
    requires |d| <= 3
    ensures Fits(Word(d), |d|)
    decreases |d|
  {
    if d != [] {
      WordFits(d[1..]);
      FitsMore(Word(d[1..]), |d| - 1);
      PushDown(Word(d[1..]), d[0]);
    }
  }

  predicate Small(x: bv32) { x & 0xFF00_0000 == 0 }

  lemma WordSmall(d: seq<Byte>)
    requires |d| <= 3
    ensures Small(Word(d))
  {
    WordFits(d);
    FitsMore(Word(d), |d|);
  }

  lemma SamePush(x: bv32, y: bv32, a: Byte, b: Byte)
    requires Small(x) && Small(y) && Push(x, a) == Push(y, b)
    ensures x == y && a == b
  {
    PushDown(x, a);
    PushDown(y, b);
    SameLow(x << 8, a, b);
  }

  lemma SameLow(u: bv32, a: Byte, b: Byte)
    requires u ^ (a as bv32) == u ^ (b as bv32)
    ensures a == b
  {
  }

  lemma {:induction false} FoldInjective<T(!new)>(push: (T, Byte) -> T, zero: T, small: T -> bool, x: seq<Byte>, y: seq<Byte>)
    requires |x| == |y| <= 4 && Fold(push, zero, x) == Fold(push, zero, y)
    requires forall d: seq<Byte> :: |d| <= 3 ==> small(Fold(push, zero, d))
    requires forall u, v, a, b :: small(u) && small(v) && push(u, a) == push(v, b) ==> u == v && a == b
    ensures x == y
    decreases |x|
  {
    if x != [] {
      assert small(Fold(push, zero, x[1..])) && small(Fold(push, zero, y[1..]));
      var u, v, a, b := Fold(push, zero, x[1..]), Fold(push, zero, y[1..]), x[0], y[0];
      assert push(u, a) == push(v, b);
      assert u == v && a == b;
      FoldInjective(push, zero, small, x[1..], y[1..]);
      assert x == [x[0]] + x[1..] && y == [y[0]] + y[1..];
    }
  }

  lemma WordInjective(x: seq<Byte>, y: seq<Byte>)
    requires |x| == |y| <= 4 && Word(x) == Word(y)
    ensures x == y
  {
    forall d: seq<Byte> | |d| <= 3 ensures Small(Fold(Push, 0, d)) { WordSmall(d); }
    forall u, v, a, b | Small(u) && Small(v) && Push(u, a) == Push(v, b) ensures u == v && a == b {
      SamePush(u, v, a, b);
    }
    FoldInjective(Push, 0, Small, x, y);
  }

  lemma {:induction false} IterateAdd<T>(f: T -> T, x: T, m: nat, n: nat)
    ensures Iterate(f, x, m + n) == Iterate(f, Iterate(f, x, m), n)
    decreases m
  {
    if m > 0 { IterateAdd(f, f(x), m - 1, n); }
  }

  lemma UpOut(x: bv32, n: nat)
    requires n == 8 && Small(x)
    ensures Shifts(Up(x), n) == x
  {
    UpDownBits(x, 0);
    HighPart(Up(x));
  }

  lemma XorSwap(c: bv32, u: bv32, m: bv32)
    ensures Xor(c, Xor(u, m)) == Xor(Xor(c, m), u)
  {
  }

  lemma MixWord(c: bv32, x: bv32, b: Byte)
    ensures Xor(c, Push(x, b)) == Xor(Mix(c, b), Up(x))
  {
    XorSwap(c, Up(x), Wide(b));
  }

  lemma XorZero(c: bv32)
    ensures Xor(c, 0) == c
  {
  }

  /** Up to four bytes at a time, the checksum is one xor followed by plain division. */
  lemma {:induction false} WordAtOnce(c: bv32, d: seq<Byte>)
    requires |d| <= 4
    ensures Update(c, d) == Shifts(Xor(c, Word(d)), |d| * BITS)
    decreases |d|
  {
    if d == [] {
      XorZero(c);
    } else {
      var w, m, n := Word(d[1..]), Mix(c, d[0]), (|d| - 1) * BITS;
      WordAtOnce(Shifts(m, BITS), d[1..]);
      WordSmall(d[1..]);
      UpOut(w, BITS);
      MixWord(c, w, d[0]);
      ShiftsXor(m, Up(w), BITS);
      IterateAdd(Shift, Xor(m, Up(w)), BITS, n);
    }
  }

  lemma SameXor(c: bv32, x: bv32, y: bv32)
    requires Xor(c, x) == Xor(c, y)
    ensures x == y
  {
  }

  lemma MixInjective(c: bv32, d: bv32, b: Byte)
    requires Mix(c, b) == Mix(d, b)
    ensures c == d
  {
  }

  lemma {:induction false} UpdateInjective(c: bv32, d: bv32, q: seq<Byte>)
    requires Update(c, q) == Update(d, q)
    ensures c == d
    decreases |q|
  {
    if q != [] {
      UpdateInjective(Shifts(Mix(c, q[0]), BITS), Shifts(Mix(d, q[0]), BITS), q[1..]);
      ShiftsInjective(Mix(c, q[0]), Mix(d, q[0]), BITS);
      MixInjective(c, d, q[0]);
    }
  }

  /** A change confined to four neighbouring bytes always shows in the checksum. */
  lemma ShortChangesShow(p: seq<Byte>, x: seq<Byte>, y: seq<Byte>, q: seq<Byte>)
    requires |x| == |y| <= 4
    ensures Crc(p + x + q) == Crc(p + y + q) <==> x == y
  {
    if Crc(p + x + q) == Crc(p + y + q) {
      var c := Update(INIT, p);
      SameCrc(p + x + q, p + y + q);
      UpdateAppend(INIT, p + x, q);
      UpdateAppend(INIT, p + y, q);
      UpdateAppend(INIT, p, x);
      UpdateAppend(INIT, p, y);
      UpdateInjective(Update(c, x), Update(c, y), q);
      WordAtOnce(c, x);
      WordAtOnce(c, y);
      ShiftsInjective(Xor(c, Word(x)), Xor(c, Word(y)), |x| * BITS);
      SameXor(c, Word(x), Word(y));
      WordInjective(x, y);
    }
  }

  lemma SameCrc(p: seq<Byte>, q: seq<Byte>)
    requires Crc(p) == Crc(q)
    ensures Update(INIT, p) == Update(INIT, q)
  {
    XorCancel(0xFFFF_FFFF, Update(INIT, p), Update(INIT, q));
    SameXor(0xFFFF_FFFF, Update(INIT, p), Update(INIT, q));
  }

  // ---------------------------------------------------------------- the check value

  /** One byte, with every value on the way */
  lemma ByteOn(c: bv32, b: Byte, n: nat, x0: bv32, x1: bv32, x2: bv32, x3: bv32, x4: bv32, x5: bv32, x6: bv32, x7: bv32, x8: bv32)
    requires n == 8 && Mix(c, b) == x0 && Shift(x0) == x1 && Shift(x1) == x2 && Shift(x2) == x3 && Shift(x3) == x4
    requires Shift(x4) == x5 && Shift(x5) == x6 && Shift(x6) == x7 && Shift(x7) == x8
    ensures Shifts(Mix(c, b), n) == x8
  {
    hide Shift, Mix;
    EightIterations(Shift, x0);
  }

  lemma OneMore(c: bv32, p: seq<Byte>, b: Byte)
    ensures Update(c, p + [b]) == Shifts(Mix(Update(c, p), b), BITS)
  {
    hide Shifts, Mix;
    UpdateAppend(c, p, [b]);
    assert [b][1..] == [];
    assert Update(c, p + [b]) == Update(Update(c, p), [b]);
  }

  lemma FirstThree(c: bv32, p: seq<Byte>)
    requires Update(c, p) == 0xFFFF_FFFF
    ensures Update(c, p + [49] + [50] + [51]) == 0x77B7_9C2D
  {
    hide Update;
    OneMore(c, p, 49);
    ByteOn(0xFFFF_FFFF, 49, BITS, 0xFFFF_FFCE, 0x7FFF_FFE7, 0xD247_7CD3, 0x849B_3D49, 0xAFF5_1D84, 0x57FA_8EC2, 0x2BFD_4761, 0xF846_2090, 0x7C23_1048);
    OneMore(c, p + [49], 50);
    ByteOn(0x7C23_1048, 50, BITS, 0x7C23_107A, 0x3E11_883D, 0xF2B0_473E, 0x7958_239F, 0xD114_92EF, 0x8532_CA57, 0xAF21_E60B, 0xBA28_7025, 0xB0AC_BB32);
    OneMore(c, p + [49] + [50], 51);
    ByteOn(0xB0AC_BB32, 51, BITS, 0xB0AC_BB01, 0xB5EE_DEA0, 0x5AF7_6F50, 0x2D7B_B7A8, 0x16BD_DBD4, 0x0B5E_EDEA, 0x05AF_76F5, 0xEF6F_385A, 0x77B7_9C2D);
  }

  lemma MiddleThree(c: bv32, p: seq<Byte>)
    requires Update(c, p) == 0x77B7_9C2D
    ensures Update(c, p + [52] + [53] + [54]) == 0xF68D_2C9E
  {
    hide Update;
    OneMore(c, p, 52);
    ByteOn(0x77B7_9C2D, 52, BITS, 0x77B7_9C19, 0xD663_4D2C, 0x6B31_A696, 0x3598_D34B, 0xF774_EA85, 0x9602_F662, 0x4B01_7B31, 0xC838_3EB8, 0x641C_1F5C);
    OneMore(c, p + [52], 53);
    ByteOn(0x641C_1F5C, 53, BITS, 0x641C_1F69, 0xDFB6_8C94, 0x6FDB_464A, 0x37ED_A325, 0xF64E_52B2, 0x7B27_2959, 0xD02B_178C, 0x6815_8BC6, 0x340A_C5E3);
    OneMore(c, p + [52] + [53], 54);
    ByteOn(0x340A_C5E3, 54, BITS, 0x340A_C5D5, 0xF7BD_E1CA, 0x7BDE_F0E5, 0xD057_FB52, 0x682B_FDA9, 0xD9AD_7DF4, 0x6CD6_BEFA, 0x366B_5F7D, 0xF68D_2C9E);
  }

  lemma LastThree(c: bv32, p: seq<Byte>)
    requires Update(c, p) == 0xF68D_2C9E
    ensures Update(c, p + [55] + [56] + [57]) == 0x340B_C6D9
  {
    hide Update;
    OneMore(c, p, 55);
    ByteOn(0xF68D_2C9E, 55, BITS, 0xF68D_2CA9, 0x96FE_1574, 0x4B7F_0ABA, 0x25BF_855D, 0xFF67_418E, 0x7FB3_A0C7, 0xD261_5343, 0x8488_2A81, 0xAFFC_9660);
    OneMore(c, p + [55], 56);
    ByteOn(0xAFFC_9660, 56, BITS, 0xAFFC_9658, 0x57FE_4B2C, 0x2BFF_2596, 0x15FF_92CB, 0xE747_4A45, 0x9E1B_2602, 0x4F0D_9301, 0xCA3E_4AA0, 0x651F_2550);
    OneMore(c, p + [55] + [56], 57);
    ByteOn(0x651F_2550, 57, BITS, 0x651F_2569, 0xDF37_1194, 0x6F9B_88CA, 0x37CD_C465, 0xF65E_6112, 0x7B2F_3089, 0xD02F_1B64, 0x6817_8DB2, 0x340B_C6D9);
  }

  lemma NoBytes(c: bv32)
    ensures Update(c, []) == c
  {
  }

  lemma Finished(c: bv32)
    requires c == 0x340B_C6D9
    ensures c ^ 0xFFFF_FFFF == 0xCBF4_3926
  {
  }

  /** The check value of this CRC: that of the nine digits 1 to 9 */
  lemma CheckValue(data: seq<Byte>)
    requires data == [49, 50, 51, 52, 53, 54, 55, 56, 57]
    ensures Crc(data) == 0xCBF4_3926
  {
    hide Shifts, Update;
    NoBytes(INIT);
    FirstThree(INIT, []);
    MiddleThree(INIT, [] + [49] + [50] + [51]);
    LastThree(INIT, [] + [49] + [50] + [51] + [52] + [53] + [54]);
    assert data == [] + [49] + [50] + [51] + [52] + [53] + [54] + [55] + [56] + [57];
    Finished(Update(INIT, data));
  }
}
