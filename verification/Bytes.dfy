/** Byte strings the way the boot image tool handles them: clamped slices, slice assignment, little-endian
    words and hexadecimal fields. */
module Bytes {
  import opened Common

  type Byte = x: int | 0 <= x < 256

  /** s[lo:hi] of Python, for bounds that are not negative */
  function Slice(s: seq<Byte>, lo: nat, hi: nat): seq<Byte> {
    if lo >= |s| || hi <= lo then [] else if hi <= |s| then s[lo..hi] else s[lo..]
  }

  /** The place in a string of `n` bytes that a bound of a Python slice stands for: a negative one counts from
      the end. */
  function Bound(i: int, n: nat): nat { if i >= 0 then i else if i + n >= 0 then i + n else 0 }

  /** s[lo:hi] of Python, for any bounds */
  function PySlice(s: seq<Byte>, lo: int, hi: int): seq<Byte> { Slice(s, Bound(lo, |s|), Bound(hi, |s|)) }

  /** Slices as Python has them: bounds beyond the string stop at its ends, and negative ones count from the end. */
  lemma SlicesExactly(s: seq<Byte>, lo: nat, hi: nat)
    ensures lo <= hi <= |s| ==> PySlice(s, lo, hi) == s[lo..hi]
    ensures hi <= lo ==> PySlice(s, lo, hi) == []
    ensures lo <= |s| <= hi ==> PySlice(s, lo, hi) == s[lo..]
    ensures lo > |s| ==> PySlice(s, lo, hi) == []
    ensures 0 < lo <= |s| ==> PySlice(s, -(lo as int), |s|) == s[|s| - lo..] && PySlice(s, 0, -(lo as int)) == s[..|s| - lo]
    ensures lo > |s| ==> PySlice(s, -(lo as int), |s|) == s && PySlice(s, 0, -(lo as int)) == []
  {
  }

  /** s[lo:hi] = v of Python, on a bytearray */
  function Assign(s: seq<Byte>, lo: nat, hi: nat, v: seq<Byte>): seq<Byte>
    requires lo <= hi
  {
    if lo >= |s| then s + v else if hi >= |s| then s[..lo] + v else s[..lo] + v + s[hi..]
  }

  function Zeros(n: nat): seq<Byte> { seq(n, _ => 0) }

  /** How many bytes are missing to the next multiple of `m` */
  function Gap(n: nat, m: nat): nat
    requires m > 0
  {
    if n % m == 0 then 0 else m - n % m
  }

  /** (n + m - 1) // m * m */
  function RoundUp(n: nat, m: nat): nat
    requires m > 0
  {
    (n + m - 1) / m * m
  }

  lemma Quotient(n: nat, m: nat, q: nat, r: nat)
    requires m > 0 && n == q * m + r && r < m
    ensures n / m == q && n % m == r
  {
    var q', r' := n / m, n % m;
    assert (q - q') * m == r' - r;
    if q > q' { Grows(q - q', m); } else if q < q' { Grows(q' - q, m); }
  }

  lemma Grows(k: nat, m: nat)
    requires k > 0
    ensures k * m >= m
  {
  }

  lemma RoundUpIs(n: nat, m: nat)
    requires m > 0
    ensures RoundUp(n, m) == n + Gap(n, m) && RoundUp(n, m) % m == 0 && RoundUp(n, m) < n + m
  {
    var q, r := n / m, n % m;
    if r == 0 {
      Quotient(n + m - 1, m, q, m - 1);
      Quotient(q * m, m, q, 0);
    } else {
      assert n + m - 1 == (q + 1) * m + (r - 1);
      Quotient(n + m - 1, m, q + 1, r - 1);
      Quotient((q + 1) * m, m, q + 1, 0);
    }
  }

  // ---------------------------------------------------------------- little-endian words

  function Le32(n: nat): (r: seq<Byte>)
    requires n < WORD
    ensures |r| == 4
  {
    [n % 256, n / 256 % 256, n / 256 / 256 % 256, n / 256 / 256 / 256]
  }

  function Word(s: seq<Byte>): (r: nat)
    requires |s| == 4
    ensures r < WORD
  {
    s[0] as int + 256 * (s[1] as int + 256 * (s[2] as int + 256 * (s[3] as int)))
  }

  lemma WordLe32(n: nat)
    requires n < WORD
    ensures Word(Le32(n)) == n
  {
  }

  // ---------------------------------------------------------------- hexadecimal fields

  function Digit(d: nat): Byte
    requires d < 16
  {
    if d < 10 then 48 + d else 55 + d
  }

  function DigitValue(b: Byte): Option<nat> {
    if 48 <= b <= 57 then Some(b - 48)
    else if 65 <= b <= 70 then Some(b - 55)
    else if 97 <= b <= 102 then Some(b - 87)
    else None
  }

  /** '_' */
  const UNDERSCORE: Byte := 95

  /** The value of hexadecimal digits, of which any two may have one underscore between them */
  function Digits(s: seq<Byte>): Option<nat> {
    if s == [] then None
    else
      var low, front := DigitValue(s[|s| - 1]), s[..|s| - 1];
      if low.None? || front == [] then low
      else
        var high := Digits(if front[|front| - 1] == UNDERSCORE then front[..|front| - 1] else front);
        if high.Some? then Some(16 * high.value + low.value) else None
  }

  /** b' ' and the characters from b'\t' to b'\r' */
  predicate IsSpace(b: Byte) { b == 32 || 9 <= b <= 13 }

  function SkipSpaces(s: seq<Byte>): seq<Byte> { if s != [] && IsSpace(s[0]) then SkipSpaces(s[1..]) else s }

  function DropSpaces(s: seq<Byte>): seq<Byte> {
    if s != [] && IsSpace(s[|s| - 1]) then DropSpaces(s[..|s| - 1]) else s
  }

  /** A number without its sign: digits, perhaps after 0x or 0X, which an underscore may follow */
  function Magnitude(s: seq<Byte>): Option<nat> {
    if |s| < 2 || s[0] != 48 || s[1] !in [120, 88] then Digits(s)
    else if |s| > 2 && s[2] == UNDERSCORE then Digits(s[3..])
    else Digits(s[2..])
  }

  /** int(s, 16) of Python on bytes; nothing for a ValueError */
  function FieldValue(s: seq<Byte>): Option<int> {
    var t := DropSpaces(SkipSpaces(s));
    var signed := t != [] && (t[0] == 43 || t[0] == 45);
    var m := Magnitude(if signed then t[1..] else t);
    if m.None? then None
    else
      var v: int := m.value;
      Some(if signed && t[0] == 45 then -v else v)
  }

  /** n in hexadecimal with at least `width` digits */
  function Hex(n: nat, width: nat): seq<Byte>
    decreases n + width
  {
    if n < 16 && width <= 1 then [Digit(n)]
    else Hex(n / 16, if width <= 1 then 1 else width - 1) + [Digit(n % 16)]
  }

  function Pow16(w: nat): nat { if w == 0 then 1 else 16 * Pow16(w - 1) }

  /** 0 to 9 and A to F, the bytes that Hex writes */
  predicate Plain(s: seq<Byte>) { forall i :: 0 <= i < |s| ==> 48 <= s[i] <= 57 || 65 <= s[i] <= 70 }

  lemma {:induction false} HexPlain(n: nat, width: nat)
    ensures Plain(Hex(n, width)) && |Hex(n, width)| >= width && |Hex(n, width)| > 0
    decreases n + width
  {
    if !(n < 16 && width <= 1) { HexPlain(n / 16, if width <= 1 then 1 else width - 1); }
  }

  lemma DigitsMore(front: seq<Byte>, v: nat, d: nat)
    requires Digits(front) == Some(v) && front != [] && Plain(front) && d < 16
    ensures Digits(front + [Digit(d)]) == Some(16 * v + d)
  {
    assert (front + [Digit(d)])[..|front|] == front;
  }

  lemma {:induction false} HexFits(n: nat, width: nat)
    requires 0 < width && n < Pow16(width)
    ensures |Hex(n, width)| == width && Digits(Hex(n, width)) == Some(n)
    decreases width
  {
    hide Digits;
    if width == 1 {
      OneDigit(n);
    } else {
      HexFits(n / 16, width - 1);
      HexPlain(n / 16, width - 1);
      DigitsMore(Hex(n / 16, width - 1), n / 16, n % 16);
    }
  }

  lemma OneDigit(d: nat)
    requires d < 16
    ensures Digits([Digit(d)]) == Some(d)
  {
  }

  lemma {:induction false} PlainDigits(s: seq<Byte>)
    requires s != [] && Plain(s)
    ensures Digits(s).Some?
  {
    if |s| > 1 { PlainDigits(s[..|s| - 1]); }
  }

  /** A field of plain digits has no sign, and its value is that of the digits. */
  lemma PlainField(s: seq<Byte>)
    requires s != [] && Plain(s)
    ensures Digits(s).Some? && FieldValue(s) == Some(Digits(s).value)
  {
    hide Digits;
    PlainDigits(s);
    assert SkipSpaces(s) == s && DropSpaces(s) == s;
  }

  /** What Hex has written in eight bytes is read back. */
  lemma FieldHex(n: nat)
    requires n < WORD
    ensures |Hex(n, 8)| == 8 && FieldValue(Hex(n, 8)) == Some(n)
  {
    hide Hex;
    EightDigits();
    HexFits(n, 8);
    HexPlain(n, 8);
    PlainField(Hex(n, 8));
  }

  // ---------------------------------------------------------------- what int() takes

  /** Digits are written with capital letters and read with any. */
  lemma DigitTexts(d: nat)
    requires d < 16
    ensures Digit(d) == "0123456789ABCDEF"[d] as int
    ensures DigitValue("0123456789ABCDEF"[d] as int) == DigitValue("0123456789abcdef"[d] as int) == Some(d)
  {
  }

  predicate HexDigit(b: Byte) { 48 <= b <= 57 || 65 <= b <= 70 || 97 <= b <= 102 }

  /** Digits is defined exactly for hexadecimal digits with single underscores between them. */
  lemma {:induction false} DigitsExactly(s: seq<Byte>)
    ensures Digits(s).Some? <==>
      && s != [] && HexDigit(s[0]) && HexDigit(s[|s| - 1])
      && (forall i :: 0 <= i < |s| ==> HexDigit(s[i]) || s[i] == 95)
      && (forall i :: 0 <= i < |s| - 1 ==> HexDigit(s[i]) || HexDigit(s[i + 1]))
    decreases |s|
  {
    if |s| > 1 {
      var front := s[..|s| - 1];
      var high := if front[|front| - 1] == UNDERSCORE then front[..|front| - 1] else front;
      DigitsExactly(high);
      if Digits(s).Some? {
        assert forall i :: 0 <= i < |high| ==> s[i] == high[i];
        assert s[0] == high[0];
      } else {
        assert forall i :: 0 <= i < |high| ==> high[i] == s[i];
      }
    }
  }

  function More(high: Option<nat>, b: Byte): Option<nat> {
    if high.Some? && DigitValue(b).Some? then Some(16 * high.value + DigitValue(b).value) else None
  }

  lemma DigitsStep(s: seq<Byte>)
    requires |s| > 1
    ensures Digits(s) == More(Digits(if s[|s| - 2] == 95 then s[..|s| - 2] else s[..|s| - 1]), s[|s| - 1])
  {
    var front := s[..|s| - 1];
    assert front[..|front| - 1] == s[..|s| - 2] && front[|front| - 1] == s[|s| - 2];
  }

  lemma DigitsLast(front: seq<Byte>, b: Byte)
    requires front != [] && HexDigit(front[|front| - 1])
    ensures Digits(front + [b]) == More(Digits(front), b) && Digits(front + [95] + [b]) == More(Digits(front), b)
  {
    hide Digits, More;
    var s, t := front + [b], front + [95] + [b];
    DigitsStep(s);
    DigitsStep(t);
    assert s[..|s| - 1] == front && t[..|t| - 2] == front;
  }

  /** An underscore between digits changes nothing. */
  lemma {:induction false} UnderscoreSkipped(x: seq<Byte>, y: seq<Byte>)
    requires x != [] && Plain(x) && y != [] && Plain(y)
    ensures Digits(x + [95] + y) == Digits(x + y)
    decreases |y|
  {
    hide Digits, More;
    var front, b := y[..|y| - 1], y[|y| - 1];
    assert y == front + [b];
    if front == [] {
      DigitsLast(x, b);
    } else {
      UnderscoreSkipped(x, front);
      DigitsLast(x + [95] + front, b);
      DigitsLast(x + front, b);
      assert x + [95] + y == (x + [95] + front) + [b] && x + y == (x + front) + [b];
    }
  }

  predicate BlankByte(b: Byte) { b == 32 || 9 <= b <= 13 }

  predicate Blank(s: seq<Byte>) { forall i :: 0 <= i < |s| ==> BlankByte(s[i]) }

  lemma {:induction false} BlanksSkipped(a: seq<Byte>, t: seq<Byte>)
    requires Blank(a) && t != [] && !BlankByte(t[0])
    ensures SkipSpaces(a + t) == t
    decreases |a|
  {
    if a == [] {
      assert a + t == t;
    } else {
      assert (a + t)[1..] == a[1..] + t;
      BlanksSkipped(a[1..], t);
    }
  }

  lemma {:induction false} BlanksDropped(t: seq<Byte>, b: seq<Byte>)
    requires Blank(b) && t != [] && !BlankByte(t[|t| - 1])
    ensures DropSpaces(t + b) == t
    decreases |b|
  {
    if b == [] {
      assert t + b == t;
    } else {
      assert (t + b)[..|t + b| - 1] == t + b[..|b| - 1];
      BlanksDropped(t, b[..|b| - 1]);
    }
  }

  predicate Prefix(p: seq<Byte>) { p in {[], [48, 120], [48, 88], [48, 120, 95], [48, 88, 95]} }

  lemma PrefixSkipped(p: seq<Byte>, d: seq<Byte>)
    requires Prefix(p) && d != [] && Plain(d)
    ensures Magnitude(p + d) == Digits(d)
  {
    hide Digits;
    var s := p + d;
    if |p| == 2 {
      assert s[2..] == d;
    } else if |p| == 3 {
      assert s[3..] == d;
    } else {
      assert s == d;
    }
  }

  /** A number may have blanks around it, one sign in front, and 0x or 0X, with an underscore or without. */
  lemma FieldForms(a: seq<Byte>, sign: seq<Byte>, p: seq<Byte>, d: seq<Byte>, b: seq<Byte>)
    requires Blank(a) && Blank(b) && sign in {[], [43], [45]} && Prefix(p) && d != [] && Plain(d)
    ensures Digits(d).Some?
    ensures var v: int := Digits(d).value; FieldValue(a + (sign + (p + d)) + b) == Some(if sign == [45] then -v else v)
  {
    hide Digits, Magnitude, SkipSpaces, DropSpaces, Prefix;
    PlainDigits(d);
    PrefixSkipped(p, d);
    var m := p + d;
    var t := sign + m;
    PrefixStart(p, d);
    assert t[|t| - 1] == d[|d| - 1];
    assert a + t + b == a + (t + b);
    BlanksSkipped(a, t + b);
    BlanksDropped(t, b);
    if sign == [] { assert t == m; } else { assert t[1..] == m && t[0] == sign[0]; }
  }

  lemma PrefixStart(p: seq<Byte>, d: seq<Byte>)
    requires Prefix(p) && d != [] && Plain(d)
    ensures (p + d)[0] == 48 || (p == [] && (p + d)[0] == d[0])
  {
  }

  lemma {:induction false} Pow16Grows(v: nat, w: nat)
    requires v <= w
    ensures 0 < Pow16(v) <= Pow16(w)
  {
    if v < w { Pow16Grows(v, w - 1); } else if v > 0 { Pow16Grows(v - 1, v - 1); }
  }

  lemma {:induction false} DigitsBound(s: seq<Byte>)
    requires Digits(s).Some?
    ensures Digits(s).value < Pow16(|s|)
  {
    var front := s[..|s| - 1];
    if front != [] {
      var high := if front[|front| - 1] == UNDERSCORE then front[..|front| - 1] else front;
      DigitsBound(high);
      Pow16Grows(|high|, |front|);
    }
  }

  lemma {:induction false} SpacesShorten(s: seq<Byte>)
    ensures |SkipSpaces(s)| <= |s| && |DropSpaces(s)| <= |s|
  {
    if s != [] {
      SpacesShorten(s[1..]);
      SpacesShorten(s[..|s| - 1]);
    }
  }

  lemma MagnitudeBound(s: seq<Byte>, w: nat)
    requires Magnitude(s).Some? && |s| <= w
    ensures Magnitude(s).value < Pow16(w)
  {
    hide Digits, Pow16;
    var t := if Magnitude(s) == Digits(s) then s else if Magnitude(s) == Digits(s[2..]) then s[2..] else s[3..];
    DigitsBound(t);
    Pow16Grows(|t|, w);
  }

  /** Eight bytes never stand for more than 32 bits. */
  lemma FieldBound(s: seq<Byte>)
    requires |s| <= 8 && FieldValue(s).Some?
    ensures FieldValue(s).value < WORD && FieldValue(s).value + WORD > 0
  {
    hide Magnitude, SkipSpaces, DropSpaces;
    EightDigits();
    SpacesShorten(s);
    SpacesShorten(SkipSpaces(s));
    var t := DropSpaces(SkipSpaces(s));
    MagnitudeBound(if t != [] && (t[0] == 43 || t[0] == 45) then t[1..] else t, 8);
  }

  lemma EightDigits()
    ensures Pow16(8) == WORD
  {
  }
}
