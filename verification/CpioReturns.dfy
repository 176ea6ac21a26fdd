/** When cpio_parse returns.  Its size fields are read by int(), which takes a sign, so the loop can go back. */
module CpioReturns {
  import opened Common
  import opened Bytes
  import opened Cpio

  /** The place where the loop goes on after `q`, if it does */
  function Next(buf: seq<Byte>, q: int): Option<int> {
    if Starts(buf, q) && Entry(buf, q).Some? && Entry(buf, q).value.0.name != TRAILER then Some(Entry(buf, q).value.1) else None
  }

  /** Where it is after `n` rounds from `q` on */
  function At(buf: seq<Byte>, q: int, n: nat): Option<int>
    decreases n
  {
    if n == 0 then Some(q)
    else if Next(buf, q).None? then None
    else At(buf, Next(buf, q).value, n - 1)
  }

  lemma {:induction false} RunningAt(buf: seq<Byte>, q: int, n: nat)
    ensures ParseN(buf, q, n).Running? <==> At(buf, q, n).Some? && Starts(buf, At(buf, q, n).value)
    decreases n
  {
    hide Starts, Entry;
    if n > 0 && Next(buf, q).Some? { RunningAt(buf, Next(buf, q).value, n - 1); }
  }

  lemma {:induction false} AtMore(buf: seq<Byte>, q: int, a: nat, b: nat)
    ensures At(buf, q, a + b) == if At(buf, q, a).None? then None else At(buf, At(buf, q, a).value, b)
    decreases a
  {
    hide Next;
    if a > 0 && Next(buf, q).Some? { AtMore(buf, Next(buf, q).value, a - 1, b); }
  }

  /** What is reached in `n + 1` rounds is reached by way of an entry after `n`. */
  lemma StillRunning(buf: seq<Byte>, q: int, n: nat)
    requires At(buf, q, n + 1).Some?
    ensures ParseN(buf, q, n).Running?
  {
    hide Starts, Entry;
    AtMore(buf, q, n, 1);
    RunningAt(buf, q, n);
  }

  /** Once the loop has returned, further rounds change nothing. */
  lemma {:induction false} Returned(buf: seq<Byte>, q: int, n: nat, m: nat)
    requires n <= m && !ParseN(buf, q, n).Running?
    ensures ParseN(buf, q, m) == ParseN(buf, q, n)
    decreases n
  {
    hide Starts, Entry;
    if Next(buf, q).Some? && n > 0 { Returned(buf, Next(buf, q).value, n - 1, m - 1); }
  }

  // ---------------------------------------------------------------- coming back to the same place

  ghost predicate ComesBack(buf: seq<Byte>, q: int) {
    exists i: nat, j: nat :: i < j && At(buf, q, i).Some? && At(buf, q, i) == At(buf, q, j)
  }

  lemma {:induction false} Circle(buf: seq<Byte>, x: int, k: nat, n: nat)
    requires k > 0 && At(buf, x, k) == Some(x)
    ensures At(buf, x, n).Some?
    decreases n
  {
    hide At;
    if n <= k {
      AtMore(buf, x, n, k - n);
    } else {
      AtMore(buf, x, k, n - k);
      Circle(buf, x, k, n - k);
    }
  }

  lemma RunsForever(buf: seq<Byte>, q: int, n: nat)
    requires ComesBack(buf, q)
    ensures ParseN(buf, q, n).Running?
  {
    hide At, ParseN;
    var i: nat, j: nat :| i < j && At(buf, q, i).Some? && At(buf, q, i) == At(buf, q, j);
    var x := At(buf, q, i).value;
    AtMore(buf, q, i, j - i);
    if n + 1 <= i {
      AtMore(buf, q, n + 1, i - (n + 1));
    } else {
      AtMore(buf, q, i, n + 1 - i);
      Circle(buf, x, j - i, n + 1 - i);
    }
    StillRunning(buf, q, n);
  }

  lemma StartsWithin(buf: seq<Byte>, q: int)
    requires Starts(buf, q)
    ensures -|buf| <= q < |buf|
  {
  }

  lemma {:induction false} FewBetween(s: set<int>, lo: int, hi: int)
    requires lo <= hi && forall x :: x in s ==> lo <= x < hi
    ensures |s| <= hi - lo
    decreases hi - lo
  {
    if lo < hi { FewBetween(s - {hi - 1}, lo, hi - 1); }
  }

  ghost predicate Visited(buf: seq<Byte>, q: int, n: nat, x: int) { exists i: nat :: i <= n && At(buf, q, i) == Some(x) }

  /** As long as it does not come back, the loop is somewhere else after each round. */
  lemma {:induction false} Places(buf: seq<Byte>, q: int, n: nat) returns (s: set<int>)
    requires ParseN(buf, q, n).Running? && !ComesBack(buf, q)
    ensures |s| == n + 1 && forall x :: x in s ==> -|buf| <= x < |buf| && Visited(buf, q, n, x)
    decreases n
  {
    hide At, ParseN, Starts;
    RunningAt(buf, q, n);
    var here := At(buf, q, n).value;
    StartsWithin(buf, here);
    assert At(buf, q, n) == Some(here);
    assert Visited(buf, q, n, here);
    if n == 0 {
      s := {here};
    } else {
      StillRunning(buf, q, n - 1);
      var before := Places(buf, q, n - 1);
      assert here !in before;
      forall x | x in before ensures Visited(buf, q, n, x) {
        var i: nat :| i <= n - 1 && At(buf, q, i) == Some(x);
      }
      s := before + {here};
    }
  }

  /** cpio_parse fails to return exactly when its loop comes back to an entry where it has been, and whatever
      it returns it has after 2 * |buf| rounds. */
  lemma NeverExactly(buf: seq<Byte>)
    ensures Parse(buf).Running? <==> ComesBack(buf, 0)
    ensures Parse(buf).Running? <==> forall n: nat :: ParseN(buf, 0, n).Running?
    ensures forall n: nat :: !ParseN(buf, 0, n).Running? ==> ParseN(buf, 0, n) == Parse(buf)
  {
    hide ParseN, ComesBack;
    var most := 2 * |buf|;
    if Parse(buf).Running? && !ComesBack(buf, 0) {
      var s := Places(buf, 0, most);
      FewBetween(s, -|buf|, |buf|);
    }
    if ComesBack(buf, 0) {
      forall n: nat ensures ParseN(buf, 0, n).Running? { RunsForever(buf, 0, n); }
    } else {
      assert !ParseN(buf, 0, most).Running?;
      forall n: nat | !ParseN(buf, 0, n).Running? ensures ParseN(buf, 0, n) == Parse(buf) {
        if n <= most { Returned(buf, 0, n, most); } else { Returned(buf, 0, most, n); }
      }
    }
  }

  // ---------------------------------------------------------------- moving on

  /** How far the entry at `q` takes the loop, by its two sizes */
  function Stride(buf: seq<Byte>, q: int): int
    requires Entry(buf, q).Some?
  {
    Up4(110 + NameSize(buf, q).value) + Up4(DataSize(buf, q).value)
  }

  lemma StrideExactly(buf: seq<Byte>, q: int)
    requires q % 4 == 0 && Entry(buf, q).Some?
    ensures Entry(buf, q).value.1 == q + Stride(buf, q) && (q + Stride(buf, q)) % 4 == 0
    ensures Unsigned(buf, q) ==> Stride(buf, q) >= 112
  {
    hide NameSize, DataSize, PySlice;
    var nsz, fsz := NameSize(buf, q).value, DataSize(buf, q).value;
    Up4Aligned(q, 110 + nsz);
    Up4Aligned(q + Up4(110 + nsz), fsz);
  }

  /** Every entry that `n` rounds from `q` on come to moves the loop on, as a test on its two sizes. */
  predicate AllMoveOn(buf: seq<Byte>, q: int, n: nat)
    decreases n
  {
    || !Starts(buf, q) || n == 0 || Entry(buf, q).None?
    || (Stride(buf, q) > 0 && (Entry(buf, q).value.0.name == TRAILER || AllMoveOn(buf, Entry(buf, q).value.1, n - 1)))
  }

  lemma {:induction false} Forward(buf: seq<Byte>, q: nat, n: nat)
    requires q % 4 == 0 && q + n >= |buf| && AllMoveOn(buf, q, n)
    ensures !ParseN(buf, q, n).Running?
    decreases n
  {
    hide Entry, PySlice, Stride;
    if Starts(buf, q) && Entry(buf, q).Some? {
      StrideExactly(buf, q);
      if Entry(buf, q).value.0.name != TRAILER { Forward(buf, Entry(buf, q).value.1, n - 1); }
    }
  }

  lemma {:induction false} UnsignedMovesOn(buf: seq<Byte>, q: int, n: nat)
    requires q % 4 == 0 && AllUnsigned(buf, q, n)
    ensures AllMoveOn(buf, q, n)
    decreases n
  {
    hide Starts, Entry, Unsigned, Stride;
    if Starts(buf, q) && n > 0 && Entry(buf, q).Some? {
      StrideExactly(buf, q);
      if Entry(buf, q).value.0.name != TRAILER { UnsignedMovesOn(buf, Entry(buf, q).value.1, n - 1); }
    }
  }

  /** cpio_parse returns wherever every entry it comes to moves it on, and so on all archives without signs. */
  lemma ReturnsMovingOn(buf: seq<Byte>)
    requires AllMoveOn(buf, 0, 2 * |buf|) || AllUnsigned(buf, 0, 2 * |buf|)
    ensures !Parse(buf).Running?
  {
    hide AllMoveOn, AllUnsigned, ParseN;
    if AllUnsigned(buf, 0, 2 * |buf|) { UnsignedMovesOn(buf, 0, 2 * |buf|); }
    Forward(buf, 0, 2 * |buf|);
  }

  // ---------------------------------------------------------------- two archives with a sign

  function DigitZeros(n: nat): seq<Byte> { seq(n, _ => 48) }

  /** A header alone, with name size -0000070 or -0000100 and data size 00000000 */
  function SignedHeader(size: seq<Byte>): seq<Byte> { MAGIC + DigitZeros(88) + [45] + size + DigitZeros(8) }

  lemma {:induction false} ZeroDigits(n: nat)
    requires n > 0
    ensures Digits(DigitZeros(n)) == Some(0)
  {
    hide Digits;
    if n == 1 {
      OneDigit(0);
      assert DigitZeros(1) == [Digit(0)];
    } else {
      ZeroDigits(n - 1);
      DigitsMore(DigitZeros(n - 1), 0, 0);
      assert DigitZeros(n) == DigitZeros(n - 1) + [Digit(0)];
    }
  }

  lemma TwoSizes()
    ensures Digits(DigitZeros(5) + [55] + [48]) == Some(112) && Digits(DigitZeros(4) + [49] + [48] + [48]) == Some(256)
  {
    hide Digits;
    ZeroDigits(5);
    DigitsMore(DigitZeros(5), 0, 7);
    DigitsMore(DigitZeros(5) + [55], 7, 0);
    ZeroDigits(4);
    DigitsMore(DigitZeros(4), 0, 1);
    DigitsMore(DigitZeros(4) + [49], 1, 0);
    DigitsMore(DigitZeros(4) + [49] + [48], 16, 0);
  }

  lemma SignedSizes(buf: seq<Byte>, size: seq<Byte>, n: nat)
    requires |size| == 7 && Plain(size) && Digits(size) == Some(n) && buf == SignedHeader(size)
    ensures |buf| == 110 && Starts(buf, 0) && PySlice(buf, 0, 110) == buf
    ensures NameSize(buf, 0) == Some(-(n as int)) && DataSize(buf, 0) == Some(0)
  {
    hide Digits, FieldValue;
    assert buf[94..102] == [45] + size && buf[54..62] == DigitZeros(8) && buf[..6] == MAGIC;
    SignedField(size);
    ZeroDigits(8);
    PlainField(DigitZeros(8));
  }

  lemma SignedField(size: seq<Byte>)
    requires size != [] && Plain(size) && Digits(size).Some?
    ensures FieldValue([45] + size) == Some(-(Digits(size).value as int))
  {
    hide Digits;
    var s := [45] + size;
    assert SkipSpaces(s) == s && DropSpaces(s) == s && s[1..] == size;
  }

  /** The entry at the beginning leads back to the beginning: cpio_parse never returns. */
  lemma NeverReturnsExample(buf: seq<Byte>)
    requires buf == SignedHeader(DigitZeros(5) + [55] + [48])
    ensures NameSize(buf, 0) == Some(-112) && DataSize(buf, 0) == Some(0)
    ensures forall n: nat :: ParseN(buf, 0, n).Running?
  {
    hide SignedHeader, NameSize, DataSize, Digits, Starts;
    TwoSizes();
    SignedSizes(buf, DigitZeros(5) + [55] + [48], 112);
    assert Entry(buf, 0) == Some((Item(buf, [], []), 0));
    assert At(buf, 0, 0) == Some(0) && At(buf, 0, 1) == At(buf, Next(buf, 0).value, 0);
    NeverExactly(buf);
  }

  /** This one leads back beyond the beginning.  cpio_parse returns the entry and takes the whole archive for
      the tail, so what is printed from that does not read back. */
  lemma NotAgainExample(buf: seq<Byte>)
    requires buf == SignedHeader(DigitZeros(4) + [49] + [48] + [48])
    ensures Parse(buf) == Parsed([Item(buf, [], [])], buf)
    ensures var r := Parse(buf); Parse(Build(r.items) + r.tail) != Parsed(Normals(r.items), r.tail)
  {
    hide SignedHeader, NameSize, DataSize, Digits, Build;
    TwoSizes();
    SignedSizes(buf, DigitZeros(4) + [49] + [48] + [48], 256);
    assert Entry(buf, 0) == Some((Item(buf, [], []), -144));
    assert !Starts(buf, -144);
    assert ParseN(buf, -144, 219) == Parsed([], buf);
    PrintedAgain(buf);
  }
}
