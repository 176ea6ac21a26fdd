/** The boot image around the ramdisk: taking it apart, putting it together and replacing one ramdisk file. */
module BootImg {
  import opened Common
  import opened Bytes
  import opened Cpio

  datatype Header = Header(ks: nat, rs: nat, ss: nat, ps: nat, dts: nat)

  /** NeverReturns stands for no error but for a call that does not come back. */
  datatype Error = NoMagic | Truncated | ZeroPage | TooLong | DoesNotFit | BadRamdisk | NeverReturns | NoSuchFile

  datatype Result<T> = Ok(value: T) | Err(error: Error)

  datatype Pieces = Pieces(h: Header, kernel: seq<Byte>, ramdisk: seq<Byte>, dt: seq<Byte>)

  /** b'ANDROID!' */
  const ANDROID: seq<Byte> := [65, 78, 68, 82, 79, 73, 68, 33]

  /** parse_hdr */
  function ParseHdr(d: seq<Byte>): Result<Header> {
    if Slice(d, 0, 8) != ANDROID then Err(NoMagic)
    else if |d| < 44 then Err(Truncated)
    else Ok(Header(Bytes.Word(d[8..12]), Bytes.Word(d[16..20]), Bytes.Word(d[24..28]), Bytes.Word(d[36..40]), Bytes.Word(d[40..44])))
  }

  /** The nine words behind the magic, in the order of their names in parse_hdr */
  function HeaderBytes(ks: nat, ka: nat, rs: nat, ra: nat, ss: nat, sa: nat, ta: nat, ps: nat, dts: nat): (d: seq<Byte>)
    requires ks < WORD && ka < WORD && rs < WORD && ra < WORD && ss < WORD && sa < WORD && ta < WORD && ps < WORD && dts < WORD
    ensures |d| == 44
  {
    ANDROID + Le32(ks) + Le32(ka) + Le32(rs) + Le32(ra) + Le32(ss) + Le32(sa) + Le32(ta) + Le32(ps) + Le32(dts)
  }

  /** Every header is taken apart into its words, each under its name. */
  lemma HeaderWords(ks: nat, ka: nat, rs: nat, ra: nat, ss: nat, sa: nat, ta: nat, ps: nat, dts: nat, rest: seq<Byte>)
    requires ks < WORD && ka < WORD && rs < WORD && ra < WORD && ss < WORD && sa < WORD && ta < WORD && ps < WORD && dts < WORD
    ensures ParseHdr(HeaderBytes(ks, ka, rs, ra, ss, sa, ta, ps, dts) + rest) == Ok(Header(ks, rs, ss, ps, dts))
  {
    hide Le32;
    var a, b := ANDROID + Le32(ks) + Le32(ka), Le32(ss) + Le32(sa) + Le32(ta);
    var d := HeaderBytes(ks, ka, rs, ra, ss, sa, ta, ps, dts) + rest;
    assert d == a + (Le32(rs) + Le32(ra)) + b + (Le32(ps) + Le32(dts)) + rest;
    assert d[..8] == ANDROID;
    assert d[8..12] == a[8..12] == Le32(ks);
    assert d[16..20] == Le32(rs);
    assert d[24..28] == Le32(ss);
    assert d[36..40] == Le32(ps);
    assert d[40..44] == Le32(dts);
    WordLe32(ks);
    WordLe32(rs);
    WordLe32(ss);
    WordLe32(ps);
    WordLe32(dts);
  }

  /** Where the ramdisk, the second stage and the device tree of an image begin */
  function RamdiskAt(h: Header): nat
    requires h.ps > 0
  {
    h.ps + RoundUp(h.ks, h.ps)
  }

  function SecondAt(h: Header): nat
    requires h.ps > 0
  {
    RamdiskAt(h) + RoundUp(h.rs, h.ps)
  }

  function DtAt(h: Header): nat
    requires h.ps > 0
  {
    SecondAt(h) + RoundUp(h.ss, h.ps)
  }

  /** split */
  function Split(d: seq<Byte>): Result<Pieces> {
    var p := ParseHdr(d);
    if p.Err? then Err(p.error)
    else if p.value.ps == 0 then Err(ZeroPage)
    else
      var h := p.value;
      Ok(Pieces(h, Slice(d, h.ps, h.ps + h.ks), Slice(d, RamdiskAt(h), RamdiskAt(h) + h.rs), Slice(d, DtAt(h), DtAt(h) + h.dts)))
  }

  /** `pad` fills up the last page of `s`. */
  predicate FillsPage(s: seq<Byte>, pad: seq<Byte>, ps: nat)
    requires ps > 0
  {
    |pad| < ps && (|s| + |pad|) % ps == 0
  }

  lemma FillIs(s: seq<Byte>, pad: seq<Byte>, ps: nat)
    requires ps > 0 && FillsPage(s, pad, ps)
    ensures |s| + |pad| == RoundUp(|s|, ps)
  {
    var q := (|s| + |pad|) / ps;
    assert |s| + |pad| == q * ps;
    Quotient(|s| + ps - 1, ps, q, ps - 1 - |pad|);
  }

  lemma PieceIs(before: seq<Byte>, s: seq<Byte>, after: seq<Byte>)
    ensures Slice(before + s + after, |before|, |before| + |s|) == s
  {
    assert |s| > 0 ==> (before + s + after)[|before|..|before| + |s|] == s;
  }

  /** split() gives back the pieces of any image laid out page by page: a first page with their sizes, the
      kernel, the ramdisk, a second stage and the device tree, whatever fills the pages and follows. */
  lemma SplitLaidOut(page: seq<Byte>, h: Header, kernel: seq<Byte>, kpad: seq<Byte>, ramdisk: seq<Byte>, rpad: seq<Byte>,
                     second: seq<Byte>, spad: seq<Byte>, dt: seq<Byte>, rest: seq<Byte>)
    requires ParseHdr(page) == Ok(h) && h == Header(|kernel|, |ramdisk|, |second|, |page|, |dt|)
    requires FillsPage(kernel, kpad, |page|) && FillsPage(ramdisk, rpad, |page|) && FillsPage(second, spad, |page|)
    ensures Split(page + kernel + kpad + ramdisk + rpad + second + spad + dt + rest) == Ok(Pieces(h, kernel, ramdisk, dt))
  {
    assert |page| >= 44;
    hide RoundUp, ParseHdr, Slice, FillsPage;
    FillIs(kernel, kpad, |page|);
    FillIs(ramdisk, rpad, |page|);
    FillIs(second, spad, |page|);
    var r := page + kernel + kpad;
    var t := r + ramdisk + rpad + second + spad;
    LaidOutPieces(page, kernel, kpad, ramdisk, rpad + second + spad, dt, rest);
    assert t == r + ramdisk + (rpad + second + spad);
    assert page + kernel + kpad + ramdisk + rpad + second + spad + dt + rest == t + dt + rest;
  }

  lemma LaidOutPieces(page: seq<Byte>, kernel: seq<Byte>, kpad: seq<Byte>, ramdisk: seq<Byte>, between: seq<Byte>, dt: seq<Byte>, rest: seq<Byte>)
    requires ParseHdr(page).Ok?
    ensures var r := page + kernel + kpad;
      var t := r + ramdisk + between;
      var d := t + dt + rest;
      && ParseHdr(d) == ParseHdr(page)
      && Slice(d, |page|, |page| + |kernel|) == kernel
      && Slice(d, |r|, |r| + |ramdisk|) == ramdisk
      && Slice(d, |t|, |t| + |dt|) == dt
  {
    hide ParseHdr, Slice;
    var r := page + kernel + kpad;
    var t := r + ramdisk + between;
    var d := t + dt + rest;
    HeaderOfPrefix(page, kernel + kpad + ramdisk + between + dt + rest);
    PieceIs(page, kernel, kpad + ramdisk + between + dt + rest);
    PieceIs(r, ramdisk, between + dt + rest);
    PieceIs(t, dt, rest);
    assert d == page + (kernel + kpad + ramdisk + between + dt + rest);
    assert d == page + kernel + (kpad + ramdisk + between + dt + rest);
    assert d == r + ramdisk + (between + dt + rest);
  }

  function PaddedTo(s: seq<Byte>, ps: nat): seq<Byte>
    requires ps > 0
  {
    s + Zeros(RoundUp(|s|, ps) - |s|)
  }

  /** The first page with the sizes of the new kernel and ramdisk */
  function NewHeader(orig: seq<Byte>, ps: nat, kernel: seq<Byte>, ramdisk: seq<Byte>): seq<Byte>
    requires |kernel| < WORD && |ramdisk| < WORD
  {
    Assign(Assign(Slice(orig, 0, ps), 8, 12, Le32(|kernel|)), 16, 20, Le32(|ramdisk|))
  }

  function Body(h: Header, kernel: seq<Byte>, ramdisk: seq<Byte>, dt: seq<Byte>): seq<Byte>
    requires h.ps > 0
  {
    PaddedTo(kernel, h.ps) + PaddedTo(ramdisk, h.ps) + PaddedTo(dt, h.ps)
  }

  /** assemble */
  function Assembled(orig: seq<Byte>, kernel: seq<Byte>, ramdisk: seq<Byte>, dt: seq<Byte>): Result<seq<Byte>> {
    var p := ParseHdr(orig);
    if p.Err? then Err(p.error)
    else if |kernel| >= WORD || |ramdisk| >= WORD then Err(TooLong)
    else if p.value.ps == 0 then Err(ZeroPage)
    else
      var out := NewHeader(orig, p.value.ps, kernel, ramdisk) + Body(p.value, kernel, ramdisk, dt);
      if |out| > |orig| then Err(DoesNotFit) else Ok(out + Zeros(|orig| - |out|))
  }

  method Assemble(orig: seq<Byte>, kernel: seq<Byte>, ramdisk: seq<Byte>, dt: seq<Byte>) returns (r: Result<seq<Byte>>)
    ensures r == Assembled(orig, kernel, ramdisk, dt)
  {
    hide ParseHdr, PaddedTo;
    var p := ParseHdr(orig);
    if p.Err? {
      return Err(p.error);
    }
    var ps := p.value.ps;
    var hdr := Slice(orig, 0, ps);
    if |kernel| >= WORD {
      return Err(TooLong);
    }
    hdr := Assign(hdr, 8, 12, Le32(|kernel|));
    if |ramdisk| >= WORD {
      return Err(TooLong);
    }
    hdr := Assign(hdr, 16, 20, Le32(|ramdisk|));
    if ps == 0 {
      return Err(ZeroPage);
    }
    var out := hdr;
    out := out + PaddedTo(kernel, ps);
    out := out + PaddedTo(ramdisk, ps);
    out := out + PaddedTo(dt, ps);
    FourPieces(hdr, PaddedTo(kernel, ps), PaddedTo(ramdisk, ps), PaddedTo(dt, ps));
    if |out| > |orig| {
      return Err(DoesNotFit);
    }
    out := out + Zeros(|orig| - |out|);
    r := Ok(out);
  }

  lemma FourPieces(a: seq<Byte>, b: seq<Byte>, c: seq<Byte>, d: seq<Byte>)
    ensures a + b + c + d == a + (b + c + d)
  {
  }

  // ---------------------------------------------------------------- splitting what was assembled

  predicate AllZero(s: seq<Byte>) { forall i :: 0 <= i < |s| ==> s[i] == 0 }

  lemma PieceAt(a: seq<Byte>, s: seq<Byte>, ps: nat, c: seq<Byte>)
    requires ps > 0
    ensures |PaddedTo(s, ps)| == RoundUp(|s|, ps)
    ensures Slice(a + PaddedTo(s, ps) + c, |a|, |a| + |s|) == s
  {
    var z := Zeros(RoundUp(|s|, ps) - |s|);
    Regroup(a, s, z, c);
    Middle(a, s, z + c);
  }

  /** How many of `want` bytes there are at `at` */
  function Found(size: nat, at: nat, want: nat): nat {
    if at >= size then 0 else if want <= size - at then want else size - at
  }

  /** Reading a zero-padded string at `p` gives the string back exactly when as many bytes are found as it has,
      and it is read at its own place or is all zeros. */
  lemma ZerosOnly(dt: seq<Byte>, n: nat, p: nat, want: nat)
    ensures Slice(dt + Zeros(n), p, p + want) == dt <==> Found(|dt| + n, p, want) == |dt| && (p == 0 || AllZero(dt))
  {
    var stream := dt + Zeros(n);
    var d := Slice(stream, p, p + want);
    assert |d| == Found(|dt| + n, p, want);
    if |d| == |dt| && |d| > 0 {
      assert d == stream[p..p + |dt|];
      if p == 0 { assert stream[..|dt|] == dt; }
      if p > 0 && d == dt {
        forall i | 0 <= i < |dt| ensures dt[i] == 0 { ShiftedZero(dt, n, p, i); }
      }
    }
  }

  lemma {:induction false} ShiftedZero(dt: seq<Byte>, n: nat, p: nat, i: nat)
    requires p > 0 && p + |dt| <= |dt| + n && i < |dt| && (dt + Zeros(n))[p..p + |dt|] == dt
    ensures dt[i] == 0
    decreases |dt| - i
  {
    var stream := dt + Zeros(n);
    assert stream[p..p + |dt|][i] == stream[p + i];
    if p + i < |dt| { ShiftedZero(dt, n, p, p + i); }
  }

  lemma NewHeaderFields(orig: seq<Byte>, h: Header, kernel: seq<Byte>, ramdisk: seq<Byte>)
    requires ParseHdr(orig) == Ok(h) && h.ps >= 44 && |kernel| < WORD && |ramdisk| < WORD
    ensures var g := NewHeader(orig, h.ps, kernel, ramdisk);
      && |g| == |Slice(orig, 0, h.ps)| >= 44
      && ParseHdr(g) == Ok(h.(ks := |kernel|, rs := |ramdisk|))
      && forall i :: 0 <= i < |g| && !(8 <= i < 12) && !(16 <= i < 20) ==> g[i] == orig[i]
  {
    var g0 := Slice(orig, 0, h.ps);
    var g1 := Assign(g0, 8, 12, Le32(|kernel|));
    var g := Assign(g1, 16, 20, Le32(|ramdisk|));
    WordLe32(|kernel|);
    WordLe32(|ramdisk|);
    assert forall i :: 0 <= i < |g0| ==> g0[i] == orig[i];
    assert |g| == |g0|;
    assert forall i :: 0 <= i < |g| && !(8 <= i < 12) && !(16 <= i < 20) ==> g[i] == orig[i];
    assert g[8..12] == Le32(|kernel|) && g[16..20] == Le32(|ramdisk|);
    assert g[..8] == orig[..8] && g[24..28] == orig[24..28] && g[36..40] == orig[36..40] && g[40..44] == orig[40..44];
  }

  /** With whole headers an image can be assembled exactly if its pages fit into the old one. */
  lemma AssembledExactly(orig: seq<Byte>, kernel: seq<Byte>, ramdisk: seq<Byte>, dt: seq<Byte>)
    requires ParseHdr(orig).Ok? && ParseHdr(orig).value.ps >= 44 && |kernel| < WORD && |ramdisk| < WORD
    ensures var ps := ParseHdr(orig).value.ps;
      var first := if ps < |orig| then ps else |orig|;
      var size := first + RoundUp(|kernel|, ps) + RoundUp(|ramdisk|, ps) + RoundUp(|dt|, ps);
      && (Assembled(orig, kernel, ramdisk, dt).Ok? <==> size <= |orig|)
      && (size > |orig| ==> Assembled(orig, kernel, ramdisk, dt) == Err(DoesNotFit))
  {
    hide RoundUp, ParseHdr, Assign;
    var h := ParseHdr(orig).value;
    NewHeaderFields(orig, h, kernel, ramdisk);
    PaddedLength(kernel, h.ps);
    PaddedLength(ramdisk, h.ps);
    PaddedLength(dt, h.ps);
  }

  lemma PaddedLength(s: seq<Byte>, ps: nat)
    requires ps > 0
    ensures |PaddedTo(s, ps)| == RoundUp(|s|, ps)
  {
    RoundUpIs(|s|, ps);
  }

  lemma HeaderOfPrefix(g: seq<Byte>, rest: seq<Byte>)
    requires ParseHdr(g).Ok?
    ensures ParseHdr(g + rest) == ParseHdr(g)
  {
    var d := g + rest;
    assert d[..8] == g[..8] && d[8..12] == g[8..12] && d[16..20] == g[16..20];
    assert d[24..28] == g[24..28] && d[36..40] == g[36..40] && d[40..44] == g[40..44];
  }

  /** What split() finds in an assembled image.  The kernel and the ramdisk always come back.  The second
      stage is dropped but its size is kept, so the device tree is looked for too far on. */
  lemma AssembledSplits(orig: seq<Byte>, kernel: seq<Byte>, ramdisk: seq<Byte>, dt: seq<Byte>)
    requires Assembled(orig, kernel, ramdisk, dt).Ok?
    requires ParseHdr(orig).value.ps >= 44
    ensures var h, out := ParseHdr(orig).value, Assembled(orig, kernel, ramdisk, dt).value;
      var h' := h.(ks := |kernel|, rs := |ramdisk|);
      && |out| == |orig|
      && Split(out).Ok? && Split(out).value.h == h'
      && Split(out).value.kernel == kernel && Split(out).value.ramdisk == ramdisk
      && (Split(out).value.dt == dt <==> Found(|orig|, DtAt(h'), h.dts) == |dt| && (h.ss == 0 || AllZero(dt)))
  {
    var h, out := ParseHdr(orig).value, Assembled(orig, kernel, ramdisk, dt).value;
    var h', g := h.(ks := |kernel|, rs := |ramdisk|), NewHeader(orig, h.ps, kernel, ramdisk);
    NewHeaderFields(orig, h, kernel, ramdisk);
    if h.ps > |orig| {
      NothingFits(orig, h, kernel, ramdisk, dt);
      HeaderOfPrefix(g, Body(h, kernel, ramdisk, dt) + Zeros(|orig| - |g + Body(h, kernel, ramdisk, dt)|));
    } else {
      SplitPieces(g, h', kernel, ramdisk, dt, |orig| - |g + Body(h, kernel, ramdisk, dt)|);
    }
  }

  /** The header of an image with a second stage of one byte and a device tree of one byte, in pages of 44 */
  function StagedHeader(): (d: seq<Byte>)
    ensures |d| == 44
  {
    seq(44, i requires 0 <= i < 44 =>
      if i < 8 then ANDROID[i] else if i == 24 || i == 40 then 1 else if i == 36 then 44 else 0)
  }

  lemma StagedFields(rest: seq<Byte>)
    ensures ParseHdr(StagedHeader() + rest) == Ok(Header(0, 0, 1, 44, 1))
  {
    var d := StagedHeader() + rest;
    assert d[..8] == ANDROID;
    assert d[8..12] == [0, 0, 0, 0] && d[16..20] == [0, 0, 0, 0] && d[24..28] == [1, 0, 0, 0];
    assert d[36..40] == [44, 0, 0, 0] && d[40..44] == [1, 0, 0, 0];
  }

  /** Putting the device tree of that image back loses it. */
  lemma LostDtExample(orig: seq<Byte>, dt: seq<Byte>)
    requires orig == StagedHeader() + Zeros(44) && dt == [208]
    ensures Assembled(orig, [], [], dt).Ok? && Split(Assembled(orig, [], [], dt).value).Ok?
    ensures ParseHdr(orig).Ok? && |dt| == ParseHdr(orig).value.dts && Split(Assembled(orig, [], [], dt).value).value.dt != dt
  {
    StagedFields(Zeros(44));
    var h := Header(0, 0, 1, 44, 1);
    NewHeaderFields(orig, h, [], []);
    RoundUpIs(0, 44);
    RoundUpIs(1, 44);
    AssembledSplits(orig, [], [], dt);
    assert !AllZero(dt) by { assert dt[0] == 208; }
  }

  /** A page of 8 bytes, nothing else, and room for 64 bytes in all */
  function SmallPage(): seq<Byte> {
    seq(64, i requires 0 <= i < 64 => if i < 8 then ANDROID[i] else if i == 36 then 8 else 0)
  }

  /** A page that does not hold the whole header: the ramdisk's size goes into the page, the page size is lost,
      and the assembled image cannot be taken apart. */
  lemma SmallPageExample(orig: seq<Byte>)
    requires orig == SmallPage()
    ensures ParseHdr(orig) == Ok(Header(0, 0, 0, 8, 0)) && Assembled(orig, [], [2], []).Ok?
    ensures Split(Assembled(orig, [], [2], []).value) == Err(ZeroPage)
  {
    assert orig[8..12] == orig[16..20] == orig[24..28] == orig[40..44] == [0, 0, 0, 0] && orig[36..40] == [8, 0, 0, 0];
    assert orig[..8] == ANDROID;
    var g := NewHeader(orig, 8, [], [2]);
    assert g == ANDROID + Le32(0) + Le32(1);
    var b := Body(Header(0, 0, 0, 8, 0), [], [2], []);
    assert b == [2] + Zeros(7);
    var out := g + b + Zeros(40);
    assert Assembled(orig, [], [2], []) == Ok(out);
    assert out[..8] == ANDROID && out[36..40] == [0, 0, 0, 0];
  }

  /** Without a second stage the device tree lies whole inside the image. */
  lemma DtFits(orig: seq<Byte>, kernel: seq<Byte>, ramdisk: seq<Byte>, dt: seq<Byte>)
    requires Assembled(orig, kernel, ramdisk, dt).Ok? && ParseHdr(orig).value.ps >= 44
    requires ParseHdr(orig).value.ss == 0 && |dt| == ParseHdr(orig).value.dts
    ensures var h := ParseHdr(orig).value; Found(|orig|, DtAt(h.(ks := |kernel|, rs := |ramdisk|)), h.dts) == |dt|
  {
    hide RoundUp;
    var h := ParseHdr(orig).value;
    NewHeaderFields(orig, h, kernel, ramdisk);
    GapZero(h.ps);
    if h.ps > |orig| { NothingFits(orig, h, kernel, ramdisk, dt); }
  }

  lemma NothingFits(orig: seq<Byte>, h: Header, kernel: seq<Byte>, ramdisk: seq<Byte>, dt: seq<Byte>)
    requires Assembled(orig, kernel, ramdisk, dt).Ok? && ParseHdr(orig) == Ok(h) && 44 <= |orig| < h.ps
    ensures kernel == [] && ramdisk == [] && dt == []
  {
    NewHeaderFields(orig, h, kernel, ramdisk);
  }

  /** The pieces behind a first page `g` that announces them */
  lemma SplitPieces(g: seq<Byte>, h: Header, kernel: seq<Byte>, ramdisk: seq<Byte>, dt: seq<Byte>, n: nat)
    requires |g| == h.ps >= 44 && ParseHdr(g) == Ok(h) && h.ks == |kernel| && h.rs == |ramdisk|
    ensures var out := g + Body(h, kernel, ramdisk, dt) + Zeros(n);
      && Split(out).Ok? && Split(out).value.h == h
      && Split(out).value.kernel == kernel && Split(out).value.ramdisk == ramdisk
      && (Split(out).value.dt == dt <==> Found(|out|, DtAt(h), h.dts) == |dt| && (h.ss == 0 || AllZero(dt)))
  {
    hide PaddedTo, RoundUp, ParseHdr;
    var k, r, d, z := PaddedTo(kernel, h.ps), PaddedTo(ramdisk, h.ps), PaddedTo(dt, h.ps), Zeros(n);
    Layout(g, k, r, d, z);
    HeaderOfPrefix(g, k + (r + d + z));
    PieceAt(g, kernel, h.ps, r + d + z);
    PieceAt(g + k, ramdisk, h.ps, d + z);
    DtPiece(g + k + r, h, dt, n);
  }

  lemma Layout(g: seq<Byte>, k: seq<Byte>, r: seq<Byte>, d: seq<Byte>, z: seq<Byte>)
    ensures var out := g + (k + r + d) + z;
      && out == g + (k + (r + d + z)) && out == g + k + (r + d + z)
      && out == (g + k) + r + (d + z) && out == (g + k + r) + d + z
  {
  }

  lemma DtPiece(before: seq<Byte>, h: Header, dt: seq<Byte>, n: nat)
    requires h.ps > 0 && |before| == SecondAt(h)
    ensures var out := before + PaddedTo(dt, h.ps) + Zeros(n);
      Slice(out, DtAt(h), DtAt(h) + h.dts) == dt <==>
        Found(|out|, DtAt(h), h.dts) == |dt| && (h.ss == 0 || AllZero(dt))
  {
    hide RoundUp, PaddedTo, SecondAt;
    RoundUpIs(h.ss, h.ps);
    GapZero(h.ps);
    DtBehind(before, h, dt, n, RoundUp(h.ss, h.ps));
  }

  lemma GapZero(m: nat)
    requires m > 0
    ensures RoundUp(0, m) == 0
  {
    RoundUpIs(0, m);
  }

  lemma DtBehind(before: seq<Byte>, h: Header, dt: seq<Byte>, n: nat, p: nat)
    requires h.ps > 0
    ensures var out := before + PaddedTo(dt, h.ps) + Zeros(n);
      Slice(out, |before| + p, |before| + p + h.dts) == dt <==>
        Found(|out|, |before| + p, h.dts) == |dt| && (p == 0 || AllZero(dt))
  {
    hide Slice, Found, AllZero;
    var gap := RoundUp(|dt|, h.ps) - |dt|;
    FoundBehind(|before|, |dt| + gap + n, p, h.dts);
    ZerosJoin(before, dt, gap, n);
    SliceBehind(before, dt + Zeros(gap + n), p, p + h.dts);
    ZerosOnly(dt, gap + n, p, h.dts);
  }

  lemma FoundBehind(a: nat, size: nat, p: nat, want: nat)
    ensures Found(a + size, a + p, want) == Found(size, p, want)
  {
  }

  lemma ZerosJoin(before: seq<Byte>, dt: seq<Byte>, m: nat, n: nat)
    ensures before + (dt + Zeros(m)) + Zeros(n) == before + (dt + Zeros(m + n))
  {
    assert Zeros(m) + Zeros(n) == Zeros(m + n);
    Regroup(before, dt, Zeros(m), Zeros(n));
    Regroup(before, dt, Zeros(m + n), []);
    assert before + (dt + Zeros(m + n)) + [] == before + (dt + Zeros(m + n));
    assert before + dt + (Zeros(m + n) + []) == before + dt + Zeros(m + n);
  }

  lemma SliceBehind(a: seq<Byte>, b: seq<Byte>, lo: nat, hi: nat)
    requires lo <= hi
    ensures Slice(a + b, |a| + lo, |a| + hi) == Slice(b, lo, hi)
  {
  }

  // ---------------------------------------------------------------- replacing a file

  /** decompress() of a gzip decompressor: what the first stream holds, and the bytes behind it, which it
      leaves unread */
  type Unzip = seq<Byte> -> Option<(seq<Byte>, seq<Byte>)>

  /** gzip and its inverse: a stream ends where it was ended, whatever follows. */
  ghost predicate Codec(zip: seq<Byte> -> seq<Byte>, unzip: Unzip) {
    forall s, t :: unzip(zip(s) + t) == Some((s, t))
  }

  lemma OneStream(s: seq<Byte>, zip: seq<Byte> -> seq<Byte>, unzip: Unzip)
    requires Codec(zip, unzip)
    ensures unzip(zip(s)) == Some((s, []))
  {
    assert zip(s) + [] == zip(s);
  }

  /** ramdisk_open: only a ramdisk that the tool can rebuild byte for byte is worked on. */
  function RamdiskOpen(rd: seq<Byte>, unzip: Unzip): Result<Parsed> {
    var cpio := unzip(rd);
    if cpio.None? then Err(BadRamdisk)
    else
      var r := Parse(cpio.value.0);
      if r.Running? then Err(NeverReturns)
      else if r.Parsed? && Build(r.items) + r.tail == cpio.value.0 then Ok(r)
      else Err(BadRamdisk)
  }

  /** The check does not see a second stream: with it or without it the ramdisk opens alike. */
  lemma SecondStreamUnseen(a: seq<Byte>, b: seq<Byte>, zip: seq<Byte> -> seq<Byte>, unzip: Unzip)
    requires Codec(zip, unzip)
    ensures RamdiskOpen(zip(a) + zip(b), unzip) == RamdiskOpen(zip(a), unzip)
    ensures unzip(zip(a) + zip(b)) == Some((a, zip(b)))
  {
    hide Parse, Build;
    OneStream(a, zip, unzip);
  }

  function Updated(item: Item, name: seq<Byte>, data: seq<Byte>): Item {
    if item.name == name then item.(data := data) else item
  }

  function AllUpdated(items: seq<Item>, name: seq<Byte>, data: seq<Byte>): (r: seq<Item>)
    ensures |r| == |items|
  {
    seq(|items|, i requires 0 <= i < |items| => Updated(items[i], name, data))
  }

  predicate HasFile(items: seq<Item>, name: seq<Byte>) { exists i :: 0 <= i < |items| && items[i].name == name }

  /** The loop of cmd_replace: every entry of that name gets the new data. */
  method UpdateItems(items: array<Item>, name: seq<Byte>, data: seq<Byte>) returns (hit: bool)
    modifies items
    ensures items[..] == AllUpdated(old(items[..]), name, data)
    ensures hit <==> HasFile(old(items[..]), name)
  {
    hit := false;
    for i := 0 to items.Length
      invariant forall k :: 0 <= k < i ==> items[k] == Updated(old(items[k]), name, data)
      invariant forall k :: i <= k < items.Length ==> items[k] == old(items[k])
      invariant hit <==> exists k :: 0 <= k < i && old(items[k]).name == name
    {
      if items[i].name == name {
        items[i] := items[i].(data := data);
        hit := true;
      }
    }
    assert forall k :: 0 <= k < items.Length ==> old(items[..])[k] == old(items[k]);
  }

  /** cmd_replace, up to writing the file and reading it back */
  method Replace(orig: seq<Byte>, name: seq<Byte>, data: seq<Byte>, zip: seq<Byte> -> seq<Byte>, unzip: Unzip)
    returns (r: Result<seq<Byte>>)
    ensures r == Replaced(orig, name, data, zip, unzip)
  {
    var p := Split(orig);
    if p.Err? {
      return Err(p.error);
    }
    var rd := RamdiskOpen(p.value.ramdisk, unzip);
    if rd.Err? {
      return Err(rd.error);
    }
    var parsed := rd.value.items;
    var items := new Item[|parsed|](i requires 0 <= i < |parsed| => parsed[i]);
    assert items[..] == parsed;
    var hit := UpdateItems(items, name, data);
    if !hit {
      return Err(NoSuchFile);
    }
    var cpio := CpioBuild(items[..], rd.value.tail);
    r := Assemble(orig, p.value.kernel, zip(cpio), p.value.dt);
  }

  function Replaced(orig: seq<Byte>, name: seq<Byte>, data: seq<Byte>, zip: seq<Byte> -> seq<Byte>, unzip: Unzip): Result<seq<Byte>> {
    var p := Split(orig);
    if p.Err? then Err(p.error)
    else
      var rd := RamdiskOpen(p.value.ramdisk, unzip);
      if rd.Err? then Err(rd.error)
      else if !HasFile(rd.value.items, name) then Err(NoSuchFile)
      else
        var cpio := Build(AllUpdated(rd.value.items, name, data)) + rd.value.tail;
        Assembled(orig, p.value.kernel, zip(cpio), p.value.dt)
  }

  /** Only the data of the named entry and the size in its header change. */
  predicate OnlyFile(before: Item, after: Item, name: seq<Byte>, data: seq<Byte>) {
    if before.name == name then
      && |before.hdr| == |after.hdr| == 110
      && after == before.(hdr := after.hdr, data := data)
      && after.hdr[..54] == before.hdr[..54] && after.hdr[62..] == before.hdr[62..]
    else after == before
  }

  lemma UpdatedNormal(item: Item, name: seq<Byte>, data: seq<Byte>)
    requires Good(item) && Normal(item) == item && |data| < WORD
    ensures Good(Updated(item, name, data)) && OnlyFile(item, Normal(Updated(item, name, data)), name, data)
  {
    hide Hex, Assign;
    if item.name == name { Restamped(item, data); }
  }

  lemma Restamped(item: Item, data: seq<Byte>)
    requires Good(item) && Stamped(item) == item.hdr && |data| < WORD
    ensures var h := Stamped(item.(data := data));
      |h| == 110 && h[..54] == item.hdr[..54] && h[62..] == item.hdr[62..]
  {
    hide Hex, Assign;
    var size, fsize := Hex(|item.name| + 1, 8), Hex(|data|, 8);
    var g, was := Assign(item.hdr, 54, 62, fsize), Assign(item.hdr, 54, 62, Hex(|item.data|, 8));
    EightDigits();
    HexFits(|data|, 8);
    HexFits(|item.data|, 8);
    HexFits(|item.name| + 1, 8);
    AssignAt(item.hdr, 54, Hex(|item.data|, 8));
    AssignAt(was, 94, size);
    AssignAt(item.hdr, 54, fsize);
    AssignAt(g, 94, size);
    var now := Assign(g, 94, 102, size);
    assert now[..54] == now[..94][..54] == g[..94][..54] == g[..54];
    SameEnd(item.hdr, g, now);
  }

  /** From 62 on both headers are the old one, except for the same name size written over it. */
  lemma SameEnd(hdr: seq<Byte>, g: seq<Byte>, now: seq<Byte>)
    requires |hdr| == |g| == |now| == 110 && g[62..] == hdr[62..]
    requires now[..94] == g[..94] && now[94..102] == hdr[94..102] && now[102..] == g[102..]
    ensures now[62..] == hdr[62..]
  {
    assert now[62..] == now[..94][62..] + now[94..102] + now[102..];
    assert hdr[62..] == hdr[62..94] + hdr[94..102] + hdr[102..];
    assert g[..94][62..] == g[62..][..32] == hdr[62..94];
    assert g[102..] == g[62..][40..] == hdr[102..];
  }

  lemma NormalsAt(items: seq<Item>, i: nat)
    requires i < |items|
    ensures Normals(items)[i] == Normal(items[i])
  {
    hide Stamped;
    if i > 0 { NormalsAt(items[1..], i - 1); }
  }

  /** A ramdisk that was accepted can be opened again after the replacement, and only the named entry
      differs. */
  lemma UpdatedOpens(rd: seq<Byte>, name: seq<Byte>, data: seq<Byte>, zip: seq<Byte> -> seq<Byte>, unzip: Unzip)
    requires RamdiskOpen(rd, unzip).Ok? && |data| < WORD && Codec(zip, unzip)
    ensures var r := RamdiskOpen(rd, unzip).value;
      var again := RamdiskOpen(zip(Build(AllUpdated(r.items, name, data)) + r.tail), unzip);
      && again.Ok? && again.value.tail == r.tail && |again.value.items| == |r.items|
      && forall i :: 0 <= i < |r.items| ==> OnlyFile(r.items[i], again.value.items[i], name, data)
  {
    hide Normal, Good, Build, Parse;
    var r := RamdiskOpen(rd, unzip).value;
    var items := AllUpdated(r.items, name, data);
    AcceptedAgain(unzip(rd).value.0);
    UpdatedGood(r.items, name, data);
    SameEnds(r.items, items, r.tail);
    RoundTripExactly(items, r.tail);
    PrintedNormals(items);
    OneStream(Build(items) + r.tail, zip, unzip);
  }

  lemma UpdatedGood(items: seq<Item>, name: seq<Byte>, data: seq<Byte>)
    requires AllGood(items) && Normals(items) == items && |data| < WORD
    ensures var u := AllUpdated(items, name, data);
      AllGood(u) && forall i :: 0 <= i < |u| ==> OnlyFile(items[i], Normals(u)[i], name, data)
  {
    hide Normal, Normals, Good, OnlyFile;
    var u := AllUpdated(items, name, data);
    forall i | 0 <= i < |u| ensures Good(u[i]) && OnlyFile(items[i], Normals(u)[i], name, data) {
      NormalsAt(items, i);
      NormalsAt(u, i);
      UpdatedNormal(items[i], name, data);
    }
  }

  lemma SameEnds(items: seq<Item>, u: seq<Item>, tail: seq<Byte>)
    requires |u| == |items| && (forall i :: 0 <= i < |u| ==> u[i].name == items[i].name)
    ensures TrailerLast(u) == TrailerLast(items) && Ends(u, tail) == Ends(items, tail)
  {
    if TrailerLast(u) {
      forall i | 0 <= i < |items| - 1 ensures items[i].name != TRAILER { assert u[i].name != TRAILER; }
    }
  }

  lemma {:induction false} PrintedNormals(items: seq<Item>)
    requires AllGood(items)
    ensures Build(Normals(items)) == Build(items)
  {
    if items != [] {
      HeaderTwice(items[0]);
      PrintedNormals(items[1..]);
    }
  }

  lemma HeaderTwice(item: Item)
    requires Good(item)
    ensures Printed(Normal(item)) == Printed(item)
  {
    var size, fsize := Hex(|item.name| + 1, 8), Hex(|item.data|, 8);
    var g, h := Assign(item.hdr, 54, 62, fsize), Stamped(item);
    EightDigits();
    HexFits(|item.data|, 8);
    HexFits(|item.name| + 1, 8);
    AssignAt(item.hdr, 54, fsize);
    AssignAt(g, 94, size);
    assert h[54..62] == h[..94][54..62] == g[..94][54..62] == g[54..62];
    SameAssign(h, 54, fsize);
    SameAssign(h, 94, size);
  }

  lemma SameAssign(s: seq<Byte>, lo: nat, v: seq<Byte>)
    requires |v| == 8 && lo + 8 <= |s| && s[lo..lo + 8] == v
    ensures Assign(s, lo, lo + 8, v) == s
  {
    assert s == s[..lo] + s[lo..lo + 8] + s[lo + 8..];
  }

  /** The whole of cmd_replace: in the new image the kernel is the old one, the ramdisk opens and differs in
      the named file only, and the image is as long as before.  What stood behind the ramdisk's first stream
      is kept exactly when it is nothing. */
  lemma ReplaceChangesOneFile(orig: seq<Byte>, name: seq<Byte>, data: seq<Byte>, zip: seq<Byte> -> seq<Byte>, unzip: Unzip)
    requires Replaced(orig, name, data, zip, unzip).Ok? && |data| < WORD && Codec(zip, unzip)
    requires Split(orig).value.h.ps >= 44
    ensures var out, p := Replaced(orig, name, data, zip, unzip).value, Split(orig).value;
      && |out| == |orig| && Split(out).Ok? && Split(out).value.kernel == p.kernel
      && (p.h.ss == 0 && |p.dt| == p.h.dts ==> Split(out).value.dt == p.dt)
      && RamdiskOpen(p.ramdisk, unzip).Ok? && RamdiskOpen(Split(out).value.ramdisk, unzip).Ok?
      && var before, after := RamdiskOpen(p.ramdisk, unzip).value, RamdiskOpen(Split(out).value.ramdisk, unzip).value;
      && after.tail == before.tail && |after.items| == |before.items|
      && (forall i :: 0 <= i < |before.items| ==> OnlyFile(before.items[i], after.items[i], name, data))
      && (exists i :: 0 <= i < |after.items| && after.items[i].name == name && after.items[i].data == data)
      && (unzip(Split(out).value.ramdisk).value.1 == unzip(p.ramdisk).value.1 <==> unzip(p.ramdisk).value.1 == [])
  {
    hide Split, ParseHdr, Parse;
    var p := Split(orig).value;
    var r := RamdiskOpen(p.ramdisk, unzip).value;
    UpdatedOpens(p.ramdisk, name, data, zip, unzip);
    SplitHeader(orig);
    if p.h.ss == 0 && |p.dt| == p.h.dts {
      DtFits(orig, p.kernel, zip(Build(AllUpdated(r.items, name, data)) + r.tail), p.dt);
    }
    AssembledSplits(orig, p.kernel, zip(Build(AllUpdated(r.items, name, data)) + r.tail), p.dt);
    OneStream(Build(AllUpdated(r.items, name, data)) + r.tail, zip, unzip);
    var i :| 0 <= i < |r.items| && r.items[i].name == name;
  }

  /** A missing file is reported exactly where the image and its ramdisk open and no entry has the name. */
  lemma MissingExactly(orig: seq<Byte>, name: seq<Byte>, data: seq<Byte>, zip: seq<Byte> -> seq<Byte>, unzip: Unzip)
    ensures Replaced(orig, name, data, zip, unzip) == Err(NoSuchFile) <==>
      && Split(orig).Ok? && RamdiskOpen(Split(orig).value.ramdisk, unzip).Ok?
      && forall item :: item in RamdiskOpen(Split(orig).value.ramdisk, unzip).value.items ==> item.name != name
  {
    hide Parse, Build, AllUpdated;
    if Split(orig).Ok? && RamdiskOpen(Split(orig).value.ramdisk, unzip).Ok? {
      var items := RamdiskOpen(Split(orig).value.ramdisk, unzip).value.items;
      if HasFile(items, name) {
        var i :| 0 <= i < |items| && items[i].name == name;
        assert items[i] in items;
      }
    }
  }

  lemma SplitHeader(d: seq<Byte>)
    requires Split(d).Ok?
    ensures ParseHdr(d) == Ok(Split(d).value.h)
  {
  }
}
