/** The pixel pass of the colour shim: it turns the colour channels of every pixel and hashes what it leaves. */
module ColourPixels {
  import opened Common

  type Channel = bv8

  /** Four bytes in memory order */
  datatype Pixel = Pixel(r: Channel, g: Channel, b: Channel, a: Channel)

  function Turned(p: Pixel): Pixel { Pixel(p.g, p.b, p.r, p.a) }

  function AllTurned(s: seq<Pixel>): (t: seq<Pixel>)
    ensures |t| == |s|
  {
    seq(|s|, i requires 0 <= i < |s| => Turned(s[i]))
  }

  /** A panel that shifts the channels the other way shows what was drawn; three passes shift nothing. */
  lemma ThreeTurns(s: seq<Pixel>)
    ensures AllTurned(AllTurned(AllTurned(s))) == s
  {
    forall i | 0 <= i < |s| ensures AllTurned(AllTurned(AllTurned(s)))[i] == s[i] {
      assert AllTurned(AllTurned(s))[i] == Turned(Turned(s[i]));
    }
  }

  // ---------------------------------------------------------------- one pixel as a little-endian word

  /** One byte more at the low end */
  function Under(x: bv32, y: Channel): bv32 { (x << 8) | (y as bv32) }

  function Pack(p: Pixel): bv32 { Under(Under(Under(p.a as bv32, p.b), p.g), p.r) }

  function Unpack(v: bv32): Pixel {
    Pixel((v & 0xFF) as bv8, ((v >> 8) & 0xFF) as bv8, ((v >> 16) & 0xFF) as bv8, ((v >> 24) & 0xFF) as bv8)
  }

  lemma Unpacked(p: Pixel)
    ensures Unpack(Pack(p)) == p
  {
  }

  function TurnWord(v: bv32): bv32 {
    (v & 0xFF00_0000) | ((v & 0x00FF_FF00) >> 8) | ((v & 0x0000_00FF) << 16)
  }

  /** The masks and shifts of the tail do to a word what the planes of a block do to a pixel. */
  lemma TurnWordIs(p: Pixel)
    ensures TurnWord(Pack(p)) == Pack(Turned(p))
  {
  }

  // ---------------------------------------------------------------- the hash

  /** uint32_t, with sums and products that wrap */
  type Sum = x: nat | x < WORD

  const C: Sum := 2654435761
  const K0: Sum := 0x9E37_79B1
  const K1: Sum := 0x85EB_CA77
  const K2: Sum := 0xC2B2_AE3D
  const K3: Sum := 0x27D4_EB2F

  function Add(x: Sum, y: Sum): Sum { (x + y) % WORD }

  function Mul(x: Sum, y: Sum): Sum { x * y % WORD }

  function Number(v: bv32): Sum { v as nat }

  /** Four bytes as a little-endian word: of one pixel, or of one plane */
  function Word4(p: Pixel): Sum { Number(Pack(p)) }

  datatype Lanes = Lanes(l0: Sum, l1: Sum, l2: Sum, l3: Sum)

  function LaneSum(acc: Sum, w0: Sum, w1: Sum, w2: Sum, w3: Sum): Sum {
    Add(Add(Add(Add(Mul(acc, C), Mul(w0, K0)), Mul(w1, K1)), Mul(w2, K2)), Mul(w3, K3))
  }

  /** Four pixels into one 32-bit lane: their reds in one word, their greens in another, and so on */
  function FourStep(acc: Sum, p: Pixel, q: Pixel, u: Pixel, v: Pixel): Sum {
    LaneSum(acc, Word4(Pixel(p.r, q.r, u.r, v.r)), Word4(Pixel(p.g, q.g, u.g, v.g)), Word4(Pixel(p.b, q.b, u.b, v.b)),
            Word4(Pixel(p.a, q.a, u.a, v.a)))
  }

  /** One 32-bit lane of the vector accumulator over a block of 16 pixels */
  function LaneStep(acc: Sum, s: seq<Pixel>, j: nat): Sum
    requires |s| == 16 && j < 4
  {
    FourStep(acc, s[4 * j], s[4 * j + 1], s[4 * j + 2], s[4 * j + 3])
  }

  function BlockStep(acc: Lanes, s: seq<Pixel>): Lanes
    requires |s| == 16
  {
    Lanes(LaneStep(acc.l0, s, 0), LaneStep(acc.l1, s, 1), LaneStep(acc.l2, s, 2), LaneStep(acc.l3, s, 3))
  }

  function Blocks(s: seq<Pixel>): Lanes {
    if |s| < 16 then Lanes(0, 0, 0, 0) else BlockStep(Blocks(s[..|s| - 16]), s[|s| - 16..])
  }

  function Combine(acc: Lanes): Sum {
    Add(Add(Add(Mul(acc.l0, 1), Mul(acc.l1, 2246822519)), Mul(acc.l2, 3266489917)), Mul(acc.l3, 668265263))
  }

  function Tailed(h: Sum, v: Sum): Sum { Add(Mul(h, 2654435761), v) }

  function TailStep(h: Sum, p: Pixel): Sum { Tailed(h, Word4(p)) }

  function Tail(h: Sum, s: seq<Pixel>): Sum {
    if s == [] then h else TailStep(Tail(h, s[..|s| - 1]), s[|s| - 1])
  }

  /** The hash of a whole buffer */
  function Hash(s: seq<Pixel>): Sum {
    var m := |s| - |s| % 16;
    Tail(Combine(Blocks(s[..m])), s[m..])
  }

  // ---------------------------------------------------------------- the pass

  /** The vector body of the pass: load 16 pixels, turn them, store them back. */
  method TurnBlock(px: array<Pixel>, i: nat)
    requires i + 16 <= px.Length
    modifies px
    ensures forall k :: 0 <= k < px.Length ==> px[k] == if i <= k < i + 16 then Turned(old(px[k])) else old(px[k])
  {
    forall k | i <= k < i + 16 {
      px[k] := Turned(px[k]);
    }
  }

  /** The scalar body of the pass, on the pixel as a word */
  method TailPixel(px: array<Pixel>, i: nat, h: Sum, turn: bool) returns (h': Sum)
    requires i < px.Length
    modifies px
    ensures px[i] == if turn then Turned(old(px[i])) else old(px[i])
    ensures forall k :: 0 <= k < px.Length && k != i ==> px[k] == old(px[k])
    ensures h' == TailStep(h, px[i])
  {
    hide Pack, Unpack, TurnWord, Add, Mul, Number;
    var v := Pack(px[i]);
    Unpacked(px[i]);
    if turn {
      TurnWordIs(px[i]);
      Unpacked(Turned(px[i]));
      v := TurnWord(v);
      px[i] := Unpack(v);
    }
    h' := Add(Mul(h, 2654435761), Number(v));
  }

  /** The pass has been over the pixels `from` to `to`. */
  ghost predicate Passed(before: seq<Pixel>, now: seq<Pixel>, from: nat, to: nat, turn: bool) {
    && |now| == |before|
    && forall k :: 0 <= k < |now| ==> now[k] == if turn && from <= k < to then Turned(before[k]) else before[k]
  }

  lemma BlocksMore(s: seq<Pixel>, i: nat)
    requires i + 16 <= |s|
    ensures Blocks(s[..i + 16]) == BlockStep(Blocks(s[..i]), s[i..i + 16])
  {
    assert s[..i + 16][..i] == s[..i] && s[..i + 16][i..] == s[i..i + 16];
  }

  lemma TailMore(h: Sum, s: seq<Pixel>, m: nat, i: nat)
    requires m <= i < |s|
    ensures Tail(h, s[m..i + 1]) == TailStep(Tail(h, s[m..i]), s[i])
  {
    assert s[m..i + 1][..i - m] == s[m..i];
  }

  /** The loop over the blocks */
  method ProcessBlocks(px: array<Pixel>, npix: nat, turn: bool) returns (acc: Lanes, i: nat)
    requires npix <= px.Length
    modifies px
    ensures i == npix - npix % 16 && Passed(old(px[..]), px[..], 0, i, turn) && acc == Blocks(px[..][..i])
  {
    hide BlockStep, Blocks;
    acc, i := Lanes(0, 0, 0, 0), 0;
    NoBlocks(px[..][..0]);
    while i + 16 <= npix
      invariant i <= npix && i % 16 == 0 && Passed(old(px[..]), px[..], 0, i, turn)
      invariant acc == Blocks(px[..][..i])
    {
      ghost var before := px[..];
      if turn {
        TurnBlock(px, i);
      }
      assert px[..][..i] == before[..i];
      BlocksMore(px[..], i);
      assert px[..][i..i + 16] == px[i..i + 16];
      acc := BlockStep(acc, px[i..i + 16]);
      i := i + 16;
    }
  }

  lemma NoBlocks(s: seq<Pixel>)
    requires s == []
    ensures Blocks(s) == Lanes(0, 0, 0, 0)
  {
  }

  /** The loop over the tail */
  method ProcessTail(px: array<Pixel>, m: nat, npix: nat, start: Sum, turn: bool) returns (h: Sum)
    requires m <= npix <= px.Length
    modifies px
    ensures Passed(old(px[..]), px[..], m, npix, turn) && h == Tail(start, px[..][m..npix])
  {
    hide TailStep;
    var i := m;
    h := start;
    while i < npix
      invariant m <= i <= npix && Passed(old(px[..]), px[..], m, i, turn)
      invariant h == Tail(start, px[..][m..i])
    {
      ghost var before := px[..];
      h := TailPixel(px, i, h, turn);
      assert px[..][m..i] == before[m..i];
      TailMore(start, px[..], m, i);
      i := i + 1;
    }
  }

  /** process(): for any number of pixels the 16-pixel blocks and the tail together turn every pixel once,
      touch nothing behind them, and return the hash of what they leave. */
  method Process(px: array<Pixel>, npix: nat, turn: bool) returns (h: Sum)
    requires npix <= px.Length
    modifies px
    ensures px[..npix] == if turn then AllTurned(old(px[..npix])) else old(px[..npix])
    ensures px[npix..] == old(px[npix..])
    ensures h == Hash(px[..npix])
  {
    hide Blocks, Combine, Tail;
    var acc, m := ProcessBlocks(px, npix, turn);
    h := Combine(acc);
    ghost var half := px[..];
    h := ProcessTail(px, m, npix, h, turn);
    assert px[..][..m] == half[..m];
    assert px[..npix][..m] == px[..][..m] && px[..npix][m..] == px[..][m..npix];
  }
}
