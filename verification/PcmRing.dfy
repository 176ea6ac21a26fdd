/** The mmap ring of tinyalsa: two pointers that wrap at `boundary`, frames that wrap at `bufferSize`. */
module PcmRing {

  const INT_MAX: int := 0x7FFF_FFFF

  function U32(x: int): (r: int)
    ensures 0 <= r < 0x1_0000_0000
    ensures 0 <= x < 0x1_0000_0000 ==> r == x
  {
    x % 0x1_0000_0000
  }

  /** An unsigned 32-bit value stored into an int. */
  function S32(x: int): (r: int)
    ensures -INT_MAX - 1 <= x <= INT_MAX ==> r == x
  {
    var u := U32(x);
    if u > INT_MAX then u - 0x1_0000_0000 else u
  }

  function Pow2(k: nat): nat {
    if k == 0 then 1 else 2 * Pow2(k - 1)
  }

  // ---------------------------------------------------------------- positions and pointers

  /** `ptr` is the pointer of a side that has moved `pos` frames in all; an application pointer may stand
      at the boundary itself instead of at 0. */
  predicate PointsAt(ptr: int, pos: nat, boundary: nat)
    requires boundary > 0
  {
    0 <= ptr <= boundary && ptr % boundary == pos % boundary
  }

  predicate Geometry(bufferSize: nat, boundary: nat) {
    && 0 < bufferSize && 2 * bufferSize <= boundary && boundary + bufferSize <= INT_MAX
    && boundary % bufferSize == 0
  }

  /** The distance of two pointers differs from that of the positions by whole turns. */
  lemma PointerDistance(p: int, q: int, a: nat, b: nat, boundary: nat) returns (turns: int)
    requires boundary > 0 && PointsAt(p, a, boundary) && PointsAt(q, b, boundary)
    ensures p - q == a - b + boundary * turns
  {
    turns := (p / boundary - a / boundary) - (q / boundary - b / boundary);
    assert p == boundary * (p / boundary) + p % boundary && q == boundary * (q / boundary) + q % boundary;
    assert a == boundary * (a / boundary) + a % boundary && b == boundary * (b / boundary) + b % boundary;
    Distribute(boundary, p / boundary - a / boundary, q / boundary - b / boundary);
    Distribute(boundary, p / boundary, a / boundary);
    Distribute(boundary, q / boundary, b / boundary);
  }

  lemma Distribute(m: int, x: int, y: int)
    ensures m * (x - y) == m * x - m * y
  {
  }

  lemma OneTurn(m: int, k: int, x: int, y: int)
    requires m > 0 && x == y + m * k && -m < x - y < m
    ensures x == y
  {
    if k >= 1 {
      Larger(m, k);
    } else if k <= -1 {
      Larger(m, -k);
    }
  }

  lemma Larger(m: int, k: int)
    requires m > 0 && k >= 1
    ensures m * k >= m
  {
  }

  lemma Remainder(x: int, n: int, q: int, r: int)
    requires n > 0 && x == n * q + r && 0 <= r < n
    ensures x % n == r && x / n == q
  {
    Distribute(n, q, x / n);
    OneTurn(n, q - x / n, x % n, r);
    var d := q - x / n;
    assert n * d == x % n - r;
    if d >= 1 { Larger(n, d); } else if d <= -1 { Larger(n, -d); }
  }

  // ---------------------------------------------------------------- free space

  /** pcm_mmap_playback_avail */
  function PlaybackAvail(hwPtr: int, applPtr: int, bufferSize: nat, boundary: nat): int {
    var avail := S32(hwPtr + bufferSize - applPtr);
    if avail < 0 then avail + boundary
    else if avail > boundary then avail - boundary
    else avail
  }

  /** pcm_mmap_capture_avail */
  function CaptureAvail(hwPtr: int, applPtr: int, boundary: nat): int {
    var avail := S32(hwPtr - applPtr);
    if avail < 0 then avail + boundary else avail
  }

  /** Playback space is computed right exactly when the raw difference is not the boundary itself.  When it
      is, the ring is full and the answer is a whole boundary instead of 0. */
  lemma PlaybackAvailExactly(hwPtr: int, applPtr: int, hw: nat, app: nat, bufferSize: nat, boundary: nat)
    requires Geometry(bufferSize, boundary) && hwPtr < boundary
    requires PointsAt(hwPtr, hw, boundary) && PointsAt(applPtr, app, boundary) && hw <= app <= hw + bufferSize
    ensures PlaybackAvail(hwPtr, applPtr, bufferSize, boundary) == bufferSize - (app - hw)
       <==> hwPtr + bufferSize - applPtr != boundary
    ensures hwPtr + bufferSize - applPtr == boundary ==>
      app - hw == bufferSize && PlaybackAvail(hwPtr, applPtr, bufferSize, boundary) == boundary
  {
    var turns := PointerDistance(hwPtr, applPtr, hw, app, boundary);
    var raw := hwPtr + bufferSize - applPtr;
    var free := bufferSize - (app - hw);
    assert raw == free + boundary * turns;
    if raw < 0 {
      Distribute(boundary, turns, -1);
      OneTurn(boundary, turns + 1, raw + boundary, free);
    } else if raw >= boundary {
      Distribute(boundary, turns, 1);
      OneTurn(boundary, turns - 1, raw - boundary, free);
    } else {
      OneTurn(boundary, turns, raw, free);
    }
  }

  /** Capture space is always right. */
  lemma CaptureAvailExact(hwPtr: int, applPtr: int, hw: nat, app: nat, bufferSize: nat, boundary: nat)
    requires Geometry(bufferSize, boundary) && hwPtr < boundary
    requires PointsAt(hwPtr, hw, boundary) && PointsAt(applPtr, app, boundary) && app <= hw <= app + bufferSize
    ensures CaptureAvail(hwPtr, applPtr, boundary) == hw - app
  {
    var turns := PointerDistance(hwPtr, applPtr, hw, app, boundary);
    if hwPtr - applPtr < 0 {
      Distribute(boundary, turns, -1);
      OneTurn(boundary, turns + 1, hwPtr - applPtr + boundary, hw - app);
    } else {
      OneTurn(boundary, turns, hwPtr - applPtr, hw - app);
    }
  }

  /** The boundary that pcm_open computes for a buffer of two frames, and a full ring whose application pointer
      has just wrapped: both slots are queued, yet 0x4000_0000 frames of space are reported. */
  lemma FullRingExample()
    ensures var n, boundary := 2, 0x4000_0000;
      && (exists k: nat :: boundary == n * Pow2(k)) && boundary + n <= INT_MAX < boundary * 2 + n && Geometry(n, boundary)
      && PointsAt(0x3FFF_FFFF, 0x3FFF_FFFF, boundary) && PointsAt(1, 0x4000_0001, boundary)
      && PlaybackAvail(0x3FFF_FFFF, 1, n, boundary) == boundary
  {
    PowAdd(8, 8);
    PowAdd(16, 8);
    PowAdd(24, 5);
    assert Pow2(8) == 256 && Pow2(5) == 32;
    assert 0x4000_0000 == 2 * Pow2(29);
  }

  lemma {:induction false} PowAdd(a: nat, b: nat)
    ensures Pow2(a + b) == Pow2(a) * Pow2(b)
    decreases a
  {
    if a > 0 { PowAdd(a - 1, b); }
  }

  // ---------------------------------------------------------------- the boundary

  lemma PowerMultiple(bufferSize: nat, k: nat)
    requires bufferSize > 0
    ensures (bufferSize * Pow2(k)) % bufferSize == 0 && bufferSize * Pow2(k) >= bufferSize
  {
    var m := Pow2(k);
    PowPositive(k);
    Remainder(bufferSize * m, bufferSize, m, 0);
    assert bufferSize * (m - 1) >= 0;
  }

  lemma PowPositive(k: nat)
    ensures Pow2(k) >= 1
  {
  }

  /** The loop of pcm_open: the largest doubling that leaves room for one more buffer in an int. */
  method FindBoundary(bufferSize: nat) returns (boundary: nat)
    requires 0 < bufferSize <= INT_MAX
    ensures exists k: nat :: boundary == bufferSize * Pow2(k)
    ensures boundary * 2 > INT_MAX - bufferSize
    ensures boundary + bufferSize <= INT_MAX <==> 2 * bufferSize <= INT_MAX
    ensures Geometry(bufferSize, boundary) <==> bufferSize <= INT_MAX / 3
  {
    boundary := bufferSize;
    ghost var k := 0;
    while U32(boundary * 2) <= INT_MAX - bufferSize
      invariant boundary == bufferSize * Pow2(k) && bufferSize <= boundary <= INT_MAX
      invariant k == 0 ==> boundary == bufferSize
      invariant k > 0 ==> 2 * bufferSize <= boundary <= INT_MAX - bufferSize
      decreases INT_MAX - boundary
    {
      assert U32(boundary * 2) == boundary * 2;
      boundary := boundary * 2;
      k := k + 1;
    }
    PowerMultiple(bufferSize, k);
  }

  // ---------------------------------------------------------------- slots

  lemma SameRemainder(x: int, y: int, t: int, n: int)
    requires n > 0 && x == y + n * t
    ensures x % n == y % n
  {
    assert n * (y / n + t) == n * (y / n) + n * t;
    Remainder(x, n, y / n + t, y % n);
  }

  /** Pointer and position fall on the same slot of the buffer. */
  lemma PointerSlot(ptr: int, pos: nat, bufferSize: nat, boundary: nat)
    requires Geometry(bufferSize, boundary) && PointsAt(ptr, pos, boundary)
    ensures ptr % bufferSize == pos % bufferSize
  {
    var turns := PointerDistance(ptr, ptr, ptr, pos, boundary) by { assert PointsAt(ptr, ptr, boundary); }
    var m := boundary / bufferSize;
    assert boundary == bufferSize * m;
    assert bufferSize * (m * turns) == boundary * turns;
    SameRemainder(pos, ptr, m * turns, bufferSize);
  }

  lemma PointerForward(ptr: int, pos: nat, frames: nat, bufferSize: nat, boundary: nat)
    requires Geometry(bufferSize, boundary) && PointsAt(ptr, pos, boundary) && frames <= bufferSize
    ensures var p := U32(ptr + frames); PointsAt(if p > boundary then U32(p - boundary) else p, pos + frames, boundary)
  {
    var turns := PointerDistance(ptr, ptr, ptr, pos, boundary) by { assert PointsAt(ptr, ptr, boundary); }
    SameRemainder(pos + frames, ptr + frames, turns, boundary);
    SameRemainder(ptr + frames - boundary, ptr + frames, -1, boundary);
  }

  lemma SlotsDiffer(i: nat, j: nat, n: nat)
    requires n > 0 && i < j < i + n
    ensures i % n != j % n
  {
    if i % n == j % n {
      Distribute(n, j / n, i / n);
      OneTurn(n, j / n - i / n, j, i);
    }
  }

  lemma SlotRun(pos: nat, i: nat, n: nat)
    requires n > 0 && pos % n + i < n
    ensures (pos + i) % n == pos % n + i
  {
    Remainder(pos + i, n, pos / n, pos % n + i);
  }

  // ---------------------------------------------------------------- the ring

  /** The ring holds the frames of `stream` from `lo` up to `hi`, each on its slot. */
  ghost predicate Holds<Frame>(ring: seq<Frame>, stream: seq<Frame>, lo: nat, hi: nat) {
    && lo <= hi <= |stream| && hi - lo <= |ring| && |ring| > 0
    && (forall i {:trigger stream[i]} :: lo <= i < hi ==> ring[i % |ring|] == stream[i])
  }

  /** Writing at the end of the queue leaves every queued frame in place. */
  lemma HoldsMore<Frame>(ring: seq<Frame>, ring': seq<Frame>, stream: seq<Frame>, data: seq<Frame>, lo: nat)
    requires Holds(ring, stream, lo, |stream|) && |ring'| == |ring| && |stream| - lo + |data| <= |ring|
    requires |stream| % |ring| + |data| <= |ring|
    requires forall k :: 0 <= k < |data| ==> ring'[|stream| % |ring| + k] == data[k]
    requires forall k :: 0 <= k < |ring| && !(|stream| % |ring| <= k < |stream| % |ring| + |data|) ==> ring'[k] == ring[k]
    ensures Holds(ring', stream + data, lo, |stream| + |data|)
  {
    var n, pos := |ring|, |stream|;
    forall i | lo <= i < pos + |data| ensures ring'[i % n] == (stream + data)[i] {
      if i < pos {
        if pos % n <= i % n < pos % n + |data| {
          SlotRun(pos, i % n - pos % n, n);
          SlotsDiffer(i, pos + (i % n - pos % n), n);
        }
        assert ring'[i % n] == ring[i % n];
      } else {
        SlotRun(pos, i - pos, n);
      }
    }
  }

  /** A run of queued frames read off the ring is a piece of the stream. */
  lemma HoldsRun<Frame>(ring: seq<Frame>, stream: seq<Frame>, lo: nat, hi: nat, slot: nat, n: nat)
    requires Holds(ring, stream, lo, hi) && lo + n <= hi && slot == lo % |ring| && slot + n <= |ring|
    ensures ring[slot..slot + n] == stream[lo..lo + n]
  {
    var piece, part := ring[slot..slot + n], stream[lo..lo + n];
    forall k | 0 <= k < n ensures piece[k] == part[k] {
      SlotRun(lo, k, |ring|);
      assert stream[lo + k] == ring[(lo + k) % |ring|];
    }
  }

  lemma HoldsLess<Frame>(ring: seq<Frame>, stream: seq<Frame>, lo: nat, lo': nat, hi: nat)
    requires Holds(ring, stream, lo, hi) && lo <= lo' <= hi
    ensures Holds(ring, stream, lo', hi)
  {
  }

  lemma HwForward(ptr: int, pos: nat, boundary: nat)
    requires boundary > 0 && PointsAt(ptr, pos, boundary) && ptr < boundary
    ensures PointsAt(if ptr + 1 == boundary then 0 else ptr + 1, pos + 1, boundary)
  {
    var turns := PointerDistance(ptr, ptr, ptr, pos, boundary) by { assert PointsAt(ptr, ptr, boundary); }
    SameRemainder(pos + 1, ptr + 1, turns, boundary);
    SameRemainder(ptr + 1 - boundary, ptr + 1, -1, boundary);
  }

  /** `after` differs from `before` only between `b` and `c`. */
  ghost predicate Outside<Frame>(before: seq<Frame>, after: seq<Frame>, b: nat, c: nat) {
    |before| == |after| && b <= c <= |after| && after[..b] == before[..b] && after[c..] == before[c..]
  }

  /** `log` is what was moved before and then the frames `a` to `b` of `buf`, the only ones that differ from `first`. */
  ghost predicate Moved<Frame>(before: seq<Frame>, log: seq<Frame>, first: seq<Frame>, buf: seq<Frame>, a: nat, b: nat) {
    Outside(first, buf, a, b) && log == before + buf[a..b]
  }

  lemma NothingMoved<Frame>(before: seq<Frame>, buf: seq<Frame>, a: nat)
    requires a <= |buf|
    ensures Moved(before, before, buf, buf, a, a)
  {
  }

  lemma NextPiece<Frame>(before: seq<Frame>, log: seq<Frame>, log': seq<Frame>, first: seq<Frame>, buf: seq<Frame>,
                         buf': seq<Frame>, a: nat, b: nat, c: nat)
    requires Moved(before, log, first, buf, a, b) && Outside(buf, buf', b, c) && log' == log + buf'[b..c]
    ensures Moved(before, log', first, buf', a, c)
  {
    assert buf'[a..b] == buf[a..b] by { assert buf'[..b][a..] == buf[..b][a..]; }
    assert buf'[a..c] == buf'[a..b] + buf'[b..c];
    assert buf'[..b][..a] == buf[..b][..a];
    assert buf[b..][c - b..] == buf[c..] && first[b..][c - b..] == first[c..];
  }

  function Min(x: int, y: int): int { if x < y then x else y }

  function Least(x: int, y: int, z: int): int { Min(x, Min(y, z)) }

  /** struct pcm, opened for mmap.  `hw` and `app` count the frames each side has moved in all; `stream`
      is what the writing side has put in, `out` what the reading side has taken out. */
  class Pcm<Frame(0)> {
    const capture: bool
    const bufferSize: nat
    const boundary: nat
    const mmapBuffer: array<Frame>
    var hwPtr: int
    var applPtr: int
    var hw: nat
    var app: nat
    ghost var stream: seq<Frame>
    ghost var out: seq<Frame>

    function Writer(): nat
      reads this`hw, this`app
    {
      if capture then hw else app
    }

    function Reader(): nat
      reads this`hw, this`app
    {
      if capture then app else hw
    }

    /** Everything the application has transferred so far. */
    ghost function Transferred(): seq<Frame>
      reads this`stream, this`out
    {
      if capture then out else stream
    }

    ghost predicate Valid()
      reads this, mmapBuffer
    {
      && Geometry(bufferSize, boundary) && mmapBuffer.Length == bufferSize
      && PointsAt(hwPtr, hw, boundary) && hwPtr < boundary && PointsAt(applPtr, app, boundary)
      && |stream| == Writer() && Holds(mmapBuffer[..], stream, Reader(), Writer())
      && out == stream[..Reader()]
    }

    constructor (capture: bool, bufferSize: nat, silence: Frame)
      requires 0 < bufferSize <= INT_MAX / 3
      ensures Valid() && this.capture == capture && this.bufferSize == bufferSize && stream == [] && out == []
      ensures fresh(mmapBuffer)
    {
      var b := FindBoundary(bufferSize);
      this.capture, this.bufferSize, this.boundary := capture, bufferSize, b;
      mmapBuffer := new Frame[bufferSize](_ => silence);
      hwPtr, applPtr, hw, app, stream, out := 0, 0, 0, 0, [], [];
    }

    /** The device plays one queued frame. */
    method Play()
      requires Valid() && !capture && hw < app
      modifies this`hwPtr, this`hw, this`out
      ensures Valid() && hw == old(hw) + 1
    {
      PointerSlot(hwPtr, hw, bufferSize, boundary);
      HwForward(hwPtr, hw, boundary);
      HoldsLess(mmapBuffer[..], stream, hw, hw + 1, app);
      assert mmapBuffer[..][hw % bufferSize] == stream[hw];
      out := out + [mmapBuffer[hwPtr % bufferSize]];
      hwPtr := if hwPtr + 1 == boundary then 0 else hwPtr + 1;
      hw := hw + 1;
    }

    /** The device records one frame where there is room. */
    method Record(f: Frame)
      requires Valid() && capture && hw < app + bufferSize
      modifies this`hwPtr, this`hw, this`stream, mmapBuffer
      ensures Valid() && hw == old(hw) + 1 && stream == old(stream) + [f]
    {
      PointerSlot(hwPtr, hw, bufferSize, boundary);
      HwForward(hwPtr, hw, boundary);
      ghost var before := mmapBuffer[..];
      mmapBuffer[hwPtr % bufferSize] := f;
      HoldsMore(before, mmapBuffer[..], stream, [f], app);
      stream := stream + [f];
      hwPtr := if hwPtr + 1 == boundary then 0 else hwPtr + 1;
      hw := hw + 1;
    }

    /** pcm_sync_ptr: the device may have moved on by any number of frames meanwhile. */
    method SyncPtr()
      requires Valid()
      modifies this`hwPtr, this`hw, this`stream, this`out, mmapBuffer
      ensures Valid() && old(hw) <= hw && (hw == old(hw) ==> hwPtr == old(hwPtr))
      ensures if capture then out == old(out) && old(stream) <= stream else stream == old(stream)
    {
      var n: int := *;
      while n > 0
        invariant Valid() && old(hw) <= hw && (hw == old(hw) ==> hwPtr == old(hwPtr))
        invariant if capture then out == old(out) && old(stream) <= stream else stream == old(stream)
      {
        n := n - 1;
        if capture && hw < app + bufferSize {
          var f: Frame := *;
          Record(f);
        } else if !capture && hw < app {
          Play();
        }
      }
    }

    /** The frames the application may transfer: free slots for playback, recorded frames for capture. */
    function Room(): int
      reads this`hw, this`app
    {
      if capture then hw - app else bufferSize - (app - hw)
    }

    /** pcm_mmap_avail */
    method Avail() returns (avail: int)
      requires Valid()
      modifies this`hwPtr, this`hw, this`stream, this`out, mmapBuffer
      ensures Valid() && old(hw) <= hw && (hw == old(hw) ==> hwPtr == old(hwPtr))
      ensures if capture then out == old(out) && old(stream) <= stream else stream == old(stream)
      ensures capture || hwPtr + bufferSize - applPtr != boundary ==> avail == Room()
      ensures !capture && hwPtr + bufferSize - applPtr == boundary ==> avail == boundary && Room() == 0
    {
      SyncPtr();
      if capture {
        CaptureAvailExact(hwPtr, applPtr, hw, app, bufferSize, boundary);
        avail := CaptureAvail(hwPtr, applPtr, boundary);
      } else {
        PlaybackAvailExactly(hwPtr, applPtr, hw, app, bufferSize, boundary);
        avail := PlaybackAvail(hwPtr, applPtr, bufferSize, boundary);
      }
    }

    /** What pcm_mmap_avail says: the room there is, or a whole boundary in the full-ring case */
    function Reported(): int
      reads this`hw, this`app, this`hwPtr, this`applPtr
    {
      if !capture && hwPtr + bufferSize - applPtr == boundary then boundary else Room()
    }

    /** pcm_mmap_begin: how many frames can be moved in one piece, and where. */
    method Begin(frames: nat) returns (offset: nat, copyFrames: nat)
      requires Valid()
      modifies this`hwPtr, this`hw, this`stream, this`out, mmapBuffer
      ensures Valid() && old(hw) <= hw && (hw == old(hw) ==> hwPtr == old(hwPtr))
      ensures if capture then out == old(out) && old(stream) <= stream else stream == old(stream)
      ensures offset == app % bufferSize && Reported() >= 0
      ensures copyFrames == Least(frames, Min(Reported(), bufferSize), bufferSize - offset)
    {
      PointerSlot(applPtr, app, bufferSize, boundary);
      offset := applPtr % bufferSize;
      var available := Avail();
      if available > bufferSize {
        available := bufferSize;
      }
      var continuous := bufferSize - offset;
      var copy: int := frames;
      if copy > available {
        copy := available;
      }
      if copy > continuous {
        copy := continuous;
      }
      copyFrames := copy;
    }

    /** pcm_areas_copy */
    method AreasCopy(pcmOffset: nat, buf: array<Frame>, srcOffset: nat, frames: nat)
      requires mmapBuffer != buf && pcmOffset + frames <= mmapBuffer.Length && srcOffset + frames <= buf.Length
      modifies if capture then {buf} else {mmapBuffer}
      ensures buf[srcOffset..srcOffset + frames] == mmapBuffer[pcmOffset..pcmOffset + frames]
      ensures capture ==>
        && buf[srcOffset..srcOffset + frames] == old(mmapBuffer[pcmOffset..pcmOffset + frames])
        && buf[..srcOffset] == old(buf[..srcOffset]) && buf[srcOffset + frames..] == old(buf[srcOffset + frames..])
      ensures !capture ==>
        && mmapBuffer[pcmOffset..pcmOffset + frames] == old(buf[srcOffset..srcOffset + frames])
        && mmapBuffer[..pcmOffset] == old(mmapBuffer[..pcmOffset])
        && mmapBuffer[pcmOffset + frames..] == old(mmapBuffer[pcmOffset + frames..])
    {
      if capture {
        forall k | 0 <= k < frames {
          buf[srcOffset + k] := mmapBuffer[pcmOffset + k];
        }
      } else {
        forall k | 0 <= k < frames {
          mmapBuffer[pcmOffset + k] := buf[srcOffset + k];
        }
      }
    }

    /** pcm_mmap_appl_forward */
    method ApplForward(frames: nat)
      requires Geometry(bufferSize, boundary) && PointsAt(applPtr, app, boundary) && frames <= bufferSize
      modifies this`applPtr, this`app
      ensures PointsAt(applPtr, app, boundary) && app == old(app) + frames
    {
      PointerForward(applPtr, app, frames, bufferSize, boundary);
      applPtr := U32(applPtr + frames);
      if applPtr > boundary {
        applPtr := U32(applPtr - boundary);
      }
      app := app + frames;
    }

    /** The copy and the commit of a playback chunk at `slot`. */
    method PutChunk(slot: nat, buf: array<Frame>, offset: nat, frames: nat)
      requires Valid() && !capture && mmapBuffer != buf && offset + frames <= buf.Length
      requires slot == app % bufferSize && slot + frames <= bufferSize && frames <= Room()
      modifies this`applPtr, this`app, this`stream, mmapBuffer
      ensures Valid() && app == old(app) + frames && stream == old(stream) + buf[offset..offset + frames]
    {
      ghost var ring, data := mmapBuffer[..], buf[offset..offset + frames];
      AreasCopy(slot, buf, offset, frames);
      ghost var ring' := mmapBuffer[..];
      assert data == ring'[slot..slot + frames];
      forall k | 0 <= k < |ring| && !(slot <= k < slot + frames) ensures ring'[k] == ring[k] {
        assert ring'[..slot] == ring[..slot] && ring'[slot + frames..] == ring[slot + frames..];
        if k < slot { assert ring'[..slot][k] == ring[..slot][k]; }
        else { assert ring'[slot + frames..][k - slot - frames] == ring[slot + frames..][k - slot - frames]; }
      }
      HoldsMore(ring, ring', stream, data, hw);
      ApplForward(frames);
      stream := stream + data;
    }

    /** The copy and the commit of a capture chunk at `slot`. */
    method TakeChunk(slot: nat, buf: array<Frame>, offset: nat, frames: nat)
      requires Valid() && capture && mmapBuffer != buf && offset + frames <= buf.Length
      requires slot == app % bufferSize && slot + frames <= bufferSize && frames <= Room()
      modifies this`applPtr, this`app, this`out, buf
      ensures Valid() && app == old(app) + frames && out == old(out) + buf[..][offset..offset + frames]
      ensures Outside(old(buf[..]), buf[..], offset, offset + frames)
    {
      HoldsRun(mmapBuffer[..], stream, app, hw, slot, frames);
      HoldsLess(mmapBuffer[..], stream, app, app + frames, hw);
      ghost var data := mmapBuffer[slot..slot + frames];
      assert data == mmapBuffer[..][slot..slot + frames];
      AreasCopy(slot, buf, offset, frames);
      ApplForward(frames);
      out := out + data;
    }

    /** One round of the loop of pcm_mmap_transfer_areas: begin, copy, commit. */
    method TransferChunk(buf: array<Frame>, offset: nat, size: nat) returns (commit: nat)
      requires Valid() && mmapBuffer != buf && offset + size <= buf.Length && 0 < size <= Room()
      modifies this, mmapBuffer, if capture then {buf} else {}
      ensures Valid() && 0 < commit <= size && app == old(app) + commit && size - commit <= Room() && old(hw) <= hw
      ensures Transferred() == old(Transferred()) + buf[..][offset..offset + commit]
      ensures if capture then old(stream) <= stream else buf[..] == old(buf[..])
      ensures Outside(old(buf[..]), buf[..], offset, offset + commit)
    {
      var slot, frames := Begin(size);
      if capture {
        TakeChunk(slot, buf, offset, frames);
      } else {
        PutChunk(slot, buf, offset, frames);
        assert buf[..][offset..offset + frames] == buf[offset..offset + frames];
      }
      SyncPtr();
      commit := frames;
    }

    /** The same round, as it continues a transfer that began at `start`. */
    method TransferNext(buf: array<Frame>, offset: nat, size: nat, ghost before: seq<Frame>, ghost first: seq<Frame>,
                        ghost start: nat) returns (commit: nat)
      requires Valid() && mmapBuffer != buf && offset + size <= buf.Length && 0 < size <= Room()
      requires Moved(before, Transferred(), first, buf[..], start, offset)
      modifies this, mmapBuffer, if capture then {buf} else {}
      ensures Valid() && 0 < commit <= size && app == old(app) + commit && size - commit <= Room() && old(hw) <= hw
      ensures Moved(before, Transferred(), first, buf[..], start, offset + commit)
      ensures capture ==> old(stream) <= stream
    {
      ghost var now, log := buf[..], Transferred();
      commit := TransferChunk(buf, offset, size);
      NextPiece(before, log, Transferred(), first, now, buf[..], start, offset, offset + commit);
    }

    /** pcm_mmap_transfer_areas, called with at least `size` frames of room: it ends, it transfers exactly
        `size` frames in order, and the queued frames stay as they are. */
    method TransferAreas(buf: array<Frame>, offset: nat, size: nat) returns (count: nat)
      requires Valid() && mmapBuffer != buf && offset + size <= buf.Length && size <= Room()
      modifies this, mmapBuffer, if capture then {buf} else {}
      ensures Valid() && count == size && app == old(app) + size && old(hw) <= hw
      ensures Moved(old(Transferred()), Transferred(), old(buf[..]), buf[..], offset, offset + size)
      ensures capture ==> old(stream) <= stream
    {
      hide Moved, Holds, Geometry, PointsAt;
      count := 0;
      ghost var first, moved := buf[..], Transferred();
      NothingMoved(moved, first, offset);
      while count < size
        invariant Valid() && count <= size && app == old(app) + count && size - count <= Room() && old(hw) <= hw
        invariant Moved(moved, Transferred(), first, buf[..], offset, offset + count)
        invariant capture ==> old(stream) <= stream
      {
        var commit := TransferNext(buf, offset + count, size - count, moved, first, offset);
        count := count + commit;
      }
    }

    /** The first round of that loop on a playback ring with any amount of room.  In the full-ring case the
        reported space is taken at its word, and the oldest queued frame is overwritten. */
    method FirstRound(buf: array<Frame>, offset: nat, size: nat) returns (commit: nat, overrun: bool)
      requires Valid() && !capture && mmapBuffer != buf && offset + size <= buf.Length && 0 < size
      modifies this, mmapBuffer
      ensures commit <= size && old(hw) <= hw && app == old(app) + commit
      ensures overrun <==> Room() < 0
      ensures !overrun ==> Valid() && stream == old(stream) + buf[offset..offset + commit]
      ensures !overrun ==> commit >= Least(size, old(Room()), bufferSize - old(app) % bufferSize)
      ensures overrun ==> commit > 0 && stream == old(stream) && hw < |stream| && 0 < bufferSize == mmapBuffer.Length && mmapBuffer[hw % bufferSize] == buf[offset]
      ensures hw == old(hw) ==> (overrun <==> old(hwPtr + bufferSize - applPtr) == boundary)
    {
      var slot, frames := Begin(size);
      overrun := hwPtr + bufferSize - applPtr == boundary;
      if overrun {
        PlaybackAvailExactly(hwPtr, applPtr, hw, app, bufferSize, boundary);
        SameRemainder(app, hw, 1, bufferSize);
        AreasCopy(slot, buf, offset, frames);
        assert mmapBuffer[slot..slot + frames][0] == buf[offset..offset + frames][0];
        ApplForward(frames);
      } else {
        PutChunk(slot, buf, offset, frames);
      }
      commit := frames;
    }

    /** One pass of the loop of pcm_mmap_transfer that does not wait: as much of `count` frames as there is
        room for, `room` being what the pass finds once the pointers are synchronised.  The caller's trouble is
        a full playback ring whose raw difference is the boundary. */
    method TransferSome(buf: array<Frame>, offset: nat, count: nat) returns (frames: nat, ghost room: int)
      requires Valid() && mmapBuffer != buf && offset + count <= buf.Length
      requires capture || hwPtr + bufferSize - applPtr != boundary
      modifies this, mmapBuffer, if capture then {buf} else {}
      ensures Valid() && app == old(app) + frames && frames == Min(count, room)
      ensures old(Room()) <= room <= old(Room()) + (hw - old(hw))
      ensures Moved(old(Transferred()), Transferred(), old(buf[..]), buf[..], offset, offset + frames)
    {
      var avail := Avail();
      room := Room();
      frames := count;
      if frames > avail {
        frames := avail;
      }
      frames := TransferAreas(buf, offset, frames);
    }
  }
}
