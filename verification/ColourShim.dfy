/** The colour shim's cache of the frames it has turned already. */
module ColourShim {
  import opened ColourPixels
  import opened RoundRobin

  const FDMAP: nat := 24

  // ---------------------------------------------------------------- turn every frame once

  /** The descriptors that have a slot, oldest first, with the hashes last left for them */
  datatype Marks = Marks(queue: seq<int>, left: map<int, Sum>)

  ghost predicate MarksOk(m: Marks) {
    Distinct(m.queue) && |m.queue| <= FDMAP && 0 !in m.queue && forall fd :: fd in m.left <==> fd in m.queue
  }

  /** fd_slot: a new descriptor takes the oldest one's slot and starts with hash 0. */
  function Slotted(m: Marks, fd: int): Marks {
    if fd in m.queue then m
    else
      var kept := if |m.queue| < FDMAP || m.queue == [] then m.left else m.left - {m.queue[0]};
      Marks(Push(m.queue, fd, FDMAP), kept[fd := 0])
  }

  /** One present of the buffer `buf` behind descriptor `fd` */
  function Presented(m: Marks, fd: int, buf: seq<Pixel>): (Marks, seq<Pixel>) {
    var m1 := Slotted(m, fd);
    if fd in m1.left && m1.left[fd] != Hash(buf)
    then (m1.(left := m1.left[fd := Hash(AllTurned(buf))]), AllTurned(buf))
    else (m1, buf)
  }

  datatype Slot = Slot(fd: int, hash: Sum)

  function Fds(slots: seq<Slot>): (fds: seq<int>)
    ensures |fds| == |slots| && forall k :: 0 <= k < |slots| ==> fds[k] == slots[k].fd
  {
    seq(|slots|, k requires 0 <= k < |slots| => slots[k].fd)
  }

  class FdTable {
    const slots: array<Slot>
    var rr: nat
    ghost var marks: Marks

    ghost predicate Valid()
      reads this, slots
    {
      && slots.Length == FDMAP && MarksOk(marks) && Table(Fds(slots[..]), rr, marks.queue)
      && forall k :: 0 <= k < FDMAP && slots[k].fd != 0 ==> slots[k].fd in marks.left && marks.left[slots[k].fd] == slots[k].hash
    }

    constructor ()
      ensures Valid() && marks == Marks([], map[]) && fresh(slots)
    {
      slots := new Slot[FDMAP](_ => Slot(0, 0));
      rr := 0;
      marks := Marks([], map[]);
      new;
      assert Fds(slots[..])[..0] == [];
    }

    /** The loop of fd_slot */
    method Search(fd: int) returns (i: nat, freei: int)
      requires Valid() && fd > 0
      ensures if fd in marks.queue then i < FDMAP && slots[i].fd == fd
              else i == FDMAP && if freei < 0 then |marks.queue| == FDMAP else freei == |marks.queue| < FDMAP
    {
      i, freei := 0, -1;
      ghost var fds := Fds(slots[..]);
      TableHas(fds, rr, marks.queue, fd);
      while i < FDMAP
        invariant i <= FDMAP && forall k :: 0 <= k < i ==> fds[k] != fd
        invariant if freei < 0 then forall k :: 0 <= k < i ==> fds[k] != 0
                  else freei < i && fds[freei] == 0 && forall k :: 0 <= k < freei ==> fds[k] != 0
      {
        if slots[i].fd == fd {
          assert fds[i] == fd;
          return;
        }
        if freei < 0 && slots[i].fd == 0 {
          freei := i;
        }
        i := i + 1;
      }
      FreeIs(fds, rr, marks.queue, freei);
    }

    /** fd_slot; the callers pass open descriptors other than 0. */
    method FdSlot(fd: int) returns (slot: nat)
      requires Valid() && fd > 0
      modifies this`rr, this`marks, slots
      ensures Valid() && marks == Slotted(old(marks), fd)
      ensures slot < FDMAP && slots[slot].fd == fd && slots[slot].hash == marks.left[fd]
    {
      hide Table;
      ghost var q, before := marks.queue, Fds(slots[..]);
      var i, freei := Search(fd);
      if i < FDMAP {
        return i;
      }
      TablePush(before, rr, q, fd);
      OthersKept(before, rr, q, Victim(rr, q, FDMAP));
      if freei < 0 {
        freei := rr;
        NextRrIs(rr, q, FDMAP);
        rr := (rr + 1) % FDMAP;
      }
      slot := freei;
      slots[slot] := Slot(fd, 0);
      assert Fds(slots[..]) == before[slot := fd];
      PushDistinct(q, fd, FDMAP);
      marks := Slotted(marks, fd);
    }

    /** The hash-compare-turn core of handle_layer and handle_osd */
    method Present(fd: int, px: array<Pixel>, npix: nat) returns (turned: bool)
      requires Valid() && fd > 0 && npix <= px.Length
      modifies this`rr, this`marks, slots, px
      ensures Valid() && (marks, px[..npix]) == Presented(old(marks), fd, old(px[..npix]))
      ensures px[npix..] == old(px[npix..])
      ensures fd in Slotted(old(marks), fd).left && (turned <==> Slotted(old(marks), fd).left[fd] != Hash(old(px[..npix])))
    {
      hide Hash, AllTurned, Table;
      var slot := FdSlot(fd);
      var h := Process(px, npix, false);
      turned := false;
      if slots[slot].hash != h {
        var left := Process(px, npix, true);
        ghost var fds := Fds(slots[..]);
        OneSlot(fds, rr, marks.queue, slot);
        slots[slot] := slots[slot].(hash := left);
        assert Fds(slots[..]) == fds;
        marks := marks.(left := marks.left[fd := left]);
        turned := true;
      }
    }
  }

  // ---------------------------------------------------------------- presenting again and again

  type Buffers = map<int, seq<Pixel>>

  /** Presenting the buffers behind `fds` one after the other, with no writes in between */
  function PresentAll(m: Marks, bufs: Buffers, fds: seq<int>): (Marks, Buffers)
    decreases |fds|
  {
    if fds == [] then (m, bufs)
    else
      var fd := fds[0];
      var (m1, buf) := Presented(m, fd, if fd in bufs then bufs[fd] else []);
      PresentAll(m1, bufs[fd := buf], fds[1..])
  }

  lemma SlottedOk(m: Marks, fd: int)
    requires MarksOk(m) && fd > 0
    ensures MarksOk(Slotted(m, fd)) && Slotted(m, fd).queue == Push(m.queue, fd, FDMAP) && fd in Slotted(m, fd).left
  {
    PushDistinct(m.queue, fd, FDMAP);
    if fd !in m.queue {
      var q, q' := m.queue, Slotted(m, fd).queue;
      forall x ensures x in q' <==> x in Slotted(m, fd).left {
        if |q| < FDMAP { assert x in q' <==> x in q || x == fd; }
        else {
          assert q == [q[0]] + q[1..];
          assert x in q <==> x == q[0] || x in q[1..];
          assert x in q' <==> x in q[1..] || x == fd;
          if x in q[1..] { var i :| 0 <= i < |q[1..]| && q[1..][i] == x; assert q[i + 1] == x != q[0]; }
        }
      }
    }
  }

  /** A buffer is turned exactly when its hash is not the one left for its descriptor; a descriptor without
      a slot counts as left at 0.  Then the hash of what is in the buffer is the one left. */
  lemma PresentedExactly(m: Marks, fd: int, buf: seq<Pixel>)
    requires MarksOk(m) && fd > 0
    ensures var (m', buf') := Presented(m, fd, buf);
      && MarksOk(m') && m'.queue == Push(m.queue, fd, FDMAP)
      && fd in m'.left && m'.left[fd] == Hash(buf')
      && buf' == (if Hash(buf) != (if fd in m.left then m.left[fd] else 0) then AllTurned(buf) else buf)
      && forall other :: other != fd && other in m'.left ==> other in m.left && m'.left[other] == m.left[other]
  {
    hide Hash, AllTurned;
    SlottedOk(m, fd);
  }

  /** `fd` has a slot, and what was last left in its buffer is still there. */
  ghost predicate Settled(m: Marks, bufs: Buffers, fd: int) {
    fd in m.queue && fd in m.left && fd in bufs && m.left[fd] == Hash(bufs[fd])
  }

  /** Once presented, a buffer is never turned again by presents of any buffers, its own included, for as
      long as its descriptor keeps its slot. */
  lemma {:induction false} SettledStays(m: Marks, bufs: Buffers, fds: seq<int>, fd: int)
    requires MarksOk(m) && Settled(m, bufs, fd) && (forall i :: 0 <= i < |fds| ==> fds[i] > 0)
    requires forall i :: 0 <= i <= |fds| ==> fd in PushAll(m.queue, fds[..i], FDMAP)
    ensures fd in PresentAll(m, bufs, fds).1 && PresentAll(m, bufs, fds).1[fd] == bufs[fd]
    decreases |fds|
  {
    hide Hash, AllTurned;
    if fds != [] {
      var buf := if fds[0] in bufs then bufs[fds[0]] else [];
      var (m1, buf1) := Presented(m, fds[0], buf);
      PresentedExactly(m, fds[0], buf);
      forall i | 0 <= i <= |fds[1..]| ensures fd in PushAll(m1.queue, fds[1..][..i], FDMAP) {
        assert fds[..i + 1][1..] == fds[1..][..i] && fds[..i + 1][0] == fds[0];
        assert fd in PushAll(m.queue, fds[..i + 1], FDMAP);
      }
      assert fds[1..][..0] == [] && fd in m1.queue;
      SettledStays(m1, bufs[fds[0] := buf1], fds[1..], fd);
    }
  }

  /** A frame whose hash differs from the stored one is turned exactly once by being presented and then
      presented any number of times, among any other buffers, while its descriptor keeps its slot. */
  lemma TurnedOnce(m: Marks, bufs: Buffers, fds: seq<int>, fd: int)
    requires MarksOk(m) && fd > 0 && fd in bufs && Hash(bufs[fd]) != (if fd in m.left then m.left[fd] else 0)
    requires forall i :: 0 <= i < |fds| ==> fds[i] > 0
    requires forall i :: 0 <= i <= |fds| ==> fd in PushAll(Push(m.queue, fd, FDMAP), fds[..i], FDMAP)
    ensures var after := PresentAll(m, bufs, [fd] + fds).1; fd in after && after[fd] == AllTurned(bufs[fd])
  {
    hide Hash, AllTurned;
    PresentedExactly(m, fd, bufs[fd]);
    PushDistinct(m.queue, fd, FDMAP);
    var (m1, buf1) := Presented(m, fd, bufs[fd]);
    SettledStays(m1, bufs[fd := buf1], fds, fd);
    assert ([fd] + fds)[1..] == fds;
  }

  /** A new descriptor keeps its slot among fewer than 24 others. */
  lemma TurnedOnceAmongFew(m: Marks, bufs: Buffers, fds: seq<int>, fd: int)
    requires MarksOk(m) && fd > 0 && fd !in m.queue && fd in bufs && Hash(bufs[fd]) != 0
    requires (forall i :: 0 <= i < |fds| ==> fds[i] > 0) && |Elements(fds) - {fd}| < FDMAP
    ensures var after := PresentAll(m, bufs, [fd] + fds).1; fd in after && after[fd] == AllTurned(bufs[fd])
  {
    hide Hash, AllTurned;
    PushDistinct(m.queue, fd, FDMAP);
    forall i | 0 <= i <= |fds| ensures fd in PushAll(Push(m.queue, fd, FDMAP), fds[..i], FDMAP) {
      FewerElements(fds[..i], fds, fd);
      NewestStays(Push(m.queue, fd, FDMAP), fd, fds[..i], FDMAP);
    }
    TurnedOnce(m, bufs, fds, fd);
  }

  lemma FewerElements(s: seq<int>, t: seq<int>, x: int)
    requires s <= t
    ensures |Elements(s) - {x}| <= |Elements(t) - {x}|
  {
    forall y | y in s ensures y in t { var i :| 0 <= i < |s| && s[i] == y; assert t[i] == y; }
    Subset(Elements(s) - {x}, Elements(t) - {x});
  }

  lemma Subset(s: set<int>, t: set<int>)
    requires s <= t
    ensures |s| <= |t|
  {
    assert t == s + (t - s) && s * (t - s) == {};
  }

  // ---------------------------------------------------------------- losing the slot

  /** A buffer whose descriptor has no slot is turned, even again and unchanged, unless its hash is 0. */
  lemma LostSlotTurnsAgain(m: Marks, fd: int, buf: seq<Pixel>)
    requires MarksOk(m) && fd > 0 && fd !in m.queue
    ensures Presented(m, fd, buf).1 == (if Hash(buf) != 0 then AllTurned(buf) else buf)
  {
    PresentedExactly(m, fd, buf);
  }

  /** Presents of other buffers leave this one alone, and its stored hash while it has a slot. */
  lemma {:induction false} OthersPresented(m: Marks, bufs: Buffers, ys: seq<int>, fd: int)
    requires MarksOk(m) && fd in bufs && fd !in ys && (forall i :: 0 <= i < |ys| ==> ys[i] > 0)
    ensures var (m', bufs') := PresentAll(m, bufs, ys);
      && MarksOk(m') && m'.queue == PushAll(m.queue, ys, FDMAP) && fd in bufs' && bufs'[fd] == bufs[fd]
      && (fd in m'.left ==> fd in m.left && m'.left[fd] == m.left[fd])
    decreases |ys|
  {
    hide Hash, AllTurned;
    if ys != [] {
      var y, buf := ys[0], if ys[0] in bufs then bufs[ys[0]] else [];
      var (m1, buf1) := Presented(m, y, buf);
      assert y in ys && forall i :: 0 <= i < |ys| - 1 ==> ys[1..][i] == ys[i + 1];
      PresentedExactly(m, y, buf);
      OthersPresented(m1, bufs[y := buf1], ys[1..], fd);
    }
  }

  /** A buffer that has been turned, at place `p` of the queue, is left alone by its next present exactly when
      the descriptors presented in between were new to the table no more often than there were slots free or
      older, or turning it again cannot be seen. */
  lemma LeftAloneExactly(m: Marks, bufs: Buffers, ys: seq<int>, fd: int, p: nat)
    requires MarksOk(m) && Settled(m, bufs, fd) && p < |m.queue| && m.queue[p] == fd && fd > 0
    requires fd !in ys && (forall i :: 0 <= i < |ys| ==> ys[i] > 0)
    ensures var (m', bufs') := PresentAll(m, bufs, ys);
      && fd in bufs' && bufs'[fd] == bufs[fd]
      && (Presented(m', fd, bufs'[fd]).1 == bufs[fd] <==>
          || Misses(m.queue, ys, FDMAP) <= FDMAP - |m.queue| + p
          || Hash(bufs[fd]) == 0 || AllTurned(bufs[fd]) == bufs[fd])
  {
    hide Hash, AllTurned, Presented;
    OthersPresented(m, bufs, ys, fd);
    StaysExactly(m.queue, p, fd, ys, FDMAP);
    var (m', bufs') := PresentAll(m, bufs, ys);
    PresentedExactly(m', fd, bufs'[fd]);
  }

  lemma {:induction false} PresentAllAdd(m: Marks, bufs: Buffers, xs: seq<int>, ys: seq<int>)
    ensures var (m1, bufs1) := PresentAll(m, bufs, xs); PresentAll(m, bufs, xs + ys) == PresentAll(m1, bufs1, ys)
    decreases |xs|
  {
    hide Hash, AllTurned, Presented;
    if xs == [] {
      assert xs + ys == ys;
    } else {
      var (m1, buf) := Presented(m, xs[0], if xs[0] in bufs then bufs[xs[0]] else []);
      assert (xs + ys)[1..] == xs[1..] + ys;
      PresentAllAdd(m1, bufs[xs[0] := buf], xs[1..], ys);
    }
  }

  /** The 24 descriptors 2 to 25 */
  function OtherFds(): (ys: seq<int>)
    ensures |ys| == 24 && forall i :: 0 <= i < |ys| ==> ys[i] == i + 2
  {
    seq(24, i => i + 2)
  }

  /** A frame presented once to an empty table, then 24 other buffers: the frame has been turned once, and its
      descriptor has no slot. */
  lemma SlotLost(m: Marks, bufs: Buffers, buf: seq<Pixel>, ys: seq<int>)
    requires m == Marks([], map[]) && bufs == map[1 := buf] && Hash(buf) != 0 && ys == OtherFds()
    ensures var (m', bufs') := PresentAll(m, bufs, [1] + ys);
      MarksOk(m') && 1 !in m'.left && 1 in bufs' && bufs'[1] == AllTurned(buf)
  {
    hide Hash, AllTurned, Presented, OtherFds;
    PresentedExactly(m, 1, buf);
    var (m1, bufs1) := PresentAll(m, bufs, [1]);
    assert m1 == Presented(m, 1, buf).0 && bufs1 == bufs[1 := AllTurned(buf)] && m1.queue == [1];
    NewMisses(m1.queue, ys, FDMAP);
    OthersPresented(m1, bufs1, ys, 1);
    StaysExactly(m1.queue, 0, 1, ys, FDMAP);
    PresentAllAdd(m, bufs, [1], ys);
  }

  /** Presented again, with nothing written to it, it is turned a second time. */
  lemma TurnedTwice(m: Marks, bufs: Buffers, buf: seq<Pixel>, ys: seq<int>)
    requires m == Marks([], map[]) && bufs == map[1 := buf] && ys == OtherFds()
    requires Hash(buf) != 0 && Hash(AllTurned(buf)) != 0
    ensures var after := PresentAll(m, bufs, [1] + ys + [1]).1; 1 in after && after[1] == AllTurned(AllTurned(buf))
  {
    hide Hash, AllTurned, Presented, OtherFds;
    SlotLost(m, bufs, buf, ys);
    var (m1, bufs1) := PresentAll(m, bufs, [1] + ys);
    PresentedExactly(m1, 1, bufs1[1]);
    PresentAllAdd(m, bufs, [1] + ys, [1]);
  }

  lemma NoHash()
    ensures Combine(Lanes(0, 0, 0, 0)) == 0
  {
    assert Mul(0, 1) == 0 && Mul(0, 2246822519) == 0 && Mul(0, 3266489917) == 0 && Mul(0, 668265263) == 0;
  }

  lemma OnePixel(p: Pixel)
    ensures Hash([p]) == TailStep(0, p) && AllTurned([p]) == [Turned(p)]
  {
    hide Combine, TailStep;
    NoHash();
    var s := [p];
    assert s[..0] == [] && s[0..] == s;
    assert Tail(0, s) == TailStep(Tail(0, s[..0]), p);
  }

  lemma PackedRed()
    ensures Pack(Pixel(1, 0, 0, 0)) == 1 && Pack(Pixel(0, 0, 1, 0)) == 0x1_0000
  {
  }

  lemma HashedRed()
    ensures TailStep(0, Pixel(1, 0, 0, 0)) == 1 && TailStep(0, Pixel(0, 0, 1, 0)) == 0x1_0000
  {
    PackedRed();
    hide Pack;
    assert Mul(0, 2654435761) == 0;
  }

  /** A buffer of one red pixel ends up turned twice. */
  lemma TurnedTwiceExample(m: Marks, bufs: Buffers, red: seq<Pixel>)
    requires m == Marks([], map[]) && red == [Pixel(1, 0, 0, 0)] && bufs == map[1 := red]
    ensures var after := PresentAll(m, bufs, [1] + OtherFds() + [1]).1;
      1 in after && after[1] == AllTurned(AllTurned(red)) != AllTurned(red)
  {
    hide Hash, AllTurned, TailStep, PresentAll, OtherFds;
    HashedRed();
    OnePixel(Pixel(1, 0, 0, 0));
    OnePixel(Pixel(0, 0, 1, 0));
    TurnedTwice(m, bufs, red, OtherFds());
  }
}
