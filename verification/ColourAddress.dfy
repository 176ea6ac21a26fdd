/** The colour shim's two tables together: frames come by physical address, the address table knows the
    descriptor, and the descriptor's slot knows whether the frame has been turned. */
module ColourAddress {
  import opened ColourPixels
  import opened RoundRobin
  import opened ColourShim
  import opened PhysTable

  /** `bufs` is what lies at each address. */
  datatype Shim = Shim(known: Known, marks: Marks, bufs: Buffers)

  /** _sprdcolor_record, with what dup() made of the descriptor, or an OSD present */
  datatype Event = Record(x: int, e: Entry) | Present(x: int)

  /** The descriptor under which a present of `x` looks for its slot, or nothing */
  predicate HasFd(s: Shim, x: int) { x in s.known.entries && s.known.entries[x].fd > 0 }

  function Fd(s: Shim, x: int): int
    requires HasFd(s, x)
  {
    s.known.entries[x].fd
  }

  /** The addresses and descriptors are in order: no two addresses own the same duplicate. */
  ghost predicate ShimOk(s: Shim) {
    && KnownOk(s.known) && MarksOk(s.marks)
    && forall x, y :: x != y && HasFd(s, x) && HasFd(s, y) ==> Fd(s, x) != Fd(s, y)
  }

  /** dup() returns -1 or a number that no remaining duplicate has. */
  ghost predicate Possible(s: Shim, ev: Event) {
    ev.Record? ==> ev.x != 0 && (ev.e.fd == -1 || (ev.e.fd > 0 && Free(Recorded(s.known, ev.x, ev.e), ev.x, ev.e.fd)))
  }

  predicate Free(k: Known, x: int, fd: int) { forall y :: y in k.entries && y != x ==> k.entries[y].fd != fd }

  function Next(s: Shim, ev: Event): Shim {
    match ev
    case Record(x, e) => s.(known := Recorded(s.known, x, e))
    case Present(x) =>
      if HasFd(s, x) && x in s.bufs then
        var (m, buf) := Presented(s.marks, Fd(s, x), s.bufs[x]);
        s.(marks := m, bufs := s.bufs[x := buf])
      else s
  }

  ghost predicate Runs(s: Shim, evs: seq<Event>)
    decreases |evs|
  {
    evs == [] || (Possible(s, evs[0]) && Runs(Next(s, evs[0]), evs[1..]))
  }

  function After(s: Shim, evs: seq<Event>): Shim
    decreases |evs|
  {
    if evs == [] then s else After(Next(s, evs[0]), evs[1..])
  }

  lemma NextOk(s: Shim, ev: Event)
    requires ShimOk(s) && Possible(s, ev)
    ensures ShimOk(Next(s, ev))
  {
    hide Hash, AllTurned, Recorded, Presented;
    match ev
    case Record(x, e) =>
      RecordedOk(s.known, x, e);
      RecordedNew(s.known, x, e);
      var s' := Next(s, ev);
      forall y, z | y != z && HasFd(s', y) && HasFd(s', z) ensures Fd(s', y) != Fd(s', z) {
        if y != x && z != x { assert HasFd(s, y) && HasFd(s, z); }
      }
    case Present(x) =>
      if HasFd(s, x) && x in s.bufs { PresentedExactly(s.marks, Fd(s, x), s.bufs[x]); }
      assert forall y :: HasFd(Next(s, ev), y) == HasFd(s, y);
  }

  lemma RecordedNew(k: Known, x: int, e: Entry)
    ensures x in Recorded(k, x, e).entries && Recorded(k, x, e).entries[x] == e
  {
  }

  /** The hash that a present of `x` compares with */
  function Stored(s: Shim, x: int): Sum
    requires HasFd(s, x)
  {
    if Fd(s, x) in s.marks.left then s.marks.left[Fd(s, x)] else 0
  }

  /** A present turns the buffer exactly when its address is in the table with a duplicate and the hash stored
      for that duplicate is another. */
  lemma TurnedExactly(s: Shim, x: int)
    requires ShimOk(s) && x in s.bufs
    ensures var s' := Next(s, Present(x));
      && s'.bufs[x] == (if HasFd(s, x) && Stored(s, x) != Hash(s.bufs[x]) then AllTurned(s.bufs[x]) else s.bufs[x])
      && (HasFd(s, x) ==> HasFd(s', x) && Stored(s', x) == Hash(s'.bufs[x]))
  {
    hide Hash, AllTurned, Presented;
    if HasFd(s, x) { PresentedExactly(s.marks, Fd(s, x), s.bufs[x]); }
  }

  /** What the tables still know of `x`: if it is there, it has the same duplicate, and if that has a slot, the
      same hash. */
  ghost predicate Remembers(s: Shim, x: int, fd: int, left: Sum) {
    x in s.known.queue ==> HasFd(s, x) && Fd(s, x) == fd && (fd in s.marks.left ==> s.marks.left[fd] == left)
  }

  lemma NextRemembers(s: Shim, ev: Event, x: int, fd: int, left: Sum)
    requires ShimOk(s) && Possible(s, ev) && ev.x != x && Remembers(s, x, fd, left) && x in s.bufs
    ensures Remembers(Next(s, ev), x, fd, left) && x in Next(s, ev).bufs && Next(s, ev).bufs[x] == s.bufs[x]
    ensures x !in s.known.queue ==> x !in Next(s, ev).known.queue
  {
    hide Hash, AllTurned, Recorded, Presented;
    match ev
    case Record(y, e) => RecordedOk(s.known, y, e);
    case Present(y) =>
      if HasFd(s, y) && y in s.bufs { PresentedExactly(s.marks, Fd(s, y), s.bufs[y]); }
  }

  lemma {:induction false} RunRemembers(s: Shim, evs: seq<Event>, x: int, fd: int, left: Sum)
    requires ShimOk(s) && Runs(s, evs) && Remembers(s, x, fd, left) && x in s.bufs
    requires forall i :: 0 <= i < |evs| ==> evs[i].x != x
    ensures ShimOk(After(s, evs)) && Remembers(After(s, evs), x, fd, left)
    ensures x in After(s, evs).bufs && After(s, evs).bufs[x] == s.bufs[x]
    decreases |evs|
  {
    hide ShimOk, Remembers, Possible, Next;
    if evs != [] {
      NextOk(s, evs[0]);
      NextRemembers(s, evs[0], x, fd, left);
      RunRemembers(Next(s, evs[0]), evs[1..], x, fd, left);
    }
  }

  /** An unchanged buffer that is presented, and presented again after any records and presents of other
      addresses, is left alone the second time exactly when its address has left the table, its duplicate has
      kept its slot, or turning it again cannot be seen. */
  lemma TurnedOnceByAddress(s: Shim, evs: seq<Event>, x: int)
    requires ShimOk(s) && HasFd(s, x) && x in s.bufs && Runs(Next(s, Present(x)), evs)
    requires forall i :: 0 <= i < |evs| ==> evs[i].x != x
    ensures var s1 := Next(s, Present(x));
      var s2 := After(s1, evs);
      && x in s1.bufs && x in s2.bufs && s2.bufs[x] == s1.bufs[x]
      && var buf := s2.bufs[x];
      && (Next(s2, Present(x)).bufs[x] == buf <==>
          x !in s2.known.queue || Fd(s, x) in s2.marks.queue || Hash(buf) == 0 || AllTurned(buf) == buf)
  {
    hide Hash, AllTurned, Presented;
    var s1, fd := Next(s, Present(x)), Fd(s, x);
    NextOk(s, Present(x));
    TurnedExactly(s, x);
    RunRemembers(s1, evs, x, fd, Hash(s1.bufs[x]));
    TurnedExactly(After(s1, evs), x);
  }

  /** Recording the address again gives it another duplicate: then the present leaves the buffer alone exactly
      when dup() failed, the new number happens to stand for the same hash, or turning cannot be seen. */
  lemma RecordedAgain(s: Shim, x: int, e: Entry)
    requires ShimOk(s) && Possible(s, Record(x, e)) && x in s.bufs
    ensures var s1 := Next(s, Record(x, e));
      && ShimOk(s1) && x in s1.bufs && s1.bufs[x] == s.bufs[x]
      && (Next(s1, Present(x)).bufs[x] == s.bufs[x] <==>
          || e.fd <= 0 || (if e.fd in s.marks.left then s.marks.left[e.fd] else 0) == Hash(s.bufs[x])
          || AllTurned(s.bufs[x]) == s.bufs[x])
  {
    hide Hash, AllTurned, Recorded;
    NextOk(s, Record(x, e));
    RecordedNew(s.known, x, e);
    TurnedExactly(Next(s, Record(x, e)), x);
  }

  lemma OnlyRecorded(k: Known, x: int, e: Entry, fd: int)
    requires forall y :: y in k.entries ==> y == x
    ensures Free(Recorded(k, x, e), x, fd) && forall y :: y in Recorded(k, x, e).entries ==> y == x
  {
  }

  /** The booted shim with one red pixel: turned at the first present, left alone at the second, and turned
      again once its address has been recorded under another number. */
  lemma RecordedAgainExample(s: Shim, red: seq<Pixel>)
    requires s == Shim(Known([], map[]), Marks([], map[]), map[7 := red]) && red == [Pixel(1, 0, 0, 0)]
    ensures var s1 := Next(Next(s, Record(7, Entry(3, 4))), Present(7));
      var s2 := Next(Next(s1, Record(7, Entry(4, 4))), Present(7));
      && 7 in s1.bufs && s1.bufs[7] == AllTurned(red)
      && Next(s1, Present(7)).bufs == s1.bufs
      && 7 in s2.bufs && s2.bufs[7] == AllTurned(AllTurned(red)) != AllTurned(red)
  {
    hide Hash, AllTurned, TailStep, Recorded, Presented;
    HashedRed();
    OnePixel(Pixel(1, 0, 0, 0));
    OnePixel(Pixel(0, 0, 1, 0));
    var first, again := Record(7, Entry(3, 4)), Record(7, Entry(4, 4));
    OnlyRecorded(s.known, 7, first.e, 3);
    RecordedAgain(s, 7, first.e);
    RecordedNew(s.known, 7, first.e);
    var r := Next(s, first);
    PresentedExactly(r.marks, 3, red);
    var s1 := Next(r, Present(7));
    NextOk(r, Present(7));
    TurnedExactly(s1, 7);
    OnlyRecorded(s1.known, 7, again.e, 4);
    RecordedAgain(s1, 7, again.e);
    RecordedNew(s1.known, 7, again.e);
    TurnedExactly(Next(s1, again), 7);
  }
}
