/** The colour shim's table from physical addresses to its own duplicates of ion descriptors. */
module PhysTable {
  import opened Common
  import opened RoundRobin

  const PHYSMAP: nat := 16

  datatype Entry = Entry(fd: int, len: nat)

  /** What the table remembers: the recorded addresses, oldest first, and what is known of each */
  datatype Known = Known(queue: seq<int>, entries: map<int, Entry>)

  /** A recorded address keeps its place; a new one takes the place of the oldest if the table is full. */
  function Recorded(k: Known, phys: int, e: Entry): Known {
    var kept := if phys in k.queue || |k.queue| < PHYSMAP || k.queue == [] then k.entries else k.entries - {k.queue[0]};
    Known(Push(k.queue, phys, PHYSMAP), kept[phys := e])
  }

  /** The open duplicates are exactly the positive descriptors of the table, each in one slot. */
  ghost predicate OwnsAll(fds: seq<int>, live: set<int>) {
    && (forall k :: 0 <= k < |fds| && fds[k] > 0 ==> fds[k] in live)
    && (forall n :: n in live ==> n > 0 && n in fds)
    && (forall j, k :: 0 <= j < |fds| && 0 <= k < |fds| && j != k && fds[j] > 0 ==> fds[j] != fds[k])
  }

  /** After slot `k` lost its duplicate it can take a fresh one, or -1. */
  lemma OwnsNext(fds: seq<int>, live: set<int>, k: nat, n: int)
    requires OwnsAll(fds, live) && k < |fds| && (n == -1 || (n > 0 && n !in live - {fds[k]}))
    ensures OwnsAll(fds[k := n], live - {fds[k]} + (if n > 0 then {n} else {}))
  {
    var fds', rest := fds[k := n], live - {fds[k]};
    forall x | x in rest ensures x in fds' {
      var j :| 0 <= j < |fds| && fds[j] == x;
      assert fds'[j] == x;
    }
    assert fds'[k] == n;
  }

  /** What the slots say is what is known. */
  ghost predicate Shows(phys: seq<int>, fd: seq<int>, len: seq<nat>, k: Known) {
    && |phys| == |fd| == |len|
    && (forall i :: 0 <= i < |phys| ==>
          if phys[i] == 0 then fd[i] == 0 else phys[i] in k.entries && k.entries[phys[i]] == Entry(fd[i], len[i]))
    && (forall x :: x in k.entries <==> x in k.queue)
  }

  class Table16 {
    const phys: array<int>
    const fd: array<int>
    const len: array<nat>
    var rr: nat
    ghost var known: Known
    /** The kernel's side: the shim's duplicates that are open, and how many it ever made and closed */
    var live: set<int>
    ghost var dups: nat
    ghost var closes: nat

    ghost predicate Shape()
      reads this
    {
      && phys.Length == fd.Length == len.Length == PHYSMAP && phys != fd
      && (phys as object) != (len as object) && (fd as object) != (len as object)
      && dups == closes + |live|
    }

    ghost predicate Valid()
      reads this, phys, fd, len
    {
      && Shape() && Table(phys[..], rr, known.queue) && OwnsAll(fd[..], live)
      && Shows(phys[..], fd[..], len[..], known)
    }

    constructor ()
      ensures Valid() && known == Known([], map[]) && live == {} && fresh(phys) && fresh(fd) && fresh(len)
    {
      phys := new int[PHYSMAP](_ => 0);
      fd := new int[PHYSMAP](_ => 0);
      len := new nat[PHYSMAP](_ => 0);
      rr, known, live, dups, closes := 0, Known([], map[]), {}, 0, 0;
      new;
      assert phys[..][..0] == [];
    }

    /** close(): only what is open can be closed. */
    method Close(n: int)
      requires Shape() && n in live
      modifies this`live, this`closes
      ensures Shape() && live == old(live) - {n} && closes == old(closes) + 1
    {
      live, closes := live - {n}, closes + 1;
    }

    /** dup(): a number that no open duplicate has, or -1 */
    method Dup() returns (n: int)
      requires Shape()
      modifies this`live, this`dups
      ensures Shape() && live == old(live) + (if n > 0 then {n} else {})
      ensures if n == -1 then dups == old(dups) else n > 0 && n !in old(live) && dups == old(dups) + 1
    {
      n := *;
      if n > 0 && n !in live {
        live, dups := live + {n}, dups + 1;
      } else {
        n := -1;
      }
    }

    /** The loop of _sprdcolor_record */
    method Search(p: int) returns (i: nat, freei: int)
      requires Valid() && p != 0
      ensures if p in known.queue then i < PHYSMAP && phys[i] == p
              else i == PHYSMAP && if freei < 0 then |known.queue| == PHYSMAP else freei == |known.queue| < PHYSMAP
    {
      i, freei := 0, -1;
      TableHas(phys[..], rr, known.queue, p);
      while i < PHYSMAP
        invariant i <= PHYSMAP && forall k :: 0 <= k < i ==> phys[k] != p
        invariant if freei < 0 then forall k :: 0 <= k < i ==> phys[k] != 0
                  else freei < i && phys[freei] == 0 && forall k :: 0 <= k < freei ==> phys[k] != 0
      {
        if phys[i] == p {
          assert phys[..][i] == p;
          return;
        }
        if freei < 0 && phys[i] == 0 {
          freei := i;
        }
        i := i + 1;
      }
      FreeIs(phys[..], rr, known.queue, freei);
    }

    /** Close what slot `k` owns, and let it own a new duplicate. */
    method Reopen(k: nat) returns (dupfd: int)
      requires Shape() && k < PHYSMAP && OwnsAll(fd[..], live)
      modifies this`live, this`dups, this`closes
      ensures Shape() && OwnsAll(fd[..][k := dupfd], live) && (dupfd == -1 || dupfd > 0)
    {
      ghost var was := live;
      if fd[k] > 0 {
        Close(fd[k]);
      }
      assert live == was - {fd[..][k]};
      dupfd := Dup();
      OwnsNext(fd[..], was, k, dupfd);
    }

    /** _sprdcolor_record, for 32-bit addresses: the table keeps the last 16 distinct addresses in the order
        in which they first came, and every duplicate it drops is closed. */
    method Record(p: nat, f: int, length: nat)
      requires Valid() && p < WORD
      modifies this`rr, this`known, this`live, this`dups, this`closes, phys, fd, len
      ensures Valid()
      ensures if p == 0 || f < 0 then known == old(known)
              else p in known.entries && known.entries[p].len == length && known == Recorded(old(known), p, known.entries[p])
    {
      hide Table, OwnsAll, Shows;
      if p == 0 || f < 0 {
        return;
      }
      ghost var q, ps, fs, ls := known.queue, phys[..], fd[..], len[..];
      var i, freei := Search(p);
      if i < PHYSMAP {
        var dupfd := Reopen(i);
        fd[i], len[i] := dupfd, length;
        assert phys[..] == ps && fd[..] == fs[i := dupfd] && len[..] == ls[i := length];
        ShowsAgain(ps, fs, ls, rr, known, i, Entry(dupfd, length));
        known := Recorded(known, p, Entry(dupfd, length));
        return;
      }
      TablePush(ps, rr, q, p);
      ghost var slot := Victim(rr, q, PHYSMAP);
      if freei < 0 {
        freei := rr;
        NextRrIs(rr, q, PHYSMAP);
        rr := (rr + 1) % PHYSMAP;
      }
      var dupfd := Reopen(freei);
      phys[freei], fd[freei], len[freei] := p, dupfd, length;
      assert phys[..] == ps[slot := p] && fd[..] == fs[slot := dupfd] && len[..] == ls[slot := length];
      ShowsNext(ps, fs, ls, old(rr), known, p, Entry(dupfd, length));
      known := Recorded(known, p, Entry(dupfd, length));
    }
  }

  lemma ShowsAgain(phys: seq<int>, fd: seq<int>, len: seq<nat>, rr: nat, k: Known, i: nat, e: Entry)
    requires Shows(phys, fd, len, k) && Table(phys, rr, k.queue) && i < |phys| == PHYSMAP && phys[i] in k.queue && phys[i] != 0
    ensures Shows(phys, fd[i := e.fd], len[i := e.len], Recorded(k, phys[i], e))
    ensures Recorded(k, phys[i], e).queue == k.queue
  {
    OneSlot(phys, rr, k.queue, i);
  }

  lemma ShowsNext(phys: seq<int>, fd: seq<int>, len: seq<nat>, rr: nat, k: Known, p: int, e: Entry)
    requires Shows(phys, fd, len, k) && Table(phys, rr, k.queue) && |phys| == PHYSMAP && p !in k.queue && p != 0
    ensures var slot := Victim(rr, k.queue, PHYSMAP);
      slot < PHYSMAP && Shows(phys[slot := p], fd[slot := e.fd], len[slot := e.len], Recorded(k, p, e))
  {
    hide Table, Recorded;
    var slot := Victim(rr, k.queue, PHYSMAP);
    OthersKept(phys, rr, k.queue, slot);
    NewcomerShown(phys, rr, k, p, e);
    forall i | 0 <= i < PHYSMAP && i != slot && phys[i] != 0
      ensures phys[i] in Recorded(k, p, e).entries && Recorded(k, p, e).entries[phys[i]] == k.entries[phys[i]]
    {
      EntryKept(k, p, e, phys[i]);
    }
  }

  lemma NewcomerShown(phys: seq<int>, rr: nat, k: Known, p: int, e: Entry)
    requires Table(phys, rr, k.queue) && |phys| == PHYSMAP && p !in k.queue && forall x :: x in k.entries <==> x in k.queue
    ensures Victim(rr, k.queue, PHYSMAP) < PHYSMAP && KnownOk(k)
    ensures p in Recorded(k, p, e).entries && Recorded(k, p, e).entries[p] == e
    ensures forall x :: x in Recorded(k, p, e).entries <==> x in Recorded(k, p, e).queue
  {
    RecordedOk(k, p, e);
  }

  lemma EntryKept(k: Known, p: int, e: Entry, x: int)
    requires KnownOk(k) && x in k.entries && x != p && (|k.queue| == PHYSMAP ==> x != k.queue[0])
    ensures x in Recorded(k, p, e).entries && Recorded(k, p, e).entries[x] == k.entries[x]
  {
  }

  lemma PushedMembers(q: seq<int>, p: int)
    requires Distinct(q) && |q| <= PHYSMAP && p !in q
    ensures forall x :: x in Push(q, p, PHYSMAP) <==> x == p || (x in q && !(|q| == PHYSMAP && x == q[0]))
  {
    forall x ensures x in Push(q, p, PHYSMAP) <==> x == p || (x in q && !(|q| == PHYSMAP && x == q[0])) {
      if |q| == PHYSMAP {
        assert q == [q[0]] + q[1..];
        if x in q[1..] { var i :| 0 <= i < |q[1..]| && q[1..][i] == x; assert q[i + 1] == x != q[0]; }
      }
    }
  }

  // ---------------------------------------------------------------- how long an address is found

  datatype Call = Call(phys: int, e: Entry)

  function RecordAll(k: Known, calls: seq<Call>): Known
    decreases |calls|
  {
    if calls == [] then k else RecordAll(Recorded(k, calls[0].phys, calls[0].e), calls[1..])
  }

  function Addresses(calls: seq<Call>): (r: seq<int>)
    ensures |r| == |calls|
    decreases |calls|
  {
    if calls == [] then [] else [calls[0].phys] + Addresses(calls[1..])
  }

  ghost predicate KnownOk(k: Known) {
    Distinct(k.queue) && |k.queue| <= PHYSMAP && forall x :: x in k.entries <==> x in k.queue
  }

  lemma RecordedOk(k: Known, p: int, e: Entry)
    requires KnownOk(k)
    ensures KnownOk(Recorded(k, p, e)) && p in Recorded(k, p, e).queue
    ensures forall x :: x != p && x in Recorded(k, p, e).queue ==>
      x in k.queue && x in k.entries && Recorded(k, p, e).entries[x] == k.entries[x]
  {
    PushDistinct(k.queue, p, PHYSMAP);
    if p !in k.queue { PushedMembers(k.queue, p); }
  }

  /** The queue of the table is the first-in-first-out queue of the addresses recorded. */
  lemma {:induction false} RecordAllQueue(k: Known, calls: seq<Call>)
    ensures RecordAll(k, calls).queue == PushAll(k.queue, Addresses(calls), PHYSMAP)
    decreases |calls|
  {
    if calls != [] { RecordAllQueue(Recorded(k, calls[0].phys, calls[0].e), calls[1..]); }
  }

  lemma {:induction false} EntryStays(k: Known, calls: seq<Call>, x: int)
    requires KnownOk(k) && x in k.queue && x !in Addresses(calls)
    requires x in PushAll(k.queue, Addresses(calls), PHYSMAP)
    ensures KnownOk(RecordAll(k, calls))
    ensures x in RecordAll(k, calls).entries && RecordAll(k, calls).entries[x] == k.entries[x]
    decreases |calls|
  {
    if calls != [] {
      var p, e, k' := calls[0].phys, calls[0].e, Recorded(k, calls[0].phys, calls[0].e);
      RecordedOk(k, p, e);
      assert Addresses(calls)[0] == p && Addresses(calls)[1..] == Addresses(calls[1..]);
      assert x != p;
      forall i | 0 <= i < |calls| - 1 ensures Addresses(calls[1..])[i] != x { assert Addresses(calls)[i + 1] in Addresses(calls); }
      if x !in k'.queue { StaysOut(k'.queue, x, Addresses(calls[1..]), PHYSMAP); }
      EntryStays(k', calls[1..], x);
    }
  }

  /** A newly recorded address is found, with what was recorded for it, until 16 distinct others have come. */
  lemma FoundUntilSixteen(k: Known, x: int, e: Entry, calls: seq<Call>)
    requires KnownOk(k) && x !in k.queue && x !in Addresses(calls) && |Elements(Addresses(calls))| < 16
    ensures var after := RecordAll(Recorded(k, x, e), calls); x in after.entries && after.entries[x] == e
  {
    RecordedOk(k, x, e);
    assert Elements(Addresses(calls)) - {x} == Elements(Addresses(calls));
    NewestStays(Push(k.queue, x, PHYSMAP), x, Addresses(calls), PHYSMAP);
    EntryStays(Recorded(k, x, e), calls, x);
  }

  /** With no repetition of the address itself it is found exactly while fewer than 16 calls have brought an
      address that was not in the table. */
  lemma FoundExactly(k: Known, x: int, e: Entry, calls: seq<Call>)
    requires KnownOk(k) && x !in k.queue && x !in Addresses(calls)
    ensures x in RecordAll(Recorded(k, x, e), calls).queue <==>
      Misses(Push(k.queue, x, 16), Addresses(calls), 16) < 16
  {
    var q := Push(k.queue, x, PHYSMAP);
    RecordedOk(k, x, e);
    RecordAllQueue(Recorded(k, x, e), calls);
    StaysExactly(q, |q| - 1, x, Addresses(calls), PHYSMAP);
  }
}
