/** The reader-writer lock and generation counters that guard the RIL's response callbacks, as a state
    machine whose steps are the lock operations and what is done between them, for any number of threads. */
module RilProtocol {
  import opened Common

  datatype Service = Radio | OemHook

  /** The callback pointers of a service; 0 is null.  The OEM hook service has no V1_1 pointers. */
  datatype Callbacks = Callbacks(response: nat, indication: nat, responseV11: nat, indicationV11: nat)

  const NONE: Callbacks := Callbacks(0, 0, 0, 0)

  /** `history` holds the callbacks of every generation, the current one last; the program keeps only the
      current ones and the counter, an int32_t that wraps. */
  datatype Slot = Slot(cb: Callbacks, counter: nat, history: seq<Callbacks>)

  /** Where a thread stands.  `at` is the generation current when its call through a callback began, `seen`
      the one current when the call had failed, and `noted` the counter it read then.  `bare` marks a call
      made for an error response: sendErrorResponse enters the response function without the read lock. */
  datatype Pc =
    | Idle
    | Reading
    | Calling(svc: Service, at: nat, bare: bool)
    | Noted(svc: Service, at: nat, seen: nat, noted: nat, bare: bool)
    | Released(svc: Service, at: nat, seen: nat, noted: nat, bare: bool)
    | Writing(svc: Service, at: nat, seen: nat, noted: nat, bare: bool)
    | Checked(bare: bool)
    | Unlocked(bare: bool)
    | Waiting(svc: Service)
    | Setting(svc: Service)
    | SetDone

  /** The lock knows how many readers it has, and who writes. */
  datatype State = State(pc: seq<Pc>, readers: nat, writer: Option<nat>, radio: Slot, oem: Slot)

  datatype Action =
    | RdLock                // a response or indication function takes the lock
    | Call(svc: Service)    // it calls the client through a callback
    | BareCall(svc: Service) // an error response calls it without the lock
    | CallOk
    | CallFails             // checkReturnStatus notes the counter
    | Release               // and releases the read lock,
    | WrLock                // takes the write lock,
    | Check                 // clears the callbacks if the counter is the one it noted,
    | WrUnlock
    | Relock                // and takes the read lock again.
    | RdUnlock
    | SetBegin(svc: Service) // setResponseFunctions waits for the write lock,
    | SetLock               // takes it,
    | SetFields(cb: Callbacks) // stores what the client passed,
    | SetUnlock             // and releases it.

  function Get(s: State, svc: Service): Slot { if svc.Radio? then s.radio else s.oem }

  function Put(s: State, svc: Service, x: Slot): State {
    if svc.Radio? then s.(radio := x) else s.(oem := x)
  }

  function Generation(x: Slot): nat { if x.history == [] then 0 else |x.history| - 1 }

  /** Every change of the callbacks counts one generation on. */
  function Advanced(x: Slot, cb: Callbacks): Slot { Slot(cb, (x.counter + 1) % WORD, x.history + [cb]) }

  /** The V1_1 pointers are used together or not at all. */
  function Paired(cb: Callbacks): Callbacks {
    if cb.responseV11 == 0 || cb.indicationV11 == 0 then cb.(responseV11 := 0, indicationV11 := 0) else cb
  }

  /** A response or indication function calls the client only through a callback that is not null. */
  predicate Callable(x: Slot) { x.cb.response != 0 || x.cb.indication != 0 }

  /** When thread `t` can take the step; a read lock waits for the writer, a write lock for everybody. */
  predicate Enabled(s: State, t: nat, a: Action) {
    && t < |s.pc|
    && match a
       case RdLock => s.pc[t].Idle? && s.writer.None?
       case Call(svc) => s.pc[t].Reading? && Callable(Get(s, svc))
       case BareCall(svc) => s.pc[t].Idle? && Get(s, svc).cb.response != 0
       case CallOk => s.pc[t].Calling?
       case CallFails => s.pc[t].Calling?
       case Release => s.pc[t].Noted?
       case WrLock => s.pc[t].Released? && s.writer.None? && s.readers == 0
       case Check => s.pc[t].Writing?
       case WrUnlock => s.pc[t].Checked?
       case Relock => s.pc[t].Unlocked? && s.writer.None?
       case RdUnlock => s.pc[t].Reading?
       case SetBegin(_) => s.pc[t].Idle?
       case SetLock => s.pc[t].Waiting? && s.writer.None? && s.readers == 0
       case SetFields(cb) => s.pc[t].Setting? && (s.pc[t].svc.OemHook? ==> cb.responseV11 == 0 == cb.indicationV11)
       case SetUnlock => s.pc[t].SetDone?
  }

  /** Unlocking takes one reader off, whoever asks; there is nothing to take off a lock without readers. */
  function Unlock(readers: nat): nat { if readers > 0 then readers - 1 else 0 }

  /** Back from the response function: a bare one returns to a thread that will not unlock anything. */
  function Returned(bare: bool): Pc { if bare then Idle else Reading }

  function Next(s: State, t: nat, a: Action): State
    requires Enabled(s, t, a)
  {
    var p := s.pc[t];
    match a
    case RdLock => s.(pc := s.pc[t := Reading], readers := s.readers + 1)
    case Call(svc) => s.(pc := s.pc[t := Calling(svc, Generation(Get(s, svc)), false)])
    case BareCall(svc) => s.(pc := s.pc[t := Calling(svc, Generation(Get(s, svc)), true)])
    case CallOk => s.(pc := s.pc[t := Returned(p.bare)])
    case CallFails => s.(pc := s.pc[t := Noted(p.svc, p.at, Generation(Get(s, p.svc)), Get(s, p.svc).counter, p.bare)])
    case Release => s.(pc := s.pc[t := Released(p.svc, p.at, p.seen, p.noted, p.bare)], readers := Unlock(s.readers))
    case WrLock => s.(pc := s.pc[t := Writing(p.svc, p.at, p.seen, p.noted, p.bare)], writer := Some(t))
    case Check =>
      var s1 := s.(pc := s.pc[t := Checked(p.bare)]);
      if Get(s, p.svc).counter == p.noted then Put(s1, p.svc, Advanced(Get(s, p.svc), NONE)) else s1
    case WrUnlock => s.(pc := s.pc[t := Unlocked(p.bare)], writer := None)
    case Relock => s.(pc := s.pc[t := Returned(p.bare)], readers := s.readers + 1)
    case RdUnlock => s.(pc := s.pc[t := Idle], readers := Unlock(s.readers))
    case SetBegin(svc) => s.(pc := s.pc[t := Waiting(svc)])
    case SetLock => s.(pc := s.pc[t := Setting(p.svc)], writer := Some(t))
    case SetFields(cb) => Put(s.(pc := s.pc[t := SetDone]), p.svc, Advanced(Get(s, p.svc), Paired(cb)))
    case SetUnlock => s.(pc := s.pc[t := Idle], writer := None)
  }

  // ---------------------------------------------------------------- what every run keeps

  predicate HoldsRead(p: Pc) { p.Reading? || ((p.Calling? || p.Noted?) && !p.bare) }

  predicate HoldsWrite(p: Pc) { p.Writing? || p.Checked? || p.Setting? || p.SetDone? }

  /** How many threads are where the program holds the read lock */
  function Holders(pc: seq<Pc>): nat {
    if pc == [] then 0 else Holders(pc[..|pc| - 1]) + if HoldsRead(pc[|pc| - 1]) then 1 else 0
  }

  ghost predicate WriterOk(s: State) {
    && (forall t: nat :: t < |s.pc| && HoldsWrite(s.pc[t]) ==> s.writer == Some(t))
    && (s.writer.Some? ==> s.writer.value < |s.pc| && HoldsWrite(s.pc[s.writer.value]))
  }

  predicate PairOk(cb: Callbacks) { cb.responseV11 == 0 <==> cb.indicationV11 == 0 }

  ghost predicate SlotOk(x: Slot) {
    && x.history != [] && x.cb == x.history[|x.history| - 1] && x.counter == Generation(x) % WORD
    && forall g :: 0 <= g < |x.history| ==> PairOk(x.history[g])
  }

  /** What a thread remembers: a call began no later than it failed, and it noted that moment's counter. */
  predicate MemoryOk(s: State, p: Pc) {
    match p
    case Calling(svc, at, _) => at <= Generation(Get(s, svc))
    case Noted(svc, at, seen, noted, _) => at <= seen <= Generation(Get(s, svc)) && noted == seen % WORD
    case Released(svc, at, seen, noted, _) => at <= seen <= Generation(Get(s, svc)) && noted == seen % WORD
    case Writing(svc, at, seen, noted, _) => at <= seen <= Generation(Get(s, svc)) && noted == seen % WORD
    case _ => true
  }

  ghost predicate Inv(s: State) {
    WriterOk(s) && SlotOk(s.radio) && SlotOk(s.oem) && forall t :: 0 <= t < |s.pc| ==> MemoryOk(s, s.pc[t])
  }

  /** registerService leaves new services without callbacks, and no thread in the lock. */
  function Boot(threads: nat): State {
    State(seq(threads, _ => Idle), 0, None, Slot(NONE, 0, [NONE]), Slot(NONE, 0, [NONE]))
  }

  lemma BootInv(threads: nat)
    ensures Inv(Boot(threads))
  {
  }

  lemma AdvancedOk(x: Slot, cb: Callbacks)
    requires SlotOk(x) && PairOk(cb)
    ensures SlotOk(Advanced(x, cb)) && Generation(Advanced(x, cb)) == Generation(x) + 1
  {
    var g := Generation(x);
    assert (g % WORD + 1) % WORD == (g + 1) % WORD;
  }

  /** What a client registers is stored as it is, except that the V1_1 pointers of the radio service go unless
      both are there; the other service and the lock are left alone. */
  lemma RegisteredExactly(s: State, t: nat, cb: Callbacks)
    requires Enabled(s, t, SetFields(cb))
    ensures var svc, s' := s.pc[t].svc, Next(s, t, SetFields(cb));
      var now := Get(s', svc).cb;
      && now.response == cb.response && now.indication == cb.indication
      && (now.responseV11, now.indicationV11) ==
           (if cb.responseV11 != 0 && cb.indicationV11 != 0 then (cb.responseV11, cb.indicationV11) else (0, 0))
      && Get(s', svc).history == Get(s, svc).history + [now] && Get(s', svc).counter == (Get(s, svc).counter + 1) % WORD
      && (svc.Radio? ==> s'.oem == s.oem) && (svc.OemHook? ==> s'.radio == s.radio)
      && s'.readers == s.readers && s'.writer == s.writer
  {
  }

  /** A client is called only through a callback that is there: a response or indication function has the read lock
      and needs either of them, an error response needs the response callback. */
  lemma CallsExactly(s: State, t: nat, svc: Service)
    requires t < |s.pc|
    ensures var cb := if svc == Radio then s.radio.cb else s.oem.cb;
      && (Enabled(s, t, Call(svc)) <==> s.pc[t] == Reading && !(cb.response == 0 && cb.indication == 0))
      && (Enabled(s, t, BareCall(svc)) <==> s.pc[t] == Idle && cb.response != 0)
  {
  }

  lemma NextWriter(s: State, t: nat, a: Action)
    requires WriterOk(s) && Enabled(s, t, a)
    ensures WriterOk(Next(s, t, a))
  {
  }

  lemma NextSlots(s: State, t: nat, a: Action)
    requires SlotOk(s.radio) && SlotOk(s.oem) && Enabled(s, t, a)
    ensures SlotOk(Next(s, t, a).radio) && SlotOk(Next(s, t, a).oem)
    ensures forall svc :: Generation(Get(s, svc)) <= Generation(Get(Next(s, t, a), svc))
  {
    match a
    case Check => AdvancedOk(Get(s, s.pc[t].svc), NONE);
    case SetFields(cb) => AdvancedOk(Get(s, s.pc[t].svc), Paired(cb));
    case _ =>
  }

  /** Callbacks and counters change only in the hands of the thread that holds the write lock. */
  lemma OnlyTheWriterChanges(s: State, t: nat, a: Action)
    requires WriterOk(s) && Enabled(s, t, a)
    ensures Next(s, t, a).radio != s.radio || Next(s, t, a).oem != s.oem ==> s.writer == Some(t)
  {
  }

  lemma NextInv(s: State, t: nat, a: Action)
    requires Inv(s) && Enabled(s, t, a)
    ensures Inv(Next(s, t, a))
  {
    hide SlotOk;
    NextWriter(s, t, a);
    NextSlots(s, t, a);
    var s' := Next(s, t, a);
    forall u | 0 <= u < |s'.pc| ensures MemoryOk(s', s'.pc[u]) {
      assert MemoryOk(s, s.pc[u]);
      if u == t { NextMemory(s, t, a); }
    }
  }

  lemma NextMemory(s: State, t: nat, a: Action)
    requires Inv(s) && Enabled(s, t, a)
    ensures MemoryOk(Next(s, t, a), Next(s, t, a).pc[t])
  {
    assert MemoryOk(s, s.pc[t]);
  }

  // ---------------------------------------------------------------- runs

  datatype Event = Event(thread: nat, action: Action)

  predicate Runs(s: State, es: seq<Event>)
    decreases |es|
  {
    es == [] || (Enabled(s, es[0].thread, es[0].action) && Runs(Next(s, es[0].thread, es[0].action), es[1..]))
  }

  function After(s: State, es: seq<Event>): State
    requires Runs(s, es)
    decreases |es|
  {
    if es == [] then s else After(Next(s, es[0].thread, es[0].action), es[1..])
  }

  lemma {:induction false} RunInv(s: State, es: seq<Event>)
    requires Inv(s) && Runs(s, es)
    ensures Inv(After(s, es)) && |After(s, es).pc| == |s.pc|
    decreases |es|
  {
    if es != [] {
      NextInv(s, es[0].thread, es[0].action);
      RunInv(Next(s, es[0].thread, es[0].action), es[1..]);
    }
  }

  /** In every state any threads can bring about, error responses included: one writer at most, callbacks
      and counters in step with their history, and the two V1_1 pointers null together. */
  lemma SafeOverRuns(threads: nat, es: seq<Event>)
    requires Runs(Boot(threads), es)
    ensures var s := After(Boot(threads), es);
      && WriterOk(s) && SlotOk(s.radio) && SlotOk(s.oem) && PairOk(s.radio.cb) && PairOk(s.oem.cb)
  {
    BootInv(threads);
    RunInv(Boot(threads), es);
  }

  // ---------------------------------------------------------------- the lock discipline

  /** The lock counts exactly the threads that hold it for reading, and none while there is a writer. */
  ghost predicate Disciplined(s: State) {
    s.readers == Holders(s.pc) && (s.writer.Some? ==> s.readers == 0)
  }

  lemma {:induction false} HoldersUpdate(pc: seq<Pc>, t: nat, p: Pc)
    requires t < |pc|
    ensures Holders(pc[t := p]) == Holders(pc) - (if HoldsRead(pc[t]) then 1 else 0) + if HoldsRead(p) then 1 else 0
    decreases |pc|
  {
    var n := |pc| - 1;
    assert pc[t := p][..n] == if t == n then pc[..n] else pc[..n][t := p];
    if t < n { HoldersUpdate(pc[..n], t, p); }
  }

  lemma {:induction false} HolderCounts(pc: seq<Pc>, t: nat)
    requires t < |pc| && HoldsRead(pc[t])
    ensures Holders(pc) > 0
  {
    if t < |pc| - 1 { HolderCounts(pc[..|pc| - 1], t); }
  }

  lemma {:induction false} SomeHolder(pc: seq<Pc>) returns (t: nat)
    requires Holders(pc) > 0
    ensures t < |pc| && HoldsRead(pc[t])
  {
    t := |pc| - 1;
    if !HoldsRead(pc[t]) { t := SomeHolder(pc[..|pc| - 1]); }
  }

  lemma {:induction false} NobodyHolds(pc: seq<Pc>)
    requires forall t :: 0 <= t < |pc| ==> pc[t].Idle?
    ensures Holders(pc) == 0
  {
    if pc != [] { NobodyHolds(pc[..|pc| - 1]); }
  }

  /** The two places where an error response upsets the lock: it releases a reader that is not its own, and
      it leaves one behind. */
  predicate Upsets(s: State, t: nat, a: Action)
    requires Enabled(s, t, a)
  {
    (a.Release? && s.pc[t].bare && s.readers > 0) || (a.Relock? && s.pc[t].bare)
  }

  /** A step keeps the discipline exactly when it is none of these. */
  lemma DisciplineExactly(s: State, t: nat, a: Action)
    requires Inv(s) && Disciplined(s) && Enabled(s, t, a)
    ensures Disciplined(Next(s, t, a)) <==> !Upsets(s, t, a)
  {
    HoldersUpdate(s.pc, t, Next(s, t, a).pc[t]);
    if HoldsRead(s.pc[t]) { HolderCounts(s.pc, t); }
  }

  /** The test `ret.isOk() == false` has succeeded in a thread without the read lock. */
  predicate BareFailure(s: State, e: Event) {
    Enabled(s, e.thread, e.action) && e.action.CallFails? && s.pc[e.thread].bare
  }

  predicate InCheck(p: Pc) { p.Noted? || p.Released? || p.Writing? || p.Checked? || p.Unlocked? }

  /** No thread is in checkReturnStatus without having come with the read lock. */
  ghost predicate NoBareCheck(s: State) {
    forall t :: 0 <= t < |s.pc| && InCheck(s.pc[t]) ==> !s.pc[t].bare
  }

  /** While a thread is on its way, some such thread can go on. */
  ghost predicate Lively(s: State) {
    forall t :: 0 <= t < |s.pc| && !s.pc[t].Idle? ==> exists u: nat, a :: Enabled(s, u, a) && !s.pc[u].Idle?
  }

  lemma CanGoOn(s: State, t: nat)
    requires t < |s.pc| && (HoldsWrite(s.pc[t]) || HoldsRead(s.pc[t]) || s.pc[t].Calling? || s.pc[t].Noted?)
    ensures exists u: nat, a :: Enabled(s, u, a) && !s.pc[u].Idle?
  {
    match s.pc[t]
    case Reading => assert Enabled(s, t, RdUnlock);
    case Calling(_, _, _) => assert Enabled(s, t, CallOk);
    case Noted(_, _, _, _, _) => assert Enabled(s, t, Release);
    case Writing(_, _, _, _, _) => assert Enabled(s, t, Check);
    case Checked(_) => assert Enabled(s, t, WrUnlock);
    case Setting(_) => assert Enabled(s, t, SetFields(NONE));
    case SetDone => assert Enabled(s, t, SetUnlock);
  }

  /** With the lock used as it should be, it never stops everybody. */
  lemma NoDeadlock(s: State)
    requires Inv(s) && Disciplined(s)
    ensures Lively(s)
  {
    forall t | 0 <= t < |s.pc| && !s.pc[t].Idle? ensures exists u: nat, a :: Enabled(s, u, a) && !s.pc[u].Idle? {
      if s.writer.Some? {
        CanGoOn(s, s.writer.value);
      } else if s.readers > 0 {
        var u := SomeHolder(s.pc);
        CanGoOn(s, u);
      } else if s.pc[t].Released? {
        assert Enabled(s, t, WrLock);
      } else if s.pc[t].Unlocked? {
        assert Enabled(s, t, Relock);
      } else if s.pc[t].Waiting? {
        assert Enabled(s, t, SetLock);
      } else {
        CanGoOn(s, t);
      }
    }
  }

  /** Before every event of the run and after the last, the lock is used as it should be and stops nobody
      for good. */
  ghost predicate Throughout(s: State, es: seq<Event>)
    requires Runs(s, es)
    decreases |es|
  {
    Disciplined(s) && Lively(s) && (es != [] ==> Throughout(Next(s, es[0].thread, es[0].action), es[1..]))
  }

  predicate AnyBareFailure(s: State, es: seq<Event>)
    requires Runs(s, es)
    decreases |es|
  {
    es != [] && (BareFailure(s, es[0]) || AnyBareFailure(Next(s, es[0].thread, es[0].action), es[1..]))
  }

  lemma NextChecked(s: State, e: Event)
    requires NoBareCheck(s) && Enabled(s, e.thread, e.action) && !BareFailure(s, e)
    ensures NoBareCheck(Next(s, e.thread, e.action)) && !Upsets(s, e.thread, e.action)
  {
  }

  lemma NextDisciplined(s: State, e: Event)
    requires Inv(s) && Disciplined(s) && NoBareCheck(s) && Enabled(s, e.thread, e.action) && !BareFailure(s, e)
    ensures var s' := Next(s, e.thread, e.action); Inv(s') && Disciplined(s') && NoBareCheck(s')
  {
    hide Inv, Disciplined, NoBareCheck, Next, Enabled;
    NextChecked(s, e);
    DisciplineExactly(s, e.thread, e.action);
    NextInv(s, e.thread, e.action);
  }

  lemma {:induction false} DisciplineKept(s: State, es: seq<Event>)
    requires Inv(s) && Disciplined(s) && NoBareCheck(s) && Runs(s, es) && !AnyBareFailure(s, es)
    ensures Throughout(s, es) && Disciplined(After(s, es)) && NoBareCheck(After(s, es)) && Inv(After(s, es))
    decreases |es|
  {
    hide Lively, Inv, Disciplined, NoBareCheck, Next, Enabled;
    NoDeadlock(s);
    if es != [] {
      NextDisciplined(s, es[0]);
      DisciplineKept(Next(s, es[0].thread, es[0].action), es[1..]);
    }
  }

  /** A thread that is in checkReturnStatus without the lock cannot get out of it again with the discipline
      whole. */
  lemma {:induction false} DisciplineLost(s: State, es: seq<Event>, t: nat)
    requires Inv(s) && Runs(s, es) && t < |s.pc| && InCheck(s.pc[t]) && s.pc[t].bare
    requires t < |After(s, es).pc| && After(s, es).pc[t].Idle?
    ensures !Throughout(s, es)
    decreases |es|
  {
    hide Lively;
    var u, a := es[0].thread, es[0].action;
    if Disciplined(s) {
      DisciplineExactly(s, u, a);
      NextInv(s, u, a);
      if u != t || !a.Relock? { DisciplineLost(Next(s, u, a), es[1..], t); }
    }
  }

  lemma {:induction false} BareFailureLoses(s: State, es: seq<Event>)
    requires Inv(s) && Runs(s, es) && AnyBareFailure(s, es)
    requires forall t :: 0 <= t < |After(s, es).pc| ==> After(s, es).pc[t].Idle?
    ensures !Throughout(s, es)
    decreases |es|
  {
    var u, a := es[0].thread, es[0].action;
    RunInv(s, es);
    NextInv(s, u, a);
    if BareFailure(s, es[0]) {
      DisciplineLost(Next(s, u, a), es[1..], u);
    } else {
      BareFailureLoses(Next(s, u, a), es[1..]);
    }
  }

  /** Over a run that brings every thread back, the lock is used as it should be and never stops everybody
      exactly when no callback called for an error response fails. */
  lemma DisciplinedExactly(threads: nat, es: seq<Event>)
    requires Runs(Boot(threads), es)
    requires forall t :: 0 <= t < |After(Boot(threads), es).pc| ==> After(Boot(threads), es).pc[t].Idle?
    ensures Throughout(Boot(threads), es) <==> !AnyBareFailure(Boot(threads), es)
  {
    var s := Boot(threads);
    BootInv(threads);
    NobodyHolds(s.pc);
    if AnyBareFailure(s, es) { BareFailureLoses(s, es); } else { DisciplineKept(s, es); }
  }

  /** In a disciplined run checkReturnStatus is entered with the read lock and left with it; in between the
      thread does not have it. */
  lemma ReadLockAround(threads: nat, es: seq<Event>, t: nat)
    requires Runs(Boot(threads), es) && !AnyBareFailure(Boot(threads), es)
    ensures var s := After(Boot(threads), es);
      && (Enabled(s, t, CallFails) && !BareFailure(s, Event(t, CallFails)) ==> HoldsRead(s.pc[t]) && s.readers > 0)
      && (Enabled(s, t, Relock) ==> HoldsRead(Next(s, t, Relock).pc[t]) && Next(s, t, Relock).readers > 0)
      && (t < |s.pc| && InCheck(s.pc[t]) && !s.pc[t].Noted? ==> !HoldsRead(s.pc[t]))
  {
    var s := After(Boot(threads), es);
    BootInv(threads);
    NobodyHolds(Boot(threads).pc);
    DisciplineKept(Boot(threads), es);
    if t < |s.pc| && HoldsRead(s.pc[t]) { HolderCounts(s.pc, t); }
  }

  // ---------------------------------------------------------------- a failed call and later callbacks

  /** What the check in checkReturnStatus does, in any run.  It clears exactly when the generation is the one
      that was current when the call had failed, up to the 32 bits of the counter; it never touches the other
      service. */
  lemma ChecksExactly(s: State, t: nat)
    requires Inv(s) && Enabled(s, t, Check)
    ensures var p, s' := s.pc[t], Next(s, t, Check);
      var g, svc := Generation(Get(s, p.svc)), p.svc;
      && p.at <= p.seen <= g
      && (Get(s', svc) != Get(s, svc) <==> (g - p.seen) % WORD == 0)
      && (Get(s', svc) != Get(s, svc) ==> Get(s', svc).cb == NONE && Generation(Get(s', svc)) == g + 1)
      && (forall other :: other != svc ==> Get(s', other) == Get(s, other))
  {
    var p := s.pc[t];
    assert MemoryOk(s, p);
    SameRemainder(p.seen, Generation(Get(s, p.svc)));
  }

  lemma SameRemainder(a: nat, b: nat)
    requires a <= b
    ensures a % WORD == b % WORD <==> (b - a) % WORD == 0
  {
  }

  /** With the read lock held over the call, the callbacks called are the ones current when it fails. */
  predicate ExactMemory(s: State, p: Pc) {
    match p
    case Calling(svc, at, bare) => bare || at == Generation(Get(s, svc))
    case Noted(svc, at, seen, _, bare) => bare || at == seen == Generation(Get(s, svc))
    case Released(_, at, seen, _, bare) => bare || at == seen
    case Writing(_, at, seen, _, bare) => bare || at == seen
    case _ => true
  }

  ghost predicate AllExact(s: State) { forall t :: 0 <= t < |s.pc| ==> ExactMemory(s, s.pc[t]) }

  lemma NextExact(s: State, t: nat, a: Action)
    requires Inv(s) && Disciplined(s) && AllExact(s) && Enabled(s, t, a)
    ensures AllExact(Next(s, t, a))
  {
    hide SlotOk;
    OnlyTheWriterChanges(s, t, a);
    var s' := Next(s, t, a);
    forall u | 0 <= u < |s'.pc| ensures ExactMemory(s', s'.pc[u]) {
      assert ExactMemory(s, s.pc[u]);
      if HoldsRead(s.pc[u]) { HolderCounts(s.pc, u); }
    }
  }

  lemma {:induction false} RunExact(s: State, es: seq<Event>)
    requires Inv(s) && Disciplined(s) && NoBareCheck(s) && AllExact(s) && Runs(s, es) && !AnyBareFailure(s, es)
    ensures AllExact(After(s, es))
    decreases |es|
  {
    hide Inv, Disciplined, NoBareCheck, AllExact, Next, Enabled;
    if es != [] {
      var t, a := es[0].thread, es[0].action;
      NextDisciplined(s, es[0]);
      NextExact(s, t, a);
      RunExact(Next(s, t, a), es[1..]);
    }
  }

  /** Where no error response has failed, a call that failed on one generation never clears the callbacks of
      a later one, unless 2^32 generations came in between; and it does clear its own. */
  lemma LaterCallbacksStay(threads: nat, es: seq<Event>, t: nat)
    requires Runs(Boot(threads), es) && !AnyBareFailure(Boot(threads), es) && Enabled(After(Boot(threads), es), t, Check)
    ensures var s := After(Boot(threads), es);
      var p := s.pc[t];
      var g := Generation(Get(s, p.svc));
      && (p.at < g < p.at + WORD ==> Get(Next(s, t, Check), p.svc) == Get(s, p.svc))
      && (g == p.at ==> Get(Next(s, t, Check), p.svc).cb == NONE)
  {
    var s := After(Boot(threads), es);
    BootInv(threads);
    NobodyHolds(Boot(threads).pc);
    DisciplineKept(Boot(threads), es);
    RunExact(Boot(threads), es);
    ChecksExactly(s, t);
    assert ExactMemory(s, s.pc[t]);
  }

  // ---------------------------------------------------------------- runs that show it

  lemma {:induction false} Then(s: State, es: seq<Event>, t: nat, a: Action)
    requires Runs(s, es) && Enabled(After(s, es), t, a)
    ensures Runs(s, es + [Event(t, a)]) && After(s, es + [Event(t, a)]) == Next(After(s, es), t, a)
    decreases |es|
  {
    var fs := es + [Event(t, a)];
    if es == [] {
      assert fs[1..] == [];
    } else {
      assert fs[0] == es[0] && fs[1..] == es[1..] + [Event(t, a)];
      Then(Next(s, es[0].thread, es[0].action), es[1..], t, a);
    }
  }

  lemma {:induction false} Joined(s: State, es: seq<Event>, fs: seq<Event>)
    requires Runs(s, es) && Runs(After(s, es), fs)
    ensures Runs(s, es + fs) && After(s, es + fs) == After(After(s, es), fs)
    decreases |es|
  {
    if es == [] {
      assert es + fs == fs;
    } else {
      assert (es + fs)[0] == es[0] && (es + fs)[1..] == es[1..] + fs;
      Joined(Next(s, es[0].thread, es[0].action), es[1..], fs);
    }
  }

  /** A client registers. */
  lemma Registers(s: State, t: nat, cb: Callbacks) returns (es: seq<Event>)
    requires t < |s.pc| && s.pc[t].Idle? && s.writer.None? && s.readers == 0
    ensures Runs(s, es) && forall i :: 0 <= i < |es| ==> !es[i].action.BareCall?
    ensures After(s, es) == s.(radio := Advanced(s.radio, Paired(cb)))
  {
    es := [];
    Then(s, es, t, SetBegin(Radio));
    es := es + [Event(t, SetBegin(Radio))];
    Then(s, es, t, SetLock);
    es := es + [Event(t, SetLock)];
    Then(s, es, t, SetFields(cb));
    es := es + [Event(t, SetFields(cb))];
    Then(s, es, t, SetUnlock);
    es := es + [Event(t, SetUnlock)];
    assert s.pc[t := Waiting(Radio)][t := Setting(Radio)][t := SetDone][t := Idle] == s.pc;
  }

  const CLIENT: Callbacks := Callbacks(1, 1, 0, 0)

  /** Boot, and thread 1 registers a client. */
  lemma FirstClient(s0: State) returns (es: seq<Event>)
    requires s0 == Boot(2)
    ensures Runs(s0, es) && forall i :: 0 <= i < |es| ==> !es[i].action.BareCall?
    ensures After(s0, es) == s0.(radio := Slot(CLIENT, 1, [NONE, CLIENT]))
  {
    es := Registers(s0, 1, CLIENT);
  }

  /** The client has died, and thread 0 answers a request with an error. */
  lemma BareFailureRun(s0: State) returns (es: seq<Event>, n: nat)
    requires s0 == Boot(2)
    ensures Runs(s0, es) && n < |es| && Runs(s0, es[..n])
    ensures BareFailure(After(s0, es[..n]), es[n]) && After(s0, es[..n]).readers == 0
    ensures After(s0, es) == s0.(readers := 1, radio := Slot(NONE, 2, [NONE, CLIENT, NONE])) && Leaked(After(s0, es))
  {
    NobodyHolds(s0.pc);
    es := FirstClient(s0);
    Then(s0, es, 0, BareCall(Radio));
    es := es + [Event(0, BareCall(Radio))];
    n := |es|;
    ghost var first := es;
    Then(s0, es, 0, CallFails);
    es := es + [Event(0, CallFails)];
    ghost var failed := es;
    var rest := Returning(s0, es);
    es := es + rest;
    assert es[..n] == first && es[n] == failed[n];
  }

  /** The rest of checkReturnStatus after such a failure */
  lemma Returning(s0: State, es0: seq<Event>) returns (rest: seq<Event>)
    requires Runs(s0, es0) && s0 == Boot(2)
    requires After(s0, es0) == s0.(pc := s0.pc[0 := Noted(Radio, 1, 1, 1, true)], radio := Slot(CLIENT, 1, [NONE, CLIENT]))
    ensures Runs(s0, es0 + rest)
    ensures After(s0, es0 + rest) == s0.(readers := 1, radio := Slot(NONE, 2, [NONE, CLIENT, NONE]))
  {
    var s := After(s0, es0);
    rest := [];
    Then(s, rest, 0, Release);
    rest := rest + [Event(0, Release)];
    Then(s, rest, 0, WrLock);
    rest := rest + [Event(0, WrLock)];
    Then(s, rest, 0, Check);
    rest := rest + [Event(0, Check)];
    Then(s, rest, 0, WrUnlock);
    rest := rest + [Event(0, WrUnlock)];
    Then(s, rest, 0, Relock);
    rest := rest + [Event(0, Relock)];
    Joined(s0, es0, rest);
    assert After(s, rest).pc == s0.pc;
  }

  /** A read lock has been left behind: the lock counts more readers than there are. */
  ghost predicate Leaked(s: State) {
    s.readers > Holders(s.pc) && s.writer.None? && NoBareCheck(s)
  }

  lemma LeakStays(s: State, e: Event)
    requires WriterOk(s) && Leaked(s) && Enabled(s, e.thread, e.action) && !BareFailure(s, e)
    ensures Leaked(Next(s, e.thread, e.action)) && !e.action.SetLock? && !e.action.WrLock?
    ensures Next(s, e.thread, e.action).radio == s.radio && Next(s, e.thread, e.action).oem == s.oem
  {
    OnlyTheWriterChanges(s, e.thread, e.action);
    HoldersUpdate(s.pc, e.thread, Next(s, e.thread, e.action).pc[e.thread]);
  }

  /** It keeps every writer out, so that no client can register and no dead one is cleared, until another error
      response fails. */
  lemma {:induction false} LeakKeepsWritersOut(s: State, es: seq<Event>)
    requires WriterOk(s) && Leaked(s) && Runs(s, es) && !AnyBareFailure(s, es)
    ensures forall i :: 0 <= i < |es| ==> !es[i].action.SetLock? && !es[i].action.WrLock?
    ensures Leaked(After(s, es)) && After(s, es).radio == s.radio && After(s, es).oem == s.oem
    decreases |es|
  {
    hide WriterOk, Leaked, Next, BareFailure;
    if es != [] {
      LeakStays(s, es[0]);
      NextWriter(s, es[0].thread, es[0].action);
      LeakKeepsWritersOut(Next(s, es[0].thread, es[0].action), es[1..]);
    }
  }

  /** A thread that holds the read lock calls a dead client and gives the lock up. */
  lemma FailedCall(s: State, t: nat) returns (es: seq<Event>)
    requires t < |s.pc| && s.pc[t].Idle? && s.writer.None? && Callable(s.radio)
    ensures Runs(s, es) && forall i :: 0 <= i < |es| ==> !es[i].action.BareCall?
    ensures var g := Generation(s.radio);
      After(s, es) == s.(pc := s.pc[t := Released(Radio, g, g, s.radio.counter, false)])
  {
    es := [];
    Then(s, es, t, RdLock);
    es := es + [Event(t, RdLock)];
    Then(s, es, t, Call(Radio));
    es := es + [Event(t, Call(Radio))];
    Then(s, es, t, CallFails);
    es := es + [Event(t, CallFails)];
    Then(s, es, t, Release);
    es := es + [Event(t, Release)];
  }

  /** After the run above, a client that wants to register waits for the write lock for ever. */
  lemma DeadlockExample(s0: State) returns (es: seq<Event>)
    requires s0 == Boot(2)
    ensures Runs(s0, es) && |After(s0, es).pc| == 2 && After(s0, es).pc[1].Waiting? && !Lively(After(s0, es))
  {
    var n;
    es, n := BareFailureRun(s0);
    Then(s0, es, 1, SetBegin(Radio));
    es := es + [Event(1, SetBegin(Radio))];
    var s := After(s0, es);
    assert s.pc[0].Idle? && s.pc[1].Waiting? && s.readers == 1;
    forall u: nat, a | Enabled(s, u, a) ensures s.pc[u].Idle? { }
  }

  /** An error response calls the dead client of generation 1; a new client registers before the call has
      failed, and its callbacks are the ones that are cleared. */
  lemma BareFailureClearsLaterExample(s0: State) returns (es: seq<Event>)
    requires s0 == Boot(2)
    ensures Runs(s0, es) && Enabled(After(s0, es), 0, Check)
    ensures var s := After(s0, es);
      && s.pc[0].at < Generation(s.radio) < s.pc[0].at + WORD && s.radio.cb != NONE
      && Next(s, 0, Check).radio.cb == NONE
  {
    es := FirstClient(s0);
    Then(s0, es, 0, BareCall(Radio));
    es := es + [Event(0, BareCall(Radio))];
    var more := Registers(After(s0, es), 1, Callbacks(2, 2, 0, 0));
    Joined(s0, es, more);
    es := es + more;
    Then(s0, es, 0, CallFails);
    es := es + [Event(0, CallFails)];
    Then(s0, es, 0, Release);
    es := es + [Event(0, Release)];
    Then(s0, es, 0, WrLock);
    es := es + [Event(0, WrLock)];
  }

  /** A client that registers `n` times */
  lemma {:induction false} RegistersOften(s: State, t: nat, cb: Callbacks, n: nat) returns (es: seq<Event>)
    requires Inv(s) && t < |s.pc| && s.pc[t].Idle? && s.writer.None? && s.readers == 0 && PairOk(cb)
    ensures Runs(s, es) && forall i :: 0 <= i < |es| ==> !es[i].action.BareCall?
    ensures var s' := After(s, es);
      && s' == s.(radio := s'.radio) && Inv(s') && Generation(s'.radio) == Generation(s.radio) + n
      && (n > 0 ==> s'.radio.cb == Paired(cb))
    decreases n
  {
    if n == 0 {
      es := [];
    } else {
      var es1 := RegistersOften(s, t, cb, n - 1);
      var s1 := After(s, es1);
      var es2 := Registers(s1, t, cb);
      RunInv(s1, es2);
      Joined(s, es1, es2);
      es := es1 + es2;
    }
  }

  /** With 2^32 registrations in between, a failed call does clear a later generation, although it held the
      read lock all along. */
  lemma WrapExample(s0: State, n: nat) returns (es: seq<Event>)
    requires s0 == Boot(2) && n == WORD
    ensures Runs(s0, es) && Enabled(After(s0, es), 0, Check) && forall i :: 0 <= i < |es| ==> !es[i].action.BareCall?
    ensures var s := After(s0, es);
      && Generation(s.radio) == s.pc[0].at + n && s.radio.cb == CLIENT
      && Next(s, 0, Check).radio.cb == NONE
  {
    BootInv(2);
    var es0 := FirstClient(s0);
    var es1 := FailedCall(After(s0, es0), 0);
    Joined(s0, es0, es1);
    es := es0 + es1;
    RunInv(s0, es);
    var more := RegistersOften(After(s0, es), 1, CLIENT, n);
    Joined(s0, es, more);
    es := es + more;
    Then(s0, es, 0, WrLock);
    es := es + [Event(0, WrLock)];
    WrapClears(s0, es);
  }

  lemma WrapClears(s0: State, es: seq<Event>)
    requires Inv(s0) && Runs(s0, es) && Enabled(After(s0, es), 0, Check)
    requires var s := After(s0, es); Generation(Get(s, s.pc[0].svc)) == s.pc[0].seen + WORD
    ensures var s := After(s0, es); Get(Next(s, 0, Check), s.pc[0].svc).cb == NONE
  {
    RunInv(s0, es);
    ChecksExactly(After(s0, es), 0);
  }
}
