/** Who owns a credential: the reference and subscriber counts of kernel/cred.c. */
module CredRefs {
  import opened Common

  type CredId = nat

  /** A task's two credential slots (empty once it has exited), and the credentials that override_creds has
      handed back and revert_creds has still to restore, oldest first. */
  datatype Task = Task(obj: Option<CredId>, subj: Option<CredId>, saved: seq<CredId>)

  /** How often a task names `c`: with its slots, and unless `slotsOnly` with what it saved. */
  function TaskCount(t: Task, c: CredId, slotsOnly: bool): nat {
    (if t.obj == Some(c) then 1 else 0) + (if t.subj == Some(c) then 1 else 0) +
    (if slotsOnly then 0 else multiset(t.saved)[c])
  }

  /** The same over all tasks */
  ghost function Count(ts: seq<Task>, c: CredId, slotsOnly: bool): nat {
    CountBelow(ts, |ts|, c, slotsOnly)
  }

  function CountBelow(ts: seq<Task>, n: nat, c: CredId, slotsOnly: bool): nat
    requires n <= |ts|
  {
    if n == 0 then 0 else CountBelow(ts, n - 1, c, slotsOnly) + TaskCount(ts[n - 1], c, slotsOnly)
  }

  lemma {:induction false} CountBelowUpdate(ts: seq<Task>, n: nat, i: nat, t: Task, c: CredId, b: bool)
    requires n <= |ts| && i < |ts|
    ensures CountBelow(ts[i := t], n, c, b) ==
      CountBelow(ts, n, c, b) + if i < n then TaskCount(t, c, b) - TaskCount(ts[i], c, b) else 0
  {
    if n > 0 { CountBelowUpdate(ts, n - 1, i, t, c, b); }
  }

  lemma CountUpdate(ts: seq<Task>, i: nat, t: Task, c: CredId, slotsOnly: bool)
    requires i < |ts|
    ensures Count(ts[i := t], c, slotsOnly) == Count(ts, c, slotsOnly) - TaskCount(ts[i], c, slotsOnly) + TaskCount(t, c, slotsOnly)
  {
    CountBelowUpdate(ts, |ts|, i, t, c, slotsOnly);
  }

  lemma {:induction false} CountBelowSame(ts: seq<Task>, us: seq<Task>, n: nat, c: CredId, b: bool)
    requires n <= |ts| && n <= |us| && ts[..n] == us[..n]
    ensures CountBelow(ts, n, c, b) == CountBelow(us, n, c, b)
  {
    if n > 0 {
      assert ts[n - 1] == ts[..n][n - 1] && us[n - 1] == us[..n][n - 1];
      assert ts[..n - 1] == ts[..n][..n - 1] && us[..n - 1] == us[..n][..n - 1];
      CountBelowSame(ts, us, n - 1, c, b);
    }
  }

  lemma CountAppend(ts: seq<Task>, t: Task, c: CredId, slotsOnly: bool)
    ensures Count(ts + [t], c, slotsOnly) == Count(ts, c, slotsOnly) + TaskCount(t, c, slotsOnly)
  {
    CountBelowSame(ts + [t], ts, |ts|, c, slotsOnly);
  }

  lemma {:induction false} CountBelowContains(ts: seq<Task>, n: nat, i: nat, c: CredId, b: bool)
    requires i < n <= |ts|
    ensures TaskCount(ts[i], c, b) <= CountBelow(ts, n, c, b)
  {
    if i < n - 1 { CountBelowContains(ts, n - 1, i, c, b); }
  }

  lemma CountContains(ts: seq<Task>, i: nat, c: CredId, slotsOnly: bool)
    requires i < |ts|
    ensures TaskCount(ts[i], c, slotsOnly) <= Count(ts, c, slotsOnly)
  {
    CountBelowContains(ts, |ts|, i, c, slotsOnly);
  }

  lemma {:induction false} SlotsBelowWithin(ts: seq<Task>, n: nat, c: CredId)
    requires n <= |ts|
    ensures CountBelow(ts, n, c, true) <= CountBelow(ts, n, c, false)
  {
    if n > 0 { SlotsBelowWithin(ts, n - 1, c); }
  }

  lemma SlotsWithin(ts: seq<Task>, c: CredId)
    ensures Count(ts, c, true) <= Count(ts, c, false)
  {
    SlotsBelowWithin(ts, |ts|, c);
  }

  predicate Alive(t: Task) { t.obj.Some? && t.subj.Some? }

  /** Overrides nest: without any the two slots agree, and the first one saved is the objective cred. */
  predicate Nested(t: Task) {
    Alive(t) ==> if t.saved == [] then t.subj == t.obj else t.saved[0] == t.obj.value
  }

  predicate AllNested(ts: seq<Task>) { forall i :: 0 <= i < |ts| ==> Nested(ts[i]) }

  predicate InRange(t: Task, n: nat) {
    (t.obj.Some? ==> t.obj.value < n) && (t.subj.Some? ==> t.subj.value < n) && forall i :: 0 <= i < |t.saved| ==> t.saved[i] < n
  }

  function Overridden(t: Task, c: CredId): Task
    requires t.subj.Some?
  {
    t.(subj := Some(c), saved := t.saved + [t.subj.value])
  }

  function Reverted(t: Task): Task
    requires t.saved != []
  {
    t.(subj := Some(t.saved[|t.saved| - 1]), saved := t.saved[..|t.saved| - 1])
  }

  /** Reverting undoes an override. */
  lemma RevertOverride(t: Task, c: CredId)
    requires t.subj.Some?
    ensures Reverted(Overridden(t, c)) == t
  {
    assert (t.saved + [t.subj.value])[..|t.saved|] == t.saved;
  }

  /** From `t` to `nw` a slot moves from `down` to `up`, and the references change by `d` on `x` alone. */
  ghost predicate Moves(t: Task, nw: Task, up: CredId, down: CredId, x: CredId, d: int) {
    forall y: CredId ::
      && TaskCount(nw, y, false) == TaskCount(t, y, false) + (if y == x then d else 0)
      && TaskCount(nw, y, true) == TaskCount(t, y, true) + (if y == up then 1 else 0) - (if y == down then 1 else 0)
  }

  lemma OverrideMoves(t: Task, c: CredId, n: nat)
    requires t.subj.Some? && InRange(t, n) && c < n
    ensures Moves(t, Overridden(t, c), c, t.subj.value, c, 1) && InRange(Overridden(t, c), n)
  {
  }

  lemma RevertMoves(t: Task, n: nat)
    requires Alive(t) && t.saved != [] && InRange(t, n)
    ensures Moves(t, Reverted(t), Reverted(t).subj.value, t.subj.value, t.subj.value, -1) && InRange(Reverted(t), n)
  {
    assert t.saved == Reverted(t).saved + [Reverted(t).subj.value];
  }

  // ---------------------------------------------------------------- commits and overrides

  /** commit_creds changes both slots; what overrides saved stays for revert_creds. */
  function Committed(t: Task, c: CredId): Task { t.(obj := Some(c), subj := Some(c)) }

  /** The task passes BUG_ON(task->cred != old) of commit_creds. */
  predicate MayCommit(t: Task) { Alive(t) && t.subj == t.obj }

  /** A task after its overrides have all been reverted, the latest first */
  function AllReverted(t: Task): Task
    decreases |t.saved|
  {
    if t.saved == [] then t else AllReverted(Reverted(t))
  }

  lemma {:induction false} AllRevertedIs(t: Task)
    requires Alive(t)
    ensures AllReverted(t) == t.(subj := if t.saved == [] then t.subj else Some(t.saved[0]), saved := [])
    decreases |t.saved|
  {
    if t.saved != [] { AllRevertedIs(Reverted(t)); }
  }

  /** Nesting is just what lets a task commit once its overrides are reverted. */
  lemma NestedExactly(t: Task)
    requires Alive(t)
    ensures Nested(t) <==> MayCommit(AllReverted(t))
  {
    AllRevertedIs(t);
  }

  /** The BUG_ON lets a task commit that is overridden with its own objective credential.  Once that override
      is reverted the next commit runs into the BUG_ON, unless the commit changed nothing. */
  lemma CommitWhileOverridden(t: Task, c: CredId)
    requires MayCommit(t) && Nested(t)
    ensures MayCommit(AllReverted(Committed(t, c))) <==> t.saved == [] || Some(c) == t.obj
  {
    AllRevertedIs(Committed(t, c));
  }

  lemma OverriddenCommitExample(t: Task)
    requires t == Overridden(Task(Some(0), Some(0), []), 0)
    ensures Nested(t) && MayCommit(t) && !MayCommit(AllReverted(Committed(t, 1)))
  {
    CommitWhileOverridden(t, 1);
  }

  /** The commit that breaks the nesting: it changes the credential of a task that is overridden. */
  predicate CommitsAside<V>(ts: seq<Task>, creds: seq<Cred<V>>, op: Op<V>) {
    && op.Commit? && op.t < |ts| && MayCommit(ts[op.t]) && op.c < |creds| && creds[op.c].held > 0
    && ts[op.t].saved != [] && Some(op.c) != ts[op.t].obj
  }

  lemma CommitNests(ts: seq<Task>, i: nat, c: CredId)
    requires i < |ts| && MayCommit(ts[i])
    ensures AllNested(ts) ==> (AllNested(ts[i := Committed(ts[i], c)]) <==> ts[i].saved == [] || Some(c) == ts[i].obj)
  {
    assert ts[i := Committed(ts[i], c)][i] == Committed(ts[i], c);
  }

  lemma OverridesNest(ts: seq<Task>, i: nat, c: CredId)
    requires i < |ts| && Alive(ts[i])
    ensures AllNested(ts) ==>
      && AllNested(ts[i := Overridden(ts[i], c)])
      && (ts[i].saved != [] ==> AllNested(ts[i := Reverted(ts[i])]))
      && AllNested(ts[i := Task(None, None, ts[i].saved)])
  {
  }

  /** struct cred.  `held` is not a field of it: the references that callers have, from prepare_creds or
      get_task_cred.  `released` is what call_rcu has been told. */
  datatype Cred<V> = Cred(usage: int, subscribers: int, held: nat, released: bool, value: V)

  /** The counts of one credential are right, given how often tasks name it, but for `extra` references that
      nothing names any more. */
  predicate Exact<V>(c: Cred<V>, names: nat, slots: nat, extra: nat) {
    c.usage == names + c.held + extra && c.subscribers == slots && (c.released <==> c.usage == 0)
  }

  /** Values stay, and so do callers' references but for `d` more on `c`.  With Valid, tasks and held
      references determine all counts. */
  ghost predicate Kept<V>(was: seq<Cred<V>>, now: seq<Cred<V>>, c: CredId, d: int) {
    && |now| == |was|
    && (forall x :: 0 <= x < |was| ==> now[x].value == was[x].value && now[x].held == was[x].held + if x == c then d else 0)
  }

  class CredTable<V> {
    var creds: seq<Cred<V>>
    var tasks: seq<Task>

    /** The counts are exact but for `n` references to `x`. */
    ghost predicate Surplus(x: CredId, n: nat)
      reads this
    {
      && (n > 0 ==> x < |creds|)
      && (forall c :: 0 <= c < |creds| ==>
            Exact(creds[c], Count(tasks, c, false), Count(tasks, c, true), if c == x then n else 0))
      && (forall i :: 0 <= i < |tasks| ==> InRange(tasks[i], |creds|))
    }

    /** The counts are exact: a credential's usage is the number of task slots, saved overrides and callers'
        references that name it, its subscribers the number of task slots; it is released precisely when
        nothing names it. */
    ghost predicate Valid()
      reads this
    {
      Surplus(0, 0)
    }

    /** init_cred: the two slots of the first task, and two references that are never dropped */
    constructor (initial: V)
      ensures Valid() && AllNested(tasks)
      ensures creds == [Cred(4, 2, 2, false, initial)] && tasks == [Task(Some(0), Some(0), [])]
    {
      creds, tasks := [Cred(4, 2, 2, false, initial)], [Task(Some(0), Some(0), [])];
      new;
      assert CountBelow(tasks, 1, 0, false) == TaskCount(tasks[0], 0, false);
      assert CountBelow(tasks, 1, 0, true) == TaskCount(tasks[0], 0, true);
    }

    /** get_cred, by a caller who keeps the reference if `keeps` */
    method GetCred(c: CredId, keeps: bool)
      requires c < |creds|
      modifies this`creds
      ensures creds == old(creds)[c := old(creds)[c].(usage := old(creds)[c].usage + 1,
                                                      held := old(creds)[c].held + if keeps then 1 else 0)]
    {
      creds := creds[c := creds[c].(usage := creds[c].usage + 1, held := creds[c].held + if keeps then 1 else 0)];
    }

    method AlterSubscribers(c: CredId, n: int)
      requires c < |creds|
      modifies this`creds
      ensures creds == old(creds)[c := old(creds)[c].(subscribers := old(creds)[c].subscribers + n)]
    {
      creds := creds[c := creds[c].(subscribers := creds[c].subscribers + n)];
    }

    method MoveSubscriptions(up: CredId, down: CredId, k: int)
      requires up < |creds| && down < |creds|
      modifies this`creds
      ensures |creds| == |old(creds)|
      ensures forall x :: 0 <= x < |creds| ==>
        creds[x] == old(creds)[x].(subscribers := old(creds)[x].subscribers + (if x == up then k else 0) - (if x == down then k else 0))
    {
      AlterSubscribers(up, k);
      AlterSubscribers(down, -k);
    }

    /** put_cred of a reference that nothing names any more; `current` is the running task.  The BUG_ONs of
        __put_cred are the assertions. */
    method PutCred(c: CredId, current: nat, ghost n: nat)
      requires n > 0 && Surplus(c, n) && current < |tasks|
      modifies this`creds
      ensures Surplus(c, n - 1) && |creds| == |old(creds)|
      ensures creds == old(creds)[c := old(creds)[c].(usage := old(creds)[c].usage - 1, released := creds[c].released)]
    {
      SlotsWithin(tasks, c);
      CountContains(tasks, current, c, true);
      creds := creds[c := creds[c].(usage := creds[c].usage - 1)];
      if creds[c].usage == 0 {
        assert creds[c].subscribers == 0;
        assert Some(c) != tasks[current].subj && Some(c) != tasks[current].obj;
        creds := creds[c := creds[c].(released := true)];
      }
    }

    /** A new credential with one reference, the caller's, and a copy of `value` */
    method Allocate(value: V) returns (c: CredId)
      requires Valid()
      modifies this`creds
      ensures Valid() && c == |old(creds)| && creds == old(creds) + [Cred(1, 0, 1, false, value)]
    {
      c := |creds|;
      OutOfRange(tasks, |tasks|, c);
      SlotsWithin(tasks, c);
      creds := creds + [Cred(1, 0, 1, false, value)];
    }

    /** A credential in a task's slot is in use. */
    lemma Named(c: CredId, t: nat)
      requires Valid() && t < |tasks| && TaskCount(tasks[t], c, true) > 0
      ensures c < |creds| && creds[c].usage > 0 && creds[c].subscribers >= TaskCount(tasks[t], c, true)
      ensures !creds[c].released
    {
      CountContains(tasks, t, c, true);
      SlotsWithin(tasks, c);
    }

    /** prepare_creds for task `t`; a failing LSM hook drops the copy again */
    method PrepareCreds(t: nat, fails: bool) returns (c: Option<CredId>)
      requires Valid() && t < |tasks| && Alive(tasks[t])
      modifies this`creds
      ensures Valid() && tasks[t].subj.value < |old(creds)| && |creds| == |old(creds)| + 1
      ensures var copy := old(creds)[tasks[t].subj.value].value;
        creds == old(creds) + [if fails then Cred(0, 0, 0, true, copy) else Cred(1, 0, 1, false, copy)]
      ensures c == if fails then None else Some(|old(creds)|)
    {
      var nw := Allocate(creds[tasks[t].subj.value].value);
      if fails {
        OutOfRange(tasks, |tasks|, nw);
        SlotsWithin(tasks, nw);
        AbortCreds(nw, t);
        return None;
      }
      return Some(nw);
    }

    /** abort_creds: the caller gives up a credential it never committed */
    method AbortCreds(c: CredId, current: nat)
      requires Valid() && current < |tasks| && c < |creds| && creds[c].held > 0 && Count(tasks, c, true) == 0
      modifies this`creds
      ensures Valid() && |creds| == |old(creds)|
      ensures creds == old(creds)[c := old(creds)[c].(usage := old(creds)[c].usage - 1, held := old(creds)[c].held - 1,
                                                      released := creds[c].released)]
    {
      assert creds[c].subscribers == 0 && creds[c].usage >= 1;  // the two BUG_ONs
      Unpin(c, current);
    }

    /** put_cred by a caller that holds a reference of its own, as from get_task_cred */
    method Unpin(c: CredId, current: nat)
      requires Valid() && current < |tasks| && c < |creds| && creds[c].held > 0
      modifies this`creds
      ensures Valid() && |creds| == |old(creds)|
      ensures creds == old(creds)[c := old(creds)[c].(usage := old(creds)[c].usage - 1, held := old(creds)[c].held - 1,
                                                      released := creds[c].released)]
    {
      creds := creds[c := creds[c].(held := creds[c].held - 1)];
      PutCred(c, current, 1);
    }

    /** get_task_cred: its loop always succeeds at once, since the slot keeps the count above zero */
    method GetTaskCred(t: nat) returns (c: CredId)
      requires Valid() && t < |tasks| && Alive(tasks[t])
      modifies this`creds
      ensures Valid() && c == tasks[t].obj.value && c < |creds| == |old(creds)|
      ensures creds == old(creds)[c := old(creds)[c].(usage := old(creds)[c].usage + 1, held := old(creds)[c].held + 1)]
    {
      c := tasks[t].obj.value;
      Named(c, t);
      assert creds[c].usage != 0;  // atomic_inc_not_zero
      GetCred(c, true);
    }

    /** The middle of commit_creds: both slots of `t` move from `prev` to `c`; one of the two references they
        need is the caller's, and the two on `prev` are left over. */
    method Install(t: nat, c: CredId, prev: CredId)
      requires Valid() && t < |tasks| && tasks[t].obj == tasks[t].subj == Some(prev) && c < |creds| && creds[c].held > 0
      modifies this`creds, this`tasks
      ensures Surplus(prev, 2) && tasks == old(tasks)[t := Committed(old(tasks)[t], c)] && Kept(old(creds), creds, c, -1)
    {
      hide CountBelow;
      ghost var was := tasks;
      GetCred(c, false);
      tasks := tasks[t := Committed(tasks[t], c)];
      MoveSubscriptions(c, prev, 2);
      creds := creds[c := creds[c].(held := creds[c].held - 1)];
      forall x: CredId, b: bool
        ensures Count(tasks, x, b) == Count(was, x, b) + (if x == c then 2 else 0) - if x == prev then 2 else 0
      {
        CountUpdate(was, t, tasks[t], x, b);
      }
    }

    /** commit_creds by task `t`: both slots move to `c`, and the caller's reference becomes the objective
        slot's */
    method CommitCreds(t: nat, c: CredId)
      requires Valid() && t < |tasks| && MayCommit(tasks[t]) && c < |creds| && creds[c].held > 0
      modifies this`creds, this`tasks
      ensures Valid() && tasks == old(tasks)[t := Committed(old(tasks)[t], c)] && Kept(old(creds), creds, c, -1)
    {
      var prev := tasks[t].obj.value;
      assert tasks[t].subj == Some(prev);  // BUG_ON(task->cred != old)
      Named(prev, t);
      assert creds[prev].subscribers >= 2 && creds[c].usage >= 1;  // the other two
      Install(t, c, prev);
      PutCred(prev, t, 2);
      PutCred(prev, t, 1);
    }

    method SetTask(t: nat, nw: Task, ghost up: CredId, ghost down: CredId, ghost x: CredId, ghost d: int)
      requires t < |tasks| && Moves(tasks[t], nw, up, down, x, d)
      modifies this`tasks
      ensures tasks == old(tasks)[t := nw]
      ensures forall y: CredId :: Count(tasks, y, false) == Count(old(tasks), y, false) + if y == x then d else 0
      ensures forall y: CredId ::
        Count(tasks, y, true) == Count(old(tasks), y, true) + (if y == up then 1 else 0) - (if y == down then 1 else 0)
    {
      forall y: CredId
        ensures Count(tasks[t := nw], y, false) == Count(tasks, y, false) + if y == x then d else 0
        ensures Count(tasks[t := nw], y, true) == Count(tasks, y, true) + (if y == up then 1 else 0) - (if y == down then 1 else 0)
      {
        CountUpdate(tasks, t, nw, y, false);
        CountUpdate(tasks, t, nw, y, true);
      }
      tasks := tasks[t := nw];
    }

    /** The subjective slot of task `t` moves from `down` to `up`, with the subscription that goes along.  The
        `d` references that the task gains on `x` come out of the surplus. */
    method Reassign(t: nat, nw: Task, up: CredId, down: CredId, ghost x: CredId, ghost d: int, ghost n: nat)
      requires Surplus(x, n) && n - d >= 0 && x < |creds|
      requires t < |tasks| && up < |creds| && down < |creds| && Moves(tasks[t], nw, up, down, x, d)
      requires InRange(nw, |creds|)
      modifies this`creds, this`tasks
      ensures Surplus(x, n - d) && tasks == old(tasks)[t := nw] && Kept(old(creds), creds, x, 0)
    {
      SetTask(t, nw, up, down, x, d);
      MoveSubscriptions(up, down, 1);
    }

    /** override_creds by task `t`: the subjective slot moves to the live credential `c`; the old one stays
        referenced until it is restored */
    method OverrideCreds(t: nat, c: CredId) returns (prev: CredId)
      requires Valid() && t < |tasks| && Alive(tasks[t]) && c < |creds| && creds[c].usage > 0
      modifies this`creds, this`tasks
      ensures Valid() && old(tasks)[t].subj == Some(prev) && Kept(old(creds), creds, c, 0)
      ensures tasks == old(tasks)[t := Overridden(old(tasks)[t], c)]
    {
      prev := tasks[t].subj.value;
      OverrideMoves(tasks[t], c, |creds|);
      GetCred(c, false);
      assert Surplus(c, 1);
      Reassign(t, Overridden(tasks[t], c), c, prev, c, 1, 1);
    }

    /** revert_creds by task `t` with the credential its latest override handed back */
    method RevertCreds(t: nat, prev: CredId)
      requires Valid() && t < |tasks| && Alive(tasks[t]) && tasks[t].saved != [] && prev == tasks[t].saved[|tasks[t].saved| - 1]
      modifies this`creds, this`tasks
      ensures Valid() && Kept(old(creds), creds, prev, 0)
      ensures tasks == old(tasks)[t := Reverted(old(tasks)[t])]
    {
      var override := tasks[t].subj.value;
      RevertMoves(tasks[t], |creds|);
      Reassign(t, Reverted(tasks[t]), prev, override, override, -1, 0);
      PutCred(override, t, 1);
    }

    /** The new task of copy_creds: two references and two subscriptions on `c`, one of the references being
        the caller's if it holds one */
    method AppendTask(c: CredId, consumes: bool)
      requires Valid() && c < |creds| && creds[c].usage > 0 && (consumes ==> creds[c].held > 0)
      modifies this`creds, this`tasks
      ensures Valid() && tasks == old(tasks) + [Task(Some(c), Some(c), [])]
      ensures Kept(old(creds), creds, c, if consumes then -1 else 0)
    {
      hide CountBelow;
      var nw := Task(Some(c), Some(c), []);
      GetCred(c, false);
      if consumes {
        creds := creds[c := creds[c].(held := creds[c].held - 1)];
      } else {
        GetCred(c, false);
      }
      AlterSubscribers(c, 2);
      forall x: CredId, b: bool ensures Count(tasks + [nw], x, b) == Count(tasks, x, b) + TaskCount(nw, x, b) {
        CountAppend(tasks, nw, x, b);
      }
      tasks := tasks + [nw];
    }

    /** copy_creds: a thread without a thread keyring shares its parent's subjective credential, any other
        child gets a copy of it; `hookFails` is an LSM hook that refuses and `nsFails` a user namespace that
        cannot be made, and neither leaves a reference behind */
    method CopyCreds(t: nat, thread: bool, threadKeyring: bool, hookFails: bool, nsFails: bool) returns (ok: bool)
      requires Valid() && t < |tasks| && Alive(tasks[t])
      modifies this`creds, this`tasks
      ensures Valid() && |creds| >= |old(creds)| && Kept(old(creds), creds[..|old(creds)|], 0, 0)
      ensures ok <==> (thread && !threadKeyring) || !(hookFails || nsFails)
      ensures !ok ==> tasks == old(tasks) && forall x :: |old(creds)| <= x < |creds| ==> creds[x].released
      ensures ok ==> exists c: CredId ::
        && c < |creds| && tasks == old(tasks) + [Task(Some(c), Some(c), [])]
        && (c == tasks[t].subj.value <==> thread && !threadKeyring)
        && tasks[t].subj.value < |old(creds)| && creds[c].value == old(creds)[tasks[t].subj.value].value
    {
      var par := tasks[t].subj.value;
      Named(par, t);
      if thread && !threadKeyring {
        AppendTask(par, false);
        return true;
      }
      var c := PrepareCreds(t, hookFails);
      if c == None {
        return false;
      }
      if nsFails {
        Unpin(c.value, t);
        OutOfRange(tasks, |tasks|, c.value);
        return false;
      }
      AppendTask(c.value, true);
      return true;
    }

    /** One half of exit_creds: empty a slot and drop what it held */
    method EmptySlot(t: nat, objective: bool, current: nat)
      requires Valid() && t < |tasks| && current < |tasks|
      requires if objective then tasks[t].obj.Some? else tasks[t].obj == None && tasks[t].subj.Some?
      modifies this`creds, this`tasks
      ensures Valid() && Kept(old(creds), creds, 0, 0)
      ensures tasks == old(tasks)[t := if objective then old(tasks)[t].(obj := None) else old(tasks)[t].(subj := None)]
    {
      hide CountBelow;
      var c := if objective then tasks[t].obj.value else tasks[t].subj.value;
      assert InRange(tasks[t], |creds|);
      var nw := if objective then tasks[t].(obj := None) else tasks[t].(subj := None);
      forall x: CredId, b: bool
        ensures Count(tasks[t := nw], x, b) == Count(tasks, x, b) - TaskCount(tasks[t], x, b) + TaskCount(nw, x, b)
      {
        CountUpdate(tasks, t, nw, x, b);
      }
      tasks := tasks[t := nw];
      AlterSubscribers(c, -1);
      PutCred(c, current, 1);
    }

    /** exit_creds, run by any task */
    method ExitCreds(t: nat, current: nat)
      requires Valid() && t < |tasks| && current < |tasks| && Alive(tasks[t])
      modifies this`creds, this`tasks
      ensures Valid() && tasks == old(tasks)[t := Task(None, None, old(tasks)[t].saved)] && Kept(old(creds), creds, 0, 0)
    {
      EmptySlot(t, true, current);
      EmptySlot(t, false, current);
    }

    /** prepare_kernel_cred with a daemon to copy from, or from init_cred, whose own references are never
        dropped */
    method PrepareKernelCred(daemon: Option<nat>, current: nat, fails: bool) returns (c: Option<CredId>)
      requires Valid() && current < |tasks|
      requires if daemon.Some? then daemon.value < |tasks| && Alive(tasks[daemon.value]) else |creds| > 0 && creds[0].held > 0
      modifies this`creds
      ensures Valid() && |creds| == |old(creds)| + 1 && Kept(old(creds), creds[..|old(creds)|], 0, 0)
      ensures c == if fails then None else Some(|old(creds)|)
      ensures creds[|old(creds)|].held == if fails then 0 else 1
      ensures var prev := if daemon.Some? then tasks[daemon.value].obj.value else 0;
        prev < |old(creds)| && creds[|old(creds)|].value == old(creds)[prev].value
    {
      hide Count, TaskCount;
      var prev: CredId;
      if daemon.Some? {
        prev := GetTaskCred(daemon.value);
      } else {
        prev := 0;
        GetCred(0, true);
      }
      var nw := Allocate(creds[prev].value);
      c := Some(nw);
      if fails {
        Unpin(nw, current);
        c := None;
      }
      Unpin(prev, current);
    }

    /** The caller edits a credential that only it can see: no task names it. */
    method Modify(c: CredId, value: V)
      requires Valid() && c < |creds| && creds[c].held > 0 && creds[c].usage == 1
      modifies this`creds
      ensures Valid() && creds == old(creds)[c := old(creds)[c].(value := value)]
      ensures forall i :: 0 <= i < |tasks| ==> TaskCount(tasks[i], c, false) == 0
    {
      CountZero(tasks, |tasks|, c);
      creds := creds[c := creds[c].(value := value)];
    }

    /** One operation, if whoever issues it may: tasks act on live tasks, and callers on references they
        hold.  What does not apply is passed over.  Overrides stay nested unless a task commits another
        credential while it is overridden. */
    method Issue(op: Op<V>)
      requires Valid()
      modifies this`creds, this`tasks
      ensures Valid() && |tasks| >= |old(tasks)| && |creds| >= |old(creds)|
      ensures AllNested(old(tasks)) ==> (AllNested(tasks) <==> !CommitsAside(old(tasks), old(creds), op))
    {
      hide Valid, Exact;
      match op {
        case Prepare(t, fails) =>
          if t < |tasks| && Alive(tasks[t]) { var c := PrepareCreds(t, fails); }
        case Commit(t, c) =>
          if t < |tasks| && MayCommit(tasks[t]) && c < |creds| && creds[c].held > 0 {
            CommitNests(tasks, t, c);
            CommitCreds(t, c);
          }
        case Abort(c, t) =>
          if t < |tasks| && c < |creds| && creds[c].held > 0 && CountBelow(tasks, |tasks|, c, true) == 0 { AbortCreds(c, t); }
        case Fork(t, thread, keyring, hookFails, nsFails) =>
          if t < |tasks| && Alive(tasks[t]) { var ok := CopyCreds(t, thread, keyring, hookFails, nsFails); }
        case Override(t, c) =>
          if t < |tasks| && Alive(tasks[t]) && c < |creds| && creds[c].usage > 0 {
            OverridesNest(tasks, t, c);
            var prev := OverrideCreds(t, c);
          }
        case Revert(t) =>
          if t < |tasks| && Alive(tasks[t]) && tasks[t].saved != [] {
            OverridesNest(tasks, t, 0);
            RevertCreds(t, tasks[t].saved[|tasks[t].saved| - 1]);
          }
        case Exit(t, runner) =>
          if t < |tasks| && runner < |tasks| && Alive(tasks[t]) {
            OverridesNest(tasks, t, 0);
            ExitCreds(t, runner);
          }
        case Kernel(d, runner, fails) =>
          if d < |tasks| && runner < |tasks| && Alive(tasks[d]) { var c := PrepareKernelCred(Some(d), runner, fails); }
        case Get(t) =>
          if t < |tasks| && Alive(tasks[t]) { var c := GetTaskCred(t); }
        case Put(c, runner) =>
          if c < |creds| && runner < |tasks| && creds[c].held > 0 { Unpin(c, runner); }
        case Edit(c, value) =>
          if c < |creds| && creds[c].held > 0 && creds[c].usage == 1 { Modify(c, value); }
      }
    }

    /** Over any interleaving the counts stay exact, so no BUG_ON is reached and a credential is released
        exactly when nothing names it any more. */
    method IssueAll(ops: seq<Op<V>>)
      requires Valid()
      modifies this`creds, this`tasks
      ensures Valid()
      ensures forall c :: 0 <= c < |creds| ==>
        (creds[c].released <==> creds[c].held == 0 && Unnamed(tasks, c))
        && creds[c].subscribers == Count(tasks, c, true)
    {
      for i := 0 to |ops|
        invariant Valid()
      {
        Issue(ops[i]);
      }
      forall c: nat | c < |creds| ensures creds[c].released <==> creds[c].held == 0 && Unnamed(tasks, c) {
        ReleasedExactly(this, c);
      }
    }
  }

  datatype Op<V> =
    | Prepare(t: nat, fails: bool)
    | Commit(t: nat, c: CredId)
    | Abort(c: CredId, t: nat)
    | Fork(t: nat, thread: bool, keyring: bool, hookFails: bool, nsFails: bool)
    | Override(t: nat, c: CredId)
    | Revert(t: nat)
    | Exit(t: nat, runner: nat)
    | Kernel(daemon: nat, runner: nat, fails: bool)
    | Get(t: nat)
    | Put(c: CredId, runner: nat)
    | Edit(c: CredId, value: V)

  /** No task slot and no saved override names `c`. */
  predicate Unnamed(ts: seq<Task>, c: CredId) {
    forall i :: 0 <= i < |ts| ==> TaskCount(ts[i], c, false) == 0
  }

  lemma {:induction false} OutOfRange(ts: seq<Task>, n: nat, c: CredId)
    requires n <= |ts| && forall i :: 0 <= i < |ts| ==> InRange(ts[i], c)
    ensures CountBelow(ts, n, c, false) == 0
  {
    if n > 0 { OutOfRange(ts, n - 1, c); }
  }

  lemma {:induction false} CountZero(ts: seq<Task>, n: nat, c: CredId)
    requires n <= |ts|
    ensures CountBelow(ts, n, c, false) == 0 <==> forall i :: 0 <= i < n ==> TaskCount(ts[i], c, false) == 0
  {
    if n > 0 { CountZero(ts, n - 1, c); }
  }

  /** A credential is released exactly when no task slot, no saved override and no caller names it. */
  lemma ReleasedExactly<V>(w: CredTable<V>, c: CredId)
    requires w.Valid() && c < |w.creds|
    ensures w.creds[c].released <==>
      w.creds[c].held == 0 && Unnamed(w.tasks, c)
  {
    CountZero(w.tasks, |w.tasks|, c);
  }
}
