/** The capability machine with the backported ambient set, as steps on credential values.  Cap_* and the
    prctl hooks in place are in CapsHooks.dfy. */
module Caps {

  type Cap = c: nat | c < 64

  // From capability.h, which is not part of this model.
  const CAP_SETUID: Cap := 7
  const CAP_SETPCAP: Cap := 8
  const CAP_LAST_CAP: nat := 36

  const ROOT: nat := 0

  datatype SecureBit = NoRoot | NoRootLocked | NoSetuidFixup | NoSetuidFixupLocked | KeepCaps | KeepCapsLocked

  datatype Cred = Cred(uid: nat, euid: nat, suid: nat, fsuid: nat, gid: nat, egid: nat, sgid: nat, fsgid: nat,
                       secure: set<SecureBit>,
                       inh: set<Cap>, perm: set<Cap>, eff: set<Cap>, bset: set<Cap>, amb: set<Cap>)

  datatype Errno = Ok | EPERM | EINVAL | EXATTR

  predicate Capable(c: Cred, cap: Cap) { cap in c.eff }

  // ---------------------------------------------------------------- capset

  /** cap_capset */
  function Capset(cur: Cred, eff: set<Cap>, inh: set<Cap>, perm: set<Cap>): (Errno, Cred) {
    if !Capable(cur, CAP_SETPCAP) && !(inh <= cur.inh + cur.perm) then (EPERM, cur)
    else if !(inh <= cur.inh + cur.bset) then (EPERM, cur)
    else if !(perm <= cur.perm) then (EPERM, cur)
    else if !(eff <= perm) then (EPERM, cur)
    else (Ok, cur.(eff := eff, inh := inh, perm := perm, amb := cur.amb * (perm * inh)))
  }

  // ---------------------------------------------------------------- exec

  /** What the file's security.capability attribute yields: a read error, nothing, or a valid record. */
  datatype FileCaps = BadXattr | NoXattr | FileCaps(forced: set<Cap>, inheritable: set<Cap>, effective: bool)

  datatype Unsafe = UnsafeShare | UnsafePtrace | UnsafePtraceCap | UnsafeNoNewPrivs

  /** The file to be executed, and the ids the exec code has put into bprm->cred before the hook.
      `capsOff` is a nosuid mount or file capabilities switched off. */
  datatype Image = Image(euid: nat, egid: nat, caps: FileCaps, capsOff: bool, unsafe: set<Unsafe>)

  /** get_file_caps: the error, the permitted set, the effective flag and whether the file has caps. */
  function FilePermitted(cur: Cred, img: Image): (Errno, set<Cap>, bool, bool) {
    if img.capsOff || img.caps.NoXattr? then (Ok, {}, false, false)
    else if img.caps.BadXattr? then (EXATTR, {}, false, false)
    else
      var p := (cur.bset * img.caps.forced) + (cur.inh * img.caps.inheritable);
      if img.caps.effective && !(img.caps.forced <= p) then (EPERM, {}, true, true)
      else (Ok, p, img.caps.effective, true)
  }

  /** The root rules of cap_bprm_set_creds: the permitted set and the effective flag after them. */
  function RootRules(cur: Cred, img: Image, perm: set<Cap>, effective: bool, hasCap: bool): (set<Cap>, bool) {
    if NoRoot in cur.secure || (hasCap && cur.uid != ROOT && img.euid == ROOT) then (perm, effective)
    else
      (if img.euid == ROOT || cur.uid == ROOT then cur.bset + cur.inh else perm,
       effective || img.euid == ROOT)
  }

  /** The downgrade of an exec that would gain something under supervision: euid, egid and permitted set. */
  function Downgraded(cur: Cred, img: Image, perm: set<Cap>): (nat, nat, set<Cap>) {
    if (img.euid != cur.uid || img.egid != cur.gid || !(perm <= cur.perm)) && img.unsafe - {UnsafePtraceCap} != {} then
      var drop := !Capable(cur, CAP_SETUID) || UnsafeNoNewPrivs in img.unsafe;
      (if drop then cur.uid else img.euid, if drop then cur.gid else img.egid, perm * cur.perm)
    else (img.euid, img.egid, perm)
  }

  /** The last part: saved and file-system ids, the effective set, and the ambient set's share. */
  function Finished(cur: Cred, euid: nat, egid: nat, perm: set<Cap>, effective: bool, hasCap: bool): Cred {
    var lose := hasCap || euid != cur.euid || egid != cur.egid;
    var eff := if effective then perm else {};
    cur.(euid := euid, suid := euid, fsuid := euid, egid := egid, sgid := egid, fsgid := egid,
         secure := cur.secure - {KeepCaps},
         perm := if lose then perm else perm + cur.amb,
         eff := if lose then eff else eff + cur.amb,
         amb := if lose then {} else cur.amb)
  }

  /** cap_bprm_set_creds */
  function Exec(cur: Cred, img: Image): (Errno, Cred) {
    var (e, p0, eff0, hasCap) := FilePermitted(cur, img);
    if e != Ok then (e, cur)
    else
      var (p1, effective) := RootRules(cur, img, p0, eff0, hasCap);
      var (euid, egid, p2) := Downgraded(cur, img, p1);
      (Ok, Finished(cur, euid, egid, p2, effective, hasCap))
  }

  // ---------------------------------------------------------------- setuid family

  datatype Id = Same | To(id: nat)

  datatype SetId = SetUid(uid: nat) | SetReuid(r: Id, e: Id) | SetResuid(r: Id, e: Id, s: Id) | SetFsuid(fs: nat)

  /** An id that is none of the caller's own three. */
  predicate Foreign(cur: Cred, x: Id) {
    x.To? && x.id != cur.uid && x.id != cur.euid && x.id != cur.suid
  }

  /** The ids a setuid-family call asks for, if it is permitted. */
  function NewIds(cur: Cred, call: SetId): (Errno, Cred) {
    var can := Capable(cur, CAP_SETUID);
    match call
    case SetUid(uid) =>
      if can then (Ok, cur.(uid := uid, suid := uid, euid := uid, fsuid := uid))
      else if uid != cur.uid && uid != cur.suid then (EPERM, cur)
      else (Ok, cur.(euid := uid, fsuid := uid))
    case SetReuid(r, e) =>
      if r.To? && r.id != cur.uid && r.id != cur.euid && !can then (EPERM, cur)
      else if e.To? && e.id != cur.uid && e.id != cur.euid && e.id != cur.suid && !can then (EPERM, cur)
      else
        var euid := if e.To? then e.id else cur.euid;
        (Ok, cur.(uid := if r.To? then r.id else cur.uid, euid := euid, fsuid := euid,
                  suid := if r.To? || (e.To? && e.id != cur.uid) then euid else cur.suid))
    case SetResuid(r, e, s) =>
      if !can && (Foreign(cur, r) || Foreign(cur, e) || Foreign(cur, s)) then (EPERM, cur)
      else
        var euid := if e.To? then e.id else cur.euid;
        (Ok, cur.(uid := if r.To? then r.id else cur.uid, euid := euid, fsuid := euid,
                  suid := if s.To? then s.id else cur.suid))
    case SetFsuid(fs) =>
      if fs != cur.uid && fs != cur.euid && fs != cur.suid && fs != cur.fsuid && !can then (EPERM, cur)
      else (Ok, cur.(fsuid := fs))
  }

  /** The guard of the first branch of cap_emulate_setxuid: the last root id goes, and nothing keeps the
      capabilities. */
  predicate LosesRoot(cur: Cred, new': Cred) {
    && (cur.uid == ROOT || cur.euid == ROOT || cur.suid == ROOT)
    && new'.uid != ROOT && new'.euid != ROOT && new'.suid != ROOT
    && KeepCaps !in cur.secure
  }

  /** cap_emulate_setxuid; the ambient set is not touched */
  function EmulateSetxuid(new': Cred, cur: Cred): Cred {
    var c1 := if LosesRoot(cur, new') then new'.(perm := {}, eff := {}) else new';
    var c2 := if cur.euid == ROOT && c1.euid != ROOT then c1.(eff := {}) else c1;
    if cur.euid != ROOT && c2.euid == ROOT then c2.(eff := c2.perm) else c2
  }

  /** cap_task_fix_setuid; `fsCaps` is the set of file-system capabilities */
  function FixSetuid(new': Cred, cur: Cred, call: SetId, fsCaps: set<Cap>): Cred {
    if NoSetuidFixup in cur.secure then new'
    else if !call.SetFsuid? then EmulateSetxuid(new', cur)
    else if cur.fsuid == ROOT && new'.fsuid != ROOT then new'.(eff := new'.eff - fsCaps)
    else if cur.fsuid != ROOT && new'.fsuid == ROOT then new'.(eff := new'.eff + new'.perm * fsCaps)
    else new'
  }

  function Setuid(cur: Cred, call: SetId, fsCaps: set<Cap>): (Errno, Cred) {
    var (e, c) := NewIds(cur, call);
    if e != Ok then (e, cur) else (Ok, FixSetuid(c, cur, call, fsCaps))
  }

  // ---------------------------------------------------------------- prctl

  datatype Ambient = ClearAll | IsSet | Raise | Lower | Unknown

  datatype Prctl =
    | BsetRead(cap: nat)
    | BsetDrop(cap: nat)
    | SetSecurebits(bits: set<SecureBit>, unsupported: bool)
    | SetKeepCaps(arg: nat)
    | CapAmbient(sub: Ambient, arg3: nat, arg45: bool)  // arg45: arg4 or arg5 is not zero

  function Lock(b: SecureBit): SecureBit {
    match b
    case NoRoot => NoRootLocked
    case NoSetuidFixup => NoSetuidFixupLocked
    case KeepCaps => KeepCapsLocked
    case l => l
  }

  const LOCKS: set<SecureBit> := {NoRootLocked, NoSetuidFixupLocked, KeepCapsLocked}

  predicate Valid(cap: nat) { cap <= CAP_LAST_CAP }

  /** The prctl cases that touch credentials: error, result, and the credentials afterwards. */
  function DoPrctl(cur: Cred, op: Prctl): (Errno, nat, Cred) {
    match op
    case BsetRead(cap) =>
      if !Valid(cap) then (EINVAL, 0, cur) else (Ok, if cap in cur.bset then 1 else 0, cur)
    case BsetDrop(cap) =>
      if !Capable(cur, CAP_SETPCAP) then (EPERM, 0, cur)
      else if !Valid(cap) then (EINVAL, 0, cur)
      else (Ok, 0, cur.(bset := cur.bset - {cap}))
    case SetSecurebits(bits, unsupported) =>
      if (exists b :: b in {NoRoot, NoSetuidFixup, KeepCaps} && Lock(b) in cur.secure && (b in cur.secure) != (b in bits))
         || !(cur.secure * LOCKS <= bits) || unsupported || !Capable(cur, CAP_SETPCAP)
      then (EPERM, 0, cur)
      else (Ok, 0, cur.(secure := bits))
    case SetKeepCaps(arg) =>
      if arg > 1 then (EINVAL, 0, cur)
      else if KeepCapsLocked in cur.secure then (EPERM, 0, cur)
      else (Ok, 0, cur.(secure := if arg == 1 then cur.secure + {KeepCaps} else cur.secure - {KeepCaps}))
    case CapAmbient(sub, arg3, arg45) =>
      if sub == ClearAll then
        if arg3 != 0 || arg45 then (EINVAL, 0, cur) else (Ok, 0, cur.(amb := {}))
      else if !Valid(arg3) || arg45 then (EINVAL, 0, cur)
      else if sub == IsSet then (Ok, if arg3 in cur.amb then 1 else 0, cur)
      else if sub == Unknown then (EINVAL, 0, cur)
      else if sub == Raise && (arg3 !in cur.perm || arg3 !in cur.inh) then (EPERM, 0, cur)
      else (Ok, 0, cur.(amb := if sub == Raise then cur.amb + {arg3} else cur.amb - {arg3}))
  }

  // ---------------------------------------------------------------- the machine

  datatype Op =
    | OpCapset(eff: set<Cap>, inh: set<Cap>, perm: set<Cap>)
    | OpExec(img: Image)
    | OpSetuid(call: SetId, fsCaps: set<Cap>)
    | OpPrctl(op: Prctl)

  function Result(c: Cred, op: Op): (Errno, Cred) {
    match op
    case OpCapset(eff, inh, perm) => Capset(c, eff, inh, perm)
    case OpExec(img) => Exec(c, img)
    case OpSetuid(call, fsCaps) => Setuid(c, call, fsCaps)
    case OpPrctl(p) => var r := DoPrctl(c, p); (r.0, r.2)
  }

  function Run(c: Cred, ops: seq<Op>): Cred
    decreases |ops|
  {
    if ops == [] then c else Run(Result(c, ops[0]).1, ops[1..])
  }

  /** What every step keeps. */
  predicate Inv(c: Cred) {
    c.eff <= c.perm && c.amb <= c.inh
  }

  /** The rule stated for the ambient set: what survives exec is permitted and inheritable. */
  predicate AmbientCovered(c: Cred) {
    c.amb <= c.perm * c.inh
  }

  /** Everything a task can ever come to hold lies within `u`. */
  predicate Within(c: Cred, u: set<Cap>) {
    c.perm + c.inh + c.bset + c.amb <= u
  }

  lemma ExecKeeps(c: Cred, img: Image, u: set<Cap>)
    requires Inv(c) && Within(c, u)
    ensures Inv(Exec(c, img).1) && Within(Exec(c, img).1, u)
  {
  }

  lemma SetuidKeeps(c: Cred, call: SetId, fsCaps: set<Cap>, u: set<Cap>)
    requires Inv(c) && Within(c, u)
    ensures Inv(Setuid(c, call, fsCaps).1) && Within(Setuid(c, call, fsCaps).1, u)
  {
    assert var ids := NewIds(c, call).1; ids.perm == c.perm && ids.eff == c.eff && ids.inh == c.inh && ids.amb == c.amb && ids.bset == c.bset;
  }

  lemma StepKeeps(c: Cred, op: Op, u: set<Cap>)
    requires Inv(c) && Within(c, u)
    ensures Inv(Result(c, op).1) && Within(Result(c, op).1, u)
  {
    match op
    case OpCapset(_, _, _) =>
    case OpExec(img) => ExecKeeps(c, img, u);
    case OpSetuid(call, fsCaps) => SetuidKeeps(c, call, fsCaps, u);
    case OpPrctl(_) =>
  }

  /** Over any run: effective within permitted, ambient within inheritable, and no capability from outside
      the initial permitted, inheritable and bounding sets. */
  lemma {:induction false} RunKeeps(c: Cred, ops: seq<Op>)
    requires Inv(c)
    ensures Inv(Run(c, ops)) && Within(Run(c, ops), c.perm + c.inh + c.bset)
  {
    RunWithin(c, ops, c.perm + c.inh + c.bset);
  }

  lemma {:induction false} RunWithin(c: Cred, ops: seq<Op>, u: set<Cap>)
    requires Inv(c) && Within(c, u)
    ensures Inv(Run(c, ops)) && Within(Run(c, ops), u)
    decreases |ops|
  {
    if ops != [] {
      StepKeeps(c, ops[0], u);
      RunWithin(Result(c, ops[0]).1, ops[1..], u);
    }
  }

  // ---------------------------------------------------------------- the ambient rule

  /** After a successful capset or exec the ambient set is covered, whatever it was before. */
  lemma CapsetAndExecCover(c: Cred, op: Op)
    requires Inv(c) && (op.OpCapset? || op.OpExec?) && Result(c, op).0 == Ok
    ensures AmbientCovered(Result(c, op).1)
  {
  }

  /** The setuid-family calls that clear the permitted set. */
  predicate Clears(c: Cred, op: Op) {
    && op.OpSetuid? && !op.call.SetFsuid? && NoSetuidFixup !in c.secure
    && NewIds(c, op.call).0 == Ok && LosesRoot(c, NewIds(c, op.call).1)
  }

  /** A covered ambient set stays covered through a step exactly when the step does not give up root, or
      there is nothing in the set: the fix-up leaves it behind without the permitted capabilities. */
  lemma CoveredExactly(c: Cred, op: Op)
    requires Inv(c) && AmbientCovered(c)
    ensures AmbientCovered(Result(c, op).1) <==> !Clears(c, op) || c.amb == {}
  {
    if op.OpSetuid? {
      SetuidSets(c, op.call, op.fsCaps);
    } else if op.OpExec? && Result(c, op).0 == Ok {
      CapsetAndExecCover(c, op);
    }
  }

  lemma SetuidSets(c: Cred, call: SetId, fsCaps: set<Cap>)
    ensures var r := Setuid(c, call, fsCaps).1;
      r.inh == c.inh && r.amb == c.amb && r.bset == c.bset && r.perm == if Clears(c, OpSetuid(call, fsCaps)) then {} else c.perm
  {
  }

  lemma {:induction false} CoveredOverRuns(c: Cred, ops: seq<Op>)
    requires Inv(c) && AmbientCovered(c)
    requires forall i :: 0 <= i < |ops| ==> !Clears(Run(c, ops[..i]), ops[i])
    ensures AmbientCovered(Run(c, ops))
    decreases |ops|
  {
    if ops != [] {
      var d := Result(c, ops[0]).1;
      assert Run(c, ops[..0]) == c;
      CoveredExactly(c, ops[0]);
      StepKeeps(c, ops[0], c.perm + c.inh + c.bset + c.amb);
      forall i | 0 <= i < |ops| - 1 ensures !Clears(Run(d, ops[1..][..i]), ops[1..][i]) {
        assert ops[..i + 1][1..] == ops[1..][..i];
        assert !Clears(Run(c, ops[..i + 1]), ops[i + 1]);
      }
      CoveredOverRuns(d, ops[1..]);
    }
  }

  // ---------------------------------------------------------------- exec

  /** A file without capabilities and without set-id bits. */
  predicate PlainFor(c: Cred, img: Image) {
    img.euid == c.euid && img.egid == c.egid && (img.capsOff || img.caps.NoXattr?)
  }

  predicate OrdinaryTask(c: Cred) {
    c.uid != ROOT && c.euid == c.uid && c.egid == c.gid
  }

  lemma PlainExec(c: Cred, img: Image)
    requires OrdinaryTask(c) && PlainFor(c, img)
    ensures var r := Exec(c, img); r.0 == Ok && OrdinaryTask(r.1) && r.1.euid == c.euid && r.1.egid == c.egid
    ensures var d := Exec(c, img).1; d.amb == c.amb && d.perm == c.amb && d.eff == c.amb && d.inh == c.inh
  {
  }

  /** What the backport is for: through any chain of plain files an ordinary task keeps its ambient set, and
      after each of them holds exactly that set. */
  lemma {:induction false} PlainExecChain(c: Cred, imgs: seq<Image>)
    requires OrdinaryTask(c) && imgs != []
    requires forall i :: 0 <= i < |imgs| ==> PlainFor(c, imgs[i])
    ensures var d := Run(c, seq(|imgs|, i requires 0 <= i < |imgs| => OpExec(imgs[i])));
      d.amb == c.amb && d.perm == c.amb && d.eff == c.amb
    decreases |imgs|
  {
    var ops := seq(|imgs|, i requires 0 <= i < |imgs| => OpExec(imgs[i]));
    PlainExec(c, imgs[0]);
    var d := Exec(c, imgs[0]).1;
    var rest := imgs[1..];
    assert ops[1..] == seq(|rest|, i requires 0 <= i < |rest| => OpExec(rest[i]));
    if rest == [] {
      assert Run(d, ops[1..]) == d;
    } else {
      PlainExecChain(d, rest);
    }
  }

  /** A task that gives up root loses its permitted set but not its ambient one, and has it back after the
      next plain exec. */
  lemma AmbientSurvivesGivingUpRoot(c: Cred, call: SetId, fsCaps: set<Cap>, img: Image)
    requires Clears(c, OpSetuid(call, fsCaps))
    requires var d := Setuid(c, call, fsCaps).1; OrdinaryTask(d) && PlainFor(d, img)
    ensures var d := Setuid(c, call, fsCaps).1;
      d.perm == {} && d.eff == {} && Exec(d, img).1.perm == c.amb && Exec(d, img).1.eff == c.amb
  {
    SetuidSets(c, call, fsCaps);
    PlainExec(Setuid(c, call, fsCaps).1, img);
  }

  /** Root with an ambient capability, 12, becomes user 1000: the capability stays ambient without being
      permitted, and a plain exec permits it again. */
  lemma GivingUpRootExample() returns (c: Cred, call: SetId, img: Image)
    ensures Inv(c) && AmbientCovered(c) && c.amb == {12} && Setuid(c, call, {}).0 == Ok
    ensures var d := Setuid(c, call, {}).1;
      && d.uid == d.euid == d.suid == 1000 && d.perm == {} && d.amb == {12} && !AmbientCovered(d)
      && Exec(d, img).0 == Ok && Exec(d, img).1.perm == Exec(d, img).1.eff == {12}
  {
    c := Cred(0, 0, 0, 0, 1000, 1000, 1000, 1000, {}, {12}, {CAP_SETUID, 12}, {CAP_SETUID, 12}, {CAP_SETUID, 12}, {12});
    call := SetUid(1000);
    img := Image(1000, 1000, NoXattr, false, {});
    assert CAP_SETUID in c.eff && 12 in c.amb && 12 in c.perm * c.inh;
    assert Clears(c, OpSetuid(call, {}));
    AmbientSurvivesGivingUpRoot(c, call, {}, img);
  }

  /** Traced or sharing, or under NO_NEW_PRIVS, exec enlarges nothing; and NO_NEW_PRIVS undoes set-id bits. */
  lemma UnsafeExecGainsNothing(c: Cred, img: Image)
    requires c.amb <= c.perm && img.unsafe - {UnsafePtraceCap} != {} && Exec(c, img).0 == Ok
    ensures Exec(c, img).1.perm <= c.perm
    ensures UnsafeNoNewPrivs in img.unsafe ==> Exec(c, img).1.euid == c.uid && Exec(c, img).1.egid == c.gid
  {
  }

  // ---------------------------------------------------------------- the prctl

  /** Raising succeeds exactly for a known capability that is permitted and inheritable, with the unused
      arguments zero; then the query finds it, and lowering it again restores the credentials. */
  lemma RaiseExactly(c: Cred, cap: nat, arg45: bool)
    ensures var r := DoPrctl(c, CapAmbient(Raise, cap, arg45));
      && (r.0 == Ok <==> Valid(cap) && !arg45 && cap in c.perm && cap in c.inh)
      && (r.0 == Ok ==>
          && DoPrctl(r.2, CapAmbient(IsSet, cap, false)) == (Ok, 1, r.2)
          && (cap !in c.amb ==> DoPrctl(r.2, CapAmbient(Lower, cap, false)).2 == c))
  {
    var r := DoPrctl(c, CapAmbient(Raise, cap, arg45));
    if r.0 == Ok && cap !in c.amb {
      assert r.2.amb - {cap} == c.amb;
    }
  }

  // ---------------------------------------------------------------- securebits

  /** `d` respects the locks of `c`: no lock is opened, and the locked NOROOT and NO_SETUID_FIXUP bits are as
      they were.  A locked KEEP_CAPS can only go, and does at exec. */
  predicate LocksRespected(c: Cred, d: Cred) {
    && c.secure * LOCKS <= d.secure
    && (NoRootLocked in c.secure ==> (NoRoot in d.secure <==> NoRoot in c.secure))
    && (NoSetuidFixupLocked in c.secure ==> (NoSetuidFixup in d.secure <==> NoSetuidFixup in c.secure))
    && (KeepCapsLocked in c.secure && KeepCaps in d.secure ==> KeepCaps in c.secure)
  }

  lemma StepRespectsLocks(c: Cred, op: Op)
    ensures LocksRespected(c, Result(c, op).1)
  {
    match op
    case OpPrctl(p) =>
      if p.SetSecurebits? && DoPrctl(c, p).0 == Ok {
        assert NoRoot in {NoRoot, NoSetuidFixup, KeepCaps} && Lock(NoRoot) == NoRootLocked;
        assert NoSetuidFixup in {NoRoot, NoSetuidFixup, KeepCaps} && Lock(NoSetuidFixup) == NoSetuidFixupLocked;
        assert KeepCaps in {NoRoot, NoSetuidFixup, KeepCaps} && Lock(KeepCaps) == KeepCapsLocked;
      }
    case _ =>
  }

  lemma {:induction false} RunRespectsLocks(c: Cred, ops: seq<Op>)
    ensures LocksRespected(c, Run(c, ops))
    decreases |ops|
  {
    if ops != [] {
      StepRespectsLocks(c, ops[0]);
      RunRespectsLocks(Result(c, ops[0]).1, ops[1..]);
    }
  }
}
