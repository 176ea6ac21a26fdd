/** The credential hooks as they run: a prepared copy is changed in place and then installed. */
module CapsHooks {
  import opened Caps

  /** struct cred, as far as ids and capabilities go */
  class CredStruct {
    var uid: nat
    var euid: nat
    var suid: nat
    var fsuid: nat
    var gid: nat
    var egid: nat
    var sgid: nat
    var fsgid: nat
    var securebits: set<SecureBit>
    var inheritable: set<Cap>
    var permitted: set<Cap>
    var effective: set<Cap>
    var bset: set<Cap>
    var ambient: set<Cap>

    function View(): Cred
      reads this
    {
      Cred(uid, euid, suid, fsuid, gid, egid, sgid, fsgid, securebits, inheritable, permitted, effective, bset, ambient)
    }

    /** The copy made by prepare_creds */
    constructor Prepare(cur: CredStruct)
      ensures View() == cur.View()
    {
      uid, euid, suid, fsuid := cur.uid, cur.euid, cur.suid, cur.fsuid;
      gid, egid, sgid, fsgid := cur.gid, cur.egid, cur.sgid, cur.fsgid;
      securebits := cur.securebits;
      inheritable, permitted, effective := cur.inheritable, cur.permitted, cur.effective;
      bset, ambient := cur.bset, cur.ambient;
    }
  }

  /** cap_capset */
  method CapCapset(nw: CredStruct, cur: CredStruct, eff: set<Cap>, inh: set<Cap>, perm: set<Cap>) returns (e: Errno)
    requires nw != cur && nw.View() == cur.View()
    modifies nw
    ensures (e, nw.View()) == Capset(cur.View(), eff, inh, perm)
  {
    if !(CAP_SETPCAP in cur.effective) && !(inh <= cur.inheritable + cur.permitted) {
      return EPERM;
    }
    if !(inh <= cur.inheritable + cur.bset) {
      return EPERM;
    }
    if !(perm <= cur.permitted) {
      return EPERM;
    }
    if !(eff <= perm) {
      return EPERM;
    }
    nw.effective := eff;
    nw.inheritable := inh;
    nw.permitted := perm;
    nw.ambient := cur.ambient * (perm * inh);
    return Ok;
  }

  /** The 32 capabilities of the i-th word of a kernel_cap_t */
  function Word(s: set<Cap>, i: nat): set<Cap> {
    set c | c in s && c / 32 == i
  }

  function Words(s: set<Cap>, n: nat): set<Cap> {
    set c | c in s && c / 32 < n
  }

  lemma NextWord(s: set<Cap>, n: nat)
    ensures Words(s, n + 1) == Words(s, n) + Word(s, n)
    ensures n >= 2 ==> Words(s, n) == s
  {
    assert forall c: Cap :: c / 32 < 2;
  }

  /** bprm_caps_from_vfs_caps: word by word pP' = (X & fP) | (pI & fI), noting a forced capability that is
      not granted */
  method CapsFromVfsCaps(nw: CredStruct, forced: set<Cap>, inheritable: set<Cap>, effective: bool) returns (e: Errno)
    requires nw.permitted == {}
    modifies nw`permitted
    ensures nw.permitted == (nw.bset * forced) + (nw.inheritable * inheritable)
    ensures e == if effective && !(forced <= nw.permitted) then EPERM else Ok
  {
    var ret := Ok;
    ghost var p := (nw.bset * forced) + (nw.inheritable * inheritable);
    for i := 0 to 2
      invariant nw.permitted == Words(p, i)
      invariant ret == if Words(forced, i) <= p then Ok else EPERM
    {
      NextWord(p, i);
      NextWord(forced, i);
      var word := (Word(nw.bset, i) * Word(forced, i)) + (Word(nw.inheritable, i) * Word(inheritable, i));
      assert word == Word(p, i);
      nw.permitted := nw.permitted + word;
      if !(Word(forced, i) <= word) {
        ret := EPERM;
      }
    }
    NextWord(p, 2);
    NextWord(forced, 2);
    return if effective then ret else Ok;
  }

  /** get_file_caps */
  method GetFileCaps(nw: CredStruct, img: Image) returns (e: Errno, effective: bool, hasCap: bool)
    modifies nw`permitted
    ensures var r := FilePermitted(nw.View(), img); e == r.0 && (e == Ok ==> effective == r.2 && hasCap == r.3 && nw.permitted == r.1)
    ensures e != Ok ==> nw.permitted == {}
  {
    e, effective, hasCap := Ok, false, false;
    nw.permitted := {};
    if img.capsOff {
      return;
    }
    match img.caps {
      case BadXattr =>
        e := EXATTR;
      case NoXattr =>
      case FileCaps(forced, inheritable, eff) =>
        effective, hasCap := eff, true;
        e := CapsFromVfsCaps(nw, forced, inheritable, eff);
    }
    if e != Ok {
      nw.permitted := {};
    }
  }

  /** cap_bprm_set_creds up to the `skip` label */
  method ApplyRootRules(nw: CredStruct, cur: CredStruct, img: Image, effective: bool, hasCap: bool) returns (eff: bool)
    requires nw != cur && nw.uid == cur.uid && nw.euid == img.euid
    modifies nw`permitted
    ensures (nw.permitted, eff) == RootRules(cur.View(), img, old(nw.permitted), effective, hasCap)
  {
    eff := effective;
    if NoRoot !in cur.securebits {
      if hasCap && nw.uid != ROOT && nw.euid == ROOT {
        return;
      }
      if nw.euid == ROOT || nw.uid == ROOT {
        nw.permitted := cur.bset + cur.inheritable;
      }
      if nw.euid == ROOT {
        eff := true;
      }
    }
  }

  method Downgrade(nw: CredStruct, cur: CredStruct, img: Image)
    requires nw != cur && nw.uid == cur.uid && nw.gid == cur.gid && nw.euid == img.euid && nw.egid == img.egid
    modifies nw`euid, nw`egid, nw`permitted
    ensures (nw.euid, nw.egid, nw.permitted) == Downgraded(cur.View(), img, old(nw.permitted))
  {
    if (nw.euid != cur.uid || nw.egid != cur.gid || !(nw.permitted <= cur.permitted))
       && img.unsafe - {UnsafePtraceCap} != {} {
      if CAP_SETUID !in cur.effective || UnsafeNoNewPrivs in img.unsafe {
        nw.euid := nw.uid;
        nw.egid := nw.gid;
      }
      nw.permitted := nw.permitted * cur.permitted;
    }
  }

  method Finish(nw: CredStruct, cur: CredStruct, effective: bool, hasCap: bool)
    requires nw != cur && nw.View() == cur.View().(euid := nw.euid, egid := nw.egid, perm := nw.permitted)
    modifies nw
    ensures nw.View() == Finished(cur.View(), old(nw.euid), old(nw.egid), old(nw.permitted), effective, hasCap)
  {
    nw.suid, nw.fsuid := nw.euid, nw.euid;
    nw.sgid, nw.fsgid := nw.egid, nw.egid;
    nw.effective := if effective then nw.permitted else {};
    if hasCap || nw.euid != cur.euid || nw.egid != cur.egid {
      nw.ambient := {};
    } else {
      nw.permitted := nw.permitted + nw.ambient;
      nw.effective := nw.effective + nw.ambient;
    }
    nw.securebits := nw.securebits - {KeepCaps};
  }

  /** cap_bprm_set_creds, on bprm->cred as the exec code has prepared it */
  method CapBprmSetCreds(nw: CredStruct, cur: CredStruct, img: Image) returns (e: Errno)
    requires nw != cur && nw.View() == cur.View().(euid := img.euid, egid := img.egid)
    modifies nw
    ensures e == Exec(cur.View(), img).0
    ensures nw.View() == if e == Ok then Exec(cur.View(), img).1 else old(nw.View()).(perm := {})
  {
    var effective, hasCap;
    e, effective, hasCap := GetFileCaps(nw, img);
    if e != Ok {
      return;
    }
    effective := ApplyRootRules(nw, cur, img, effective, hasCap);
    Downgrade(nw, cur, img);
    Finish(nw, cur, effective, hasCap);
  }

  /** cap_emulate_setxuid */
  method CapEmulateSetxuid(nw: CredStruct, cur: CredStruct)
    requires nw != cur
    modifies nw
    ensures nw.View() == EmulateSetxuid(old(nw.View()), cur.View())
  {
    if (cur.uid == ROOT || cur.euid == ROOT || cur.suid == ROOT)
       && nw.uid != ROOT && nw.euid != ROOT && nw.suid != ROOT && KeepCaps !in cur.securebits {
      nw.permitted := {};
      nw.effective := {};
    }
    if cur.euid == ROOT && nw.euid != ROOT {
      nw.effective := {};
    }
    if cur.euid != ROOT && nw.euid == ROOT {
      nw.effective := nw.permitted;
    }
  }

  /** cap_task_fix_setuid */
  method CapTaskFixSetuid(nw: CredStruct, cur: CredStruct, call: SetId, fsCaps: set<Cap>)
    requires nw != cur
    modifies nw
    ensures nw.View() == FixSetuid(old(nw.View()), cur.View(), call, fsCaps)
  {
    if NoSetuidFixup in cur.securebits {
      return;
    }
    if !call.SetFsuid? {
      CapEmulateSetxuid(nw, cur);
      return;
    }
    if cur.fsuid == ROOT && nw.fsuid != ROOT {
      nw.effective := nw.effective - fsCaps;
    }
    if cur.fsuid != ROOT && nw.fsuid == ROOT {
      nw.effective := nw.effective + nw.permitted * fsCaps;
    }
  }

  /** setuid(2); on an error the prepared copy is dropped and `nw` keeps the old values */
  method SysSetuid(cur: CredStruct, uid: nat, fsCaps: set<Cap>) returns (e: Errno, nw: CredStruct)
    ensures fresh(nw) && (e, nw.View()) == Setuid(cur.View(), SetUid(uid), fsCaps)
  {
    e := Ok;
    nw := new CredStruct.Prepare(cur);
    if CAP_SETUID in cur.effective {
      nw.suid, nw.uid := uid, uid;
    } else if uid != cur.uid && uid != nw.suid {
      e := EPERM;
      return;
    }
    nw.fsuid, nw.euid := uid, uid;
    CapTaskFixSetuid(nw, cur, SetUid(uid), fsCaps);
  }

  /** setreuid(2) */
  method SysSetreuid(cur: CredStruct, r: Id, e: Id, fsCaps: set<Cap>) returns (ret: Errno, nw: CredStruct)
    ensures fresh(nw) && ret == Setuid(cur.View(), SetReuid(r, e), fsCaps).0
    ensures ret == Ok ==> nw.View() == Setuid(cur.View(), SetReuid(r, e), fsCaps).1
  {
    ret := EPERM;
    nw := new CredStruct.Prepare(cur);
    if r.To? {
      nw.uid := r.id;
      if cur.uid != r.id && cur.euid != r.id && CAP_SETUID !in cur.effective {
        return;
      }
    }
    if e.To? {
      nw.euid := e.id;
      if cur.uid != e.id && cur.euid != e.id && cur.suid != e.id && CAP_SETUID !in cur.effective {
        return;
      }
    }
    if r.To? || (e.To? && e.id != cur.uid) {
      nw.suid := nw.euid;
    }
    nw.fsuid := nw.euid;
    CapTaskFixSetuid(nw, cur, SetReuid(r, e), fsCaps);
    ret := Ok;
  }

  /** setresuid(2) */
  method SysSetresuid(cur: CredStruct, r: Id, e: Id, s: Id, fsCaps: set<Cap>) returns (ret: Errno, nw: CredStruct)
    ensures fresh(nw) && (ret, nw.View()) == Setuid(cur.View(), SetResuid(r, e, s), fsCaps)
  {
    ret := EPERM;
    nw := new CredStruct.Prepare(cur);
    if CAP_SETUID !in cur.effective
       && (Foreign(cur.View(), r) || Foreign(cur.View(), e) || Foreign(cur.View(), s)) {
      return;
    }
    if r.To? {
      nw.uid := r.id;
    }
    if e.To? {
      nw.euid := e.id;
    }
    if s.To? {
      nw.suid := s.id;
    }
    nw.fsuid := nw.euid;
    CapTaskFixSetuid(nw, cur, SetResuid(r, e, s), fsCaps);
    ret := Ok;
  }

  /** setfsuid(2), which returns the previous fsuid either way */
  method SysSetfsuid(cur: CredStruct, fs: nat, fsCaps: set<Cap>) returns (previous: nat, nw: CredStruct)
    ensures fresh(nw) && previous == cur.fsuid && nw.View() == Setuid(cur.View(), SetFsuid(fs), fsCaps).1
  {
    previous := cur.fsuid;
    nw := new CredStruct.Prepare(cur);
    if fs == cur.uid || fs == cur.euid || fs == cur.suid || fs == cur.fsuid || CAP_SETUID in cur.effective {
      if fs != cur.fsuid {
        nw.fsuid := fs;
        CapTaskFixSetuid(nw, cur, SetFsuid(fs), fsCaps);
      }
    }
  }

  /** The capability cases of cap_task_prctl */
  method CapTaskPrctl(cur: CredStruct, op: Prctl) returns (e: Errno, value: nat, nw: CredStruct)
    requires !op.CapAmbient?
    ensures fresh(nw) && (e, value, nw.View()) == DoPrctl(cur.View(), op)
  {
    e, value := Ok, 0;
    nw := new CredStruct.Prepare(cur);
    match op {
      case BsetRead(cap) =>
        if cap > CAP_LAST_CAP {
          e := EINVAL;
        } else {
          value := if cap in nw.bset then 1 else 0;
        }
      case BsetDrop(cap) =>
        if CAP_SETPCAP !in cur.effective {
          e := EPERM;
        } else if cap > CAP_LAST_CAP {
          e := EINVAL;
        } else {
          nw.bset := nw.bset - {cap};
        }
      case SetSecurebits(bits, unsupported) =>
        var changed := (set b | b in {NoRoot, NoSetuidFixup, KeepCaps} && (b in nw.securebits) != (b in bits));
        if (exists b | b in changed :: Lock(b) in nw.securebits) || !(nw.securebits * LOCKS <= bits)
           || unsupported || CAP_SETPCAP !in cur.effective {
          e := EPERM;
        } else {
          nw.securebits := bits;
        }
      case SetKeepCaps(arg) =>
        if arg > 1 {
          e := EINVAL;
        } else if KeepCapsLocked in cur.securebits {
          e := EPERM;
        } else if arg == 1 {
          nw.securebits := nw.securebits + {KeepCaps};
        } else {
          nw.securebits := nw.securebits - {KeepCaps};
        }
    }
  }

  /** The PR_CAP_AMBIENT case of prctl(2) */
  method PrctlAmbient(cur: CredStruct, sub: Ambient, arg3: nat, arg4: nat, arg5: nat)
    returns (e: Errno, value: nat, nw: CredStruct)
    ensures fresh(nw)
    ensures (e, value, nw.View()) == DoPrctl(cur.View(), CapAmbient(sub, arg3, arg4 != 0 || arg5 != 0))
  {
    e, value := Ok, 0;
    nw := new CredStruct.Prepare(cur);
    if sub == ClearAll {
      if arg3 != 0 || arg4 != 0 || arg5 != 0 {
        e := EINVAL;
      } else {
        nw.ambient := {};
      }
      return;
    }
    if arg3 > CAP_LAST_CAP || arg4 != 0 || arg5 != 0 {
      e := EINVAL;
      return;
    }
    if sub == IsSet {
      value := if arg3 in cur.ambient then 1 else 0;
      return;
    }
    if sub != Raise && sub != Lower {
      e := EINVAL;
      return;
    }
    if sub == Raise && (arg3 !in cur.permitted || arg3 !in cur.inheritable) {
      e := EPERM;
      return;
    }
    if sub == Raise {
      nw.ambient := nw.ambient + {arg3};
    } else {
      nw.ambient := nw.ambient - {arg3};
    }
  }

  /** A task and its credentials.  Every operation works on a prepared copy, which is installed only if it
      succeeds. */
  class Task {
    var cred: CredStruct

    constructor (cred: CredStruct)
      ensures this.cred == cred
    {
      this.cred := cred;
    }

    method IssueSetuid(call: SetId, fsCaps: set<Cap>) returns (e: Errno)
      modifies this
      ensures (e, cred.View()) == Setuid(old(cred.View()), call, fsCaps)
    {
      hide FixSetuid;
      var nw := cred;
      match call {
        case SetUid(uid) => e, nw := SysSetuid(cred, uid, fsCaps);
        case SetReuid(r, eu) => e, nw := SysSetreuid(cred, r, eu, fsCaps);
        case SetResuid(r, eu, s) => e, nw := SysSetresuid(cred, r, eu, s, fsCaps);
        case SetFsuid(fs) =>
          var previous;
          previous, nw := SysSetfsuid(cred, fs, fsCaps);
          e := Setuid(cred.View(), call, fsCaps).0;
      }
      if e == Ok {
        cred := nw;
      }
    }

    /** One step of the capability machine, done by the hooks */
    method Issue(op: Op) returns (e: Errno)
      modifies this
      ensures (e, cred.View()) == Result(old(cred.View()), op)
    {
      hide Capset, Exec, Setuid, DoPrctl;
      var nw := new CredStruct.Prepare(cred);
      match op {
        case OpCapset(eff, inh, perm) =>
          e := CapCapset(nw, cred, eff, inh, perm);
          if e == Ok { cred := nw; }
        case OpExec(img) =>
          nw.euid, nw.egid := img.euid, img.egid;
          e := CapBprmSetCreds(nw, cred, img);
          if e == Ok { cred := nw; }
        case OpSetuid(call, fsCaps) =>
          e := IssueSetuid(call, fsCaps);
        case OpPrctl(p) =>
          var value;
          if p.CapAmbient? {
            e, value, nw := PrctlAmbient(cred, p.sub, p.arg3, if p.arg45 then 1 else 0, 0);
          } else {
            e, value, nw := CapTaskPrctl(cred, p);
          }
          if e == Ok { cred := nw; }
      }
      ErrorKeeps(old(cred.View()), op);
    }

    /** Whatever a task does, the hooks keep its effective set within the permitted one and its ambient set
        within the inheritable one, give it nothing from outside its initial permitted, inheritable and
        bounding sets, and open no securebits lock. */
    method IssueAll(ops: seq<Op>)
      requires Inv(cred.View())
      modifies this
      ensures cred.View() == Run(old(cred.View()), ops)
      ensures Inv(cred.View()) && LocksRespected(old(cred.View()), cred.View())
      ensures var c := old(cred.View()); Within(cred.View(), c.perm + c.inh + c.bset)
    {
      hide Result, Within, LocksRespected;
      ghost var c := cred.View();
      for i := 0 to |ops|
        invariant cred.View() == Run(c, ops[..i])
      {
        var e := Issue(ops[i]);
        RunMore(c, ops[..i], ops[i]);
        assert ops[..i + 1] == ops[..i] + [ops[i]];
      }
      assert ops[..|ops|] == ops;
      RunKeeps(c, ops);
      RunRespectsLocks(c, ops);
    }
  }

  /** An operation that fails changes nothing. */
  lemma ErrorKeeps(c: Cred, op: Op)
    ensures Result(c, op).0 != Ok ==> Result(c, op).1 == c
  {
  }

  lemma {:induction false} RunMore(c: Cred, ops: seq<Op>, op: Op)
    ensures Run(c, ops + [op]) == Result(Run(c, ops), op).1
    decreases |ops|
  {
    hide Result;
    if ops == [] {
      assert ([] + [op])[1..] == [];
    } else {
      assert (ops + [op])[1..] == ops[1..] + [op];
      RunMore(Result(c, ops[0]).1, ops[1..], op);
    }
  }
}
