/** What the capability calls come to: when each succeeds, and what every id and every capability is
    afterwards, from the credentials before and the arguments alone. */
module CapsOutcomes {
  import opened Caps

  // ---------------------------------------------------------------- exec

  predicate HasFileCaps(img: Image) { !img.capsOff && img.caps.FileCaps? }

  /** The legacy rule: root, real or effective, is granted the inheritable and the bounding set.  A set-id-root
      file with capabilities of its own gives them to others instead. */
  predicate RootGrants(cur: Cred, img: Image) {
    && NoRoot !in cur.secure && (img.euid == ROOT || cur.uid == ROOT)
    && (HasFileCaps(img) ==> cur.uid == ROOT)
  }

  predicate FileGrants(cur: Cred, img: Image, cap: Cap) {
    && HasFileCaps(img)
    && ((cap in cur.bset && cap in img.caps.forced) || (cap in cur.inh && cap in img.caps.inheritable))
  }

  /** What root or the file grants before any supervision */
  predicate Grants(cur: Cred, img: Image, cap: Cap) {
    if RootGrants(cur, img) then cap in cur.bset || cap in cur.inh else FileGrants(cur, img, cap)
  }

  predicate Supervised(img: Image) { exists u :: u in img.unsafe && u != UnsafePtraceCap }

  /** Supervision keeps the ids of a task that could not have set them itself. */
  predicate IdsKept(cur: Cred, img: Image) {
    Supervised(img) && (CAP_SETUID !in cur.eff || UnsafeNoNewPrivs in img.unsafe)
  }

  function NewEuid(cur: Cred, img: Image): nat { if IdsKept(cur, img) then cur.uid else img.euid }

  function NewEgid(cur: Cred, img: Image): nat { if IdsKept(cur, img) then cur.gid else img.egid }

  predicate Effective(cur: Cred, img: Image) {
    (RootGrants(cur, img) && img.euid == ROOT) || (HasFileCaps(img) && img.caps.effective)
  }

  /** A file's capabilities are refused exactly if they cannot be read, or the file is to be effective at once
      and forces a capability that it cannot grant. */
  lemma ExecFails(cur: Cred, img: Image)
    ensures var (e, c) := Exec(cur, img);
      && (e == EXATTR <==> !img.capsOff && img.caps.BadXattr?)
      && (e == EPERM <==> HasFileCaps(img) && img.caps.effective && exists x :: x in img.caps.forced && !FileGrants(cur, img, x))
      && e in {Ok, EPERM, EXATTR} && (e != Ok ==> c == cur)
  {
  }

  /** The ids after an exec, and whether the ambient set is kept: without file capabilities or a change of an
      effective id. */
  ghost predicate AmbientKept(cur: Cred, img: Image, c: Cred) {
    !HasFileCaps(img) && c.euid == cur.euid && c.egid == cur.egid
  }

  lemma GrantsWhole(cur: Cred, img: Image) returns (granted: set<Cap>)
    requires Exec(cur, img).0 == Ok
    ensures forall cap :: cap in granted <==> Grants(cur, img, cap)
    ensures var (e, p0, eff0, hasCap) := FilePermitted(cur, img); hasCap == HasFileCaps(img) && RootRules(cur, img, p0, eff0, hasCap) == (granted, Effective(cur, img))
  {
    var (e, p0, eff0, hasCap) := FilePermitted(cur, img);
    granted := RootRules(cur, img, p0, eff0, hasCap).0;
  }

  lemma SupervisedIs(img: Image)
    ensures img.unsafe - {UnsafePtraceCap} != {} <==> Supervised(img)
  {
    if Supervised(img) {
      var u :| u in img.unsafe && u != UnsafePtraceCap;
      assert u in img.unsafe - {UnsafePtraceCap};
    }
  }

  /** Ids and modes after a successful exec */
  lemma ExecIds(cur: Cred, img: Image)
    requires Exec(cur, img).0 == Ok
    ensures var c := Exec(cur, img).1;
      && c.uid == cur.uid && c.gid == cur.gid && c.inh == cur.inh && c.bset == cur.bset
      && c.euid == c.suid == c.fsuid == NewEuid(cur, img)
      && c.egid == c.sgid == c.fsgid == NewEgid(cur, img)
      && c.secure == cur.secure - {KeepCaps}
      && c.amb == if AmbientKept(cur, img, c) then cur.amb else {}
  {
    hide FilePermitted, RootRules;
    var granted := GrantsWhole(cur, img);
    SupervisedIs(img);
  }

  /** Every capability after a successful exec: permitted if root or the file grants it, and under supervision
      only if it was permitted before, or if it is ambient and the ambient set is kept; effective if it is
      permitted and granted at once, or ambient. */
  lemma ExecExactly(cur: Cred, img: Image, cap: Cap)
    requires Exec(cur, img).0 == Ok
    ensures var c := Exec(cur, img).1;
      var granted := Grants(cur, img, cap) && (Supervised(img) ==> cap in cur.perm);
      var ambient := AmbientKept(cur, img, c) && cap in cur.amb;
      && (cap in c.perm <==> granted || ambient)
      && (cap in c.eff <==> (granted && Effective(cur, img)) || ambient)
  {
    hide FilePermitted, RootRules;
    var granted := GrantsWhole(cur, img);
    SupervisedIs(img);
  }

  /** User 1000, with nothing but a bounding set, runs a set-uid-root file. */
  lemma SetuidRootExample(cur: Cred, img: Image)
    requires cur == Cred(1000, 1000, 1000, 1000, 1000, 1000, 1000, 1000, {}, {}, {}, {}, {7, 12}, {})
    requires img == Image(0, 1000, NoXattr, false, {})
    ensures Exec(cur, img).0 == Ok && Exec(cur, img).1.perm == Exec(cur, img).1.eff == {7, 12} && Exec(cur, img).1.euid == 0
  {
    ExecFails(cur, img);
    ExecIds(cur, img);
    forall cap: Cap
      ensures cap in Exec(cur, img).1.perm <==> cap in {7, 12}
      ensures cap in Exec(cur, img).1.eff <==> cap in {7, 12}
    {
      ExecExactly(cur, img, cap);
    }
  }

  // ---------------------------------------------------------------- capset

  /** capset stores the three sets exactly if the new inheritable ones were inheritable or bounded, and without
      CAP_SETPCAP inheritable or permitted, the new permitted ones permitted, and the new effective ones are
      permitted; of the ambient set it keeps what is permitted and inheritable. */
  lemma CapsetExactly(cur: Cred, eff: set<Cap>, inh: set<Cap>, perm: set<Cap>)
    ensures var (e, c) := Capset(cur, eff, inh, perm);
      && (e == Ok <==>
            && (forall x :: x in inh ==> x in cur.inh || (x in cur.bset && (CAP_SETPCAP in cur.eff || x in cur.perm)))
            && (forall x :: x in perm ==> x in cur.perm) && (forall x :: x in eff ==> x in perm))
      && (e != Ok ==> e == EPERM && c == cur)
      && (e == Ok ==>
            && c == cur.(eff := eff, inh := inh, perm := perm, amb := c.amb)
            && forall x :: x in c.amb <==> x in cur.amb && x in perm && x in inh)
  {
  }

  // ---------------------------------------------------------------- the setuid family

  /** The three rules for root ids: a task that gives up its last one loses its permitted capabilities unless it
      keeps them; with that, or with the effective root id, it loses the effective ones; and taking the
      effective root id makes the permitted ones effective. */
  lemma RootIdRules(cur: Cred, call: SetId, fsCaps: set<Cap>)
    requires !call.SetFsuid? && Setuid(cur, call, fsCaps).0 == Ok
    ensures var c := Setuid(cur, call, fsCaps).1;
      var fixes := NoSetuidFixup !in cur.secure;
      var gone := fixes && ROOT in {cur.uid, cur.euid, cur.suid} && ROOT !in {c.uid, c.euid, c.suid} && KeepCaps !in cur.secure;
      && c.perm == (if gone then {} else cur.perm)
      && c.eff == (if gone || (fixes && cur.euid == ROOT && c.euid != ROOT) then {}
                   else if fixes && cur.euid != ROOT && c.euid == ROOT then cur.perm else cur.eff)
      && c == cur.(uid := c.uid, euid := c.euid, suid := c.suid, fsuid := c.fsuid, perm := c.perm, eff := c.eff)
  {
  }

  /** setuid sets every id for a task that may, and the effective one, to the real or saved one, for others. */
  lemma SetuidIds(cur: Cred, uid: nat, fsCaps: set<Cap>)
    ensures var (e, c) := Setuid(cur, SetUid(uid), fsCaps);
      && (e == Ok <==> CAP_SETUID in cur.eff || uid == cur.uid || uid == cur.suid)
      && (e != Ok ==> e == EPERM && c == cur)
      && (e == Ok ==> c.euid == c.fsuid == uid)
      && (e == Ok ==> (c.uid, c.suid) == if CAP_SETUID in cur.eff then (uid, uid) else (cur.uid, cur.suid))
  {
  }

  /** setreuid, unprivileged: real and effective id each from the real and effective, the effective one from the
      saved one too.  The saved id follows when the real one is set, or an effective one other than the real. */
  lemma SetreuidIds(cur: Cred, r: Id, ef: Id, fsCaps: set<Cap>)
    ensures var (e, c) := Setuid(cur, SetReuid(r, ef), fsCaps);
      var own := r in {Same, To(cur.uid), To(cur.euid)} && ef in {Same, To(cur.uid), To(cur.euid), To(cur.suid)};
      && (e == Ok <==> CAP_SETUID in cur.eff || own)
      && (e != Ok ==> e == EPERM && c == cur)
      && (e == Ok ==>
            && c.uid == (if r == Same then cur.uid else r.id) && c.euid == c.fsuid == (if ef == Same then cur.euid else ef.id)
            && c.suid == if r == Same && ef in {Same, To(cur.uid)} then cur.suid else c.euid)
  {
  }

  /** Swapping real and effective id needs no privilege and is its own inverse, as the BSD call promises. */
  lemma SetreuidSwaps(cur: Cred, fsCaps: set<Cap>)
    ensures var (e, c) := Setuid(cur, SetReuid(To(cur.euid), To(cur.uid)), fsCaps);
      && e == Ok && c.uid == cur.euid && c.euid == cur.uid
      && var (e', c') := Setuid(c, SetReuid(To(c.euid), To(c.uid)), fsCaps); e' == Ok && c'.uid == cur.uid && c'.euid == cur.euid
  {
    hide Setuid;
    var c := Setuid(cur, SetReuid(To(cur.euid), To(cur.uid)), fsCaps).1;
    SetreuidIds(cur, To(cur.euid), To(cur.uid), fsCaps);
    SetreuidIds(c, To(c.euid), To(c.uid), fsCaps);
  }

  /** setresuid, unprivileged: each id from the present three. */
  lemma SetresuidIds(cur: Cred, r: Id, ef: Id, sv: Id, fsCaps: set<Cap>)
    ensures var (e, c) := Setuid(cur, SetResuid(r, ef, sv), fsCaps);
      var own := {Same, To(cur.uid), To(cur.euid), To(cur.suid)};
      && (e == Ok <==> CAP_SETUID in cur.eff || (r in own && ef in own && sv in own))
      && (e != Ok ==> e == EPERM && c == cur)
      && (e == Ok ==>
            && c.uid == (if r == Same then cur.uid else r.id) && c.euid == c.fsuid == (if ef == Same then cur.euid else ef.id)
            && c.suid == if sv == Same then cur.suid else sv.id)
  {
  }

  /** A root daemon that gives up the effective root id alone keeps its permitted capabilities, has none
      effective, and gets all of them back with the id. */
  lemma RootRegained(cur: Cred, uid: nat, fsCaps: set<Cap>)
    requires cur.euid == ROOT && uid != ROOT && ROOT in {cur.uid, cur.suid} && NoSetuidFixup !in cur.secure
    requires CAP_SETUID in cur.eff
    ensures var (e, c) := Setuid(cur, SetResuid(Same, To(uid), Same), fsCaps);
      && e == Ok && c.euid == uid && c.eff == {} && c.perm == cur.perm
      && var (e', c') := Setuid(c, SetResuid(Same, To(ROOT), Same), fsCaps);
      && e' == Ok && c'.euid == ROOT && c'.eff == c'.perm == cur.perm
  {
    hide Setuid;
    var call, back := SetResuid(Same, To(uid), Same), SetResuid(Same, To(ROOT), Same);
    SetresuidIds(cur, Same, To(uid), Same, fsCaps);
    RootIdRules(cur, call, fsCaps);
    var c := Setuid(cur, call, fsCaps).1;
    SetresuidIds(c, Same, To(ROOT), Same, fsCaps);
    RootIdRules(c, back, fsCaps);
  }

  /** setfsuid changes that id alone; with it the file-system capabilities go from the effective set when it was
      root, and those that are permitted come when it becomes root. */
  lemma SetfsuidExactly(cur: Cred, fs: nat, fsCaps: set<Cap>)
    ensures var (e, c) := Setuid(cur, SetFsuid(fs), fsCaps);
      && (e == Ok <==> CAP_SETUID in cur.eff || fs in {cur.uid, cur.euid, cur.suid, cur.fsuid})
      && (e != Ok ==> e == EPERM && c == cur)
      && (e == Ok ==> c == cur.(fsuid := fs, eff := c.eff))
      && (e == Ok ==> forall x :: x in c.eff <==>
            if NoSetuidFixup in cur.secure || (cur.fsuid == ROOT) == (fs == ROOT) then x in cur.eff
            else if fs != ROOT then x in cur.eff && x !in fsCaps
            else x in cur.eff || (x in cur.perm && x in fsCaps))
  {
  }

  // ---------------------------------------------------------------- prctl

  function Reads(c: Cred, cap: nat): nat { DoPrctl(c, BsetRead(cap)).1 }

  /** Dropping needs CAP_SETPCAP; then the capability reads as gone, and every other one as before. */
  lemma BsetExactly(c: Cred, cap: nat)
    ensures var (e, v, d) := DoPrctl(c, BsetDrop(cap));
      && (e == Ok <==> CAP_SETPCAP in c.eff && cap <= CAP_LAST_CAP)
      && (e == EPERM <==> CAP_SETPCAP !in c.eff)
      && v == 0 && d == (if e == Ok then c.(bset := d.bset) else c)
      && (e == Ok ==> forall x: nat :: x <= CAP_LAST_CAP ==> Reads(d, x) == if x == cap then 0 else Reads(c, x))
    ensures DoPrctl(c, BsetRead(cap)) == if cap > CAP_LAST_CAP then (EINVAL, 0, c) else (Ok, if cap in c.bset then 1 else 0, c)
  {
  }

  /** The securebits are stored exactly if no locked bit changes, no lock is opened, every bit is known and the
      task has CAP_SETPCAP. */
  lemma SecurebitsExactly(c: Cred, bits: set<SecureBit>, unsupported: bool)
    ensures var (e, v, d) := DoPrctl(c, SetSecurebits(bits, unsupported));
      && (e == Ok <==>
            && CAP_SETPCAP in c.eff && !unsupported
            && (forall l :: l in {NoRootLocked, NoSetuidFixupLocked, KeepCapsLocked} && l in c.secure ==> l in bits)
            && (NoRootLocked in c.secure ==> (NoRoot in bits <==> NoRoot in c.secure))
            && (NoSetuidFixupLocked in c.secure ==> (NoSetuidFixup in bits <==> NoSetuidFixup in c.secure))
            && (KeepCapsLocked in c.secure ==> (KeepCaps in bits <==> KeepCaps in c.secure)))
      && v == 0 && (if e == Ok then d == c.(secure := bits) else e == EPERM && d == c)
  {
    assert Lock(NoRoot) == NoRootLocked && Lock(NoSetuidFixup) == NoSetuidFixupLocked && Lock(KeepCaps) == KeepCapsLocked;
    assert NoRoot in {NoRoot, NoSetuidFixup, KeepCaps} && NoSetuidFixup in {NoRoot, NoSetuidFixup, KeepCaps};
    assert KeepCaps in {NoRoot, NoSetuidFixup, KeepCaps};
  }

  /** KEEP_CAPS can be set and cleared unless it is locked. */
  lemma KeepCapsExactly(c: Cred, arg: nat)
    ensures var (e, v, d) := DoPrctl(c, SetKeepCaps(arg));
      && e == (if arg > 1 then EINVAL else if KeepCapsLocked in c.secure then EPERM else Ok)
      && v == 0 && d == (if e == Ok then c.(secure := d.secure) else c)
      && (e == Ok ==> forall b :: b in d.secure <==> if b == KeepCaps then arg == 1 else b in c.secure)
  {
  }

  /** The ambient prctl: which arguments are refused, that the query changes nothing, and that clearing, lowering
      and raising change just what they say. */
  lemma AmbientExactly(c: Cred, sub: Ambient, arg3: nat, arg45: bool)
    ensures var (e, v, d) := DoPrctl(c, CapAmbient(sub, arg3, arg45));
      && (e == EINVAL <==> arg45 || sub == Unknown || (if sub == ClearAll then arg3 != 0 else arg3 > CAP_LAST_CAP))
      && (e == EPERM <==> e != EINVAL && sub == Raise && (arg3 !in c.perm || arg3 !in c.inh))
      && e != EXATTR && v == (if e == Ok && sub == IsSet && arg3 in c.amb then 1 else 0)
      && d == c.(amb := d.amb)
      && (e != Ok || sub == IsSet ==> d == c)
      && (e == Ok && sub != IsSet ==>
            forall x :: x in d.amb <==> if sub == ClearAll then false else if x == arg3 then sub == Raise else x in c.amb)
  {
  }
}
