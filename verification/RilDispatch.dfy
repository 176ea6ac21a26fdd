/** How the RIL's dispatch functions own what they allocate on the way to the vendor library. */
module RilDispatch {

  /** A HIDL string: the length it reports and the characters its c_str() has */
  datatype HidlString = HidlString(size: nat, text: string)

  /** A string field to be copied; an empty one becomes null unless `allowEmpty` */
  datatype Field = Field(src: HidlString, allowEmpty: bool)

  datatype Errno = NoMemory | InternalErr | InvalidArguments

  datatype Pointer = Null | To(text: string)

  /** The strings of a RIL_DataProfileInfo as the vendor library reads them; up to version 14 there is no
      roamingProtocol, mvnoMatchData or mvnoType. */
  datatype Info = Info(apn: Pointer, protocol: Pointer, roamingProtocol: Pointer, user: Pointer, password: Pointer,
                       mvnoMatchData: Pointer, mvnoType: Pointer)

  /** What becomes of a request: one call of the vendor library, with what it sees, or one error response */
  datatype Outcome = VendorCall(seen: seq<seq<Pointer>>) | ProfilesCall(infos: seq<Info>) | ErrorResponse(e: Errno)

  datatype Cell = Text(text: string) | Block

  type Heap = map<nat, Cell>

  /** Rows of pointers to strings; 0 is null */
  type Pointers = seq<seq<nat>>

  predicate Fits(f: Field) { (f.src.size == 0 && !f.allowEmpty) || |f.src.text| <= f.src.size }

  /** What the vendor library is to find in place of the field */
  function Meant(f: Field): Pointer {
    if f.src.size == 0 && !f.allowEmpty then Null else To(f.src.text)
  }

  function Read(cells: Heap, p: nat): Pointer {
    if p in cells && cells[p].Text? then To(cells[p].text) else Null
  }

  // ---------------------------------------------------------------- ownership

  predicate InTable(t: Pointers, j: nat, f: nat) { j < |t| && f < |t[j]| }

  /** Freeing goes field by field and, within a field, row by row; it has come to field `i` of row `r`. */
  predicate Kept(j: nat, f: nat, i: nat, r: nat) { f > i || (f == i && j >= r) }

  /** Beside the heap there was before, `base`, the cells are the blocks in `arrays` and what the table still
      points to, every string once. */
  ghost predicate Owned(base: Heap, cells: Heap, arrays: set<nat>, t: Pointers, i: nat, r: nat) {
    && 0 !in cells
    && (forall b :: b in base ==> b in cells && cells[b] == base[b] && b !in arrays)
    && (forall b :: b in arrays ==> b in cells)
    && (forall b :: b in cells ==> b in base || b in arrays || Pointed(t, i, r, b))
    && (forall j: nat, f: nat :: InTable(t, j, f) && Kept(j, f, i, r) && t[j][f] != 0 ==>
          t[j][f] in cells && t[j][f] !in base && t[j][f] !in arrays)
    && (forall j: nat, f: nat, k: nat, g: nat ::
          InTable(t, j, f) && Kept(j, f, i, r) && InTable(t, k, g) && Kept(k, g, i, r) && (j != k || f != g) && t[j][f] != 0 ==>
          t[j][f] != t[k][g])
  }

  ghost predicate Pointed(t: Pointers, i: nat, r: nat, b: nat) {
    exists j: nat, f: nat :: InTable(t, j, f) && Kept(j, f, i, r) && t[j][f] == b
  }

  function NullRow(n: nat): seq<nat> { seq(n, _ => 0) }

  function NullTable(rows: nat, n: nat): Pointers { seq(rows, _ => NullRow(n)) }

  function Set(t: Pointers, j: nat, f: nat, p: nat): Pointers
    requires InTable(t, j, f)
  {
    var row: seq<nat> := t[j][f := p];
    t[j := row]
  }

  /** A fresh string, or null, goes where the table had null. */
  lemma OwnedMore(base: Heap, cells: Heap, arrays: set<nat>, t: Pointers, j: nat, f: nat, p: nat, c: Cell)
    requires Owned(base, cells, arrays, t, 0, 0) && InTable(t, j, f) && t[j][f] == 0 && (p == 0 || p !in cells)
    ensures Owned(base, if p == 0 then cells else cells[p := c], arrays, Set(t, j, f, p), 0, 0)
  {
    var cells', t' := if p == 0 then cells else cells[p := c], Set(t, j, f, p);
    forall b | b in cells' && b !in base && b !in arrays ensures Pointed(t', 0, 0, b) {
      if b == p {
        assert InTable(t', j, f) && t'[j][f] == b;
      } else {
        assert Pointed(t, 0, 0, b);
        var k: nat, g: nat :| InTable(t, k, g) && Kept(k, g, 0, 0) && t[k][g] == b;
        assert InTable(t', k, g) && t'[k][g] == b;
      }
    }
  }

  /** Freeing what the table points to at the place it has come to moves it on by one row. */
  lemma OwnedLess(base: Heap, cells: Heap, arrays: set<nat>, t: Pointers, i: nat, r: nat)
    requires Owned(base, cells, arrays, t, i, r) && InTable(t, r, i)
    ensures Owned(base, cells - {t[r][i]}, arrays, t, i, r + 1)
  {
    var p, cells' := t[r][i], cells - {t[r][i]};
    forall b | b in cells' && b !in base && b !in arrays ensures Pointed(t, i, r + 1, b) {
      assert Pointed(t, i, r, b);
      var k: nat, g: nat :| InTable(t, k, g) && Kept(k, g, i, r) && t[k][g] == b;
      assert Kept(k, g, i, r + 1);
    }
    forall j: nat, f: nat | InTable(t, j, f) && Kept(j, f, i, r + 1) && t[j][f] != 0
      ensures t[j][f] in cells'
    {
      assert Kept(j, f, i, r) && Kept(r, i, i, r);
      assert t[j][f] != t[r][i];
    }
  }

  /** After the last row the next field comes. */
  lemma OwnedNextField(base: Heap, cells: Heap, arrays: set<nat>, t: Pointers, i: nat)
    requires Owned(base, cells, arrays, t, i, |t|)
    ensures Owned(base, cells, arrays, t, i + 1, 0)
  {
    forall j: nat, f: nat | InTable(t, j, f) ensures Kept(j, f, i, |t|) <==> Kept(j, f, i + 1, 0) { }
    forall b | b in cells && b !in base && b !in arrays ensures Pointed(t, i + 1, 0, b) {
      assert Pointed(t, i, |t|, b);
    }
  }

  /** When nothing but null is left, only the arrays are left. */
  lemma OwnedEnd(base: Heap, cells: Heap, arrays: set<nat>, t: Pointers, i: nat)
    requires Owned(base, cells, arrays, t, i, 0)
    requires forall j: nat, f: nat :: InTable(t, j, f) && Kept(j, f, i, 0) ==> t[j][f] == 0
    ensures cells.Keys == base.Keys + arrays && cells - arrays == base
  {
    forall b | b in cells ensures !Pointed(t, i, 0, b) { }
  }

  // ---------------------------------------------------------------- what the vendor library sees

  predicate SameShape(t: Pointers, fields: seq<seq<Field>>) {
    |t| == |fields| && forall j :: 0 <= j < |t| ==> |t[j]| == |fields[j]|
  }

  /** The fields before field `f` of row `j` are copied, the others still null. */
  ghost predicate Copied(cells: Heap, t: Pointers, fields: seq<seq<Field>>, j: nat, f: nat) {
    && SameShape(t, fields)
    && forall k: nat, g: nat :: InTable(t, k, g) ==>
         if k < j || (k == j && g < f) then Fits(fields[k][g]) && Read(cells, t[k][g]) == Meant(fields[k][g])
         else t[k][g] == 0
  }

  function Seen(cells: Heap, t: Pointers): seq<seq<Pointer>> {
    seq(|t|, j requires 0 <= j < |t| => seq(|t[j]|, f requires 0 <= f < |t[j]| => Read(cells, t[j][f])))
  }

  function AllMeant(fields: seq<seq<Field>>): (r: seq<seq<Pointer>>)
    ensures |r| == |fields| && forall j :: 0 <= j < |r| ==> |r[j]| == |fields[j]|
  {
    seq(|fields|, j requires 0 <= j < |fields| => seq(|fields[j]|, f requires 0 <= f < |fields[j]| => Meant(fields[j][f])))
  }

  lemma CopiedMore(base: Heap, cells: Heap, arrays: set<nat>, t: Pointers, fields: seq<seq<Field>>, j: nat, f: nat, p: nat)
    requires Owned(base, cells, arrays, t, 0, 0) && Copied(cells, t, fields, j, f) && InTable(t, j, f)
    requires Fits(fields[j][f]) && (p == 0 || p !in cells) && (p == 0 <==> Meant(fields[j][f]).Null?)
    ensures var c := Text(fields[j][f].src.text);
      Copied(if p == 0 then cells else cells[p := c], Set(t, j, f, p), fields, j, f + 1)
  {
    var cells' := if p == 0 then cells else cells[p := Text(fields[j][f].src.text)];
    var t' := Set(t, j, f, p);
    forall k: nat, g: nat | InTable(t', k, g) && (k < j || (k == j && g < f + 1))
      ensures Fits(fields[k][g]) && Read(cells', t'[k][g]) == Meant(fields[k][g])
    {
      if k != j || g != f {
        assert InTable(t, k, g) && t'[k][g] == t[k][g];
        assert Kept(k, g, 0, 0);
      }
    }
  }

  lemma CopiedRow(cells: Heap, t: Pointers, fields: seq<seq<Field>>, j: nat)
    requires j < |fields| && Copied(cells, t, fields, j, |fields[j]|)
    ensures Copied(cells, t, fields, j + 1, 0)
  {
  }

  lemma CopiedAll(cells: Heap, t: Pointers, fields: seq<seq<Field>>)
    requires Copied(cells, t, fields, |fields|, 0)
    ensures Seen(cells, t) == AllMeant(fields)
    ensures forall j, f :: 0 <= j < |fields| && 0 <= f < |fields[j]| ==> Fits(fields[j][f])
  {
    var a, b := Seen(cells, t), AllMeant(fields);
    forall j | 0 <= j < |a| ensures a[j] == b[j] {
      forall f | 0 <= f < |a[j]| ensures a[j][f] == b[j][f] { assert InTable(t, j, f); }
    }
    forall j, f | 0 <= j < |fields| && 0 <= f < |fields[j]| ensures Fits(fields[j][f]) { assert InTable(t, j, f); }
  }

  /** One error response: for a field that does not fit, or for want of memory */
  ghost predicate Refused(before: seq<Outcome>, after: seq<Outcome>, f: Field) {
    || after == before + [ErrorResponse(NoMemory)]
    || (!Fits(f) && after == before + [ErrorResponse(InternalErr)])
  }

  ghost predicate RowUnfit(row: seq<Field>) { exists f :: 0 <= f < |row| && !Fits(row[f]) }

  ghost predicate SomeUnfit(fields: seq<seq<Field>>) { exists j :: 0 <= j < |fields| && RowUnfit(fields[j]) }

  /** One error response with its reason; `bad` says that some profile has no valid MVNO type. */
  ghost predicate Failed(before: seq<Outcome>, after: seq<Outcome>, fields: seq<seq<Field>>, bad: bool) {
    || after == before + [ErrorResponse(NoMemory)]
    || (SomeUnfit(fields) && after == before + [ErrorResponse(InternalErr)])
    || (bad && after == before + [ErrorResponse(InvalidArguments)])
  }

  /** One vendor call with every field as it is meant, or one error response */
  ghost predicate Answered(before: seq<Outcome>, after: seq<Outcome>, fields: seq<seq<Field>>, ok: bool) {
    if ok then after == before + [VendorCall(AllMeant(fields))] && !SomeUnfit(fields) else Failed(before, after, fields, false)
  }

  // ---------------------------------------------------------------- data profiles

  /** The MVNO types the RIL has names for, and any other value from the wire */
  datatype MvnoType = Imsi | Gid | Spn | NoMvno | Other(code: int)

  datatype Profile = Profile(apn: HidlString, protocol: HidlString, roamingProtocol: HidlString, user: HidlString,
                             password: HidlString, mvnoMatchData: HidlString, mvnoType: MvnoType)

  /** The string fields in the order in which they are copied */
  function ProfileFields(p: Profile, isRoaming: bool, version: int): seq<Field> {
    if version <= 14 then
      [Field(p.apn, true), Field(if isRoaming then p.roamingProtocol else p.protocol, true), Field(p.user, true),
       Field(p.password, true)]
    else
      [Field(p.apn, true), Field(p.protocol, false), Field(p.roamingProtocol, true), Field(p.user, true),
       Field(p.password, true), Field(p.mvnoMatchData, true)]
  }

  function FieldsOf(profiles: seq<Profile>, isRoaming: bool, version: int): (r: seq<seq<Field>>)
    ensures |r| == |profiles| && forall j :: 0 <= j < |r| ==> |r[j]| == if version <= 14 then 4 else 6
  {
    seq(|profiles|, j requires 0 <= j < |profiles| => ProfileFields(profiles[j], isRoaming, version))
  }

  predicate BadMvno(profiles: seq<Profile>, version: int) {
    version > 14 && exists k :: 0 <= k < |profiles| && profiles[k].mvnoType.Other?
  }

  /** The members that the copied pointers of one profile are stored in */
  function InfoOf(row: seq<Pointer>, mvnoType: Pointer, version: int): Info
    requires |row| == if version <= 14 then 4 else 6
  {
    if version <= 14 then Info(row[0], row[1], Null, row[2], row[3], Null, Null)
    else Info(row[0], row[1], row[2], row[3], row[4], row[5], mvnoType)
  }

  function InfosOf(seen: seq<seq<Pointer>>, types: seq<Pointer>, version: int): (r: seq<Info>)
    requires |types| == |seen| && forall j :: 0 <= j < |seen| ==> |seen[j]| == if version <= 14 then 4 else 6
    ensures |r| == |seen|
  {
    seq(|seen|, j requires 0 <= j < |seen| => InfoOf(seen[j], types[j], version))
  }

  /** Every member holds the text of the profile's string of that name.  Up to version 14 the protocol is the
      roaming one when roaming; above, an empty protocol is null. */
  predicate Told(p: Profile, isRoaming: bool, version: int, i: Info) {
    && i.apn == To(p.apn.text) && i.user == To(p.user.text) && i.password == To(p.password.text)
    && (version <= 14 ==>
          && i.protocol == To(if isRoaming then p.roamingProtocol.text else p.protocol.text)
          && i.roamingProtocol == Null && i.mvnoMatchData == Null && i.mvnoType == Null)
    && (version > 14 ==>
          && i.protocol == (if p.protocol.size == 0 then Null else To(p.protocol.text))
          && i.roamingProtocol == To(p.roamingProtocol.text) && i.mvnoMatchData == To(p.mvnoMatchData.text)
          && (p.mvnoType.Imsi? ==> i.mvnoType == To("imsi")) && (p.mvnoType.Gid? ==> i.mvnoType == To("gid"))
          && (p.mvnoType.Spn? ==> i.mvnoType == To("spn")) && (p.mvnoType.NoMvno? ==> i.mvnoType == To("")))
  }

  predicate TooLong(s: HidlString) { |s.text| > s.size }

  /** Some string that is copied has more characters than it says. */
  predicate AnyTooLong(p: Profile, isRoaming: bool, version: int) {
    || TooLong(p.apn) || TooLong(p.user) || TooLong(p.password)
    || (if version <= 14 then TooLong(if isRoaming then p.roamingProtocol else p.protocol)
        else (p.protocol.size != 0 && TooLong(p.protocol)) || TooLong(p.roamingProtocol) || TooLong(p.mvnoMatchData))
  }

  /** What becomes of a listed request to set profiles: one vendor call that is told every profile, or one error
      response with its reason */
  ghost predicate ProfilesAnswered(before: seq<Outcome>, after: seq<Outcome>, profiles: seq<Profile>, isRoaming: bool, version: int) {
    || (exists infos: seq<Info> ::
          && after == before + [ProfilesCall(infos)] && |infos| == |profiles|
          && forall j :: 0 <= j < |profiles| ==>
               && Told(profiles[j], isRoaming, version, infos[j]) && !AnyTooLong(profiles[j], isRoaming, version)
               && (version > 14 ==> !profiles[j].mvnoType.Other?))
    || after == before + [ErrorResponse(NoMemory)]
    || (after == before + [ErrorResponse(InternalErr)] && exists j :: 0 <= j < |profiles| && AnyTooLong(profiles[j], isRoaming, version))
    || (after == before + [ErrorResponse(InvalidArguments)] && version > 14 && exists j :: 0 <= j < |profiles| && profiles[j].mvnoType.Other?)
  }

  lemma FitsExactly(p: Profile, isRoaming: bool, version: int)
    ensures RowUnfit(ProfileFields(p, isRoaming, version)) <==> AnyTooLong(p, isRoaming, version)
  {
    var fields := ProfileFields(p, isRoaming, version);
    var more := version > 14 && (!Fits(fields[4]) || !Fits(fields[5]));
    assert AnyTooLong(p, isRoaming, version) <==> !Fits(fields[0]) || !Fits(fields[1]) || !Fits(fields[2]) || !Fits(fields[3]) || more;
  }

  lemma UnfitExactly(profiles: seq<Profile>, isRoaming: bool, version: int)
    ensures SomeUnfit(FieldsOf(profiles, isRoaming, version)) <==>
      exists j :: 0 <= j < |profiles| && AnyTooLong(profiles[j], isRoaming, version)
  {
    hide ProfileFields, AnyTooLong, RowUnfit;
    var fields := FieldsOf(profiles, isRoaming, version);
    forall j | 0 <= j < |profiles| ensures RowUnfit(fields[j]) <==> AnyTooLong(profiles[j], isRoaming, version) {
      FitsExactly(profiles[j], isRoaming, version);
    }
  }

  /** The row of a profile's strings, each as it is meant, fills the members rightly. */
  lemma RowTold(p: Profile, isRoaming: bool, version: int, row: seq<Pointer>, mvnoType: Pointer)
    requires |row| == |ProfileFields(p, isRoaming, version)|
    requires forall f :: 0 <= f < |row| ==> row[f] == Meant(ProfileFields(p, isRoaming, version)[f])
    requires version > 14 ==> TypeTold(p.mvnoType, mvnoType)
    ensures Told(p, isRoaming, version, InfoOf(row, mvnoType, version))
  {
    var fields := ProfileFields(p, isRoaming, version);
    assert row[0] == Meant(fields[0]) && row[1] == Meant(fields[1]) && row[2] == Meant(fields[2]) && row[3] == Meant(fields[3]);
    if version > 14 { assert row[4] == Meant(fields[4]) && row[5] == Meant(fields[5]); }
  }

  predicate TypeTold(t: MvnoType, told: Pointer) {
    match t
    case Imsi => told == To("imsi")
    case Gid => told == To("gid")
    case Spn => told == To("spn")
    case NoMvno => told == To("")
    case Other(_) => false
  }

  /** When the copies are all made, the vendor library is told every profile. */
  lemma AllTold(profiles: seq<Profile>, isRoaming: bool, version: int, types: seq<Pointer>, before: seq<Outcome>)
    requires |types| == |profiles| && !SomeUnfit(FieldsOf(profiles, isRoaming, version))
    requires version > 14 ==> forall k :: 0 <= k < |profiles| ==> TypeTold(profiles[k].mvnoType, types[k])
    ensures var seen := AllMeant(FieldsOf(profiles, isRoaming, version));
      ProfilesAnswered(before, before + [ProfilesCall(InfosOf(seen, types, version))], profiles, isRoaming, version)
  {
    hide Told, AnyTooLong, InfosOf, FieldsOf, AllMeant, SomeUnfit;
    var infos := InfosOf(AllMeant(FieldsOf(profiles, isRoaming, version)), types, version);
    UnfitExactly(profiles, isRoaming, version);
    forall j: nat | j < |profiles| ensures Told(profiles[j], isRoaming, version, infos[j]) {
      OneTold(profiles, isRoaming, version, types, j);
    }
  }

  lemma OneTold(profiles: seq<Profile>, isRoaming: bool, version: int, types: seq<Pointer>, j: nat)
    requires |types| == |profiles| && j < |profiles| && (version > 14 ==> TypeTold(profiles[j].mvnoType, types[j]))
    ensures Told(profiles[j], isRoaming, version, InfosOf(AllMeant(FieldsOf(profiles, isRoaming, version)), types, version)[j])
  {
    hide Told, InfoOf, ProfileFields, Meant;
    RowTold(profiles[j], isRoaming, version, AllMeant(FieldsOf(profiles, isRoaming, version))[j], types[j]);
  }

  lemma FailureTold(before: seq<Outcome>, after: seq<Outcome>, profiles: seq<Profile>, isRoaming: bool, version: int)
    requires Failed(before, after, FieldsOf(profiles, isRoaming, version), BadMvno(profiles, version))
    ensures ProfilesAnswered(before, after, profiles, isRoaming, version)
  {
    hide Told, AnyTooLong, FieldsOf;
    UnfitExactly(profiles, isRoaming, version);
  }

  // ---------------------------------------------------------------- the program

  class Ril {
    /** The allocated blocks, and what became of the requests so far */
    var cells: Heap
    var outcomes: seq<Outcome>

    /** calloc(): a new block, or null at any time */
    method Calloc(c: Cell) returns (p: nat)
      modifies this`cells
      ensures if p == 0 then cells == old(cells) else p !in old(cells) && cells == old(cells)[p := c]
    {
      p := *;
      if p in cells {
        p := 0;
      }
      if p != 0 {
        cells := cells[p := c];
      }
    }

    /** free(): null, or a block that is still allocated */
    method Free(p: nat)
      requires p == 0 || p in cells
      requires 0 !in cells
      modifies this`cells
      ensures cells == old(cells) - {p}
    {
      cells := cells - {p};
    }

    method SendErrorResponse(e: Errno)
      modifies this`outcomes
      ensures outcomes == old(outcomes) + [ErrorResponse(e)]
    {
      outcomes := outcomes + [ErrorResponse(e)];
    }

    /** CALL_ONREQUEST: the vendor library reads the strings during the call. */
    method CallOnRequest(t: Pointers)
      modifies this`outcomes
      ensures outcomes == old(outcomes) + [VendorCall(Seen(cells, t))]
    {
      outcomes := outcomes + [VendorCall(Seen(cells, t))];
    }

    /** The same with data profiles, whose members are the pointers of a row */
    method CallWithProfiles(t: Pointers, types: seq<Pointer>, version: int)
      requires |types| == |t| && forall j :: 0 <= j < |t| ==> |t[j]| == if version <= 14 then 4 else 6
      modifies this`outcomes
      ensures outcomes == old(outcomes) + [ProfilesCall(InfosOf(Seen(cells, t), types, version))]
    {
      outcomes := outcomes + [ProfilesCall(InfosOf(Seen(cells, t), types, version))];
    }

    /** convertMvnoTypeToString */
    method ConvertMvnoTypeToString(t: MvnoType) returns (ok: bool, str: Pointer)
      ensures if t.Other? then !ok else ok && TypeTold(t, str)
    {
      ok, str := true, Null;
      match t {
        case Imsi => str := To("imsi");
        case Gid => str := To("gid");
        case Spn => str := To("spn");
        case NoMvno => str := To("");
        case Other(_) => ok := false;
      }
    }

    /** copyHidlStringToRil */
    method CopyHidlStringToRil(f: Field) returns (ok: bool, dest: nat)
      requires 0 !in cells
      modifies this
      ensures ok ==> Fits(f) && outcomes == old(outcomes) && (dest == 0 <==> Meant(f).Null?)
      ensures ok ==> if dest == 0 then cells == old(cells)
                     else dest !in old(cells) && cells == old(cells)[dest := Text(f.src.text)]
      ensures !ok ==> dest == 0 && cells == old(cells) && Refused(old(outcomes), outcomes, f)
    {
      if f.src.size == 0 && !f.allowEmpty {
        return true, 0;
      }
      dest := Calloc(Text(f.src.text));
      if dest == 0 {
        SendErrorResponse(NoMemory);
        return false, 0;
      }
      if |f.src.text| >= f.src.size + 1 {
        Free(dest);
        dest := 0;
        SendErrorResponse(InternalErr);
        return false, 0;
      }
      return true, dest;
    }

    /** The loops over pStrings that free the first `n` strings, with nothing behind them */
    method FreeStrings(row: seq<nat>, n: nat, ghost base: Heap, ghost arrays: set<nat>)
      requires Owned(base, cells, arrays, [row], 0, 0) && n <= |row| && forall k :: n <= k < |row| ==> row[k] == 0
      modifies this`cells
      ensures cells.Keys == base.Keys + arrays && cells - arrays == base && 0 !in cells
    {
      ghost var t: Pointers := [row];
      for i := 0 to n
        invariant Owned(base, cells, arrays, t, i, 0)
      {
        assert InTable(t, 0, i) && t[0][i] == row[i] && Kept(0, i, i, 0);
        OwnedLess(base, cells, arrays, t, i, 0);
        Free(row[i]);
        OwnedNextField(base, cells, arrays, t, i);
      }
      OwnedEnd(base, cells, arrays, t, n);
    }

    /** Both dispatchStrings; `listed` says whether addRequestToList gave a request. */
    method DispatchStrings(fields: seq<Field>, listed: bool) returns (ok: bool)
      requires 0 !in cells
      modifies this
      ensures cells == old(cells)
      ensures !listed ==> !ok && outcomes == old(outcomes)
      ensures listed ==> Answered(old(outcomes), outcomes, [fields], ok)
    {
      hide Owned, Copied;
      ghost var base, all := cells, [fields];
      if !listed {
        return false;
      }
      var pStrings := Calloc(Block);
      if pStrings == 0 {
        SendErrorResponse(NoMemory);
        return false;
      }
      ghost var arrays := {pStrings};
      var row: seq<nat> := NullRow(|fields|);
      CopyStart(base, cells, arrays, [row], all);
      for i := 0 to |fields|
        invariant |row| == |fields| && 0 !in cells && outcomes == old(outcomes)
        invariant Owned(base, cells, arrays, [row], 0, 0) && Copied(cells, [row], all, 0, i)
      {
        NotYet(cells, [row], all, 0, i);
        ghost var before: Heap, t: Pointers := cells, [row];
        var copied, dest := CopyHidlStringToRil(fields[i]);
        if !copied {
          RestIsNull(before, row, all, i);
          FreeStrings(row, i, base, arrays);
          Free(pStrings);
          assert !Fits(fields[i]) ==> !Fits(all[0][i]);
          return false;
        }
        row := row[i := dest];
        OwnedMore(base, before, arrays, t, 0, i, dest, Text(fields[i].src.text));
        CopiedMore(base, before, arrays, t, all, 0, i, dest);
        assert Set(t, 0, i, dest) == [row];
      }
      CopiedRow(cells, [row], all, 0);
      CopiedAll(cells, [row], all);
      CallOnRequest([row]);
      FreeStrings(row, |fields|, base, arrays);
      Free(pStrings);
      ok := true;
    }

    // -------------------------------------------------------------- setDataProfile

    /** freeSetDataProfileData: field by field, profile by profile, and then the two arrays */
    method FreeSetDataProfileData(t: Pointers, n: nat, dataProfiles: nat, dataProfilePtrs: nat, ghost base: Heap)
      requires dataProfiles != dataProfilePtrs && Owned(base, cells, {dataProfiles, dataProfilePtrs}, t, 0, 0)
      requires forall j :: 0 <= j < |t| ==> |t[j]| == n
      modifies this`cells
      ensures cells == base
    {
      ghost var arrays := {dataProfiles, dataProfilePtrs};
      for i := 0 to n
        invariant Owned(base, cells, arrays, t, i, 0)
      {
        for j := 0 to |t|
          invariant Owned(base, cells, arrays, t, i, j)
        {
          assert InTable(t, j, i) && Kept(j, i, i, j);
          OwnedLess(base, cells, arrays, t, i, j);
          Free(t[j][i]);
        }
        OwnedNextField(base, cells, arrays, t, i);
      }
      OwnedEnd(base, cells, arrays, t, n);
      Free(dataProfiles);
      Free(dataProfilePtrs);
      assert base - {0} == base;
    }

    /** The copies for one profile, up to the first that fails */
    method CopyProfile(t: Pointers, fields: seq<seq<Field>>, i: nat, ghost base: Heap, ghost arrays: set<nat>)
      returns (ok: bool, t': Pointers)
      requires i < |fields| && Owned(base, cells, arrays, t, 0, 0) && Copied(cells, t, fields, i, 0)
      modifies this
      ensures Owned(base, cells, arrays, t', 0, 0) && SameShape(t', fields)
      ensures ok ==> Copied(cells, t', fields, i + 1, 0) && outcomes == old(outcomes)
      ensures !ok ==> Failed(old(outcomes), outcomes, fields, false)
    {
      hide Owned, Copied;
      t' := t;
      ZeroOut(base, cells, arrays, t);
      ShapeOf(cells, t, fields, i, 0);
      for f := 0 to |fields[i]|
        invariant 0 !in cells && outcomes == old(outcomes) && SameShape(t', fields)
        invariant Owned(base, cells, arrays, t', 0, 0) && Copied(cells, t', fields, i, f)
      {
        ghost var before, was := cells, t';
        NotYet(before, was, fields, i, f);
        var copied, dest := CopyHidlStringToRil(fields[i][f]);
        if !copied {
          assert !Fits(fields[i][f]) ==> SomeUnfit(fields);
          return false, t';
        }
        t' := Set(t', i, f, dest);
        OwnedMore(base, before, arrays, was, i, f, dest, Text(fields[i][f].src.text));
        CopiedMore(base, before, arrays, was, fields, i, f, dest);
      }
      CopiedRow(cells, t', fields, i);
      ok := true;
    }

    /** setDataProfile, for both layouts of the vendor's structure */
    method SetDataProfile(profiles: seq<Profile>, isRoaming: bool, version: int, listed: bool)
      requires 0 !in cells
      modifies this
      ensures cells == old(cells)
      ensures !listed ==> outcomes == old(outcomes)
      ensures listed ==> ProfilesAnswered(old(outcomes), outcomes, profiles, isRoaming, version)
    {
      hide Owned, Copied, ProfilesAnswered, FieldsOf, InfosOf;
      if !listed {
        return;
      }
      ghost var base, before := cells, outcomes;
      var fields := FieldsOf(profiles, isRoaming, version);
      var n := if version <= 14 then 4 else 6;
      var dataProfiles := Calloc(Block);
      if dataProfiles == 0 {
        SendErrorResponse(NoMemory);
        FailureTold(before, outcomes, profiles, isRoaming, version);
        return;
      }
      var dataProfilePtrs := Calloc(Block);
      if dataProfilePtrs == 0 {
        Free(dataProfiles);
        SendErrorResponse(NoMemory);
        FailureTold(before, outcomes, profiles, isRoaming, version);
        return;
      }
      ghost var arrays := {dataProfiles, dataProfilePtrs};
      var t, types := NullTable(|profiles|, n), seq(|profiles|, _ => Null);
      CopyStart(base, cells, arrays, t, fields);
      for i := 0 to |profiles|
        invariant 0 !in cells && outcomes == before && SameShape(t, fields) && |types| == |profiles|
        invariant Owned(base, cells, arrays, t, 0, 0) && Copied(cells, t, fields, i, 0)
        invariant version > 14 ==> forall k :: 0 <= k < i ==> TypeTold(profiles[k].mvnoType, types[k])
      {
        var success;
        success, t := CopyProfile(t, fields, i, base, arrays);
        if success && version > 14 {
          var known, str := ConvertMvnoTypeToString(profiles[i].mvnoType);
          if known {
            types := types[i := str];
          } else {
            SendErrorResponse(InvalidArguments);
            success := false;
          }
        }
        if !success {
          FreeSetDataProfileData(t, n, dataProfiles, dataProfilePtrs, base);
          FailureTold(before, outcomes, profiles, isRoaming, version);
          return;
        }
        ZeroOut(base, cells, arrays, t);
      }
      CopiedAll(cells, t, fields);
      CallWithProfiles(t, types, version);
      AllTold(profiles, isRoaming, version, types, before);
      FreeSetDataProfileData(t, n, dataProfiles, dataProfilePtrs, base);
    }
  }

  lemma ZeroOut(base: Heap, cells: Heap, arrays: set<nat>, t: Pointers)
    requires Owned(base, cells, arrays, t, 0, 0)
    ensures 0 !in cells
  {
  }

  lemma ShapeOf(cells: Heap, t: Pointers, fields: seq<seq<Field>>, j: nat, f: nat)
    requires Copied(cells, t, fields, j, f)
    ensures SameShape(t, fields)
  {
  }

  lemma CopyStart(base: Heap, cells: Heap, arrays: set<nat>, t: Pointers, fields: seq<seq<Field>>)
    requires 0 !in cells && base.Keys !! arrays && cells.Keys == base.Keys + arrays
    requires forall b :: b in base ==> cells[b] == base[b]
    requires SameShape(t, fields) && forall j: nat, f: nat :: InTable(t, j, f) ==> t[j][f] == 0
    ensures Owned(base, cells, arrays, t, 0, 0) && Copied(cells, t, fields, 0, 0)
  {
  }

  lemma NotYet(cells: Heap, t: Pointers, fields: seq<seq<Field>>, j: nat, f: nat)
    requires Copied(cells, t, fields, j, f) && InTable(t, j, f)
    ensures t[j][f] == 0
  {
  }

  lemma RestIsNull(cells: Heap, row: seq<nat>, fields: seq<seq<Field>>, n: nat)
    requires Copied(cells, [row], fields, 0, n)
    ensures forall k :: n <= k < |row| ==> row[k] == 0
  {
    forall k: nat | n <= k < |row| ensures row[k] == 0 { assert InTable([row], 0, k) && [row][0][k] == row[k]; }
  }
}
