/** From a mutation intent to what the reader sees: locate, plan, replay, read back. */
module Mutation {
  import opened Bytes
  import opened Results
  import Format
  import opened AddressAgreement
  import opened Planner
  import opened PlanMeaning
  import Replay
  import I = Integrity
  import O = PlanOrder
  import L = Locators
  import S = LocatorSoundness
  import R = Reader
  import T = Types

  /** The scalar fields of an extended inode besides its format: offset and width. */
  predicate InodeField(at: nat, len: nat) {
    (at, len) in {(2, 2), (4, 2), (8, 8), (16, 4), (20, 4), (24, 4), (28, 4), (32, 8), (40, 4), (44, 4)}
  }

  /** The inode with the field at `at` changed. */
  function WithField(inode: T.Inode, at: nat, value: nat): T.Inode
    requires inode.Extended?
  {
    if at == 2 then inode.(xattrCount := value)
    else if at == 4 then inode.(mode := value)
    else if at == 8 then inode.(size := value)
    else if at == 16 then inode.(inodeData := value)
    else if at == 20 then inode.(ino := value)
    else if at == 24 then inode.(uid := value)
    else if at == 28 then inode.(gid := value)
    else if at == 32 then inode.(mtime := value)
    else if at == 40 then inode.(mtimeNsec := value)
    else inode.(nlink := value)
  }

  /** Two fields are the same or apart. */
  lemma FieldAfter(data: seq<byte>, after: seq<byte>, at: nat, len: nat, value: nat, from: nat, to: nat)
    requires at + len <= |data| && from <= to <= |data| && value < Pow256(len)
    requires after == Blit(data, at, LeBytes(value, len))
    requires (from == at && to == at + len) || to <= at || at + len <= from
    ensures LeVal(after[from..to]) == if from == at && to == at + len && len > 0 then value else LeVal(data[from..to])
  {
    hide LeVal, LeBytes;
    if from == at && to == at + len {
      assert after[from..to] == LeBytes(value, len);
      LeRoundTrip(value, len);
      if len == 0 {
        assert after[from..to] == data[from..to];
      }
    } else {
      assert after[from..to] == data[from..to];
    }
  }

  /** Overwriting one field of an inode's bytes changes that field of the parsed inode and no other. */
  lemma ParsedAfter(data: seq<byte>, after: seq<byte>, nid: nat, at: nat, len: nat, value: nat)
    requires |data| >= 64 && InodeField(at, len) && value < Pow256(len)
    requires after == Blit(data, at, LeBytes(value, len))
    requires R.ParseInode(data, nid).Ok? && R.ParseInode(data, nid).value.Extended?
    ensures R.ParseInode(after, nid) == Ok(WithField(R.ParseInode(data, nid).value, at, value))
  {
    hide LeVal, LeBytes, Pow256, Blit;
    FieldAfter(data, after, at, len, value, 0, 2);
    FieldAfter(data, after, at, len, value, 2, 4);
    FieldAfter(data, after, at, len, value, 4, 6);
    FieldAfter(data, after, at, len, value, 8, 16);
    FieldAfter(data, after, at, len, value, 16, 20);
    FieldAfter(data, after, at, len, value, 20, 24);
    FieldAfter(data, after, at, len, value, 24, 28);
    FieldAfter(data, after, at, len, value, 28, 32);
    FieldAfter(data, after, at, len, value, 32, 40);
    FieldAfter(data, after, at, len, value, 40, 44);
    FieldAfter(data, after, at, len, value, 44, 48);
  }

  lemma BlitBehind(img: seq<byte>, base: nat, at: nat, patch: seq<byte>)
    requires base + at + |patch| <= |img|
    ensures Blit(img, base + at, patch)[base..] == Blit(img[base..], at, patch)
  {
  }

  /** A plan that sets one field of one inode. */
  function SetField(nid: u64, field: L.FieldDef, value: u64): Intent {
    SetValue(L.InodeObject(L.Primary, nid), field.id, value)
  }

  /** What such an intent does to the bytes. */
  lemma {:induction false} SetFieldPerforms(
      img: seq<byte>, l: L.Locator, schema: Schema, nid: u64, field: L.FieldDef, value: u64)
    requires l.Valid() && l.image == img && FieldById(schema, field.id) == Some(field)
    requires field.WellFormed() && !field.encoding.ByteString? && field.id != L.XattrValue
    requires WriteOf(l, schema, img, SetField(nid, field, value)).Ok?
    ensures l.LocateInode(L.Primary, nid).Ok? && l.LocateInode(L.Primary, nid).value.structure == field.structure
    ensures var base := l.LocateInode(L.Primary, nid).value.base;
            && base + field.offset + field.len <= |img| && value < Pow256(field.len)
            && Perform(l, schema, img, SetField(nid, field, value))
               == Blit(img, base + field.offset, LeBytes(value, field.len))
  {
    hide FieldById, L.Locator.LocateInode, LeBytes, Blit, Pow256, L.Locator.Locate;
    var target := L.InodeObject(L.Primary, nid);
    assert l.Locate(target, field).Ok?;
    S.LocateParts(l, target, field);
  }

  lemma FieldInside(at: nat, len: nat)
    requires InodeField(at, len)
    ensures at + len <= 64
  {
  }

  lemma ExtendedSlot(l: L.Locator, core: R.Core, nid: u64, base: nat, inode: T.Inode)
    requires l.Valid() && l.LocateInode(L.Primary, nid).Ok? && l.LocateInode(L.Primary, nid).value.base == base
    requires l.LocateInode(L.Primary, nid).value.structure == L.ExtendedInode && SameInode(l, base, inode)
    ensures base + 64 <= |l.image| && inode.Extended?
  {
    hide L.Locator.LocateInode, Format.U16At, Format.U32At, Format.U64At;
  }

  lemma MendedPreserved(img: seq<byte>)
    requires |img| >= 1152
    ensures Mended(img, |img|, I.Preserve) == img
  {
    assert img[..|img|] == img;
  }

  /** The one-intent plan: what was accepted, and what it performs. */
  lemma {:induction false} OneIntent(img: seq<byte>, schema: Schema, intent: Intent, mode: Mode, l: L.Locator)
    requires Opens(img, mode, l) && intent.SetValue?
    requires PlanOf(img, schema, [intent], mode, I.Preserve).Ok?
    ensures WriteOf(l, schema, img, intent).Ok?
    ensures PerformAll(l, schema, img, [intent]) == Perform(l, schema, img, intent)
    ensures Requested([intent]) == None
  {
    hide WriteOf, Perform, PlanOf, L.OpenLocator;
    PlanParts(img, schema, [intent], mode, I.Preserve, l);
    NothingOverlaid(img);
    assert [intent][1..] == [];
    assert Step(l, schema, (map[], None), intent).Ok?;
    assert PerformAll(l, schema, Perform(l, schema, img, intent), []) == Perform(l, schema, img, intent);
  }

  /** A scalar of the extended inode that every image has. */
  ghost predicate InodeScalar(schema: Schema, field: L.FieldDef) {
    && FieldById(schema, field.id) == Some(field) && field.WellFormed() && !field.encoding.ByteString?
    && field.structure == L.ExtendedInode && field.presence == L.Always && field.id != L.XattrValue
    && field.offset + field.len <= 64
  }

  /** The located inode is extended exactly when the reader's is. */
  lemma LocatedKind(img: seq<byte>, mode: L.ParseMode, core: R.Core, l: L.Locator, nid: u64)
    requires BothOpen(img, mode, core, l) && l.Valid()
    ensures (l.LocateInode(L.Primary, nid).Ok? && l.LocateInode(L.Primary, nid).value.structure == L.ExtendedInode)
            <==> var inode := R.GetInode(img, core, nid);
                 inode.Ok? && inode.value.Extended? && (mode.Strict? ==> inode.value.format < 0x20)
  {
    hide R.Open, L.OpenLocator, L.Locator.LocateInode, R.GetInode, R.InodeOffset, Format.U16At, Format.U32At,
      Format.U64At;
    InodeFoundExactly(img, mode, core, l, nid);
    if l.LocateInode(L.Primary, nid).Ok? {
      InodeAgrees(img, mode, core, l, nid);
    }
  }

  /** A scalar of an extended inode is located whenever the inode is. */
  lemma ScalarLocated(l: L.Locator, nid: u64, field: L.FieldDef)
    requires l.Valid() && field.WellFormed() && !field.encoding.ByteString?
    requires field.structure == L.ExtendedInode && field.presence == L.Always && field.offset + field.len <= 64
    ensures l.Locate(L.InodeObject(L.Primary, nid), field).Ok?
            <==> l.LocateInode(L.Primary, nid).Ok? && l.LocateInode(L.Primary, nid).value.structure == L.ExtendedInode
    ensures l.Locate(L.InodeObject(L.Primary, nid), field).Ok? ==>
      l.Locate(L.InodeObject(L.Primary, nid), field).value.span.len == field.len
  {
    hide L.Locator.LocateInode, LeVal, Format.U16At;
  }

  /** The write of a field exists exactly when the field is located and the value fits. */
  lemma ScalarWritten(l: L.Locator, schema: Schema, nid: u64, field: L.FieldDef, value: u64)
    requires l.Valid() && InodeScalar(schema, field)
    ensures O.Placed(l, schema, SetField(nid, field, value))
            <==> l.Locate(L.InodeObject(L.Primary, nid), field).Ok? && value < Pow256(field.len)
  {
    ScalarLocated(l, nid, field);
    hide L.Locator.Locate, FieldById, Pow256, LeBytes;
  }

  lemma OnePlaced(l: L.Locator, schema: Schema, intent: Intent, k: nat)
    requires l.Valid() && O.Placed(l, schema, intent) && O.Touches(l, schema, intent, k)
    ensures k < |l.image|
  {
    hide WriteOf;
  }

  /** What is asked of the plan as a whole is only that raw mode takes no fields. */
  lemma ScalarAllowed(l: L.Locator, schema: Schema, intent: Intent, mode: Mode)
    requires l.Valid() && intent.SetValue?
    ensures O.AllFixed([intent])
    ensures O.AllPlaced(l, schema, [intent]) <==> O.Placed(l, schema, intent)
    ensures O.Placed(l, schema, intent) ==>
      && O.AllRespect(l, schema, [intent])
      && (O.Allowed(l, schema, [intent], mode, I.Preserve) <==> !mode.RawMode?)
  {
    hide O.Placed, PerformAll, O.Respects;
    var one := [intent];
    assert one[1..] == [] && one[0] == intent;
    O.NoTruncations(one);
    assert !RawOnly(one);
    if O.Placed(l, schema, intent) {
      forall k: nat | O.Changed(l, schema, one, k) ensures k < |l.image| {
        OnePlaced(l, schema, intent, k);
      }
    }
  }

  /** A plan to set a scalar of an extended inode is accepted exactly when the mode takes fields, the reader
      reads an extended inode there, the value fits, and, for a consistent plan, the inode's format has no
      reserved bit. */
  lemma FieldPlanned(
      img: seq<byte>, mode: Mode, core: R.Core, schema: Schema, nid: u64, field: L.FieldDef, value: u64)
    requires |img| < Format.IMAGE_LIMIT && R.Open(img) == Ok(core) && InodeScalar(schema, field)
    ensures PlanOf(img, schema, [SetField(nid, field, value)], mode, I.Preserve).Ok?
            <==> && !mode.RawMode? && value < Pow256(field.len)
                 && var inode := R.GetInode(img, core, nid);
                    inode.Ok? && inode.value.Extended? && (mode.ConsistentMode? ==> inode.value.format < 0x20)
  {
    hide R.Open, L.OpenLocator, PlanOf, R.GetInode, L.Locator.LocateInode, L.Locator.Locate, O.Placed, O.Allowed,
      O.AllPlaced, O.AllRespect, O.AllFixed, Pow256, FieldById;
    var parse := ParseModeOf(mode);
    BothOpenTogether(img, parse);
    var l := L.OpenLocator(img, parse).value;
    ContextAgrees(img, parse, core, l);
    LocatedKind(img, parse, core, l, nid);
    ScalarLocated(l, nid, field);
    ScalarWritten(l, schema, nid, field, value);
    ScalarAllowed(l, schema, SetField(nid, field, value), mode);
    O.AcceptedExactly(img, schema, [SetField(nid, field, value)], mode, I.Preserve, l);
  }

  /** Mutate, then read: if the plan of setting an inode field is accepted, the reader finds the new
      value in that field of the mutated image and every other field of the inode unchanged. */
  lemma {:induction false} MutateThenRead(
      img: seq<byte>, mode: Mode, core: R.Core, l: L.Locator, schema: Schema, nid: u64, field: L.FieldDef, value: u64)
    requires BothOpen(img, ParseModeOf(mode), core, l) && FieldById(schema, field.id) == Some(field)
    requires field.structure == L.ExtendedInode && InodeField(field.offset, field.len)
    requires field.WellFormed() && !field.encoding.ByteString? && field.id != L.XattrValue
    requires PlanOf(img, schema, [SetField(nid, field, value)], mode, I.Preserve).Ok?
    ensures var plan := PlanOf(img, schema, [SetField(nid, field, value)], mode, I.Preserve).value;
            var out := Replay.Apply(img, plan.patches, plan.resize);
            var before := R.GetInode(img, core, nid);
            && out.Ok? && before.Ok? && before.value.Extended?
            && R.GetInode(out.value, core, nid) == Ok(WithField(before.value, field.offset, value))
  {
    hide R.Open, L.OpenLocator, PlanOf, Replay.Apply, Steps, FieldById, LeBytes, Pow256, Blit, WriteOf;
    hide L.Locator.LocateInode;
    hide R.ParseInode, R.InodeOffset, SameInode, Perform, Mended, FieldById, InodeField, WithField;
    var intents := [SetField(nid, field, value)];
    ContextAgrees(img, ParseModeOf(mode), core, l);
    AcceptedPlan(img, schema, intents, mode, I.Preserve, l);
    OneIntent(img, schema, intents[0], mode, l);
    SetFieldPerforms(img, l, schema, nid, field, value);
    InodeAgrees(img, ParseModeOf(mode), core, l, nid);
    var base := l.LocateInode(L.Primary, nid).value.base;
    var out := Perform(l, schema, img, intents[0]);
    ExtendedSlot(l, core, nid, base, R.GetInode(img, core, nid).value);
    MendedPreserved(out);
    BlitBehind(img, base, field.offset, LeBytes(value, field.len));
    FieldInside(field.offset, field.len);
    ParsedAfter(img[base..], out[base..], nid, field.offset, field.len, value);
  }
}
