/**
 The Admin applet's Configure operation: read the configuration, then write only the selected
 fields that differ, one command per field.
 */
module Admin {
  import opened Base
  import opened Compat

  datatype Patch = Patch(
    ledOn: Option<bool>,
    ndefReadOnly: Option<bool>,
    ndefEnabled: Option<bool>,
    webusbLanding: Option<bool>,
    featureMask: bv8,
    featureValues: bv8)

  /** A data-free mutation command: instruction and its two parameters. */
  datatype Write = Write(ins: nat, p1: bv8, p2: bv8)

  datatype Command = SelectAdmin | VerifyPin(pin: Bytes) | ReadConfig | WriteField(write: Write)

  datatype AdminAccess = Existing | NoPin | Pin(pin: Bytes)

  datatype Answer = Answer(data: seq<bv8>, sw: nat)

  // ----- Configuration bytes

  function LayoutLength(layout: Layout): nat {
    match layout
    case TouchPolicies => 7
    case BasicLayout => 5
    case KeyboardReturn => 6
    case Reserved => 6
    case Features => 6
  }

  function BooleanBytes(layout: Layout): set<nat> {
    match layout
    case TouchPolicies => {0, 1, 2}
    case BasicLayout => {0, 1, 2, 3, 4}
    case KeyboardReturn => {0, 1, 2, 3, 4, 5}
    case Reserved => {0, 2, 3, 4}
    case Features => {0, 2, 3, 4}
  }

  /** The configuration parsers of all layouts: exact length, and flags that are zero or one. */
  predicate Readable(layout: Layout, raw: seq<bv8>) {
    |raw| == LayoutLength(layout) && forall i :: i in BooleanBytes(layout) ==> raw[i] <= 1
  }

  /** Byte `i` of the layout is a flag that the configuration's getters report. */
  predicate Reported(layout: Layout, i: nat) {
    || i == 0 // LED
    || (i == 1 && layout !in {Reserved, Features}) // keyboard interface
    || i == 2 // NDEF read-only
    || (i in {3, 4} && layout != TouchPolicies) // NDEF enabled, WebUSB landing page
    || (i == 5 && layout == KeyboardReturn) // append return
  }

  /** The parsers accept a configuration exactly when it has its layout's length and every flag they report is 0 or 1. */
  lemma ReadableIff(layout: Layout, raw: seq<bv8>)
    ensures Readable(layout, raw)
       <==> && |raw| == (if layout == TouchPolicies then 7 else if layout == BasicLayout then 5 else 6)
            && forall i :: 0 <= i < |raw| && Reported(layout, i) ==> raw[i] <= 1
  {
    var n := if layout == TouchPolicies then 7 else if layout == BasicLayout then 5 else 6;
    assert forall i :: i in BooleanBytes(layout) <==> 0 <= i < n && Reported(layout, i);
  }

  function Bit(b: bool): bv8 { if b then 1 else 0 }

  // ----- The writes a patch needs

  /** A selectable flag: wanted value, observed value if the layout has it, command and byte. */
  datatype Field = Field(value: Option<bool>, observed: Option<bool>, ins: nat, p1: bv8)

  function PatchFields(layout: Layout, raw: seq<bv8>, p: Patch): (fields: seq<Field>)
    requires Readable(layout, raw)
    ensures |fields| == 4
  {
    var modern := layout != TouchPolicies;
    [Field(p.ledOn, Some(raw[0] != 0), 0x40, 1),
     Field(p.ndefReadOnly, Some(raw[2] != 0), 0x08, 0),
     Field(p.ndefEnabled, if modern then Some(raw[3] != 0) else None, 0x40, 4),
     Field(p.webusbLanding, if modern then Some(raw[4] != 0) else None, 0x40, 5)]
  }

  function FieldWrite(f: Field): Write
    requires f.value.Some?
  {
    if f.ins == 0x08 then Write(f.ins, Bit(f.value.value), 0) else Write(f.ins, f.p1, Bit(f.value.value))
  }

  function FieldWrites(fields: seq<Field>): Result<seq<Write>> {
    if fields == [] then Ok([])
    else
      var f := fields[0];
      if f.value.Some? && f.observed.None? then Err(Fail(UnsupportedFeature))
      else
        var rest := FieldWrites(fields[1..]);
        if rest.Err? || f.value.None? || f.value == f.observed then rest
        else Ok([FieldWrite(f)] + rest.value)
  }

  function NewFeatures(features: bv8, p: Patch): bv8 { (features & !p.featureMask) | p.featureValues }

  /** The command queue that a readable configuration and a patch give rise to. */
  function PatchWrites(layout: Layout, raw: seq<bv8>, p: Patch): Result<seq<Write>> {
    if !Readable(layout, raw) then Err(Malformed())
    else
      var writes := FieldWrites(PatchFields(layout, raw, p));
      if writes.Err? || layout != Features then writes
      else
        var features := NewFeatures(raw[5], p);
        if features == raw[5] then writes
        else if features & !0x3f != 0 then Err(Fail(UnsupportedProtocolVersion))
        else Ok(writes.value + [Write(0x40, 6, features)])
  }

  // ----- What a write does to the card

  /** The configuration byte that a write replaces. */
  function Target(w: Write): nat {
    if w.ins == 0x08 then 2 else if w.p1 == 1 then 0 else if w.p1 == 4 then 3 else if w.p1 == 5 then 4 else 5
  }

  function Written(w: Write): bv8 { if w.ins == 0x08 then w.p1 else w.p2 }

  function Apply(raw: seq<bv8>, w: Write): (r: seq<bv8>)
    ensures |r| == |raw|
  {
    if Target(w) < |raw| then raw[Target(w) := Written(w)] else raw
  }

  function ApplyAll(raw: seq<bv8>, writes: seq<Write>): (r: seq<bv8>)
    ensures |r| == |raw|
    decreases writes
  {
    if writes == [] then raw else ApplyAll(Apply(raw, writes[0]), writes[1..])
  }

  function Choose(wanted: Option<bool>, byte: bv8): bv8 {
    match wanted case None => byte case Some(b) => Bit(b)
  }

  /** The masked feature bits have the wanted values, and the others their old ones. */
  predicate FeaturesPatched(before: bv8, p: Patch, after: bv8) {
    after & p.featureMask == p.featureValues && after & !p.featureMask == before & !p.featureMask
  }

  /** `out` is `raw` with the selected flags and feature bits replaced, and nothing else. */
  ghost predicate Patched(layout: Layout, raw: seq<bv8>, p: Patch, out: seq<bv8>)
    requires Readable(layout, raw)
  {
    && |out| == |raw|
    && out[0] == Choose(p.ledOn, raw[0])
    && out[1] == raw[1]
    && out[2] == Choose(p.ndefReadOnly, raw[2])
    && out[3] == (if layout == TouchPolicies then raw[3] else Choose(p.ndefEnabled, raw[3]))
    && out[4] == (if layout == TouchPolicies then raw[4] else Choose(p.webusbLanding, raw[4]))
    && (layout == Features ==> FeaturesPatched(raw[5], p, out[5]))
    && (layout != Features ==> out[5..] == raw[5..])
  }

  // ----- Admission

  /** The checks made before any command for a Configure request. */
  function AdmitConfigure(profile: Profile, p: Patch, access: AdminAccess): Result<()> {
    var admin := Require(CapabilityOf(profile, Compat.Admin));
    if admin.Err? then admin
    else
      var ndef := if p.ndefEnabled.Some? || p.webusbLanding.Some?
                  then Require(CapabilityOf(profile, AdminNdefWebUsb)) else Ok(());
      if ndef.Err? then ndef
      else
        var features := if p.featureMask != 0
                        then Require(CapabilityOf(profile, AdminExtendedConfiguration)) else Ok(());
        if features.Err? then features
        else if access.NoPin? then Err(Fail(SecurityStatusNotSatisfied))
        else if p.featureMask & !0x3f != 0 || p.featureValues & !p.featureMask != 0 then
          Err(Fail(InvalidArgument))
        else Ok(())
  }

  /** What admission guarantees about a patch on a layout. */
  predicate Admitted(layout: Layout, p: Patch) {
    && p.featureMask & !0x3f == 0 && p.featureValues & !p.featureMask == 0
    && (layout == TouchPolicies ==> p.ndefEnabled.None? && p.webusbLanding.None?)
    && (layout != Features ==> p.featureMask == 0)
  }

  /**
   The gates match the layouts exactly: a patch is admitted if and only if the firmware's layout
   is known, the access authenticates, every selected flag is in the layout, and feature bits are
   well formed and go to a layout that has them.
   */
  lemma GatesMatchLayouts(profile: Profile, p: Patch, access: AdminAccess)
    ensures AdmitConfigure(profile, p, access).Ok?
       <==> AdminLayout(profile).Ok? && !access.NoPin? && Admitted(AdminLayout(profile).value, p)
  {
    hide Known;
    if profile.firmware.Some? && Known(CompatibilityBase(profile.firmware.value)) {
      KnownBase(CompatibilityBase(profile.firmware.value));
    }
  }

  /** Why a patch is not admitted: unknown firmware, a missing feature, no authentication, or malformed bits. */
  lemma ConfigureRefusal(profile: Profile, p: Patch, access: AdminAccess)
    requires AdmitConfigure(profile, p, access).Err?
    ensures AdmitConfigure(profile, p, access).error.kind
         == if AdminLayout(profile).Err? then CapabilityUnknown
            else if (AdminLayout(profile).value == TouchPolicies && (p.ndefEnabled.Some? || p.webusbLanding.Some?))
                    || (AdminLayout(profile).value != Features && p.featureMask != 0) then UnsupportedFeature
            else if access.NoPin? then SecurityStatusNotSatisfied
            else InvalidArgument
  {
    hide Known;
    if profile.firmware.Some? && Known(CompatibilityBase(profile.firmware.value)) {
      KnownBase(CompatibilityBase(profile.firmware.value));
    }
  }

  lemma KnownBase(v: Version)
    requires Known(v)
    ensures AtMost(Version(1, 5, 2), v) <==> v != Version(1, 3, 0)
    ensures AtMost(Version(3, 1, 0), v) <==> v == Version(3, 1, 0)
  {
  }

  /** For an admitted patch the absent-field error is unreachable. */
  lemma AdmittedPatchHasFields(layout: Layout, raw: seq<bv8>, p: Patch)
    requires Readable(layout, raw) && Admitted(layout, p)
    ensures FieldWrites(PatchFields(layout, raw, p)).Ok?
  {
    hide FieldWrites;
    FieldWritesDefined(PatchFields(layout, raw, p));
  }

  /** The absent-field error is raised exactly when a selected field is absent. */
  lemma {:induction false} FieldWritesDefined(fields: seq<Field>)
    ensures FieldWrites(fields).Ok? <==> forall f :: f in fields && f.value.Some? ==> f.observed.Some?
  {
    if fields != [] {
      FieldWritesDefined(fields[1..]);
      assert fields == [fields[0]] + fields[1..];
    }
  }

  // ----- The writes do what the patch asks, byte by byte

  function FieldTarget(f: Field): nat {
    if f.ins == 0x08 then 2 else if f.p1 == 1 then 0 else if f.p1 == 4 then 3 else 4
  }

  predicate Changes(f: Field) { f.value.Some? && f.value != f.observed }

  ghost predicate AscendingTargets(writes: seq<Write>) {
    forall i, j :: 0 <= i < j < |writes| ==> Target(writes[i]) < Target(writes[j])
  }

  ghost predicate FlagFields(fields: seq<Field>) {
    && (forall i :: 0 <= i < |fields| ==>
          fields[i].ins == 0x08 || (fields[i].ins == 0x40 && fields[i].p1 in {1, 4, 5}))
    && (forall i, j :: 0 <= i < j < |fields| ==> FieldTarget(fields[i]) < FieldTarget(fields[j]))
  }

  /** One write for each changing field, in field order. */
  lemma FieldWritesExact(fields: seq<Field>)
    requires FlagFields(fields) && FieldWrites(fields).Ok?
    ensures var ws := FieldWrites(fields).value;
            && AscendingTargets(ws)
            && (forall w :: w in ws ==> exists f :: f in fields && Changes(f) && w == FieldWrite(f))
            && (forall f :: f in fields && Changes(f) ==> FieldWrite(f) in ws)
  {
    FieldWritesMembers(fields);
    FieldWritesAscend(fields);
  }

  lemma {:induction false} FieldWritesMembers(fields: seq<Field>)
    requires FieldWrites(fields).Ok?
    ensures forall w :: w in FieldWrites(fields).value ==> exists f :: f in fields && Changes(f) && w == FieldWrite(f)
    ensures forall f :: f in fields && Changes(f) ==> FieldWrite(f) in FieldWrites(fields).value
  {
    hide FieldWrite;
    if fields != [] {
      FieldWritesMembers(fields[1..]);
      assert fields == [fields[0]] + fields[1..];
      if Changes(fields[0]) {
        assert FieldWrites(fields).value == [FieldWrite(fields[0])] + FieldWrites(fields[1..]).value;
      }
    }
  }

  lemma {:induction false} FieldWritesAscend(fields: seq<Field>)
    requires FlagFields(fields) && FieldWrites(fields).Ok?
    ensures AscendingTargets(FieldWrites(fields).value)
  {
    hide FieldWrite, Target, FieldTarget;
    if fields != [] {
      var f, rest := fields[0], fields[1..];
      FieldWritesAscend(rest);
      FieldWritesMembers(rest);
      var later := FieldWrites(rest).value;
      if Changes(f) {
        assert FieldWrites(fields).value == [FieldWrite(f)] + later;
        forall i | 0 <= i < |later| ensures Target(FieldWrite(f)) < Target(later[i]) {
          assert later[i] in later;
          var g :| g in rest && Changes(g) && later[i] == FieldWrite(g);
          var k :| 0 <= k < |rest| && rest[k] == g;
          assert fields[k + 1] == g;
          WriteTarget(f);
          WriteTarget(g);
        }
      }
    }
  }

  lemma WriteTarget(f: Field)
    requires f.value.Some? && (f.ins == 0x08 || (f.ins == 0x40 && f.p1 in {1, 4, 5}))
    ensures Target(FieldWrite(f)) == FieldTarget(f) && Written(FieldWrite(f)) == Bit(f.value.value)
  {
  }

  /** Writes to different bytes do not disturb each other. */
  lemma {:induction false} ApplyAllAt(raw: seq<bv8>, writes: seq<Write>, i: nat)
    requires AscendingTargets(writes) && i < |raw|
    ensures (forall w :: w in writes && Target(w) == i ==> ApplyAll(raw, writes)[i] == Written(w))
    ensures (forall w :: w in writes ==> Target(w) != i) ==> ApplyAll(raw, writes)[i] == raw[i]
    decreases writes
  {
    if writes != [] {
      var w, rest := writes[0], writes[1..];
      assert writes == [w] + rest;
      ApplyAllAt(Apply(raw, w), rest, i);
      assert forall x :: x in rest ==> Target(w) < Target(x);
    }
  }

  lemma {:induction false} ApplyAllSnoc(raw: seq<bv8>, writes: seq<Write>, w: Write)
    ensures ApplyAll(raw, writes + [w]) == Apply(ApplyAll(raw, writes), w)
    decreases writes
  {
    if writes == [] {
      assert writes + [w] == [w];
    } else {
      assert (writes + [w])[1..] == writes[1..] + [w];
      ApplyAllSnoc(Apply(raw, writes[0]), writes[1..], w);
    }
  }

  lemma PatchFieldsAreFlags(layout: Layout, raw: seq<bv8>, p: Patch)
    requires Readable(layout, raw)
    ensures FlagFields(PatchFields(layout, raw, p))
  {
  }

  /** The queue touches each byte at most once, and only to change it. */
  lemma WritesAreNeeded(layout: Layout, raw: seq<bv8>, p: Patch)
    requires Readable(layout, raw) && Admitted(layout, p) && PatchWrites(layout, raw, p).Ok?
    ensures var ws := PatchWrites(layout, raw, p).value;
            && AscendingTargets(ws)
            && (forall w :: w in ws ==> Target(w) < |raw| && Written(w) != raw[Target(w)])
  {
    hide FieldWrites, NewFeatures, FlagFields;
    var fields := PatchFields(layout, raw, p);
    var flags := FieldWrites(fields).value;
    PatchFieldsAreFlags(layout, raw, p);
    FieldWritesExact(fields);
    forall w | w in flags ensures Target(w) < 5 && Written(w) != raw[Target(w)] {
      var f :| f in fields && Changes(f) && w == FieldWrite(f);
      FlagByte(layout, raw, p, f);
    }
  }

  lemma FlagByte(layout: Layout, raw: seq<bv8>, p: Patch, f: Field)
    requires Readable(layout, raw) && Admitted(layout, p) && f in PatchFields(layout, raw, p) && f.value.Some?
    ensures Target(FieldWrite(f)) == FieldTarget(f) < 5
    ensures Written(FieldWrite(f)) == Bit(f.value.value)
    ensures Changes(f) <==> raw[FieldTarget(f)] != Bit(f.value.value)
  {
  }

  /** A full queue turns the old configuration into the patched one. */
  lemma WritesRealisePatch(layout: Layout, raw: seq<bv8>, p: Patch)
    requires Readable(layout, raw) && Admitted(layout, p) && PatchWrites(layout, raw, p).Ok?
    ensures Patched(layout, raw, p, ApplyAll(raw, PatchWrites(layout, raw, p).value))
  {
    hide Admitted, PatchWrites, ApplyAll, Choose, BooleanBytes, FeaturesPatched;
    FlagBytesApplied(layout, raw, p);
    OtherBytesKept(layout, raw, p, 1);
    if layout == Features {
      FeaturesApplied(raw, p);
    } else {
      TailKept(layout, raw, p);
    }
  }

  lemma TailKept(layout: Layout, raw: seq<bv8>, p: Patch)
    requires Readable(layout, raw) && Admitted(layout, p) && PatchWrites(layout, raw, p).Ok? && layout != Features
    ensures ApplyAll(raw, PatchWrites(layout, raw, p).value)[5..] == raw[5..]
  {
    hide Admitted, PatchWrites, ApplyAll, BooleanBytes;
    var out := ApplyAll(raw, PatchWrites(layout, raw, p).value);
    forall i | 5 <= i < |raw| ensures out[i] == raw[i] {
      OtherBytesKept(layout, raw, p, i);
    }
  }

  lemma FlagBytesApplied(layout: Layout, raw: seq<bv8>, p: Patch)
    requires Readable(layout, raw) && Admitted(layout, p) && PatchWrites(layout, raw, p).Ok?
    ensures var out := ApplyAll(raw, PatchWrites(layout, raw, p).value);
            && out[0] == Choose(p.ledOn, raw[0]) && out[2] == Choose(p.ndefReadOnly, raw[2])
            && out[3] == (if layout == TouchPolicies then raw[3] else Choose(p.ndefEnabled, raw[3]))
            && out[4] == (if layout == TouchPolicies then raw[4] else Choose(p.webusbLanding, raw[4]))
  {
    assert layout == TouchPolicies ==> p.ndefEnabled.None? && p.webusbLanding.None?;
    hide Admitted, PatchWrites, ApplyAll, FieldWrite, Target, Written;
    var fields := PatchFields(layout, raw, p);
    FlagApplied(layout, raw, p, fields[0]);
    FlagApplied(layout, raw, p, fields[1]);
    FlagApplied(layout, raw, p, fields[2]);
    FlagApplied(layout, raw, p, fields[3]);
  }

  lemma FlagApplied(layout: Layout, raw: seq<bv8>, p: Patch, f: Field)
    requires Readable(layout, raw) && Admitted(layout, p) && PatchWrites(layout, raw, p).Ok?
    requires f in PatchFields(layout, raw, p)
    ensures FieldTarget(f) < 5
    ensures ApplyAll(raw, PatchWrites(layout, raw, p).value)[FieldTarget(f)] == Choose(f.value, raw[FieldTarget(f)])
  {
    hide FieldWrites, NewFeatures, ApplyAll, FlagFields;
    var ws := PatchWrites(layout, raw, p).value;
    var fields := PatchFields(layout, raw, p);
    var i := FieldTarget(f);
    PatchFieldsAreFlags(layout, raw, p);
    FieldWritesExact(fields);
    WritesAreNeeded(layout, raw, p);
    ApplyAllAt(raw, ws, i);
    if f.value.Some? && Changes(f) {
      FlagByte(layout, raw, p, f);
      assert FieldWrite(f) in ws;
    } else {
      forall w | w in ws ensures Target(w) != i {
        if w in FieldWrites(fields).value {
          var g :| g in fields && Changes(g) && w == FieldWrite(g);
          FlagByte(layout, raw, p, g);
          SameTarget(layout, raw, p, f, g);
        }
      }
      if f.value.Some? {
        FlagByte(layout, raw, p, f);
      }
    }
  }

  lemma SameTarget(layout: Layout, raw: seq<bv8>, p: Patch, f: Field, g: Field)
    requires Readable(layout, raw)
    requires f in PatchFields(layout, raw, p) && g in PatchFields(layout, raw, p)
    ensures FieldTarget(f) == FieldTarget(g) ==> f == g
  {
  }

  lemma OtherBytesKept(layout: Layout, raw: seq<bv8>, p: Patch, i: nat)
    requires Readable(layout, raw) && Admitted(layout, p) && PatchWrites(layout, raw, p).Ok?
    requires i < |raw| && (i == 1 || i >= 5) && !(layout == Features && i == 5)
    ensures ApplyAll(raw, PatchWrites(layout, raw, p).value)[i] == raw[i]
  {
    hide FieldWrites, NewFeatures, ApplyAll, FlagFields;
    var ws := PatchWrites(layout, raw, p).value;
    var fields := PatchFields(layout, raw, p);
    PatchFieldsAreFlags(layout, raw, p);
    FieldWritesExact(fields);
    WritesAreNeeded(layout, raw, p);
    ApplyAllAt(raw, ws, i);
    forall w | w in ws ensures Target(w) != i {
      if w in FieldWrites(fields).value {
        var g :| g in fields && Changes(g) && w == FieldWrite(g);
        FlagByte(layout, raw, p, g);
      }
    }
  }

  lemma FeaturesApplied(raw: seq<bv8>, p: Patch)
    requires Readable(Features, raw) && Admitted(Features, p) && PatchWrites(Features, raw, p).Ok?
    ensures var out := ApplyAll(raw, PatchWrites(Features, raw, p).value);
            FeaturesPatched(raw[5], p, out[5])
  {
    hide ApplyAll, PatchWrites, NewFeatures, Admitted, BooleanBytes;
    assert p.featureValues & !p.featureMask == 0 by { AdmittedMask(Features, p); }
    FeatureByte(raw, p);
    NewFeaturesMasked(raw[5], p);
  }

  lemma FeatureByte(raw: seq<bv8>, p: Patch)
    requires Readable(Features, raw) && Admitted(Features, p) && PatchWrites(Features, raw, p).Ok?
    ensures ApplyAll(raw, PatchWrites(Features, raw, p).value)[5] == NewFeatures(raw[5], p)
  {
    hide FieldWrites, ApplyAll, FlagFields, NewFeatures;
    var ws := PatchWrites(Features, raw, p).value;
    var fields := PatchFields(Features, raw, p);
    WritesAreNeeded(Features, raw, p);
    ApplyAllAt(raw, ws, 5);
    if NewFeatures(raw[5], p) != raw[5] {
      var w := Write(0x40, 6, NewFeatures(raw[5], p));
      assert w == ws[|ws| - 1] && w in ws;
    } else {
      PatchFieldsAreFlags(Features, raw, p);
      FieldWritesExact(fields);
      forall w | w in ws ensures Target(w) != 5 {
        var g :| g in fields && Changes(g) && w == FieldWrite(g);
        FlagByte(Features, raw, p, g);
      }
    }
  }

  lemma AdmittedMask(layout: Layout, p: Patch)
    requires Admitted(layout, p)
    ensures p.featureValues & !p.featureMask == 0
  {
  }

  lemma NewFeaturesMasked(features: bv8, p: Patch)
    requires p.featureValues & !p.featureMask == 0
    ensures NewFeatures(features, p) & p.featureMask == p.featureValues
    ensures NewFeatures(features, p) & !p.featureMask == features & !p.featureMask
  {
  }

  /**
   The first `k` writes replace exactly the first `k` differing bytes: each of those already has
   its final value, and every other byte is still the old one.
   */
  lemma PrefixIsMixture(layout: Layout, raw: seq<bv8>, p: Patch, k: nat, i: nat)
    requires Readable(layout, raw) && Admitted(layout, p) && PatchWrites(layout, raw, p).Ok?
    requires k <= |PatchWrites(layout, raw, p).value| && i < |raw|
    ensures var ws := PatchWrites(layout, raw, p).value;
            var mid, out := ApplyAll(raw, ws[..k]), ApplyAll(raw, ws);
            && (if exists j :: 0 <= j < k && Target(ws[j]) == i then mid[i] == out[i] != raw[i] else mid[i] == raw[i])
            && (out[i] != raw[i] <==> exists j :: 0 <= j < |ws| && Target(ws[j]) == i)
  {
    hide PatchWrites, ApplyAll, Target, Written, Readable, Admitted;
    var ws := PatchWrites(layout, raw, p).value;
    WritesAreNeeded(layout, raw, p);
    ApplyAllAt(raw, ws, i);
    ApplyAllAt(raw, ws[..k], i);
    if j :| 0 <= j < |ws| && Target(ws[j]) == i {
      assert ws[j] in ws;
      assert j < k ==> ws[..k][j] in ws[..k];
      forall w | w in ws[..k] && Target(w) == i ensures j < k {
        var m :| 0 <= m < k && ws[m] == w;
      }
    } else {
      forall w | w in ws ensures Target(w) != i {
        var m :| 0 <= m < |ws| && ws[m] == w;
      }
      assert forall w :: w in ws[..k] ==> w in ws;
    }
  }
}
