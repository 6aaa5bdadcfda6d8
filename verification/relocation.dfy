/**
 The relocation patcher. Every relocation record of an object names a
 four-byte field in the object's data and a (target object, target offset)
 pair; a base relocation (type 7) overwrites the field with the target
 offset plus the target object's base, as a wrapping 32-bit signed sum,
 least significant byte first. Records of another type, and records whose
 field runs past the end of the data, are skipped with a warning. A target
 object index outside the allocation resolves to base 0 without a warning.
 Records are applied in order, so a later record wins where two overlap.
 */
module Relocation {
  import opened Bytes
  import opened Results

  const BaseRelocType: u8 := 7
  const FieldSize: nat := 4

  /** A relocation record as the container provides it. */
  datatype Reloc = Reloc(rtype: u8, source: u32, targetObject: u16, target: u32)

  /** Why a record was skipped. */
  datatype Warning = UnknownType(rtype: u8) | PastEnd(source: u32)

  /**
   The base of the 1-based target object. Index 0 wraps to the largest
   `usize` when one is subtracted, which is out of range like any index past
   the last object; out-of-range indices resolve to 0.
   */
  function TargetBase(bases: seq<nat>, targetObject: u16): nat {
    if 1 <= targetObject <= |bases| then bases[targetObject - 1] else 0
  }

  /** `reloc.target as i32 + base as i32`, wrapping on overflow. */
  function PatchValue(bases: seq<nat>, r: Reloc): i32 {
    WrappingAddI32(WrapI32(r.target), WrapI32(TargetBase(bases, r.targetObject)))
  }

  /** A record that actually patches data of length `len`. */
  predicate Applies(r: Reloc, len: nat) {
    r.rtype == BaseRelocType && r.source + FieldSize <= len
  }

  /** The unsigned value a patched field decodes to. */
  function FieldValue(bases: seq<nat>, r: Reloc): u32 {
    (r.target + TargetBase(bases, r.targetObject)) % TwoTo32
  }

  /** The warning a skipped record raises, if any. */
  function SkipWarning(r: Reloc, len: nat): (w: Option<Warning>)
    ensures w.None? <==> Applies(r, len)
  {
    if r.rtype != BaseRelocType then Some(UnknownType(r.rtype))
    else if r.source + FieldSize <= len then None
    else Some(PastEnd(r.source))
  }

  datatype Applied = Applied(data: seq<u8>, warning: Option<Warning>)

  /** Applies one record to the data, or skips it with a warning. */
  function ApplyReloc(data: seq<u8>, bases: seq<nat>, r: Reloc): (a: Applied)
    ensures |a.data| == |data|
    ensures a.warning == SkipWarning(r, |data|)
  {
    if r.rtype != BaseRelocType then
      Applied(data, Some(UnknownType(r.rtype)))
    else if r.source + FieldSize <= |data| then
      Applied(CopyIntoSlice(data, r.source, I32LeBytes(PatchValue(bases, r))), None)
    else
      Applied(data, Some(PastEnd(r.source)))
  }

  /** Copies `field` over the bytes of `data` that start at offset `at`. */
  function CopyIntoSlice(data: seq<u8>, at: nat, field: seq<u8>): (d: seq<u8>)
    requires at + |field| <= |data|
    ensures |d| == |data|
    ensures forall k :: 0 <= k < |data| ==> d[k] == if at <= k < at + |field| then field[k - at] else data[k]
  {
    data[..at] + field + data[at + |field|..]
  }

  /**
   What one record does. A skipped record leaves the data exactly as it was;
   an applied one replaces exactly the four bytes at `source` with the
   little-endian encoding of `(target + base) mod 2^32`, which decodes back to
   that value, and no other byte, nor the length, changes.
   */
  lemma ApplyRelocSpec(data: seq<u8>, bases: seq<nat>, r: Reloc)
    ensures var a := ApplyReloc(data, bases, r);
      && |a.data| == |data|
      && (r.rtype != BaseRelocType ==> a.data == data && a.warning == Some(UnknownType(r.rtype)))
      && (r.rtype == BaseRelocType && r.source + FieldSize > |data| ==>
            a.data == data && a.warning == Some(PastEnd(r.source)))
      && (Applies(r, |data|) ==>
            && a.warning == None
            && a.data[r.source..r.source + FieldSize] == LeBytes32(FieldValue(bases, r))
            && LeWord32(a.data[r.source..r.source + FieldSize]) == FieldValue(bases, r)
            && forall k :: 0 <= k < |data| && !(r.source <= k < r.source + FieldSize) ==> a.data[k] == data[k])
  {
    if Applies(r, |data|) {
      var a := ApplyReloc(data, bases, r);
      SignedSumBytes(r.target, TargetBase(bases, r.targetObject));
      LeWord32OfLeBytes32(FieldValue(bases, r));
      FieldOfCopy(a.data, r.source, LeBytes32(FieldValue(bases, r)));
    }
  }

  /** Reading back four bytes that were written pointwise. */
  lemma FieldOfCopy(d: seq<u8>, at: nat, field: seq<u8>)
    requires |field| == FieldSize && at + FieldSize <= |d|
    requires forall k :: at <= k < at + FieldSize ==> d[k] == field[k - at]
    ensures d[at..at + FieldSize] == field
  {
    assert d[at..at + FieldSize] == [d[at], d[at + 1], d[at + 2], d[at + 3]];
  }

  /** Byte `k` after one record. */
  lemma ApplyRelocByte(data: seq<u8>, bases: seq<nat>, r: Reloc, k: nat)
    requires k < |data|
    ensures ApplyReloc(data, bases, r).data[k] ==
      if Applies(r, |data|) && r.source <= k < r.source + FieldSize
      then LeBytes32(FieldValue(bases, r))[k - r.source] else data[k]
  {
    if Applies(r, |data|) {
      var field := I32LeBytes(PatchValue(bases, r));
      assert field == LeBytes32(FieldValue(bases, r)) by {
        SignedSumBytes(r.target, TargetBase(bases, r.targetObject));
      }
      assert ApplyReloc(data, bases, r).data == CopyIntoSlice(data, r.source, field);
    }
  }

  /** The number of records that apply to data of length `len`. */
  function CountApplies(relocs: seq<Reloc>, len: nat): nat
    decreases |relocs|
  {
    if |relocs| == 0 then 0
    else CountApplies(relocs[..|relocs| - 1], len) + (if Applies(relocs[|relocs| - 1], len) then 1 else 0)
  }

  /**
   The warnings a list of records raises on data of length `len`, in record
   order: exactly one for every record that does not apply.
   */
  function SkipWarnings(relocs: seq<Reloc>, len: nat): (ws: seq<Warning>)
    ensures |ws| == |relocs| - CountApplies(relocs, len)
    decreases |relocs|
  {
    if |relocs| == 0 then []
    else
      var w := SkipWarning(relocs[|relocs| - 1], len);
      SkipWarnings(relocs[..|relocs| - 1], len) + (if w.Some? then [w.value] else [])
  }

  datatype Patched = Patched(data: seq<u8>, warnings: seq<Warning>)

  /**
   Applies every record in order to a working copy of the data. The length
   never changes, and the warnings depend only on the record types, their
   field offsets and the data length.
   */
  function PatchObject(data: seq<u8>, bases: seq<nat>, relocs: seq<Reloc>): (p: Patched)
    ensures |p.data| == |data|
    ensures p.warnings == SkipWarnings(relocs, |data|)
    decreases |relocs|
  {
    if |relocs| == 0 then Patched(data, [])
    else
      var prev := PatchObject(data, bases, relocs[..|relocs| - 1]);
      var a := ApplyReloc(prev.data, bases, relocs[|relocs| - 1]);
      Patched(a.data, prev.warnings + (if a.warning.Some? then [a.warning.value] else []))
  }

  /**
   Reference reading of a patched byte: byte `k` belongs to the last applied
   record whose field covers it, and otherwise keeps its original value.
   */
  function PatchedByte(data: seq<u8>, bases: seq<nat>, relocs: seq<Reloc>, k: nat): u8
    requires k < |data|
    decreases |relocs|
  {
    if |relocs| == 0 then data[k]
    else
      var r := relocs[|relocs| - 1];
      if Applies(r, |data|) && r.source <= k < r.source + FieldSize then
        LeBytes32(FieldValue(bases, r))[k - r.source]
      else
        PatchedByte(data, bases, relocs[..|relocs| - 1], k)
  }

  /** Patching agrees with the reference reading at byte `k`. */
  lemma {:induction false} PatchObjectByte(data: seq<u8>, bases: seq<nat>, relocs: seq<Reloc>, k: nat)
    requires k < |data|
    ensures PatchObject(data, bases, relocs).data[k] == PatchedByte(data, bases, relocs, k)
    decreases |relocs|
  {
    if |relocs| > 0 {
      var n := |relocs| - 1;
      var r := relocs[n];
      PatchObjectByte(data, bases, relocs[..n], k);
      ApplyRelocByte(PatchObject(data, bases, relocs[..n]).data, bases, r, k);
    }
  }

  /** Patching agrees byte for byte with the reference reading. */
  lemma PatchObjectBytes(data: seq<u8>, bases: seq<nat>, relocs: seq<Reloc>)
    ensures forall k :: 0 <= k < |data| ==>
      PatchObject(data, bases, relocs).data[k] == PatchedByte(data, bases, relocs, k)
  {
    forall k | 0 <= k < |data|
      ensures PatchObject(data, bases, relocs).data[k] == PatchedByte(data, bases, relocs, k)
    {
      PatchObjectByte(data, bases, relocs, k);
    }
  }

  /** A byte that no applied record's field covers keeps its original value. */
  lemma {:induction false} UncoveredByteUnchanged(data: seq<u8>, bases: seq<nat>, relocs: seq<Reloc>, k: nat)
    requires k < |data|
    requires forall j :: 0 <= j < |relocs| && Applies(relocs[j], |data|) ==>
      !(relocs[j].source <= k < relocs[j].source + FieldSize)
    ensures PatchObject(data, bases, relocs).data[k] == data[k]
    decreases |relocs|
  {
    PatchObjectByte(data, bases, relocs, k);
    UncoveredPatchedByte(data, bases, relocs, k);
  }

  lemma {:induction false} UncoveredPatchedByte(data: seq<u8>, bases: seq<nat>, relocs: seq<Reloc>, k: nat)
    requires k < |data|
    requires forall j :: 0 <= j < |relocs| && Applies(relocs[j], |data|) ==>
      !(relocs[j].source <= k < relocs[j].source + FieldSize)
    ensures PatchedByte(data, bases, relocs, k) == data[k]
    decreases |relocs|
  {
    if |relocs| > 0 {
      var n := |relocs| - 1;
      assert forall j :: 0 <= j < n ==> relocs[..n][j] == relocs[j];
      UncoveredPatchedByte(data, bases, relocs[..n], k);
    }
  }

  /** An applied record not overwritten by a later one leaves its encoded value in place. */
  lemma {:induction false} LastWriterWins(data: seq<u8>, bases: seq<nat>, relocs: seq<Reloc>, i: nat)
    requires i < |relocs| && Applies(relocs[i], |data|)
    requires forall j :: i < j < |relocs| && Applies(relocs[j], |data|) ==>
      relocs[j].source + FieldSize <= relocs[i].source || relocs[i].source + FieldSize <= relocs[j].source
    ensures var s := relocs[i].source;
      PatchObject(data, bases, relocs).data[s..s + FieldSize] == LeBytes32(FieldValue(bases, relocs[i]))
    decreases |relocs|
  {
    var n := |relocs| - 1;
    var prefix := relocs[..n];
    var prev := PatchObject(data, bases, prefix).data;
    var field := LeBytes32(FieldValue(bases, relocs[i]));
    PatchObjectLast(data, bases, relocs);
    if i < n {
      assert forall j :: 0 <= j < n ==> prefix[j] == relocs[j];
      LastWriterWins(data, bases, prefix, i);
      FieldSurvives(prev, bases, relocs[n], relocs[i].source, field);
    } else {
      FieldWritten(prev, bases, relocs[n]);
    }
  }

  /** The patched data of a non-empty list is the last record applied to the patched prefix. */
  lemma PatchObjectLast(data: seq<u8>, bases: seq<nat>, relocs: seq<Reloc>)
    requires |relocs| > 0
    ensures PatchObject(data, bases, relocs).data
      == ApplyReloc(PatchObject(data, bases, relocs[..|relocs| - 1]).data, bases, relocs[|relocs| - 1]).data
  {
  }

  /** An applied record's field holds its encoded value. */
  lemma FieldWritten(data: seq<u8>, bases: seq<nat>, r: Reloc)
    requires Applies(r, |data|)
    ensures ApplyReloc(data, bases, r).data[r.source..r.source + FieldSize] == LeBytes32(FieldValue(bases, r))
  {
    ApplyRelocSpec(data, bases, r);
  }

  /** A record that skips, or writes a field disjoint from `[s, s + 4)`, keeps the bytes there. */
  lemma FieldSurvives(data: seq<u8>, bases: seq<nat>, r: Reloc, s: nat, field: seq<u8>)
    requires s + FieldSize <= |data| && data[s..s + FieldSize] == field
    requires Applies(r, |data|) ==> r.source + FieldSize <= s || s + FieldSize <= r.source
    ensures ApplyReloc(data, bases, r).data[s..s + FieldSize] == field
  {
    var after := ApplyReloc(data, bases, r).data;
    forall k | s <= k < s + FieldSize
      ensures after[k] == field[k - s]
    {
      ApplyRelocByte(data, bases, r, k);
      assert data[k] == data[s..s + FieldSize][k - s];
    }
    FieldOfCopy(after, s, field);
  }

  /** A record list that raises no warning is exactly one in which every record applies. */
  lemma {:induction false} NoWarningsIffAllApply(relocs: seq<Reloc>, len: nat)
    ensures SkipWarnings(relocs, len) == [] <==> forall j :: 0 <= j < |relocs| ==> Applies(relocs[j], len)
    decreases |relocs|
  {
    if |relocs| > 0 {
      var n := |relocs| - 1;
      NoWarningsIffAllApply(relocs[..n], len);
      assert forall j :: 0 <= j < n ==> relocs[..n][j] == relocs[j];
    }
  }

  /**
   A record list of which no record applies leaves the data unchanged and
   raises one warning per record.
   */
  lemma {:induction false} NothingAppliesUnchanged(data: seq<u8>, bases: seq<nat>, relocs: seq<Reloc>)
    requires forall j :: 0 <= j < |relocs| ==> !Applies(relocs[j], |data|)
    ensures PatchObject(data, bases, relocs).data == data
    ensures |PatchObject(data, bases, relocs).warnings| == |relocs|
    decreases |relocs|
  {
    if |relocs| > 0 {
      var n := |relocs| - 1;
      assert forall j :: 0 <= j < n ==> relocs[..n][j] == relocs[j];
      NothingAppliesUnchanged(data, bases, relocs[..n]);
    }
  }
}
