/**
 The whole conversion: check the MZ stub, hand the container that follows
 it to the (external) PMW1 decoder, allocate addresses for the decoded
 objects, patch each object's relocations against the allocation, assemble
 the flat image, and resolve the entry point and the initial stack pointer.
 */
module Flatten {
  import opened Bytes
  import opened Results
  import opened Allocator
  import opened Relocation
  import opened Image
  import opened MzHeader

  /** A decompressed object: its virtual size, its raw bytes and its relocation records. */
  datatype Object = Object(virtualSize: u32, data: seq<u8>, relocs: seq<Reloc>)

  /** What the PMW1 decoder yields: the objects in order, and the two start addresses. */
  datatype Exe = Exe(objects: seq<Object>, entry: ObjectOffset, stack: ObjectOffset)

  /** The converter's output: the image, the skipped-record warnings and the two resolved addresses. */
  datatype Flat = Flat(image: seq<u8>, warnings: seq<Warning>, entryPoint: Option<nat>, stackPointer: Option<nat>)

  datatype ConvertError = BadStub(mz: MzError) | BadContainer

  function VirtualSizes(objects: seq<Object>): (sizes: seq<nat>)
    ensures |sizes| == |objects|
    ensures forall i :: 0 <= i < |objects| ==> sizes[i] == objects[i].virtualSize
  {
    seq(|objects|, i requires 0 <= i < |objects| => objects[i].virtualSize)
  }

  /** The allocation of an executable's objects. */
  function AllocationOf(exe: Exe): Allocation {
    Allocate(VirtualSizes(exe.objects))
  }

  /** Object `i` after its relocations are applied. */
  function PatchedData(objects: seq<Object>, bases: seq<nat>, i: nat): seq<u8>
    requires i < |objects|
  {
    PatchObject(objects[i].data, bases, objects[i].relocs).data
  }

  /** Each patched object paired with the base it is written at. */
  function Chunks(objects: seq<Object>, bases: seq<nat>): (cs: seq<Chunk>)
    requires |bases| == |objects|
    ensures |cs| == |objects|
    ensures forall i :: 0 <= i < |objects| ==> cs[i].base == bases[i] && |cs[i].data| == |objects[i].data|
  {
    seq(|objects|, i requires 0 <= i < |objects| => Chunk(bases[i], PatchedData(objects, bases, i)))
  }

  /** The warnings of every object, in object order. */
  function AllWarnings(objects: seq<Object>, bases: seq<nat>): seq<Warning>
    decreases |objects|
  {
    if |objects| == 0 then []
    else
      var n := |objects| - 1;
      AllWarnings(objects[..n], bases) + PatchObject(objects[n].data, bases, objects[n].relocs).warnings
  }

  /** Converts a decoded executable into its flat image. */
  function FlattenExe(exe: Exe): (f: Flat)
    ensures |f.image| == AllocationOf(exe).state.endAddress
  {
    var alloc := AllocationOf(exe);
    var chunks := Chunks(exe.objects, alloc.bases);
    Flat(Assemble(chunks, alloc.state.endAddress),
         AllWarnings(exe.objects, alloc.bases),
         ResolveAddress(alloc.bases, exe.entry),
         ResolveAddress(alloc.bases, exe.stack))
  }

  /**
   The whole conversion. `decode` stands for the PMW1 decoder and
   decompressor, which is given the bytes after the MZ stub. Each stub
   failure and the decoder's failure are reported in exactly their own cases,
   and a converted image is as long as the end address of its objects'
   allocation.
   */
  function Convert(binary: seq<u8>, decode: seq<u8> -> Option<Exe>): (r: Result<Flat, ConvertError>)
    ensures r.Success? <==> StubPasses(binary) && decode(binary[StubSize(binary)..]).Some?
    ensures r == Failure(BadStub(NotMz)) <==> |binary| < 2 || binary[..2] != Signature
    ensures r == Failure(BadStub(TruncatedHeader)) <==> 2 <= |binary| < HeaderEnd && binary[..2] == Signature
    ensures r == Failure(BadStub(PureMz)) <==>
      |binary| >= HeaderEnd && binary[..2] == Signature && |binary| <= StubSize(binary)
    ensures r == Failure(BadContainer) <==> StubPasses(binary) && decode(binary[StubSize(binary)..]).None?
    ensures r.Success? ==>
      var exe := decode(binary[StubSize(binary)..]).value;
      && r.value == FlattenExe(exe)
      && |r.value.image| == Allocate(VirtualSizes(exe.objects)).state.endAddress
  {
    match PayloadOffset(binary)
    case Failure(e) => Failure(BadStub(e))
    case Success(offset) =>
      match decode(binary[offset..])
      case None => Failure(BadContainer)
      case Some(exe) => Success(FlattenExe(exe))
  }

  /** The container promises each object's data is no longer than its virtual size. */
  predicate DataWithinSize(exe: Exe) {
    forall i :: 0 <= i < |exe.objects| ==> |exe.objects[i].data| <= exe.objects[i].virtualSize
  }

  /** Offset `k` lies in no object's data. */
  predicate OutsideAllObjects(objects: seq<Object>, bases: seq<nat>, k: nat)
    requires |bases| == |objects|
  {
    forall i :: 0 <= i < |objects| ==> !(bases[i] <= k < bases[i] + |objects[i].data|)
  }

  /** With data no longer than the virtual sizes, no two object writes overlap. */
  lemma ChunksDisjoint(exe: Exe)
    requires DataWithinSize(exe)
    ensures PairwiseDisjoint(Chunks(exe.objects, AllocationOf(exe).bases))
  {
    var sizes := VirtualSizes(exe.objects);
    var bases := AllocationOf(exe).bases;
    var cs := Chunks(exe.objects, bases);
    forall i, j | 0 <= i < j < |cs|
      ensures cs[i].base + |cs[i].data| <= cs[j].base || cs[j].base + |cs[j].data| <= cs[i].base
    {
      if IsLowBase(bases[i]) == IsLowBase(bases[j]) {
        SameRegionDisjoint(sizes, i, j);
      } else if IsLowBase(bases[i]) {
        RegionsDisjoint(sizes, i, j);
      } else {
        RegionsDisjoint(sizes, j, i);
      }
    }
  }

  /**
   The layout of the flat image: its length is the end address, each
   object's patched data appears intact starting at its base, and every byte
   outside all objects' data is zero.
   */
  lemma FlatImageLayout(exe: Exe)
    requires DataWithinSize(exe)
    ensures var alloc, f := AllocationOf(exe), FlattenExe(exe);
      && |f.image| == alloc.state.endAddress
      && (forall i :: 0 <= i < |exe.objects| ==> alloc.bases[i] + |exe.objects[i].data| <= |f.image|)
      && (forall i :: 0 <= i < |exe.objects| ==>
            f.image[alloc.bases[i]..alloc.bases[i] + |exe.objects[i].data|] == PatchedData(exe.objects, alloc.bases, i))
      && (forall k :: 0 <= k < |f.image| && OutsideAllObjects(exe.objects, alloc.bases, k) ==> f.image[k] == 0)
  {
    var alloc := AllocationOf(exe);
    ObjectsInsideImage(exe);
    forall i | 0 <= i < |exe.objects|
      ensures FlattenExe(exe).image[alloc.bases[i]..alloc.bases[i] + |exe.objects[i].data|]
        == PatchedData(exe.objects, alloc.bases, i)
    {
      ObjectIntact(exe, i);
    }
    forall k | 0 <= k < alloc.state.endAddress && OutsideAllObjects(exe.objects, alloc.bases, k)
      ensures FlattenExe(exe).image[k] == 0
    {
      UncoveredIsZero(Chunks(exe.objects, alloc.bases), alloc.state.endAddress, k);
    }
  }

  /** Every object's data ends at or below the end address. */
  lemma ObjectsInsideImage(exe: Exe)
    requires DataWithinSize(exe)
    ensures forall i :: 0 <= i < |exe.objects| ==>
      AllocationOf(exe).bases[i] + |exe.objects[i].data| <= AllocationOf(exe).state.endAddress
  {
    EndAddressIsMax(VirtualSizes(exe.objects));
  }

  /** Object `i`'s patched data appears intact at its base. */
  lemma ObjectIntact(exe: Exe, i: nat)
    requires DataWithinSize(exe) && i < |exe.objects|
    ensures var alloc := AllocationOf(exe);
      alloc.bases[i] + |exe.objects[i].data| <= |FlattenExe(exe).image|
      && FlattenExe(exe).image[alloc.bases[i]..alloc.bases[i] + |exe.objects[i].data|]
         == PatchedData(exe.objects, alloc.bases, i)
  {
    var alloc := AllocationOf(exe);
    ObjectsInsideImage(exe);
    ChunksDisjoint(exe);
    DisjointChunksIntact(Chunks(exe.objects, alloc.bases), alloc.state.endAddress, i);
  }

  /** Every relocation record of the object is applied. */
  predicate AllRecordsApply(o: Object) {
    forall j :: 0 <= j < |o.relocs| ==> Applies(o.relocs[j], |o.data|)
  }

  /** The conversion warns about nothing exactly when every record of every object is applied. */
  lemma {:induction false} NoWarningsIffAllApply(objects: seq<Object>, bases: seq<nat>)
    ensures AllWarnings(objects, bases) == [] <==> forall i :: 0 <= i < |objects| ==> AllRecordsApply(objects[i])
    decreases |objects|
  {
    if |objects| > 0 {
      var n := |objects| - 1;
      var o := objects[n];
      var earlier := AllWarnings(objects[..n], bases);
      var own := PatchObject(o.data, bases, o.relocs).warnings;
      assert AllWarnings(objects, bases) == earlier + own;
      assert earlier + own == [] <==> earlier == [] && own == [] by {
        assert |earlier + own| == |earlier| + |own|;
      }
      NoWarningsIffAllApply(objects[..n], bases);
      Relocation.NoWarningsIffAllApply(o.relocs, |o.data|);
      assert own == [] <==> AllRecordsApply(o);
      assert forall i :: 0 <= i < n ==> objects[..n][i] == objects[i];
    }
  }

  /**
   A start address is its object's base plus its offset, and is reported
   exactly when its object index names an object; an offset inside the
   object's virtual size lands below the end of the image.
   */
  lemma StartAddress(exe: Exe, p: ObjectOffset)
    ensures var alloc := AllocationOf(exe);
      var a := ResolveAddress(alloc.bases, p);
      && (a.Some? <==> 1 <= p.objectIndex <= |exe.objects|)
      && (a.Some? ==> a.value == alloc.bases[p.objectIndex - 1] + p.offset)
      && (a.Some? && p.offset < exe.objects[p.objectIndex - 1].virtualSize ==> a.value < alloc.state.endAddress)
  {
    var sizes := VirtualSizes(exe.objects);
    EndAddressIsMax(sizes);
    if 1 <= p.objectIndex <= |exe.objects| {
      assert sizes[p.objectIndex - 1] == exe.objects[p.objectIndex - 1].virtualSize;
    }
  }

  /**
   The entry point and the stack pointer the conversion reports: each is
   present exactly when its object index names an object, is then that
   object's base plus the offset, and lies inside the image when the offset
   lies inside the object's virtual size.
   */
  lemma StartAddresses(exe: Exe)
    ensures var f, bases := FlattenExe(exe), AllocationOf(exe).bases;
      && (f.entryPoint.Some? <==> 1 <= exe.entry.objectIndex <= |exe.objects|)
      && (f.entryPoint.Some? ==> f.entryPoint.value == bases[exe.entry.objectIndex - 1] + exe.entry.offset)
      && ((f.entryPoint.Some? && exe.entry.offset < exe.objects[exe.entry.objectIndex - 1].virtualSize) ==>
            f.entryPoint.value < |f.image|)
    ensures var f, bases := FlattenExe(exe), AllocationOf(exe).bases;
      && (f.stackPointer.Some? <==> 1 <= exe.stack.objectIndex <= |exe.objects|)
      && (f.stackPointer.Some? ==> f.stackPointer.value == bases[exe.stack.objectIndex - 1] + exe.stack.offset)
      && ((f.stackPointer.Some? && exe.stack.offset < exe.objects[exe.stack.objectIndex - 1].virtualSize) ==>
            f.stackPointer.value < |f.image|)
  {
    StartAddress(exe, exe.entry);
    StartAddress(exe, exe.stack);
  }

  /**
   Two objects of sizes 0x100 and 0x2000000, the first carrying a base
   relocation at offset 0 that points 0x10 bytes into the second.
   */
  function ForcedHighExe(): Exe {
    Exe([Object(0x100, [0, 0, 0, 0], [Reloc(7, 0, 2, 0x10)]), Object(0x200_0000, [], [])],
        ObjectOffset(1, 0), ObjectOffset(2, 0x200_0000))
  }

  /** The second object cannot fit below video memory and is forced high. */
  lemma ForcedHighAllocation()
    ensures AllocationOf(ForcedHighExe()).bases == [0xE000, 0x11_0000]
    ensures AllocationOf(ForcedHighExe()).state.endAddress == 0x211_0000
  {
    var sizes := VirtualSizes(ForcedHighExe().objects);
    assert sizes == [0x100, 0x200_0000];
    assert sizes[..1] == [0x100];
    assert [0x100][..0] == [];
    assert Allocate([0x100]) == Allocation(AllocState(0xF000, 0x11_0000, 0xE100), [0xE000]);
  }

  /** The relocation resolves against the second object's high base. */
  lemma ForcedHighPatch()
    ensures PatchObject([0, 0, 0, 0], [0xE000, 0x11_0000], [Reloc(7, 0, 2, 0x10)])
      == Patched([0x10, 0x00, 0x11, 0x00], [])
  {
    var r := Reloc(7, 0, 2, 0x10);
    assert [r][..0] == [];
    assert FieldValue([0xE000, 0x11_0000], r) == 0x11_0010;
    var a := ApplyReloc([0, 0, 0, 0], [0xE000, 0x11_0000], r);
    assert a.data == a.data[0..4];
  }

  /**
   In the flat image the patched field reads 0x110010, nothing is skipped,
   and the start addresses resolve against both regions.
   */
  lemma ScenarioForcedHigh()
    ensures FlattenExe(ForcedHighExe()).image[0xE000..0xE004] == [0x10, 0x00, 0x11, 0x00]
    ensures FlattenExe(ForcedHighExe()).warnings == []
    ensures FlattenExe(ForcedHighExe()).entryPoint == Some(0xE000)
    ensures FlattenExe(ForcedHighExe()).stackPointer == Some(0x211_0000)
  {
    var exe := ForcedHighExe();
    ForcedHighAllocation();
    var bases := AllocationOf(exe).bases;
    assert FlattenExe(exe).image[0xE000..0xE004] == [0x10, 0x00, 0x11, 0x00] by {
      ForcedHighPatch();
      assert PatchedData(exe.objects, bases, 0) == [0x10, 0x00, 0x11, 0x00];
      FlatImageLayout(exe);
    }
    assert AllWarnings(exe.objects, bases) == [] by {
      ForcedHighPatch();
      assert exe.objects[..1][..0] == [];
      assert exe.objects[..1] == [exe.objects[0]];
    }
  }

  /**
   A base relocation naming object 99 of two resolves against base 0: the
   field holds the bare target offset, and no warning is raised.
   */
  lemma ScenarioMissingTarget()
    ensures var objects := [Object(0x100, [0, 0, 0, 0], [Reloc(7, 0, 99, 0x1234)]), Object(0x100, [], [])];
      var bases := Allocate(VirtualSizes(objects)).bases;
      && PatchedData(objects, bases, 0) == LeBytes32(0x1234)
      && AllWarnings(objects, bases) == []
  {
    var objects := [Object(0x100, [0, 0, 0, 0], [Reloc(7, 0, 99, 0x1234)]), Object(0x100, [], [])];
    var bases := Allocate(VirtualSizes(objects)).bases;
    assert |bases| == 2;
    assert objects[..1] == [objects[0]];
    assert objects[..1][..0] == [];
  }
}
