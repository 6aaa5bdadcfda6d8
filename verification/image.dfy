/**
 The image assembler. The output file starts empty; each object's patched
 data is written at file offset = the object's base (a seek followed by a
 write, so writing past the end first fills the gap with zero bytes), and
 finally the file's length is set to the end address, cutting it short or
 padding it with zero bytes. File offset N is absolute address N.
 */
module Image {
  import opened Bytes
  import opened Results

  /**
   Seeking to `offset` and writing `data`. An empty write does not touch the
   file; otherwise the file grows to cover the written range, any gap being
   read as zero bytes.
   */
  function WriteAt(file: seq<u8>, offset: nat, data: seq<u8>): (f: seq<u8>)
    ensures |f| == if |data| == 0 then |file| else Max(|file|, offset + |data|)
    ensures forall k :: 0 <= k < |f| ==>
      f[k] == if offset <= k < offset + |data| then data[k - offset] else if k < |file| then file[k] else 0
  {
    if |data| == 0 then file
    else if offset <= |file| then
      file[..offset] + data + (if offset + |data| < |file| then file[offset + |data|..] else [])
    else
      file + Zeros(offset - |file|) + data
  }

  /** Setting the file's length: a shorter length truncates, a longer one zero-extends. */
  function SetLen(file: seq<u8>, n: nat): (f: seq<u8>)
    ensures |f| == n
    ensures forall k :: 0 <= k < n ==> f[k] == if k < |file| then file[k] else 0
  {
    if n <= |file| then file[..n] else file + Zeros(n - |file|)
  }

  /** One object's bytes and the offset they are written at. */
  datatype Chunk = Chunk(base: nat, data: seq<u8>)

  predicate Covers(c: Chunk, k: nat) {
    c.base <= k < c.base + |c.data|
  }

  /** The writes of all chunks, in order, into an initially empty file. */
  function WriteAll(chunks: seq<Chunk>): seq<u8>
    decreases |chunks|
  {
    if |chunks| == 0 then []
    else
      var last := chunks[|chunks| - 1];
      WriteAt(WriteAll(chunks[..|chunks| - 1]), last.base, last.data)
  }

  /** The finished image: every chunk written, then the length fixed to `endAddress`. */
  function Assemble(chunks: seq<Chunk>, endAddress: nat): (image: seq<u8>)
    ensures |image| == endAddress
  {
    SetLen(WriteAll(chunks), endAddress)
  }

  /**
   Reference reading of image byte `k`: the byte of the last chunk that
   covers `k`, or zero when no chunk does.
   */
  function CoveringByte(chunks: seq<Chunk>, k: nat): u8
    decreases |chunks|
  {
    if |chunks| == 0 then 0
    else
      var last := chunks[|chunks| - 1];
      if Covers(last, k) then last.data[k - last.base]
      else CoveringByte(chunks[..|chunks| - 1], k)
  }

  /** After the writes, every offset reads as its covering byte; past the end, nothing is covered. */
  lemma {:induction false} WriteAllBytes(chunks: seq<Chunk>)
    ensures var f := WriteAll(chunks);
      forall k: nat :: CoveringByte(chunks, k) == if k < |f| then f[k] else 0
    ensures forall j, k: nat :: 0 <= j < |chunks| && Covers(chunks[j], k) ==> k < |WriteAll(chunks)|
    decreases |chunks|
  {
    if |chunks| > 0 {
      var n := |chunks| - 1;
      WriteAllBytes(chunks[..n]);
      assert forall j :: 0 <= j < n ==> chunks[..n][j] == chunks[j];
    }
  }

  /** The assembled image agrees byte for byte with the reference reading. */
  lemma AssembleBytes(chunks: seq<Chunk>, endAddress: nat)
    ensures forall k :: 0 <= k < endAddress ==> Assemble(chunks, endAddress)[k] == CoveringByte(chunks, k)
  {
    WriteAllBytes(chunks);
  }

  /** A byte no chunk covers is zero in the image. */
  lemma {:induction false} UncoveredIsZero(chunks: seq<Chunk>, endAddress: nat, k: nat)
    requires k < endAddress
    requires forall j :: 0 <= j < |chunks| ==> !Covers(chunks[j], k)
    ensures Assemble(chunks, endAddress)[k] == 0
  {
    AssembleBytes(chunks, endAddress);
    UncoveredCoveringByte(chunks, k);
  }

  lemma {:induction false} UncoveredCoveringByte(chunks: seq<Chunk>, k: nat)
    requires forall j :: 0 <= j < |chunks| ==> !Covers(chunks[j], k)
    ensures CoveringByte(chunks, k) == 0
    decreases |chunks|
  {
    if |chunks| > 0 {
      var n := |chunks| - 1;
      assert forall j :: 0 <= j < n ==> chunks[..n][j] == chunks[j];
      UncoveredCoveringByte(chunks[..n], k);
    }
  }

  /** Chunks whose byte ranges are pairwise disjoint. */
  predicate PairwiseDisjoint(chunks: seq<Chunk>) {
    forall i, j :: 0 <= i < j < |chunks| ==>
      chunks[i].base + |chunks[i].data| <= chunks[j].base || chunks[j].base + |chunks[j].data| <= chunks[i].base
  }

  lemma {:induction false} OnlyCoverByte(chunks: seq<Chunk>, i: nat, k: nat)
    requires i < |chunks| && Covers(chunks[i], k)
    requires forall j :: i < j < |chunks| ==> !Covers(chunks[j], k)
    ensures CoveringByte(chunks, k) == chunks[i].data[k - chunks[i].base]
    decreases |chunks|
  {
    var n := |chunks| - 1;
    if i < n {
      assert forall j :: 0 <= j < n ==> chunks[..n][j] == chunks[j];
      OnlyCoverByte(chunks[..n], i, k);
    }
  }

  /**
   When no two writes overlap, every chunk that ends within the image
   appears intact at its base.
   */
  lemma DisjointChunksIntact(chunks: seq<Chunk>, endAddress: nat, i: nat)
    requires PairwiseDisjoint(chunks)
    requires i < |chunks| && chunks[i].base + |chunks[i].data| <= endAddress
    ensures var c := chunks[i];
      Assemble(chunks, endAddress)[c.base..c.base + |c.data|] == c.data
  {
    var c := chunks[i];
    var image := Assemble(chunks, endAddress);
    forall k | 0 <= k < |c.data|
      ensures image[c.base + k] == c.data[k]
    {
      AssembleBytes(chunks, endAddress);
      OnlyCoverByte(chunks, i, c.base + k);
    }
    assert image[c.base..c.base + |c.data|] == c.data;
  }

  /** A program address given as a 1-based object index and an offset inside it. */
  datatype ObjectOffset = ObjectOffset(objectIndex: u16, offset: u32)

  /**
   The absolute address of an (object, offset) pair: the object's base plus
   the offset. An index that names no object makes the converter panic when
   it indexes the bases, and resolves to `None` here.
   */
  function ResolveAddress(bases: seq<nat>, p: ObjectOffset): (a: Option<nat>)
    ensures a.Some? <==> 1 <= p.objectIndex <= |bases|
    ensures a.Some? ==> a.value - p.offset == bases[p.objectIndex - 1]
  {
    if 1 <= p.objectIndex <= |bases| then Some(bases[p.objectIndex - 1] + p.offset) else None
  }
}
