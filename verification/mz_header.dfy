/**
 The DOS MZ stub in front of the PMW1 container. The converter reads the
 thirteen little-endian 16-bit words at offsets 2 through 0x1B, takes the
 page count (e_cp, word 1) and the bytes used in the last 512-byte page
 (e_cblp, word 0), and computes the stub's size in 16-bit arithmetic. The
 container starts right after the stub, so the file must be strictly longer.
 */
module MzHeader {
  import opened Bytes
  import opened Results

  const Signature: seq<u8> := [0x4D, 0x5A]  // "MZ"
  const HeaderEnd: nat := 0x1C
  const BlockSize: nat := 512

  datatype MzError =
    | NotMz             // the file does not start with "MZ" (or is too short to hold it)
    | TruncatedHeader   // the file ends before the header does
    | PureMz            // no bytes follow the MZ executable

  /** Little-endian 16-bit words of an even-length byte string, in order. */
  function DecodeWords(bs: seq<u8>): (ws: seq<u16>)
    requires |bs| % 2 == 0
    ensures |ws| == |bs| / 2
    ensures forall i :: 0 <= i < |ws| ==> ws[i] == bs[2 * i] + TwoTo8 * bs[2 * i + 1]
    decreases |bs|
  {
    if |bs| == 0 then [] else [LeWord16(bs[0], bs[1])] + DecodeWords(bs[2..])
  }

  /** Little-endian bytes of a word string. */
  function EncodeWords(ws: seq<u16>): (bs: seq<u8>)
    ensures |bs| == 2 * |ws|
    decreases |ws|
  {
    if |ws| == 0 then [] else LeBytes16(ws[0]) + EncodeWords(ws[1..])
  }

  /** Decoding loses nothing: re-encoding the words gives back the bytes. */
  lemma {:induction false} EncodeDecodeWords(bs: seq<u8>)
    requires |bs| % 2 == 0
    ensures EncodeWords(DecodeWords(bs)) == bs
    decreases |bs|
  {
    if |bs| > 0 {
      EncodeDecodeWords(bs[2..]);
      var ws := DecodeWords(bs);
      assert ws[1..] == DecodeWords(bs[2..]);
      assert bs == [bs[0], bs[1]] + bs[2..];
    }
  }

  /** `x << 9` on a u16: the bits shifted past bit 15 are lost. */
  function ShlU16By9(x: u16): u16 {
    (x * BlockSize) % TwoTo16
  }

  /**
   The stub size the DOS header fields describe: e_cp pages of 512 bytes, all
   full except that the last holds only e_cblp bytes when e_cblp is not zero.
   */
  function DosSize(eCblp: nat, eCp: nat): int {
    if eCblp == 0 then eCp * BlockSize else (eCp - 1) * BlockSize + eCblp
  }

  /**
   The stub size, with the converter's 16-bit arithmetic: the described size
   modulo 2^16, and so exactly the described size whenever that fits in 16
   bits.
   */
  function MzSize(eCblp: u16, eCp: u16): (size: u16)
    ensures (size - DosSize(eCblp, eCp)) % TwoTo16 == 0
    ensures 0 <= DosSize(eCblp, eCp) < TwoTo16 ==> size == DosSize(eCblp, eCp)
  {
    var total := ShlU16By9(eCp);
    if eCblp == 0 then total
    else
      var size := (total - BlockSize + eCblp) % TwoTo16;
      Mod16Shift(eCp * BlockSize, eCblp - BlockSize);
      SameResidue16(size, DosSize(eCblp, eCp));
      size
  }

  /** Two values in [0, 2^16) with the same residue are equal. */
  lemma SameResidue16(a: int, b: int)
    requires (a - b) % TwoTo16 == 0
    ensures 0 <= a < TwoTo16 && 0 <= b < TwoTo16 ==> a == b
  {
    var q := (a - b) / TwoTo16;
    assert a - b == q * TwoTo16;
  }

  /** Reducing modulo 2^16 before adding `d` does not change the sum's residue. */
  lemma Mod16Shift(x: int, d: int)
    ensures ((x % TwoTo16 + d) % TwoTo16 - (x + d)) % TwoTo16 == 0
  {
    var y := x % TwoTo16 + d;
    assert x == (x / TwoTo16) * TwoTo16 + x % TwoTo16;
    assert y == (y / TwoTo16) * TwoTo16 + y % TwoTo16;
    assert y % TwoTo16 - (x + d) == -(y / TwoTo16 + x / TwoTo16) * TwoTo16;
  }

  /**
   The 16-bit arithmetic in action: a stub of 128 full pages (64 KiB) is
   sized 0, and a header with no pages but a partial last page wraps below
   zero.
   */
  lemma MzSizeWraps()
    ensures MzSize(0, 0x80) == 0
    ensures MzSize(1, 0) == 0xFE01
  {
  }

  /** The thirteen header words after the signature. */
  function HeaderWords(binary: seq<u8>): (ws: seq<u16>)
    requires |binary| >= HeaderEnd
    ensures |ws| == 13
    ensures forall i :: 0 <= i < 13 ==> ws[i] == binary[2 + 2 * i] + TwoTo8 * binary[3 + 2 * i]
  {
    DecodeWords(binary[2..HeaderEnd])
  }

  /** The stub size read from the header words at offsets 2 (e_cblp) and 4 (e_cp). */
  function StubSize(binary: seq<u8>): u16
    requires |binary| >= HeaderEnd
  {
    MzSize(binary[2] + TwoTo8 * binary[3], binary[4] + TwoTo8 * binary[5])
  }

  /** The file starts with "MZ", holds the whole header, and has bytes after the stub. */
  predicate StubPasses(binary: seq<u8>) {
    |binary| >= HeaderEnd && binary[..2] == Signature && |binary| > StubSize(binary)
  }

  /**
   Checks the MZ stub and returns where the container begins. Indexing the
   first two bytes of a shorter file panics in the converter; here it is the
   `NotMz` error.
   */
  function PayloadOffset(binary: seq<u8>): (r: Result<nat, MzError>)
    ensures r.Success? <==> StubPasses(binary)
    ensures r.Success? ==> r.value == StubSize(binary) && r.value < |binary|
    ensures r == Failure(NotMz) <==> |binary| < 2 || binary[..2] != Signature
    ensures r == Failure(TruncatedHeader) <==> 2 <= |binary| < HeaderEnd && binary[..2] == Signature
    ensures r == Failure(PureMz) <==> |binary| >= HeaderEnd && binary[..2] == Signature && |binary| <= StubSize(binary)
  {
    if |binary| < 2 || binary[..2] != Signature then Failure(NotMz)
    else if |binary| < HeaderEnd then Failure(TruncatedHeader)
    else
      var words := HeaderWords(binary);
      var size := MzSize(words[0], words[1]);
      if |binary| > size then Success(size) else Failure(PureMz)
  }
}
