# flatten-pmw1, modelled in Dafny

flatten-pmw1 turns a DOS executable built with the PMODE/W extender into a
flat memory image. The file starts with a DOS MZ stub, and a compressed PMW1
container follows it. The converter:

1. checks the MZ stub and works out where the container starts;
2. decodes and decompresses the container into a list of objects (segments);
3. gives each object a base address in low memory (from 0xE000 up to video
   memory at 0xA0000) or in high memory (from 0x110000, with no upper bound);
4. patches each object's base relocations (type 7) against those bases;
5. writes each patched object at file offset = its base, so that file offset N
   is absolute address N, and sets the file length to the end address;
6. reports the entry point and the initial stack pointer as absolute addresses.

Everything the converter does except the I/O and the PMW1 decoder is modelled
here as pure functions on immutable values:

- `bytes.dfy` (`Bytes`): fixed-width integers, explicit 32-bit wrap-around, and little-endian encodings.
- `results.dfy` (`Results`): `Option` and `Result`.
- `mz_header.dfy` (`MzHeader`): reading the header words, the 16-bit stub-size computation, and the checks done before conversion.
- `allocator.dfy` (`Allocator`): the allocation fold. It has an explicit state record `AllocState`, a pure step `Step`, and a loop version `AllocateBases` that is proved equal to the fold.
- `relocation.dfy` (`Relocation`): the relocation patcher. Records it skips become returned `Warning` values instead of printed lines.
- `image.dfy` (`Image`): seek-and-write, set-length, image assembly and start-address resolution. The output file is a byte sequence built up by writes.
- `flatten.dfy` (`Flatten`): the whole pipeline and the end-to-end properties.

Behaviours of the converter worth knowing:

- A zero-size object does not move its cursor. So within one region, bases never decrease. They strictly increase after every object of non-zero size (`SameRegionDisjoint`).
- A zero-size object placed when low memory is exactly full gets base 0xA0000, because `0 <= 0` holds. So low bases lie in [0xE000, 0xA0000], with the upper end included. Every low object still ends at or below 0xA0000 (`BasesInRegions`).
- Relocation records are applied in order. Where two fields overlap, the later record wins (`PatchedByte`, `LastWriterWins`). They are not independent of each other.
- A relocation whose target index names no object, including index 0, resolves against base 0 and raises no warning.
- The stub size is computed in 16-bit arithmetic. A stub of 64 KiB or more is therefore mis-sized, for example 128 full pages come out as size 0 (`MzSizeWraps`).

## Model

| member | source | states |
|---|---|---|
| `Bytes.LeWord16` | src/main.rs:41 | decoding two bytes little-endian gives the word whose little-endian encoding is exactly those two bytes |
| `Bytes.WrapI32` | src/main.rs:103 | the `as i32` reading of a value is congruent to it modulo 2^32 and lies in the signed 32-bit range |
| `Bytes.SignedSumBytes` | src/main.rs:106 | the little-endian bytes of the wrapping signed sum of two values read as `i32` are the bytes of their unsigned sum modulo 2^32 |
| `Bytes.LeWord32OfLeBytes32` | src/main.rs:106 | the four little-endian bytes written for a value decode back to that value; the other direction of the round trip, encoding a decoded word, is `Bytes.LeBytes32OfLeWord32` |
| `Allocator.PageRoundUp` | src/main.rs:13-14 | the rounded size is page aligned and at least the size, and it is less than the size plus one page |
| `Allocator.PageRoundUpIsLeast` | src/main.rs:72 | no page-aligned value at least the size is smaller than the rounded size, so the rounded size is the least such value |
| `Allocator.Step` | src/main.rs:82-86 | the new end address is at least the old one and at least the object's unrounded end, and it equals one of the two |
| `Allocator.StepFacts` | src/main.rs:73-81 | from a valid state: the new state is valid; the base is page aligned; it is low exactly when the unrounded size fits below video memory; a low object sits at the low cursor and ends at or below 0xA0000; a high object sits at the high cursor at or above 0x110000; only the chosen cursor advances, by exactly the rounded size |
| `Allocator.AllocateFrom` | src/main.rs:70-87 | the fold returns exactly one base per object; the sizes it folds over are the objects' virtual sizes in object order (`Flatten.VirtualSizes`) |
| `Allocator.AllocatePrefix` | src/main.rs:70-87 | the bases of a prefix of the objects are the prefix of the bases, so an object's base never depends on later objects |
| `Allocator.BaseIsStep` | src/main.rs:70-86 | object i's base, and the state after it, are what one step gives from the state left by objects 0..i-1 |
| `Allocator.AllocateValid` | src/main.rs:67-81 | every reached state has both cursors page aligned, the low cursor in [0xE000, 0xA0000] (so the subtraction at :73 cannot underflow), the high cursor at or above 0x110000, and the end address at or above 0xE000 |
| `Allocator.PlacementRule` | src/main.rs:73-81 | for each object: its base is page aligned; it goes low exactly when its unrounded size fits at its turn; then it sits at the low cursor and ends at or below 0xA0000, otherwise it sits at the high cursor at or above 0x110000; only that cursor moves, by exactly the rounded size |
| `Allocator.BasesInRegions` | src/main.rs:67-81 | every base is page aligned; low bases are at least 0xE000 and their objects end at or below 0xA0000; high bases are at least 0x110000 |
| `Allocator.RangesBelowCursors` | src/main.rs:80-81 | every placed object's rounded range ends at or below the final cursor of its region |
| `Allocator.SameRegionDisjoint` | src/main.rs:73-81 | for two objects in the same region, the earlier one's rounded range ends at or before the later one's base; the bases strictly increase when the earlier object has non-zero size |
| `Allocator.RegionsDisjoint` | src/main.rs:9-11 | a low object's rounded range ends at or before any high object's base |
| `Allocator.EndAddressIsMax` | src/main.rs:83-85 | the end address is at least 0xE000 and at least every base + size, and it equals 0xE000 or one of those ends, so it is their maximum |
| `Allocator.CursorsMonotone` | src/main.rs:81 | neither cursor ever moves backwards |
| `Allocator.AllocationFitsU32` | src/main.rs:71-84 | when no size exceeds 0xFFFFF000 and the final high cursor is below 2^32, every intermediate value of the fold stays below 2^32 |
| `Allocator.Allocate32Agrees` | src/main.rs:67-87 | on those inputs the fold with the converter's 32-bit wrap-around at :72, :73, :81 and :83 (`Allocate32`, `Step32`) gives exactly the same bases and final cursors and end address as the unbounded fold |
| `Allocator.AllocateBases` | src/main.rs:67-87 | the object-by-object loop with two cursors computes the same bases and end address as the fold |
| `Relocation.ApplyReloc` | src/main.rs:96-109 | applying or skipping one record never changes the data length, and the record warns exactly when it is skipped: about its type when that is not 7, about its offset when its field runs past the end |
| `Relocation.CopyIntoSlice` | src/main.rs:106 | copying a field into the data at an offset replaces exactly the bytes [offset, offset + field length) with the field, keeping the length and every other byte |
| `Relocation.ApplyRelocSpec` | src/main.rs:96-109 | a record of another type leaves the data unchanged and warns about its type; a type-7 record past the end leaves the data unchanged and warns about its offset; an applied record raises no warning, puts the little-endian encoding of (target + base of target object, or 0 if the index names no object, `TargetBase`) mod 2^32 into exactly bytes [source, source+4), those bytes decode to that value, and every other byte is unchanged; the base comes from `TargetBase`, and the converter's wrapping `i32` sum `PatchValue` is written as exactly those bytes |
| `Relocation.ApplyRelocByte` | src/main.rs:104-106 | byte k after one record is the matching byte of the encoded value when the record applies and its field covers k, and the original byte otherwise |
| `Relocation.SkipWarnings` | src/main.rs:95-109 | a record list raises exactly one warning for every record that does not apply (type other than 7, or field past the end), and none for an applied one |
| `Relocation.PatchObject` | src/main.rs:94-110 | patching keeps the data length, and its warnings depend only on the record types, field offsets and data length |
| `Relocation.PatchObjectByte` | src/main.rs:95-106 | byte k after patching is the matching byte of the last applied record whose field covers k, or the original byte if there is none |
| `Relocation.PatchObjectBytes` | src/main.rs:95-106 | each patched byte is the matching byte of the last applied record whose field covers it, or the original byte if there is none |
| `Relocation.UncoveredByteUnchanged` | src/main.rs:104-109 | a byte that no applied record's field covers keeps its original value |
| `Relocation.LastWriterWins` | src/main.rs:100-106 | an applied record that no later applied record overlaps leaves the encoding of its value in its four bytes |
| `Relocation.FieldSurvives` | src/main.rs:96-106 | a record that is skipped, or whose field does not overlap four given bytes, leaves those bytes as they were |
| `Relocation.NoWarningsIffAllApply` | src/main.rs:96-109 | an object raises no warning exactly when every one of its records has type 7 and lies inside the data; each record's own warning (`SkipWarning`) is absent exactly in that case |
| `Relocation.NothingAppliesUnchanged` | src/main.rs:96-98 | when no record applies, the data comes out unchanged, with one warning per record |
| `Image.WriteAt` | src/main.rs:93-111 | after seeking and writing, the written range holds the data, earlier bytes are kept, a gap before the range reads as zero, and the file grows only as far as the range; an empty write changes nothing |
| `Image.SetLen` | src/main.rs:113 | the file has exactly the requested length; kept bytes are unchanged and any added bytes are zero |
| `Image.Assemble` | src/main.rs:92-113 | the assembled image has exactly the requested end length |
| `Image.WriteAllBytes` | src/main.rs:92-112 | after all writes (`WriteAll`), each offset holds the byte of the last object covering it; every offset some object covers lies inside the file, so offsets past the end are covered by no object |
| `Image.AssembleBytes` | src/main.rs:92-113 | every byte below the end address is the byte of the last object covering it, or zero if none does |
| `Image.UncoveredIsZero` | src/main.rs:113 | a byte below the end address that no object covers is zero |
| `Image.DisjointChunksIntact` | src/main.rs:92-111 | when no two writes overlap, each object that ends within the image appears intact at its base |
| `MzHeader.DecodeWords` | src/main.rs:38-42 | an even-length byte string yields half as many words, word i being byte 2i plus 256 times byte 2i+1 |
| `MzHeader.EncodeDecodeWords` | src/main.rs:39-42 | re-encoding the decoded words gives back the header bytes, so decoding loses nothing |
| `MzHeader.HeaderWords` | src/main.rs:38-42 | the header holds 13 words, word i read little-endian from bytes 2+2i and 3+2i |
| `MzHeader.MzSize` | src/main.rs:47-55 | the computed size is congruent modulo 2^16 to the size the header fields describe (e_cp full pages, or e_cp − 1 full pages plus e_cblp bytes when e_cblp is not zero), and equals it whenever that size fits in 16 bits; the page count is shifted left by 9 in 16 bits (`ShlU16By9`) |
| `MzHeader.MzSizeWraps` | src/main.rs:47 | 128 full pages give size 0, and a partial page with no pages gives 0xFE01 |
| `MzHeader.PayloadOffset` | src/main.rs:33-58 | conversion proceeds exactly when the file starts with "MZ", has at least 0x1C bytes and is strictly longer than the stub size; it then returns that size; a missing signature, a truncated header and a pure MZ file are each reported exactly in their own cases |
| `Flatten.Chunks` | src/main.rs:92 | each object is paired, in order, with its own base, and its patched data has its original length |
| `Flatten.FlattenExe` | src/main.rs:113 | the image is exactly as long as the allocation's end address |
| `Flatten.Convert` | src/main.rs:33-64 | conversion succeeds exactly when the stub checks on the raw header bytes pass and the bytes after the stub decode; a missing signature, a truncated header, a file no longer than the stub size computed from bytes 2..5, and a container that does not decode are each reported exactly in their own cases; on success the image is as long as the end address of the decoded objects' allocation |
| `Flatten.ChunksDisjoint` | src/main.rs:67-111 | when every object's data fits in its virtual size, no two object writes overlap |
| `Flatten.FlatImageLayout` | src/main.rs:67-113 | when every object's data fits in its virtual size: the image length is the end address; every object lies inside the image and its patched data appears intact at its base; every byte outside all objects is zero |
| `Flatten.NoWarningsIffAllApply` | src/main.rs:95-110 | the warnings collected over all objects (`AllWarnings`) are empty exactly when every record of every object has type 7 and lies inside its object's data |
| `Flatten.StartAddress` | src/main.rs:116-119 | a start address resolves (`Image.ResolveAddress`) exactly when its index names an object, to that object's base plus the offset, and an offset inside the object's virtual size lands below the end address |
| `Flatten.StartAddresses` | src/main.rs:116-119 | the reported entry point and stack pointer are each present exactly when their object index names an object, equal that object's final base plus the offset, and lie inside the image when the offset lies inside the object's virtual size |
| `Flatten.ForcedHighAllocation` | src/main.rs:67-87 | sizes 0x100 and 0x2000000 get bases 0xE000 and 0x110000, and the end address is 0x2110000 |
| `Flatten.ForcedHighPatch` | src/main.rs:100-106 | a type-7 record at offset 0 targeting offset 0x10 of object 2 (base 0x110000) writes bytes 10 00 11 00 and raises no warning |
| `Flatten.ScenarioForcedHigh` | src/main.rs:92-119 | in that executable's image, bytes 0xE000..0xE004 read 10 00 11 00, nothing is skipped, and the start addresses resolve to 0xE000 and 0x2110000 |
| `Flatten.ScenarioMissingTarget` | src/main.rs:100-103 | a type-7 record naming object 99 of two writes the bare target offset and raises no warning |

## Left out

- File I/O is not modelled: reading the command-line arguments, opening and reading the input, and creating, seeking in, writing and setting the length of the output file. The output file is a byte sequence (`WriteAt`, `SetLen`), and the printed messages are not modelled.
- The PMW1 decoder (`Pmw1Exe::from_bytes`, `decompress`, the object and relocation-block iterators, `data()`, `virtual_size`, `entry_point`, `stack_pointer`) is external code. It is the `decode` parameter of `Convert` and the `Exe` value it returns. Its container format, its decompression and its own error paths are not part of this model.
- The `virtual_size() as u32` cast is not modelled. Objects carry their virtual sizes already as 32-bit values.
- Relocation record field widths come from the external decoder. The model assumes a u8 type, u32 source and target offsets, and a u16 target object index.
- Debug-mode overflow panics are not modelled. Arithmetic that the converter checks only in debug builds is modelled with release-build wrapping: the `i32` addition and the `as i32` casts at :103-106, the `target_obj - 1` at :100 (index 0 wraps and resolves to base 0), and the u16 arithmetic at :54.
- Allocator.Step: computes in unbounded integers, and the rest of the model uses this fold. The 32-bit fold `Allocate32` is proved equal to it only where nothing overflows (`Allocate32Agrees`). What the converter's wrapped values mean beyond that (a size near 2^32 rounding to 0, a high cursor passing 2^32) is not characterised.
- Image.ResolveAddress: the u32 addition of base and offset at :118-119 is exact rather than wrapped, so it agrees with the converter whenever that addition does not overflow. An index that names no object makes the converter panic; here it is `None`.
- Flatten.FlattenExe: resolves the entry point and the stack pointer independently. In the converter, a bad entry index panics before the stack pointer is printed.
- Flatten.FlatImageLayout: the intact-placement property assumes each object's data is no longer than its virtual size. The container promises this. Without it, writes can overlap and `Image.AssembleBytes` still describes the image.
- MzHeader.PayloadOffset: a file shorter than two bytes makes the converter panic when it takes the first two bytes. Here it is the `NotMz` error.
