# Capsule image engines: a verified model

qcom-capsule-tool builds UEFI capsules for Qualcomm platforms: it plants a
root certificate in the device trees inside ELF images, wraps firmware in
firmware volumes, and packs those into signed capsules. This project models
the byte-level engines of that tool in Dafny 4.11 and proves what they do to
every image.

Check everything with `dafny verify dfyconfig.toml`.

## What is modelled

**The certificate patcher** (`patch_capsule_cert.py`). An image is a mutable
byte buffer (`ElfBuffer.Image`) with an ELF view parsed from it. `DtbScan` is
the scanner, `SegmentRebuild` the loop that splices grown device trees back
while tracking `delta`, `RebuildScan` what a second scan finds. `Tables`,
`ElfImage`, `ElfBytes`, `ElfSplice`, `Resize` and `ElfBuffer` are the header writes and the
proof that an image patched through its *old* view parses to the moved and
resized one; `StaleSections` and `SectionTable` are the exception.
`UefiDtbs` is the uefi_dtbs path as a state machine, one segment a step;
`DigestWrites` says which bytes the digest updates can reach, `UefiRun` and
`UefiTrees` follow every segment and every device tree over whole runs, `UefiReports`
what is reported, `WritesFit` when a rewrite succeeds,
`DigestSlots`, `UefiHashes`, `OneTree`, `ZeroGrowth` and `HeadSlot` the table of
SHA-384 digests; `UefiTable` and `UefiTableRun` say of the image before a run when
the table is right after it, `SoundImage` is one that is. `XblMetadata`, `XblConfig`, `XblReplace`, `XblEffect`, `LastTree`,
`XblRun`, `XblHashes`, `XblDigestRun` and `XblLeave` do the same for the xbl_config
path, where a metadata field and the digests of two more segments have to follow.
`CertTrees` is a small device tree with a certificate, header and blocks as the
Devicetree Specification (chapter 5) lays them out; `FailingTrees` and
`FailingImages` hold segments and files made with it that come out wrong.
`CertText` is the hexadecimal text that carries the certificate.

**Firmware volumes** (`fv_builder.py`). `Ffs` and `FirmwareVolume` are the
encoder; `FvRead` and `FvLayout` a reader written from sections 3.2.1.1,
3.2.2 and 3.2.3.1 of the UEFI PI Specification, volume 3, the proof that it
undoes the encoder, and the layout; `FvBytes` says what stands at which byte.

**Capsules** (`generate_capsule.py`). `Capsule` is the encoder, `CapsuleRead`
the decoder behind `--dump-info`, `CapsuleTrip` the round trip, `CapsuleBytes` the
bytes of the flag word and of the headers, `CapsuleFits` when encoding succeeds. Structures are
those of sections 8.5.3, 23.1 and 23.3 of the UEFI Specification 2.10.

**CRC and version record** (`FVCreation.py`, `SYSFW_VERSION_program.py`).
`Crc32` shows the bit-serial MSB-first loop to be the ordinary reflected
CRC-32, and that it detects bursts, `CrcValues` gives some of its values;
`VersionRecord` is the record written by
one program and checked by the other.

**Partitions** (`UpdateFvXml.py`). `Partitions` is the fold that decides which
line of a configuration counts, `PartitionPairs` the pairing of primaries and
backups.

`Bytes`, `Bits`, `Layout` and `Tables` hold the shared vocabulary.

## Parameters

SHA-384 and the libfdt-based property setter are functions bundled in
`SegmentRebuild.Tools`; `openssl smime` is a function `Capsule.Signer`. Nothing
is assumed of the signer, and of SHA-384 only in `HeadSlot.HeadSlotIff`, that it
tells two given contents apart. Of the setter only the rescanning results assume
something (`RebuildScan.GoodPatch`): its result is a device tree whose declared
size is its length, grown by a multiple of 4 bytes; and `LastTree` that it does
not shrink one. In the files that come out wrong it patches one device tree, in place
when the certificate keeps its length, and with 1024 more bytes when it does not fit.
`Option` stands for the exceptions of the source: `struct.error`, index and
key errors, `ValueError`.

## Where code and documentation part

The model follows the code. Seven of its results say where that is not what one
would expect from the comments or from the function's purpose: exactly when it is,
and one input on which it is not.

- The header fix-up is documented to fix `sh_offset` (patch_capsule_cert.py:103-107),
  but writes section headers at the old `e_shoff` after the splice has moved the
  table. In front of the splice that is right (`ElfBuffer.Image.MoveSections`);
  behind it, `SectionTable.SectionsFixedIff` says when, and
  `FailingImages.SectionsNotMoved` is a file that fails.
- The uefi_dtbs path refreshes the digest of segment 0 only on growth, yet
  rewrites `p_filesz` and `p_memsz` always (`HeadSlot.HeadSlotIff`,
  `FailingImages.HeadSlotLost`).
- The xbl_config path does not read a segment again between two device trees, so
  the last replacement undoes the earlier ones (`LastTree.FinalIsRebuiltIff`,
  `FailingTrees.FirstTreeLost`).
- Without a PT_NULL segment behind the patched one, digests are searched in the whole
  file, and one that is found in a payload is overwritten there
  (`UefiRun.TouchedSegmentIff`, `FailingImages.StrayOverwritten`).
- A digest that stands in two slots, as that of a segment which is one device tree may,
  is updated in the first only (`UefiHashes.TouchedSlots`, `OneTree.OneTreeIff`,
  `FailingImages.TwinSlotLost`).
- A gap between device trees that starts like one can become one when its neighbour
  grows (`RebuildScan.RescanIff`, `FailingTrees.HiddenHeaderFound`).
- Validation returns the verdict so far when it meets an exception, so it
  accepts records whose CRC it has not looked at (`VersionRecord.AcceptedIff`,
  `VersionRecord.UnreadRecords`).

Two more facts are part of the specifications: on growth `_replace_ph` leaves as many
zero bytes again at the end of the file (`XblReplace.GrownImage`), and
`offset_from_meta_start` is never written (`XblEffect.NewBlobItems`).

## Model

| member | source | states |
|---|---|---|
| `DtbScan.ScanDtbs` | uefi_capsule_generation/src/qcom_capsule_tool/patch_capsule_cert.py:219-231 | the scanning loop terminates and returns the specification `Scan`, cursor jumps to the 4-aligned end of a hit included |
| `DtbScan.Align4IsMask` | uefi_capsule_generation/src/qcom_capsule_tool/patch_capsule_cert.py:228 | `(n + 3) & ~3`, defined by counting in fours, is `(n + 3) / 4 * 4`, and lies less than 4 above `n` |
| `DtbScan.ValidIff` | uefi_capsule_generation/src/qcom_capsule_tool/patch_capsule_cert.py:223-226 | a header is valid if and only if the bytes D0 0D FE ED are followed by a big-endian size of at least 8 that the data holds |
| `DtbScan.ScanExact` | uefi_capsule_generation/src/qcom_capsule_tool/patch_capsule_cert.py:219-231 | a list of ranges is what the scanner returns if and only if it is the greedy sequence of valid headers: each next range starts at the first aligned valid header not before the end of the previous one, and none is left at the end |
| `DtbScan.ScanSound` | uefi_capsule_generation/src/qcom_capsule_tool/patch_capsule_cert.py:224-230 | every reported range is 4-aligned, starts with the magic word, has its declared size, and ends before the next one starts |
| `DtbScan.ScanInOrder` | uefi_capsule_generation/src/qcom_capsule_tool/patch_capsule_cert.py:226-229 | the reported ranges are ordered, disjoint and inside the data |
| `DtbScan.ScanComplete` | uefi_capsule_generation/src/qcom_capsule_tool/patch_capsule_cert.py:223-230 | every aligned valid header of the data lies at, or inside, a reported range: none is missed |
| `SegmentRebuild.DisplacedSplice` | uefi_capsule_generation/src/qcom_capsule_tool/patch_capsule_cert.py:602-603 | cutting and splicing at the displaced offset `dtb_off_orig + delta` reads the original bytes and leaves everything already done and everything still to come as it was |
| `SegmentRebuild.PatchNext` | uefi_capsule_generation/src/qcom_capsule_tool/patch_capsule_cert.py:601-654 | one turn of the `delta` loop: the next original device tree is read, and the new segment is what was done, the gap, the outcome, and the untouched rest |
| `SegmentRebuild.PatchSegment` | uefi_capsule_generation/src/qcom_capsule_tool/patch_capsule_cert.py:594-654 | the in-place `delta` loop leaves the pure rebuild gap0 ++ new(dtb0) ++ gap1 ++ new(dtb1) ++ ..., skipped and failed trees verbatim; its flag, its digest pairs and its reports are those of the original trees |
| `RebuildScan.NewBodyAt` | uefi_capsule_generation/src/qcom_capsule_tool/patch_capsule_cert.py:638-642 | tree `k` of a rebuilt segment stands at its displaced offset and holds the patched form of the original tree `k` |
| `RebuildScan.ReportAt` | uefi_capsule_generation/src/qcom_capsule_tool/patch_capsule_cert.py:608-654 | there is exactly one report per tree, with its segment, its number, the offset where it ends up and what became of it |
| `RebuildScan.RescanIff` | uefi_capsule_generation/src/qcom_capsule_tool/patch_capsule_cert.py:219-231 | with patched trees that are well formed and grow by multiples of 4, scanning the rebuilt segment finds exactly the same trees at the displaced offsets with the new sizes if and only if no gap holds an aligned magic word whose declared size fits at its new place |
| `RebuildScan.Rescan` | uefi_capsule_generation/src/qcom_capsule_tool/patch_capsule_cert.py:219-231 | under that condition the scan finds the same number of trees, at the computed places |
| `RebuildScan.QuietSuffices` | uefi_capsule_generation/src/qcom_capsule_tool/patch_capsule_cert.py:223-230 | gaps without any aligned magic word meet the condition |
| `FailingTrees.HiddenHeaderFound` | uefi_capsule_generation/src/qcom_capsule_tool/patch_capsule_cert.py:223-230 | gaps without a valid header need not: a segment in which a header of 200 bytes that did not fit becomes valid when the tree behind it grows from 112 to 1136 bytes, and hides that tree |
| `RebuildScan.RescanBody` | uefi_capsule_generation/src/qcom_capsule_tool/patch_capsule_cert.py:638-642 | tree `k` found by a rescan is the patched form of the original tree `k` |
| `Tables.EntryPosIsProduct` | uefi_capsule_generation/src/qcom_capsule_tool/patch_capsule_cert.py:83 | the position of table entry `i` is table offset plus `i` times entry size |
| `Tables.EditTableEffect` | uefi_capsule_generation/src/qcom_capsule_tool/patch_capsule_cert.py:111-121 | editing every entry of a header table in place maps the table entry by entry and changes no byte outside it |
| `ElfBytes.Identification` | uefi_capsule_generation/src/qcom_capsule_tool/patch_capsule_cert.py:578-579 | a file that is parsed starts with 7F 45 4C 46, byte 4 says 32 or 64 bits and byte 5 the byte order |
| `ElfBytes.Header32` | uefi_capsule_generation/src/qcom_capsule_tool/patch_capsule_cert.py:123-129 | the header fields of a 32-bit file by byte position, in either byte order |
| `ElfBytes.Header64` | uefi_capsule_generation/src/qcom_capsule_tool/patch_capsule_cert.py:123-129 | the same for a 64-bit file |
| `ElfBytes.SegmentFields` | uefi_capsule_generation/src/qcom_capsule_tool/patch_capsule_cert.py:36-84 | type, offset and both sizes of program header `k` by byte position, for both classes and both byte orders |
| `ElfBytes.SectionFields` | uefi_capsule_generation/src/qcom_capsule_tool/patch_capsule_cert.py:116-121 | the offset in section header `k`, likewise |
| `ElfBytes.Parses32Iff` | uefi_capsule_generation/src/qcom_capsule_tool/patch_capsule_cert.py:578-579 | a 32-bit file is parsed if and only if both header tables lie within it |
| `ElfBytes.Parses64Iff` | uefi_capsule_generation/src/qcom_capsule_tool/patch_capsule_cert.py:578-579 | a 64-bit file likewise |
| `ElfBytes.FourBytesBig` | uefi_capsule_generation/src/qcom_capsule_tool/patch_capsule_cert.py:74-84 | what four bytes are worth in big-endian order |
| `ElfBytes.FourBytesLittle` | uefi_capsule_generation/src/qcom_capsule_tool/patch_capsule_cert.py:74-84 | and in little-endian order |
| `ElfSplice.SegEditOk` | uefi_capsule_generation/src/qcom_capsule_tool/patch_capsule_cert.py:111-114 | one turn of the program-header loop changes nothing outside its entry and moves the offset read back from it |
| `ElfSplice.SecEditOk` | uefi_capsule_generation/src/qcom_capsule_tool/patch_capsule_cert.py:116-121 | one turn of the section-header loop does the same |
| `ElfSplice.ParseIff` | uefi_capsule_generation/src/qcom_capsule_tool/patch_capsule_cert.py:578-589 | an image parses to an ELF view if and only if its header fields and both tables hold that view |
| `ElfSplice.SegsMoved` | uefi_capsule_generation/src/qcom_capsule_tool/patch_capsule_cert.py:111-114 | after the program-header writes the image parses to the view with every segment behind the splice moved; no byte outside the table changes |
| `ElfSplice.SecsMoved` | uefi_capsule_generation/src/qcom_capsule_tool/patch_capsule_cert.py:116-121 | the same for section offsets, for a section table in front of the splice |
| `ElfSplice.ShoffMoved` | uefi_capsule_generation/src/qcom_capsule_tool/patch_capsule_cert.py:123-129 | the `e_shoff` write gives the view with that field moved and changes nothing behind the headers |
| `ElfSplice.SizesSet` | uefi_capsule_generation/src/qcom_capsule_tool/patch_capsule_cert.py:679-682 | the size writes change the two sizes of that one segment in the parsed view and nothing else |
| `ElfBuffer.Image.constructor` | uefi_capsule_generation/src/qcom_capsule_tool/patch_capsule_cert.py:575-576 | the image starts as the bytes of the file |
| `ElfBuffer.Image.Write` | uefi_capsule_generation/src/qcom_capsule_tool/patch_capsule_cert.py:74-84 | a field write succeeds if and only if the value fits; then the field decodes to the value and no other byte has changed, else nothing has |
| `ElfBuffer.Image.WritePh` | uefi_capsule_generation/src/qcom_capsule_tool/patch_capsule_cert.py:74-84 | the same for a field of program header `i`, at table offset plus `i` times entry size plus field offset |
| `ElfBuffer.Image.MoveSegments` | uefi_capsule_generation/src/qcom_capsule_tool/patch_capsule_cert.py:111-114 | the loop over program headers: the image parses to the same view with every segment behind the splice moved; no byte outside the table changes |
| `ElfBuffer.Image.MoveSections` | uefi_capsule_generation/src/qcom_capsule_tool/patch_capsule_cert.py:116-121 | the loop over section headers: the image parses to the same view with every section behind the splice moved |
| `ElfBuffer.Image.MoveOffsets` | uefi_capsule_generation/src/qcom_capsule_tool/patch_capsule_cert.py:111-129 | program headers, section headers and `e_shoff`, as one function of the bytes for a table anywhere |
| `ElfBuffer.Image.UpdateHeadersForGrowth` | uefi_capsule_generation/src/qcom_capsule_tool/patch_capsule_cert.py:100-129 | for tables in front of the splice the image parses to the moved view, and nothing behind the headers changes |
| `ElfBuffer.Image.SetSizes` | uefi_capsule_generation/src/qcom_capsule_tool/patch_capsule_cert.py:679-682 | the image parses to the same view with `p_filesz` and `p_memsz` of the target set |
| `ElfBuffer.FixHeaders` | uefi_capsule_generation/src/qcom_capsule_tool/patch_capsule_cert.py:676-682 | all header writes of a splice: the image parses to the moved and resized view |
| `Resize.HeadersFixed` | uefi_capsule_generation/src/qcom_capsule_tool/patch_capsule_cert.py:676-682 | writes made with the old view on an image spliced behind its headers leave an image that holds the moved and resized view, tables where they were, bytes behind the headers untouched |
| `Resize.HeadersParse` | uefi_capsule_generation/src/qcom_capsule_tool/patch_capsule_cert.py:676-685 | such an image parses again, to the moved and resized view |
| `Resize.TargetHolds` | uefi_capsule_generation/src/qcom_capsule_tool/patch_capsule_cert.py:674-682 | the resized segment reads back exactly the new bytes |
| `Resize.OtherHolds` | uefi_capsule_generation/src/qcom_capsule_tool/patch_capsule_cert.py:100-129 | a segment on either side of the splice reads back its old bytes through its moved offset |
| `ZeroGrowth.SizesUnchangedIff` | uefi_capsule_generation/src/qcom_capsule_tool/patch_capsule_cert.py:679-682 | rewriting the two sizes leaves the image identical if and only if both already had that value |
| `ZeroGrowth.HeadUnchangedIff` | uefi_capsule_generation/src/qcom_capsule_tool/patch_capsule_cert.py:668-682 | the segment that holds the program headers keeps its bytes through the size writes if and only if both sizes were already right |
| `StaleSections.SectionsLeftBehind` | uefi_capsule_generation/src/qcom_capsule_tool/patch_capsule_cert.py:96-121 | a section table behind the splice that moves by at least its length is found by the new `e_shoff` with every `sh_offset` unchanged: the writes went to its old place |
| `SectionTable.FieldAfter` | uefi_capsule_generation/src/qcom_capsule_tool/patch_capsule_cert.py:116-121 | what the loop leaves in the offset field of the moved entry: the field itself, or its own write laid over it when the table has moved by less than the field |
| `SectionTable.HeaderFound` | uefi_capsule_generation/src/qcom_capsule_tool/patch_capsule_cert.py:123-129 | `e_shoff` follows a table behind the splice |
| `SectionTable.SectionsFixedIff` | uefi_capsule_generation/src/qcom_capsule_tool/patch_capsule_cert.py:100-129 | for a section table behind the splice and any growth: the section headers found by the new `e_shoff` show the moved offsets if and only if each section is in front of the splice, or the table has moved by less than a field and the half-overwritten offset comes out right |
| `SectionTable.SectionsFixedIffNoneBehind` | uefi_capsule_generation/src/qcom_capsule_tool/patch_capsule_cert.py:100-129 | if the offsets leave as many bytes unused as the table has moved, or it has moved by a whole field: if and only if no section lies behind the splice |
| `FailingImages.SectionsNotMoved` | uefi_capsule_generation/src/qcom_capsule_tool/patch_capsule_cert.py:100-129 | a concrete file: its segment grows from 8 to 12 bytes and the fixed-up file does not parse to the moved view |
| `UefiDtbs.ListDtbSegments` | uefi_capsule_generation/src/qcom_capsule_tool/patch_capsule_cert.py:578-581 | the segments that hold device trees, in order |
| `UefiRun.ListedIff` | uefi_capsule_generation/src/qcom_capsule_tool/patch_capsule_cert.py:578-581 | a segment is listed if and only if the scanner finds a device tree in it |
| `UefiDtbs.RegionFirst` | uefi_capsule_generation/src/qcom_capsule_tool/patch_capsule_cert.py:685-692 | digests are searched in the first segment behind the patched one whose type is 0, over its offset and size |
| `UefiDtbs.RegionAll` | uefi_capsule_generation/src/qcom_capsule_tool/patch_capsule_cert.py:685-694 | and in the whole file if no segment behind the patched one has type 0 |
| `UefiDtbs.UpdateDigests` | uefi_capsule_generation/src/qcom_capsule_tool/patch_capsule_cert.py:696-709 | the digest loop: each old digest is looked up in the frozen image and its first hit overwritten in the live one |
| `UefiDtbs.FinishSegment` | uefi_capsule_generation/src/qcom_capsule_tool/patch_capsule_cert.py:684-724 | the digest pairs of one step, the hash segment they are searched in, and the ELF-header digest only when the segment grew |
| `UefiDtbs.RewriteSegment` | uefi_capsule_generation/src/qcom_capsule_tool/patch_capsule_cert.py:674-724 | headers, then digests, from the spliced image |
| `UefiDtbs.PatchOneSegment` | uefi_capsule_generation/src/qcom_capsule_tool/patch_capsule_cert.py:586-724 | one step of the outer loop is the transition `PatchStep`, reports included (segment, tree, offset and status; not the model and node path that libfdt reads) |
| `UefiDtbs.PatchListed` | uefi_capsule_generation/src/qcom_capsule_tool/patch_capsule_cert.py:583-724 | the outer loop is the run `PatchRun` of such steps, re-parsing before each |
| `UefiDtbs.PatchUefiDtbs` | uefi_capsule_generation/src/qcom_capsule_tool/patch_capsule_cert.py:563-729 | the whole function |
| `DigestWrites.ReplaceAllWithin` | uefi_capsule_generation/src/qcom_capsule_tool/patch_capsule_cert.py:696-709 | digest writes keep the length of the image and stay inside the searched region |
| `DigestWrites.ReplaceAllNarrow` | uefi_capsule_generation/src/qcom_capsule_tool/patch_capsule_cert.py:693-709 | if each digest is found in segment `s` or nowhere, searching the whole file does what searching `s` does |
| `DigestWrites.MissedKept` | uefi_capsule_generation/src/qcom_capsule_tool/patch_capsule_cert.py:696-709 | a segment in which no digest is found keeps its bytes, whatever region is searched |
| `DigestWrites.KeptIff` | uefi_capsule_generation/src/qcom_capsule_tool/patch_capsule_cert.py:696-709 | digest writes leave a segment as it was if and only if no digest that changes is found in it (different digests found apart, none across the segment's ends) |
| `UefiRun.FixedParses` | uefi_capsule_generation/src/qcom_capsule_tool/patch_capsule_cert.py:674-685 | splicing in a segment of any new size, larger or smaller: the image parses to the moved and resized view |
| `UefiRun.FixedTarget` | uefi_capsule_generation/src/qcom_capsule_tool/patch_capsule_cert.py:674-682 | and the target holds exactly the new bytes |
| `UefiRun.FixedOther` | uefi_capsule_generation/src/qcom_capsule_tool/patch_capsule_cert.py:100-129 | and every other segment behind the headers that does not overlap the target reads back its own bytes |
| `UefiRun.UntouchedSame` | uefi_capsule_generation/src/qcom_capsule_tool/patch_capsule_cert.py:656-657 | a segment in which nothing was patched rebuilds to itself |
| `UefiRun.StepLayout` | uefi_capsule_generation/src/qcom_capsule_tool/patch_capsule_cert.py:583-724 | after a step, digest writes included, the image parses to the expected view and the layout is as good as before, if no digest is found in the headers: a PT_NULL segment behind the patched one or the whole file searched alike |
| `UefiRun.HashSegmentHomes` | uefi_capsule_generation/src/qcom_capsule_tool/patch_capsule_cert.py:685-692 | if there is a PT_NULL segment behind the patched one, digests are found in it or nowhere |
| `UefiRun.HomeSpares` | uefi_capsule_generation/src/qcom_capsule_tool/patch_capsule_cert.py:685-694 | digests found in one segment or nowhere spare everything apart from it |
| `UefiRun.StepSegment` | uefi_capsule_generation/src/qcom_capsule_tool/patch_capsule_cert.py:583-724 | after a step the target holds its rebuilt form and every other segment behind the headers its old bytes, if no digest is found in it |
| `UefiRun.TouchedSegmentIff` | uefi_capsule_generation/src/qcom_capsule_tool/patch_capsule_cert.py:583-724 | exactly when: the target holds its rebuilt form, another segment its old bytes, if and only if no digest that changes is found in it, in the PT_NULL segment or in the whole file |
| `UefiRun.RunSegment` | uefi_capsule_generation/src/qcom_capsule_tool/patch_capsule_cert.py:583-724 | over a run: a listed segment is rebuilt exactly once, an unlisted one keeps its bytes, through all re-parses and moves |
| `UefiRun.HashBehindSpares` | uefi_capsule_generation/src/qcom_capsule_tool/patch_capsule_cert.py:685-724 | an image with a PT_NULL segment behind each patched one spares every other segment in every state of the run, whatever its bytes |
| `UefiRun.ListedOnce` | uefi_capsule_generation/src/qcom_capsule_tool/patch_capsule_cert.py:578-581 | no segment is listed twice |
| `UefiRun.PatchUefiSegments` | uefi_capsule_generation/src/qcom_capsule_tool/patch_capsule_cert.py:563-729 | the output of the whole function: each segment behind the headers in which no digest is found, in any state of the run, holds its original bytes with every certificate-bearing tree replaced once by its patched form and all else verbatim; with or without a hash segment |
| `UefiReports.PatchUefiReports` | uefi_capsule_generation/src/qcom_capsule_tool/patch_capsule_cert.py:583-729 | the reports of a whole run on one segment are those on the device trees it held in the original image, whatever was moved and rewritten before its turn |
| `UefiReports.PatchUefiAscends` | uefi_capsule_generation/src/qcom_capsule_tool/patch_capsule_cert.py:583-729 | reports come in the order of segments, and of trees within a segment |
| `WritesFit.WritesIff` | uefi_capsule_generation/src/qcom_capsule_tool/patch_capsule_cert.py:74-129 | the header writes succeed if and only if, when segments move, each offset behind the splice point fits its field afterwards, and the new size fits |
| `WritesFit.StepSucceedsIff` | uefi_capsule_generation/src/qcom_capsule_tool/patch_capsule_cert.py:583-724 | so a step succeeds if and only if the segment is left as it is or those values fit; nothing else raises |
| `WritesFit.RunSucceedsIff` | uefi_capsule_generation/src/qcom_capsule_tool/patch_capsule_cert.py:583-729 | a run gets to its end if and only if they fit in every state that it passes through |
| `FailingImages.StrayOverwritten` | uefi_capsule_generation/src/qcom_capsule_tool/patch_capsule_cert.py:693-709 | a concrete file without a PT_NULL segment: patching its device tree overwrites another segment that holds the digest of that tree |
| `UefiTrees.RebuiltTree` | uefi_capsule_generation/src/qcom_capsule_tool/patch_capsule_cert.py:594-643 | tree `k` of a rebuilt segment is the patched form of tree `k`, wherever it now stands |
| `UefiTrees.PatchUefiTree` | uefi_capsule_generation/src/qcom_capsule_tool/patch_capsule_cert.py:563-729 | over the whole function: tree `k` of segment `i` becomes exactly what the patcher made of the original tree, or stays byte-identical if it was skipped or failed |
| `UefiTrees.PatchUefiRescan` | uefi_capsule_generation/src/qcom_capsule_tool/patch_capsule_cert.py:563-729 | a scan of the output finds the same trees, in the places computed from the original segment, under the condition of `RescanIff` |
| `DigestSlots.UnchangedSlot` | uefi_capsule_generation/src/qcom_capsule_tool/patch_capsule_cert.py:696-724 | a digest slot whose subject does not change keeps its bytes through all replacements, if each old digest is found in a slot of a subject that changes alike, or apart from all slots, or nowhere |
| `DigestSlots.ChangedSlotIff` | uefi_capsule_generation/src/qcom_capsule_tool/patch_capsule_cert.py:696-724 | then the slot of a changed subject ends up with the new digest if and only if the search for the old one ends in it, or the digest stays the same; several subjects may share a digest |
| `UefiHashes.UpdatesArePairs` | uefi_capsule_generation/src/qcom_capsule_tool/patch_capsule_cert.py:638-672 | the pairs the program collects are those of the subjects that changed: replaced trees, the segment, the ELF-header segment |
| `UefiHashes.TouchedSlot` | uefi_capsule_generation/src/qcom_capsule_tool/patch_capsule_cert.py:659-724 | one slot over a step, ELF-header segment included: the digest of what its subject was becomes the digest of what it is if and only if the search ends in the slot; the digests are in the searched PT_NULL segment or, searched in the whole file, in one segment anywhere |
| `UefiHashes.TouchedSlots` | uefi_capsule_generation/src/qcom_capsule_tool/patch_capsule_cert.py:659-724 | a step keeps the whole table right if and only if it leaves out no slot |
| `UefiHashes.StepSlots` | uefi_capsule_generation/src/qcom_capsule_tool/patch_capsule_cert.py:659-724 | a step keeps every slot of the hash table right, and the layout |
| `UefiHashes.RunSlots` | uefi_capsule_generation/src/qcom_capsule_tool/patch_capsule_cert.py:583-724 | a run keeps every slot right |
| `UefiHashes.PatchUefiHashes` | uefi_capsule_generation/src/qcom_capsule_tool/patch_capsule_cert.py:563-729 | the whole function leaves a right table of digests right: for every tree, segment and the ELF-header segment with a slot |
| `OneTree.OneTreeIff` | uefi_capsule_generation/src/qcom_capsule_tool/patch_capsule_cert.py:638-659 | a segment that is exactly one tree, whose digest is looked up twice: no slot is left out if and only if tree and segment have one slot between them, or the digest stays the same |
| `OneTree.OneTreeFits` | uefi_capsule_generation/src/qcom_capsule_tool/patch_capsule_cert.py:638-724 | such a segment with one slot meets the condition of a step |
| `FailingImages.TwinSlotLost` | uefi_capsule_generation/src/qcom_capsule_tool/patch_capsule_cert.py:696-709 | a concrete file whose table has a slot for the segment and one for its only tree: the first is right after the run, the second is not |
| `UefiTable.SegmentOccurs` | uefi_capsule_generation/src/qcom_capsule_tool/patch_capsule_cert.py:685-709 | in any table that the run may come upon, the digests of a segment are found where they belong, if each can stand in one slot only and occurs at slots only |
| `UefiTableRun.StepOccurs` | uefi_capsule_generation/src/qcom_capsule_tool/patch_capsule_cert.py:659-724 | so are those of a whole step, header segment included, in a state of the run |
| `UefiTableRun.TableRun` | uefi_capsule_generation/src/qcom_capsule_tool/patch_capsule_cert.py:583-724 | by induction over the run every state is such a state |
| `UefiTableRun.PatchUefiTable` | uefi_capsule_generation/src/qcom_capsule_tool/patch_capsule_cert.py:563-729 | for images with a PT_NULL segment behind the patched ones: conditions on the image before the run and on the digests of its subjects, and on those of the header segment, are enough for the table to be right after it |
| `SoundImage.SlotKept` | uefi_capsule_generation/src/qcom_capsule_tool/patch_capsule_cert.py:563-729 | a concrete file that meets them: a segment that is one tree, with a slot for the segment, right before the run and after it |
| `UefiHashes.HeadUngrown` | uefi_capsule_generation/src/qcom_capsule_tool/patch_capsule_cert.py:668-682 | when the target keeps its size, the ELF-header segment keeps its bytes if `p_filesz` and `p_memsz` were already that size, and only then if it covers the program headers |
| `HeadSlot.HeadSlotIff` | uefi_capsule_generation/src/qcom_capsule_tool/patch_capsule_cert.py:668-724 | for a digest that tells the two contents of the ELF-header segment apart: its slot, right before a step, is right after it if and only if the segment has grown and the old digest is found in the slot, or has not grown and `p_memsz` was `p_filesz` |
| `FailingImages.HeadSlotLost` | uefi_capsule_generation/src/qcom_capsule_tool/patch_capsule_cert.py:668-724 | a concrete file on which the slot is right before the run and wrong after it |
| `UefiHashes.UngrownHeadSlot` | uefi_capsule_generation/src/qcom_capsule_tool/patch_capsule_cert.py:668-672 | exact condition for the digest that is not refreshed: without growth the slot of the ELF-header segment stays right if and only if the digest did not change, and the bytes did not change if and only if both sizes were already right |
| `XblMetadata.ParseMetaItems` | uefi_capsule_generation/src/qcom_capsule_tool/patch_capsule_cert.py:366-401 | the cursor loop over metadata items, truncation errors included |
| `XblMetadata.HeaderFields` | uefi_capsule_generation/src/qcom_capsule_tool/patch_capsule_cert.py:355-363 | where the numbers of the metadata header stand |
| `XblMetadata.ItemFields` | uefi_capsule_generation/src/qcom_capsule_tool/patch_capsule_cert.py:366-401 | where the numbers and the name of an item stand, and that the next one is at the next multiple of eight bytes |
| `XblMetadata.ReadIff` | uefi_capsule_generation/src/qcom_capsule_tool/patch_capsule_cert.py:355-401 | header and items are read if and only if they are there in full, names included |
| `XblMetadata.ItemsTile` | uefi_capsule_generation/src/qcom_capsule_tool/patch_capsule_cert.py:366-401 | a successful parse has the declared number of items, laid end to end, each a multiple of 8 bytes long and with its name inside the blob |
| `XblMetadata.SizeOverwritten` | uefi_capsule_generation/src/qcom_capsule_tool/patch_capsule_cert.py:504-506 | overwriting the 4 bytes at `start_off + 8` of item `k` changes the re-parse in the `item_size` of item `k` and nowhere else |
| `XblMetadata.PrintedHeader` | uefi_capsule_generation/src/qcom_capsule_tool/patch_capsule_cert.py:355-363 | parsing undoes printing of the metadata header |
| `XblMetadata.PrintedItems` | uefi_capsule_generation/src/qcom_capsule_tool/patch_capsule_cert.py:366-401 | parsing undoes printing of any list of items, at any place in a blob |
| `XblMetadata.PrintedBlob` | uefi_capsule_generation/src/qcom_capsule_tool/patch_capsule_cert.py:355-401 | parsing undoes printing of a whole metadata blob, whatever follows |
| `XblConfig.ResizeSegment` | uefi_capsule_generation/src/qcom_capsule_tool/patch_capsule_cert.py:482-491 | the three ways of overwriting a segment, on the mutable image |
| `XblConfig.ListSideEffects` | uefi_capsule_generation/src/qcom_capsule_tool/patch_capsule_cert.py:473-480 | the loop over segment 0 and the metadata segment collects exactly the digests of those that exist, are not the target and hold something |
| `XblConfig.UpdateSideDigests` | uefi_capsule_generation/src/qcom_capsule_tool/patch_capsule_cert.py:525-541 | the second digest loop, searched in a snapshot |
| `XblConfig.ReplaceDigestsIn` | uefi_capsule_generation/src/qcom_capsule_tool/patch_capsule_cert.py:518-541 | both digest rounds |
| `XblConfig.ReplaceSegment` | uefi_capsule_generation/src/qcom_capsule_tool/patch_capsule_cert.py:428-545 | the whole of `_replace_ph`, its exceptions included |
| `XblConfig.PatchTreeIn` | uefi_capsule_generation/src/qcom_capsule_tool/patch_capsule_cert.py:819-861 | one device tree of one item |
| `XblConfig.PatchXblSegment` | uefi_capsule_generation/src/qcom_capsule_tool/patch_capsule_cert.py:814-861 | the loop over the device trees of a segment that is not read again in between |
| `XblConfig.PatchItemIn` | uefi_capsule_generation/src/qcom_capsule_tool/patch_capsule_cert.py:809-817 | one item; a segment that does not exist is passed over |
| `XblConfig.PatchXblItems` | uefi_capsule_generation/src/qcom_capsule_tool/patch_capsule_cert.py:808-861 | the loop over items |
| `XblConfig.PatchXblConfig` | uefi_capsule_generation/src/qcom_capsule_tool/patch_capsule_cert.py:802-874 | the whole function with its three counters, and how it leaves: exit status 1 after errors, ValueError if nothing was patched |
| `XblLeave.TreesCounted` | uefi_capsule_generation/src/qcom_capsule_tool/patch_capsule_cert.py:819-861 | over the trees of a segment nothing is counted as patched or failed if and only if no tree has the property |
| `XblLeave.NoPropertyIff` | uefi_capsule_generation/src/qcom_capsule_tool/patch_capsule_cert.py:869-874 | the ValueError is raised if and only if no segment of an item had a certificate-bearing tree in the input; nothing has then been changed |
| `XblLeave.CountersAre` | uefi_capsule_generation/src/qcom_capsule_tool/patch_capsule_cert.py:819-861 | the three counters are the numbers of trees read during the run that were patched, skipped and failed |
| `XblLeave.LeavesIff` | uefi_capsule_generation/src/qcom_capsule_tool/patch_capsule_cert.py:869-874 | the run exits with status 1 if and only if some tree that was read failed, finishes if and only if none failed and some was patched, and raises the ValueError if and only if all were skipped |
| `XblLeave.EndParses` | uefi_capsule_generation/src/qcom_capsule_tool/patch_capsule_cert.py:857-860 | a run that gets to its end leaves a file that parses |
| `WritesFit.ReplaceSucceedsIff` | uefi_capsule_generation/src/qcom_capsule_tool/patch_capsule_cert.py:428-545 | on an image that parses, `_replace_ph` succeeds if and only if the segment exists and the header values fit, offsets moving only on growth |
| `XblReplace.GrownImage` | uefi_capsule_generation/src/qcom_capsule_tool/patch_capsule_cert.py:486-491 | on growth the image is prefix ++ new ++ tail ++ as many zero bytes as the growth, once more |
| `XblReplace.ShrunkImage` | uefi_capsule_generation/src/qcom_capsule_tool/patch_capsule_cert.py:482-485 | otherwise it is prefix ++ new ++ zero fill ++ tail at the same length |
| `XblReplace.WrittenParses` | uefi_capsule_generation/src/qcom_capsule_tool/patch_capsule_cert.py:492-497 | after the header writes the image parses to the moved and resized view |
| `XblReplace.WrittenTarget` | uefi_capsule_generation/src/qcom_capsule_tool/patch_capsule_cert.py:482-497 | the target holds exactly the new bytes |
| `XblReplace.WrittenOther` | uefi_capsule_generation/src/qcom_capsule_tool/patch_capsule_cert.py:487-497 | every other segment behind the headers its own |
| `XblEffect.NewBlobItems` | uefi_capsule_generation/src/qcom_capsule_tool/patch_capsule_cert.py:499-506 | the rewritten metadata parses to the same items but for the one size |
| `XblEffect.ItemSizeEffect` | uefi_capsule_generation/src/qcom_capsule_tool/patch_capsule_cert.py:499-516 | the metadata write changes the metadata segment to exactly that and nothing outside; it is skipped when there is no such item or the size does not fit |
| `XblReplace.SparedInReplace` | uefi_capsule_generation/src/qcom_capsule_tool/patch_capsule_cert.py:518-541 | a segment in which no digest is found keeps its bytes through both rounds, which search the whole file |
| `XblReplace.DigestsInSpare` | uefi_capsule_generation/src/qcom_capsule_tool/patch_capsule_cert.py:518-541 | digests found in one segment or nowhere spare everything apart from it |
| `XblEffect.ReplaceParses` | uefi_capsule_generation/src/qcom_capsule_tool/patch_capsule_cert.py:428-545 | after a whole call the image parses to the new view, laid out as well as before, if no digest is found in the headers |
| `XblEffect.ReplaceMeta` | uefi_capsule_generation/src/qcom_capsule_tool/patch_capsule_cert.py:499-516 | the metadata segment has not moved and holds the rewritten metadata, if no digest is found in it |
| `XblEffect.ReplaceContents` | uefi_capsule_generation/src/qcom_capsule_tool/patch_capsule_cert.py:482-545 | after a whole call the target holds the new bytes and every other segment but the metadata its own, if no digest is found in it |
| `LastTree.LastPatchedIs` | uefi_capsule_generation/src/qcom_capsule_tool/patch_capsule_cert.py:814-842 | because the segment is not read again, it ends up with only the last certificate-bearing tree replaced |
| `LastTree.FinalIsRebuiltIff` | uefi_capsule_generation/src/qcom_capsule_tool/patch_capsule_cert.py:814-842 | the segment ends up with all of them replaced if and only if each replacement but the last changes nothing |
| `FailingTrees.FirstOfTwoLost` | uefi_capsule_generation/src/qcom_capsule_tool/patch_capsule_cert.py:814-842 | of any device tree twice the first is not patched in the end, unless patching changes nothing |
| `FailingTrees.FirstTreeLost` | uefi_capsule_generation/src/qcom_capsule_tool/patch_capsule_cert.py:814-842 | a concrete such segment |
| `LastTree.AtMostOneSuffices` | uefi_capsule_generation/src/qcom_capsule_tool/patch_capsule_cert.py:814-842 | which is so with at most one certificate-bearing tree |
| `XblRun.ReplaceMatchesIff` | uefi_capsule_generation/src/qcom_capsule_tool/patch_capsule_cert.py:494-506 | a replacement keeps every `item_size` equal to the `p_filesz` of its segment if and only if the new size fits 32 bits, or has no item |
| `XblRun.SeqMatches` | uefi_capsule_generation/src/qcom_capsule_tool/patch_capsule_cert.py:428-545 | that agreement survives any sequence of replacements |
| `XblRun.TreesRun` | uefi_capsule_generation/src/qcom_capsule_tool/patch_capsule_cert.py:819-861 | the loop over the trees of one segment: layout, contents of every segment, agreement of sizes |
| `XblRun.PatchXblSegments` | uefi_capsule_generation/src/qcom_capsule_tool/patch_capsule_cert.py:802-861 | the output of the whole function: sizes agree, a segment with an item holds what it held with its last certificate-bearing tree patched, any other its own bytes, if no digest is found in headers, metadata and that segment; with or without a hash segment |
| `XblHashes.SidePairsAre` | uefi_capsule_generation/src/qcom_capsule_tool/patch_capsule_cert.py:525-532 | the pairs of the second round are those of the segments written into besides the target |
| `XblHashes.ReplaceSlot` | uefi_capsule_generation/src/qcom_capsule_tool/patch_capsule_cert.py:453-541 | one digest slot through both rounds of a call: right before, right after, for target, segment 0, metadata and any other segment |
| `XblHashes.ReplaceSlots` | uefi_capsule_generation/src/qcom_capsule_tool/patch_capsule_cert.py:453-541 | a call keeps every slot right |
| `XblHashes.SeqSlots` | uefi_capsule_generation/src/qcom_capsule_tool/patch_capsule_cert.py:428-545 | any sequence of calls does |
| `XblDigestRun.TreesSlots` | uefi_capsule_generation/src/qcom_capsule_tool/patch_capsule_cert.py:819-861 | the loop over the trees of one segment does |
| `XblDigestRun.PatchXblHashes` | uefi_capsule_generation/src/qcom_capsule_tool/patch_capsule_cert.py:802-861 | the whole function leaves a right table of digests right, for whole segments, segment 0 and the metadata included |
| `CertText.BinToHex` | uefi_capsule_generation/src/qcom_capsule_tool/BinToHex.py:17-30 | the loop over 4-byte chunks writes the length word and one word per chunk |
| `CertText.FiveBytes` | uefi_capsule_generation/src/qcom_capsule_tool/BinToHex.py:17-30 | the text for the bytes DE AD BE EF 05, character by character |
| `CertText.TextEncodes` | uefi_capsule_generation/src/qcom_capsule_tool/patch_capsule_cert.py:157-160 | reading the text back as a word list gives the length and the bytes as 32-bit big-endian words, the last word padded on the left; it fails exactly when the length does not fit 32 bits |
| `CertText.CertValueLength` | uefi_capsule_generation/src/qcom_capsule_tool/patch_capsule_cert.py:157-160 | the property value has `4 * (1 + ceil(n / 4))` bytes |
| `CertText.CertValueReads` | uefi_capsule_generation/src/qcom_capsule_tool/patch_capsule_cert.py:157-160 | its first word is the length and tells how to get the bytes back from the rest |
| `CertText.CertValueInjective` | uefi_capsule_generation/src/qcom_capsule_tool/patch_capsule_cert.py:157-160 | equal property values come from equal certificates |
| `Ffs.Checksum8Balances` | uefi_capsule_generation/src/qcom_capsule_tool/fv_builder.py:62-64 | bytes and their checksum sum to 0 modulo 256 |
| `Ffs.FillHeader` | uefi_capsule_generation/src/qcom_capsule_tool/fv_builder.py:80-95 | the header buffer filled slot by slot, for both header forms |
| `Ffs.FinishHeader` | uefi_capsule_generation/src/qcom_capsule_tool/fv_builder.py:95-99 | the checks are computed over the header with checks and state zero, and then stored |
| `Ffs.BuildRawFfs` | uefi_capsule_generation/src/qcom_capsule_tool/fv_builder.py:72-100 | the whole function, with its size limit |
| `FvBytes.FileBytes` | uefi_capsule_generation/src/qcom_capsule_tool/fv_builder.py:72-100 | a built file by byte position and literal numbers: GUID, data check, type 1, attributes 0x40 or 0x41, size in 24 or 64 bits, state 7, payload |
| `FvBytes.FileHeaderSum` | uefi_capsule_generation/src/qcom_capsule_tool/fv_builder.py:95-99 | its header sums to 0 modulo 256 without bytes 17 and 23 |
| `Ffs.RawHeaderSum` | uefi_capsule_generation/src/qcom_capsule_tool/fv_builder.py:95-99 | the header bytes without data check and state sum to 0 modulo 256, whatever the state |
| `Ffs.SumsRight` | uefi_capsule_generation/src/qcom_capsule_tool/fv_builder.py:95-99 | both 8-bit checks hold where the file stands in a volume |
| `Ffs.StoredRead` | uefi_capsule_generation/src/qcom_capsule_tool/fv_builder.py:72-100 | a reader written from section 3.2.3.1 of the PI Specification, volume 3, gets GUID, payload and size back from a stored file, across the 24-bit size switch |
| `FirmwareVolume.AppendFiles` | uefi_capsule_generation/src/qcom_capsule_tool/fv_builder.py:110-119 | the loop that pads and appends files |
| `FirmwareVolume.BuildHeader` | uefi_capsule_generation/src/qcom_capsule_tool/fv_builder.py:129-149 | the header is packed with checksum 0 and patched |
| `FirmwareVolume.BuildVolume` | uefi_capsule_generation/src/qcom_capsule_tool/fv_builder.py:103-153 | the whole function; a file too short for its attributes or state byte is an error |
| `FvBytes.VolumeHeaderBytes` | uefi_capsule_generation/src/qcom_capsule_tool/fv_builder.py:121-149 | every byte of the 72-byte header of a built volume, in literal numbers: zero vector, GUID by the large-file attributes, length, "_FVH", attributes 0x3FEFF, sum zero, no extended header, revision 2, block map of 64-byte blocks and its (0, 0) end |
| `FvBytes.BuildsIff` | uefi_capsule_generation/src/qcom_capsule_tool/fv_builder.py:103-153 | a volume is built if and only if each file has at least 24 bytes and there are fewer than 2^32 blocks |
| `FvRead.StateInverted` | uefi_capsule_generation/src/qcom_capsule_tool/fv_builder.py:114-119 | storing a file inverts its state bits and changes nothing else |
| `FvRead.WalkBody` | uefi_capsule_generation/src/qcom_capsule_tool/fv_builder.py:110-119 | walking the files from any start gives back the list they were built from and stops at the erased tail |
| `FvLayout.FinishedHeaderSum` | uefi_capsule_generation/src/qcom_capsule_tool/fv_builder.py:148-149 | the 16-bit words of the volume header sum to 0 |
| `FvLayout.VolumeParts` | uefi_capsule_generation/src/qcom_capsule_tool/fv_builder.py:121-153 | a volume is header ++ body ++ erased fill, and its length is the header and body rounded up to the block size |
| `FvLayout.LabelIff` | uefi_capsule_generation/src/qcom_capsule_tool/fv_builder.py:124-127 | the volume is labelled FFS3 if and only if some payload exceeds the 24-bit size, and FFS2 otherwise |
| `FvLayout.ReadUndoesBuild` | uefi_capsule_generation/src/qcom_capsule_tool/fv_builder.py:103-153 | reading a built volume, with all header and file checks, gives back exactly the (GUID, payload) list in order and the label |
| `FvLayout.FileAt` | uefi_capsule_generation/src/qcom_capsule_tool/fv_builder.py:111-119 | file `k` stands where the layout says, 8-aligned, in stored form |
| `FvLayout.BodyErased` | uefi_capsule_generation/src/qcom_capsule_tool/fv_builder.py:112-113 | a body byte that belongs to no file is erased |
| `FvLayout.VolumeErased` | uefi_capsule_generation/src/qcom_capsule_tool/fv_builder.py:110-153 | every byte of a volume outside header and files is 0xFF |
| `Capsule.DescriptorAcceptedIff` | uefi_capsule_generation/src/qcom_capsule_tool/generate_capsule.py:108-131 | a descriptor is accepted if and only if both versions are 32-bit numbers, the index is a positive byte, no unsupported feature is asked for, and all or none of the certificates are given |
| `Capsule.CollectItems` | uefi_capsule_generation/src/qcom_capsule_tool/generate_capsule.py:217-228 | the loop over drivers and payloads |
| `Capsule.BuildTable` | uefi_capsule_generation/src/qcom_capsule_tool/generate_capsule.py:233-236 | the offset loop |
| `Capsule.JoinItems` | uefi_capsule_generation/src/qcom_capsule_tool/generate_capsule.py:237 | the items joined |
| `Capsule.BuildBody` | uefi_capsule_generation/src/qcom_capsule_tool/generate_capsule.py:230-237 | the capsule body |
| `Capsule.CollectFlags` | uefi_capsule_generation/src/qcom_capsule_tool/generate_capsule.py:239-241 | the flag loop, unknown names included |
| `Capsule.BuildCapsule` | uefi_capsule_generation/src/qcom_capsule_tool/generate_capsule.py:209-252 | the whole encoder with its packing errors |
| `CapsuleBytes.FlagWord` | uefi_capsule_generation/src/qcom_capsule_tool/generate_capsule.py:239-241 | the flag word is the OEM flags plus 0x10000, 0x20000 and 0x40000 for PersistAcrossReset, PopulateSystemTable and InitiateReset, for OEM flags below 0x10000 |
| `CapsuleBytes.FlagWordBit` | uefi_capsule_generation/src/qcom_capsule_tool/generate_capsule.py:239-241 | for any OEM flags, bits 16, 17 and 18 are set if and only if they were or the name is among those given, and every other bit is as it was |
| `CapsuleBytes.CapsuleFlags` | uefi_capsule_generation/src/qcom_capsule_tool/generate_capsule.py:239-252 | so for the flag word in an encoded capsule |
| `CapsuleBytes.DecodedFlags` | uefi_capsule_generation/src/qcom_capsule_tool/generate_capsule.py:239-252 | the flag word that the decoder reads has bit 16, 17 or 18 if and only if PersistAcrossReset, PopulateSystemTable or InitiateReset was given, and the OEM flags in bits 0 to 15 |
| `CapsuleBytes.UnknownFlag` | uefi_capsule_generation/src/qcom_capsule_tool/generate_capsule.py:239-241 | any other name makes the encoding fail |
| `CapsuleBytes.CapsuleHeader` | uefi_capsule_generation/src/qcom_capsule_tool/generate_capsule.py:242-252 | the outer header of an encoded capsule by byte position: the 16 bytes of its GUID, header size 32, the length of the file, reserved zeros, and version 1 with both counts |
| `CapsuleBytes.ItemBytes` | uefi_capsule_generation/src/qcom_capsule_tool/generate_capsule.py:166-228 | an encoded item by byte position and literal numbers: version 3, GUID, index, sizes, instance, support bit, and behind it the payload, signed or not |
| `CapsuleFits.CapsuleEncodesIff` | uefi_capsule_generation/src/qcom_capsule_tool/generate_capsule.py:209-252 | a capsule is encoded if and only if, its items encoding, both counts have 16 bits, the OEM flags 32, each flag is one of the three, and header, table and items are shorter than 2^32 bytes |
| `CapsuleFits.ItemsEncode` | uefi_capsule_generation/src/qcom_capsule_tool/generate_capsule.py:217-228 | and it is not if some item does not encode |
| `CapsuleRead.CollectOffsets` | uefi_capsule_generation/src/qcom_capsule_tool/generate_capsule.py:284-287 | the offset loop of the decoder |
| `CapsuleRead.DumpItems` | uefi_capsule_generation/src/qcom_capsule_tool/generate_capsule.py:289-325 | the item loop of the decoder |
| `CapsuleRead.DumpInfo` | uefi_capsule_generation/src/qcom_capsule_tool/generate_capsule.py:255-325 | the whole decoder with its errors |
| `CapsuleRead.ImageRead` | uefi_capsule_generation/src/qcom_capsule_tool/generate_capsule.py:320-325 | the decoder finds header size, versions and payload of an encoded image |
| `CapsuleRead.AuthRead` | uefi_capsule_generation/src/qcom_capsule_tool/generate_capsule.py:307-318 | the decoder finds count, length, revision, kind and certificate of an authentication header and the image behind it |
| `CapsuleRead.EncodesIff` | uefi_capsule_generation/src/qcom_capsule_tool/generate_capsule.py:166-228 | an item encodes if and only if its numbers fit their fields and signing succeeds |
| `CapsuleRead.ItemRead` | uefi_capsule_generation/src/qcom_capsule_tool/generate_capsule.py:289-325 | decoding an encoded item recovers every descriptor field, the certificate and the payload |
| `CapsuleRead.OffsetsRead` | uefi_capsule_generation/src/qcom_capsule_tool/generate_capsule.py:233-236 | the decoder reads back the offsets the encoder wrote |
| `CapsuleRead.PiecesRead` | uefi_capsule_generation/src/qcom_capsule_tool/generate_capsule.py:289-291 | the offsets cut the body into exactly its items, the last ending with the body |
| `CapsuleRead.OffsetIsSum` | uefi_capsule_generation/src/qcom_capsule_tool/generate_capsule.py:233-236 | offset `k` is the end of the table plus the lengths of all earlier items; the last item ends where the body ends |
| `CapsuleTrip.BodyRead` | uefi_capsule_generation/src/qcom_capsule_tool/generate_capsule.py:230-237 | header counts and offset table of a body read back, for any numbers of drivers and payloads |
| `CapsuleTrip.RoundTrip` | uefi_capsule_generation/src/qcom_capsule_tool/generate_capsule.py:209-325 | decoding an encoded capsule gives the capsule GUID, header size, flag word, the file length as image size, every driver and every payload with all its fields, signed or not |
| `CapsuleTrip.EncodingInjective` | uefi_capsule_generation/src/qcom_capsule_tool/generate_capsule.py:209-252 | equal capsules come from equal drivers, payloads and flag words |
| `CapsuleTrip.VerifierSees` | uefi_capsule_generation/src/qcom_capsule_tool/generate_capsule.py:186-206 | what a verifier rebuilds, the bytes behind the certificate followed by the count of the authentication header, is exactly what was signed |
| `CapsuleTrip.FlagsRecovered` | uefi_capsule_generation/src/qcom_capsule_tool/generate_capsule.py:239-241 | a flag name was given if and only if its bit is set, and the 16 OEM bits are untouched |
| `Crc32.ReflectBits` | uefi_capsule_generation/src/qcom_capsule_tool/FVCreation.py:113-123 | the reflection loop, or-ing bit by bit |
| `Crc32.ReflectInvolution` | uefi_capsule_generation/src/qcom_capsule_tool/FVCreation.py:113-123 | reflecting twice gives the number back if and only if it is below `2^l` |
| `Crc32.MsbStepMirrors` | uefi_capsule_generation/src/qcom_capsule_tool/FVCreation.py:143-152 | one step of the MSB-first register is the mirror image of one step of the LSB-first register with polynomial 0xEDB88320 |
| `Crc32.FeedByte` | uefi_capsule_generation/src/qcom_capsule_tool/FVCreation.py:139-152 | the inner loop, seen in the mirror, feeds one byte into the reflected CRC |
| `Crc32.FeedBuffer` | uefi_capsule_generation/src/qcom_capsule_tool/FVCreation.py:138-152 | the outer loop keeps one register the mirror image of the other |
| `Crc32.CalcCrc32` | uefi_capsule_generation/src/qcom_capsule_tool/FVCreation.py:126-155 | the function is the ordinary reflected CRC-32 of the first `l` bytes for every buffer and length, and an IndexError exactly for a length beyond the buffer |
| `Crc32.CrcBound` | uefi_capsule_generation/src/qcom_capsule_tool/FVCreation.py:213-214 | the CRC needs no masking: it is below `2^32` |
| `CrcValues.OfNothing` | uefi_capsule_generation/src/qcom_capsule_tool/FVCreation.py:126-155 | the CRC of no bytes is 0 |
| `CrcValues.OfZero` | uefi_capsule_generation/src/qcom_capsule_tool/FVCreation.py:126-155 | the CRC of one zero byte is 0xD202EF8D |
| `CrcValues.OfOnes` | uefi_capsule_generation/src/qcom_capsule_tool/FVCreation.py:126-155 | the CRC of FF FF FF FF is 0xFFFFFFFF |
| `CrcValues.OfDigits` | uefi_capsule_generation/src/qcom_capsule_tool/FVCreation.py:126-155 | the CRC of "123456789" is 0xCBF43926, the check value of CRC-32 |
| `Crc32.BurstDetected` | uefi_capsule_generation/src/qcom_capsule_tool/FVCreation.py:126-155 | two buffers that differ only inside four consecutive bytes have equal CRCs if and only if they are equal |
| `VersionRecord.BytesRead` | uefi_capsule_generation/src/qcom_capsule_tool/SYSFW_VERSION_program.py:282-289 | reading the packed record gives back every field |
| `VersionRecord.PackedValue` | uefi_capsule_generation/src/qcom_capsule_tool/SYSFW_VERSION_program.py:252-267 | 16-bit parts pack to `c * 65536 + d` |
| `VersionRecord.PackedBits` | uefi_capsule_generation/src/qcom_capsule_tool/SYSFW_VERSION_program.py:252-267 | whatever the parts, a packed version has the bits of the third part 16 places up and those of the fourth, the lowest 32 of them |
| `VersionRecord.UnpackIff` | uefi_capsule_generation/src/qcom_capsule_tool/SYSFW_VERSION_program.py:400-415 | unpacking gives back the two packed parts if and only if both are below `2^16` |
| `VersionRecord.PackedOrder` | uefi_capsule_generation/src/qcom_capsule_tool/SYSFW_VERSION_program.py:252-267 | packed order is the lexicographic order of the two parts |
| `VersionRecord.Record.constructor` | uefi_capsule_generation/src/qcom_capsule_tool/SYSFW_VERSION_program.py:242 | a new record has zero fields |
| `VersionRecord.Record.Generate` | uefi_capsule_generation/src/qcom_capsule_tool/SYSFW_VERSION_program.py:240-291 | fields are set one by one and the CRC last, over the record so far |
| `VersionRecord.Record.Validate` | uefi_capsule_generation/src/qcom_capsule_tool/FVCreation.py:167-210 | the verdict and the record left behind, the swallowed exceptions included |
| `VersionRecord.GeneratedIsGenuine` | uefi_capsule_generation/src/qcom_capsule_tool/SYSFW_VERSION_program.py:240-291 | a generated record has the right revision, signature and CRC, and fits its fields |
| `VersionRecord.GeneratedBytes` | uefi_capsule_generation/src/qcom_capsule_tool/SYSFW_VERSION_program.py:240-291 | the 28 bytes of a written record: "SYSFWVER" byte by byte, revision 0x10000, size 28, the CRC of the record with a zero CRC, both packed versions |
| `VersionRecord.GeneratedAccepted` | uefi_capsule_generation/src/qcom_capsule_tool/SYSFW_VERSION_program.py:240-291 | every generated record, written and read back, is accepted and left as it was |
| `VersionRecord.AcceptedIff` | uefi_capsule_generation/src/qcom_capsule_tool/FVCreation.py:167-210 | acceptance is exactly: genuine, or right revision with a non-ASCII signature, or right revision and signature with a size beyond the record |
| `VersionRecord.CrcRestoredIff` | uefi_capsule_generation/src/qcom_capsule_tool/FVCreation.py:193-208 | the CRC field is left as it was unless the size is beyond the record, where zero is left in it |
| `VersionRecord.UnreadRecords` | uefi_capsule_generation/src/qcom_capsule_tool/FVCreation.py:184-208 | two concrete records that are accepted with a wrong CRC |
| `VersionRecord.VersionTampered` | uefi_capsule_generation/src/qcom_capsule_tool/FVCreation.py:193-201 | changing only the firmware version of a genuine record that covers it makes validation fail |
| `VersionRecord.LowestTampered` | uefi_capsule_generation/src/qcom_capsule_tool/FVCreation.py:193-201 | so does changing only the lowest supported version |
| `VersionRecord.GeneratedTampered` | uefi_capsule_generation/src/qcom_capsule_tool/FVCreation.py:193-201 | in particular for every generated record |
| `Partitions.ParsePartitionInfo` | uefi_capsule_generation/src/qcom_capsule_tool/UpdateFvXml.py:81-129 | the keep-or-replace loop over matched lines |
| `Partitions.TableKeeps` | uefi_capsule_generation/src/qcom_capsule_tool/UpdateFvXml.py:113-128 | for each name the table holds its first LUN-1 line if there is one and otherwise its first accepted line, on UFS; its last accepted line elsewhere; nothing if there is none |
| `Partitions.NamesAreKeys` | uefi_capsule_generation/src/qcom_capsule_tool/UpdateFvXml.py:113-128 | the table lists each of its keys exactly once |
| `Partitions.NamesInOrder` | uefi_capsule_generation/src/qcom_capsule_tool/UpdateFvXml.py:113-128 | names keep the order in which they were first entered |
| `Partitions.ListedIff` | uefi_capsule_generation/src/qcom_capsule_tool/UpdateFvXml.py:90-128 | a name is in the table if and only if some line for it has an image and is for LUN 1, 2 or 4, on UFS, or for no LUN, elsewhere |
| `Partitions.KeptFields` | uefi_capsule_generation/src/qcom_capsule_tool/UpdateFvXml.py:113-128 | the entry of a name has LUN, GUID and file name of the line that is kept: its first for LUN 1, or failing that its first, on UFS; its last elsewhere |
| `PartitionPairs.StartPair` | uefi_capsule_generation/src/qcom_capsule_tool/UpdateFvXml.py:145-157 | which pair an unseen name starts |
| `PartitionPairs.CollectPairs` | uefi_capsule_generation/src/qcom_capsule_tool/UpdateFvXml.py:140-158 | the pairing loop with its `seen` set |
| `PartitionPairs.NothingLost` | uefi_capsule_generation/src/qcom_capsule_tool/UpdateFvXml.py:142-158 | without a clash the `seen` set hides no pair |
| `PartitionPairs.AllPairsApart` | uefi_capsule_generation/src/qcom_capsule_tool/UpdateFvXml.py:132-158 | without a clash no name is in two pairs |
| `PartitionPairs.ClashReuses` | uefi_capsule_generation/src/qcom_capsule_tool/UpdateFvXml.py:145-157 | with a clash the matching pairs share a name |
| `PartitionPairs.PairingIff` | uefi_capsule_generation/src/qcom_capsule_tool/UpdateFvXml.py:132-158 | the loop yields every matching pair with no name used twice if and only if no `x_a`, `x_b` and `x_b_BACKUP` coexist |
| `PartitionPairs.AllPairsAre` | uefi_capsule_generation/src/qcom_capsule_tool/UpdateFvXml.py:145-157 | the matching pairs in terms of the names: `x_a` with `x_b` and base `x`, and `x` with `x_BACKUP` and base `x` where `x` is no backup and no first of two slots |
| `PartitionPairs.PrimariesFresh` | uefi_capsule_generation/src/qcom_capsule_tool/UpdateFvXml.py:142-158 | with or without a clash, the primary of a reported pair is in no pair reported before |
| `PartitionPairs.LeftOutUsed` | uefi_capsule_generation/src/qcom_capsule_tool/UpdateFvXml.py:142-158 | and a matching pair is left out only if its primary is in a reported one |

## Left out

- UefiRun.PatchUefiSegments: speaks of segments behind the header tables whose ranges do not overlap and in which, as in the headers, no digest is found; `UefiRun.TouchedSegmentIff` shows for one step that the condition cannot be dropped, `UefiHashes` speaks of the segment that holds the digests.
- UefiTrees.PatchUefiTree: the same conditions.
- WritesFit.StepSucceedsIff: for a segment behind the header tables in a file whose segments there do not overlap.
- WritesFit.RunSucceedsIff: the same, and no digest found in the headers or in a segment of one's choice.
- UefiReports.PatchUefiReports: for segments as in `UefiRun.PatchUefiSegments`.
- CapsuleBytes.DecodedFlags: for OEM flags below 2^16; `CapsuleBytes.FlagWordBit` is for any.
- UefiHashes.PatchUefiHashes: asks, in each state of the run, that the digests to be replaced are found in one segment or nowhere, there in the slot of a subject that changes alike or apart from all slots, and that the slot of a changed subject is where the search ends; `UefiHashes.TouchedSlots` shows the last to be necessary.
- UefiTableRun.PatchUefiTable: derives this from the image before the run, except that the digests which the header segment has in the course of the run are given as a set; it asks that whatever of their digests the slots hold, the digests looked up occur at slots only.
- XblRun.PatchXblSegments: asks in each state that no digest is found in the headers, in the metadata or in the segment spoken of, because the program searches the whole file.
- XblDigestRun.PatchXblHashes: asks in each state that every digest looked up is found in one segment or nowhere, in the slots of subjects that change alike or apart from all slots, no slot being left out, for slots of whole segments; slots of single device trees are not updated on this path.
- XblEffect.ReplaceContents: the metadata segment is in front of the segments of its items, and targets are not empty.
- SectionTable.SectionsFixedIff: the section table is wholly behind the spliced segment; one that begins inside it is replaced with it.
- RebuildScan.RescanIff: asks that patched trees are well formed and grow by multiples of 4, as libfdt promises.
- LastTree.FinalIsRebuiltIff: asks that no replacement is shorter than the tree it replaces, as libfdt promises.
- VersionRecord.LowestTampered: for records that declare the full 28 bytes; a shorter declared size does not cover the field.
- Extended numbering of program and section headers (`e_phnum` 0xffff, `e_shnum` 0), section names, and every other check pyelftools makes of a file.
- Negative values of the metadata segment index, which Python would count from the end.
- libfdt, SHA-384, openssl, lzma and `binascii`: foreign code; `binascii.crc32` is represented by the definition of the reflected CRC-32.
- Names in the metadata are kept as raw bytes, not decoded; device-tree model names and node paths in reports.
- Prefixes, signs and underscores that `int(p, 16)` accepts, and Unicode white space and digits.
- UUID text and numbers in JSON: GUIDs are 16 bytes, numbers are integers.
- The regular expressions for partition lines and version strings: the groups of a match are taken as given.
- The text printed by `--dump-info`; the decoder of the model also returns the drivers, the certificate and the payload that the printed lines only measure.
- Temporary files, `.xz` wrapping, reading and writing files, command lines, logging, and the exit status of the uefi_dtbs path; the counters and the end of the xbl_config path are modelled.
- `_encode_dtb_value` other than `@list:`, `detect_elf_type`, the unused `CalcCRC32`, `from_bytes` on files shorter than the record.
- `XmlFwEntryValidation.py`, `XmlParser.py`, `FVCreation_header.py`, `UpdateJsonParameters.py`, `create_config_json.py`, `capsule_creator.py`, `cli.py` and `uefi_sec.c`: tables, plumbing and system calls.
