# Gateway 3 utilities: a Dafny model

This project models the core of `scripts/gateway3utils.py`. The script burns
firmware onto the Xiaomi Gateway 3 (a Realtek SoC) over its serial boot
console. Its parts:

- **Checksums.** The 16-bit word checksum of a raw image
  (`calc_checksum_of_firmware`), and the "sum" label a boot slot records
  (`calc_sum_of_firmware`): a 4-byte-group heuristic overridden by two tables
  of known file names.
- **Boot-info record** (`calc_checksum_boot_info`). A 55-field record is
  filled from a configuration. A borrow-propagating checksum runs over fields
  6..54 into fields 4 and 5. The record is printed as `eb` memory pokes plus a
  fixed `NANDW`.
- **Container and wrapper formats.**
  - `extract_firmwares` follows the length chain of a full `MIOT` container
    from offset 0x2e03.
  - `generate_firmware_for_fw_update` wraps a raw image with a type tag, a
    length, padding and a checksum trailer.
  - The unwrap step drops the 16-byte head of a `cr6c`/`r6cr` image.
  - `generate_padded_firmware` checks the raw checksum and pads to a 128 KiB
    erase block with 0xFF.
- **Console commands.**
  - `convert_cmdline` emits `eb` lines.
  - `update_boot_info` emits two `boot_ctrl` lines.
  - Each of `burn_by_uart`, `burn_by_xmodem` and `burn_by_tftp` emits the
    commands of its transport.
- **Boot console negotiation.** `enter_bootrom_console_and_get_ready` and
  `wait_for_realtek_cli` classify the lines the console delivers.
- **The burn itself.** `burn_firmware` holds the partition table, the
  checks it makes before burning and the transport dispatch. `burn_all_firmwares` burns
  both images of a container, rewriting the shared `params` dictionary as it
  goes.

How the model represents the machine:

- Files are byte sequences.
- The serial console is a `Serial.Console` object: the lines it will still
  deliver (`input`) and the commands written to it so far (`log`).
- `params` is a `Settings.Params` object whose fields the burn methods assign.
  A key not yet set is `None`, and reading it raises.
- Each burn method is proved against a specification function on values
  (`XmodemBurn`, `TftpBurn`, `UartBurn`, `BurnAll`, `FirmwareBurn`). The
  function gives the final `Status`, the commands written, the lines left
  unread, and the new `params`.
  - `Done(ok)` is a return. For `XmodemBurn` and `TftpBurn`, `ok` is the
    truth of the returned value. `burn_by_uart`, `burn_all_firmwares` and
    `burn_firmware` return `None` on completion, so for `UartBurn`, `BurnAll`
    and `FirmwareBurn`, `Done(true)` means the function ran to its end and
    `Done(false)` means it returned early. After its dispatch, `FirmwareBurn`
    carries the status of the burn it called.
  - `Blocked` is running out of lines while the source would still wait on
    the console.
  - `Raised` is a Python exception: an odd-length image's IndexError, a
    missing `params` entry's KeyError, or a length read past the end of a
    container.

Modules, one per file:

- `wrappers.dfy`: `Option` and `Result`.
- `bytes.dfy`: `Bytes`, big-endian encodings.
- `text.dfy`: `Text`, Python string formatting and searching.
- `commands.dfy`: `Commands`, the console commands and `eb` chunking.
- `checksum.dfy`: `Checksum`.
- `bootinfo.dfy`: `BootInfo`.
- `container.dfy`: `Container`, which holds extract, wrap, unwrap and pad.
- `serial.dfy`: `Serial`.
- `uart.dfy`: `Uart`, the `burn_by_uart` loop.
- `params.dfy`: `Settings`.
- `provision.dfy`: `Provision`, the burn functions and `burn_firmware`.
- `properties.dfy`: `BurnProperties`, lemmas relating the burn functions.

## Where the code departs from its own description

The model follows the code in every case below:

- **`boot_ctrl set_<x>_newest`.** The command is built from `fw_type[:-1]`.
  For `kernel_0` it therefore reads `set_kernel__newest 0`, with two
  underscores. It is written straight after the size command, without waiting
  for the prompt (`Provision.NewestCommand`).
- **UART `NANDW` schedule.** The UART loop programs a page only after the
  `eb` at each positive multiple of 8192. The final partial page is never
  programmed (`Uart.UartCounts`).
- **UART first page.** The first `NANDW` follows the `eb` of bytes
  8192..8207, which lands at RAM `ddr_base + 8192`. It programs the 8 KiB at
  `ddr_base` (image bytes 0..8191) to flash `offset + 8192`. Bytes 8192..8207
  are therefore never programmed, and flash `offset .. offset + 8191` is never
  written (`Uart.FirstPageShifted`).
- **Second unwrap of container images.** `burn_all_firmwares` strips the
  first 16 bytes of each extracted image. The burn function it calls then
  applies its own unwrap step. When the stripped image starts with `cr6c` or
  `r6cr` (bytes 16..19 of the extracted image), it is stripped again and the
  file name gains a second `_raw` (`Container.StripTwice`).
- **TFTP size and boot info.** The TFTP burn programs the size of the
  unpadded image and never updates the boot info. Only the XMODEM burn does
  both with the padded size (`BurnProperties.TftpProgramsUnpadded`,
  `BurnProperties.XmodemProgramsPadded`).
- **UART offset.** The UART branch of `burn_firmware` never sets
  `params['offset']`. Its first `NANDW` therefore raises KeyError
  (`BurnProperties.UartWithoutOffsetFails`).
- **Temporary files.** They are not removed on every failure path. The model
  does not track files on disk.

## Model

| member | source | states |
|---|---|---|
| Text.HexDigitsShape | scripts/gateway3utils.py:44 | the digits `hex(n)` prints after `0x` are lowercase hex digits, with no leading zero when n > 0 |
| Text.HexRoundTrip | scripts/gateway3utils.py:44 | reading the digits of `hex(n)` back with `int(_, 16)` gives n |
| Text.Fmt02xByte | scripts/gateway3utils.py:43 | `'{:02x}'` of a byte is exactly two hex digits that read back as the byte |
| Text.Fields | scripts/gateway3utils.py:43 | formatting values gives one field per value |
| Text.JoinSpacedSlice | scripts/gateway3utils.py:43 | `" ".join` of two-character fields has length 3n-1, holds field k at position 3k and a space after every field but the last |
| Text.JoinHexBytes | scripts/gateway3utils.py:43 | in the data text of an `eb` line, byte k can be read back from characters 3k..3k+2 |
| Text.Decimal | scripts/gateway3utils.py:443 | `'{}'.format(n)` is a non-empty string of decimal digits with no leading zero |
| Text.DecimalRoundTrip | scripts/gateway3utils.py:443 | the decimal size in a `boot_ctrl` line reads back as the size |
| Text.ContainsIff | scripts/gateway3utils.py:110 | Python's `t in s` holds exactly when t occurs in s at some index |
| Text.Basename | scripts/gateway3utils.py:110 | `os.path.basename` is the suffix after the last `/`: it holds no `/` and is all of p or preceded by `/` |
| Text.BasenamePlain | scripts/gateway3utils.py:748 | a name without `/` is its own base name |
| Text.Last2 | scripts/gateway3utils.py:789 | `s[-2:]` is the last two characters, or all of s when shorter |
| Text.DropLast | scripts/gateway3utils.py:447 | `s[:-1]` is s without its last character |
| Text.LastChar | scripts/gateway3utils.py:447 | `s[-1:]` is the last character, or empty |
| Text.ReplaceAllRemoves | scripts/gateway3utils.py:442 | `replace('_', '')` leaves no underscore |
| Text.Ords | scripts/gateway3utils.py:43 | `ord(c)` for every character, in order |
| Bytes.BeValueUpTo4Agrees | scripts/gateway3utils.py:311-312 | `int(f_in.read(4).hex(), 16)` of up to four bytes is their big-endian value |
| Bytes.Be16 | scripts/gateway3utils.py:418-419 | the two-byte big-endian form of a 16-bit value reads back as it |
| Bytes.Be32 | scripts/gateway3utils.py:290-291 | `to_bytes(4, 'big')` is four bytes that read back as the value |
| Bytes.Masked32 | scripts/gateway3utils.py:190-198 | the four bytes `(v >> 8(i-1)) & 0xff`, i = 4..1, read back as v mod 2^32 |
| Bytes.Masked16 | scripts/gateway3utils.py:200-208 | the two checksum bytes read back as v mod 2^16 |
| Bytes.Fill | scripts/gateway3utils.py:288 | a padding list of n copies of one byte |
| Checksum.Invert16 | scripts/gateway3utils.py:64 | `(0x10000 - (sum & 0xffff)) & 0xffff` is a 16-bit value that completes sum to a multiple of 0x10000 |
| Checksum.ImageChecksum | scripts/gateway3utils.py:47-64 | the checksum exists exactly for an even-length file (odd raises at `raw[i+1]`), is 16-bit, and completes the big-endian word sum to a multiple of 0x10000 |
| Checksum.CalcChecksumOfFirmware | scripts/gateway3utils.py:54-64 | the two-bytes-at-a-time loop computes exactly that checksum, or fails on odd length |
| Checksum.WordSumAppend | scripts/gateway3utils.py:57-59 | the word sum of two even-length pieces is the sum of their word sums |
| Checksum.ChecksumTrailerWord | scripts/gateway3utils.py:418-420 | appending the checksum as a big-endian 16-bit word makes the checksum of the result 0, the raw form padding accepts |
| Checksum.WordSumBe32 | scripts/gateway3utils.py:294-295 | a 16-bit checksum written as four big-endian bytes adds itself to the word sum |
| Checksum.ChecksumTrailerLong | scripts/gateway3utils.py:293-295 | appending zero padding and the 4-byte `00 00 hi lo` checksum also makes the checksum 0 |
| Checksum.WordSumBe16 | scripts/gateway3utils.py:58-59 | a 16-bit word written big-endian contributes its value to the word sum |
| Checksum.CompletedSum | scripts/gateway3utils.py:64 | a word sum that is a multiple of 0x10000 has checksum 0 |
| Checksum.SumStep | scripts/gateway3utils.py:91-103 | one 4-byte group lowers `nsum` by 0, 1 or 2 |
| Checksum.Heuristic | scripts/gateway3utils.py:84-103 | definition of the 4-byte-group countdown from 0xffff; its properties are in `Checksum.SumStep`, `Checksum.HeuristicFromBounds`, `Checksum.HeuristicBounds` and `Checksum.HeuristicOfZeros` |
| Checksum.HeuristicFromBounds | scripts/gateway3utils.py:87-103 | the heuristic only counts down, by at most two per 4-byte group (a short last group included) |
| Checksum.HeuristicBounds | scripts/gateway3utils.py:84-103 | from the seed 0xffff, the heuristic stays within 2 per group below it |
| Checksum.HeuristicOfZeros | scripts/gateway3utils.py:96-103 | an all-zero file never triggers a decrement |
| Checksum.FirstMatchSpec | scripts/gateway3utils.py:109-112 | the table loop finds nothing exactly when no key occurs in the name, and otherwise the value of the first key in declared order that occurs |
| Checksum.FirstMatchUnique | scripts/gateway3utils.py:109-112 | that first match is unique |
| Checksum.Chosen | scripts/gateway3utils.py:109-117 | definition of the two table lookups over the basename; its properties are in `Checksum.ChosenModified`, `Checksum.ChosenOfficial` and `Checksum.ChosenHeuristic` |
| Checksum.ChosenModified | scripts/gateway3utils.py:114-117 | a key of the modified table that occurs in the name decides, whatever the official table matched |
| Checksum.ChosenOfficial | scripts/gateway3utils.py:109-117 | without a modified hit, the first official key occurring decides |
| Checksum.ChosenHeuristic | scripts/gateway3utils.py:83-117 | without any table hit, the heuristic's value is kept |
| Checksum.SumLabel | scripts/gateway3utils.py:67-121 | definition of the result of `calc_sum_of_firmware`; its properties are in `Checksum.SumLabelIs16Bit`, `Checksum.SumLabelExample` and the `Checksum.Chosen*` rows |
| Checksum.SumLabelIs16Bit | scripts/gateway3utils.py:121 | every result is `0x` followed by the lowercase hex of a value below 0x10000 |
| Checksum.SumLabelExample | scripts/gateway3utils.py:70 | `linux_1.4.7_0065.bin` yields `0xcb43` whatever its contents |
| Checksum.CalcSumOfFirmware | scripts/gateway3utils.py:67-121 | the heuristic loop and the two lookups compute the specified label |
| Checksum.Lookup | scripts/gateway3utils.py:109-112 | the `for ... if key in name: break` loop returns the first match |
| BootInfo.SlotOf | scripts/gateway3utils.py:137-164 | each field index 10..37 belongs to the slot record whose seven fields cover it |
| BootInfo.Populated | scripts/gateway3utils.py:126-217 | the record has 55 fields in declaration order |
| BootInfo.PopulatedLayout | scripts/gateway3utils.py:190-217 | each slot's size is packed most-significant byte first into `_1.._4` and reads back mod 2^32; its checksum goes into `_1.._2` and reads back mod 2^16; its fail count is copied; fields 6..9 hold the configured `kernel_curr`, `rootfs_curr`, `kernel_newest` and `rootfs_newest`; fields 0..5 and 38..54 keep their defaults |
| BootInfo.PopulatedSlotField | scripts/gateway3utils.py:190-212 | field `off` of slot s is byte 3-off of its size, byte 5-off of its checksum, or its fail count |
| BootInfo.Finalized | scripts/gateway3utils.py:219-233 | the checksum loop changes only fields 4 and 5 |
| BootInfo.Accumulate | scripts/gateway3utils.py:221-233 | definition of the borrow loop's accumulator pair after each index; its properties are in `BootInfo.AccumulateWord`, `BootInfo.AccumulateBounds` and `BootInfo.SeededChecksum` |
| BootInfo.AccumulateWord | scripts/gateway3utils.py:221-233 | the loop invariant: 256*hi + lo plus the weighted field sum equals the seed plus 0xffff per even-round borrow (unbounded ints) |
| BootInfo.AccumulateBounds | scripts/gateway3utils.py:221-233 | with byte fields, an even index leaves `values[4]` in 0..255 and an odd index leaves `values[5]` in 0..255; the other either stays or drops by exactly 1, never below -1 |
| BootInfo.FinalChecksumBytes | scripts/gateway3utils.py:221-235 | the record after the loop holds only bytes, so each field prints as two hex digits |
| BootInfo.SeededChecksum | scripts/gateway3utils.py:131-132 | from the seed `ff ff`, the final checksum word plus the word sum of fields 6.. is a multiple of 0xffff |
| BootInfo.SwapPair | scripts/gateway3utils.py:221-233 | exchanging fields 2m and 2m+1 swaps their values and keeps every other field |
| BootInfo.WeightedSwap | scripts/gateway3utils.py:221-233 | the exchange changes the word sum by 256 or 255 times the difference of the two values, depending on how many of them are counted |
| BootInfo.SwapChangesChecksum | scripts/gateway3utils.py:221-233 | the checksum depends on field order: exchanging two distinct byte values of one word changes the final pair in fields 4 and 5 |
| BootInfo.ByteDiffNotMultiple | scripts/gateway3utils.py:221-233 | 255 times a nonzero byte difference is not a multiple of 0xffff, which is why a swap always shows |
| BootInfo.DefaultRecordBytes | scripts/gateway3utils.py:126-183 | the default record has 55 byte-valued fields |
| BootInfo.PopulatedBytes | scripts/gateway3utils.py:184-217 | byte-valued configuration entries give a byte-valued record with seed `ff ff` and zero reserved tail |
| BootInfo.BootRecordChecksum | scripts/gateway3utils.py:219-235 | for such a configuration, the printed record is all bytes and its checksum complements the word sum |
| BootInfo.BootInfoScript | scripts/gateway3utils.py:124-246 | definition of the script `calc_checksum_boot_info` returns; its properties are in `BootInfo.BootInfoScriptShape`, `BootInfo.BootRecordChecksum` and `BootInfo.CalcChecksumBootInfo` |
| BootInfo.BootInfoScriptShape | scripts/gateway3utils.py:242-246 | the script is four `eb` lines at 0xa0a00000 + 16k, each with chunk k of the final record, then `NANDW 0xa0000 0xa0a00000 55` |
| BootInfo.CalcChecksumBootInfo | scripts/gateway3utils.py:124-246 | the whole function computes the specified script, or `""` without a configuration |
| BootInfo.FormatPokes | scripts/gateway3utils.py:242-245 | the string-building loop yields the `eb` lines of the array, in order |
| BootInfo.PopulateRecord | scripts/gateway3utils.py:190-217 | the record array built by the assignments equals the specified record |
| BootInfo.WriteSizeBytes | scripts/gateway3utils.py:190-198 | the size loop performs its 16 assignments |
| BootInfo.SetSizeByte | scripts/gateway3utils.py:191-198 | one size assignment |
| BootInfo.SizeWriteElsewhere | scripts/gateway3utils.py:190-198 | a size assignment changes no other field |
| BootInfo.WriteChecksumBytes | scripts/gateway3utils.py:200-208 | the checksum loop performs its 8 assignments |
| BootInfo.SetChecksumByte | scripts/gateway3utils.py:201-208 | one checksum assignment |
| BootInfo.ChecksumWriteElsewhere | scripts/gateway3utils.py:200-208 | a checksum assignment changes no other field |
| BootInfo.WriteSingleFields | scripts/gateway3utils.py:209-217 | the fail counts and slot pointers are copied unmasked |
| BootInfo.SetSingleField | scripts/gateway3utils.py:209-217 | one `boot_info[key] = conf.get(key, 0x0)` |
| BootInfo.SingleWriteElsewhere | scripts/gateway3utils.py:209-217 | a single-value assignment changes no other field |
| BootInfo.SingleWriteHere | scripts/gateway3utils.py:209-217 | a single-value assignment leaves its field holding the configuration value |
| BootInfo.ApplyBorrow | scripts/gateway3utils.py:219-233 | the in-place loop over `values` leaves the specified final record |
| Commands.Chunk | scripts/gateway3utils.py:43 | `vs[i:i+16]` is the next up-to-16 values, empty past the end |
| Commands.Chunks | scripts/gateway3utils.py:42 | one chunk per iteration of `range(0, len, 16)` |
| Commands.EbLines | scripts/gateway3utils.py:243-245 | one `eb` line per chunk |
| Commands.EbLinesAt | scripts/gateway3utils.py:243-245 | line k pokes `vs[16k:16k+16]` at base + 16k |
| Commands.ChunksReassemble | scripts/gateway3utils.py:42-43 | the chunks, concatenated, give back the values |
| Commands.ChunksTail | scripts/gateway3utils.py:42-43 | the chunks after the first are the chunks of what follows the first 16 values |
| Commands.ChunkCovers | scripts/gateway3utils.py:42-43 | every value lands in chunk p/16 at offset p%16 |
| Commands.ConcatAppend | scripts/gateway3utils.py:245 | the accumulated string of two runs of lines is their concatenation |
| Commands.ConvertCmdline | scripts/gateway3utils.py:32-44 | definition of the `eb` lines of `convert_cmdline`; its properties are in `Commands.TerminatedCmdline`, `Commands.EbLinesCarry` and `Commands.ConvertCmdlinePokes` |
| Commands.TerminatedCmdline | scripts/gateway3utils.py:35-41 | a cmdline of length at most 1 becomes the default; the result always ends in NUL, which is added only when missing |
| Commands.EbLinesCarry | scripts/gateway3utils.py:42-44 | value p is carried by line p/16 at offset p%16 |
| Commands.ConvertCmdlinePokes | scripts/gateway3utils.py:32-44 | every character of the terminated cmdline is poked by line p/16 at 0x81f00000 + 16(p/16), and the last poked value is 0 |
| Container.ReadLength | scripts/gateway3utils.py:311-312 | a length can be read exactly when its position is inside the file; past the end, `int('', 16)` raises |
| Container.ReadLengthAt | scripts/gateway3utils.py:311-312 | a 4-byte big-endian length reads back as itself |
| Container.ReadAtPayload | scripts/gateway3utils.py:317-318 | reading a payload's length at its position returns the payload |
| Container.SectionImage | scripts/gateway3utils.py:315-318 | a section exists exactly when its position is inside the file |
| Container.LengthSection | scripts/gateway3utils.py:304-305 | a skipped section is its 4-byte length and its body |
| Container.ImageSection | scripts/gateway3utils.py:305 | an image section is its length, a 6-byte header and the image |
| Container.LengthSectionRead | scripts/gateway3utils.py:311-312 | a skipped section's length reads back as its full size |
| Container.ImageSectionRead | scripts/gateway3utils.py:315-318 | an image section yields exactly its image, unmodified |
| Container.Extract | scripts/gateway3utils.py:300-336 | definition of `extract_firmwares` as a result; its properties are in `Container.ExtractBuilt`, `Container.ExtractLayout`, `Container.ExtractOfLinks` and `Container.ExtractMagics` |
| Container.ExtractBuilt | scripts/gateway3utils.py:307-336 | for any container built from its sections, extraction returns the kernel and rootfs unmodified, or fails on the first missing `cr6c`/`r6cr` magic |
| Container.ExtractLayout | scripts/gateway3utils.py:307-336 | the same for any file holding the four sections at the offsets the length chain gives from 0x2e03 |
| Container.LinkAt | scripts/gateway3utils.py:313-322 | one link of the chain yields its image and the next position, or fails on a bad magic |
| Container.ExtractOfLinks | scripts/gateway3utils.py:323-336 | extraction is the kernel link, then the rootfs link |
| Container.BuiltLayout | scripts/gateway3utils.py:303-305 | where each section of a built container lies |
| Container.ChainImageOf | scripts/gateway3utils.py:313-320 | a link is the length read at pos, then the image section after it |
| Container.ExtractMagics | scripts/gateway3utils.py:319-333 | extracted images carry their magics and are the sections the length chain points at |
| Container.ChainImageOk | scripts/gateway3utils.py:319-320 | a successful link carries its magic |
| Container.Tag | scripts/gateway3utils.py:251-260 | a known type's tag is non-empty |
| Container.TagLengths | scripts/gateway3utils.py:251-260 | tags are 12 bytes for most types, 10 for `ota-file test` and 8 for `cert`, and the header tag starts with `MIOT` |
| Container.AlignSize | scripts/gateway3utils.py:261-266 | alignment is 0x800 exactly for the rootfs slots, 0x200 otherwise (the default too) |
| Container.PadCount | scripts/gateway3utils.py:284-287 | the padding is below the alignment and brings the size to a multiple of it |
| Container.Head16 | scripts/gateway3utils.py:275 | `f_in.read(16)` is the first min(16, size) bytes |
| Container.WrapForUpdate | scripts/gateway3utils.py:268-295 | as written: refuses an unknown type, then an already wrapped file, raises on odd length, then on a length beyond 32 bits, and succeeds otherwise. The output reads back as the tag, the declared length as 4 big-endian bytes, the 16-byte head only as payload, then nothing when the checksum is 0, or else zeros up to the declared length ending in the 4-byte checksum |
| Container.WrapLayoutOf | scripts/gateway3utils.py:281-295 | what the wrapper writes reads back field by field: tag, length, payload, then padding and checksum exactly when the checksum is non-zero |
| Container.TrailerAfter | scripts/gateway3utils.py:282-295 | the trailer written after the payload is the zero padding followed by four bytes that read back as the checksum |
| Container.WrapForUpdateWhole | scripts/gateway3utils.py:268-295 | corrected: the same refusals and errors, and the same read-back layout with the whole file as payload |
| Container.WrapPadding | scripts/gateway3utils.py:282-287 | the wrapper's padding aligns the size to the type's alignment |
| Container.WrapIdempotent | scripts/gateway3utils.py:276-278 | wrapping a wrapped kernel or rootfs again produces nothing (`It is ready for fw_update!`) |
| Container.WrapForUpdateIdempotent | scripts/gateway3utils.py:276-278 | the as-written wrapper is idempotent in the same way |
| Container.WrapForUpdateDropsPayload | scripts/gateway3utils.py:290-295 | as written, the declared length exceeds the bytes after the length field by `size - 16` |
| Container.WrapForUpdateExample | scripts/gateway3utils.py:275-295 | a concrete 32-byte `linux_0` image whose output is 16 bytes shorter than its length field says |
| Container.ExampleFile | scripts/gateway3utils.py:276 | that image is not wrapped and has checksum 0xff00 |
| Container.WrapWholeLength | scripts/gateway3utils.py:290-295 | the corrected wrapper's declared length is exactly what follows the length field |
| Container.Strip16 | scripts/gateway3utils.py:783-786 | `seek(16); read()` is the file after its first 16 bytes |
| Container.Unwrap | scripts/gateway3utils.py:455-460 | definition of the wrapped-image unwrap step; its properties are in `Container.UnwrapWrapped`, `Container.UnwrapChecksumZero`, `Container.UnwrapRaw`, `Container.StripExtracted` and `Container.PadAfterUnwrap` |
| Container.UnwrapWrapped | scripts/gateway3utils.py:455-460 | unwrapping the corrected wrapper's output names the file `<name>_raw` and gives back the image with its padding and checksum trailer |
| Container.UnwrapChecksumZero | scripts/gateway3utils.py:455-460 | that unwrapped image has checksum 0 |
| Container.StripWhole | scripts/gateway3utils.py:456-459 | the corrected wrapper's first 16 bytes are exactly its 12-byte tag and length field |
| Container.MagicWrapped | scripts/gateway3utils.py:457 | a file starting with `cr6c` or `r6cr` counts as wrapped |
| Container.UnwrapRaw | scripts/gateway3utils.py:455-460 | a file without an image magic keeps its name and contents |
| Container.StripExtracted | scripts/gateway3utils.py:783-802 | the unconditional `seek(16)` of `burn_all_firmwares` on an extracted kernel or rootfs gives the same bytes, and the same `_raw` name, as the unwrap step would, since extracted images always start with their magic |
| Container.StripTwice | scripts/gateway3utils.py:543-548 | the burn function unwraps the already stripped image once more when bytes 16..19 of the extracted image are `cr6c` or `r6cr`: it is renamed `<name>_raw` and loses 32 bytes in all |
| Container.PaddedFirmware | scripts/gateway3utils.py:414-435 | padding succeeds exactly for an even-length image with checksum 0 (odd raises, non-zero returns False); the result keeps the image as a prefix, is a whole number of 0x20000-byte erase blocks, adds less than one block, and pads with 0xFF |
| Container.PadAfterTrailer | scripts/gateway3utils.py:418-420 | an image with its checksum word appended is accepted for padding |
| Container.PadAfterUnwrap | scripts/gateway3utils.py:455-462 | the corrected wrapper's output, once unwrapped, is accepted for padding |
| Serial.Console.constructor | scripts/gateway3utils.py:467 | a fresh console delivers the given lines and has nothing written |
| Serial.Console.Write | scripts/gateway3utils.py:362 | a write appends one command to the log |
| Serial.Console.ReadLine | scripts/gateway3utils.py:350 | `read_until()` consumes the next line, or none once the stream has ended |
| Serial.Console.Drain | scripts/gateway3utils.py:382-383 | `read(in_waiting)` drops the buffered lines |
| Serial.HandshakeFrom | scripts/gateway3utils.py:363-377 | definition of the wake-up loop's verdict from line i on; its properties are in `Serial.HandshakeFromSpec`, `Serial.HandshakeSpec` and `Serial.HandshakeAt` |
| Serial.HandshakeFromSpec | scripts/gateway3utils.py:363-377 | the wake-up loop stops at the first deciding line, reporting boot text exactly when that line holds it |
| Serial.HandshakeSpec | scripts/gateway3utils.py:363-377 | the loop fails exactly when a line with `rlxlinux login` or `Linux version` is read no later than the first banner; it succeeds on the first banner line otherwise (within one line the failure test wins); it finds nothing only when no line decides |
| Serial.HandshakeAt | scripts/gateway3utils.py:363-377 | the verdict once the lines before k did not decide and line k is known |
| Serial.WaitCli | scripts/gateway3utils.py:348-352 | definition of the index of the prompt line `wait_for_realtek_cli` stops at; its properties are in `Serial.WaitCliFrom`, `Serial.WaitCliFromSpec` and `Serial.WaitForRealtekCli` |
| Serial.WaitCliFrom | scripts/gateway3utils.py:350-352 | a found prompt line lies after the start and holds `<RealTek>` |
| Serial.WaitCliFromSpec | scripts/gateway3utils.py:350-352 | the wait stops at the first `<RealTek>` line, and finds none only when no line holds it |
| Serial.Us | scripts/gateway3utils.py:362-364 | n writes of `u` |
| Serial.BootromSession | scripts/gateway3utils.py:355-397 | definition of the outcome, writes and unread lines of `enter_bootrom_console_and_get_ready`; its properties are in `Serial.SessionWrites`, `Serial.SessionFailsIff`, `Serial.SessionConsumesPrompt` and `Serial.EnterBootromConsole` |
| Serial.SessionWrites | scripts/gateway3utils.py:355-397 | on failure only `u` keys were written; on success the keys were followed by exactly `\n`, `\n`, `dbgmsg 3\n`, `ri 0 1 1\n` |
| Serial.SessionFailsIff | scripts/gateway3utils.py:374-375 | the session returns False exactly when boot text is read before any banner |
| Serial.SessionConsumesPrompt | scripts/gateway3utils.py:392 | a successful session leaves the lines after the first `<RealTek>` that follows the banner |
| Serial.WaitForRealtekCli | scripts/gateway3utils.py:348-352 | the read loop consumes lines up to and including the first prompt line and writes nothing |
| Serial.EnterBootromConsole | scripts/gateway3utils.py:355-397 | the method's outcome, writes and unread lines are those of the specified session |
| Uart.UartLog | scripts/gateway3utils.py:504-521 | definition of everything the UART loop writes; its properties are in `Uart.UartCarries`, `Uart.UartCounts`, `Uart.FirstPageShifted` and `Uart.ProgramByEb` |
| Uart.WrittenNext | scripts/gateway3utils.py:504-521 | each iteration appends its own commands after those of the earlier ones |
| Uart.PageTest | scripts/gateway3utils.py:512 | `i % 8192 == 0 and int(i/8192) >= 1` holds for `i = 16k` exactly at the page boundaries |
| Uart.OffsetStep | scripts/gateway3utils.py:510-519 | j is reset to 0 after a page and advances by 16 otherwise |
| Uart.EbWindow | scripts/gateway3utils.py:507-519 | up to the first page the pokes use the initial base with j <= 8192; after it they use 0x81000000 with j < 8192 |
| Uart.UartCarries | scripts/gateway3utils.py:505-508 | iteration k's `eb` line pokes chunk k at base + j, and each of its bytes reads back from its data text |
| Uart.NandwText | scripts/gateway3utils.py:513-515 | a command prints starting with `NANDW ` exactly when it is a flash-program command |
| Uart.CountNandwAppend | scripts/gateway3utils.py:504-521 | `NANDW` counts add over concatenated logs |
| Uart.CountNandwNone | scripts/gateway3utils.py:504-521 | a log without `NANDW` commands counts 0 |
| Uart.SegmentNandw | scripts/gateway3utils.py:512-519 | an iteration writes one `NANDW` exactly when it ends a page |
| Uart.PagesClosed | scripts/gateway3utils.py:512 | m iterations contain (m-1)/512 page boundaries |
| Uart.CountWrittenBy | scripts/gateway3utils.py:504-521 | iterations of one `NANDW` per page boundary write as many `NANDW`s as boundaries |
| Uart.LogNandw | scripts/gateway3utils.py:504-521 | the first k iterations hold one `NANDW` per page boundary among them |
| Uart.FirstPageShifted | scripts/gateway3utils.py:505-519 | the first `NANDW` comes right after the `eb` of chunk 512 at `ddr_base + 8192` and programs the page at `ddr_base` to flash `offset + 8192`; no `NANDW` targets a flash address below `offset + 8192` |
| Uart.UartCounts | scripts/gateway3utils.py:504-521 | with an offset, the loop runs ceil(n/16) times and writes ceil(n/8192)-1 `NANDW`s for an n-byte image |
| Uart.LoopStep | scripts/gateway3utils.py:510-519 | how j and `ddr_base` move from one iteration to the next |
| Uart.ChunkSlice | scripts/gateway3utils.py:505 | chunk k is the slice `raw[i:i+16]` at i = 16k |
| Uart.LoopGuard | scripts/gateway3utils.py:504 | a loop index inside the image is a running iteration, and without an offset the 513th iteration is a page boundary |
| Uart.ProgramChunk | scripts/gateway3utils.py:505-519 | one iteration writes its `eb` (and at a boundary `NANDW`, `y`, newline) and moves `ddr_base` and j, or raises KeyError at a boundary without offset |
| Uart.ProgramByEb | scripts/gateway3utils.py:504-521 | the loop writes the specified schedule and completes exactly when no KeyError arises; with no `ddr_base` only an empty image passes |
| Uart.ProgramFrom | scripts/gateway3utils.py:504-521 | the loop from a known `ddr_base`, with the final base |
| Settings.Params.constructor | scripts/gateway3utils.py:985-991 | `main` sets the file, type and transport flags and no other modelled key |
| Provision.DictGet | scripts/gateway3utils.py:837 | `dict.get` finds nothing exactly when no entry has the key, and otherwise the value of the first entry with it |
| Provision.PartitionOffsetKnown | scripts/gateway3utils.py:815-828 | a type has an offset exactly when it is one of the twelve names, with the offset declared beside it; `bootloader` is known with offset 0 |
| Provision.DictGetAt | scripts/gateway3utils.py:837 | the first entry with the key gives the lookup its value |
| Provision.PartitionOffsetAt | scripts/gateway3utils.py:815-837 | a table entry is found when every earlier name differs from it |
| Provision.ContainerOffsetsOfSlots | scripts/gateway3utils.py:859-862 | `all_0` selects 0x00200000/0x00500000 and `all_1` selects 0x01e00000/0x02100000 |
| Provision.ContainerOffsetsOther | scripts/gateway3utils.py:859-862 | any other suffix gives offset 0, the bootloader's, for both images |
| Provision.ReplaceAllKeepsOut | scripts/gateway3utils.py:442 | a replacement that introduces no c keeps a string free of c |
| Provision.BootCtrlLines | scripts/gateway3utils.py:438-448 | definition of the two `boot_ctrl` commands; its properties are in `Provision.BootCtrlShape`, `Provision.NewestCommand` and `Provision.UpdateBootInfo` |
| Provision.BootCtrlShape | scripts/gateway3utils.py:441-448 | the slot of the first command has no underscore; the second command splits the type into `fw_type[:-1]` and `fw_type[-1:]` |
| Provision.ReplaceAllAbsent | scripts/gateway3utils.py:442 | `replace('linux', 'kernel')` leaves a string without `l` unchanged |
| Provision.ReplaceAllSplit | scripts/gateway3utils.py:442 | removing underscores around one underscore removes it and works on both sides |
| Provision.StripSuffixUnderscore | scripts/gateway3utils.py:442 | `name_N` becomes `nameN` |
| Provision.SlotNameKernel | scripts/gateway3utils.py:442 | `linux_N` and `kernel_N` both name boot slot `kernelN` |
| Provision.SlotNameRootfs | scripts/gateway3utils.py:442 | `rootfs_N` names boot slot `rootfsN` |
| Provision.NewestCommand | scripts/gateway3utils.py:446-447 | the second command for `name_N` is `boot_ctrl set_name__newest N`, with two underscores |
| Provision.UpdateBootInfo | scripts/gateway3utils.py:438-448 | the two `boot_ctrl` commands are written in order |
| Provision.AfterPrompt | scripts/gateway3utils.py:350-352 | what is left after the wait is the suffix following a line that holds the prompt |
| Provision.AwaitPrompt | scripts/gateway3utils.py:348-352 | the wait method consumes exactly those lines |
| Provision.GeneratePaddedFirmware | scripts/gateway3utils.py:414-435 | the checksum test and padding compute the specified padded image |
| Provision.Prepare | scripts/gateway3utils.py:543-552 | the unwrap renames `fwfile` to `<fwfile>_raw` for a wrapped image and gives the image that is then padded |
| Provision.FlasherSession | scripts/gateway3utils.py:584-608 | definition of the flasher download; its properties are in `Provision.FlasherSessionSpec` and `Provision.DownloadFlasher` |
| Provision.FlasherSessionSpec | scripts/gateway3utils.py:584-608 | the flasher download starts exactly when the handshake succeeds and fails exactly on boot text (writing only `u`); a started flasher got the ready commands, `xmrx 0xa0000000`, the kick and `j a0000000`, in order |
| Provision.DownloadFlasher | scripts/gateway3utils.py:584-608 | the method performs the specified download |
| Provision.EnsureFlasher | scripts/gateway3utils.py:584 | nothing happens inside the flasher, and the download happens otherwise |
| Provision.XmodemSend | scripts/gateway3utils.py:612-640 | a transfer can only succeed with a `ddr_base` set |
| Provision.XmodemSendStep | scripts/gateway3utils.py:612-640 | the kick, prompt wait, `xmod <ddr_base>` and `Rx len=` test |
| Provision.XmodemProgramStep | scripts/gateway3utils.py:644-652 | `NANDW`, confirm, prompt wait and boot-info update |
| Provision.XmodemBurn | scripts/gateway3utils.py:533-657 | definition of `burn_by_xmodem` as a run; its properties are in `Provision.BurnByXmodem`, `BurnProperties.XmodemProgramsPadded` and `BurnProperties.XmodemProgramsOnce` |
| Provision.XmodemInFlasher | scripts/gateway3utils.py:612-657 | the transfer, then programming when it succeeded |
| Provision.BurnByXmodem | scripts/gateway3utils.py:533-657 | `burn_by_xmodem` writes, consumes, returns and renames as specified |
| Provision.TftpFetch | scripts/gateway3utils.py:747-751 | a fetch can only succeed with a `ddr_base` set |
| Provision.TftpFetchStep | scripts/gateway3utils.py:747-751 | the `tftp <ddr_base> <basename>_padding` command and the prompt wait |
| Provision.TftpProgramStep | scripts/gateway3utils.py:755-760 | `NANDW` of the unpadded size, then confirm |
| Provision.TftpBurn | scripts/gateway3utils.py:670-763 | definition of `burn_by_tftp` as a run; its properties are in `Provision.BurnByTftp` and `BurnProperties.TftpProgramsUnpadded` |
| Provision.TftpInFlasher | scripts/gateway3utils.py:742-763 | the fetch, then programming when it succeeded |
| Provision.BurnByTftp | scripts/gateway3utils.py:670-763 | `burn_by_tftp` writes, consumes, returns and renames as specified |
| Provision.UartBurn | scripts/gateway3utils.py:451-530 | definition of `burn_by_uart` as a run; its properties are in `Provision.BurnByUart`, `BurnProperties.UartFlashFails` and `BurnProperties.UartWithoutOffsetFails` |
| Provision.UartInFlasher | scripts/gateway3utils.py:497-521 | the newline, the prompt wait, then the `eb`/`NANDW` loop, with the final `ddr_base` |
| Provision.BurnByUart | scripts/gateway3utils.py:451-530 | `burn_by_uart` writes, consumes, ends and updates `params` as specified |
| Provision.TransportBurn | scripts/gateway3utils.py:791-794 | definition of the transport choice inside `burn_all_firmwares`; its properties are in `Provision.BurnByTransport` and `BurnProperties.TransportKeepsEntries` |
| Provision.BurnByTransport | scripts/gateway3utils.py:791-794 | tftp when set, else xmodem when set, else nothing |
| Provision.StageBurn | scripts/gateway3utils.py:788-794 | definition of one container stage; its properties are in `Provision.BurnStage` and `BurnProperties.StageEntries` |
| Provision.BurnStage | scripts/gateway3utils.py:788-794 | one container stage rewrites `fwfile`, `fwtype` and `offset`, then burns |
| Provision.BurnAll | scripts/gateway3utils.py:766-809 | definition of `burn_all_firmwares` as a run; its properties are in `Provision.BurnAllFirmwares`, `BurnProperties.BurnAllBurnsBoth` and `BurnProperties.BurnAllChecks` |
| Provision.BurnAllFirmwares | scripts/gateway3utils.py:766-809 | `burn_all_firmwares` as specified: the checks, then kernel and rootfs stages |
| Provision.DispatchBurn | scripts/gateway3utils.py:857-884 | definition of the dispatch of `burn_firmware`; its properties are in `Provision.Dispatch`, `Provision.DispatchContainer`, `BurnProperties.SingleImageOffset` and `BurnProperties.ContainerSlots` |
| Provision.DispatchContainer | scripts/gateway3utils.py:858-863 | a container sets both slot offsets, then burns all of it |
| Provision.Dispatch | scripts/gateway3utils.py:857-884 | tftp before xmodem before UART; a single image gets its table offset |
| Provision.FirmwareBurn | scripts/gateway3utils.py:837-884 | definition of `burn_firmware` as a run; its properties are in `Provision.BurnFirmware` and `BurnProperties.FirmwareBurnChecks` |
| Provision.BurnFirmware | scripts/gateway3utils.py:837-884 | `burn_firmware` as specified: the checks, `ddr_base`, then the dispatch |
| BurnProperties.BadImageWritesNothing | scripts/gateway3utils.py:462-464 | an image that fails padding is never burned by any transport: nothing is written; raised exactly for odd length, else False |
| BurnProperties.XmodemProgramsPadded | scripts/gateway3utils.py:623-652 | a completed XMODEM burn ends by programming the padded image (whole erase blocks, less than one block of padding) at the offset from `ddr_base`, confirming, and recording in the boot info the padded size and the sum label of the unpadded image |
| BurnProperties.FlasherWritesNoNandw | scripts/gateway3utils.py:584-608 | starting the flasher writes no `NANDW` |
| BurnProperties.XmodemSendText | scripts/gateway3utils.py:612-640 | the XMODEM transfer step writes no `NANDW` |
| BurnProperties.BootCtrlText | scripts/gateway3utils.py:439-448 | the boot-info update writes only plain text commands |
| BurnProperties.NandwThenText | scripts/gateway3utils.py:644-652 | a `NANDW` followed by text commands counts one `NANDW` |
| BurnProperties.XmodemProgramNandwOnce | scripts/gateway3utils.py:644-652 | the programming step of a completed XMODEM burn writes exactly one `NANDW` |
| BurnProperties.XmodemFlashNandwOnce | scripts/gateway3utils.py:612-652 | a completed transfer plus programming writes exactly one `NANDW` |
| BurnProperties.XmodemProgramsOnce | scripts/gateway3utils.py:623-652 | a completed XMODEM burn writes exactly one `NANDW`; by `XmodemProgramsPadded` it is the one programming the padded image |
| BurnProperties.TftpProgramsUnpadded | scripts/gateway3utils.py:747-760 | a completed TFTP burn fetches `<basename>_padding` but programs the unpadded size, and never writes boot info |
| BurnProperties.NotReadyWritesOnlyKeys | scripts/gateway3utils.py:584-587 | when the gateway boots its OS, each burn returns False having written only `u` keys |
| BurnProperties.TransportKeepsEntries | scripts/gateway3utils.py:791-794 | the transports change no `params` entry but `fwfile` |
| BurnProperties.StageEntries | scripts/gateway3utils.py:788-804 | a stage sets type `<kind><fwtype[-2:]>`, file `name` (or `name_raw` when wrapped) and the offset, keeps every other entry, and raises before writing when the offset is missing |
| BurnProperties.BurnAllBurnsBoth | scripts/gateway3utils.py:783-809 | once extraction and version succeed, the kernel burn's result never stops the run; a completed run burned the rootfs last with type `rootfs<suffix>`, the rootfs offset and file `rootfs_<version>.bin_raw`, or `rootfs_<version>.bin_raw_raw` when the stripped rootfs starts with a magic and is unwrapped a second time |
| BurnProperties.BurnAllChecks | scripts/gateway3utils.py:768-781 | with no transport, a bad container or no version, nothing is written and `params` is unchanged; it raises exactly on an unreadable container or a missing version |
| BurnProperties.FirmwareBurnChecks | scripts/gateway3utils.py:837-849 | a container without `MIOT` or a type outside the twelve names is refused, writing nothing and changing nothing |
| BurnProperties.SingleImageOffset | scripts/gateway3utils.py:850-881 | a single image over tftp or xmodem is burned at its table offset with RAM base 0xa1000000, tftp winning |
| BurnProperties.ContainerSlots | scripts/gateway3utils.py:858-876 | a container burns into slot 0, slot 1, or offset 0 for any other suffix |
| BurnProperties.BlockExceedsPage | scripts/gateway3utils.py:504-512 | an image of at least one erase block reaches a page boundary |
| BurnProperties.UartFlashFails | scripts/gateway3utils.py:513-514 | without an offset such an image never completes the UART loop |
| BurnProperties.UartWithoutOffsetFails | scripts/gateway3utils.py:883-884 | `burn_firmware` without tftp or xmodem never completes a non-empty image, since the UART branch sets no offset |

## Left out

- Device I/O: opening, flushing and closing the serial port, `time.sleep`,
  `clear_serial_buffer` and baud rates. The console is a sequence of lines
  already decoded plus a log of written commands. A Unicode decoding error is
  not modelled.
- `console.read(console.in_waiting)` after the XMODEM transfer takes the next
  line, or an empty string when none is left. The number of lines buffered
  after the ROM console's first newline is the parameter `pending`.
- Waiting forever: `Blocked` marks where the source would block on a console
  that stays silent.
- The `xmodem` library's transfers of `flasher.bin` and of the image. They
  write no command to the log, and their success is not modelled. The only
  check is the `Rx len=` report that follows.
- The `tftpy` server, `_tftp_server` and the thread running flag and join:
  foreign library and concurrency.
- Module presence checks, `os.path.exists` checks, `check_comport_exist`
  (it enumerates ports), file `stat`/`remove`, temporary files, and the
  `sys.platform == 'darwin'` reopen.
- YAML loading in `calc_checksum_boot_info`. The configuration is a map
  argument. `None` stands only for the two cases that return `""`: the
  `yaml` module is not loaded, or the file does not exist.
- BootInfo.CalcChecksumBootInfo: the raising cases of the configuration are
  not modelled. An unreadable file raises at `open`, malformed YAML raises at
  `yaml.safe_load`, and an empty file gives `conf is None`, which raises
  AttributeError at `conf.get`. Values are integers only (`map<string, int>`),
  so the TypeError of `>>` or `&` on a non-integer value is not modelled.
- Serial.Us: the wake-up loop of `enter_bootrom_console_and_get_ready` writes
  a `u` on every 50 ms poll, whether or not a line is waiting. The model
  treats every poll as finding a line, so it writes exactly one `u` per line
  read, plus the first two. The real count depends on timing and is at least
  that. `BootromSession` and the burn functions therefore fix one log of the
  many the program can write. The lemmas about them say only "wake-up keys,
  then ...".
- `generate_telnet_password` (hashlib, hmac, base64) and `main` (argparse),
  except the `params` it builds.
- Progress output, `print`, `pyprind` and `log=True` printing.
  `convert_cmdline` returns the lines it would print.
- The regular expression in `burn_all_firmwares`. Its match is the `version`
  parameter; `None` stands for no match, which raises at `.group(1)`.
- `burn_by_uart` reading from a file: the image is the `file` parameter,
  unwrapped and padded exactly as `generate_padded_firmware` writes it.
- Extract error kinds: besides the two magics and an unreadable length, other
  short reads are modelled the way Python slices them, never as errors.

## Findings

| source | as written | input that shows it | evidently intended | confidence | as-written member | corrected member |
|---|---|---|---|---|---|---|
| scripts/gateway3utils.py:275-292 | `generate_firmware_for_fw_update` writes `raw`, which is only the 16 bytes read at line 275, while the length field (line 290) and checksum (line 279) cover the whole file | a 32-byte `linux_0` image `01 00 .. 00`: the output's length field declares 32 + 0x1e0 + 0x200 + 4 bytes but only 16 + 0x1e0 + 0x200 + 4 follow it | the whole image is written as the payload, so unwrapping gives back the image with its padding and trailer, whose checksum is 0 | not executed | Container.WrapForUpdateExample | Container.UnwrapChecksumZero |
